/**
 * The layered store's facade (`src/petstore/mod.rs`): the five
 * repositories and the operations that span them. Each repository borrow is
 * taken and given back inside one repository call, so a cross-entity
 * operation such as pet creation is a sequence of independent writes and is
 * not rolled back when a later one fails.
 */
module Petstore {
  import opened Wrappers
  import opened Model
  import opened Keys
  import opened Queries
  import opened Cascade
  import opened Batches
  import opened Repository

  /** The facade's own checks, and repository errors passed through unchanged. */
  datatype PetstoreError = InvalidInput | MissingIdentifier | Repo(kind: RepoError)

  type PetstoreResult<T> = Result<T, PetstoreError>

  /** The three maps `add_pet` writes, after the call, and its result. */
  datatype AddPetOutcome = AddPetOutcome(
    pets: map<U64, Pet>,
    tags: map<U64, Tag>,
    categories: map<U64, Category>,
    result: PetstoreResult<U64>)

  /**
   * Why the tag loop of `add_pet` stops early, if it does: at the first tag
   * it cannot store, either because that tag has a preset id or because the
   * tag store cannot be written.
   */
  function TagsError(free: bool, ts: seq<Tag>): (e: Option<PetstoreError>)
    ensures e.None? <==> (forall t :: t in ts ==> t.id.None?) && (ts != [] ==> free)
  {
    var n := Registrable(free, ts);
    if n < |ts| then
      Some(if ts[n].id.Some? then InvalidInput else Repo(BorrowMut))
    else
      assert forall t :: t in ts ==> t.id.None? by {
        forall t | t in ts ensures t.id.None? {
          var i :| 0 <= i < |ts| && ts[i] == t;
        }
      }
      None
  }

  /** Why the category step of `add_pet` fails, if it does. */
  function CategoryError(free: bool, c: Option<Category>): (e: Option<PetstoreError>)
    ensures e.None? <==> c.Some? ==> c.value.id.None? && free
  {
    if c.None? then None
    else if c.value.id.Some? then Some(InvalidInput)
    else if !free then Some(Repo(BorrowMut))
    else None
  }

  /**
   * What `add_pet` does, given the three maps and whether each can be
   * written. A pet with a preset id is refused before anything is touched.
   * Otherwise the pet is stored first; then its tags are registered in
   * order, each refused when it carries an id; then its category, refused
   * likewise. A refusal or a failed write ends the call, and whatever was
   * stored before it stays stored.
   */
  function AddPetSpec(
    pets: map<U64, Pet>, tags: map<U64, Tag>, categories: map<U64, Category>,
    petsFree: bool, tagsFree: bool, categoriesFree: bool, pet: Pet): AddPetOutcome
    requires IdRoom(pets.Keys, 1) && IdRoom(tags.Keys, |TagsOf(pet)|) && IdRoom(categories.Keys, 1)
  {
    if pet.id.Some? then AddPetOutcome(pets, tags, categories, Err(InvalidInput))
    else if !petsFree then AddPetOutcome(pets, tags, categories, Err(Repo(BorrowMut)))
    else
      var id := NextId(pets.Keys);
      var pets' := pets[id := pet.(id := Some(id))];
      var tags' := RegisterTags(tags, tagsFree, TagsOf(pet));
      var tagsError := TagsError(tagsFree, TagsOf(pet));
      if tagsError.Some? then
        AddPetOutcome(pets', tags', categories, Err(tagsError.value))
      else
        var categoryError := CategoryError(categoriesFree, pet.category);
        AddPetOutcome(pets', tags', RegisterCategory(categories, categoriesFree, pet.category),
          if categoryError.Some? then Err(categoryError.value) else Ok(id))
  }

  /** A pet that already has an id is refused and nothing is written. */
  lemma AddPetRefusesPresetId(
    pets: map<U64, Pet>, tags: map<U64, Tag>, categories: map<U64, Category>,
    petsFree: bool, tagsFree: bool, categoriesFree: bool, pet: Pet)
    requires IdRoom(pets.Keys, 1) && IdRoom(tags.Keys, |TagsOf(pet)|) && IdRoom(categories.Keys, 1)
    requires pet.id.Some?
    ensures AddPetSpec(pets, tags, categories, petsFree, tagsFree, categoriesFree, pet)
      == AddPetOutcome(pets, tags, categories, Err(InvalidInput))
  {
  }

  /**
   * Whenever the pet itself was accepted it is stored under the next free id,
   * and on success that id is what the call returns.
   */
  lemma AddPetStoresPet(
    pets: map<U64, Pet>, tags: map<U64, Tag>, categories: map<U64, Category>,
    petsFree: bool, tagsFree: bool, categoriesFree: bool, pet: Pet)
    requires IdRoom(pets.Keys, 1) && IdRoom(tags.Keys, |TagsOf(pet)|) && IdRoom(categories.Keys, 1)
    ensures var o := AddPetSpec(pets, tags, categories, petsFree, tagsFree, categoriesFree, pet);
      var id := NextId(pets.Keys);
      && (pet.id.None? && petsFree ==> o.pets == pets[id := pet.(id := Some(id))])
      && (o.result.Ok? ==> o.result.value == id && id !in pets)
  {
  }

  /** The call succeeds exactly when no entity carries an id and every needed map is writable. */
  lemma AddPetSucceedsIff(
    pets: map<U64, Pet>, tags: map<U64, Tag>, categories: map<U64, Category>,
    petsFree: bool, tagsFree: bool, categoriesFree: bool, pet: Pet)
    requires IdRoom(pets.Keys, 1) && IdRoom(tags.Keys, |TagsOf(pet)|) && IdRoom(categories.Keys, 1)
    ensures AddPetSpec(pets, tags, categories, petsFree, tagsFree, categoriesFree, pet).result.Ok? <==>
      && pet.id.None? && petsFree
      && (forall t :: t in TagsOf(pet) ==> t.id.None?) && (TagsOf(pet) != [] ==> tagsFree)
      && (pet.category.Some? ==> pet.category.value.id.None? && categoriesFree)
  {
  }

  /** Nothing stored before the call is lost or changed, whatever the outcome. */
  lemma AddPetKeepsEarlierEntries(
    pets: map<U64, Pet>, tags: map<U64, Tag>, categories: map<U64, Category>,
    petsFree: bool, tagsFree: bool, categoriesFree: bool, pet: Pet)
    requires IdRoom(pets.Keys, 1) && IdRoom(tags.Keys, |TagsOf(pet)|) && IdRoom(categories.Keys, 1)
    ensures var o := AddPetSpec(pets, tags, categories, petsFree, tagsFree, categoriesFree, pet);
      && (forall k :: k in pets ==> k in o.pets && o.pets[k] == pets[k])
      && (forall k :: k in tags ==> k in o.tags && o.tags[k] == tags[k])
      && (forall k :: k in categories ==> k in o.categories && o.categories[k] == categories[k])
  {
    if pet.id.None? && petsFree {
      RegisterTagsKeeps(tags, tagsFree, TagsOf(pet));
    }
  }

  /** Every pet, tag and category stored after the call sits under its own id, as before it. */
  lemma AddPetKeepsKeyed(
    pets: map<U64, Pet>, tags: map<U64, Tag>, categories: map<U64, Category>,
    petsFree: bool, tagsFree: bool, categoriesFree: bool, pet: Pet)
    requires IdRoom(pets.Keys, 1) && IdRoom(tags.Keys, |TagsOf(pet)|) && IdRoom(categories.Keys, 1)
    requires PetsKeyed(pets) && TagsKeyed(tags) && CategoriesKeyed(categories)
    ensures var o := AddPetSpec(pets, tags, categories, petsFree, tagsFree, categoriesFree, pet);
      PetsKeyed(o.pets) && TagsKeyed(o.tags) && CategoriesKeyed(o.categories)
  {
    if pet.id.None? && petsFree {
      RegisterTagsKeeps(tags, tagsFree, TagsOf(pet));
    }
  }

  /** The three buckets of `get_inventory`: each counts the stored pets with that status. */
  lemma {:induction false} InventoryOfAllPets(m: map<U64, Pet>, s: Status)
    requires PetsKeyed(m)
    ensures CountStatus(FindPets(m, AnyPet()), s) == StatusCount(m, s)
  {
    CountFoundPets(m, AnyPet(), s);
    AllFoundWithStatus(m, s);
  }

  lemma AllFoundWithStatus(m: map<U64, Pet>, s: Status)
    ensures FoundWithStatus(m, AnyPet(), s) == KeysWithStatus(m, m.Keys, s)
  {
    var found, keyed := FoundWithStatus(m, AnyPet(), s), KeysWithStatus(m, m.Keys, s);
    forall k
      ensures k in found <==> k in keyed
    {
      if k in m {
        assert AnyPet()(m[k]);
      }
    }
  }

  /** Counting the prefix of one more pet adds that pet's contribution. */
  lemma CountStatusPrefix(ps: seq<Pet>, i: nat, s: Status)
    requires i < |ps|
    ensures CountStatus(ps[..i + 1], s) == CountStatus(ps[..i], s) + (if ps[i].status == Some(s) then 1 else 0)
  {
    assert ps[..i + 1][..i] == ps[..i];
  }

  /**
   * What `add_users` does: `add_user` on each user in order (refusing a
   * preset id before touching the repository), collecting the usernames and
   * stopping at the first failure. Users stored before the failure stay.
   */
  function AddUsersSpec(m: map<U64, User>, free: bool, us: seq<User>): (map<U64, User>, PetstoreResult<seq<string>>)
    requires IdRoom(m.Keys, |us|)
    decreases |us|
  {
    if us == [] then (m, Ok([]))
    else if us[0].id.Some? then (m, Err(InvalidInput))
    else if !free then (m, Err(Repo(BorrowMut)))
    else
      var id := NextId(m.Keys);
      RoomAfterInsert(m, us[0].(id := Some(id)), |us|);
      AfterNames([us[0].username], AddUsersSpec(m[id := us[0].(id := Some(id))], free, us[1..]))
  }

  /** One user of a batch: refused, or stored before the rest of the batch runs. */
  lemma AddUsersStep(m: map<U64, User>, free: bool, us: seq<User>, i: nat)
    requires i < |us| && IdRoom(m.Keys, |us| - i)
    ensures us[i].id.Some? ==> AddUsersSpec(m, free, us[i..]) == (m, Err(InvalidInput))
    ensures us[i].id.None? && !free ==> AddUsersSpec(m, free, us[i..]) == (m, Err(Repo(BorrowMut)))
    ensures us[i].id.None? && free ==>
      var id := NextId(m.Keys);
      var m' := m[id := us[i].(id := Some(id))];
      && IdRoom(m'.Keys, |us| - (i + 1))
      && AddUsersSpec(m, free, us[i..]) == AfterNames([us[i].username], AddUsersSpec(m', free, us[i + 1..]))
  {
    assert us[i..][0] == us[i] && us[i..][1..] == us[i + 1..];
    RoomAfterInsert(m, us[i].(id := Some(NextId(m.Keys))), |us| - i);
  }

  /**
   * `add_users` succeeds exactly when no user has a preset id and (for a
   * non-empty batch) the user map is writable; it then returns every
   * username in order and stores the users, in order, under consecutive
   * new ids, each carrying its id.
   */
  lemma {:induction false} AddUsersSucceedsIff(m: map<U64, User>, free: bool, us: seq<User>)
    requires IdRoom(m.Keys, |us|)
    ensures var w := AddUsersSpec(m, free, us);
      && (w.1.Ok? <==> (forall i :: 0 <= i < |us| ==> us[i].id.None?) && (us != [] ==> free))
      && (w.1.Ok? ==> w.1.value == Usernames(us) && |w.0| == |m| + |us|)
      && (w.1.Ok? && us != [] ==> w.0 == StoreAll(m, us, NextId(m.Keys)))
      && (us == [] ==> w.0 == m)
    decreases |us|
  {
    AddUsersStoresInOrder(m, free, us);
    if us != [] && us[0].id.None? && free {
      var id := NextId(m.Keys);
      var m1 := m[id := us[0].(id := Some(id))];
      RoomAfterInsert(m, us[0].(id := Some(id)), |us|);
      AddUsersSucceedsIff(m1, free, us[1..]);
      assert forall i :: 1 <= i < |us| ==> us[1..][i - 1] == us[i];
      if !(forall i :: 0 <= i < |us| ==> us[i].id.None?) {
        var i :| 0 <= i < |us| && us[i].id.Some?;
        assert us[1..][i - 1].id.Some?;
      }
    }
  }

  /**
   * When user `i` is the first with a preset id, the users before it have
   * been stored, in order, under consecutive new ids (so the map grew by
   * `i`) and the batch fails with `InvalidInput`; nothing stored before the
   * call is lost.
   */
  lemma {:induction false} AddUsersStopsAtFirstPresetId(m: map<U64, User>, us: seq<User>, i: nat)
    requires IdRoom(m.Keys, |us|)
    requires i < |us| && us[i].id.Some? && forall j :: 0 <= j < i ==> us[j].id.None?
    ensures var w := AddUsersSpec(m, true, us);
      && w.1 == Err(InvalidInput) && |w.0| == |m| + i
      && (forall k :: k in m ==> k in w.0 && w.0[k] == m[k])
      && w.0 == StoreAll(m, us[..i], NextId(m.Keys))
    decreases |us|
  {
    AddUsersStoresPrefix(m, us, i);
    if i > 0 {
      var id := NextId(m.Keys);
      var m1 := m[id := us[0].(id := Some(id))];
      RoomAfterInsert(m, us[0].(id := Some(id)), |us|);
      AddUsersStopsAtFirstPresetId(m1, us[1..], i - 1);
    }
  }

  /** A batch whose first user has no id, with the map writable: that user is stored under the next id, then the rest runs. */
  lemma AddUsersFirstStored(m: map<U64, User>, us: seq<User>)
    requires us != [] && IdRoom(m.Keys, |us|) && us[0].id.None?
    ensures var base := NextId(m.Keys);
      var m1 := m[base := us[0].(id := Some(base))];
      && IdRoom(m1.Keys, |us| - 1)
      && AddUsersSpec(m, true, us) == AfterNames([us[0].username], AddUsersSpec(m1, true, us[1..]))
      && (|us| >= 2 ==> NextId(m1.Keys) == base + 1)
  {
    assert us[0..] == us;
    AddUsersStep(m, true, us, 0);
    if |us| >= 2 {
      NextIdIncreases(m.Keys);
      assert m[NextId(m.Keys) := us[0].(id := Some(NextId(m.Keys)))].Keys == m.Keys + {NextId(m.Keys)};
    }
  }

  /**
   * A batch that succeeds stores its users, in order, under consecutive new
   * ids, each carrying its id; an empty batch changes nothing.
   */
  lemma {:induction false} AddUsersStoresInOrder(m: map<U64, User>, free: bool, us: seq<User>)
    requires IdRoom(m.Keys, |us|)
    ensures var w := AddUsersSpec(m, free, us);
      && (w.1.Ok? && us != [] ==> w.0 == StoreAll(m, us, NextId(m.Keys)))
      && (us == [] ==> w.0 == m)
    decreases |us|
  {
    if us != [] && us[0].id.None? && free {
      var base := NextId(m.Keys);
      AddUsersFirstStored(m, us);
      AddUsersStoresInOrder(m[base := us[0].(id := Some(base))], free, us[1..]);
      StoreAllFirst(m, us, base);
    }
  }

  /**
   * When user `i` is the first with a preset id, the map afterwards is the
   * old one with exactly the users before `i` stored under consecutive new
   * ids.
   */
  lemma {:induction false} AddUsersStoresPrefix(m: map<U64, User>, us: seq<User>, i: nat)
    requires IdRoom(m.Keys, |us|)
    requires i < |us| && us[i].id.Some? && forall j :: 0 <= j < i ==> us[j].id.None?
    ensures AddUsersSpec(m, true, us).0 == StoreAll(m, us[..i], NextId(m.Keys))
    decreases i
  {
    var base := NextId(m.Keys);
    if i > 0 {
      PrefixSplit(us, i);
      AddUsersFirstStored(m, us);
      AddUsersStoresPrefix(m[base := us[0].(id := Some(base))], us[1..], i - 1);
      StoreAllFirst(m, us[..i], base);
    } else {
      assert us[0..] == us;
      AddUsersStep(m, true, us, 0);
      assert StoreAll(m, us[..0], base) == m;
    }
  }

  /**
   * The layered store does not check usernames: a batch of two new users
   * with the same name stores both and returns the name twice.
   */
  lemma AddUsersAcceptsDuplicateNames(m: map<U64, User>, a: User, b: User)
    requires IdRoom(m.Keys, 2)
    requires a.id.None? && b.id.None? && a.username == b.username
    ensures NextId(m.Keys) < U64_MAX
    ensures var id := NextId(m.Keys);
      AddUsersSpec(m, true, [a, b])
        == (m[id := a.(id := Some(id))][id + 1 := b.(id := Some(id + 1))], Ok([a.username, a.username]))
  {
    var id := NextId(m.Keys);
    var m1 := m[id := a.(id := Some(id))];
    assert [a, b][0..] == [a, b] && [a, b][1..] == [b];
    AddUsersStep(m, true, [a, b], 0);
    NextIdIncreases(m.Keys);
    assert m1.Keys == m.Keys + {id};
    AddUsersSingle(m1, b);
    assert [a.username] + [b.username] == [a.username, a.username];
  }

  /** A batch of one new user stores it under the next id and returns its name. */
  lemma AddUsersSingle(m: map<U64, User>, u: User)
    requires IdRoom(m.Keys, 1) && u.id.None?
    ensures var id := NextId(m.Keys);
      AddUsersSpec(m, true, [u]) == (m[id := u.(id := Some(id))], Ok([u.username]))
  {
    var id := NextId(m.Keys);
    AddUsersStep(m, true, [u], 0);
    assert [u][0..] == [u] && [u][1..] == [];
    assert [u.username] + [] == [u.username];
  }

  /** The counting loop of `get_inventory`: how many of `ps` have each status. */
  method Tally(ps: seq<Pet>) returns (available: nat, pending: nat, adopted: nat)
    ensures available == CountStatus(ps, Available)
    ensures pending == CountStatus(ps, Pending)
    ensures adopted == CountStatus(ps, Adopted)
  {
    available, pending, adopted := 0, 0, 0;
    for i := 0 to |ps|
      invariant available == CountStatus(ps[..i], Available)
      invariant pending == CountStatus(ps[..i], Pending)
      invariant adopted == CountStatus(ps[..i], Adopted)
    {
      CountStatusPrefix(ps, i, Available);
      CountStatusPrefix(ps, i, Pending);
      CountStatusPrefix(ps, i, Adopted);
      match ps[i].status {
        case Some(Available) => available := available + 1;
        case Some(Pending) => pending := pending + 1;
        case Some(Adopted) => adopted := adopted + 1;
        case None =>
      }
    }
    assert ps[..|ps|] == ps;
  }

  /**
   * The tag loop of `add_pet`: registers `ts` in order in the tag
   * repository and reports why it stopped early, if it did.
   */
  method AddPetTags(tags: TagRepository, ts: seq<Tag>) returns (e: Option<PetstoreError>)
    requires tags.Valid() && IdRoom(tags.tags.entries.Keys, |ts|)
    modifies tags.tags
    ensures tags.Valid() && tags.tags.Borrows() == old(tags.tags.Borrows())
    ensures tags.tags.entries == RegisterTags(old(tags.tags.entries), old(tags.tags.Writable()), ts)
    ensures e == TagsError(old(tags.tags.Writable()), ts)
  {
    ghost var free := tags.tags.Writable();
    ghost var goal := RegisterTags(tags.tags.entries, free, ts);
    ghost var n := Registrable(free, ts);
    var i := 0;
    assert ts[0..] == ts;
    while i < |ts|
      invariant 0 <= i <= |ts| && i <= n
      invariant n == i + Registrable(free, ts[i..])
      invariant tags.Valid() && tags.tags.Borrows() == old(tags.tags.Borrows()) && free == tags.tags.Writable()
      invariant IdRoom(tags.tags.entries.Keys, |ts| - i)
      invariant RegisterTags(tags.tags.entries, free, ts[i..]) == goal
    {
      var tag := ts[i];
      if tag.id.Some? || !free {
        RegisterTagsStop(tags.tags.entries, free, ts, i);
      } else {
        RegisterTagsStep(tags.tags.entries, ts, i);
      }
      if tag.id.Some? {
        TagsErrorAt(free, ts, i);
        return Some(InvalidInput);
      }
      var added := tags.Add(tag);
      if added.Err? {
        TagsErrorAt(free, ts, i);
        return Some(Repo(added.error));
      }
      i := i + 1;
    }
    TagsErrorAt(free, ts, i);
    e := None;
  }

  /** Where the tag loop stops, `TagsError` names the reason: the tag's preset id, the busy store, or none. */
  lemma TagsErrorAt(free: bool, ts: seq<Tag>, i: nat)
    requires i <= |ts| && Registrable(free, ts) == i + Registrable(free, ts[i..])
    requires i < |ts| ==> ts[i].id.Some? || !free
    ensures i < |ts| ==> TagsError(free, ts) == Some(if ts[i].id.Some? then InvalidInput else Repo(BorrowMut))
    ensures i == |ts| ==> TagsError(free, ts) == None
  {
    if i < |ts| {
      assert ts[i..][0] == ts[i];
    }
  }

  /** `Petstore`: the five repositories behind the facade's operations. */
  class Petstore {
    const pets: PetRepository
    const tags: TagRepository
    const categories: CategoryRepository
    const orders: OrderRepository
    const users: UserRepository

    ghost predicate Valid()
      reads pets, pets.pets, tags, tags.tags, categories, categories.categories
      reads orders, orders.orders, users, users.users
    {
      pets.Valid() && tags.Valid() && categories.Valid() && orders.Valid() && users.Valid()
    }

    /** The borrow state of the five maps; no facade operation leaves a borrow behind. */
    function Borrows(): ((nat, bool), (nat, bool), (nat, bool), (nat, bool), (nat, bool))
      reads pets, pets.pets, tags, tags.tags, categories, categories.categories
      reads orders, orders.orders, users, users.users
    {
      (pets.pets.Borrows(), tags.tags.Borrows(), categories.categories.Borrows(),
       orders.orders.Borrows(), users.users.Borrows())
    }

    /** `new`: five empty, unborrowed repositories. */
    constructor ()
      ensures Valid()
      ensures pets.pets.entries == map[] && tags.tags.entries == map[] && categories.categories.entries == map[]
      ensures orders.orders.entries == map[] && users.users.entries == map[]
      ensures pets.pets.Writable() && tags.tags.Writable() && categories.categories.Writable()
      ensures orders.orders.Writable() && users.users.Writable()
      ensures fresh(pets) && fresh(tags) && fresh(categories) && fresh(orders) && fresh(users)
      ensures fresh(pets.pets) && fresh(tags.tags) && fresh(categories.categories)
      ensures fresh(orders.orders) && fresh(users.users)
    {
      pets := new PetRepository();
      tags := new TagRepository();
      categories := new CategoryRepository();
      orders := new OrderRepository();
      users := new UserRepository();
    }

    /** `get_pet`: the pet stored under `id`, if any. */
    method GetPet(id: U64) returns (r: PetstoreResult<Option<Pet>>)
      requires Valid()
      modifies pets.pets
      ensures Valid() && pets.pets.entries == old(pets.pets.entries) && Borrows() == old(Borrows())
      ensures r == if pets.pets.Readable() then Ok(Lookup(pets.pets.entries, id)) else Err(Repo(Borrow))
      ensures r.Ok? && r.value.Some? ==> id in pets.pets.entries && r.value.value.id == Some(id)
    {
      var got := pets.Get(id);
      r := if got.Ok? then Ok(got.value) else Err(Repo(got.error));
    }

    /**
     * `add_pet`: the outcome `AddPetSpec` describes, on the maps and borrow
     * states before the call.
     */
    method AddPet(pet: Pet) returns (r: PetstoreResult<U64>)
      requires Valid()
      requires IdRoom(pets.pets.entries.Keys, 1) && IdRoom(tags.tags.entries.Keys, |TagsOf(pet)|)
      requires IdRoom(categories.categories.entries.Keys, 1)
      modifies pets.pets, tags.tags, categories.categories
      ensures Valid() && Borrows() == old(Borrows())
      ensures var o := AddPetSpec(
          old(pets.pets.entries), old(tags.tags.entries), old(categories.categories.entries),
          old(pets.pets.Writable()), old(tags.tags.Writable()), old(categories.categories.Writable()), pet);
        && pets.pets.entries == o.pets && tags.tags.entries == o.tags
        && categories.categories.entries == o.categories && r == o.result
    {
      ghost var o := AddPetSpec(
        pets.pets.entries, tags.tags.entries, categories.categories.entries,
        pets.pets.Writable(), tags.tags.Writable(), categories.categories.Writable(), pet);
      if pet.id.Some? {
        return Err(InvalidInput);
      }
      var added := pets.Add(pet);
      if added.Err? {
        return Err(Repo(added.error));
      }
      var stored := added.value;
      assert TagsOf(stored) == TagsOf(pet) && stored.category == pet.category;
      assert pets.pets.entries == o.pets;
      var tagsError := AddPetTags(tags, TagsOf(stored));
      assert tags.tags.entries == o.tags;
      if tagsError.Some? {
        return Err(tagsError.value);
      }
      var categoryError := AddPetCategory(stored.category);
      r := if categoryError.Some? then Err(categoryError.value) else Ok(stored.id.value);
    }

    /** The category step of `add_pet`. */
    method AddPetCategory(c: Option<Category>) returns (e: Option<PetstoreError>)
      requires categories.Valid() && IdRoom(categories.categories.entries.Keys, 1)
      modifies categories.categories
      ensures categories.Valid() && categories.categories.Borrows() == old(categories.categories.Borrows())
      ensures categories.categories.entries
        == RegisterCategory(old(categories.categories.entries), old(categories.categories.Writable()), c)
      ensures e == CategoryError(old(categories.categories.Writable()), c)
    {
      if c.None? {
        return None;
      }
      if c.value.id.Some? {
        return Some(InvalidInput);
      }
      var added := categories.Add(c.value);
      e := if added.Err? then Some(Repo(added.error)) else None;
    }
  
    /**
     * `update_pet`: a pet without an id is refused with `MissingIdentifier`;
     * otherwise the stored pet with that id is replaced, or the repository
     * reports `NotFound` and nothing changes.
     */
    method UpdatePet(pet: Pet) returns (r: PetstoreResult<Pet>)
      requires Valid()
      modifies pets.pets
      ensures Valid() && Borrows() == old(Borrows())
      ensures pet.id.None? ==> r == Err(MissingIdentifier) && pets.pets.entries == old(pets.pets.entries)
      ensures pet.id.Some? && !old(pets.pets.Writable()) ==>
        r == Err(Repo(BorrowMut)) && pets.pets.entries == old(pets.pets.entries)
      ensures pet.id.Some? && old(pets.pets.Writable()) && pet.id.value !in old(pets.pets.entries) ==>
        r == Err(Repo(NotFound)) && pets.pets.entries == old(pets.pets.entries)
      ensures pet.id.Some? && old(pets.pets.Writable()) && pet.id.value in old(pets.pets.entries) ==>
        r == Ok(pet) && pets.pets.entries == old(pets.pets.entries)[pet.id.value := pet]
    {
      if pet.id.None? {
        return Err(MissingIdentifier);
      }
      var updated := pets.Update(pet);
      r := if updated.Ok? then Ok(updated.value) else Err(Repo(updated.error));
    }

    /**
     * `get_pets_by_status`: the stored pets whose status is unset or listed
     * in `statuses`, all of them and only them, in increasing id order.
     */
    method GetPetsByStatus(statuses: seq<Status>) returns (r: PetstoreResult<seq<Pet>>)
      requires Valid()
      modifies pets.pets
      ensures Valid() && pets.pets.entries == old(pets.pets.entries) && Borrows() == old(Borrows())
      ensures r == if pets.pets.Readable() then Ok(FindPets(pets.pets.entries, ByStatus(statuses))) else Err(Repo(Borrow))
      ensures r.Ok? ==> forall p :: p in r.value <==> p in pets.pets.entries.Values && StatusMatches(statuses, p)
    {
      var found := pets.Find(ByStatus(statuses));
      r := if found.Ok? then Ok(found.value) else Err(Repo(found.error));
      if r.Ok? {
        FoundAreMatches(pets.pets.entries, ByStatus(statuses));
      }
    }

    /**
     * `find_pets_by_tag`: the stored pets that carry, for every name in
     * `names`, a tag with that name; all of them and only them, in
     * increasing id order.
     */
    method FindPetsByTag(names: seq<string>) returns (r: PetstoreResult<seq<Pet>>)
      requires Valid()
      modifies pets.pets
      ensures Valid() && pets.pets.entries == old(pets.pets.entries) && Borrows() == old(Borrows())
      ensures r == if pets.pets.Readable() then Ok(FindPets(pets.pets.entries, ByTags(names))) else Err(Repo(Borrow))
      ensures r.Ok? ==> forall p :: p in r.value <==> p in pets.pets.entries.Values && HasAllTags(names, p)
    {
      var found := pets.Find(ByTags(names));
      r := if found.Ok? then Ok(found.value) else Err(Repo(found.error));
      if r.Ok? {
        FoundAreMatches(pets.pets.entries, ByTags(names));
      }
    }

    /**
     * `delete_pet`: removes the pet stored under `id`; succeeds whether or
     * not there was one.
     */
    method DeletePet(id: U64) returns (r: PetstoreResult<()>)
      requires Valid()
      modifies pets.pets
      ensures Valid() && Borrows() == old(Borrows())
      ensures !old(pets.pets.Writable()) ==> r == Err(Repo(BorrowMut)) && pets.pets.entries == old(pets.pets.entries)
      ensures old(pets.pets.Writable()) ==> r == Ok(()) && pets.pets.entries == old(pets.pets.entries) - {id}
    {
      var deleted := pets.Delete(id);
      r := if deleted.Ok? then Ok(()) else Err(Repo(deleted.error));
    }

    /**
     * `get_inventory`: lists every pet and counts those with each status;
     * pets without a status are not counted.
     */
    method GetInventory() returns (r: PetstoreResult<Inventory>)
      requires Valid() && |pets.pets.entries| <= U32_MAX
      modifies pets.pets
      ensures Valid() && pets.pets.entries == old(pets.pets.entries) && Borrows() == old(Borrows())
      ensures !pets.pets.Readable() ==> r == Err(Repo(Borrow))
      ensures pets.pets.Readable() ==> r == Ok(Inventory(
        StatusCount(pets.pets.entries, Available),
        StatusCount(pets.pets.entries, Pending),
        StatusCount(pets.pets.entries, Adopted)))
    {
      var found := pets.Find(AnyPet());
      if found.Err? {
        return Err(Repo(found.error));
      }
      var ps := found.value;
      var available, pending, adopted := Tally(ps);
      InventoryOfAllPets(pets.pets.entries, Available);
      InventoryOfAllPets(pets.pets.entries, Pending);
      InventoryOfAllPets(pets.pets.entries, Adopted);
      r := Ok(Inventory(available, pending, adopted));
    }

    /**
     * `add_order`: an order that already has a status is refused with
     * `InvalidInput` (the guard looks at the status, not the id); otherwise
     * the order is stored under the next free id, which is returned. A
     * preset id is overwritten.
     */
    method AddOrder(order: Order) returns (r: PetstoreResult<U64>)
      requires Valid() && IdRoom(orders.orders.entries.Keys, 1)
      modifies orders.orders
      ensures Valid() && Borrows() == old(Borrows())
      ensures order.status.Some? ==> r == Err(InvalidInput) && orders.orders.entries == old(orders.orders.entries)
      ensures order.status.None? && !old(orders.orders.Writable()) ==>
        r == Err(Repo(BorrowMut)) && orders.orders.entries == old(orders.orders.entries)
      ensures order.status.None? && old(orders.orders.Writable()) ==>
        var id := NextId(old(orders.orders.entries).Keys);
        && r == Ok(id) && id !in old(orders.orders.entries)
        && orders.orders.entries == old(orders.orders.entries)[id := order.(id := Some(id))]
    {
      if order.status.Some? {
        return Err(InvalidInput);
      }
      var added := orders.Add(order);
      r := if added.Ok? then Ok(added.value.id.value) else Err(Repo(added.error));
    }

    /** `delete_order`: removes the order under `id`; reports whether there was one. */
    method DeleteOrder(id: U64) returns (r: PetstoreResult<bool>)
      requires Valid()
      modifies orders.orders
      ensures Valid() && Borrows() == old(Borrows())
      ensures !old(orders.orders.Writable()) ==>
        r == Err(Repo(BorrowMut)) && orders.orders.entries == old(orders.orders.entries)
      ensures old(orders.orders.Writable()) ==>
        r == Ok(id in old(orders.orders.entries)) && orders.orders.entries == old(orders.orders.entries) - {id}
    {
      var deleted := orders.Delete(id);
      r := if deleted.Ok? then Ok(deleted.value.Some?) else Err(Repo(deleted.error));
    }

    /** `find_order`: the order stored under `id`, if any. */
    method FindOrder(id: U64) returns (r: PetstoreResult<Option<Order>>)
      requires Valid()
      modifies orders.orders
      ensures Valid() && orders.orders.entries == old(orders.orders.entries) && Borrows() == old(Borrows())
      ensures r == if orders.orders.Readable() then Ok(Lookup(orders.orders.entries, id)) else Err(Repo(Borrow))
      ensures r.Ok? && r.value.Some? ==> id in orders.orders.entries && r.value.value.id == Some(id)
    {
      var got := orders.Get(id);
      r := if got.Ok? then Ok(got.value) else Err(Repo(got.error));
    }

    /**
     * `add_user`: a user with a preset id is refused with `InvalidInput`;
     * otherwise it is stored under the next free id and its username is
     * returned. The username is not checked against stored users.
     */
    method AddUser(newUser: User) returns (r: PetstoreResult<string>)
      requires Valid() && IdRoom(users.users.entries.Keys, 1)
      modifies users.users
      ensures Valid() && Borrows() == old(Borrows())
      ensures newUser.id.Some? ==> r == Err(InvalidInput) && users.users.entries == old(users.users.entries)
      ensures newUser.id.None? && !old(users.users.Writable()) ==>
        r == Err(Repo(BorrowMut)) && users.users.entries == old(users.users.entries)
      ensures newUser.id.None? && old(users.users.Writable()) ==>
        var id := NextId(old(users.users.entries).Keys);
        && r == Ok(newUser.username) && id !in old(users.users.entries)
        && users.users.entries == old(users.users.entries)[id := newUser.(id := Some(id))]
    {
      if newUser.id.Some? {
        return Err(InvalidInput);
      }
      var added := users.Add(newUser);
      r := if added.Ok? then Ok(added.value.username) else Err(Repo(added.error));
    }

    /**
     * `add_users`: `add_user` on each user in order, stopping at the first
     * failure; the outcome `AddUsersSpec` describes.
     */
    method AddUsers(us: seq<User>) returns (r: PetstoreResult<seq<string>>)
      requires Valid() && IdRoom(users.users.entries.Keys, |us|)
      modifies users.users
      ensures Valid() && Borrows() == old(Borrows())
      ensures (users.users.entries, r) == AddUsersSpec(old(users.users.entries), old(users.users.Writable()), us)
    {
      ghost var free := users.users.Writable();
      ghost var goal := AddUsersSpec(users.users.entries, free, us);
      var names: seq<string> := [];
      var i := 0;
      assert us[0..] == us;
      AfterNoNames(goal);
      while i < |us|
        invariant 0 <= i <= |us|
        invariant Valid() && Borrows() == old(Borrows()) && free == users.users.Writable()
        invariant IdRoom(users.users.entries.Keys, |us| - i)
        invariant AfterNames(names, AddUsersSpec(users.users.entries, free, us[i..])) == goal
      {
        AddUsersStep(users.users.entries, free, us, i);
        var added := AddUser(us[i]);
        if added.Err? {
          return Err(added.error);
        }
        AfterNamesConcat(names, added.value, AddUsersSpec(users.users.entries, free, us[i + 1..]));
        names := names + [added.value];
        i := i + 1;
      }
      assert names + [] == names;
      r := Ok(names);
    }

    /** `get_user`: a stored user with the given username, if there is one. */
    method GetUser(name: string) returns (r: PetstoreResult<Option<User>>)
      requires Valid()
      modifies users.users
      ensures Valid() && users.users.entries == old(users.users.entries) && Borrows() == old(Borrows())
      ensures !users.users.Readable() ==> r == Err(Repo(Borrow))
      ensures users.users.Readable() ==> r.Ok?
      ensures r.Ok? && r.value.Some? ==> r.value.value in users.users.entries.Values && r.value.value.username == name
      ensures r.Ok? && r.value.None? ==> forall k :: k in users.users.entries ==> users.users.entries[k].username != name
    {
      var found := users.FindOne(Named(name));
      r := if found.Ok? then Ok(found.value) else Err(Repo(found.error));
    }

    /**
     * `delete_user`: removes a stored user with the given username, if
     * there is one; succeeds either way.
     */
    method DeleteUser(name: string) returns (r: PetstoreResult<()>)
      requires Valid()
      modifies users.users
      ensures Valid() && Borrows() == old(Borrows())
      ensures !old(users.users.Writable()) ==> r == Err(Repo(BorrowMut)) && users.users.entries == old(users.users.entries)
      ensures old(users.users.Writable()) ==> r == Ok(())
      ensures old(users.users.Writable()) && !NameTaken(old(users.users.entries), name) ==>
        users.users.entries == old(users.users.entries)
      ensures old(users.users.Writable()) && NameTaken(old(users.users.entries), name) ==>
        exists k :: k in old(users.users.entries) && old(users.users.entries)[k].username == name
          && users.users.entries == old(users.users.entries) - {k}
    {
      var deleted := users.Delete(name);
      r := if deleted.Ok? then Ok(()) else Err(Repo(deleted.error));
    }

    /**
     * `update_user`: replaces the stored user with the same username,
     * keeping its id; `NotFound` when there is none.
     */
    method UpdateUser(updatedUser: User) returns (r: PetstoreResult<User>)
      requires Valid()
      modifies users.users
      ensures Valid() && Borrows() == old(Borrows())
      ensures !old(users.users.Writable()) ==>
        r == Err(Repo(BorrowMut)) && users.users.entries == old(users.users.entries)
      ensures old(users.users.Writable()) && !NameTaken(old(users.users.entries), updatedUser.username) ==>
        r == Err(Repo(NotFound)) && users.users.entries == old(users.users.entries)
      ensures old(users.users.Writable()) && NameTaken(old(users.users.entries), updatedUser.username) ==>
        exists k :: k in old(users.users.entries) && old(users.users.entries)[k].username == updatedUser.username
          && r == Ok(updatedUser.(id := Some(k)))
          && users.users.entries == old(users.users.entries)[k := updatedUser.(id := Some(k))]
    {
      var updated := users.Update(updatedUser);
      r := if updated.Ok? then Ok(updated.value) else Err(Repo(updated.error));
    }
  }
}
