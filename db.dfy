/**
 * The monolithic store (`src/db.rs`): one context holding every map, behind
 * a single borrow flag. Each public operation takes the whole context for
 * reading or writing once, so a cross-entity operation runs under one
 * borrow; it still does not roll back what it stored before a failure.
 */
module Db {
  import opened Wrappers
  import opened Model
  import opened Keys
  import opened Queries
  import opened Cascade
  import opened Batches

  /** `DbError`; the messages and the wrapped borrow errors are left out. */
  datatype DbError =
    | BorrowError
    | BorrowMutError
    | InvalidInput
    | MissingIdentifier
    | MissingPet
    | MissingUser
    | RedundantUserName

  type DbResult<T> = Result<T, DbError>

  /**
   * What the context's `add_user` does to the user map: a preset id is
   * refused, then a username some stored user already has; otherwise the
   * user is stored under the next free id and its username returned.
   */
  function AddUserSpec(m: map<U64, User>, u: User): (w: (map<U64, User>, DbResult<string>))
    requires IdRoom(m.Keys, 1)
    ensures w.1.Ok? <==> u.id.None? && !NameTaken(m, u.username)
    ensures w.1.Err? ==> w.0 == m && w.1.error == (if u.id.Some? then InvalidInput else RedundantUserName)
    ensures w.1.Ok? ==>
      var id := NextId(m.Keys);
      w.1.value == u.username && id !in m && w.0 == m[id := u.(id := Some(id))]
  {
    if u.id.Some? then (m, Err(InvalidInput))
    else if NameTaken(m, u.username) then (m, Err(RedundantUserName))
    else
      var id := NextId(m.Keys);
      (m[id := u.(id := Some(id))], Ok(u.username))
  }

  /**
   * `add_user` loses no stored user, keeps every user under its own id and
   * keeps usernames unique; afterwards the name is taken, unless the user
   * was refused for its preset id.
   */
  lemma AddUserKeepsInvariants(m: map<U64, User>, u: User)
    requires IdRoom(m.Keys, 1)
    ensures var w := AddUserSpec(m, u);
      && (forall k :: k in m ==> k in w.0 && w.0[k] == m[k])
      && (UsersKeyed(m) ==> UsersKeyed(w.0))
      && (UniqueUsernames(m) ==> UniqueUsernames(w.0))
      && (u.id.None? ==> NameTaken(w.0, u.username))
  {
    var w := AddUserSpec(m, u);
    if w.1.Ok? {
      var id := NextId(m.Keys);
      assert w.0[id].username == u.username;
    }
  }

  /**
   * What `add_users` does under its write borrow: the context's `add_user`
   * on each user in order, collecting the usernames and stopping at the
   * first failure. Users stored before the failure stay.
   */
  function AddUsersSpec(m: map<U64, User>, us: seq<User>): (map<U64, User>, DbResult<seq<string>>)
    requires IdRoom(m.Keys, |us|)
    decreases |us|
  {
    if us == [] then (m, Ok([]))
    else
      var w := AddUserSpec(m, us[0]);
      if w.1.Err? then (m, Err(w.1.error))
      else
        RoomAfterInsert(m, us[0].(id := Some(NextId(m.Keys))), |us|);
        AfterNames([w.1.value], AddUsersSpec(w.0, us[1..]))
  }

  /** One user of a batch: refused, or stored before the rest of the batch runs. */
  lemma AddUsersStep(m: map<U64, User>, us: seq<User>, i: nat)
    requires i < |us| && IdRoom(m.Keys, |us| - i)
    ensures var w := AddUserSpec(m, us[i]);
      && (w.1.Err? ==> AddUsersSpec(m, us[i..]) == (m, Err(w.1.error)))
      && (w.1.Ok? ==>
            && IdRoom(w.0.Keys, |us| - (i + 1))
            && AddUsersSpec(m, us[i..]) == AfterNames([w.1.value], AddUsersSpec(w.0, us[i + 1..])))
  {
    assert us[i..][0] == us[i] && us[i..][1..] == us[i + 1..];
    RoomAfterInsert(m, us[i].(id := Some(NextId(m.Keys))), |us| - i);
  }

  /** A batch never breaks the one-user-per-name rule, and loses no stored user. */
  lemma {:induction false} AddUsersKeepsNamesUnique(m: map<U64, User>, us: seq<User>)
    requires IdRoom(m.Keys, |us|)
    ensures var w := AddUsersSpec(m, us);
      && (UniqueUsernames(m) ==> UniqueUsernames(w.0))
      && (UsersKeyed(m) ==> UsersKeyed(w.0))
      && (forall k :: k in m ==> k in w.0 && w.0[k] == m[k])
    decreases |us|
  {
    if us != [] {
      var w := AddUserSpec(m, us[0]);
      AddUserKeepsInvariants(m, us[0]);
      if w.1.Ok? {
        RoomAfterInsert(m, us[0].(id := Some(NextId(m.Keys))), |us|);
        AddUsersKeepsNamesUnique(w.0, us[1..]);
      }
    }
  }

  /**
   * Two new users with the same name in one batch: the first is stored,
   * the second is refused with `RedundantUserName`, and the first stays
   * stored (the layered store accepts both instead).
   */
  lemma DuplicateNamesInBatch(m: map<U64, User>, a: User, b: User)
    requires IdRoom(m.Keys, 2)
    requires a.id.None? && b.id.None? && a.username == b.username && !NameTaken(m, a.username)
    ensures var id := NextId(m.Keys);
      AddUsersSpec(m, [a, b]) == (m[id := a.(id := Some(id))], Err(RedundantUserName))
  {
    var id := NextId(m.Keys);
    var m1 := m[id := a.(id := Some(id))];
    RoomAfterInsert(m, a.(id := Some(id)), 2);
    assert m1[id].username == b.username;
    assert AddUserSpec(m1, b) == (m1, Err(RedundantUserName));
    assert [a, b][1..] == [b];
    assert AddUsersSpec(m1, [b]) == (m1, Err(RedundantUserName));
  }

  /** A user the context's `add_user` refuses after the users before it in the batch were stored. */
  ghost predicate RefusedInBatch(m: map<U64, User>, us: seq<User>, i: nat)
    requires i < |us|
  {
    || us[i].id.Some?
    || NameTaken(m, us[i].username)
    || exists j :: 0 <= j < i && us[j].username == us[i].username
  }

  /**
   * `add_users` succeeds exactly when no user of the batch has a preset id,
   * their usernames are distinct and none is taken; it then returns every
   * username in order (and `AddUsersStoresInOrder` says where the users go).
   */
  lemma {:induction false} AddUsersSucceedsIff(m: map<U64, User>, us: seq<User>)
    requires IdRoom(m.Keys, |us|)
    ensures var w := AddUsersSpec(m, us);
      && (w.1.Ok? <==> FreshBatch(m, us))
      && (w.1.Ok? ==> w.1.value == Usernames(us))
    decreases |us|
  {
    if us != [] {
      var base := NextId(m.Keys);
      assert us[0..] == us;
      AddUsersStep(m, us, 0);
      if AddUserSpec(m, us[0]).1.Ok? {
        FreshBatchStep(m, base, us[0].(id := Some(base)), us);
        AddUsersSucceedsIff(m[base := us[0].(id := Some(base))], us[1..]);
      }
    }
  }

  /** A batch whose first user is accepted: that user is stored under the next id, then the rest runs. */
  lemma AddUsersFirstAccepted(m: map<U64, User>, us: seq<User>)
    requires us != [] && IdRoom(m.Keys, |us|) && us[0].id.None? && !NameTaken(m, us[0].username)
    ensures var base := NextId(m.Keys);
      var m1 := m[base := us[0].(id := Some(base))];
      && IdRoom(m1.Keys, |us| - 1)
      && AddUsersSpec(m, us) == AfterNames([us[0].username], AddUsersSpec(m1, us[1..]))
      && (|us| >= 2 ==> NextId(m1.Keys) == base + 1)
  {
    assert us[0..] == us;
    AddUsersStep(m, us, 0);
    if |us| >= 2 {
      NextIdIncreases(m.Keys);
      assert m[NextId(m.Keys) := us[0].(id := Some(NextId(m.Keys)))].Keys == m.Keys + {NextId(m.Keys)};
    }
  }

  /**
   * A batch that succeeds stores its users, in order, under consecutive new
   * ids and keeps every user stored before.
   */
  lemma {:induction false} AddUsersStoresInOrder(m: map<U64, User>, us: seq<User>)
    requires IdRoom(m.Keys, |us|)
    ensures var w := AddUsersSpec(m, us);
      w.1.Ok? && us != [] ==> w.0 == StoreAll(m, us, NextId(m.Keys))
    decreases |us|
  {
    if us != [] && us[0].id.None? && !NameTaken(m, us[0].username) {
      var base := NextId(m.Keys);
      var m1 := m[base := us[0].(id := Some(base))];
      AddUsersFirstAccepted(m, us);
      AddUsersStoresInOrder(m1, us[1..]);
      StoreAllFirst(m, us, base);
    }
  }

  /** User `i` refused after `us[0]` was stored is user `i - 1` of the rest refused by the grown map. */
  lemma RefusedInBatchStep(m: map<U64, User>, k: U64, us: seq<User>, i: nat)
    requires 0 < i < |us| && k !in m && RefusedInBatch(m, us, i)
    ensures RefusedInBatch(m[k := us[0].(id := Some(k))], us[1..], i - 1)
  {
    NameTakenAfterInsert(m, k, us[0].(id := Some(k)), us[i].username);
    assert us[1..][i - 1] == us[i];
    if j :| 0 <= j < i && us[j].username == us[i].username {
      if j > 0 {
        assert us[1..][j - 1] == us[j];
      }
    }
  }

  /**
   * A batch whose first `i` users are new and whose user `i` is refused
   * fails with that user's error, and keeps the first `i` users stored
   * under consecutive new ids.
   */
  lemma {:induction false} AddUsersStopsAtFirstRefusal(m: map<U64, User>, us: seq<User>, i: nat)
    requires i < |us| && IdRoom(m.Keys, |us|)
    requires FreshBatch(m, us[..i]) && RefusedInBatch(m, us, i)
    ensures var w := AddUsersSpec(m, us);
      && w.1 == Err(if us[i].id.Some? then InvalidInput else RedundantUserName)
      && w.0 == StoreAll(m, us[..i], NextId(m.Keys))
    decreases i
  {
    var base := NextId(m.Keys);
    if i > 0 {
      PrefixSplit(us, i);
      var m1 := m[base := us[0].(id := Some(base))];
      AddUsersFirstAccepted(m, us);
      FreshBatchStep(m, base, us[0].(id := Some(base)), us[..i]);
      RefusedInBatchStep(m, base, us, i);
      AddUsersStopsAtFirstRefusal(m1, us[1..], i - 1);
      StoreAllFirst(m, us[..i], base);
    } else {
      assert us[0..] == us;
      AddUsersStep(m, us, 0);
      assert StoreAll(m, us[..0], base) == m;
    }
  }

  /** The context's maps, as one value: what a shared borrow lets a closure see. */
  datatype Tables = Tables(
    pets: map<U64, Pet>,
    tags: map<U64, Tag>,
    categories: map<U64, Category>,
    orders: map<U64, Order>,
    users: map<U64, User>)

  /**
   * `users.values().find(|user| user.username == name)`: some stored user
   * with that name, or `None` when no stored user has it.
   */
  function FindUser(m: map<U64, User>, name: string): (u: Option<User>)
    ensures u.Some? ==> u.value in m.Values && u.value.username == name
    ensures u.None? <==> !NameTaken(m, name)
  {
    var k := FindKey(m, Named(name));
    if k.Some? then Some(m[k.value]) else None
  }

  /**
   * With usernames unique, the search by name is exact: it finds the one
   * user with that name, whatever order the map is visited in.
   */
  lemma FindUserUnique(m: map<U64, User>, name: string, k: U64)
    requires UniqueUsernames(m) && k in m && m[k].username == name
    ensures FindUser(m, name) == Some(m[k])
    ensures FindKey(m, Named(name)) == Some(k)
  {
    var j := FindKey(m, Named(name));
    assert j.Some? && m[j.value].username == name;
  }

  /** The maps `add_pet` writes, after the call, and its result. */
  datatype PetWrite = PetWrite(
    pets: map<U64, Pet>,
    tags: map<U64, Tag>,
    categories: map<U64, Category>,
    result: DbResult<U64>)

  /**
   * What `add_pet` does, given the three maps and whether the context can be
   * written. A pet with a preset id is refused before the borrow. Under the
   * borrow the pet is stored first, then its tags in order and its category,
   * each refused with `InvalidInput` when it carries an id. A refusal ends
   * the call and whatever was stored before it stays stored.
   */
  function AddPetSpec(
    pets: map<U64, Pet>, tags: map<U64, Tag>, categories: map<U64, Category>, free: bool, pet: Pet): PetWrite
    requires IdRoom(pets.Keys, 1) && IdRoom(tags.Keys, |TagsOf(pet)|) && IdRoom(categories.Keys, 1)
  {
    if pet.id.Some? then PetWrite(pets, tags, categories, Err(InvalidInput))
    else if !free then PetWrite(pets, tags, categories, Err(BorrowMutError))
    else
      var id := NextId(pets.Keys);
      var pets' := pets[id := pet.(id := Some(id))];
      var ts := TagsOf(pet);
      var tags' := RegisterTags(tags, true, ts);
      if Registrable(true, ts) < |ts| then PetWrite(pets', tags', categories, Err(InvalidInput))
      else
        var c := pet.category;
        PetWrite(pets', tags', RegisterCategory(categories, true, c),
          if c.Some? && c.value.id.Some? then Err(InvalidInput) else Ok(id))
  }

  /** The call succeeds exactly when no entity carries an id and the context can be written. */
  lemma AddPetSucceedsIff(
    pets: map<U64, Pet>, tags: map<U64, Tag>, categories: map<U64, Category>, free: bool, pet: Pet)
    requires IdRoom(pets.Keys, 1) && IdRoom(tags.Keys, |TagsOf(pet)|) && IdRoom(categories.Keys, 1)
    ensures AddPetSpec(pets, tags, categories, free, pet).result.Ok? <==>
      && pet.id.None? && free
      && (forall t :: t in TagsOf(pet) ==> t.id.None?)
      && (pet.category.Some? ==> pet.category.value.id.None?)
    ensures var o := AddPetSpec(pets, tags, categories, free, pet);
      o.result.Ok? ==> o.result.value == NextId(pets.Keys) && o.result.value !in pets
  {
    var ts := TagsOf(pet);
    var n := Registrable(true, ts);
    if n < |ts| {
      assert ts[n] in ts;
    } else {
      forall t | t in ts ensures t.id.None? {
        var i :| 0 <= i < |ts| && ts[i] == t;
      }
    }
  }

  /**
   * Nothing stored before the call is lost or changed, whatever the
   * outcome; a pet accepted by the id check and the borrow stays stored even
   * when one of its tags or its category is refused.
   */
  lemma AddPetKeepsEarlierEntries(
    pets: map<U64, Pet>, tags: map<U64, Tag>, categories: map<U64, Category>, free: bool, pet: Pet)
    requires IdRoom(pets.Keys, 1) && IdRoom(tags.Keys, |TagsOf(pet)|) && IdRoom(categories.Keys, 1)
    ensures var o := AddPetSpec(pets, tags, categories, free, pet);
      && (forall k :: k in pets ==> k in o.pets && o.pets[k] == pets[k])
      && (forall k :: k in tags ==> k in o.tags && o.tags[k] == tags[k])
      && (forall k :: k in categories ==> k in o.categories && o.categories[k] == categories[k])
      && (pet.id.None? && free ==>
            var id := NextId(pets.Keys); id in o.pets && o.pets[id] == pet.(id := Some(id)))
  {
    var o := AddPetSpec(pets, tags, categories, free, pet);
    if pet.id.None? && free {
      var id := NextId(pets.Keys);
      var pets' := pets[id := pet.(id := Some(id))];
      var tags' := RegisterTags(tags, true, TagsOf(pet));
      RegisterTagsKeeps(tags, true, TagsOf(pet));
      var categories' := RegisterCategory(categories, true, pet.category);
      assert o.pets == pets' && o.tags == tags';
      assert o.categories == categories || o.categories == categories';
      assert forall k :: k in tags ==> k in tags' && tags'[k] == tags[k];
    }
  }

  /**
   * `update_pet_name_status`'s patch: the name and the status are replaced
   * by the given ones where given; everything else is kept.
   */
  function Patched(p: Pet, name: Option<string>, status: Option<Status>): (q: Pet)
    ensures q.id == p.id && q.photoUrls == p.photoUrls && q.category == p.category && q.tags == p.tags
    ensures q.name == (if name.Some? then name.value else p.name)
    ensures status.Some? ==> q.status == status
    ensures status.None? ==> q.status == p.status
  {
    var withStatus := if status.Some? then p.(status := status) else p;
    if name.Some? then withStatus.(name := name.value) else withStatus
  }

  /**
   * `PetstoreDbContext`: every map of the store, changed in place by the
   * operations that hold the write borrow. (The `photos` map is not part of
   * this model.)
   */
  class PetstoreDbContext {
    var pets: map<U64, Pet>
    var tags: map<U64, Tag>
    var categories: map<U64, Category>
    var orders: map<U64, Order>
    var users: map<U64, User>

    /** Every entity sits under its own id, and no two users share a username. */
    ghost predicate Valid()
      reads this
    {
      && PetsKeyed(pets) && TagsKeyed(tags) && CategoriesKeyed(categories)
      && OrdersKeyed(orders) && UsersKeyed(users) && UniqueUsernames(users)
    }

    /** The five maps as one value. */
    function Snapshot(): Tables
      reads this
    {
      Tables(pets, tags, categories, orders, users)
    }

    constructor ()
      ensures Valid()
      ensures pets == map[] && tags == map[] && categories == map[] && orders == map[] && users == map[]
    {
      pets, tags, categories, orders, users := map[], map[], map[], map[], map[];
    }

    /**
     * `add_tag`: refuses a tag with a preset id; otherwise stores it under
     * the next free id, carrying that id, and returns it.
     */
    method AddTag(tag: Tag) returns (r: DbResult<Tag>)
      requires Valid() && IdRoom(tags.Keys, 1)
      modifies this
      ensures Valid()
      ensures pets == old(pets) && categories == old(categories) && orders == old(orders) && users == old(users)
      ensures tag.id.Some? ==> r == Err(InvalidInput) && tags == old(tags)
      ensures tag.id.None? ==>
        var id := NextId(old(tags).Keys);
        id !in old(tags) && r == Ok(tag.(id := Some(id))) && tags == old(tags)[id := tag.(id := Some(id))]
    {
      if tag.id.Some? {
        return Err(InvalidInput);
      }
      var id := NextId(tags.Keys);
      var stored := tag.(id := Some(id));
      tags := tags[id := stored];
      r := Ok(stored);
    }

    /**
     * `add_category`: refuses a category with a preset id; otherwise stores
     * it under the next free id, carrying that id, and returns it.
     */
    method AddCategory(category: Category) returns (r: DbResult<Category>)
      requires Valid() && IdRoom(categories.Keys, 1)
      modifies this
      ensures Valid()
      ensures pets == old(pets) && tags == old(tags) && orders == old(orders) && users == old(users)
      ensures category.id.Some? ==> r == Err(InvalidInput) && categories == old(categories)
      ensures category.id.None? ==>
        var id := NextId(old(categories).Keys);
        && id !in old(categories) && r == Ok(category.(id := Some(id)))
        && categories == old(categories)[id := category.(id := Some(id))]
    {
      if category.id.Some? {
        return Err(InvalidInput);
      }
      var id := NextId(categories.Keys);
      var stored := category.(id := Some(id));
      categories := categories[id := stored];
      r := Ok(stored);
    }

    /** `add_user`: the outcome `AddUserSpec` describes; nothing else changes. */
    method AddUser(newUser: User) returns (r: DbResult<string>)
      requires Valid() && IdRoom(users.Keys, 1)
      modifies this
      ensures Valid()
      ensures pets == old(pets) && tags == old(tags) && categories == old(categories) && orders == old(orders)
      ensures (users, r) == AddUserSpec(old(users), newUser)
    {
      if newUser.id.Some? {
        return Err(InvalidInput);
      }
      if exists k :: k in users && users[k].username == newUser.username {
        return Err(RedundantUserName);
      }
      AddUserKeepsInvariants(users, newUser);
      var id := NextId(users.Keys);
      users := users[id := newUser.(id := Some(id))];
      r := Ok(newUser.username);
    }

    /**
     * The body `add_pet` runs under its write borrow, for a pet without an
     * id: the pet, then its tags, then its category.
     */
    method StorePet(pet: Pet) returns (r: DbResult<U64>)
      requires Valid() && pet.id.None?
      requires IdRoom(pets.Keys, 1) && IdRoom(tags.Keys, |TagsOf(pet)|) && IdRoom(categories.Keys, 1)
      modifies this
      ensures Valid() && orders == old(orders) && users == old(users)
      ensures var o := AddPetSpec(old(pets), old(tags), old(categories), true, pet);
        pets == o.pets && tags == o.tags && categories == o.categories && r == o.result
    {
      var id := NextId(pets.Keys);
      pets := pets[id := pet.(id := Some(id))];
      var stopped := StoreTags(TagsOf(pet));
      if stopped {
        return Err(InvalidInput);
      }
      if pet.category.Some? {
        var added := AddCategory(pet.category.value);
        if added.Err? {
          return Err(added.error);
        }
      }
      r := Ok(id);
    }

    /**
     * The tag loop of `add_pet`: `add_tag` on each tag in order until one is
     * refused; reports whether one was.
     */
    method StoreTags(ts: seq<Tag>) returns (stopped: bool)
      requires Valid() && IdRoom(tags.Keys, |ts|)
      modifies this
      ensures Valid()
      ensures pets == old(pets) && categories == old(categories) && orders == old(orders) && users == old(users)
      ensures tags == RegisterTags(old(tags), true, ts)
      ensures stopped <==> Registrable(true, ts) < |ts|
    {
      var i := 0;
      ghost var goal := RegisterTags(tags, true, ts);
      ghost var n := Registrable(true, ts);
      assert ts[0..] == ts;
      while i < |ts|
        invariant 0 <= i <= |ts| && i <= n
        invariant n == i + Registrable(true, ts[i..])
        invariant Valid()
        invariant pets == old(pets) && categories == old(categories) && orders == old(orders) && users == old(users)
        invariant IdRoom(tags.Keys, |ts| - i)
        invariant RegisterTags(tags, true, ts[i..]) == goal
      {
        if ts[i].id.Some? {
          RegisterTagsStop(tags, true, ts, i);
        } else {
          RegisterTagsStep(tags, ts, i);
        }
        var added := AddTag(ts[i]);
        if added.Err? {
          return true;
        }
        i := i + 1;
      }
      stopped := false;
    }

    /**
     * The body `add_users` runs under its write borrow: the outcome
     * `AddUsersSpec` describes.
     */
    method AddUsers(us: seq<User>) returns (r: DbResult<seq<string>>)
      requires Valid() && IdRoom(users.Keys, |us|)
      modifies this
      ensures Valid()
      ensures pets == old(pets) && tags == old(tags) && categories == old(categories) && orders == old(orders)
      ensures (users, r) == AddUsersSpec(old(users), us)
    {
      var names: seq<string> := [];
      var i := 0;
      ghost var goal := AddUsersSpec(users, us);
      assert us[0..] == us;
      AfterNoNames(goal);
      while i < |us|
        invariant 0 <= i <= |us|
        invariant Valid()
        invariant pets == old(pets) && tags == old(tags) && categories == old(categories) && orders == old(orders)
        invariant IdRoom(users.Keys, |us| - i)
        invariant AfterNames(names, AddUsersSpec(users, us[i..])) == goal
      {
        AddUsersStep(users, us, i);
        var added := AddUser(us[i]);
        if added.Err? {
          return Err(added.error);
        }
        AfterNamesConcat(names, added.value, AddUsersSpec(users, us[i + 1..]));
        names := names + [added.value];
        i := i + 1;
      }
      assert names + [] == names;
      r := Ok(names);
    }

  }

  /**
   * The loop `get_inventory` runs under its read borrow: how many stored
   * pets have each status, visiting the pets in an unspecified order.
   */
  method CountInventory(pets: map<U64, Pet>) returns (available: nat, pending: nat, adopted: nat)
    ensures available == StatusCount(pets, Available)
    ensures pending == StatusCount(pets, Pending)
    ensures adopted == StatusCount(pets, Adopted)
  {
    available, pending, adopted := 0, 0, 0;
    var remaining := pets.Keys;
    var seen: set<U64> := {};
    while remaining != {}
      invariant remaining + seen == pets.Keys && remaining !! seen
      invariant (available, pending, adopted) == Tallied(pets, seen)
      decreases remaining
    {
      var k :| k in remaining;
      TalliedStep(pets, seen, k);
      match pets[k].status {
        case Some(Available) => available := available + 1;
        case Some(Pending) => pending := pending + 1;
        case Some(Adopted) => adopted := adopted + 1;
        case None =>
      }
      remaining := remaining - {k};
      seen := seen + {k};
    }
  }

  /**
   * `PetstoreDb`: the context behind one `RefCell`. The borrow state is a
   * count of live shared borrows and a flag for a live exclusive one; a
   * borrow that cannot be had fails at once. Every operation gives back the
   * borrow it took.
   */
  class PetstoreDb {
    const context: PetstoreDbContext
    var readers: nat
    var writing: bool

    /** The context keeps its invariants, and no exclusive borrow sits beside a shared one. */
    ghost predicate Valid()
      reads this, context
    {
      context.Valid() && (writing ==> readers == 0)
    }

    /** `try_borrow` would succeed: nobody holds the exclusive borrow. */
    predicate Readable()
      reads this
    {
      !writing
    }

    /** `try_borrow_mut` would succeed: nobody holds any borrow. */
    predicate Writable()
      reads this
    {
      !writing && readers == 0
    }

    /** The borrow state, as one value. */
    function Borrows(): (nat, bool)
      reads this
    {
      (readers, writing)
    }

    /** `new`: an empty context, not borrowed. */
    constructor ()
      ensures Valid() && fresh(context) && Writable()
      ensures context.Snapshot() == Tables(map[], map[], map[], map[], map[])
    {
      context := new PetstoreDbContext();
      readers := 0;
      writing := false;
    }

    /** `try_borrow`: take a shared borrow unless the exclusive one is live. */
    method TryBorrow() returns (ok: bool)
      requires Valid()
      modifies this
      ensures Valid() && writing == old(writing)
      ensures ok == old(Readable())
      ensures readers == if ok then old(readers) + 1 else old(readers)
    {
      ok := !writing;
      if ok {
        readers := readers + 1;
      }
    }

    /** Dropping a shared borrow. */
    method EndBorrow()
      requires Valid() && readers > 0
      modifies this
      ensures Valid() && writing == old(writing) && readers == old(readers) - 1
    {
      readers := readers - 1;
    }

    /** `try_borrow_mut`: take the exclusive borrow unless any borrow is live. */
    method TryBorrowMut() returns (ok: bool)
      requires Valid()
      modifies this
      ensures Valid() && readers == old(readers)
      ensures ok == old(Writable())
      ensures writing == (old(writing) || ok)
    {
      ok := !writing && readers == 0;
      if ok {
        writing := true;
      }
    }

    /** Dropping the exclusive borrow. */
    method EndBorrowMut()
      requires Valid() && writing
      modifies this
      ensures Valid() && readers == old(readers) && !writing
    {
      writing := false;
    }

    /**
     * `read_async`: fails with `BorrowError` only while the exclusive borrow
     * is live; otherwise runs the closure on the context's maps. Nothing is
     * changed and the borrow taken is given back.
     */
    method ReadAsync<R>(f: Tables --> DbResult<R>) returns (r: DbResult<R>)
      requires Valid() && (Readable() ==> f.requires(context.Snapshot()))
      modifies this
      ensures Valid() && Borrows() == old(Borrows())
      ensures r == if Readable() then f(context.Snapshot()) else Err(BorrowError)
    {
      var ok := TryBorrow();
      if !ok {
        return Err(BorrowError);
      }
      r := f(context.Snapshot());
      EndBorrow();
    }

    /** `get_pet`: the pet stored under `id`, if any. */
    method GetPet(id: U64) returns (r: DbResult<Option<Pet>>)
      requires Valid()
      modifies this
      ensures Valid() && Borrows() == old(Borrows())
      ensures r == if Readable() then Ok(Lookup(context.pets, id)) else Err(BorrowError)
      ensures r.Ok? && r.value.Some? ==> id in context.pets && r.value.value.id == Some(id)
    {
      var f: Tables --> DbResult<Option<Pet>> := (t: Tables) => Ok(Lookup(t.pets, id));
      r := ReadAsync(f);
    }

    /**
     * `add_pet`: the outcome `AddPetSpec` describes, on the maps and the
     * borrow state before the call; orders and users are not touched.
     */
    method AddPet(pet: Pet) returns (r: DbResult<U64>)
      requires Valid()
      requires IdRoom(context.pets.Keys, 1) && IdRoom(context.tags.Keys, |TagsOf(pet)|)
      requires IdRoom(context.categories.Keys, 1)
      modifies this, context
      ensures Valid() && Borrows() == old(Borrows())
      ensures var o := AddPetSpec(old(context.pets), old(context.tags), old(context.categories), old(Writable()), pet);
        context.Snapshot() == old(context.Snapshot()).(pets := o.pets, tags := o.tags, categories := o.categories)
        && r == o.result
    {
      if pet.id.Some? {
        return Err(InvalidInput);
      }
      var ok := TryBorrowMut();
      if !ok {
        return Err(BorrowMutError);
      }
      r := context.StorePet(pet);
      EndBorrowMut();
    }

    /**
     * `update_pet`: a pet without an id is refused before the borrow;
     * otherwise the stored pet with that id is replaced, or `MissingPet` is
     * reported and nothing changes.
     */
    method UpdatePet(pet: Pet) returns (r: DbResult<Pet>)
      requires Valid()
      modifies this, context
      ensures Valid() && Borrows() == old(Borrows())
      ensures context.Snapshot() == old(context.Snapshot()).(pets := context.pets)
      ensures pet.id.None? ==> r == Err(MissingIdentifier) && context.pets == old(context.pets)
      ensures pet.id.Some? && !old(Writable()) ==> r == Err(BorrowMutError) && context.pets == old(context.pets)
      ensures pet.id.Some? && old(Writable()) && pet.id.value !in old(context.pets) ==>
        r == Err(MissingPet) && context.pets == old(context.pets)
      ensures pet.id.Some? && old(Writable()) && pet.id.value in old(context.pets) ==>
        r == Ok(pet) && context.pets == old(context.pets)[pet.id.value := pet]
    {
      if pet.id.None? {
        return Err(MissingIdentifier);
      }
      var ok := TryBorrowMut();
      if !ok {
        return Err(BorrowMutError);
      }
      var id := pet.id.value;
      if id in context.pets {
        context.pets := context.pets[id := pet];
        r := Ok(pet);
      } else {
        r := Err(MissingPet);
      }
      EndBorrowMut();
    }

    /**
     * `get_pets_by_status`: the stored pets whose status is unset or listed
     * in `statuses`, all of them and only them, in increasing id order.
     */
    method GetPetsByStatus(statuses: seq<Status>) returns (r: DbResult<seq<Pet>>)
      requires Valid()
      modifies this
      ensures Valid() && Borrows() == old(Borrows())
      ensures r == if Readable() then Ok(FindPets(context.pets, ByStatus(statuses))) else Err(BorrowError)
      ensures r.Ok? ==> forall p :: p in r.value <==> p in context.pets.Values && StatusMatches(statuses, p)
    {
      var f: Tables --> DbResult<seq<Pet>> :=
        (t: Tables) requires PetsKeyed(t.pets) => Ok(FindPets(t.pets, ByStatus(statuses)));
      r := ReadAsync(f);
      if r.Ok? {
        FoundAreMatches(context.pets, ByStatus(statuses));
      }
    }

    /**
     * `find_pets_by_tag`: the stored pets that carry, for every name in
     * `names`, a tag with that name; all of them and only them, in
     * increasing id order.
     */
    method FindPetsByTag(names: seq<string>) returns (r: DbResult<seq<Pet>>)
      requires Valid()
      modifies this
      ensures Valid() && Borrows() == old(Borrows())
      ensures r == if Readable() then Ok(FindPets(context.pets, ByTags(names))) else Err(BorrowError)
      ensures r.Ok? ==> forall p :: p in r.value <==> p in context.pets.Values && HasAllTags(names, p)
    {
      var f: Tables --> DbResult<seq<Pet>> :=
        (t: Tables) requires PetsKeyed(t.pets) => Ok(FindPets(t.pets, ByTags(names)));
      r := ReadAsync(f);
      if r.Ok? {
        FoundAreMatches(context.pets, ByTags(names));
      }
    }

    /**
     * `delete_pet`: removes the pet stored under `id`; `MissingPet` when
     * there is none.
     */
    method DeletePet(id: U64) returns (r: DbResult<()>)
      requires Valid()
      modifies this, context
      ensures Valid() && Borrows() == old(Borrows())
      ensures context.Snapshot() == old(context.Snapshot()).(pets := context.pets)
      ensures !old(Writable()) ==> r == Err(BorrowMutError) && context.pets == old(context.pets)
      ensures old(Writable()) && id !in old(context.pets) ==> r == Err(MissingPet) && context.pets == old(context.pets)
      ensures old(Writable()) && id in old(context.pets) ==> r == Ok(()) && context.pets == old(context.pets) - {id}
    {
      var ok := TryBorrowMut();
      if !ok {
        return Err(BorrowMutError);
      }
      if id in context.pets {
        context.pets := context.pets - {id};
        r := Ok(());
      } else {
        r := Err(MissingPet);
      }
      EndBorrowMut();
    }

    /**
     * `update_pet_name_status`: patches the stored pet under `petId` (see
     * `Patched`) and returns the patched pet; `MissingPet` when there is none.
     */
    method UpdatePetNameStatus(petId: U64, name: Option<string>, status: Option<Status>) returns (r: DbResult<Pet>)
      requires Valid()
      modifies this, context
      ensures Valid() && Borrows() == old(Borrows())
      ensures context.Snapshot() == old(context.Snapshot()).(pets := context.pets)
      ensures !old(Writable()) ==> r == Err(BorrowMutError) && context.pets == old(context.pets)
      ensures old(Writable()) && petId !in old(context.pets) ==>
        r == Err(MissingPet) && context.pets == old(context.pets)
      ensures old(Writable()) && petId in old(context.pets) ==>
        var q := Patched(old(context.pets)[petId], name, status);
        r == Ok(q) && context.pets == old(context.pets)[petId := q]
    {
      var ok := TryBorrowMut();
      if !ok {
        return Err(BorrowMutError);
      }
      if petId in context.pets {
        var pet := context.pets[petId];
        if status.Some? {
          pet := pet.(status := status);
        }
        if name.Some? {
          pet := pet.(name := name.value);
        }
        context.pets := context.pets[petId := pet];
        r := Ok(pet);
      } else {
        r := Err(MissingPet);
      }
      EndBorrowMut();
    }

    /**
     * `get_inventory`: under a shared borrow, counts the stored pets with
     * each status; pets without a status are not counted. (The counting
     * loop cannot run inside a closure here, so the borrow is taken and
     * given back around it.)
     */
    method GetInventory() returns (r: DbResult<Inventory>)
      requires Valid() && |context.pets| <= U32_MAX
      modifies this
      ensures Valid() && Borrows() == old(Borrows())
      ensures !Readable() ==> r == Err(BorrowError)
      ensures Readable() ==> r == Ok(Inventory(
        StatusCount(context.pets, Available),
        StatusCount(context.pets, Pending),
        StatusCount(context.pets, Adopted)))
    {
      var ok := TryBorrow();
      if !ok {
        return Err(BorrowError);
      }
      var available, pending, adopted := CountInventory(context.pets);
      r := Ok(Inventory(available, pending, adopted));
      EndBorrow();
    }

    /**
     * `add_order`: an order that already has a status is refused with
     * `InvalidInput` before the borrow (the guard looks at the status, not
     * the id); otherwise the order is stored under the next free id, which
     * is returned. A preset id is overwritten.
     */
    method AddOrder(order: Order) returns (r: DbResult<U64>)
      requires Valid() && IdRoom(context.orders.Keys, 1)
      modifies this, context
      ensures Valid() && Borrows() == old(Borrows())
      ensures context.Snapshot() == old(context.Snapshot()).(orders := context.orders)
      ensures order.status.Some? ==> r == Err(InvalidInput) && context.orders == old(context.orders)
      ensures order.status.None? && !old(Writable()) ==>
        r == Err(BorrowMutError) && context.orders == old(context.orders)
      ensures order.status.None? && old(Writable()) ==>
        var id := NextId(old(context.orders).Keys);
        && r == Ok(id) && id !in old(context.orders)
        && context.orders == old(context.orders)[id := order.(id := Some(id))]
    {
      if order.status.Some? {
        return Err(InvalidInput);
      }
      var ok := TryBorrowMut();
      if !ok {
        return Err(BorrowMutError);
      }
      var id := NextId(context.orders.Keys);
      context.orders := context.orders[id := order.(id := Some(id))];
      r := Ok(id);
      EndBorrowMut();
    }

    /** `delete_order`: removes the order under `id`; reports whether there was one. */
    method DeleteOrder(id: U64) returns (r: DbResult<bool>)
      requires Valid()
      modifies this, context
      ensures Valid() && Borrows() == old(Borrows())
      ensures context.Snapshot() == old(context.Snapshot()).(orders := context.orders)
      ensures !old(Writable()) ==> r == Err(BorrowMutError) && context.orders == old(context.orders)
      ensures old(Writable()) ==> r == Ok(id in old(context.orders)) && context.orders == old(context.orders) - {id}
    {
      var ok := TryBorrowMut();
      if !ok {
        return Err(BorrowMutError);
      }
      r := Ok(id in context.orders);
      context.orders := context.orders - {id};
      EndBorrowMut();
    }

    /** `find_order`: the order stored under `id`, if any. */
    method FindOrder(id: U64) returns (r: DbResult<Option<Order>>)
      requires Valid()
      modifies this
      ensures Valid() && Borrows() == old(Borrows())
      ensures r == if Readable() then Ok(Lookup(context.orders, id)) else Err(BorrowError)
      ensures r.Ok? && r.value.Some? ==> id in context.orders && r.value.value.id == Some(id)
    {
      var f: Tables --> DbResult<Option<Order>> := (t: Tables) => Ok(Lookup(t.orders, id));
      r := ReadAsync(f);
    }

    /**
     * `add_user`: the borrow comes first, so while the context is borrowed
     * every user is refused with `BorrowMutError`; otherwise the outcome
     * `AddUserSpec` describes.
     */
    method AddUser(newUser: User) returns (r: DbResult<string>)
      requires Valid() && IdRoom(context.users.Keys, 1)
      modifies this, context
      ensures Valid() && Borrows() == old(Borrows())
      ensures context.Snapshot() == old(context.Snapshot()).(users := context.users)
      ensures !old(Writable()) ==> r == Err(BorrowMutError) && context.users == old(context.users)
      ensures old(Writable()) ==> (context.users, r) == AddUserSpec(old(context.users), newUser)
    {
      var ok := TryBorrowMut();
      if !ok {
        return Err(BorrowMutError);
      }
      r := context.AddUser(newUser);
      EndBorrowMut();
    }

    /**
     * `add_users`: one exclusive borrow for the whole batch, under which the
     * outcome `AddUsersSpec` describes.
     */
    method AddUsers(us: seq<User>) returns (r: DbResult<seq<string>>)
      requires Valid() && IdRoom(context.users.Keys, |us|)
      modifies this, context
      ensures Valid() && Borrows() == old(Borrows())
      ensures context.Snapshot() == old(context.Snapshot()).(users := context.users)
      ensures !old(Writable()) ==> r == Err(BorrowMutError) && context.users == old(context.users)
      ensures old(Writable()) ==> (context.users, r) == AddUsersSpec(old(context.users), us)
    {
      var ok := TryBorrowMut();
      if !ok {
        return Err(BorrowMutError);
      }
      r := context.AddUsers(us);
      EndBorrowMut();
    }

    /**
     * `get_user`: the stored user with the given username, if there is one;
     * usernames being unique, it is the only one.
     */
    method GetUser(name: string) returns (r: DbResult<Option<User>>)
      requires Valid()
      modifies this
      ensures Valid() && Borrows() == old(Borrows())
      ensures r == if Readable() then Ok(FindUser(context.users, name)) else Err(BorrowError)
      ensures r.Ok? ==> (r.value.None? <==> !NameTaken(context.users, name))
      ensures r.Ok? ==> forall k :: k in context.users && context.users[k].username == name ==>
        r.value == Some(context.users[k])
    {
      var f: Tables --> DbResult<Option<User>> := (t: Tables) => Ok(FindUser(t.users, name));
      r := ReadAsync(f);
      forall k | k in context.users && context.users[k].username == name {
        FindUserUnique(context.users, name, k);
      }
    }

    /**
     * `delete_user`: removes the stored user with the given username, if
     * there is one, and succeeds either way; no other user is touched.
     */
    method DeleteUser(name: string) returns (r: DbResult<()>)
      requires Valid()
      modifies this, context
      ensures Valid() && Borrows() == old(Borrows())
      ensures context.Snapshot() == old(context.Snapshot()).(users := context.users)
      ensures !old(Writable()) ==> r == Err(BorrowMutError) && context.users == old(context.users)
      ensures old(Writable()) ==> r == Ok(())
      ensures old(Writable()) ==> forall k :: k in context.users <==>
        k in old(context.users) && old(context.users)[k].username != name
      ensures forall k :: k in context.users ==> k in old(context.users) && context.users[k] == old(context.users)[k]
    {
      var ok := TryBorrowMut();
      if !ok {
        return Err(BorrowMutError);
      }
      var found := FindKey(context.users, Named(name));
      if found.Some? && context.users[found.value].id.Some? {
        var k := found.value;
        FindUserUnique(context.users, name, k);
        context.users := context.users - {context.users[k].id.value};
      }
      r := Ok(());
      EndBorrowMut();
    }

    /**
     * `update_user`: replaces the stored user with the same username by the
     * given one, which takes over the stored user's id; `MissingUser` when
     * no stored user has that username.
     */
    method UpdateUser(updatedUser: User) returns (r: DbResult<User>)
      requires Valid()
      modifies this, context
      ensures Valid() && Borrows() == old(Borrows())
      ensures context.Snapshot() == old(context.Snapshot()).(users := context.users)
      ensures !old(Writable()) ==> r == Err(BorrowMutError) && context.users == old(context.users)
      ensures old(Writable()) && !NameTaken(old(context.users), updatedUser.username) ==>
        r == Err(MissingUser) && context.users == old(context.users)
      ensures old(Writable()) ==> forall k :: k in old(context.users) && old(context.users)[k].username == updatedUser.username ==>
        r == Ok(updatedUser.(id := Some(k))) && context.users == old(context.users)[k := updatedUser.(id := Some(k))]
    {
      var ok := TryBorrowMut();
      if !ok {
        return Err(BorrowMutError);
      }
      var found := FindKey(context.users, Named(updatedUser.username));
      if found.Some? {
        var k := found.value;
        var stored := updatedUser.(id := context.users[k].id);
        forall j | j in context.users && context.users[j].username == updatedUser.username {
          FindUserUnique(context.users, updatedUser.username, j);
        }
        context.users := context.users[k := stored];
        r := Ok(stored);
      } else {
        r := Err(MissingUser);
      }
      EndBorrowMut();
    }
  }
}
