/**
 * The repository layer of the layered store (`src/petstore/repository.rs`):
 * a generic map guarded by a fail-fast borrow flag, and one repository per
 * entity kind on top of it. Each repository operation hands its work to the
 * map as a closure through `Read` or `Write`.
 */
module Repository {
  import opened Wrappers
  import opened Model
  import opened Keys
  import opened Queries

  /** A record that is not there, or a borrow the cell refused. */
  datatype RepoError = NotFound | Borrow | BorrowMut

  type RepoResult<T> = Result<T, RepoError>

  /**
   * `InMemoryDatabase<T>`: the entity map behind a `RefCell`. The borrow
   * state is a count of live shared borrows and a flag for a live exclusive
   * one; a borrow that cannot be had fails at once instead of waiting.
   */
  class InMemoryDatabase<T> {
    var entries: map<U64, T>
    var readers: nat
    var writing: bool

    /** The cell never holds an exclusive borrow beside a shared one. */
    ghost predicate Valid()
      reads this
    {
      writing ==> readers == 0
    }

    /** A shared borrow would succeed: nobody holds the exclusive one. */
    predicate Readable()
      reads this
    {
      !writing
    }

    /** An exclusive borrow would succeed: nobody holds any borrow. */
    predicate Writable()
      reads this
    {
      !writing && readers == 0
    }

    /** The borrow state, as one value. */
    function Borrows(): (nat, bool)
      reads this
    {
      (readers, writing)
    }

    /** `Default`: an empty map, not borrowed. */
    constructor ()
      ensures Valid() && entries == map[] && readers == 0 && !writing
    {
      entries := map[];
      readers := 0;
      writing := false;
    }

    /** `try_borrow`: take a shared borrow unless an exclusive one is live. */
    method TryBorrow() returns (ok: bool)
      requires Valid()
      modifies this
      ensures Valid() && entries == old(entries) && writing == old(writing)
      ensures ok == old(Readable())
      ensures readers == if ok then old(readers) + 1 else old(readers)
    {
      ok := !writing;
      if ok {
        readers := readers + 1;
      }
    }

    /** Dropping a shared borrow. */
    method EndBorrow()
      requires Valid() && readers > 0
      modifies this
      ensures Valid() && entries == old(entries) && writing == old(writing)
      ensures readers == old(readers) - 1
    {
      readers := readers - 1;
    }

    /** `try_borrow_mut`: take the exclusive borrow unless any borrow is live. */
    method TryBorrowMut() returns (ok: bool)
      requires Valid()
      modifies this
      ensures Valid() && entries == old(entries) && readers == old(readers)
      ensures ok == old(Writable())
      ensures writing == (old(writing) || ok)
    {
      ok := !writing && readers == 0;
      if ok {
        writing := true;
      }
    }

    /** Dropping the exclusive borrow. */
    method EndBorrowMut()
      requires Valid() && writing
      modifies this
      ensures Valid() && entries == old(entries) && readers == old(readers) && !writing
    {
      writing := false;
    }

    /**
     * `read`: fails with `Borrow` only while an exclusive borrow is live;
     * otherwise runs the closure on the map. The map is not changed and the
     * borrow taken is given back.
     */
    method Read<R>(f: map<U64, T> --> RepoResult<R>) returns (r: RepoResult<R>)
      requires Valid() && (Readable() ==> f.requires(entries))
      modifies this
      ensures Valid() && entries == old(entries) && Borrows() == old(Borrows())
      ensures r == if old(Readable()) then f(entries) else Err(Borrow)
    {
      var ok := TryBorrow();
      if !ok {
        return Err(Borrow);
      }
      r := f(entries);
      EndBorrow();
    }

    /**
     * `write`: fails with `BorrowMut`, changing nothing, while any borrow is
     * live; otherwise the closure maps the old map to the new map and the
     * result. The borrow taken is given back.
     */
    method Write<R>(f: map<U64, T> --> (map<U64, T>, RepoResult<R>)) returns (r: RepoResult<R>)
      requires Valid() && (Writable() ==> f.requires(entries))
      modifies this
      ensures Valid() && Borrows() == old(Borrows())
      ensures old(Writable()) ==> (entries, r) == f(old(entries))
      ensures !old(Writable()) ==> r == Err(BorrowMut) && entries == old(entries)
    {
      var ok := TryBorrowMut();
      if !ok {
        return Err(BorrowMut);
      }
      var w := f(entries);
      entries, r := w.0, w.1;
      EndBorrowMut();
    }
  }

  class PetRepository {
    const pets: InMemoryDatabase<Pet>

    ghost predicate Valid()
      reads pets
    {
      pets.Valid() && PetsKeyed(pets.entries)
    }

    constructor ()
      ensures Valid() && fresh(pets) && pets.entries == map[] && pets.Writable()
    {
      pets := new InMemoryDatabase();
    }

    /** `get`: the pet stored at `id`, or `None`; absence is not an error. */
    method Get(id: U64) returns (r: RepoResult<Option<Pet>>)
      requires Valid()
      modifies pets
      ensures Valid() && pets.entries == old(pets.entries) && pets.Borrows() == old(pets.Borrows())
      ensures r == if pets.Readable() then Ok(Lookup(pets.entries, id)) else Err(Borrow)
    {
      var f: map<U64, Pet> --> RepoResult<Option<Pet>> := (m: map<U64, Pet>) => Ok(Lookup(m, id));
      r := pets.Read(f);
    }

    /** `find`: the stored pets satisfying `pred`, sorted by id (see `FindPets`). */
    method Find(pred: Pet -> bool) returns (r: RepoResult<seq<Pet>>)
      requires Valid()
      modifies pets
      ensures Valid() && pets.entries == old(pets.entries) && pets.Borrows() == old(pets.Borrows())
      ensures r == if pets.Readable() then Ok(FindPets(pets.entries, pred)) else Err(Borrow)
    {
      var f: map<U64, Pet> --> RepoResult<seq<Pet>> :=
        (m: map<U64, Pet>) requires PetsKeyed(m) => Ok(FindPets(m, pred));
      r := pets.Read(f);
    }

    /**
     * `add`: stores the pet under a fresh id (0 for an empty map, else the
     * largest id plus one) with its `id` set to that id, and returns it. The
     * map gains exactly that one entry.
     */
    method Add(newPet: Pet) returns (r: RepoResult<Pet>)
      requires Valid() && (pets.Writable() ==> IdRoom(pets.entries.Keys, 1))
      modifies pets
      ensures Valid() && pets.Borrows() == old(pets.Borrows())
      ensures !old(pets.Writable()) ==> r == Err(BorrowMut) && pets.entries == old(pets.entries)
      ensures old(pets.Writable()) ==>
        var id := NextId(old(pets.entries).Keys);
        r == Ok(newPet.(id := Some(id))) && pets.entries == old(pets.entries)[id := newPet.(id := Some(id))]
    {
      var f: map<U64, Pet> --> (map<U64, Pet>, RepoResult<Pet>) :=
        (m: map<U64, Pet>) requires IdRoom(m.Keys, 1) =>
          var id := NextId(m.Keys);
          var stored := newPet.(id := Some(id));
          (m[id := stored], Ok(stored));
      r := pets.Write(f);
    }

    /**
     * `update`: replaces the pet stored at `pet.id` wholesale, or fails with
     * `NotFound` and changes nothing when that id is not stored. The id must
     * be set (the source unwraps it).
     */
    method Update(pet: Pet) returns (r: RepoResult<Pet>)
      requires Valid() && (pets.Writable() ==> pet.id.Some?)
      modifies pets
      ensures Valid() && pets.Borrows() == old(pets.Borrows())
      ensures !old(pets.Writable()) ==> r == Err(BorrowMut) && pets.entries == old(pets.entries)
      ensures old(pets.Writable()) && pet.id.value !in old(pets.entries) ==>
        r == Err(NotFound) && pets.entries == old(pets.entries)
      ensures old(pets.Writable()) && pet.id.value in old(pets.entries) ==>
        r == Ok(pet) && pets.entries == old(pets.entries)[pet.id.value := pet]
    {
      var f: map<U64, Pet> --> (map<U64, Pet>, RepoResult<Pet>) :=
        (m: map<U64, Pet>) requires pet.id.Some? =>
          var id := pet.id.value;
          if id !in m then (m, Err(NotFound)) else (m[id := pet], Ok(pet));
      r := pets.Write(f);
    }

    /** `delete`: removes the pet at `id` and returns it, or `None` when absent. */
    method Delete(id: U64) returns (r: RepoResult<Option<Pet>>)
      requires Valid()
      modifies pets
      ensures Valid() && pets.Borrows() == old(pets.Borrows())
      ensures !old(pets.Writable()) ==> r == Err(BorrowMut) && pets.entries == old(pets.entries)
      ensures old(pets.Writable()) ==>
        r == Ok(Lookup(old(pets.entries), id)) && pets.entries == old(pets.entries) - {id}
      ensures id !in old(pets.entries) ==> pets.entries == old(pets.entries)
    {
      var f: map<U64, Pet> --> (map<U64, Pet>, RepoResult<Option<Pet>>) :=
        (m: map<U64, Pet>) => (m - {id}, Ok(Lookup(m, id)));
      r := pets.Write(f);
    }
  }

  class TagRepository {
    const tags: InMemoryDatabase<Tag>

    ghost predicate Valid()
      reads tags
    {
      tags.Valid() && TagsKeyed(tags.entries)
    }

    constructor ()
      ensures Valid() && fresh(tags) && tags.entries == map[] && tags.Writable()
    {
      tags := new InMemoryDatabase();
    }

    /**
     * `add`: stores the tag under a fresh id with its `id` set to it. The
     * repository itself does not look at a preset id: it overwrites it.
     */
    method Add(tag: Tag) returns (r: RepoResult<Tag>)
      requires Valid() && (tags.Writable() ==> IdRoom(tags.entries.Keys, 1))
      modifies tags
      ensures Valid() && tags.Borrows() == old(tags.Borrows())
      ensures !old(tags.Writable()) ==> r == Err(BorrowMut) && tags.entries == old(tags.entries)
      ensures old(tags.Writable()) ==>
        var id := NextId(old(tags.entries).Keys);
        r == Ok(tag.(id := Some(id))) && tags.entries == old(tags.entries)[id := tag.(id := Some(id))]
    {
      var f: map<U64, Tag> --> (map<U64, Tag>, RepoResult<Tag>) :=
        (m: map<U64, Tag>) requires IdRoom(m.Keys, 1) =>
          var id := NextId(m.Keys);
          var stored := tag.(id := Some(id));
          (m[id := stored], Ok(stored));
      r := tags.Write(f);
    }
  }

  class CategoryRepository {
    const categories: InMemoryDatabase<Category>

    ghost predicate Valid()
      reads categories
    {
      categories.Valid() && CategoriesKeyed(categories.entries)
    }

    constructor ()
      ensures Valid() && fresh(categories) && categories.entries == map[] && categories.Writable()
    {
      categories := new InMemoryDatabase();
    }

    /** `add`: stores the category under a fresh id with its `id` set to it. */
    method Add(category: Category) returns (r: RepoResult<Category>)
      requires Valid() && (categories.Writable() ==> IdRoom(categories.entries.Keys, 1))
      modifies categories
      ensures Valid() && categories.Borrows() == old(categories.Borrows())
      ensures !old(categories.Writable()) ==>
        r == Err(BorrowMut) && categories.entries == old(categories.entries)
      ensures old(categories.Writable()) ==>
        var id := NextId(old(categories.entries).Keys);
        && r == Ok(category.(id := Some(id)))
        && categories.entries == old(categories.entries)[id := category.(id := Some(id))]
    {
      var f: map<U64, Category> --> (map<U64, Category>, RepoResult<Category>) :=
        (m: map<U64, Category>) requires IdRoom(m.Keys, 1) =>
          var id := NextId(m.Keys);
          var stored := category.(id := Some(id));
          (m[id := stored], Ok(stored));
      r := categories.Write(f);
    }
  }

  class OrderRepository {
    const orders: InMemoryDatabase<Order>

    ghost predicate Valid()
      reads orders
    {
      orders.Valid() && OrdersKeyed(orders.entries)
    }

    constructor ()
      ensures Valid() && fresh(orders) && orders.entries == map[] && orders.Writable()
    {
      orders := new InMemoryDatabase();
    }

    /** `get`: the order stored at `id`, or `None`. */
    method Get(id: U64) returns (r: RepoResult<Option<Order>>)
      requires Valid()
      modifies orders
      ensures Valid() && orders.entries == old(orders.entries) && orders.Borrows() == old(orders.Borrows())
      ensures r == if orders.Readable() then Ok(Lookup(orders.entries, id)) else Err(Borrow)
    {
      var f: map<U64, Order> --> RepoResult<Option<Order>> := (m: map<U64, Order>) => Ok(Lookup(m, id));
      r := orders.Read(f);
    }

    /** `add`: stores the order under a fresh id with its `id` set to it. */
    method Add(order: Order) returns (r: RepoResult<Order>)
      requires Valid() && (orders.Writable() ==> IdRoom(orders.entries.Keys, 1))
      modifies orders
      ensures Valid() && orders.Borrows() == old(orders.Borrows())
      ensures !old(orders.Writable()) ==> r == Err(BorrowMut) && orders.entries == old(orders.entries)
      ensures old(orders.Writable()) ==>
        var id := NextId(old(orders.entries).Keys);
        r == Ok(order.(id := Some(id))) && orders.entries == old(orders.entries)[id := order.(id := Some(id))]
    {
      var f: map<U64, Order> --> (map<U64, Order>, RepoResult<Order>) :=
        (m: map<U64, Order>) requires IdRoom(m.Keys, 1) =>
          var id := NextId(m.Keys);
          var stored := order.(id := Some(id));
          (m[id := stored], Ok(stored));
      r := orders.Write(f);
    }

    /** `delete`: removes the order at `id` and returns it, or `None` when absent. */
    method Delete(id: U64) returns (r: RepoResult<Option<Order>>)
      requires Valid()
      modifies orders
      ensures Valid() && orders.Borrows() == old(orders.Borrows())
      ensures !old(orders.Writable()) ==> r == Err(BorrowMut) && orders.entries == old(orders.entries)
      ensures old(orders.Writable()) ==>
        r == Ok(Lookup(old(orders.entries), id)) && orders.entries == old(orders.entries) - {id}
      ensures id !in old(orders.entries) ==> orders.entries == old(orders.entries)
    {
      var f: map<U64, Order> --> (map<U64, Order>, RepoResult<Option<Order>>) :=
        (m: map<U64, Order>) => (m - {id}, Ok(Lookup(m, id)));
      r := orders.Write(f);
    }
  }

  class UserRepository {
    const users: InMemoryDatabase<User>

    ghost predicate Valid()
      reads users
    {
      users.Valid() && UsersKeyed(users.entries)
    }

    constructor ()
      ensures Valid() && fresh(users) && users.entries == map[] && users.Writable()
    {
      users := new InMemoryDatabase();
    }

    /**
     * `add`: stores the user under a fresh id with its `id` set to it. This
     * layer does not check that the username is free.
     */
    method Add(newUser: User) returns (r: RepoResult<User>)
      requires Valid() && (users.Writable() ==> IdRoom(users.entries.Keys, 1))
      modifies users
      ensures Valid() && users.Borrows() == old(users.Borrows())
      ensures !old(users.Writable()) ==> r == Err(BorrowMut) && users.entries == old(users.entries)
      ensures old(users.Writable()) ==>
        var id := NextId(old(users.entries).Keys);
        r == Ok(newUser.(id := Some(id))) && users.entries == old(users.entries)[id := newUser.(id := Some(id))]
    {
      var f: map<U64, User> --> (map<U64, User>, RepoResult<User>) :=
        (m: map<U64, User>) requires IdRoom(m.Keys, 1) =>
          var id := NextId(m.Keys);
          var stored := newUser.(id := Some(id));
          (m[id := stored], Ok(stored));
      r := users.Write(f);
    }

    /**
     * `find_one`: a stored user satisfying `pred`, or `None` when there is
     * none (which one, when several match, the source leaves to the map's
     * iteration order; see `FindKey`).
     */
    method FindOne(pred: User -> bool) returns (r: RepoResult<Option<User>>)
      requires Valid()
      modifies users
      ensures Valid() && users.entries == old(users.entries) && users.Borrows() == old(users.Borrows())
      ensures !users.Readable() ==> r == Err(Borrow)
      ensures users.Readable() ==> r.Ok?
      ensures r.Ok? && r.value.Some? ==> r.value.value in users.entries.Values && pred(r.value.value)
      ensures r.Ok? && r.value.None? ==> forall k :: k in users.entries ==> !pred(users.entries[k])
    {
      var f: map<U64, User> --> RepoResult<Option<User>> :=
        (m: map<U64, User>) =>
          var found := FindKey(m, pred);
          Ok(if found.Some? then Some(m[found.value]) else None);
      r := users.Read(f);
    }

    /**
     * `delete`: removes a stored user named `name` and returns it; returns
     * `None` and changes nothing when no stored user has that name.
     */
    method Delete(name: string) returns (r: RepoResult<Option<User>>)
      requires Valid()
      modifies users
      ensures Valid() && users.Borrows() == old(users.Borrows())
      ensures !old(users.Writable()) ==> r == Err(BorrowMut) && users.entries == old(users.entries)
      ensures old(users.Writable()) && !NameTaken(old(users.entries), name) ==>
        r == Ok(None) && users.entries == old(users.entries)
      ensures old(users.Writable()) && NameTaken(old(users.entries), name) ==>
        exists k :: k in old(users.entries) && old(users.entries)[k].username == name
          && r == Ok(Some(old(users.entries)[k])) && users.entries == old(users.entries) - {k}
    {
      ghost var before := users.entries;
      var f: map<U64, User> --> (map<U64, User>, RepoResult<Option<User>>) :=
        (m: map<U64, User>) =>
          var found := FindKey(m, Named(name));
          if found.Some? && m[found.value].id.Some? then
            var id := m[found.value].id.value;
            (m - {id}, Ok(Lookup(m, id)))
          else
            (m, Ok(None));
      r := users.Write(f);
      ghost var found := FindKey(before, Named(name));
      if found.Some? {
        assert before[found.value].id == Some(found.value);
      }
    }

    /**
     * `update`: finds a stored user by the username of `updatedUser`, keeps
     * that user's id on the new record and stores it in its place; fails
     * with `NotFound`, changing nothing, when no stored user has the name.
     */
    method Update(updatedUser: User) returns (r: RepoResult<User>)
      requires Valid()
      modifies users
      ensures Valid() && users.Borrows() == old(users.Borrows())
      ensures !old(users.Writable()) ==> r == Err(BorrowMut) && users.entries == old(users.entries)
      ensures old(users.Writable()) && !NameTaken(old(users.entries), updatedUser.username) ==>
        r == Err(NotFound) && users.entries == old(users.entries)
      ensures old(users.Writable()) && NameTaken(old(users.entries), updatedUser.username) ==>
        exists k :: k in old(users.entries) && old(users.entries)[k].username == updatedUser.username
          && r == Ok(updatedUser.(id := Some(k)))
          && users.entries == old(users.entries)[k := updatedUser.(id := Some(k))]
    {
      ghost var before := users.entries;
      var f: map<U64, User> --> (map<U64, User>, RepoResult<User>) :=
        (m: map<U64, User>) =>
          var found := FindKey(m, Named(updatedUser.username));
          if found.Some? then
            var stored := updatedUser.(id := m[found.value].id);
            (m[found.value := stored], Ok(stored))
          else
            (m, Err(NotFound));
      r := users.Write(f);
      ghost var found := FindKey(before, Named(updatedUser.username));
      if found.Some? {
        assert before[found.value].id == Some(found.value);
      }
    }
  }
}
