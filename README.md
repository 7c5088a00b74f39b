# Petstore store core, modelled in Dafny

This project models the data core of the `petstore` sample service. The
service is written in Rust on the `finchers` web framework and keeps pets,
tags, categories, orders and users in in-memory hash maps.

The repository has two versions of that core, and both are modelled:

- **Layered** (`src/petstore/`): each entity kind has its own repository.
  Each repository is a map behind its own fail-fast borrow flag (an
  `Rc<RefCell<HashMap>>`). A `Petstore` facade runs the operations that
  span several repositories.
- **Monolithic** (`src/db.rs`): one `PetstoreDbContext` holds every map
  behind a single borrow flag. Each public operation of `PetstoreDb` takes
  the whole context for reading (`read_async`) or writing (`write_async`)
  once.

Both versions hand out ids the same way. An empty map gives id 0; otherwise
the new id is the largest key plus one. The entity is stored under that key
with its `id` field set to it. That is the *keyed* invariant (key `k` holds
an entity whose `id == Some(k)`), and every writing operation is proved to
keep it. The monolithic store also keeps usernames unique.

Modules:

| file | module | models |
|---|---|---|
| wrappers.dfy | `Wrappers` | `Option`, `Result` |
| model.dfy | `Model` | the records of `src/model.rs` and the `Display`/`FromStr` of the two status enums |
| keys.dfy | `Keys` | id assignment, key lookup, taken usernames, the keyed and unique-username invariants |
| queries.dfy | `Queries` | the sorted `find` over pets, the status and tag filters, inventory counts |
| cascade.dfy | `Cascade` | the tag and category registration that follows storing a new pet |
| batches.dfy | `Batches` | what both `add_users` share: the returned usernames and batches of new, distinct names |
| repository.dfy | `Repository` | `src/petstore/repository.rs`: the borrow-guarded map and the five repositories |
| petstore.dfy | `Petstore` | `src/petstore/mod.rs`: the facade |
| db.dfy | `Db` | `src/db.rs`: the context and `PetstoreDb` |
| versions.dfy | `Versions` | where the two versions agree and where they differ |

Objects whose fields the source changes in place are classes:
`InMemoryDatabase`, the repositories, `Petstore`, `PetstoreDbContext` and
`PetstoreDb`. Their methods carry `modifies` clauses.

What a multi-step operation does is given by a function over the maps:
- `Petstore.AddPetSpec` and `Db.AddPetSpec` for `add_pet`;
- `Petstore.AddUsersSpec` and `Db.AddUsersSpec` for `add_users`;
- `Db.AddUserSpec` for the context's `add_user`;
- `Cascade.RegisterTags` and `Cascade.RegisterCategory` for the registration steps.

Each method is proved to produce exactly that outcome. Lemmas prove what
the outcome means:
- when it succeeds;
- that nothing stored before is lost;
- that the invariants hold afterwards;
- where the outcome stops on a refusal.

Behaviour of the code that the model keeps as written:

- The layered `add_user` does not check usernames. Two users with the same
  name are both stored (`Petstore.AddUsersAcceptsDuplicateNames`). The
  monolithic one refuses the second with `RedundantUserName`
  (`Db.DuplicateNamesInBatch`).
- The layered `update_pet` and `update_user` report a missing record as the
  repository's `NotFound`. The monolithic ones use `MissingPet` and
  `MissingUser`.
- The layered `delete_pet` succeeds when no pet has the id; the monolithic
  one fails with `MissingPet`.
- Both `add_order`s refuse an order that has a *status*, although their
  message talks about an id. An order with a preset id and no status is
  accepted, and its id is overwritten.
- The layered `add_pet` checks a tag's or category's id before writing it,
  and a failed write is reported as the repository's borrow error. The
  monolithic `add_pet` refuses a pet with an id before taking the borrow.
- In the monolithic `add_user`, the borrow comes first: while the context
  is borrowed, every user is refused with `BorrowMutError`.
- Neither version rolls back a partly finished `add_pet` or `add_users`.
  Whatever was stored before the refusal stays stored.

## Model

| member | source | states |
|---|---|---|
| Model.ParseOrderStatus | src/model.rs:46-62 | exactly "placed", "approved" and "delivered" parse; a parsed value displays as the input; any other text is rejected, carried in the error, and is no status's display |
| Model.OrderStatusRoundTrip | src/model.rs:35-62 | parsing the display of an order status gives it back |
| Model.DisplayOrderStatusInjective | src/model.rs:35-44 | distinct order statuses display differently |
| Model.DisplayOrderStatus | src/model.rs:35-44 | definition: each order status prints as its lower-case name; `OrderStatusRoundTrip` and `DisplayOrderStatusInjective` state what it promises |
| Model.ParseStatus | src/model.rs:92-108 | exactly "available", "pending" and "adopted" parse; a parsed value displays as the input; any other text is rejected with it as the error |
| Model.StatusRoundTrip | src/model.rs:81-108 | parsing the display of a status gives it back |
| Model.DisplayStatusInjective | src/model.rs:81-90 | distinct statuses display differently |
| Model.DisplayStatus | src/model.rs:81-90 | definition: each status prints as its lower-case name; `StatusRoundTrip` and `DisplayStatusInjective` state what it promises |
| Keys.MaxKey | src/petstore/repository.rs:84 | the result is a key and no key is larger |
| Keys.NextId | src/petstore/repository.rs:81-85 | the new id is not a key and exceeds every key; it is 0 exactly for an empty map, else its predecessor is a key (it is max + 1) |
| Keys.NextIdIncreases | src/petstore/repository.rs:81-87 | after storing under the next id, the following next id is one higher |
| Keys.FindKey | src/petstore/repository.rs:205 | a found key is stored and its entry matches; `None` only when no entry matches |
| Keys.Lookup | src/petstore/repository.rs:61 | definition of `HashMap::get`: the entry under the key, or `None`; the `Get` and `Delete` rows state its use |
| Keys.NameTaken | src/db.rs:112-114 | definition: some stored user has the name; `Db.AddUserSpec` states the refusal it causes and `Batches.NameTakenAfterInsert` how storing a user changes it |
| Queries.StatusMatches | src/petstore/mod.rs:78 | definition of the status filter: a pet without a status, or whose status is listed; `GetPetsByStatus` in both versions states that the listing is exactly these pets |
| Queries.HasTagNamed | src/petstore/mod.rs:86-88 | definition: the pet has a tag list and some tag in it has the name; a pet without a tag list has no tag name |
| Queries.HasAllTags | src/petstore/mod.rs:84-89 | definition of the tag filter: every requested name is a tag name of the pet; `UntaggedMatchesOnlyEmpty` and `FindPetsByTag` state its consequences |
| Queries.UntaggedMatchesOnlyEmpty | src/petstore/mod.rs:85-89 | a pet without a tag list matches a tag query exactly when the query is empty |
| Queries.FindPets | src/db.rs:95-105 | every result is a stored pet under its own id that passes the filter; ids ascend strictly; every stored pet that passes is returned |
| Queries.InventoryTotal | src/db.rs:266-273 | the three buckets together count exactly the pets that have a status |
| Queries.FoundAreMatches | src/petstore/repository.rs:64-77 | a filtered listing holds exactly the stored pets the filter accepts |
| Cascade.RegisterTags | src/petstore/mod.rs:50-57 | definition of the tag loop: store each tag under the next id until a tag has an id or the store cannot be written; `Registrable`, `RegisterTagsShape` and `RegisterTagsKeeps` state its outcome |
| Cascade.Registrable | src/petstore/mod.rs:50-57 | the number of tags stored is the longest prefix without preset ids, or 0 when the tag store cannot be written |
| Cascade.RegisterTagsShape | src/db.rs:182-186 | registering tags adds exactly the first `Registrable` tags, under consecutive fresh ids from `NextId`, each carrying its id, and keeps all earlier tags |
| Cascade.RegisterTagsKeeps | src/petstore/mod.rs:50-57 | registering tags loses no stored tag and keeps every tag under its own id |
| Cascade.RegisterCategory | src/petstore/mod.rs:58-65 | a new category is stored under a fresh `NextId` carrying it when the store is writable; otherwise nothing changes; the keyed invariant is kept |
| Repository.InMemoryDatabase.constructor | src/petstore/repository.rs:28-34 | an empty, unborrowed map |
| Repository.InMemoryDatabase.TryBorrow | src/petstore/repository.rs:41 | a shared borrow succeeds exactly when no exclusive borrow is live, and then adds a reader |
| Repository.InMemoryDatabase.EndBorrow | src/petstore/repository.rs:41-43 | dropping the guard removes one reader |
| Repository.InMemoryDatabase.TryBorrowMut | src/petstore/repository.rs:49 | the exclusive borrow succeeds exactly when no borrow is live |
| Repository.InMemoryDatabase.EndBorrowMut | src/petstore/repository.rs:49-51 | dropping the guard clears the exclusive flag |
| Repository.InMemoryDatabase.Read | src/petstore/repository.rs:37-43 | `Borrow` error exactly while written; otherwise the closure's result on the unchanged map; borrow state restored |
| Repository.InMemoryDatabase.Write | src/petstore/repository.rs:45-51 | `BorrowMut` and no change while any borrow is live; otherwise the map and result the closure gives; borrow state restored |
| Repository.PetRepository.constructor | src/petstore/repository.rs:54-57 | an empty, writable pet map |
| Repository.PetRepository.Get | src/petstore/repository.rs:60-62 | the pet stored under the id, if any, unless the map is borrowed for writing |
| Repository.PetRepository.Find | src/petstore/repository.rs:64-77 | the sorted listing `FindPets` of the stored pets passing the filter |
| Repository.PetRepository.Add | src/petstore/repository.rs:79-91 | stores the pet under `NextId` with that id and returns it; `BorrowMut` and no change when not writable |
| Repository.PetRepository.Update | src/petstore/repository.rs:93-103 | replaces the pet at its id; `NotFound` and no change when that id is not stored |
| Repository.PetRepository.Delete | src/petstore/repository.rs:105-107 | removes the id and returns what was stored there |
| Repository.TagRepository.constructor | src/petstore/repository.rs:110-113 | an empty, writable tag map |
| Repository.TagRepository.Add | src/petstore/repository.rs:116-128 | stores the tag under `NextId` with that id; `BorrowMut` and no change when not writable |
| Repository.CategoryRepository.constructor | src/petstore/repository.rs:131-134 | an empty, writable category map |
| Repository.CategoryRepository.Add | src/petstore/repository.rs:137-149 | stores the category under `NextId` with that id; `BorrowMut` and no change when not writable |
| Repository.OrderRepository.constructor | src/petstore/repository.rs:152-155 | an empty, writable order map |
| Repository.OrderRepository.Get | src/petstore/repository.rs:158-160 | the order stored under the id, if any |
| Repository.OrderRepository.Add | src/petstore/repository.rs:162-173 | stores the order under `NextId` with that id |
| Repository.OrderRepository.Delete | src/petstore/repository.rs:175-177 | removes the id and returns what was stored there |
| Repository.UserRepository.constructor | src/petstore/repository.rs:180-183 | an empty, writable user map |
| Repository.UserRepository.Add | src/petstore/repository.rs:186-198 | stores the user under `NextId` with that id; no username check |
| Repository.UserRepository.FindOne | src/petstore/repository.rs:200-206 | a stored user passing the filter, or `None` only when none does |
| Repository.UserRepository.Delete | src/petstore/repository.rs:208-220 | when the name is taken, some stored user with that name is removed and returned; `None` and no change when the name is not taken |
| Repository.UserRepository.Update | src/petstore/repository.rs:222-235 | when the name is taken, some stored user with that name is replaced by the new record carrying its id, which is returned; `NotFound` and no change when the name is not taken |
| Petstore.AddPetSpec | src/petstore/mod.rs:45-67 | definition of the layered `add_pet` over the three maps and their borrow states; the `AddPet...` lemmas below state its outcome |
| Petstore.TagsError | src/petstore/mod.rs:50-57 | the tag loop succeeds exactly when no tag has a preset id and the tag store is writable (if there are tags) |
| Petstore.CategoryError | src/petstore/mod.rs:58-65 | the category step succeeds exactly when there is no category, or it has no id and the store is writable |
| Petstore.AddPetRefusesPresetId | src/petstore/mod.rs:46-48 | a pet with an id is refused with `InvalidInput` and nothing is written |
| Petstore.AddPetStoresPet | src/petstore/mod.rs:49-66 | an accepted pet is stored under `NextId`; on success that fresh id is returned |
| Petstore.AddPetSucceedsIff | src/petstore/mod.rs:45-67 | success exactly when neither the pet, nor any tag, nor the category has an id, and every needed map is writable |
| Petstore.AddPetKeepsEarlierEntries | src/petstore/mod.rs:45-67 | no stored pet, tag or category is lost or changed, whatever the outcome (no rollback, no overwrite) |
| Petstore.AddPetKeepsKeyed | src/petstore/mod.rs:45-67 | the keyed invariant holds for all three maps afterwards |
| Petstore.InventoryOfAllPets | src/petstore/mod.rs:100-116 | counting the full listing gives, per status, the number of stored pets with that status |
| Petstore.AddUsersSpec | src/petstore/mod.rs:152-157 | definition of the layered `add_users`: `add_user` on each user in order, stopping at the first failure; the `AddUsers...` lemmas below state its outcome |
| Petstore.AddUsersSucceedsIff | src/petstore/mod.rs:152-157 | a batch succeeds exactly when no user has an id and (for a non-empty batch) the map is writable; then it returns every username in order, the map grows by the batch size and is exactly `StoreAll` of the old map from `NextId` on |
| Petstore.AddUsersStopsAtFirstPresetId | src/petstore/mod.rs:152-157 | at the first user with an id the batch fails with `InvalidInput`; the map is exactly `StoreAll` of the users before it, from `NextId` on, so nothing earlier is lost |
| Petstore.AddUsersFirstStored | src/petstore/mod.rs:142-157 | with the map writable, a first user without id is stored under `NextId` and then the rest runs, whose next id is one higher |
| Petstore.AddUsersStoresInOrder | src/petstore/mod.rs:152-157 | a successful non-empty batch leaves exactly `StoreAll` of the old map from `NextId` on; an empty one changes nothing |
| Petstore.AddUsersStoresPrefix | src/petstore/mod.rs:152-157 | when user `i` is the first with an id, the map afterwards is exactly `StoreAll` of the users before `i` from `NextId` on |
| Petstore.AddUsersAcceptsDuplicateNames | src/petstore/mod.rs:142-157 | two new users with one name are both stored under consecutive ids and the name is returned twice |
| Petstore.Tally | src/petstore/mod.rs:107-114 | the loop's three counters are the numbers of pets in the list with each status |
| Petstore.Petstore.constructor | src/petstore/mod.rs:37-39 | five new, empty, writable repositories, each over a new map |
| Petstore.Petstore.GetPet | src/petstore/mod.rs:41-43 | the pet stored under the id, carrying that id, or the borrow error |
| Petstore.Petstore.AddPet | src/petstore/mod.rs:45-67 | maps and result are exactly `AddPetSpec` of the maps and borrow states before the call |
| Petstore.AddPetTags | src/petstore/mod.rs:50-57 | the tag map becomes `RegisterTags` of the old one and the error is `TagsError` |
| Petstore.Petstore.AddPetCategory | src/petstore/mod.rs:58-65 | the category map becomes `RegisterCategory` of the old one and the error is `CategoryError` |
| Petstore.Petstore.UpdatePet | src/petstore/mod.rs:69-74 | `MissingIdentifier` without an id; `NotFound` for an unknown id; otherwise the stored pet is replaced and returned |
| Petstore.Petstore.GetPetsByStatus | src/petstore/mod.rs:76-80 | exactly the stored pets whose status is unset or listed, sorted by id |
| Petstore.Petstore.FindPetsByTag | src/petstore/mod.rs:82-92 | exactly the stored pets carrying a tag for every requested name, sorted by id |
| Petstore.Petstore.DeletePet | src/petstore/mod.rs:94-96 | the id is removed and the call succeeds, whether or not it was stored |
| Petstore.Petstore.GetInventory | src/petstore/mod.rs:100-116 | each bucket equals the number of stored pets with that status |
| Petstore.Petstore.AddOrder | src/petstore/mod.rs:118-126 | an order with a status is refused; otherwise it is stored under a fresh `NextId`, which is returned |
| Petstore.Petstore.DeleteOrder | src/petstore/mod.rs:128-133 | the id is removed; the result says whether it was stored |
| Petstore.Petstore.FindOrder | src/petstore/mod.rs:135-137 | the order stored under the id, carrying that id |
| Petstore.Petstore.AddUser | src/petstore/mod.rs:142-150 | a user with an id is refused; otherwise it is stored under a fresh id and its name returned |
| Petstore.Petstore.AddUsers | src/petstore/mod.rs:152-157 | map and result are exactly `AddUsersSpec` of the map and borrow state before the call |
| Petstore.Petstore.GetUser | src/petstore/mod.rs:159-163 | a stored user with the name, or `None` only when no stored user has it |
| Petstore.Petstore.DeleteUser | src/petstore/mod.rs:165-167 | when the name is taken, some stored user with that name is removed; no change otherwise; succeeds either way |
| Petstore.Petstore.UpdateUser | src/petstore/mod.rs:169-171 | when the name is taken, some stored user with that name is replaced, keeping its id; `NotFound` and no change when the name is not taken |
| Db.AddUserSpec | src/db.rs:107-130 | success exactly for a user without id whose name is not taken; a preset id gives `InvalidInput`, a taken name `RedundantUserName`, with no change; success stores it under a fresh `NextId` and returns its name |
| Db.AddUserKeepsInvariants | src/db.rs:107-130 | no stored user is lost; keyed and unique-username invariants are kept; afterwards the name is taken |
| Db.AddUsersSpec | src/db.rs:314-321 | definition of the monolithic `add_users`: the context's `add_user` on each user in order, stopping at the first failure; the `AddUsers...` lemmas below state its outcome |
| Db.AddUsersFirstAccepted | src/db.rs:314-321 | a batch whose first user is accepted stores it under `NextId` and then runs the rest, whose next id is one higher |
| Db.AddUsersSucceedsIff | src/db.rs:314-321 | a batch succeeds exactly when no user has an id, the names are pairwise distinct and none is taken; it then returns every username in order |
| Db.AddUsersStoresInOrder | src/db.rs:314-321 | a successful non-empty batch leaves exactly `StoreAll` of the old map from `NextId` on |
| Db.AddUsersStopsAtFirstRefusal | src/db.rs:314-321 | when users before `i` are new and user `i` is refused, the batch fails with that user's error and the map holds the users before `i`, stored from `NextId` on |
| Db.AddUsersKeepsNamesUnique | src/db.rs:314-321 | a batch keeps usernames unique and users keyed and loses no stored user |
| Db.DuplicateNamesInBatch | src/db.rs:314-321 | of two new users with one name, the first is stored and the batch fails with `RedundantUserName` |
| Db.FindUser | src/db.rs:323-331 | a stored user with the name, or `None` exactly when no stored user has it |
| Db.FindUserUnique | src/db.rs:323-331 | with unique usernames the search finds the one user with that name |
| Db.AddPetSpec | src/db.rs:169-194 | definition of the monolithic `add_pet` over the three maps and the context's writability; `AddPetSucceedsIff`, `AddPetKeepsEarlierEntries` and `Versions.AddPetAgrees` state its outcome |
| Db.AddPetSucceedsIff | src/db.rs:169-194 | success exactly when no entity has an id and the context is writable; then the fresh `NextId` is returned |
| Db.AddPetKeepsEarlierEntries | src/db.rs:169-194 | nothing stored before is lost or changed, and an accepted pet stays stored even when a tag or the category is refused |
| Db.Patched | src/db.rs:241-256 | the name and status are replaced where given; every other field is kept |
| Db.PetstoreDbContext.constructor | src/db.rs:54-63 | all maps empty |
| Db.PetstoreDbContext.AddTag | src/db.rs:65-77 | a tag with an id is refused; otherwise it is stored under a fresh `NextId` with that id and returned; other maps unchanged |
| Db.PetstoreDbContext.AddCategory | src/db.rs:79-93 | a category with an id is refused; otherwise it is stored under a fresh `NextId` with that id and returned |
| Db.PetstoreDbContext.AddUser | src/db.rs:107-130 | the user map and result are exactly `AddUserSpec`; invariants kept |
| Db.PetstoreDbContext.StorePet | src/db.rs:173-193 | the maps and result are `AddPetSpec` for a writable context |
| Db.PetstoreDbContext.StoreTags | src/db.rs:182-186 | the tag map becomes `RegisterTags` of the old one; it stops early exactly when some tag has an id |
| Db.PetstoreDbContext.AddUsers | src/db.rs:315-320 | the user map and result are exactly `AddUsersSpec` |
| Db.CountInventory | src/db.rs:266-274 | each counter equals the number of stored pets with that status |
| Db.PetstoreDb.constructor | src/db.rs:139-143 | an empty, unborrowed context |
| Db.PetstoreDb.TryBorrow | src/db.rs:149-151 | a shared borrow succeeds exactly when no exclusive borrow is live |
| Db.PetstoreDb.EndBorrow | src/db.rs:145-153 | dropping the guard removes one reader |
| Db.PetstoreDb.TryBorrowMut | src/db.rs:159-161 | the exclusive borrow succeeds exactly when no borrow is live |
| Db.PetstoreDb.EndBorrowMut | src/db.rs:155-163 | dropping the guard clears the exclusive flag |
| Db.PetstoreDb.ReadAsync | src/db.rs:145-153 | `BorrowError` exactly while written; otherwise the closure's result on the maps; borrow state restored |
| Db.PetstoreDb.GetPet | src/db.rs:165-167 | the pet stored under the id, carrying that id, or `BorrowError` |
| Db.PetstoreDb.AddPet | src/db.rs:169-194 | maps and result are exactly `AddPetSpec` of the maps and writability before the call; orders and users untouched |
| Db.PetstoreDb.UpdatePet | src/db.rs:196-209 | `MissingIdentifier` before the borrow; `MissingPet` for an unknown id; otherwise the pet is replaced and returned |
| Db.PetstoreDb.GetPetsByStatus | src/db.rs:211-213 | exactly the stored pets whose status is unset or listed, sorted by id |
| Db.PetstoreDb.FindPetsByTag | src/db.rs:215-225 | exactly the stored pets carrying a tag for every requested name, sorted by id |
| Db.PetstoreDb.DeletePet | src/db.rs:227-239 | removes a stored id; `MissingPet` and no change otherwise |
| Db.PetstoreDb.UpdatePetNameStatus | src/db.rs:241-256 | the stored pet becomes `Patched` and is returned; `MissingPet` when absent |
| Db.PetstoreDb.GetInventory | src/db.rs:260-277 | each bucket equals the number of stored pets with that status |
| Db.PetstoreDb.AddOrder | src/db.rs:279-293 | an order with a status is refused before the borrow; otherwise stored under a fresh `NextId`, which is returned |
| Db.PetstoreDb.DeleteOrder | src/db.rs:295-304 | the id is removed; the result says whether it was stored |
| Db.PetstoreDb.FindOrder | src/db.rs:306-308 | the order stored under the id, carrying that id |
| Db.PetstoreDb.AddUser | src/db.rs:310-312 | `BorrowMutError` while borrowed, whatever the user; otherwise exactly `AddUserSpec` |
| Db.PetstoreDb.AddUsers | src/db.rs:314-321 | one exclusive borrow; then exactly `AddUsersSpec` |
| Db.PetstoreDb.GetUser | src/db.rs:323-331 | `None` exactly when no user has the name; otherwise the one user with it |
| Db.PetstoreDb.DeleteUser | src/db.rs:333-345 | exactly the users with that name are removed, every other user is kept unchanged, and the call succeeds |
| Db.PetstoreDb.UpdateUser | src/db.rs:347-361 | the user with the same name is replaced, keeping its id; `MissingUser` when the name is not taken |
| Batches.StoreAll | src/db.rs:121-127 | storing a batch under consecutive ids: exactly the old keys and the ids from `base` on; old users unchanged; the user at `base + j` is user `j` carrying that id |
| Batches.Usernames | src/petstore/mod.rs:152-157 | the usernames of a batch, in order |
| Batches.NameTakenAfterInsert | src/db.rs:112-114 | after storing a user under a new key, a name is taken exactly when it was taken before or is that user's |
| Batches.FreshBatchStep | src/db.rs:314-321 | a batch whose first user is new is new as a whole exactly when the rest is new to the map with that user stored |
| Versions.AddPetAgrees | src/petstore/mod.rs:45-67 | with nothing borrowed, both versions' `add_pet` write the same maps and succeed or refuse alike |
| Versions.AddUsersAgree | src/petstore/mod.rs:152-157 | for a batch of new users with fresh, distinct names, both versions store the same map and return all the names |

## Left out

- Integer width: ids are `u64` and inventory counters `u32`. The model
  requires room below 2^64 for each new id (`IdRoom`). `GetInventory`
  requires at most 2^32 - 1 pets. Overflow behaviour is not modelled.
- `HashMap` iteration order is unspecified. Where the source takes the
  first match (`find` by username), the model's body picks one match
  (`FindKey`, the largest matching key). The contracts do not rely on that
  choice: they say only that some user with the name is found, removed or
  replaced, except where unique usernames make the match unique. The
  inventory loop visits keys in an arbitrary order.
- Futures and async execution, `Rc` sharing of the cell, and the HTTP
  routing, endpoints and responders are not part of this model. A borrow
  is modelled as a reader count and a writer flag that the operation
  itself takes and gives back.
- Error messages and the wrapped `cell::BorrowError` values are dropped;
  only the error kind is kept.
- The `photos` map of the context, and the unimplemented image upload, are
  not part of this model.
- Db.PetstoreDb.GetInventory: the counting loop cannot run inside a
  closure, so the shared borrow is taken and given back around a call to
  `CountInventory` instead of through `ReadAsync`.
- The write side of `write_async` is modelled by `TryBorrowMut` and
  `EndBorrowMut` around each operation's body, because the closures call
  methods that change the context.
