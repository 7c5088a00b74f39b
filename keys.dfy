/**
 * Identifier assignment and the key/id invariant shared by every entity map
 * of both store versions. A new entity gets id 0 in an empty map and
 * `max key + 1` otherwise; the map stores it under that same id.
 */
module Keys {
  import opened Wrappers
  import opened Model

  /**
   * There is room for `n` more `max + 1` ids below 2^64: the source's `u64`
   * addition would overflow otherwise.
   */
  predicate IdRoom(keys: set<U64>, n: nat)
  {
    n <= U64_MAX + 1 && forall k :: k in keys ==> k + n <= U64_MAX
  }

  /** The largest element of a non-empty key set, found by removing one key at a time. */
  lemma {:induction false} LargestKey(keys: set<U64>) returns (top: U64)
    requires keys != {}
    ensures top in keys && forall k :: k in keys ==> k <= top
    decreases keys
  {
    var x :| x in keys;
    var rest := keys - {x};
    if rest == {} {
      top := x;
      forall k | k in keys
        ensures k <= top
      {
        assert k !in rest;
      }
    } else {
      var m := LargestKey(rest);
      top := if x > m then x else m;
      forall k | k in keys
        ensures k <= top
      {
        if k != x {
          assert k in rest;
        }
      }
    }
  }

  /** Every non-empty key set has a largest element. */
  lemma MaxExists(keys: set<U64>)
    requires keys != {}
    ensures exists m :: m in keys && forall k :: k in keys ==> k <= m
  {
    var top := LargestKey(keys);
  }

  /** `keys().max()`: the largest key of a non-empty map. */
  function MaxKey(keys: set<U64>): (m: U64)
    requires keys != {}
    ensures m in keys
    ensures forall k :: k in keys ==> k <= m
  {
    MaxExists(keys);
    var m :| m in keys && forall k :: k in keys ==> k <= m; m
  }

  /**
   * The id a repository hands to a new entity: 0 for an empty map, else the
   * largest key plus one. It is above every existing key (so it is fresh),
   * and it is the least such number that is either 0 or follows a key.
   */
  function NextId(keys: set<U64>): (id: U64)
    requires IdRoom(keys, 1)
    ensures id !in keys
    ensures forall k :: k in keys ==> k < id
    ensures keys == {} <==> id == 0
    ensures id != 0 ==> id - 1 in keys
  {
    if keys == {} then 0 else MaxKey(keys) + 1
  }

  /** Storing a value under the next id leaves room for one fewer. */
  lemma RoomAfterInsert<T>(m: map<U64, T>, v: T, n: nat)
    requires IdRoom(m.Keys, n) && n >= 1
    ensures IdRoom(m[NextId(m.Keys) := v].Keys, n - 1)
  {
    assert m[NextId(m.Keys) := v].Keys == m.Keys + {NextId(m.Keys)};
    RoomAfterAdd(m.Keys, n);
  }

  /** After one id is handed out, room for one fewer remains. */
  lemma RoomAfterAdd(keys: set<U64>, n: nat)
    requires IdRoom(keys, n) && n >= 1
    ensures IdRoom(keys + {NextId(keys)}, n - 1)
  {
  }

  /** Sequential adds hand out consecutive ids: the next one is one higher. */
  lemma NextIdIncreases(keys: set<U64>)
    requires IdRoom(keys, 2)
    ensures IdRoom(keys + {NextId(keys)}, 1)
    ensures NextId(keys + {NextId(keys)}) == NextId(keys) + 1
  {
    var id := NextId(keys);
    var id' := NextId(keys + {id});
    assert id' - 1 in keys + {id};
  }

  /**
   * Some key whose entry satisfies `pred`, or `None` when no entry does.
   * The source takes the first match in `HashMap` iteration order, which is
   * unspecified; this picks the match with the largest key.
   */
  function FindKey<T>(m: map<U64, T>, pred: T -> bool): (r: Option<U64>)
    ensures r.Some? ==> r.value in m && pred(m[r.value])
    ensures r.None? ==> forall k :: k in m ==> !pred(m[k])
    decreases m.Keys
  {
    if m == map[] then None
    else
      var k := MaxKey(m.Keys);
      if pred(m[k]) then Some(k)
      else
        var rest := m - {k};
        assert forall j :: j in m && j != k ==> j in rest && rest[j] == m[j];
        FindKey(rest, pred)
  }

  /** The stored value at `id`, if any: `HashMap::get(..).cloned()`. */
  function Lookup<T>(m: map<U64, T>, id: U64): Option<T>
  {
    if id in m then Some(m[id]) else None
  }

  /** The stored-id invariant: key `k` holds an entity whose `id == Some(k)`. */
  ghost predicate PetsKeyed(m: map<U64, Pet>)
  {
    forall k :: k in m ==> m[k].id == Some(k)
  }

  ghost predicate TagsKeyed(m: map<U64, Tag>)
  {
    forall k :: k in m ==> m[k].id == Some(k)
  }

  ghost predicate CategoriesKeyed(m: map<U64, Category>)
  {
    forall k :: k in m ==> m[k].id == Some(k)
  }

  ghost predicate OrdersKeyed(m: map<U64, Order>)
  {
    forall k :: k in m ==> m[k].id == Some(k)
  }

  ghost predicate UsersKeyed(m: map<U64, User>)
  {
    forall k :: k in m ==> m[k].id == Some(k)
  }

  /** No two stored users share a username. */
  ghost predicate UniqueUsernames(m: map<U64, User>)
  {
    forall j, k :: j in m && k in m && m[j].username == m[k].username ==> j == k
  }

  /** Whether some stored user already has `name`. */
  predicate NameTaken(m: map<U64, User>, name: string)
  {
    exists k :: k in m && m[k].username == name
  }
}
