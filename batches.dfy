/**
 * Pieces shared by both versions of `add_users`: the usernames a batch
 * returns, how a batch's outcome collects them, and what makes a batch
 * entirely new to a user map.
 */
module Batches {
  import opened Wrappers
  import opened Model
  import opened Keys

  /** The usernames of `us`, in order. */
  function Usernames(us: seq<User>): (names: seq<string>)
    ensures |names| == |us| && forall i :: 0 <= i < |us| ==> names[i] == us[i].username
  {
    if us == [] then [] else [us[0].username] + Usernames(us[1..])
  }

  /**
   * A user batch's outcome with the usernames collected so far put in front
   * of the usernames the rest of the batch returns.
   */
  function AfterNames<E>(names: seq<string>, w: (map<U64, User>, Result<seq<string>, E>)): (map<U64, User>, Result<seq<string>, E>)
  {
    (w.0, if w.1.Ok? then Ok(names + w.1.value) else w.1)
  }

  /**
   * Collecting one more username first is the same as collecting it
   * afterwards (the step the batch loops take on each stored user).
   */
  lemma AfterNamesConcat<E>(names: seq<string>, name: string, w: (map<U64, User>, Result<seq<string>, E>))
    ensures AfterNames(names, AfterNames([name], w)) == AfterNames(names + [name], w)
  {
    if w.1.Ok? {
      assert names + ([name] + w.1.value) == names + [name] + w.1.value;
    }
  }

  /** With no usernames collected yet, the outcome is the batch's own. */
  lemma AfterNoNames<E>(w: (map<U64, User>, Result<seq<string>, E>))
    ensures AfterNames([], w) == w
  {
    if w.1.Ok? {
      assert [] + w.1.value == w.1.value;
    }
  }

  /** No user of `us` has an id, their usernames are distinct, and none is taken in `m`. */
  ghost predicate FreshBatch(m: map<U64, User>, us: seq<User>)
  {
    && (forall i :: 0 <= i < |us| ==> us[i].id.None? && !NameTaken(m, us[i].username))
    && (forall i, j :: 0 <= i < j < |us| ==> us[i].username != us[j].username)
  }

  /** Storing a user under a new key takes exactly its username as well. */
  lemma NameTakenAfterInsert(m: map<U64, User>, k: U64, v: User, name: string)
    requires k !in m
    ensures NameTaken(m[k := v], name) <==> NameTaken(m, name) || v.username == name
  {
    if NameTaken(m, name) {
      var j :| j in m && m[j].username == name;
      assert m[k := v][j].username == name;
    }
    if v.username == name {
      assert m[k := v][k].username == name;
    }
  }

  /**
   * A batch whose first user is new to `m` is new as a whole exactly when
   * the rest is new to `m` with that first user stored.
   */
  lemma {:induction false} FreshBatchStep(m: map<U64, User>, k: U64, v: User, us: seq<User>)
    requires us != [] && us[0].id.None? && !NameTaken(m, us[0].username)
    requires k !in m && v.username == us[0].username
    ensures FreshBatch(m, us) <==> FreshBatch(m[k := v], us[1..])
  {
    forall name
      ensures NameTaken(m[k := v], name) <==> NameTaken(m, name) || us[0].username == name
    {
      NameTakenAfterInsert(m, k, v, name);
    }
    if FreshBatch(m[k := v], us[1..]) {
      forall i | 0 <= i < |us|
        ensures us[i].id.None? && !NameTaken(m, us[i].username)
      {
        if i > 0 {
          assert us[1..][i - 1] == us[i];
        }
      }
      forall i, j | 0 <= i < j < |us|
        ensures us[i].username != us[j].username
      {
        assert us[1..][j - 1] == us[j];
        if i > 0 {
          assert us[1..][i - 1] == us[i];
        }
      }
    }
    if FreshBatch(m, us) {
      forall i | 0 <= i < |us[1..]|
        ensures us[1..][i].id.None? && !NameTaken(m[k := v], us[1..][i].username)
      {
        assert us[1..][i] == us[i + 1];
      }
      forall i, j | 0 <= i < j < |us[1..]|
        ensures us[1..][i].username != us[1..][j].username
      {
        assert us[1..][i] == us[i + 1] && us[1..][j] == us[j + 1];
      }
    }
  }

  /**
   * `m` with the users of `us` stored, in order, under the consecutive ids
   * `base`, `base + 1`, ..., each carrying its id; every earlier user stays.
   */
  function StoreAll(m: map<U64, User>, us: seq<User>, base: nat): (after: map<U64, User>)
    requires base + |us| <= U64_MAX + 1
    requires forall k :: k in m ==> k < base
    ensures forall k :: k in after <==> k in m || base <= k < base + |us|
    ensures forall k :: k in m ==> after[k] == m[k]
    ensures forall k: U64 :: base <= k < base + |us| ==> after[k] == us[k - base].(id := Some(k))
    decreases |us|
  {
    if us == [] then m
    else
      var after := StoreAll(m[base as U64 := us[0].(id := Some(base as U64))], us[1..], base + 1);
      after
  }

  /** Storing a batch from `base` on is storing its first user under `base`, then the rest from `base + 1` on. */
  lemma StoreAllFirst(m: map<U64, User>, us: seq<User>, base: U64)
    requires us != [] && base as int + |us| <= U64_MAX + 1
    requires forall k :: k in m ==> k < base
    ensures StoreAll(m, us, base) == StoreAll(m[base := us[0].(id := Some(base))], us[1..], base as int + 1)
  {
  }

  /** The first `i` users of `us`, split into its first user and the next `i - 1`. */
  lemma PrefixSplit(us: seq<User>, i: nat)
    requires 0 < i < |us|
    ensures us[..i] != [] && us[..i][0] == us[0] && us[..i][1..] == us[1..][..i - 1]
    ensures us[1..][i - 1] == us[i]
  {
  }
}
