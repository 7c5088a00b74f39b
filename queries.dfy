/**
 * The read side shared by both store versions: the sorted `find` over the
 * pet map, the two filters the status and tag queries pass to it, and the
 * status counts the inventory reports.
 */
module Queries {
  import opened Wrappers
  import opened Model
  import opened Keys

  /** The status filter: a pet with no status matches every request (OR semantics). */
  predicate StatusMatches(statuses: seq<Status>, p: Pet)
  {
    p.status.None? || p.status.value in statuses
  }

  /** The pet has a tag list holding a tag with this name. */
  predicate HasTagNamed(p: Pet, name: string)
  {
    p.tags.Some? && exists t :: t in p.tags.value && t.name == name
  }

  /** The tag filter: every requested name is among the pet's tag names (AND semantics). */
  predicate HasAllTags(names: seq<string>, p: Pet)
  {
    forall n :: n in names ==> HasTagNamed(p, n)
  }

  /** A pet without a tag list matches the empty request and nothing else. */
  lemma UntaggedMatchesOnlyEmpty(names: seq<string>, p: Pet)
    requires p.tags.None?
    ensures HasAllTags(names, p) <==> names == []
  {
    if names != [] {
      assert names[0] in names;
    }
  }

  /**
   * `find`: the stored pets that satisfy `pred`, sorted by id. Every result
   * is a stored pet at its own key and satisfies `pred`, the ids ascend
   * strictly, and every stored pet that satisfies `pred` is returned. The
   * sort key is the pet's id, which the key invariant makes equal to its
   * map key (the source panics on a stored pet without an id).
   */
  function FindPets(m: map<U64, Pet>, pred: Pet -> bool): (r: seq<Pet>)
    requires PetsKeyed(m)
    ensures |r| <= |m|
    ensures forall i :: 0 <= i < |r| ==> StoredMatch(m, pred, r[i])
    ensures forall i, j :: 0 <= i < j < |r| ==> IdBelow(r[i], r[j])
    ensures forall k :: k in m && pred(m[k]) ==> m[k] in r
    decreases m.Keys
  {
    if m == map[] then []
    else
      var k := MaxKey(m.Keys);
      var rest := m - {k};
      assert forall j :: j in m && j != k ==> j in rest && rest[j] == m[j];
      assert |rest| == |m| - 1 by {
        assert rest.Keys == m.Keys - {k};
      }
      var found := FindPets(rest, pred);
      if pred(m[k]) then
        FindPetsAppend(m, pred, k, rest, found);
        found + [m[k]]
      else
        found
  }

  /** `p` is stored in `m` under its own id and satisfies `pred`. */
  ghost predicate StoredMatch(m: map<U64, Pet>, pred: Pet -> bool, p: Pet)
  {
    p.id.Some? && p.id.value in m && m[p.id.value] == p && pred(p)
  }

  /** Both pets carry ids and the first id is the smaller. */
  ghost predicate IdBelow(p: Pet, q: Pet)
  {
    p.id.Some? && q.id.Some? && p.id.value < q.id.value
  }

  /** Appending the pet at the largest key keeps the found list sorted and stored. */
  lemma FindPetsAppend(m: map<U64, Pet>, pred: Pet -> bool, k: U64, rest: map<U64, Pet>, found: seq<Pet>)
    requires PetsKeyed(m) && k in m && pred(m[k])
    requires forall j :: j in m ==> j <= k
    requires rest == m - {k}
    requires forall i :: 0 <= i < |found| ==> StoredMatch(rest, pred, found[i])
    requires forall i, j :: 0 <= i < j < |found| ==> IdBelow(found[i], found[j])
    ensures forall i :: 0 <= i < |found + [m[k]]| ==> StoredMatch(m, pred, (found + [m[k]])[i])
    ensures forall i, j :: 0 <= i < j < |found + [m[k]]| ==> IdBelow((found + [m[k]])[i], (found + [m[k]])[j])
  {
    var r := found + [m[k]];
    forall i | 0 <= i < |r|
      ensures StoredMatch(m, pred, r[i])
    {
      if i < |found| {
        assert StoredMatch(rest, pred, found[i]);
      }
    }
    forall i, j | 0 <= i < j < |r|
      ensures IdBelow(r[i], r[j])
    {
      if j < |found| {
        assert IdBelow(found[i], found[j]);
      } else {
        assert StoredMatch(rest, pred, found[i]);
      }
    }
  }

  /** How many pets of a sequence have status `s`. */
  function CountStatus(ps: seq<Pet>, s: Status): (n: nat)
    ensures n <= |ps|
  {
    if ps == [] then 0
    else CountStatus(ps[..|ps| - 1], s) + (if ps[|ps| - 1].status == Some(s) then 1 else 0)
  }

  /** The stored pets among `keys` whose status is `s`. */
  ghost function KeysWithStatus(m: map<U64, Pet>, keys: set<U64>, s: Status): set<U64>
  {
    set k | k in keys && k in m && m[k].status == Some(s)
  }

  /** How many stored pets have status `s`: an inventory bucket. */
  ghost function StatusCount(m: map<U64, Pet>, s: Status): (n: nat)
    ensures n <= |m|
  {
    var ks := KeysWithStatus(m, m.Keys, s);
    assert ks <= m.Keys;
    SubsetCard(ks, m.Keys);
    |ks|
  }

  lemma {:induction false} SubsetCard(a: set<U64>, b: set<U64>)
    requires a <= b
    ensures |a| <= |b|
    decreases b
  {
    if a != {} {
      var x :| x in a;
      SubsetCard(a - {x}, b - {x});
    }
  }

  /** Counting one more key adds one exactly when that pet has status `s`. */
  lemma KeysWithStatusStep(m: map<U64, Pet>, keys: set<U64>, k: U64, s: Status)
    requires k !in keys && k in m
    ensures |KeysWithStatus(m, keys + {k}, s)|
      == |KeysWithStatus(m, keys, s)| + (if m[k].status == Some(s) then 1 else 0)
  {
    if m[k].status == Some(s) {
      assert KeysWithStatus(m, keys + {k}, s) == KeysWithStatus(m, keys, s) + {k};
    } else {
      assert KeysWithStatus(m, keys + {k}, s) == KeysWithStatus(m, keys, s);
    }
  }

  /** The three inventory buckets, counted over the stored pets among `keys`. */
  ghost function Tallied(m: map<U64, Pet>, keys: set<U64>): (nat, nat, nat)
  {
    (|KeysWithStatus(m, keys, Available)|, |KeysWithStatus(m, keys, Pending)|, |KeysWithStatus(m, keys, Adopted)|)
  }

  /** Counting one more key raises the bucket of that pet's status, if it has one, by one. */
  lemma TalliedStep(m: map<U64, Pet>, keys: set<U64>, k: U64)
    requires k !in keys && k in m
    ensures var (a, p, d) := Tallied(m, keys);
      Tallied(m, keys + {k}) == match m[k].status
        case Some(Available) => (a + 1, p, d)
        case Some(Pending) => (a, p + 1, d)
        case Some(Adopted) => (a, p, d + 1)
        case None => (a, p, d)
  {
    KeysWithStatusStep(m, keys, k, Available);
    KeysWithStatusStep(m, keys, k, Pending);
    KeysWithStatusStep(m, keys, k, Adopted);
  }

  /** The stored pets that satisfy `pred` and have status `s`. */
  ghost function FoundWithStatus(m: map<U64, Pet>, pred: Pet -> bool, s: Status): set<U64>
  {
    set k | k in m && pred(m[k]) && m[k].status == Some(s)
  }

  /**
   * Counting a status over what `find` returns counts the stored pets that
   * satisfy the filter and have that status: the sorted list loses and
   * duplicates nothing.
   */
  lemma {:induction false} CountFoundPets(m: map<U64, Pet>, pred: Pet -> bool, s: Status)
    requires PetsKeyed(m)
    ensures CountStatus(FindPets(m, pred), s) == |FoundWithStatus(m, pred, s)|
    decreases m.Keys
  {
    if m != map[] {
      var k := MaxKey(m.Keys);
      var rest := m - {k};
      CountFoundPets(rest, pred, s);
      FoundWithStatusStep(m, pred, s, k, rest);
      var found := FindPets(rest, pred);
      if pred(m[k]) {
        assert (found + [m[k]])[..|found|] == found;
      }
    }
  }

  /** Removing the pet at key `k` removes exactly `k` from the counted set. */
  lemma FoundWithStatusStep(m: map<U64, Pet>, pred: Pet -> bool, s: Status, k: U64, rest: map<U64, Pet>)
    requires k in m && rest == m - {k}
    ensures |FoundWithStatus(m, pred, s)|
      == |FoundWithStatus(rest, pred, s)| + (if pred(m[k]) && m[k].status == Some(s) then 1 else 0)
  {
    var all := FoundWithStatus(m, pred, s);
    var before := FoundWithStatus(rest, pred, s);
    forall j
      ensures j in before <==> j in all && j != k
    {
      if j in m && j != k {
        assert j in rest && rest[j] == m[j];
      }
    }
    assert before == all - {k};
  }

  /**
   * The three inventory buckets together count exactly the pets whose status
   * is set; a pet without a status is in no bucket.
   */
  lemma InventoryTotal(m: map<U64, Pet>)
    ensures StatusCount(m, Available) + StatusCount(m, Pending) + StatusCount(m, Adopted)
      == |set k | k in m && m[k].status.Some?|
  {
    var a := KeysWithStatus(m, m.Keys, Available);
    var p := KeysWithStatus(m, m.Keys, Pending);
    var d := KeysWithStatus(m, m.Keys, Adopted);
    var withStatus := set k | k in m && m[k].status.Some?;
    forall k | k in withStatus
      ensures k in a + p + d
    {
      match m[k].status.value
      case Available =>
      case Pending =>
      case Adopted =>
    }
    assert withStatus == a + p + d;
    assert a * p == {} && (a + p) * d == {};
  }

  /** The filter behind `get_pets_by_status`, in both versions. */
  function ByStatus(statuses: seq<Status>): Pet -> bool
  {
    (p: Pet) => StatusMatches(statuses, p)
  }

  /** The filter behind `find_pets_by_tag`, in both versions. */
  function ByTags(names: seq<string>): Pet -> bool
  {
    (p: Pet) => HasAllTags(names, p)
  }

  /** The filter `get_inventory` of the layered version hands to `find`: every pet. */
  function AnyPet(): Pet -> bool
  {
    (p: Pet) => true
  }

  /** The username test both versions search the users with. */
  function Named(name: string): User -> bool
  {
    (u: User) => u.username == name
  }

  /** A filtered listing holds exactly the stored pets the filter accepts. */
  lemma FoundAreMatches(m: map<U64, Pet>, pred: Pet -> bool)
    requires PetsKeyed(m)
    ensures forall p :: p in FindPets(m, pred) <==> p in m.Values && pred(p)
  {
    var r := FindPets(m, pred);
    forall p
      ensures p in r <==> p in m.Values && pred(p)
    {
      if p in r {
        var i :| 0 <= i < |r| && r[i] == p;
        assert StoredMatch(m, pred, r[i]);
      }
      if p in m.Values && pred(p) {
        var k :| k in m && m[k] == p;
      }
    }
  }
}
