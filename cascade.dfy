/**
 * The pet-creation cascade, shared by both store versions: after the pet
 * is stored, its embedded tags are registered one at a time, in order,
 * each with a fresh id, until one is refused; then its category. Nothing
 * is rolled back.
 */
module Cascade {
  import opened Wrappers
  import opened Model
  import opened Keys

  /** The tags embedded in a pet, empty when it has no tag list. */
  function TagsOf(p: Pet): seq<Tag>
  {
    if p.tags.Some? then p.tags.value else []
  }

  /**
   * How many of `ts` are stored before registration stops: the longest
   * prefix of tags without a preset id, or none at all when the tag store
   * cannot be written (`free` false), because then the first insertion fails.
   */
  function Registrable(free: bool, ts: seq<Tag>): (n: nat)
    ensures n <= |ts|
    ensures forall i :: 0 <= i < n ==> ts[i].id.None?
    ensures n < |ts| ==> !free || ts[n].id.Some?
    ensures !free ==> n == 0
  {
    if !free || ts == [] || ts[0].id.Some? then 0 else 1 + Registrable(free, ts[1..])
  }

  /**
   * The tag map after registering `ts` in order: a tag with a preset id
   * stops the loop before it is stored, and so does a failed insertion when
   * the store cannot be written. The first `Registrable(free, ts)` tags are
   * stored under consecutive fresh ids starting at `NextId`, each carrying
   * its id; everything stored before is kept.
   */
  function RegisterTags(m: map<U64, Tag>, free: bool, ts: seq<Tag>): map<U64, Tag>
    requires IdRoom(m.Keys, |ts|)
    decreases |ts|
  {
    if ts == [] then m
    else if ts[0].id.Some? then m
    else if !free then m
    else
      var id := NextId(m.Keys);
      RoomAfterInsert(m, ts[0].(id := Some(id)), |ts|);
      RegisterTags(m[id := ts[0].(id := Some(id))], free, ts[1..])
  }

  /**
   * `RegisterTags` adds exactly the first `Registrable(free, ts)` tags, under
   * consecutive fresh ids, and keeps everything stored before.
   */
  lemma {:induction false} RegisterTagsShape(m: map<U64, Tag>, free: bool, ts: seq<Tag>)
    requires IdRoom(m.Keys, |ts|)
    ensures Registered(m, free, ts, RegisterTags(m, free, ts))
    decreases |ts|
  {
    if ts != [] && ts[0].id.None? && free {
      var id := NextId(m.Keys);
      var m1 := m[id := ts[0].(id := Some(id))];
      RoomAfterInsert(m, ts[0].(id := Some(id)), |ts|);
      RegisterTagsShape(m1, free, ts[1..]);
      RegisteredStep(m, free, ts, RegisterTags(m1, free, ts[1..]));
    }
  }

  /** Registering tags loses no stored tag and keeps every tag under its own id. */
  lemma {:induction false} RegisterTagsKeeps(m: map<U64, Tag>, free: bool, ts: seq<Tag>)
    requires IdRoom(m.Keys, |ts|)
    ensures var m' := RegisterTags(m, free, ts);
      && (forall k :: k in m ==> k in m' && m'[k] == m[k])
      && (TagsKeyed(m) ==> TagsKeyed(m'))
    decreases |ts|
  {
    if ts != [] && ts[0].id.None? && free {
      var id := NextId(m.Keys);
      var m1 := m[id := ts[0].(id := Some(id))];
      RoomAfterInsert(m, ts[0].(id := Some(id)), |ts|);
      RegisterTagsKeeps(m1, free, ts[1..]);
    }
  }

  /**
   * `m'` is `m` with the first `Registrable(free, ts)` tags added under
   * consecutive ids from `NextId(m.Keys)`, each tag carrying its own id.
   */
  ghost predicate Registered(m: map<U64, Tag>, free: bool, ts: seq<Tag>, m': map<U64, Tag>)
    requires IdRoom(m.Keys, |ts|)
  {
    && (forall k :: k in m ==> k in m' && m'[k] == m[k])
    && (Registrable(free, ts) == 0 ==> m' == m)
    && (Registrable(free, ts) > 0 ==>
          var base := NextId(m.Keys);
          var n := Registrable(free, ts);
          && (forall k :: k in m' <==> k in m || base <= k < base + n)
          && (forall k :: base <= k < base + n ==> k in m' && m'[k] == ts[k - base].(id := Some(k))))
  }

  /** One step of `RegisterTags`: storing the first tag, then the rest. */
  lemma RegisteredStep(m: map<U64, Tag>, free: bool, ts: seq<Tag>, m': map<U64, Tag>)
    requires IdRoom(m.Keys, |ts|) && ts != [] && ts[0].id.None? && free
    requires IdRoom((m[NextId(m.Keys) := ts[0].(id := Some(NextId(m.Keys)))]).Keys, |ts| - 1)
    requires Registered(m[NextId(m.Keys) := ts[0].(id := Some(NextId(m.Keys)))], free, ts[1..], m')
    ensures Registered(m, free, ts, m')
  {
    var id := NextId(m.Keys);
    var m1 := m[id := ts[0].(id := Some(id))];
    var n := Registrable(free, ts);
    assert n == 1 + Registrable(free, ts[1..]);
    if n == 1 {
      assert m' == m1;
    } else {
      NextIdIncreases(m.Keys);
      assert m1.Keys == m.Keys + {id};
      assert NextId(m1.Keys) == id + 1;
      forall k | id <= k < id + n
        ensures k in m' && m'[k] == ts[k - id].(id := Some(k))
      {
        if k > id {
          assert ts[1..][k - (id + 1)] == ts[k - id];
        }
      }
    }
  }

  /**
   * The category map after registering a pet's category: a new category
   * (no preset id) is stored under `NextId` carrying that id when the store
   * can be written; otherwise nothing changes.
   */
  function RegisterCategory(m: map<U64, Category>, free: bool, c: Option<Category>): (m': map<U64, Category>)
    requires IdRoom(m.Keys, 1)
    ensures c.None? || c.value.id.Some? || !free ==> m' == m
    ensures c.Some? && c.value.id.None? && free ==>
      var id := NextId(m.Keys);
      id !in m && m' == m[id := c.value.(id := Some(id))]
    ensures CategoriesKeyed(m) ==> CategoriesKeyed(m')
  {
    if c.Some? && c.value.id.None? && free then
      var id := NextId(m.Keys);
      m[id := c.value.(id := Some(id))]
    else m
  }

  /** Registering from tag `i` on, when tag `i` is stored: store it, then register the rest. */
  lemma RegisterTagsStep(m: map<U64, Tag>, ts: seq<Tag>, i: nat)
    requires i < |ts| && ts[i].id.None? && IdRoom(m.Keys, |ts| - i)
    ensures var id := NextId(m.Keys);
      var m' := m[id := ts[i].(id := Some(id))];
      && IdRoom(m'.Keys, |ts| - (i + 1))
      && RegisterTags(m, true, ts[i..]) == RegisterTags(m', true, ts[i + 1..])
      && Registrable(true, ts[i..]) == 1 + Registrable(true, ts[i + 1..])
  {
    assert ts[i..][0] == ts[i] && ts[i..][1..] == ts[i + 1..];
    RoomAfterInsert(m, ts[i].(id := Some(NextId(m.Keys))), |ts| - i);
  }

  /** Registering from tag `i` on, when tag `i` is refused: nothing is stored. */
  lemma RegisterTagsStop(m: map<U64, Tag>, free: bool, ts: seq<Tag>, i: nat)
    requires i < |ts| && (ts[i].id.Some? || !free) && IdRoom(m.Keys, |ts| - i)
    ensures RegisterTags(m, free, ts[i..]) == m && Registrable(free, ts[i..]) == 0
  {
    assert ts[i..][0] == ts[i];
  }
}
