/**
 * The two store versions side by side. With every map free to write, pet
 * creation does the same thing in both; user batches agree as long as the
 * batch brings only new, distinct usernames, and part ways on a repeated
 * name (the layered store stores both users, the monolithic one refuses
 * the second).
 */
module Versions {
  import opened Wrappers
  import opened Model
  import opened Keys
  import opened Cascade
  import opened Batches
  import P = Petstore
  import D = Db

  /**
   * With nothing borrowed, both versions of `add_pet` write the same three
   * maps and return the same id; both refuse the same pets, with their own
   * `InvalidInput`.
   */
  lemma AddPetAgrees(pets: map<U64, Pet>, tags: map<U64, Tag>, categories: map<U64, Category>, pet: Pet)
    requires IdRoom(pets.Keys, 1) && IdRoom(tags.Keys, |TagsOf(pet)|) && IdRoom(categories.Keys, 1)
    ensures var a := P.AddPetSpec(pets, tags, categories, true, true, true, pet);
      var b := D.AddPetSpec(pets, tags, categories, true, pet);
      && a.pets == b.pets && a.tags == b.tags && a.categories == b.categories
      && (a.result.Ok? ==> b.result == Ok(a.result.value))
      && (a.result.Err? ==> a.result == Err(P.InvalidInput) && b.result == Err(D.InvalidInput))
  {
    var ts := TagsOf(pet);
    var n := Registrable(true, ts);
    if pet.id.None? && n < |ts| {
      assert ts[n] in ts;
    }
  }

  /**
   * A batch of new users with fresh, distinct usernames is stored the same
   * way by both versions of `add_users`, and both return its usernames.
   */
  lemma {:induction false} AddUsersAgree(m: map<U64, User>, us: seq<User>)
    requires IdRoom(m.Keys, |us|) && FreshBatch(m, us)
    ensures var a := P.AddUsersSpec(m, true, us);
      var b := D.AddUsersSpec(m, us);
      && a.0 == b.0
      && a.1 == Ok(Usernames(us)) && b.1 == Ok(Usernames(us))
    decreases |us|
  {
    if us != [] {
      var id := NextId(m.Keys);
      var m1 := m[id := us[0].(id := Some(id))];
      RoomAfterInsert(m, us[0].(id := Some(id)), |us|);
      forall i | 0 <= i < |us[1..]|
        ensures us[1..][i].id.None? && !NameTaken(m1, us[1..][i].username)
      {
        assert us[1..][i] == us[i + 1];
        assert us[0].username != us[i + 1].username;
      }
      forall i, j | 0 <= i < j < |us[1..]|
        ensures us[1..][i].username != us[1..][j].username
      {
        assert us[1..][i] == us[i + 1] && us[1..][j] == us[j + 1];
      }
      AddUsersAgree(m1, us[1..]);
    }
  }
}
