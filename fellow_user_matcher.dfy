/**
 * Linking a user account to the fellow whose contact shares its email.
 * The `users` and `fellows` tables are sequences of records, `fellows` in
 * primary-key order (the order `.first` picks from).
 */
module UserMatching {
  import opened Wrappers
  import opened RubyString
  import Pipeline

  type UserId = nat

  datatype User = User(id: UserId, email: Option<String>, isFellow: bool)

  /**
   * A fellow with the email column of its contact, `None` when the contact
   * or its email is missing (what the outer join of `includes(:contact)`
   * compares).
   */
  datatype FellowRecord = FellowRecord(id: Pipeline.FellowId, userId: Option<UserId>, deleted: bool, contactEmail: Option<String>)

  datatype Tables = Tables(users: seq<User>, fellows: seq<FellowRecord>)

  /** `User.find_by email: email`, as an index. */
  function FindUser(users: seq<User>, email: Option<String>): (r: Option<nat>)
    ensures r.None? <==> forall i :: 0 <= i < |users| ==> users[i].email != email
    ensures r.Some? ==> r.value < |users| && users[r.value].email == email
    ensures r.Some? ==> forall i :: 0 <= i < r.value ==> users[i].email != email
  {
    if users == [] then None
    else if users[0].email == email then Some(0)
    else
      match FindUser(users[1..], email)
      case None => None
      case Some(i) => Some(i + 1)
  }

  /** The fellow is not soft-deleted and its contact has the email. */
  predicate HasContactEmail(fellow: FellowRecord, email: Option<String>) {
    !fellow.deleted && fellow.contactEmail == email
  }

  /** `Fellow.includes(:contact).where(contacts: {email: email}).first`, as an index. */
  function FindFellow(fellows: seq<FellowRecord>, email: Option<String>): (r: Option<nat>)
    ensures r.None? <==> forall j :: 0 <= j < |fellows| ==> !HasContactEmail(fellows[j], email)
    ensures r.Some? ==> r.value < |fellows| && HasContactEmail(fellows[r.value], email)
    ensures r.Some? ==> forall j :: 0 <= j < r.value ==> !HasContactEmail(fellows[j], email)
  {
    if fellows == [] then None
    else if HasContactEmail(fellows[0], email) then Some(0)
    else
      match FindFellow(fellows[1..], email)
      case None => None
      case Some(j) => Some(j + 1)
  }

  /**
   * `FellowUserMatcher.match(email)`, as values: with both a user and a
   * fellow for the email, the fellow points at the user and the user is
   * marked as a fellow; otherwise nothing changes.
   */
  function Matched(t: Tables, email: Option<String>): Tables {
    match (FindUser(t.users, email), FindFellow(t.fellows, email))
    case (Some(i), Some(j)) =>
      Tables(t.users[i := t.users[i].(isFellow := true)], t.fellows[j := t.fellows[j].(userId := Some(t.users[i].id))])
    case _ => t
  }

  /** Without a user or without a fellow for the email, nothing changes. */
  lemma MatchedNeedsBoth(t: Tables, email: Option<String>)
    requires FindUser(t.users, email).None? || FindFellow(t.fellows, email).None?
    ensures Matched(t, email) == t
  {
  }

  /**
   * With both, the first fellow whose contact has the email belongs to the
   * user found by email, that user is a fellow, and every other user and
   * fellow is as before.
   */
  lemma MatchedLinks(t: Tables, email: Option<String>, i: nat, j: nat)
    requires i < |t.users| && t.users[i].email == email && forall k :: 0 <= k < i ==> t.users[k].email != email
    requires j < |t.fellows| && HasContactEmail(t.fellows[j], email)
    requires forall k :: 0 <= k < j ==> !HasContactEmail(t.fellows[k], email)
    ensures var m := Matched(t, email);
      && |m.users| == |t.users| && |m.fellows| == |t.fellows|
      && m.users[i] == t.users[i].(isFellow := true)
      && m.fellows[j] == t.fellows[j].(userId := Some(t.users[i].id))
      && (forall k :: 0 <= k < |t.users| && k != i ==> m.users[k] == t.users[k])
      && (forall k :: 0 <= k < |t.fellows| && k != j ==> m.fellows[k] == t.fellows[k])
  {
    assert FindUser(t.users, email) == Some(i);
    assert FindFellow(t.fellows, email) == Some(j);
  }

  /** Matching the same email again changes nothing. */
  lemma MatchedIdempotent(t: Tables, email: Option<String>)
    ensures Matched(Matched(t, email), email) == Matched(t, email)
  {
    var m := Matched(t, email);
    match (FindUser(t.users, email), FindFellow(t.fellows, email))
    case (Some(i), Some(j)) =>
      assert forall k :: 0 <= k < |m.users| ==> m.users[k].email == t.users[k].email;
      assert forall k :: 0 <= k < |m.fellows| ==> (HasContactEmail(m.fellows[k], email) <==> HasContactEmail(t.fellows[k], email));
      assert FindUser(m.users, email) == Some(i);
      assert FindFellow(m.fellows, email) == Some(j);
      assert m.users[i := m.users[i].(isFellow := true)] == m.users;
      assert m.fellows[j := m.fellows[j].(userId := Some(m.users[i].id))] == m.fellows;
    case _ =>
  }

  /** The stored users and fellows. */
  class Accounts {
    var users: seq<User>
    var fellows: seq<FellowRecord>

    constructor (users: seq<User>, fellows: seq<FellowRecord>)
      ensures this.users == users && this.fellows == fellows
    {
      this.users, this.fellows := users, fellows;
    }

    function Contents(): Tables
      reads this
    {
      Tables(users, fellows)
    }

    /** `FellowUserMatcher.match(email)`: `user.fellow = fellow` and `user.update is_fellow: true`. */
    method Match(email: Option<String>)
      modifies this
      ensures Contents() == Matched(old(Contents()), email)
    {
      var i := FindUser(users, email);
      var j := FindFellow(fellows, email);
      if i.Some? && j.Some? {
        var user := users[i.value];
        fellows := fellows[j.value := fellows[j.value].(userId := Some(user.id))];
        users := users[i.value := user.(isFellow := true)];
      }
    }
  }
}
