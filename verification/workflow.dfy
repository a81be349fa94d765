/** Properties of sequences of `AppComponent` transitions: what an edit
    sends back, why a closed modal sends nothing, where a created record
    lands, and the newest-first invariant every step keeps. */
module Workflow {
  import opened Wrappers
  import opened Users
  import opened Recency
  import opened Forms
  import opened Component

  /** One user action or server response the view reacts to. */
  datatype Event =
    | Loaded(list: seq<User>)
    | Open(user: Option<User>)
    | Close
    | Created(created: User)
    | Updated(updated: User)
    | Deleted(id: string)

  function Apply(s: State, e: Event): State {
    match e
    case Loaded(list) => OnUsersLoaded(s, list)
    case Open(user) => OpenModal(s, user)
    case Close => CloseModal(s)
    case Created(u) => OnUserCreated(s, u)
    case Updated(u) => OnUserUpdated(s, u)
    case Deleted(id) => OnUserDeleted(s, id)
  }

  function ApplyAll(s: State, events: seq<Event>): State
    decreases |events|
  {
    if events == [] then s else ApplyAll(Apply(s, events[0]), events[1..])
  }

  /** The list is newest first after any run of events from the start. */
  lemma {:induction false} RunsKeepNewestFirst(s: State, events: seq<Event>)
    requires NewestFirst(s.users)
    ensures NewestFirst(ApplyAll(s, events).users)
    decreases |events|
  {
    if events != [] {
      RunsKeepNewestFirst(Apply(s, events[0]), events[1..]);
    }
  }

  /** Opening a record and submitting without edits sends back that very
      record: its id in the path and its name, email, mobile and original
      creation time in the body, whatever the clock says. */
  lemma EditRoundTrip(s: State, u: User, now: int, isEmail: string -> bool)
    requires FormValid(FromUser(u), isEmail)
    ensures var r := OnSubmit(OpenModal(s, Some(u)), now, isEmail);
            && r.Update?
            && User(r.id, r.payload.name.value, r.payload.email.value, r.payload.mobile.value, r.payload.createdAt) == u
  {
  }

  /** In create mode a valid form is sent as it stands, stamped with the
      current time. */
  lemma CreateSendsForm(s: State, f: Form, now: int, isEmail: string -> bool)
    requires FormValid(f, isEmail)
    ensures OnSubmit(OpenModal(s, None).(form := f), now, isEmail) == Create(Payload(f.name, f.email, f.mobile, now))
  {
  }

  /** A closed modal has a reset form, so submitting it sends nothing; in
      particular nothing is sent again once a create or update response has
      been applied. */
  lemma ClosedModalSendsNothing(s: State, u: User, now: int, isEmail: string -> bool)
    ensures OnSubmit(CloseModal(s), now, isEmail) == NoRequest
    ensures OnSubmit(OnUserCreated(s, u), now, isEmail) == NoRequest
    ensures OnSubmit(OnUserUpdated(s, u), now, isEmail) == NoRequest
  {
    EmptyFormsAreInvalid(isEmail);
  }

  /** `Insert` splices `x` in after the records strictly newer than it and
      before the rest. */
  lemma {:induction false} InsertPosition(x: User, s: seq<User>) returns (i: nat)
    ensures i <= |s| && Insert(x, s) == s[..i] + [x] + s[i..]
    ensures forall k :: 0 <= k < i ==> s[k].createdAt > x.createdAt
    ensures i < |s| ==> s[i].createdAt <= x.createdAt
  {
    if s == [] || s[0].createdAt <= x.createdAt {
      i := 0;
      assert s[..0] == [] && s[0..] == s;
    } else {
      var tail := s[1..];
      var j := InsertPosition(x, tail);
      i := j + 1;
      SpliceUnderHead(s, j, x);
      forall k | 0 <= k < i
        ensures s[k].createdAt > x.createdAt
      {
        if k > 0 {
          assert s[k] == tail[k - 1];
        }
      }
      assert i < |s| ==> s[i] == tail[j];
    }
  }

  /** Splicing into the tail of a list is splicing one place later into
      the whole list. */
  lemma SpliceUnderHead(s: seq<User>, j: nat, x: User)
    requires s != [] && j <= |s| - 1
    ensures [s[0]] + (s[1..][..j] + [x] + s[1..][j..]) == s[..j + 1] + [x] + s[j + 1..]
  {
    assert s[..j + 1] == [s[0]] + s[1..][..j];
    assert s[j + 1..] == s[1..][j..];
  }

  /** On a newest-first list the create callback splices the new record in
      behind the strictly newer records and ahead of all others, including
      those created at the same instant. */
  lemma CreatedLandsAheadOfPeers(s: State, u: User) returns (i: nat)
    requires NewestFirst(s.users)
    ensures i <= |s.users|
    ensures OnUserCreated(s, u).users == s.users[..i] + [u] + s.users[i..]
    ensures forall k :: 0 <= k < i ==> s.users[k].createdAt > u.createdAt
    ensures forall k :: i <= k < |s.users| ==> s.users[k].createdAt <= u.createdAt
  {
    UnshiftThenSortIsInsert(u, s.users);
    i := InsertPosition(u, s.users);
  }

  /** A created record at least as new as every listed one goes to the
      front, ahead of the rest in their old order. */
  lemma NewestCreatedGoesFirst(s: State, u: User)
    requires NewestFirst(s.users)
    requires NoneNewer(u, s.users)
    ensures OnUserCreated(s, u).users == [u] + s.users
  {
    UnshiftThenSortIsInsert(u, s.users);
  }

  /** On a newest-first list the delete callback is the plain filter: the
      re-sort moves nothing. */
  lemma DeleteKeepsOrder(s: State, id: string)
    requires NewestFirst(s.users)
    ensures OnUserDeleted(s, id).users == WithoutId(s.users, id)
  {
    WithoutIdKeepsOrder(s.users, id);
    SortKeepsSortedList(WithoutId(s.users, id));
  }

  /** On a newest-first list, an update response whose id is not in the list
      leaves the list exactly as it was. */
  lemma UnknownUpdateChangesNoRecord(s: State, u: User)
    requires NewestFirst(s.users)
    requires FindIndex(s.users, u.id) == -1
    ensures OnUserUpdated(s, u).users == s.users
  {
    SortKeepsSortedList(s.users);
  }

  /** Loading `[1 (January), 2 (February)]` shows `[2, 1]`. */
  lemma LoadScenario(s: State, one: User, two: User)
    requires one.id == "1" && two.id == "2"
    requires one.createdAt < two.createdAt
    ensures OnUsersLoaded(s, [one, two]).users == [two, one]
  {
    var single := SortByRecency([two]);
    assert [two][1..] == [];
    assert single == Insert(two, []);
    assert [one, two][1..] == [two];
    assert SortByRecency([one, two]) == Insert(one, single);
  }

  /** After that load, creating a record the server returns as `3 (March)`
      shows `[3, 2, 1]` with the modal closed. */
  lemma LoadThenCreateScenario(s: State, one: User, two: User, three: User)
    requires one.id == "1" && two.id == "2" && three.id == "3"
    requires one.createdAt < two.createdAt < three.createdAt
    ensures var r := OnUserCreated(OnUsersLoaded(s, [one, two]), three);
            r.users == [three, two, one] && !r.isModalOpen
  {
    LoadScenario(s, one, two);
    NewestCreatedGoesFirst(OnUsersLoaded(s, [one, two]), three);
  }
}
