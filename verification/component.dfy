/** The view state of `AppComponent` and its methods as pure transitions.
    Each HTTP call is split in two: the request the method sends, and the
    subscribe callback, which takes the server's response as a parameter and
    runs synchronously on it. */
module Component {
  import opened Wrappers
  import opened Users
  import opened Recency
  import opened Forms

  datatype State = State(
    users: seq<User>,
    isModalOpen: bool,
    isUpdate: bool,
    selectedUser: Option<User>,
    form: Form)

  /** The body sent to the server: the form's value spread into an object,
      plus a `createdAt`. */
  datatype Payload = Payload(name: Option<string>, email: Option<string>, mobile: Option<string>, createdAt: int)

  /** What a submit sends: nothing, a create (`POST /users`), or an update of
      the record `id` (`PUT /users/{id}`). */
  datatype Request = NoRequest | Create(payload: Payload) | Update(id: string, payload: Payload)

  /** The state after construction and `ngOnInit`: no records yet (the list
      request is still pending), modal closed, the form `initForm` builds. */
  function Init(): (s: State)
    ensures s.users == [] && !s.isModalOpen && !s.isUpdate && s.selectedUser.None?
    ensures forall isEmail: string -> bool :: !FormValid(s.form, isEmail)
  {
    State([], false, false, None, Blank)
  }

  /** The `loadUsers` callback: the server's list, newest first. */
  function OnUsersLoaded(s: State, list: seq<User>): (r: State)
    ensures NewestFirst(r.users) && multiset(r.users) == multiset(list)
    ensures r == s.(users := r.users)
  {
    s.(users := SortByRecency(list))
  }

  /** `openModal(user)`: edit mode on a record, or create mode on an empty
      form when no record is given. The list is not touched. */
  function OpenModal(s: State, user: Option<User>): (r: State)
    ensures r.isModalOpen && r.users == s.users
    ensures r.isUpdate <==> user.Some?
    ensures r.selectedUser == user
    ensures user.Some? ==> r.form == FromUser(user.value)
    ensures user.None? ==> r.form == Cleared
  {
    match user
    case Some(u) => s.(isModalOpen := true, isUpdate := true, selectedUser := user, form := FromUser(u))
    case None => s.(isModalOpen := true, isUpdate := false, selectedUser := None, form := Cleared)
  }

  /** `closeModal`: hides the modal and resets the form. The mode and the
      selected record are left as they were. */
  function CloseModal(s: State): (r: State)
    ensures !r.isModalOpen && r.form == Cleared
    ensures r.users == s.users && r.isUpdate == s.isUpdate && r.selectedUser == s.selectedUser
  {
    s.(isModalOpen := false, form := Cleared)
  }

  /** The form's value spread into a fresh object, with a `createdAt` added. */
  function PayloadOf(f: Form, createdAt: int): Payload {
    Payload(f.name, f.email, f.mobile, createdAt)
  }

  /** The body carries exactly the form's three field values. */
  predicate Carries(p: Payload, f: Form) {
    p.name == f.name && p.email == f.email && p.mobile == f.mobile
  }

  /** `addUser`'s request: the form's fields stamped with the current time
      `now`, and no id (the server assigns it). */
  function AddUserRequest(s: State, now: int): (r: Request)
    ensures r.Create? && Carries(r.payload, s.form) && r.payload.createdAt == now
  {
    Create(PayloadOf(s.form, now))
  }

  /** `updateUser`'s request: the form's fields with the edited record's own
      `createdAt`, sent to that record's id; nothing without a selection. */
  function UpdateUserRequest(s: State): (r: Request)
    ensures r.Update? <==> s.selectedUser.Some?
    ensures r.Update? ==> r.id == s.selectedUser.value.id
    ensures r.Update? ==> Carries(r.payload, s.form)
    ensures r.Update? ==> r.payload.createdAt == s.selectedUser.value.createdAt
    ensures !r.Update? ==> r == NoRequest
  {
    match s.selectedUser
    case Some(u) => Update(u.id, PayloadOf(s.form, u.createdAt))
    case None => NoRequest
  }

  /** `onSubmit`: nothing unless the form is valid; then an update in edit
      mode and a create otherwise. Whatever is sent carries the form's three
      fields, all present, with a ten-digit mobile number. */
  function OnSubmit(s: State, now: int, isEmail: string -> bool): (r: Request)
    ensures !FormValid(s.form, isEmail) ==> r == NoRequest
    ensures r.Create? <==> FormValid(s.form, isEmail) && !s.isUpdate
    ensures r.Update? <==> FormValid(s.form, isEmail) && s.isUpdate && s.selectedUser.Some?
    ensures r.Create? ==> Carries(r.payload, s.form) && r.payload.createdAt == now
    ensures r.Update? ==> r.id == s.selectedUser.value.id && Carries(r.payload, s.form)
    ensures r.Update? ==> r.payload.createdAt == s.selectedUser.value.createdAt
    ensures r != NoRequest ==> r.payload.mobile.Some? && IsMobileNumber(r.payload.mobile.value)
    ensures r != NoRequest ==> r.payload.name.Some? && r.payload.email.Some?
  {
    if !FormValid(s.form, isEmail) then NoRequest
    else
      ValidFormFields(s.form, isEmail);
      if s.isUpdate then UpdateUserRequest(s) else AddUserRequest(s, now)
  }

  /** The `createUser` callback: the server's record is put in front of the
      list, the modal closes and the list is re-sorted. */
  function OnUserCreated(s: State, user: User): (r: State)
    ensures NewestFirst(r.users)
    ensures multiset(r.users) == multiset(s.users) + multiset{user}
    ensures |r.users| == |s.users| + 1 && user in r.users
    ensures r == CloseModal(s).(users := r.users)
  {
    var sorted := SortByRecency([user] + s.users);
    assert |sorted| == |multiset(sorted)| == |[user] + s.users|;
    assert user in multiset(sorted);
    CloseModal(s).(users := sorted)
  }

  /** The list `updateUser`'s callback leaves before re-sorting: the first
      record carrying the returned record's id is replaced by it, and only
      that one. */
  function ReplaceFirst(list: seq<User>, user: User): (r: seq<User>)
    ensures |r| == |list|
    ensures FindIndex(list, user.id) == -1 ==> r == list
    ensures FindIndex(list, user.id) != -1 ==>
              var i := FindIndex(list, user.id);
              && r[i] == user
              && (forall k :: 0 <= k < |list| && k != i ==> r[k] == list[k])
              && multiset(r) == multiset(list) - multiset{list[i]} + multiset{user}
    ensures forall u: User :: u.id != user.id ==> multiset(r)[u] == multiset(list)[u]
  {
    var i := FindIndex(list, user.id);
    if i != -1 then list[i := user] else list
  }

  /** The `updateUser` callback. When some record carries the returned
      record's id, the first one is replaced by it; otherwise the list keeps
      its records. Either way the modal closes and the list is re-sorted. */
  function OnUserUpdated(s: State, user: User): (r: State)
    ensures NewestFirst(r.users) && |r.users| == |s.users|
    ensures FindIndex(s.users, user.id) != -1 ==>
              var i := FindIndex(s.users, user.id);
              && user in r.users
              && multiset(r.users) == multiset(s.users) - multiset{s.users[i]} + multiset{user}
    ensures FindIndex(s.users, user.id) == -1 ==>
              multiset(r.users) == multiset(s.users)
    ensures forall u: User :: u.id != user.id ==> multiset(r.users)[u] == multiset(s.users)[u]
    ensures r == CloseModal(s).(users := r.users)
  {
    var replaced := ReplaceFirst(s.users, user);
    var sorted := SortByRecency(replaced);
    assert |sorted| == |multiset(sorted)| == |replaced|;
    assert FindIndex(s.users, user.id) != -1 ==> user in multiset(sorted) by {
      if FindIndex(s.users, user.id) != -1 {
        assert replaced[FindIndex(s.users, user.id)] == user;
      }
    }
    CloseModal(s).(users := sorted)
  }

  /** The `deleteUser(id)` callback: every record carrying `id` is dropped
      and the list re-sorted. Records with other ids stay, as often as
      before; nothing else changes, and the modal is not touched. */
  function OnUserDeleted(s: State, id: string): (r: State)
    ensures NewestFirst(r.users)
    ensures forall u :: u in r.users ==> u.id != id
    ensures forall u :: u in s.users && u.id != id ==> u in r.users
    ensures forall u: User :: u.id != id ==> multiset(r.users)[u] == multiset(s.users)[u]
    ensures r == s.(users := r.users)
  {
    var kept := WithoutId(s.users, id);
    assert forall u :: u in SortByRecency(kept) <==> u in multiset(kept);
    s.(users := SortByRecency(kept))
  }
}
