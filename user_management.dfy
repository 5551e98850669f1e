/** The admin page for users and the activity log (UserManagement.jsx). Users are deleted by id,
    edited by id and created at the front of the table; every change puts one log entry at the
    front of the log, numbered one past the log's length. */
module UserManagement {
  import opened Base

  /** A row of the user table. `password` is absent on the users loaded at mount and on users
      only ever edited; a created user carries the form's password. */
  datatype User = User(id: int, name: string, email: string, role: string, status: string,
                       password: Option<string>)

  datatype LogEntry = LogEntry(id: int, timestamp: string, action: string)

  /** `formData`. */
  datatype Form = Form(name: string, email: string, status: string, password: string)

  /** The fields of the user modal. */
  datatype FormField = NameField | EmailField | PasswordField | StatusField

  /** `fetchUsers()`. */
  const InitialUsers: seq<User> := [
    User(1, "Alice", "alice@example.com", "Admin", "Active", None),
    User(2, "Bob", "bob@example.com", "User", "Inactive", None)
  ]

  /** `fetchLogs()`. */
  const InitialLogs: seq<LogEntry> := [
    LogEntry(1, "2025-04-21 10:32", "Created user Alice"),
    LogEntry(2, "2025-04-21 11:15", "Deleted user Bob")
  ]

  /** The form `openCreate` shows. */
  const EmptyForm := Form("", "", "Active", "")

  /** The form `openEdit` shows for `u`: its name, email and status, and no password. */
  function EditForm(u: User): (f: Form)
    ensures f.name == u.name && f.email == u.email && f.status == u.status && f.password == ""
  {
    Form(u.name, u.email, u.status, "")
  }

  /** `users.filter(u => u.id !== id)`. */
  function RemoveUser(users: seq<User>, id: int): seq<User>
    decreases |users|
  {
    if users == [] then []
    else
      var rest := RemoveUser(users[..|users| - 1], id);
      var last := users[|users| - 1];
      if last.id != id then rest + [last] else rest
  }

  /** Deleting keeps the remaining users in their order. */
  lemma {:induction false} RemoveUserInOrder(users: seq<User>, id: int)
    ensures IsSubsequence(RemoveUser(users, id), users)
    decreases |users|
  {
    if users != [] {
      var init, last := users[..|users| - 1], users[|users| - 1];
      RemoveUserInOrder(init, id);
      assert users == init + [last];
      if last.id != id {
        SubsequenceExtendBoth(RemoveUser(init, id), init, last);
      } else {
        SubsequenceExtendRight(RemoveUser(init, id), init, last);
      }
    }
  }

  /** Deleting keeps exactly the users whose id differs. */
  lemma {:induction false} RemoveUserMembers(users: seq<User>, id: int)
    ensures forall u :: u in RemoveUser(users, id) <==> u in users && u.id != id
    decreases |users|
  {
    if users != [] {
      var init := users[..|users| - 1];
      RemoveUserMembers(init, id);
      assert users == init + [users[|users| - 1]];
    }
  }

  /** Deleting keeps every user with a different id as many times as it occurs, and no other. */
  lemma {:induction false} RemoveUserCounts(users: seq<User>, id: int)
    ensures forall u ::
      multiset(RemoveUser(users, id))[u] == if u.id != id then multiset(users)[u] else 0
    decreases |users|
  {
    if users != [] {
      var init, last := users[..|users| - 1], users[|users| - 1];
      RemoveUserCounts(init, id);
      assert users == init + [last];
      assert multiset(users) == multiset(init) + multiset{last};
    }
  }

  /** Deleting an id no user has changes nothing. */
  lemma {:induction false} RemoveAbsentUser(users: seq<User>, id: int)
    requires forall k :: 0 <= k < |users| ==> users[k].id != id
    ensures RemoveUser(users, id) == users
    decreases |users|
  {
    if users != [] {
      var init := users[..|users| - 1];
      RemoveAbsentUser(init, id);
      assert users == init + [users[|users| - 1]];
    }
  }

  /** `users.map(u => u.id === id ? {...u, name, email, status} : u)`. */
  function UpdateUser(users: seq<User>, id: int, f: Form): (r: seq<User>)
    ensures |r| == |users|
    ensures forall k :: 0 <= k < |users| && users[k].id != id ==> r[k] == users[k]
    ensures forall k :: 0 <= k < |users| && users[k].id == id ==>
      r[k] == User(id, f.name, f.email, users[k].role, f.status, users[k].password)
  {
    seq(|users|, k requires 0 <= k < |users| =>
      if users[k].id == id then users[k].(name := f.name, email := f.email, status := f.status)
      else users[k])
  }

  /** Saving the same form twice is the same as saving it once, and saving never changes the
      ids or roles of the table. */
  lemma UpdateUserIdempotent(users: seq<User>, id: int, f: Form)
    ensures UpdateUser(UpdateUser(users, id, f), id, f) == UpdateUser(users, id, f)
    ensures forall k :: 0 <= k < |users| ==>
      UpdateUser(users, id, f)[k].id == users[k].id && UpdateUser(users, id, f)[k].role == users[k].role
  {
  }

  /** `{ id: Date.now(), ...formData, role: "User" }`. */
  function NewUser(now: int, f: Form): (u: User)
    ensures u.id == now && u.role == "User" && u.password == Some(f.password)
    ensures EditForm(u) == f.(password := "")
  {
    User(now, f.name, f.email, "User", f.status, Some(f.password))
  }

  /** `[{ id: prev.length + 1, timestamp, action }, ...prev]`. */
  function PrependLog(logs: seq<LogEntry>, timestamp: string, action: string): seq<LogEntry> {
    [LogEntry(|logs| + 1, timestamp, action)] + logs
  }

  /** Some entry of the log has id `i`. */
  predicate HasLogId(logs: seq<LogEntry>, i: int) {
    exists k :: 0 <= k < |logs| && logs[k].id == i
  }

  /** The log ids are exactly `1..|logs|`, each once. */
  predicate LogIdsExact(logs: seq<LogEntry>) {
    && (forall k :: 0 <= k < |logs| ==> 1 <= logs[k].id <= |logs|)
    && (forall j, k :: 0 <= j < k < |logs| ==> logs[j].id != logs[k].id)
    && (forall i :: 1 <= i <= |logs| ==> HasLogId(logs, i))
  }

  lemma InitialLogsExact()
    ensures LogIdsExact(InitialLogs)
  {
    assert InitialLogs[0].id == 1 && InitialLogs[1].id == 2;
    assert HasLogId(InitialLogs, 1) && HasLogId(InitialLogs, 2);
  }

  /** A new entry at the front keeps the ids exactly `1..|logs|`, and every earlier entry is
      kept behind it. */
  lemma {:induction false} PrependLogKeepsIds(logs: seq<LogEntry>, timestamp: string, action: string)
    requires LogIdsExact(logs)
    ensures LogIdsExact(PrependLog(logs, timestamp, action))
    ensures PrependLog(logs, timestamp, action)[1..] == logs
  {
    var r := PrependLog(logs, timestamp, action);
    assert forall k :: 0 < k < |r| ==> r[k] == logs[k - 1];
    forall i | 1 <= i <= |r|
      ensures HasLogId(r, i)
    {
      if i == |r| {
        assert r[0].id == i;
      } else {
        assert HasLogId(logs, i);
        var k :| 0 <= k < |logs| && logs[k].id == i;
        assert r[k + 1].id == i;
      }
    }
  }

  class UserAdmin {
    var users: seq<User>
    var logs: seq<LogEntry>
    var modalOpen: bool
    var editingUser: Option<User>
    var deleteModalOpen: bool
    var deletingUser: Option<User>
    var form: Form

    /** The log is numbered `1..|logs|`. */
    predicate Valid()
      reads this
    {
      LogIdsExact(logs)
    }

    /** The first render: empty tables, both modals closed, the empty form. */
    constructor ()
      ensures Valid()
      ensures users == [] && logs == [] && !modalOpen && editingUser == None
      ensures !deleteModalOpen && deletingUser == None && form == EmptyForm
    {
      users := [];
      logs := [];
      modalOpen := false;
      editingUser := None;
      deleteModalOpen := false;
      deletingUser := None;
      form := EmptyForm;
    }

    /** The mount effect: the fetched users, then the fetched logs. */
    method Load()
      modifies this
      ensures Valid()
      ensures users == InitialUsers && logs == InitialLogs
      ensures modalOpen == old(modalOpen) && editingUser == old(editingUser)
      ensures deleteModalOpen == old(deleteModalOpen) && deletingUser == old(deletingUser) && form == old(form)
    {
      users := InitialUsers;
      logs := InitialLogs;
      InitialLogsExact();
    }

    /** `openCreate`. */
    method OpenCreate()
      requires Valid()
      modifies this
      ensures Valid()
      ensures editingUser == None && form == EmptyForm && modalOpen
      ensures users == old(users) && logs == old(logs)
      ensures deleteModalOpen == old(deleteModalOpen) && deletingUser == old(deletingUser)
    {
      editingUser := None;
      form := EmptyForm;
      modalOpen := true;
    }

    /** `openEdit(u)`. */
    method OpenEdit(u: User)
      requires Valid()
      modifies this
      ensures Valid()
      ensures editingUser == Some(u) && form == EditForm(u) && modalOpen
      ensures users == old(users) && logs == old(logs)
      ensures deleteModalOpen == old(deleteModalOpen) && deletingUser == old(deletingUser)
    {
      editingUser := Some(u);
      form := EditForm(u);
      modalOpen := true;
    }

    /** `openDelete(u)`. */
    method OpenDelete(u: User)
      requires Valid()
      modifies this
      ensures Valid()
      ensures deletingUser == Some(u) && deleteModalOpen
      ensures users == old(users) && logs == old(logs) && modalOpen == old(modalOpen)
      ensures editingUser == old(editingUser) && form == old(form)
    {
      deletingUser := Some(u);
      deleteModalOpen := true;
    }

    /** Typing into one field of the user modal. */
    method EditField(field: FormField, value: string)
      requires Valid()
      modifies this`form
      ensures Valid()
      ensures form == match field
        case NameField => old(form).(name := value)
        case EmailField => old(form).(email := value)
        case PasswordField => old(form).(password := value)
        case StatusField => old(form).(status := value)
    {
      match field
      case NameField => form := form.(name := value);
      case EmailField => form := form.(email := value);
      case PasswordField => form := form.(password := value);
      case StatusField => form := form.(status := value);
    }

    /** Cancel in the user modal. */
    method CancelEdit()
      requires Valid()
      modifies this`modalOpen
      ensures Valid() && !modalOpen
    {
      modalOpen := false;
    }

    /** Cancel in the delete dialog: the pending user stays recorded. */
    method CancelDelete()
      requires Valid()
      modifies this`deleteModalOpen
      ensures Valid() && !deleteModalOpen
    {
      deleteModalOpen := false;
    }

    /** `handleDelete`, with `timestamp` standing for `new Date().toISOString()`: nothing happens
        when no user is pending; otherwise every user with the pending id is removed, one entry
        is logged, and the dialog closes. */
    method HandleDelete(timestamp: string)
      requires Valid()
      modifies this
      ensures Valid()
      ensures old(deletingUser).None? ==> unchanged(this)
      ensures old(deletingUser).Some? ==>
        var d := old(deletingUser).value;
        && users == RemoveUser(old(users), d.id)
        && logs == PrependLog(old(logs), timestamp, "Deleted user " + d.name)
        && !deleteModalOpen && deletingUser == None
        && modalOpen == old(modalOpen) && editingUser == old(editingUser) && form == old(form)
    {
      if deletingUser.None? {
        return;
      }
      var d := deletingUser.value;
      PrependLogKeepsIds(logs, timestamp, "Deleted user " + d.name);
      users := RemoveUser(users, d.id);
      logs := PrependLog(logs, timestamp, "Deleted user " + d.name);
      deleteModalOpen := false;
      deletingUser := None;
    }

    /** `handleSave`, with `now` standing for `Date.now()` and `timestamp` for the log time: an
        edit rewrites the users with the edited id from the form, a create puts a new user in
        front; either way one entry is logged and the modal closes. */
    method HandleSave(now: int, timestamp: string)
      requires Valid()
      modifies this
      ensures Valid()
      ensures old(editingUser).Some? ==>
        && users == UpdateUser(old(users), old(editingUser).value.id, old(form))
        && logs == PrependLog(old(logs), timestamp, "Updated user " + old(form).name)
      ensures old(editingUser).None? ==>
        && users == [NewUser(now, old(form))] + old(users)
        && logs == PrependLog(old(logs), timestamp, "Created user " + old(form).name)
      ensures !modalOpen && editingUser == old(editingUser) && form == old(form)
      ensures deleteModalOpen == old(deleteModalOpen) && deletingUser == old(deletingUser)
    {
      if editingUser.Some? {
        users := UpdateUser(users, editingUser.value.id, form);
        PrependLogKeepsIds(logs, timestamp, "Updated user " + form.name);
        logs := PrependLog(logs, timestamp, "Updated user " + form.name);
      } else {
        users := [NewUser(now, form)] + users;
        PrependLogKeepsIds(logs, timestamp, "Created user " + form.name);
        logs := PrependLog(logs, timestamp, "Created user " + form.name);
      }
      modalOpen := false;
    }
  }
}
