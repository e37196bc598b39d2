/** Users and their staff rows. */
module Accounts {
  import opened Basics
  import opened Schema
  import opened Ledger
  import opened Frames

  predicate UsernamesUnique(users: seq<User>) {
    forall i, j :: 0 <= i < j < |users| ==> users[i].username != users[j].username
  }

  /** No two staff rows are tied to the same user. */
  predicate TiesUnique(staff: seq<Staff>) {
    forall i, j :: 0 <= i < j < |staff| && staff[i].user.Some? ==> staff[i].user != staff[j].user
  }

  predicate TiedToStylist(s: Staff, users: seq<User>) {
    s.user.Some? ==> Exists(s.user.value, users) && users[s.user.value - 1].role.Stylist?
  }

  predicate HasRow(staff: seq<Staff>, user: int) {
    exists k :: 0 <= k < |staff| && staff[k].user == Some(user)
  }

  /** Stylist users and tied staff rows correspond one to one; user names are unique. */
  predicate AccountsMatch(users: seq<User>, staff: seq<Staff>) {
    && UsernamesUnique(users)
    && TiesUnique(staff)
    && (forall k :: 0 <= k < |staff| ==> TiedToStylist(staff[k], users))
    && (forall i :: 0 <= i < |users| && users[i].role.Stylist? ==> HasRow(staff, i + 1))
  }

  lemma EnrollKeepsAccounts(t: Tables, name: string, username: string, hash: string, role: Role, rate: real,
                            commission: CommissionType, specializations: string)
    requires AccountsMatch(t.users, t.staff)
    ensures var after := Enroll(t, name, username, hash, role, rate, commission, specializations).tables;
      AccountsMatch(after.users, after.staff)
  {
    var after := Enroll(t, name, username, hash, role, rate, commission, specializations).tables;
    if after != t {
      assert forall i :: 0 <= i < |t.users| ==> !Called(username)(t.users[i]);
      forall k | 0 <= k < |after.staff|
        ensures TiedToStylist(after.staff[k], after.users)
      {
        assert k < |t.staff| ==> TiedToStylist(t.staff[k], t.users);
      }
      assert forall k :: 0 <= k < |t.staff| ==> TiedToStylist(t.staff[k], t.users);
      forall i | 0 <= i < |after.users| && after.users[i].role.Stylist?
        ensures HasRow(after.staff, i + 1)
      {
        if i < |t.users| {
          var k :| 0 <= k < |t.staff| && t.staff[k].user == Some(i + 1);
          assert after.staff[k].user == Some(i + 1);
        } else {
          assert after.staff[|t.staff|].user == Some(i + 1);
        }
      }
    }
  }

  lemma AmendKeepsAccounts(t: Tables, user: int, name: string, username: string, hash: Option<string>, rate: real,
                           commission: CommissionType, specializations: string)
    requires AccountsMatch(t.users, t.staff)
    ensures var after := Amend(t, user, name, username, hash, rate, commission, specializations).tables;
      AccountsMatch(after.users, after.staff)
  {
    var after := Amend(t, user, name, username, hash, rate, commission, specializations).tables;
    if after != t {
      if t.users[user - 1].role.Stylist? {
        // The insert branch is never taken: a stylist user already has a row.
        var k :| 0 <= k < |t.staff| && t.staff[k].user == Some(user);
        assert TiedTo(user)(t.staff[k]);
      }
      SameTies(t.users, t.staff, after.users, after.staff);
    }
  }

  /** Neither roles nor ties changed. */
  lemma SameTies(users: seq<User>, staff: seq<Staff>, users': seq<User>, staff': seq<Staff>)
    requires AccountsMatch(users, staff)
    requires UsernamesUnique(users')
    requires |users'| == |users| && forall i :: 0 <= i < |users| ==> users'[i].role == users[i].role
    requires |staff'| == |staff| && forall k :: 0 <= k < |staff| ==> staff'[k].user == staff[k].user
    ensures AccountsMatch(users', staff')
  {
    forall k | 0 <= k < |staff'|
      ensures TiedToStylist(staff'[k], users')
    {
      assert TiedToStylist(staff[k], users);
    }
    forall i | 0 <= i < |users'| && users'[i].role.Stylist?
      ensures HasRow(staff', i + 1)
    {
      var k :| 0 <= k < |staff| && staff[k].user == Some(i + 1);
      assert staff'[k].user == Some(i + 1);
    }
  }

  lemma CompletionKeepsTies(t: Tables, today: Date, appointment: int, status: AppointmentStatus, user: int)
    ensures var after := ChangeStatus(t, today, appointment, status, user).tables;
      && after.users == t.users && |after.staff| == |t.staff|
      && forall k :: 0 <= k < |t.staff| ==> after.staff[k].user == t.staff[k].user
  {
  }

  lemma StepKeepsAccounts(t: Tables, call: Call)
    requires AccountsMatch(t.users, t.staff)
    ensures AccountsMatch(Step(t, call).users, Step(t, call).staff)
  {
    hide Reserve, Spend, OpenToday, CloseDay, Enroll, Amend, RingUp;
    OtherTablesStay(t, call);
    match call.request
    case Register(name, username, hash, role, rate, commission, specializations) =>
      EnrollKeepsAccounts(t, name, username, hash, role, rate, commission, specializations);
    case UpdateStaff(user, name, username, hash, rate, commission, specializations) =>
      AmendKeepsAccounts(t, user, name, username, hash, rate, commission, specializations);
    case SetStatus(appointment, status) =>
      CompletionKeepsTies(t, call.today, appointment, status, call.user);
      SameTies(t.users, t.staff, Step(t, call).users, Step(t, call).staff);
    case SetAvailability(availability) =>
      SameTies(t.users, t.staff, Step(t, call).users, Step(t, call).staff);
    case _ =>
  }

  lemma {:induction false} RunKeepsAccounts(t: Tables, calls: seq<Call>)
    requires AccountsMatch(t.users, t.staff)
    ensures AccountsMatch(Run(t, calls).users, Run(t, calls).staff)
    decreases |calls|
  {
    if calls != [] {
      StepKeepsAccounts(t, calls[0]);
      RunKeepsAccounts(Step(t, calls[0]), calls[1..]);
    }
  }

  /** A registration is refused exactly when the name is taken, and then changes neither table. */
  lemma RegistrationRefusedIff(t: Tables, call: Call)
    requires call.request.Register? && !Blank(call.request.name) && !Blank(call.request.username)
    ensures Respond(t, call).reply.Err? <==>
      exists i :: 0 <= i < |t.users| && t.users[i].username == call.request.username
    ensures Respond(t, call).reply.Err? ==> Step(t, call) == t
    ensures Respond(t, call).reply.Ok? ==>
      |Step(t, call).staff| == |t.staff| + (if call.request.role.Stylist? then 1 else 0)
  {
  }

  /**
   * An update of an existing user is refused exactly when another user has the name, and then changes neither
   * table. It never ties a second staff row to a stylist, and without a new password it keeps the old one.
   */
  lemma UpdateRefusedIff(t: Tables, call: Call)
    requires AccountsMatch(t.users, t.staff)
    requires call.request.UpdateStaff? && Exists(call.request.user, t.users)
    requires !Blank(call.request.name) && !Blank(call.request.username)
    ensures Respond(t, call).reply.Err? <==>
      exists i :: 0 <= i < |t.users| && i + 1 != call.request.user && t.users[i].username == call.request.username
    ensures Respond(t, call).reply.Err? ==> Step(t, call) == t
    ensures |Step(t, call).staff| == |t.staff| && |Step(t, call).users| == |t.users|
    ensures call.request.newHash.None? ==>
      forall i :: 0 <= i < |t.users| ==> Step(t, call).users[i].passwordHash == t.users[i].passwordHash
  {
  }
}
