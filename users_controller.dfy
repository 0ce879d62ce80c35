/**
 * UsersController over the t_User table: create with role/status
 * normalisation and validation, filtered listing ordered by name, lookup,
 * full update, status patch and delete. Email addresses are unique across the
 * table, and every operation keeps them so.
 */
module Users {
  import opened Wrappers
  import opened Text
  import opened UserModel
  import opened Http

  // ---------------------------------------------------------------------------
  // Allowed values, compared with StringComparer.OrdinalIgnoreCase
  // ---------------------------------------------------------------------------

  const AllowedRoles: set<string> := {"Officer", "Manager", "Admin"}
  const AllowedStatus: set<string> := {"Active", "Inactive"}

  predicate IsAllowedRole(s: string) {
    exists a :: a in AllowedRoles && EqualsIgnoreCase(a, s)
  }

  predicate IsAllowedStatus(s: string) {
    exists a :: a in AllowedStatus && EqualsIgnoreCase(a, s)
  }

  lemma UpperCaseRoleNames()
    ensures ToUpperAscii("Officer") == "OFFICER"
    ensures ToUpperAscii("Manager") == "MANAGER"
    ensures ToUpperAscii("Admin") == "ADMIN"
  {
    ToUpperAsciiAt("Officer");
    ToUpperAsciiAt("Manager");
    ToUpperAsciiAt("Admin");
  }

  lemma UpperCaseStatusNames()
    ensures ToUpperAscii("Active") == "ACTIVE"
    ensures ToUpperAscii("Inactive") == "INACTIVE"
  {
    ToUpperAsciiAt("Active");
    ToUpperAsciiAt("Inactive");
  }

  /** A role is allowed exactly when its upper-case form is one of the three role names. */
  lemma AllowedRoleIsCaseInsensitive(s: string)
    ensures IsAllowedRole(s) <==> ToUpperAscii(s) in {"OFFICER", "MANAGER", "ADMIN"}
  {
    assert IsAllowedRole(s) <==>
      EqualsIgnoreCase("Officer", s) || EqualsIgnoreCase("Manager", s) || EqualsIgnoreCase("Admin", s);
    EqualsIgnoreCaseMeansSameUpperCase("Officer", s);
    EqualsIgnoreCaseMeansSameUpperCase("Manager", s);
    EqualsIgnoreCaseMeansSameUpperCase("Admin", s);
    UpperCaseRoleNames();
  }

  /** A status is allowed exactly when its upper-case form is ACTIVE or INACTIVE. */
  lemma AllowedStatusIsCaseInsensitive(s: string)
    ensures IsAllowedStatus(s) <==> ToUpperAscii(s) in {"ACTIVE", "INACTIVE"}
  {
    assert IsAllowedStatus(s) <==> EqualsIgnoreCase("Active", s) || EqualsIgnoreCase("Inactive", s);
    EqualsIgnoreCaseMeansSameUpperCase("Active", s);
    EqualsIgnoreCaseMeansSameUpperCase("Inactive", s);
    UpperCaseStatusNames();
  }

  /** Every allowed role and status is non-blank and fits its column. */
  lemma AllowedValuesFitColumns(s: string)
    ensures IsAllowedRole(s) ==> |s| <= MaxRoleLength && !IsBlank(s)
    ensures IsAllowedStatus(s) ==> |s| <= MaxStatusLength && !IsBlank(s)
  {
    if IsAllowedRole(s) {
      var a :| a in AllowedRoles && EqualsIgnoreCase(a, s);
      assert 'A' <= UpperAscii(a[0]) <= 'Z';
      assert UpperAscii(s[0]) == UpperAscii(a[0]);
    }
    if IsAllowedStatus(s) {
      var a :| a in AllowedStatus && EqualsIgnoreCase(a, s);
      assert 'A' <= UpperAscii(a[0]) <= 'Z';
      assert UpperAscii(s[0]) == UpperAscii(a[0]);
    }
  }

  // ---------------------------------------------------------------------------
  // Messages
  // ---------------------------------------------------------------------------

  const InvalidPayloadMessage := "Invalid payload."
  const RoleMessage := "Role must be one of: Officer, Manager, Admin."
  const StatusMessage := "Status must be one of: Active, Inactive."
  const DuplicateEmailMessage := "A user with the same email already exists."
  const IdMismatchMessage := "ID mismatch."
  const StatusRequiredMessage := "New status is required."

  function StatusUpdatedMessage(status: string): string {
    "User status updated to " + status
  }

  // ---------------------------------------------------------------------------
  // Normalisation on create
  // ---------------------------------------------------------------------------

  /** The controller's own literal for a blank role: the same value as the record's default. */
  const FallbackRole := "Officer"
  /** The controller's own literal for a blank status: the same value as the record's default. */
  const FallbackStatus := "Active"

  /** A blank role becomes "Officer"; any other is trimmed. */
  function NormalizeRole(role: string): string {
    if IsBlank(role) then FallbackRole else Trim(role)
  }

  /** A blank status becomes "Active"; any other is trimmed. */
  function NormalizeStatus(status: string): string {
    if IsBlank(status) then FallbackStatus else Trim(status)
  }

  /** The body as CreateUser stores it: role and status normalised, nothing else touched. */
  function Normalized(u: User): User {
    u.(role := NormalizeRole(u.role), status := NormalizeStatus(u.status))
  }

  /** Normalising yields a non-blank value without outer white space, and is idempotent. */
  lemma NormalizeRoleSettles(role: string)
    ensures !IsBlank(NormalizeRole(role))
    ensures !IsWhiteSpace(NormalizeRole(role)[0]) && !IsWhiteSpace(NormalizeRole(role)[|NormalizeRole(role)| - 1])
    ensures NormalizeRole(NormalizeRole(role)) == NormalizeRole(role)
  {
    assert !IsWhiteSpace(FallbackRole[0]);
    if !IsBlank(role) {
      TrimIdempotent(role);
    }
  }

  lemma NormalizeStatusSettles(status: string)
    ensures !IsBlank(NormalizeStatus(status))
    ensures !IsWhiteSpace(NormalizeStatus(status)[0]) && !IsWhiteSpace(NormalizeStatus(status)[|NormalizeStatus(status)| - 1])
    ensures NormalizeStatus(NormalizeStatus(status)) == NormalizeStatus(status)
  {
    assert !IsWhiteSpace(FallbackStatus[0]);
    if !IsBlank(status) {
      TrimIdempotent(status);
    }
  }

  // ---------------------------------------------------------------------------
  // The table
  // ---------------------------------------------------------------------------

  /** The rows of t_User keyed by UserID, and the next value of the identity column. */
  datatype Table = Table(rows: map<int, User>, nextId: int)

  /** Every row is stored under its own UserID. */
  ghost predicate Keyed(rows: map<int, User>) {
    forall id :: id in rows ==> rows[id].userId == id
  }

  /** The unique index on Email: no two rows share an address. */
  ghost predicate EmailsUnique(rows: map<int, User>) {
    forall a, b :: a in rows && b in rows && rows[a].email == rows[b].email ==> a == b
  }

  ghost predicate ValidTable(t: Table) {
    && t.nextId >= 1
    && Keyed(t.rows)
    && (forall id :: id in t.rows ==> 1 <= id < t.nextId)
    && EmailsUnique(t.rows)
  }

  /** `Users.AnyAsync(u => u.Email == email)` */
  predicate EmailTaken(rows: map<int, User>, email: string) {
    exists id :: id in rows && rows[id].email == email
  }

  /** `Users.AnyAsync(u => u.Email == email && u.UserID != id)` */
  predicate EmailTakenByOther(rows: map<int, User>, email: string, id: int) {
    exists k :: k in rows && rows[k].email == email && rows[k].userId != id
  }

  /** What an action answers and the table it leaves behind. */
  datatype Outcome<T> = Outcome(response: Response<T>, table: Table)

  // ---------------------------------------------------------------------------
  // The actions as functions of the table
  // ---------------------------------------------------------------------------

  /** CreateUser: normalise, check role, then status, then email; then insert under the next identity. */
  function CreateStep(t: Table, body: Option<User>): Outcome<User> {
    if body.None? then Outcome(BadRequest(InvalidPayloadMessage), t)
    else AdmitStep(t, Normalized(body.value))
  }

  /** What CreateUser does with the normalised body: validate it, then insert it under a new id. */
  function AdmitStep(t: Table, user: User): Outcome<User> {
    if !IsAllowedRole(user.role) then Outcome(BadRequest(RoleMessage), t)
    else if !IsAllowedStatus(user.status) then Outcome(BadRequest(StatusMessage), t)
    else if EmailTaken(t.rows, user.email) then Outcome(Conflict(DuplicateEmailMessage), t)
    else
      var added := user.(userId := t.nextId);
      Outcome(Created(added), Table(t.rows[t.nextId := added], t.nextId + 1))
  }

  /** GetUserById */
  function FindStep(t: Table, id: int): Response<User> {
    if id in t.rows then Ok(t.rows[id]) else NotFound
  }

  /**
   * UpdateUser: the path id must match the body; a non-blank role or status must
   * be allowed (untrimmed); the email must not belong to another user; a missing
   * row is NotFound; otherwise the row is replaced by the body as sent.
   */
  function UpdateStep(t: Table, id: int, body: User): Outcome<User> {
    if id != body.userId then Outcome(BadRequest(IdMismatchMessage), t)
    else if !IsBlank(body.role) && !IsAllowedRole(body.role) then Outcome(BadRequest(RoleMessage), t)
    else if !IsBlank(body.status) && !IsAllowedStatus(body.status) then Outcome(BadRequest(StatusMessage), t)
    else if EmailTakenByOther(t.rows, body.email, id) then Outcome(Conflict(DuplicateEmailMessage), t)
    else if id !in t.rows then Outcome(NotFound, t)
    else Outcome(NoContent, t.(rows := t.rows[id := body]))
  }

  /** ChangeStatus: validate the trimmed status before looking the user up, then set only Status. */
  function StatusStep(t: Table, id: int, newStatus: string): Outcome<string> {
    if IsBlank(newStatus) then Outcome(BadRequest(StatusRequiredMessage), t)
    else
      var status := Trim(newStatus);
      if !IsAllowedStatus(status) then Outcome(BadRequest(StatusMessage), t)
      else if id !in t.rows then Outcome(NotFound, t)
      else Outcome(Ok(StatusUpdatedMessage(status)), t.(rows := t.rows[id := t.rows[id].(status := status)]))
  }

  /** DeleteUser */
  function DeleteStep(t: Table, id: int): Outcome<User> {
    if id !in t.rows then Outcome(NotFound, t)
    else Outcome(NoContent, t.(rows := t.rows - {id}))
  }

  // ---------------------------------------------------------------------------
  // Properties of create
  // ---------------------------------------------------------------------------

  /** Create succeeds exactly when the normalised role and status are allowed and the email is free. */
  lemma CreateSucceedsIff(t: Table, body: Option<User>)
    ensures CreateStep(t, body).response.Created? <==>
      && body.Some?
      && IsAllowedRole(NormalizeRole(body.value.role))
      && IsAllowedStatus(NormalizeStatus(body.value.status))
      && !EmailTaken(t.rows, body.value.email)
  {
  }

  /** Role is checked before status, both before the email, and a rejection leaves the table as it was. */
  lemma CreateChecksInOrder(t: Table, user: User)
    ensures var o := CreateStep(t, Some(user));
      && (!IsAllowedRole(NormalizeRole(user.role)) ==> o.response == BadRequest(RoleMessage))
      && (IsAllowedRole(NormalizeRole(user.role)) && !IsAllowedStatus(NormalizeStatus(user.status))
          ==> o.response == BadRequest(StatusMessage))
      && ((IsAllowedRole(NormalizeRole(user.role)) && IsAllowedStatus(NormalizeStatus(user.status))
           && EmailTaken(t.rows, user.email)) ==> o.response == Conflict(DuplicateEmailMessage))
      && (!o.response.Created? ==> o.table == t)
  {
  }

  /** A successful create adds exactly one row, the normalised body under a fresh id, and changes no other. */
  lemma CreateAddsExactlyOne(t: Table, body: Option<User>)
    requires ValidTable(t)
    requires CreateStep(t, body).response.Created?
    ensures var u := CreateStep(t, body).response.value;
      && var after := CreateStep(t, body).table.rows;
      && u.userId !in t.rows
      && after == t.rows[u.userId := u]
      && |after| == |t.rows| + 1
      && u == body.value.(userId := u.userId, role := NormalizeRole(body.value.role),
                          status := NormalizeStatus(body.value.status))
  {
    var u := CreateStep(t, body).response.value;
    assert u.userId == t.nextId;
  }

  /** A created user's role and status are non-blank and fit their columns. */
  lemma CreatedUserFitsColumns(t: Table, body: Option<User>)
    requires CreateStep(t, body).response.Created?
    ensures var u := CreateStep(t, body).response.value;
      !IsBlank(u.role) && |u.role| <= MaxRoleLength && !IsBlank(u.status) && |u.status| <= MaxStatusLength
  {
    var u := CreateStep(t, body).response.value;
    AllowedValuesFitColumns(u.role);
    AllowedValuesFitColumns(u.status);
  }

  lemma {:induction false} CreatePreservesValid(t: Table, body: Option<User>)
    requires ValidTable(t)
    ensures ValidTable(CreateStep(t, body).table)
  {
    var o := CreateStep(t, body);
    if o.response.Created? {
      var u := o.response.value;
      assert !EmailTaken(t.rows, u.email);
      assert forall k :: k in t.rows ==> t.rows[k].email != u.email;
      assert o.table.rows == t.rows[t.nextId := u];
    }
  }

  /** A created user can be fetched back by the id in the response. */
  lemma CreatedUserIsFound(t: Table, body: Option<User>)
    requires CreateStep(t, body).response.Created?
    ensures var u := CreateStep(t, body).response.value;
      FindStep(CreateStep(t, body).table, u.userId) == Ok(u)
  {
  }

  // ---------------------------------------------------------------------------
  // Properties of update
  // ---------------------------------------------------------------------------

  /** Update succeeds exactly when ids match, non-blank values are allowed, the email is free and the row exists. */
  lemma UpdateSucceedsIff(t: Table, id: int, body: User)
    ensures UpdateStep(t, id, body).response == NoContent <==>
      && id == body.userId
      && (IsBlank(body.role) || IsAllowedRole(body.role))
      && (IsBlank(body.status) || IsAllowedStatus(body.status))
      && !EmailTakenByOther(t.rows, body.email, id)
      && id in t.rows
  {
  }

  /** Every rejection of update leaves the table unchanged; a missing row is NotFound only after all checks pass. */
  lemma UpdateRejectsWithoutChange(t: Table, id: int, body: User)
    ensures var o := UpdateStep(t, id, body);
      && (o.response != NoContent ==> o.table == t)
      && (id != body.userId ==> o.response == BadRequest(IdMismatchMessage))
      && (o.response == NotFound <==>
           id == body.userId && (IsBlank(body.role) || IsAllowedRole(body.role))
           && (IsBlank(body.status) || IsAllowedStatus(body.status))
           && !EmailTakenByOther(t.rows, body.email, id) && id !in t.rows)
  {
  }

  /** A successful update replaces exactly that row by the body and keeps every other row. */
  lemma UpdateReplacesOnlyThatUser(t: Table, id: int, body: User)
    requires UpdateStep(t, id, body).response == NoContent
    ensures var after := UpdateStep(t, id, body).table;
      && after.rows.Keys == t.rows.Keys
      && after.rows[id] == body
      && (forall k :: k in t.rows && k != id ==> after.rows[k] == t.rows[k])
      && after.nextId == t.nextId
  {
  }

  lemma {:induction false} UpdatePreservesValid(t: Table, id: int, body: User)
    requires ValidTable(t)
    ensures ValidTable(UpdateStep(t, id, body).table)
  {
    var o := UpdateStep(t, id, body);
    if o.response == NoContent {
      assert !EmailTakenByOther(t.rows, body.email, id);
      assert forall k :: k in t.rows && k != id ==> t.rows[k].email != body.email;
      assert o.table.rows == t.rows[id := body];
    }
  }

  // ---------------------------------------------------------------------------
  // Properties of the status patch and of delete
  // ---------------------------------------------------------------------------

  /** A blank or disallowed status is refused whether or not the user exists. */
  lemma StatusValidatedBeforeLookup(t: Table, id: int, newStatus: string)
    ensures var o := StatusStep(t, id, newStatus);
      && (IsBlank(newStatus) ==> o.response == BadRequest(StatusRequiredMessage))
      && (!IsBlank(newStatus) && !IsAllowedStatus(Trim(newStatus)) ==> o.response == BadRequest(StatusMessage))
      && (!IsBlank(newStatus) && IsAllowedStatus(Trim(newStatus)) && id !in t.rows ==> o.response == NotFound)
      && (!o.response.Ok? ==> o.table == t)
  {
  }

  /** A successful status patch sets that user's Status to the trimmed input as typed and changes nothing else. */
  lemma StatusChangesOnlyStatus(t: Table, id: int, newStatus: string)
    requires StatusStep(t, id, newStatus).response.Ok?
    ensures var after := StatusStep(t, id, newStatus).table;
      && id in t.rows
      && after.rows.Keys == t.rows.Keys
      && after.rows[id] == t.rows[id].(status := Trim(newStatus))
      && IsAllowedStatus(after.rows[id].status)
      && (forall k :: k in t.rows && k != id ==> after.rows[k] == t.rows[k])
      && after.nextId == t.nextId
  {
  }

  /** Rewriting rows in place without touching ids or emails keeps the table valid. */
  lemma SameIdsAndEmailsKeepValid(t: Table, after: Table)
    requires ValidTable(t)
    requires after.nextId == t.nextId && after.rows.Keys == t.rows.Keys
    requires forall k :: k in t.rows ==> after.rows[k].userId == t.rows[k].userId && after.rows[k].email == t.rows[k].email
    ensures ValidTable(after)
  {
  }

  lemma StatusPreservesValid(t: Table, id: int, newStatus: string)
    requires ValidTable(t)
    ensures ValidTable(StatusStep(t, id, newStatus).table)
  {
    var o := StatusStep(t, id, newStatus);
    if o.response.Ok? {
      var user := t.rows[id].(status := Trim(newStatus));
      assert o.table == Table(t.rows[id := user], t.nextId);
      SameIdsAndEmailsKeepValid(t, o.table);
    }
  }

  /** Delete answers NotFound for a missing id and otherwise removes exactly that row. */
  lemma DeleteRemovesExactlyOne(t: Table, id: int)
    ensures var o := DeleteStep(t, id);
      && (id !in t.rows <==> o.response == NotFound)
      && (id !in t.rows ==> o.table == t)
      && (id in t.rows ==> o.table.rows.Keys == t.rows.Keys - {id} && |o.table.rows| == |t.rows| - 1)
      && (forall k :: k in o.table.rows ==> k in t.rows && o.table.rows[k] == t.rows[k])
      && FindStep(o.table, id) == NotFound
  {
    var o := DeleteStep(t, id);
    if id in t.rows {
      assert o.table.rows.Keys == t.rows.Keys - {id};
    }
  }

  lemma DeletePreservesValid(t: Table, id: int)
    requires ValidTable(t)
    ensures ValidTable(DeleteStep(t, id).table)
  {
  }

  // ---------------------------------------------------------------------------
  // Listing
  // ---------------------------------------------------------------------------

  /** q holds each row of the table that passes the given filters, and only those, each once. */
  ghost predicate Lists(q: seq<User>, rows: map<int, User>, role: Option<string>, status: Option<string>, branch: Option<string>) {
    && (forall u :: u in q <==> InTable(u, rows) && Selected(u, role, status, branch))
    && (forall u :: multiset(q)[u] <= 1)
  }

  /** Ordering a listing by name keeps it a listing. */
  lemma OrderedListing(q: seq<User>, items: seq<User>, rows: map<int, User>,
                       role: Option<string>, status: Option<string>, branch: Option<string>)
    requires Lists(q, rows, role, status, branch)
    requires multiset(items) == multiset(q)
    ensures Lists(items, rows, role, status, branch)
  {
    forall u ensures u in items <==> u in q {
      assert u in items <==> u in multiset(items);
      assert u in q <==> u in multiset(q);
    }
  }

  /** Applying the role filter to the whole table lists the rows with that role. */
  lemma RoleNarrows(q: seq<User>, r: seq<User>, rows: map<int, User>, role: Option<string>)
    requires Lists(q, rows, None, None, None)
    requires IsBlankParameter(role) ==> r == q
    requires !IsBlankParameter(role) ==>
      && (forall u :: u in r <==> u in q && u.role == role.value)
      && (forall u :: multiset(r)[u] <= multiset(q)[u])
    ensures Lists(r, rows, role, None, None)
  {
  }

  /** Applying the status filter to a role listing adds the status condition. */
  lemma StatusNarrows(q: seq<User>, r: seq<User>, rows: map<int, User>, role: Option<string>, status: Option<string>)
    requires Lists(q, rows, role, None, None)
    requires IsBlankParameter(status) ==> r == q
    requires !IsBlankParameter(status) ==>
      && (forall u :: u in r <==> u in q && u.status == status.value)
      && (forall u :: multiset(r)[u] <= multiset(q)[u])
    ensures Lists(r, rows, role, status, None)
  {
  }

  /** Applying the branch filter to a role and status listing adds the branch condition. */
  lemma BranchNarrows(q: seq<User>, r: seq<User>, rows: map<int, User>,
                      role: Option<string>, status: Option<string>, branch: Option<string>)
    requires Lists(q, rows, role, status, None)
    requires IsBlankParameter(branch) ==> r == q
    requires !IsBlankParameter(branch) ==>
      && (forall u :: u in r <==> u in q && u.branch == branch)
      && (forall u :: multiset(r)[u] <= multiset(q)[u])
    ensures Lists(r, rows, role, status, branch)
  {
  }

  /** String.IsNullOrWhiteSpace on an optional query parameter. */
  predicate IsBlankParameter(p: Option<string>) {
    p.None? || IsBlank(p.value)
  }

  /** The row is stored in the table under its own id. */
  predicate InTable(u: User, rows: map<int, User>) {
    u.userId in rows && rows[u.userId] == u
  }

  /** The filters GetUsers applies: each one only when its parameter is non-blank. */
  predicate Selected(u: User, role: Option<string>, status: Option<string>, branch: Option<string>) {
    RoleFilter(u, role) && StatusFilter(u, status) && BranchFilter(u, branch)
  }

  predicate RoleFilter(u: User, role: Option<string>) {
    IsBlankParameter(role) || u.role == role.value
  }

  predicate StatusFilter(u: User, status: Option<string>) {
    IsBlankParameter(status) || u.status == status.value
  }

  predicate BranchFilter(u: User, branch: Option<string>) {
    IsBlankParameter(branch) || u.branch == branch
  }

  /** The rows with ids in [lo, hi), in ascending id order: the order a scan of the table yields. */
  function ScanFrom(rows: map<int, User>, lo: int, hi: int): (r: seq<User>)
    requires Keyed(rows)
    ensures forall u :: u in r <==> u.userId in rows && rows[u.userId] == u && lo <= u.userId < hi
    ensures forall u :: multiset(r)[u] <= 1
    decreases hi - lo
  {
    if lo >= hi then []
    else
      var rest := ScanFrom(rows, lo + 1, hi);
      if lo in rows then
        assert rows[lo] !in rest;
        [rows[lo]] + rest
      else rest
  }

  /** `q.Where(keep)`: the elements of q that keep accepts, in their order. */
  function Where(q: seq<User>, keep: User -> bool): (r: seq<User>)
    ensures forall u :: u in r <==> u in q && keep(u)
    ensures forall u :: multiset(r)[u] <= multiset(q)[u]
  {
    if q == [] then []
    else
      var rest := Where(q[1..], keep);
      assert q == [q[0]] + q[1..];
      if keep(q[0]) then [q[0]] + rest else rest
  }

  predicate SortedByName(s: seq<User>) {
    forall i, j :: 0 <= i < j < |s| ==> OrdinalLessEq(s[i].name, s[j].name)
  }

  /** Inserts u before the first element whose name does not precede it. */
  function InsertByName(u: User, s: seq<User>): (r: seq<User>)
    ensures multiset(r) == multiset(s) + multiset{u}
  {
    if s == [] then [u]
    else if OrdinalLessEq(u.name, s[0].name) then [u] + s
    else
      assert s == [s[0]] + s[1..];
      [s[0]] + InsertByName(u, s[1..])
  }

  /** No name in q precedes x. */
  predicate NamesFrom(x: string, q: seq<User>) {
    forall k :: 0 <= k < |q| ==> OrdinalLessEq(x, q[k].name)
  }

  /** A sorted sequence stays sorted when an element that precedes all of it is put in front. */
  lemma SortedCons(x: User, q: seq<User>)
    requires SortedByName(q) && NamesFrom(x.name, q)
    ensures SortedByName([x] + q)
  {
    var r := [x] + q;
    forall i, j | 0 <= i < j < |r| ensures OrdinalLessEq(r[i].name, r[j].name) {
      assert r[j] == q[j - 1];
      if i > 0 {
        assert r[i] == q[i - 1];
      }
    }
  }

  /** Inserting an element that does not precede x keeps x a lower bound. */
  lemma {:induction false} InsertKeepsLowerBound(x: string, u: User, s: seq<User>)
    requires OrdinalLessEq(x, u.name) && NamesFrom(x, s)
    ensures NamesFrom(x, InsertByName(u, s))
  {
    if s != [] && !OrdinalLessEq(u.name, s[0].name) {
      InsertKeepsLowerBound(x, u, s[1..]);
      var rest := InsertByName(u, s[1..]);
      var r := [s[0]] + rest;
      forall k | 0 <= k < |r| ensures OrdinalLessEq(x, r[k].name) {
        if k > 0 {
          assert r[k] == rest[k - 1];
        }
      }
    } else if s != [] {
      var r := [u] + s;
      forall k | 0 <= k < |r| ensures OrdinalLessEq(x, r[k].name) {
        if k > 0 {
          assert r[k] == s[k - 1];
        }
      }
    }
  }

  lemma {:induction false} InsertKeepsSorted(u: User, s: seq<User>)
    requires SortedByName(s)
    ensures SortedByName(InsertByName(u, s))
  {
    if s == [] {
    } else if OrdinalLessEq(u.name, s[0].name) {
      forall k | 0 <= k < |s| ensures OrdinalLessEq(u.name, s[k].name) {
        if k > 0 {
          OrdinalTransitive(u.name, s[0].name, s[k].name);
        }
      }
      SortedCons(u, s);
    } else {
      var tail := s[1..];
      assert SortedByName(tail) by {
        forall i, j | 0 <= i < j < |tail| ensures OrdinalLessEq(tail[i].name, tail[j].name) {
          assert tail[i] == s[i + 1] && tail[j] == s[j + 1];
        }
      }
      assert NamesFrom(s[0].name, tail) by {
        forall k | 0 <= k < |tail| ensures OrdinalLessEq(s[0].name, tail[k].name) {
          assert tail[k] == s[k + 1];
        }
      }
      InsertKeepsSorted(u, tail);
      OrdinalTotal(u.name, s[0].name);
      InsertKeepsLowerBound(s[0].name, u, tail);
      SortedCons(s[0], InsertByName(u, tail));
    }
  }

  /** `q.OrderBy(u => u.Name)`: the same elements, sorted by name. */
  function OrderByName(q: seq<User>): (r: seq<User>)
    ensures SortedByName(r)
    ensures multiset(r) == multiset(q)
  {
    if q == [] then []
    else
      assert q == [q[0]] + q[1..];
      var rest := OrderByName(q[1..]);
      InsertKeepsSorted(q[0], rest);
      InsertByName(q[0], rest)
  }

  // ---------------------------------------------------------------------------
  // The controller
  // ---------------------------------------------------------------------------

  class UsersController {
    /** `_context.Users`, keyed by UserID. */
    var rows: map<int, User>
    /** The next value the UserID identity column (seed 1, increment 1) hands out. */
    var nextId: int

    function State(): Table
      reads this
    {
      Table(rows, nextId)
    }

    ghost predicate Valid()
      reads this
    {
      ValidTable(State())
    }

    constructor ()
      ensures Valid() && rows == map[] && nextId == 1
    {
      rows := map[];
      nextId := 1;
    }

    /** The table in scan order (ascending UserID): every row once. */
    function Rows(): (r: seq<User>)
      reads this
      requires Valid()
      ensures forall u :: u in r <==> InTable(u, rows)
      ensures forall u :: multiset(r)[u] <= 1
    {
      ScanFrom(rows, 1, nextId)
    }

    method CreateUser(body: Option<User>) returns (r: Response<User>)
      requires Valid()
      modifies this
      ensures Outcome(r, State()) == CreateStep(old(State()), body)
      ensures Valid()
    {
      CreatePreservesValid(State(), body);
      if body.None? {
        return BadRequest(InvalidPayloadMessage);
      }
      // Normalise & validate
      var user := Normalized(body.value);
      r := Admit(user);
    }

    /** The rest of CreateUser: the allowed-value checks, the duplicate-email check and the insert. */
    method Admit(user: User) returns (r: Response<User>)
      modifies this
      ensures Outcome(r, State()) == AdmitStep(old(State()), user)
    {
      if !IsAllowedRole(user.role) {
        return BadRequest(RoleMessage);
      }
      if !IsAllowedStatus(user.status) {
        return BadRequest(StatusMessage);
      }

      var emailExists := EmailTaken(rows, user.email);
      if emailExists {
        return Conflict(DuplicateEmailMessage);
      }

      var added := user.(userId := nextId);
      rows := rows[nextId := added];
      nextId := nextId + 1;
      r := Created(added);
    }

    /** GetUsers: the rows that pass every non-blank filter, each once, ordered by Name. */
    method GetUsers(role: Option<string>, status: Option<string>, branch: Option<string>)
      returns (items: seq<User>)
      requires Valid()
      ensures SortedByName(items)
      ensures forall u :: u in items <==> InTable(u, rows) && Selected(u, role, status, branch)
      ensures forall u :: multiset(items)[u] <= 1
    {
      var all := Rows();
      var q := all;
      if !IsBlankParameter(role) {
        var wanted := role.value;
        q := Where(all, (u: User) => u.role == wanted);
      }
      RoleNarrows(all, q, rows, role);
      var byRole := q;
      if !IsBlankParameter(status) {
        var wanted := status.value;
        q := Where(byRole, (u: User) => u.status == wanted);
      }
      StatusNarrows(byRole, q, rows, role, status);
      var byStatus := q;
      if !IsBlankParameter(branch) {
        var wanted := branch.value;
        q := Where(byStatus, (u: User) => u.branch == Some(wanted));
      }
      BranchNarrows(byStatus, q, rows, role, status, branch);
      items := OrderByName(q);
      OrderedListing(q, items, rows, role, status, branch);
    }

    method GetUserById(id: int) returns (r: Response<User>)
      ensures r == FindStep(State(), id)
      ensures r.Ok? ==> id in rows && r.value == rows[id]
      ensures r == NotFound <==> id !in rows
    {
      if id in rows {
        r := Ok(rows[id]);
      } else {
        r := NotFound;
      }
    }

    method UpdateUser(id: int, body: User) returns (r: Response<User>)
      requires Valid()
      modifies this
      ensures Outcome(r, State()) == UpdateStep(old(State()), id, body)
      ensures Valid()
    {
      UpdatePreservesValid(State(), id, body);
      if id != body.userId {
        return BadRequest(IdMismatchMessage);
      }

      // Validate fields
      if !IsBlank(body.role) && !IsAllowedRole(body.role) {
        return BadRequest(RoleMessage);
      }
      if !IsBlank(body.status) && !IsAllowedStatus(body.status) {
        return BadRequest(StatusMessage);
      }

      // Enforce unique email (excluding this user)
      var emailExists := EmailTakenByOther(rows, body.email, id);
      if emailExists {
        return Conflict(DuplicateEmailMessage);
      }

      // Saving a modified entry whose row is gone affects no row: NotFound.
      if id !in rows {
        return NotFound;
      }
      rows := rows[id := body];
      r := NoContent;
    }

    method ChangeStatus(id: int, newStatus: string) returns (r: Response<string>)
      requires Valid()
      modifies this
      ensures Outcome(r, State()) == StatusStep(old(State()), id, newStatus)
      ensures Valid()
    {
      StatusPreservesValid(State(), id, newStatus);
      if IsBlank(newStatus) {
        return BadRequest(StatusRequiredMessage);
      }
      var status := Trim(newStatus);
      if !IsAllowedStatus(status) {
        return BadRequest(StatusMessage);
      }
      if id !in rows {
        return NotFound;
      }
      var user := rows[id];
      rows := rows[id := user.(status := status)];
      r := Ok(StatusUpdatedMessage(status));
    }

    method DeleteUser(id: int) returns (r: Response<User>)
      requires Valid()
      modifies this
      ensures Outcome(r, State()) == DeleteStep(old(State()), id)
      ensures Valid()
    {
      DeletePreservesValid(State(), id);
      if id !in rows {
        return NotFound;
      }
      rows := rows - {id};
      r := NoContent;
    }
  }

}
