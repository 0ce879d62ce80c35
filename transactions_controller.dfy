/**
 * TransactionsController.CreateTransaction and GetTransactionById: validation
 * of the request, identification of the caller, the call to the transaction
 * store, and the escalation of a high-value transaction to a pending approval
 * assigned to the first Manager or Officer of the user table.
 *
 * The store (stored procedure usp_Transaction) is not modelled: what its
 * CREATE and GETBYID calls and the query for a reviewer answer is passed in,
 * and every CREATE call made is recorded so that "no write happened" can be stated.
 */
module Transactions {
  import opened Wrappers
  import opened Numerals
  import opened UserModel
  import opened Http
  import Users

  // ---------------------------------------------------------------------------
  // Data
  // ---------------------------------------------------------------------------

  /** A transaction row. Amount is a decimal(18,2) held as a whole number of cents; Date in ticks. */
  datatype Transaction = Transaction(
    transactionId: int,
    accountId: int,
    txnType: Option<string>,
    amount: int,
    status: Option<string>,
    date: int)

  /** default(DateTime), in ticks. */
  const DefaultDate: int := 0

  /** A row of t_Approval. */
  datatype Approval = Approval(
    approvalId: int,
    transactionId: int,
    reviewerId: int,
    decision: string,
    comments: Option<string>,
    approvalDate: int)

  /** The arguments of one `usp_Transaction @Action = 'CREATE'` call (Status is always passed as NULL). */
  datatype StoreCall = StoreCall(accountId: int, txnType: Option<string>, amount: int, date: int, performedBy: int)

  /** What the CREATE call did: set the @TransactionID output, or raise a SqlException. */
  datatype StoreReply = Assigned(createdId: int) | StoreRaised(message: string)

  /** What the query for a reviewer (a Manager or an Officer) did: answer, or raise a SqlException. */
  datatype QueryReply = Answered | QueryRaised(message: string)

  /** What the GETBYID call did: return rows, or raise a SqlException. */
  datatype FetchReply = Fetched(rows: seq<Transaction>) | FetchRaised(message: string)

  /** The body of CreatedAtAction: the new id (for the location) and the first fetched row, if any. */
  datatype CreatedTransaction = CreatedTransaction(id: int, row: Option<Transaction>)

  /** 100000m, in cents. */
  const EscalationThreshold: int := 10_000_000

  const PendingDecision := "Pending"
  const MaxDecisionLength := 10
  const MaxCommentsLength := 1024
  /** The declared size of the @Type parameter, NVarChar(20). */
  const TypeParameterSize := 20

  const InvalidPayloadMessage := "Invalid payload."
  const AmountMessage := "Amount must be greater than zero."
  const NoUserIdMessage := "User ID not found in token."
  const CreateFailedMessage := "Failed to create transaction."

  // ---------------------------------------------------------------------------
  // The pure rules
  // ---------------------------------------------------------------------------

  /** GetCurrentUserId: the NameIdentifier claim parsed as an int, or 0 when it is missing or unparseable. */
  function CurrentUserId(claim: Option<string>): int {
    if claim.Some? && ParseInt32(claim.value).Some? then ParseInt32(claim.value).value else 0
  }

  /** A caller id claim written by Int32.ToString reads back as that id. */
  lemma CurrentUserIdRoundTrip(id: int)
    requires MinInt32 <= id <= MaxInt32
    ensures CurrentUserId(Some(Int32ToString(id))) == id
  {
    Int32RoundTrip(id);
  }

  /** The text holds a character that is neither white space, a sign nor a digit. */
  predicate HasNonNumeral(s: string) {
    exists i :: 0 <= i < |s| && !(IsDigit(s[i]) || IsNumberWhite(s[i]) || s[i] == '-' || s[i] == '+')
  }

  /** A missing claim, or one with a character outside white space, sign and digits, reads as 0. */
  lemma UnreadableClaimIsZero(claim: Option<string>)
    requires claim.Some? ==> HasNonNumeral(claim.value)
    ensures CurrentUserId(claim) == 0
  {
    if claim.Some? && ParseInt32(claim.value).Some? {
      ParseAcceptsOnlyNumerals(claim.value);
    }
  }

  /** `transaction.Amount > 100000m`: strictly above the threshold. */
  predicate IsHighValue(amount: int) {
    amount > EscalationThreshold
  }

  /** `u.Role == "Manager" || u.Role == "Officer"` */
  predicate IsEligibleReviewer(u: User) {
    u.role == "Manager" || u.role == "Officer"
  }

  /** The position of the first eligible reviewer in the users as the table yields them (FirstOrDefault). */
  function FirstEligible(users: seq<User>): (r: Option<nat>)
    ensures r.None? <==> forall i :: 0 <= i < |users| ==> !IsEligibleReviewer(users[i])
    ensures r.Some? ==> r.value < |users| && IsEligibleReviewer(users[r.value])
    ensures r.Some? ==> forall j :: 0 <= j < r.value ==> !IsEligibleReviewer(users[j])
  {
    if users == [] then None
    else if IsEligibleReviewer(users[0]) then Some(0)
    else
      match FirstEligible(users[1..])
      case None => None
      case Some(i) => Some(i + 1)
  }

  /**
   * The @Type value the CREATE call carries: NULL for a missing type, otherwise
   * the type cut to the parameter's size, since SqlClient sends at most that many
   * characters of a string input.
   */
  function SentType(txnType: Option<string>): (r: Option<string>)
    ensures r.Some? <==> txnType.Some?
    ensures r.Some? ==> r.value <= txnType.value && |r.value| <= TypeParameterSize
    ensures r.Some? && |txnType.value| <= TypeParameterSize ==> r.value == txnType.value
    ensures r.Some? && |txnType.value| > TypeParameterSize ==> |r.value| == TypeParameterSize
  {
    match txnType
    case None => None
    case Some(s) => if |s| <= TypeParameterSize then Some(s) else Some(s[..TypeParameterSize])
  }

  /** `transaction.Date == default ? DateTime.UtcNow : transaction.Date` */
  function EffectiveDate(date: int, now: int): int {
    if date == DefaultDate then now else date
  }

  /** `$"High-value transaction: {transaction.Amount}"` */
  function HighValueComment(amount: nat): string {
    "High-value transaction: " + FormatCents(amount)
  }

  /** For any amount a decimal(18,2) can hold, the comment fits the Comments column. */
  lemma HighValueCommentFits(amount: nat)
    requires amount < Pow10(18)
    ensures |HighValueComment(amount)| <= MaxCommentsLength
  {
    FormatCentsLength(amount);
  }

  /** The approval appended for a high-value transaction. */
  function PendingApproval(approvalId: int, createdId: int, reviewer: User, amount: nat, now: int): Approval {
    Approval(approvalId, createdId, reviewer.userId, PendingDecision, Some(HighValueComment(amount)), now)
  }

  /** `rows.FirstOrDefault()` */
  function FirstOrDefault(rows: seq<Transaction>): Option<Transaction> {
    if rows == [] then None else Some(rows[0])
  }

  /** GetTransactionById: NotFound for an empty result, else the first row. */
  function ViewTransaction(rows: seq<Transaction>): (r: Response<Transaction>)
    ensures r == NotFound <==> rows == []
    ensures r != NotFound ==> r == Ok(rows[0])
  {
    match FirstOrDefault(rows)
    case None => NotFound
    case Some(t) => Ok(t)
  }

  // ---------------------------------------------------------------------------
  // CreateTransaction as a function of the controller's state
  // ---------------------------------------------------------------------------

  /** The store calls made so far, the approvals table, and the next ApprovalID. */
  datatype Desk = Desk(submitted: seq<StoreCall>, approvals: seq<Approval>, nextApprovalId: int)

  datatype DeskStep = DeskStep(response: Response<CreatedTransaction>, desk: Desk)

  ghost predicate ValidDesk(d: Desk) {
    && d.nextApprovalId >= 1
    && (forall i :: 0 <= i < |d.approvals| ==> 1 <= d.approvals[i].approvalId < d.nextApprovalId)
    && (forall i, j :: 0 <= i < j < |d.approvals| ==> d.approvals[i].approvalId < d.approvals[j].approvalId)
  }

  /** After the transaction is created: append a pending approval if it is high-value and a reviewer exists. */
  function Escalate(d: Desk, users: seq<User>, amount: int, createdId: int, now: int): Desk {
    if !IsHighValue(amount) then d
    else
      match FirstEligible(users)
      case None => d
      case Some(i) =>
        d.(approvals := d.approvals + [PendingApproval(d.nextApprovalId, createdId, users[i], amount, now)],
           nextApprovalId := d.nextApprovalId + 1)
  }

  /** The CREATE call a validated request makes, recorded in the desk. */
  function Submit(d: Desk, t: Transaction, caller: int, now: int): Desk {
    d.(submitted := d.submitted + [StoreCall(t.accountId, SentType(t.txnType), t.amount, EffectiveDate(t.date, now), caller)])
  }

  /** What follows the CREATE call: its outcome, the escalation and the GETBYID read-back. */
  function Record(d: Desk, users: seq<User>, amount: int, now: int,
                  store: StoreReply, query: QueryReply, fetched: FetchReply): DeskStep {
    match store
    case StoreRaised(message) => DeskStep(BadRequest(message), d)
    case Assigned(createdId) =>
      if createdId == 0 then DeskStep(BadRequest(CreateFailedMessage), d)
      else if IsHighValue(amount) && query.QueryRaised? then DeskStep(BadRequest(query.message), d)
      else
        var escalated := Escalate(d, users, amount, createdId, now);
        match fetched
        case FetchRaised(message) => DeskStep(BadRequest(message), escalated)
        case Fetched(rows) => DeskStep(Created(CreatedTransaction(createdId, FirstOrDefault(rows))), escalated)
  }

  /** CreateTransaction, step by step. */
  function Initiate(d: Desk, users: seq<User>, body: Option<Transaction>, claim: Option<string>,
                    now: int, store: StoreReply, query: QueryReply, fetched: FetchReply): DeskStep
  {
    if body.None? then DeskStep(BadRequest(InvalidPayloadMessage), d)
    else
      var t := body.value;
      if t.amount <= 0 then DeskStep(BadRequest(AmountMessage), d)
      else
        var caller := CurrentUserId(claim);
        if caller == 0 then DeskStep(Unauthorized(NoUserIdMessage), d)
        else Record(Submit(d, t, caller, now), users, t.amount, now, store, query, fetched)
  }

  // ---------------------------------------------------------------------------
  // Properties of CreateTransaction
  // ---------------------------------------------------------------------------

  /** A non-positive amount is refused before the caller is identified and before any write. */
  lemma NonPositiveAmountRejectedFirst(d: Desk, users: seq<User>, t: Transaction, claim: Option<string>,
                                       now: int, store: StoreReply, query: QueryReply, fetched: FetchReply)
    requires t.amount <= 0
    ensures Initiate(d, users, Some(t), claim, now, store, query, fetched) == DeskStep(BadRequest(AmountMessage), d)
  {
  }

  /** A missing or unparseable (or zero) caller id is Unauthorized, with no write. */
  lemma UnidentifiedCallerRejected(d: Desk, users: seq<User>, t: Transaction, claim: Option<string>,
                                   now: int, store: StoreReply, query: QueryReply, fetched: FetchReply)
    requires t.amount > 0
    requires claim.None? || ParseInt32(claim.value).None? || ParseInt32(claim.value) == Some(0)
    ensures Initiate(d, users, Some(t), claim, now, store, query, fetched) == DeskStep(Unauthorized(NoUserIdMessage), d)
  {
  }

  /**
   * Once the request passes validation, exactly one CREATE call is made, carrying
   * the request's fields (the type cut to 20 characters), the caller's id and the
   * current time when the date was left at its default.
   */
  lemma StoreCalledOnce(d: Desk, users: seq<User>, t: Transaction, claim: Option<string>,
                        now: int, store: StoreReply, query: QueryReply, fetched: FetchReply)
    requires t.amount > 0 && CurrentUserId(claim) != 0
    ensures var after := Initiate(d, users, Some(t), claim, now, store, query, fetched).desk;
      && |after.submitted| == |d.submitted| + 1
      && after.submitted[..|d.submitted|] == d.submitted
      && var call := after.submitted[|d.submitted|];
      && call.accountId == t.accountId && call.txnType == SentType(t.txnType) && call.amount == t.amount
      && call.performedBy == CurrentUserId(claim)
      && (t.date == DefaultDate ==> call.date == now)
      && (t.date != DefaultDate ==> call.date == t.date)
  {
    var after := Initiate(d, users, Some(t), claim, now, store, query, fetched).desk;
    assert after.submitted == d.submitted + [StoreCall(t.accountId, SentType(t.txnType), t.amount, EffectiveDate(t.date, now), CurrentUserId(claim))];
  }

  /** A store that reports id 0, or raises, yields BadRequest and no approval. */
  lemma FailedStoreAddsNoApproval(d: Desk, users: seq<User>, t: Transaction, claim: Option<string>,
                                  now: int, store: StoreReply, query: QueryReply, fetched: FetchReply)
    requires t.amount > 0 && CurrentUserId(claim) != 0
    requires store == Assigned(0) || store.StoreRaised?
    ensures var s := Initiate(d, users, Some(t), claim, now, store, query, fetched);
      && s.response == (if store.StoreRaised? then BadRequest(store.message) else BadRequest(CreateFailedMessage))
      && s.desk.approvals == d.approvals
  {
  }

  /**
   * An approval is appended exactly when the transaction was created, its amount
   * is strictly above 100000, the query for a reviewer answered and some user is
   * a Manager or an Officer; at most one is appended, and the existing approvals are kept.
   */
  lemma ApprovalAppendedIff(d: Desk, users: seq<User>, body: Option<Transaction>, claim: Option<string>,
                            now: int, store: StoreReply, query: QueryReply, fetched: FetchReply)
    ensures var after := Initiate(d, users, body, claim, now, store, query, fetched).desk;
      && |d.approvals| <= |after.approvals|
      && after.approvals[..|d.approvals|] == d.approvals
      && (|after.approvals| == |d.approvals| + 1 <==>
            && body.Some? && body.value.amount > EscalationThreshold
            && CurrentUserId(claim) != 0
            && store.Assigned? && store.createdId != 0
            && query.Answered?
            && (exists u :: u in users && IsEligibleReviewer(u)))
      && (|after.approvals| != |d.approvals| + 1 ==> after.approvals == d.approvals)
  {
    var after := Initiate(d, users, body, claim, now, store, query, fetched).desk;
    if body.None? || body.value.amount <= 0 || CurrentUserId(claim) == 0 {
      assert after == d;
    } else {
      var t := body.value;
      var d1 := Submit(d, t, CurrentUserId(claim), now);
      assert d1.approvals == d.approvals;
      assert after == Record(d1, users, t.amount, now, store, query, fetched).desk;
      if store.StoreRaised? || store.createdId == 0 || (IsHighValue(t.amount) && query.QueryRaised?) {
        assert after == d1;
      } else {
        EscalateAppendsAtMostOne(d1, users, t.amount, store.createdId, now);
        assert after == Escalate(d1, users, t.amount, store.createdId, now);
      }
    }
  }

  /** Escalate appends one approval exactly for a high value with an eligible reviewer, and otherwise none. */
  lemma EscalateAppendsAtMostOne(d: Desk, users: seq<User>, amount: int, createdId: int, now: int)
    ensures var after := Escalate(d, users, amount, createdId, now);
      && |d.approvals| <= |after.approvals|
      && after.approvals[..|d.approvals|] == d.approvals
      && (|after.approvals| == |d.approvals| + 1 <==>
            IsHighValue(amount) && exists u :: u in users && IsEligibleReviewer(u))
      && (|after.approvals| != |d.approvals| + 1 ==> after.approvals == d.approvals)
  {
    if exists u :: u in users && IsEligibleReviewer(u) {
      var u :| u in users && IsEligibleReviewer(u);
      var i :| 0 <= i < |users| && users[i] == u;
      assert FirstEligible(users).Some?;
    } else {
      assert FirstEligible(users).None?;
    }
  }

  /**
   * The appended approval is linked to the created transaction, assigned to the
   * first Manager or Officer, and pending.
   */
  lemma AppendedApprovalIsPending(d: Desk, users: seq<User>, t: Transaction, claim: Option<string>,
                                  now: int, createdId: int, fetched: FetchReply)
    requires IsHighValue(t.amount) && CurrentUserId(claim) != 0 && createdId != 0
    requires FirstEligible(users).Some?
    ensures var after := Initiate(d, users, Some(t), claim, now, Assigned(createdId), Answered, fetched).desk;
      && |after.approvals| == |d.approvals| + 1
      && var a := after.approvals[|d.approvals|];
      && var i := FirstEligible(users).value;
      && a.transactionId == createdId
      && a.reviewerId == users[i].userId
      && IsEligibleReviewer(users[i])
      && (forall j :: 0 <= j < i ==> !IsEligibleReviewer(users[j]))
      && a.decision == PendingDecision && |a.decision| <= MaxDecisionLength
      && a.approvalId == d.nextApprovalId
  {
  }

  /**
   * When the query for a reviewer of a high-value transaction raises, the answer
   * is BadRequest with its message: the CREATE call stays made, and no approval is added.
   */
  lemma FailedReviewerQueryAddsNoApproval(d: Desk, users: seq<User>, t: Transaction, claim: Option<string>,
                                          now: int, createdId: int, query: QueryReply, fetched: FetchReply)
    requires IsHighValue(t.amount) && CurrentUserId(claim) != 0 && createdId != 0
    requires query.QueryRaised?
    ensures var s := Initiate(d, users, Some(t), claim, now, Assigned(createdId), query, fetched);
      && s.response == BadRequest(query.message)
      && |s.desk.submitted| == |d.submitted| + 1
      && s.desk.approvals == d.approvals
      && s.desk.nextApprovalId == d.nextApprovalId
  {
  }

  /** An amount of exactly 100000 is not escalated. */
  lemma ThresholdIsStrict(d: Desk, users: seq<User>, t: Transaction, claim: Option<string>,
                          now: int, store: StoreReply, query: QueryReply, fetched: FetchReply)
    requires t.amount == EscalationThreshold
    ensures Initiate(d, users, Some(t), claim, now, store, query, fetched).desk.approvals == d.approvals
  {
    ApprovalAppendedIff(d, users, Some(t), claim, now, store, query, fetched);
  }

  /** Creation succeeds without an approval when no user is a Manager or an Officer. */
  lemma NoReviewerStillCreates(d: Desk, users: seq<User>, t: Transaction, claim: Option<string>,
                               now: int, createdId: int, rows: seq<Transaction>)
    requires t.amount > 0 && CurrentUserId(claim) != 0 && createdId != 0
    requires forall u :: u in users ==> !IsEligibleReviewer(u)
    ensures var s := Initiate(d, users, Some(t), claim, now, Assigned(createdId), Answered, Fetched(rows));
      && s.response == Created(CreatedTransaction(createdId, FirstOrDefault(rows)))
      && s.desk.approvals == d.approvals
  {
    assert FirstEligible(users).None? by {
      forall i | 0 <= i < |users| ensures !IsEligibleReviewer(users[i]) {
        assert users[i] in users;
      }
    }
  }

  /** The created row returned agrees with what GetTransactionById answers from the same store rows. */
  lemma CreatedRowMatchesLookup(d: Desk, users: seq<User>, body: Option<Transaction>, claim: Option<string>,
                                now: int, store: StoreReply, query: QueryReply, rows: seq<Transaction>)
    requires Initiate(d, users, body, claim, now, store, query, Fetched(rows)).response.Created?
    ensures var c := Initiate(d, users, body, claim, now, store, query, Fetched(rows)).response.value;
      && (c.row.None? <==> ViewTransaction(rows) == NotFound)
      && (c.row.Some? ==> ViewTransaction(rows) == Ok(c.row.value))
  {
    var t := body.value;
    var d1 := Submit(d, t, CurrentUserId(claim), now);
    assert Initiate(d, users, body, claim, now, store, query, Fetched(rows))
        == Record(d1, users, t.amount, now, store, query, Fetched(rows));
    assert Initiate(d, users, body, claim, now, store, query, Fetched(rows)).response.value
        == CreatedTransaction(store.createdId, FirstOrDefault(rows));
  }

  lemma InitiatePreservesValid(d: Desk, users: seq<User>, body: Option<Transaction>, claim: Option<string>,
                               now: int, store: StoreReply, query: QueryReply, fetched: FetchReply)
    requires ValidDesk(d)
    ensures ValidDesk(Initiate(d, users, body, claim, now, store, query, fetched).desk)
  {
    if body.Some? && body.value.amount > 0 && CurrentUserId(claim) != 0 && store.Assigned? && store.createdId != 0 {
      var t := body.value;
      var d1 := Submit(d, t, CurrentUserId(claim), now);
      EscalatePreservesValid(d1, users, t.amount, store.createdId, now);
    }
  }

  /** The ApprovalIDs of the approvals table stay pairwise distinct, as a primary key must. */
  lemma ApprovalIdsStayDistinct(d: Desk, users: seq<User>, body: Option<Transaction>, claim: Option<string>,
                                now: int, store: StoreReply, query: QueryReply, fetched: FetchReply)
    requires ValidDesk(d)
    ensures var a := Initiate(d, users, body, claim, now, store, query, fetched).desk.approvals;
      forall i, j :: 0 <= i < |a| && 0 <= j < |a| && i != j ==> a[i].approvalId != a[j].approvalId
  {
    InitiatePreservesValid(d, users, body, claim, now, store, query, fetched);
    var a := Initiate(d, users, body, claim, now, store, query, fetched).desk.approvals;
    forall i, j | 0 <= i < |a| && 0 <= j < |a| && i != j ensures a[i].approvalId != a[j].approvalId {
      if i < j {
        assert a[i].approvalId < a[j].approvalId;
      } else {
        assert a[j].approvalId < a[i].approvalId;
      }
    }
  }

  lemma EscalatePreservesValid(d: Desk, users: seq<User>, amount: int, createdId: int, now: int)
    requires ValidDesk(d)
    ensures ValidDesk(Escalate(d, users, amount, createdId, now))
  {
    var after := Escalate(d, users, amount, createdId, now);
    if after != d {
      assert after.approvals[|d.approvals|].approvalId == d.nextApprovalId;
      assert after.approvals[..|d.approvals|] == d.approvals;
    }
  }

  // ---------------------------------------------------------------------------
  // The controller
  // ---------------------------------------------------------------------------

  class TransactionsController {
    /** `_context.Users`: the same table the users controller maintains. */
    const directory: Users.UsersController
    /** Every `usp_Transaction @Action = 'CREATE'` call made, in order. */
    var submitted: seq<StoreCall>
    /** `_context.Approvals` */
    var approvals: seq<Approval>
    /** The next value the ApprovalID identity column (seed 1, increment 1) hands out. */
    var nextApprovalId: int

    function State(): Desk
      reads this
    {
      Desk(submitted, approvals, nextApprovalId)
    }

    ghost predicate Valid()
      reads this
    {
      ValidDesk(State())
    }

    constructor (directory: Users.UsersController)
      ensures Valid() && this.directory == directory
      ensures submitted == [] && approvals == [] && nextApprovalId == 1
    {
      this.directory := directory;
      submitted := [];
      approvals := [];
      nextApprovalId := 1;
    }

    /**
     * CreateTransaction. `claim` is the caller's NameIdentifier claim, `now` the
     * current time, `store` what the CREATE call did, `query` what the query
     * for a reviewer did (it is made only for a high-value transaction) and
     * `fetched` what the GETBYID call did.
     */
    method CreateTransaction(body: Option<Transaction>, claim: Option<string>, now: int,
                             store: StoreReply, query: QueryReply, fetched: FetchReply)
      returns (r: Response<CreatedTransaction>)
      requires Valid() && directory.Valid()
      modifies this
      ensures DeskStep(r, State()) ==
        Initiate(old(State()), directory.Rows(), body, claim, now, store, query, fetched)
      ensures Valid()
      ensures forall i, j :: 0 <= i < |approvals| && 0 <= j < |approvals| && i != j ==>
        approvals[i].approvalId != approvals[j].approvalId
    {
      var users := directory.Rows();
      ApprovalIdsStayDistinct(State(), users, body, claim, now, store, query, fetched);
      InitiatePreservesValid(State(), users, body, claim, now, store, query, fetched);
      if body.None? {
        return BadRequest(InvalidPayloadMessage);
      }
      var transaction := body.value;
      if transaction.amount <= 0 {
        return BadRequest(AmountMessage);
      }

      // The caller's id from the token
      var currentUserId := CurrentUserId(claim);
      if currentUserId == 0 {
        return Unauthorized(NoUserIdMessage);
      }

      var date := if transaction.date == DefaultDate then now else transaction.date;
      submitted := submitted + [StoreCall(transaction.accountId, SentType(transaction.txnType), transaction.amount, date, currentUserId)];
      ghost var submittedState := State();
      assert submittedState == Submit(old(State()), transaction, currentUserId, now);
      assert Initiate(old(State()), users, body, claim, now, store, query, fetched)
          == Record(submittedState, users, transaction.amount, now, store, query, fetched);
      if store.StoreRaised? {
        return BadRequest(store.message);
      }
      var createdId := store.createdId;
      if createdId == 0 {
        return BadRequest(CreateFailedMessage);
      }
      if IsHighValue(transaction.amount) && query.QueryRaised? {
        return BadRequest(query.message);
      }

      EscalateIfHighValue(users, transaction.amount, createdId, now);

      if fetched.FetchRaised? {
        return BadRequest(fetched.message);
      }
      r := Created(CreatedTransaction(createdId, FirstOrDefault(fetched.rows)));
    }

    /** A high-value transaction gets a pending approval for the first eligible reviewer. */
    method EscalateIfHighValue(users: seq<User>, amount: int, createdId: int, now: int)
      modifies this
      ensures State() == Escalate(old(State()), users, amount, createdId, now)
    {
      if amount > EscalationThreshold {
        var reviewer := FirstEligible(users);
        if reviewer.Some? {
          var approval := PendingApproval(nextApprovalId, createdId, users[reviewer.value], amount, now);
          approvals := approvals + [approval];
          nextApprovalId := nextApprovalId + 1;
        }
      }
    }
  }

}
