# Customer account management back office: users and transaction initiation

This project models, in Dafny, the two parts of the CAM_WEB1 back-office API
whose rules are written in its C# controllers rather than in stored procedures.

- **The user registry** (`UsersController` over the `User` record, table `t_User`).
  Create normalises the role and the status: a blank value becomes "Officer" or
  "Active" (the controller's own literals, the same values as the record's
  defaults) and any other value is trimmed. It then checks
  the role, the status and the email, in that order. Role and status are compared
  case-insensitively with the allowed sets {Officer, Manager, Admin} and
  {Active, Inactive}. Update replaces the whole row after its own checks. The
  status patch changes only Status, and delete removes one row. Listing filters
  by role, status and branch and orders by name. The table is a class whose
  fields are the rows, keyed by UserID, and the next identity value. Each action
  is a method. Create, update, the status patch, delete and the lookup by id
  equate the response and the new table with a pure step function of the old
  table (`CreateStep`, `UpdateStep`, `StatusStep`, `DeleteStep`, `FindStep`).
  Lemmas about those functions state the rules: which check wins, what
  changes, and that no two users ever share an email. The listing states its
  result directly: the matching rows, each once, sorted by name.
- **Transaction initiation** (`TransactionsController.CreateTransaction`).
  A non-positive amount is refused first. A caller id claim that is missing or
  unparseable reads as 0 and is refused as Unauthorized. Otherwise one call goes
  to the transaction store. A returned id of 0 is a failure. When the amount is
  strictly above 100000, the user table is queried for a reviewer. If that query
  raises, the answer is BadRequest and no approval is added. Otherwise one
  approval with decision "Pending" is appended. It is linked to the new
  transaction and assigned to the first user whose role is "Manager" or
  "Officer", if there is one. The controller is a class holding the
  approvals table and the log of store calls. `Initiate` is the pure function
  that specifies it.

Amounts are decimal(18,2) values held as whole cents, so the threshold
100000 is `10_000_000`. What the store answers is given to the model as
parameters (`StoreReply`, `QueryReply`, `FetchReply`). The current time is the parameter
`now`. The caller's NameIdentifier claim is the parameter `claim`.

A user's default role and status (`User.cs`) are the same values as the ones
create falls back to. `NewUserDefaults` states that a fresh record is within every declared
bound but does not meet the Required annotations on Name and Email.
`HasRequiredFields` covers Name, Role, Email and Status, not Branch.

## Model

| member | source | states |
|---|---|---|
| `Text.Trim` | CAM_WEB1/Controllers/UserController.cs:32-33 | String.Trim: the result is empty exactly when the input is blank, and otherwise starts and ends with a non-white-space character |
| `Text.TrimKeepsTheCore` | CAM_WEB1/Controllers/UserController.cs:123 | Trim removes only leading and trailing white space: the result is a contiguous part of the input with only white space outside it |
| `Text.TrimIdempotent` | CAM_WEB1/Controllers/UserController.cs:32-33 | trimming an already trimmed value changes nothing |
| `Text.EqualsIgnoreCaseMeansSameUpperCase` | CAM_WEB1/Controllers/UserController.cs:14-18 | the OrdinalIgnoreCase comparer equates two strings exactly when their upper-case forms are equal |
| `Numerals.Int32RoundTrip` | CAM_WEB1/Controllers/TransactionController.cs:29 | int.TryParse reads back every 32-bit value written by Int32.ToString |
| `Numerals.StripKeepsTheCore` | CAM_WEB1/Controllers/TransactionController.cs:29 | the text TryParse reads lies between leading and trailing number white space |
| `Numerals.ParseAcceptsOnlyNumerals` | CAM_WEB1/Controllers/TransactionController.cs:29 | int.TryParse succeeds only on text made of number white space, a sign and digits |
| `UserModel.NewUserDefaults` | CAM_WEB1/Model/User.cs:11-28 | a new User has Role "Officer", Status "Active", empty Name and Email and no Branch; it is within every StringLength bound but misses the Required Name and Email |
| `Users.AllowedRoleIsCaseInsensitive` | CAM_WEB1/Controllers/UserController.cs:14-15 | a role is allowed exactly when its upper-case form is OFFICER, MANAGER or ADMIN |
| `Users.AllowedStatusIsCaseInsensitive` | CAM_WEB1/Controllers/UserController.cs:17-18 | a status is allowed exactly when its upper-case form is ACTIVE or INACTIVE |
| `Users.AllowedValuesFitColumns` | CAM_WEB1/Model/User.cs:17-28 | every allowed role fits Role's 20 characters and every allowed status fits Status's 10, and neither is blank |
| `Users.NormalizeRoleSettles` | CAM_WEB1/Controllers/UserController.cs:32 | a normalised role is non-blank, has no outer white space, and normalising it again changes nothing |
| `Users.NormalizeStatusSettles` | CAM_WEB1/Controllers/UserController.cs:33 | the same for status |
| `Users.CreateSucceedsIff` | CAM_WEB1/Controllers/UserController.cs:29-45 | create succeeds exactly when there is a body, the normalised role and status are allowed and no row has the email |
| `Users.CreateChecksInOrder` | CAM_WEB1/Controllers/UserController.cs:35-42 | a bad role is reported before a bad status and both before a duplicate email; any rejection leaves the table unchanged |
| `Users.CreateAddsExactlyOne` | CAM_WEB1/Controllers/UserController.cs:44-47 | a successful create stores the normalised body under a new identity value, adds exactly one row and changes no other |
| `Users.CreatedUserFitsColumns` | CAM_WEB1/Controllers/UserController.cs:32-38 | a created user's role and status are non-blank and within their column bounds |
| `Users.CreatePreservesValid` | CAM_WEB1/Data/ApplicationDbContext.cs:33 | create keeps every row under its own id and keeps emails unique |
| `Users.CreatedUserIsFound` | CAM_WEB1/Controllers/UserController.cs:47 | the created user is found again by the id in the response |
| `Users.UpdateSucceedsIff` | CAM_WEB1/Controllers/UserController.cs:84-113 | update succeeds exactly when the ids match, a non-blank role or status is allowed (untrimmed), no other user holds the email and the row exists |
| `Users.UpdateRejectsWithoutChange` | CAM_WEB1/Controllers/UserController.cs:86-111 | an id mismatch is BadRequest; NotFound comes only after every other check passes; rejections change nothing |
| `Users.UpdateReplacesOnlyThatUser` | CAM_WEB1/Controllers/UserController.cs:100-104 | a successful update replaces that row by the body as sent and keeps every other row and the identity counter |
| `Users.UpdatePreservesValid` | CAM_WEB1/Controllers/UserController.cs:95-100 | update keeps emails unique and rows under their own ids |
| `Users.StatusValidatedBeforeLookup` | CAM_WEB1/Controllers/UserController.cs:120-128 | a blank or disallowed status is refused whether or not the user exists; a missing user is NotFound; rejections change nothing |
| `Users.StatusChangesOnlyStatus` | CAM_WEB1/Controllers/UserController.cs:127-133 | a successful patch sets only that user's Status, to the trimmed input as typed |
| `Users.StatusPreservesValid` | CAM_WEB1/Controllers/UserController.cs:127-131 | the status patch keeps emails unique |
| `Users.DeleteRemovesExactlyOne` | CAM_WEB1/Controllers/UserController.cs:140-145 | delete answers NotFound exactly for a missing id and otherwise removes exactly that row, leaving the others unchanged |
| `Users.DeletePreservesValid` | CAM_WEB1/Controllers/UserController.cs:140-144 | delete keeps the table valid |
| `Users.ScanFrom` | CAM_WEB1/Controllers/UserController.cs:58 | a scan of the table yields each stored row exactly once |
| `Users.Where` | CAM_WEB1/Controllers/UserController.cs:60-67 | a filter keeps exactly the elements its condition accepts, never more often than they occur |
| `Users.OrderByName` | CAM_WEB1/Controllers/UserController.cs:69 | OrderBy(Name) returns the same users, ordered by name |
| `Users.UsersController.Rows` | CAM_WEB1/Controllers/UserController.cs:58 | the table as a query: every stored row, once |
| `Users.UsersController.CreateUser` | CAM_WEB1/Controllers/UserController.cs:27-48 | the response and the new table are those of CreateStep, and the table stays valid |
| `Users.UsersController.Admit` | CAM_WEB1/Controllers/UserController.cs:35-47 | after normalisation, the allowed-value checks, the email check and the insert give the response and table AdmitStep specifies |
| `Users.UsersController.GetUsers` | CAM_WEB1/Controllers/UserController.cs:53-71 | the result holds each row that passes every non-blank filter, once, ordered by name |
| `Users.UsersController.GetUserById` | CAM_WEB1/Controllers/UserController.cs:75-80 | the stored user for a present id; NotFound exactly when the id is absent |
| `Users.UsersController.UpdateUser` | CAM_WEB1/Controllers/UserController.cs:84-114 | the response and the new table are those of UpdateStep, and the table stays valid |
| `Users.UsersController.ChangeStatus` | CAM_WEB1/Controllers/UserController.cs:118-134 | the response and the new table are those of StatusStep, and the table stays valid |
| `Users.UsersController.DeleteUser` | CAM_WEB1/Controllers/UserController.cs:138-146 | the response and the new table are those of DeleteStep, and the table stays valid |
| `Transactions.CurrentUserIdRoundTrip` | CAM_WEB1/Controllers/TransactionController.cs:26-30 | a claim holding an id as Int32.ToString writes it yields that id |
| `Transactions.UnreadableClaimIsZero` | CAM_WEB1/Controllers/TransactionController.cs:28-29 | a missing claim, or one containing a character other than white space, sign or digit, yields 0 |
| `Transactions.FirstEligible` | CAM_WEB1/Controllers/TransactionController.cs:70-71 | the reviewer is the first user whose role is "Manager" or "Officer"; none exactly when no user has such a role |
| `Transactions.HighValueCommentFits` | CAM_WEB1/Controllers/TransactionController.cs:80 | the approval comment for any decimal(18,2) amount fits the 1024-character Comments column |
| `Transactions.ViewTransaction` | CAM_WEB1/Controllers/TransactionController.cs:137-138 | GetTransactionById answers NotFound exactly for an empty result and otherwise the first row |
| `Transactions.NonPositiveAmountRejectedFirst` | CAM_WEB1/Controllers/TransactionController.cs:35-36 | an amount of zero or less is BadRequest whatever the claim and the store say, with no store call and no approval |
| `Transactions.UnidentifiedCallerRejected` | CAM_WEB1/Controllers/TransactionController.cs:39-40 | a missing, unparseable or zero caller id is Unauthorized, with no store call and no approval |
| `Transactions.SentType` | CAM_WEB1/Controllers/TransactionController.cs:48 | the @Type value is NULL exactly for a missing type, and otherwise a prefix of the type of at most 20 characters, the whole type when it fits |
| `Transactions.StoreCalledOnce` | CAM_WEB1/Controllers/TransactionController.cs:42-61 | a valid request makes exactly one CREATE call with its account, its type as SentType sends it, its amount and the caller's id; its date is replaced by now only when it was left at the default |
| `Transactions.FailedStoreAddsNoApproval` | CAM_WEB1/Controllers/TransactionController.cs:63-64 | a store that returns id 0 or raises yields BadRequest and appends no approval |
| `Transactions.ApprovalAppendedIff` | CAM_WEB1/Controllers/TransactionController.cs:68-85 | one approval is appended exactly when the transaction was created, the amount is strictly above 100000, the query for a reviewer answered and some user is a Manager or an Officer; otherwise none; existing approvals are kept |
| `Transactions.EscalateAppendsAtMostOne` | CAM_WEB1/Controllers/TransactionController.cs:68-85 | after creation, at most one approval is appended: one exactly for an amount above 100000 when a Manager or an Officer exists, and the existing approvals are kept |
| `Transactions.AppendedApprovalIsPending` | CAM_WEB1/Controllers/TransactionController.cs:75-84 | the appended approval has the created id, the first eligible user as reviewer, decision "Pending" (within the 10-character Decision column) and the next approval id |
| `Transactions.FailedReviewerQueryAddsNoApproval` | CAM_WEB1/Controllers/TransactionController.cs:68-71 | when the query for a reviewer of a high-value transaction raises, the answer is BadRequest with its message, the CREATE call stays made and no approval is added |
| `Transactions.ThresholdIsStrict` | CAM_WEB1/Controllers/TransactionController.cs:68 | an amount of exactly 100000 appends no approval |
| `Transactions.NoReviewerStillCreates` | CAM_WEB1/Controllers/TransactionController.cs:73-94 | with no Manager or Officer, creation still succeeds and no approval is appended |
| `Transactions.CreatedRowMatchesLookup` | CAM_WEB1/Controllers/TransactionController.cs:89-94 | the row returned on creation is what GetTransactionById gives for the same store result |
| `Transactions.InitiatePreservesValid` | CAM_WEB1/Controllers/TransactionController.cs:83-84 | approval ids stay increasing and below the next identity value |
| `Transactions.ApprovalIdsStayDistinct` | CAM_WEB1/Controllers/TransactionController.cs:83-84 | the ApprovalIDs of the approvals table stay pairwise distinct, as its primary key requires |
| `Transactions.TransactionsController.EscalateIfHighValue` | CAM_WEB1/Controllers/TransactionController.cs:68-85 | the approvals table after the high-value step is the one Escalate specifies |
| `Transactions.TransactionsController.CreateTransaction` | CAM_WEB1/Controllers/TransactionController.cs:33-101 | the response, the store calls and the approvals are those of Initiate over the user table in scan order; the ApprovalIDs stay pairwise distinct |

## Left out

- The stored procedures `usp_Transaction`, `usp_Approval`, `usp_Account` and `usp_user_audit` are not part of this model; their bodies are not in the repository. This covers the transaction status, including the "PendingApproval" status the procedure is said to set, and the audit trail.
- The approval decision workflow (`ApprovalController.cs`) is left out: its logic lives in `usp_Approval`, and the file holds two conflicting versions. No terminal-state guard and no finalisation of the transaction is modelled.
- The account endpoints (`AccountsController.cs`) are left out: they only pass through to a stored procedure. `GetAllTransactions`, `ChangeTransactionStatus` and `DeleteTransaction` are left out for the same reason (TransactionController.cs:103-162).
- Schema migrations and the EF mapping serve only as evidence for column widths and for the unique index on Email.
- Comparisons the database performs are modelled as ordinal comparisons, because the database collation is not part of the source. These are the email lookups, the GetUsers filters, the ordering by Name and the reviewer's role test. Under a case-insensitive collation they would match more rows. SQL Server's `=` also ignores trailing spaces whatever the collation, so "a@b.com " matches "a@b.com" in the email check and in the unique index, and padded values match in the GetUsers filters and the reviewer's role test; the model compares them exactly.
- OrdinalIgnoreCase is modelled on the ASCII case mapping only. Non-ASCII characters that upper-case to an ASCII letter are not modelled.
- StringLength counts UTF-16 code units. Here a string is a sequence of Unicode scalar values.
- A JSON null for a string property is represented by the empty string. String.IsNullOrWhiteSpace treats both alike.
- The framework's automatic model validation is left out. It rejects bodies that break the Required or StringLength annotations before an action runs.
- Create ignores the body's UserID and the identity column assigns the id. A body with a non-zero UserID would fail in the database; that exception is not modelled.
- Optimistic-concurrency failures other than the NotFound of UpdateUser are left out. So are failures of SaveChanges, such as a unique-index violation from a concurrent insert, and async execution. A rethrown concurrency exception (UserController.cs:110) cannot arise in this sequential model.
- `Users.UsersController.GetUsers`: states no order among users with equal names. The query's OrderBy becomes SQL `ORDER BY Name`, which leaves that order unspecified.
- The row order of the unordered reviewer query is taken to be ascending UserID, the order of a scan of the table.
- Amounts are whole cents. A request amount with more than two decimals is compared with the threshold before the store rounds it, and that difference is not modelled.
- `Transactions.HighValueComment` renders the amount with two decimals and a "." separator. The source prints the decimal with whatever scale the request carried, and with the current culture's decimal separator, which need not be ".".
- DateTime.UtcNow is one `now` parameter, although the source reads the clock twice (TransactionController.cs:51, 81).
- `(int)(transactionIdParam.Value ?? 0)` is modelled as the store returning an id. An output left as DBNull would throw an InvalidCastException that the action does not catch; that case is not modelled.
- Exceptions that are not a SqlException are not modelled: the DbUpdateException SaveChanges throws when the approval insert fails, and any other. CreateTransaction does not catch them. A SqlException from the separate GetTransactionById action is not modelled either, because that action does not catch it.
- int.TryParse is modelled with the invariant culture's signs. Trailing NUL characters, which .NET also accepts, are not modelled.
- The `[Authorize]` role attributes and JWT handling are left out. Extraction of the claim is reduced to the claim's text.
