/**
 * The User record stored in table t_User: its property initialisers and the
 * bounds its data annotations declare.
 */
module UserModel {
  import opened Wrappers
  import opened Text

  /** One row of t_User. Branch is the only nullable column. */
  datatype User = User(
    userId: int,
    name: string,
    role: string,
    email: string,
    branch: Option<string>,
    status: string)

  const DefaultRole := "Officer"
  const DefaultStatus := "Active"

  /** `new User()`: every property at its initialiser. */
  function NewUser(): User {
    User(0, "", DefaultRole, "", None, DefaultStatus)
  }

  const MaxNameLength := 100
  const MaxRoleLength := 20
  const MaxEmailLength := 200
  const MaxBranchLength := 100
  const MaxStatusLength := 10

  /** The StringLength annotations (and the nvarchar widths of the columns). */
  predicate WithinDeclaredBounds(u: User) {
    && |u.name| <= MaxNameLength
    && |u.role| <= MaxRoleLength
    && |u.email| <= MaxEmailLength
    && (u.branch.None? || |u.branch.value| <= MaxBranchLength)
    && |u.status| <= MaxStatusLength
  }

  /**
   * The Required annotations: RequiredAttribute rejects a null, empty or
   * white-space string. Branch carries no Required annotation.
   */
  predicate HasRequiredFields(u: User) {
    !IsBlank(u.name) && !IsBlank(u.role) && !IsBlank(u.email) && !IsBlank(u.status)
  }

  /**
   * A fresh record is within every bound and holds a usable role and status,
   * but its empty Name and Email do not meet the Required annotations.
   */
  lemma NewUserDefaults()
    ensures WithinDeclaredBounds(NewUser())
    ensures !IsBlank(NewUser().role) && !IsBlank(NewUser().status)
    ensures !HasRequiredFields(NewUser())
    ensures NewUser().name == [] && NewUser().email == [] && NewUser().branch.None?
    ensures NewUser().role == "Officer" && NewUser().status == "Active"
  {
    assert !IsWhiteSpace(DefaultRole[0]);
    assert !IsWhiteSpace(DefaultStatus[0]);
  }

}
