/**
 * `InstallerUser`: the account to create. The two password setters keep
 * `passwordsMatch` equal to whether the password and its confirmation are
 * the same string, NULL counting as equal to NULL; `Validate` checks the
 * fields in a fixed order.
 */
module Users {
  import opened Wrappers
  import opened Strings

  /** The codes `installer_user_validate` reports, in the order it checks for them. */
  datatype UserError = InvalidUsername | EmptyPassword | EmptyConfirmPassword | MismatchedPasswords

  class User {
    var userName: CString
    var fullName: CString
    var password: CString
    var confirmPassword: CString
    var passwordsMatch: bool

    /** `installer_user_new`: every string NULL, and the flag FALSE. */
    constructor ()
      ensures userName == None && fullName == None && password == None && confirmPassword == None
      ensures !passwordsMatch
      ensures Consistent()
    {
      userName, fullName, password, confirmPassword := None, None, None, None;
      passwordsMatch := false;
    }

    /**
     * The flag tells whether the passwords are equal, once either has been
     * set; before that both are NULL and the flag is still FALSE.
     */
    predicate Consistent()
      reads this
    {
      (password.None? && confirmPassword.None?) || passwordsMatch == (password == confirmPassword)
    }

    /** `installer_user_set_user_name`: NULL is ignored; passwords and flag are left alone. */
    method SetUserName(value: CString)
      modifies this
      ensures userName == (if value.Some? then value else old(userName))
      ensures fullName == old(fullName) && password == old(password)
      ensures confirmPassword == old(confirmPassword) && passwordsMatch == old(passwordsMatch)
    {
      if value.None? {
        return;
      }
      userName := value;
    }

    /** `installer_user_set_full_name`. */
    method SetFullName(value: CString)
      modifies this
      ensures fullName == (if value.Some? then value else old(fullName))
      ensures userName == old(userName) && password == old(password)
      ensures confirmPassword == old(confirmPassword) && passwordsMatch == old(passwordsMatch)
    {
      if value.None? {
        return;
      }
      fullName := value;
    }

    /** `installer_user_set_password`: stores the password and recomputes the flag. */
    method SetPassword(value: CString)
      modifies this
      ensures value.None? ==> password == old(password) && passwordsMatch == old(passwordsMatch)
      ensures value.Some? ==> password == value && passwordsMatch == (password == confirmPassword)
      ensures userName == old(userName) && fullName == old(fullName) && confirmPassword == old(confirmPassword)
      ensures old(Consistent()) ==> Consistent()
    {
      if value.None? {
        return;
      }
      password := value;
      passwordsMatch := PasswordsMatch(password, confirmPassword);
    }

    /** `installer_user_set_confirm_password`. */
    method SetConfirmPassword(value: CString)
      modifies this
      ensures value.None? ==> confirmPassword == old(confirmPassword) && passwordsMatch == old(passwordsMatch)
      ensures value.Some? ==> confirmPassword == value && passwordsMatch == (password == confirmPassword)
      ensures userName == old(userName) && fullName == old(fullName) && password == old(password)
      ensures old(Consistent()) ==> Consistent()
    {
      if value.None? {
        return;
      }
      confirmPassword := value;
      passwordsMatch := PasswordsMatch(password, confirmPassword);
    }

    /**
     * `installer_user_validate`: the first check that fails names the
     * error; all four passing is success.
     */
    function Validate(): (r: Result<(), UserError>)
      reads this
      ensures r == Err(InvalidUsername) <==> !IsStringValid(userName)
      ensures r == Err(EmptyPassword) <==> IsStringValid(userName) && !IsStringValid(password)
      ensures r == Err(EmptyConfirmPassword) <==>
        (IsStringValid(userName) && IsStringValid(password) && !IsStringValid(confirmPassword))
      ensures r == Err(MismatchedPasswords) <==>
        (IsStringValid(userName) && IsStringValid(password) && IsStringValid(confirmPassword) && !passwordsMatch)
      ensures r.Ok? <==>
        (IsStringValid(userName) && IsStringValid(password) && IsStringValid(confirmPassword) && passwordsMatch)
    {
      if !IsStringValid(userName) then Err(InvalidUsername)
      else if !IsStringValid(password) then Err(EmptyPassword)
      else if !IsStringValid(confirmPassword) then Err(EmptyConfirmPassword)
      else if !passwordsMatch then Err(MismatchedPasswords)
      else Ok(())
    }
  }

  /** `check_passwords_match`: `g_strcmp0` is zero exactly for equal strings, or two NULLs. */
  function PasswordsMatch(a: CString, b: CString): (r: bool)
    ensures r <==> a == b
  {
    match (a, b)
    case (None, None) => true
    case (Some(x), Some(y)) => x == y
    case _ => false
  }

  /**
   * On a consistent user, validation succeeds exactly when the user name
   * and the password are non-empty and the confirmation is the same string.
   */
  lemma ValidateMeaning(u: User)
    requires u.Consistent()
    ensures u.Validate().Ok? <==>
      (IsStringValid(u.userName) && IsStringValid(u.password) && u.password == u.confirmPassword)
  {
  }

  /** A user whose passwords were entered differently fails with the mismatch, and only then. */
  method Mismatch(name: string, first: string, second: string) returns (r: Result<(), UserError>)
    requires name != [] && first != [] && second != []
    ensures r == (if first == second then Ok(()) else Err(MismatchedPasswords))
  {
    var u := new User();
    u.SetUserName(Some(name));
    u.SetPassword(Some(first));
    u.SetConfirmPassword(Some(second));
    r := u.Validate();
  }
}
