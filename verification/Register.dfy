/** The registration form (register.tsx): four fields and three checks run
    in order, the first failure ending the attempt. The request itself is not
    modelled; a verdict of `SendRegister` is where the form would post its
    fields. */
module Register {
  import opened Text
  import opened Options
  import opened Credentials
  import Login

  datatype RegisterForm = RegisterForm(
    username: string, email: string, password: string, confirmPassword: string)

  datatype RegisterVerdict = FieldsMissing | EmailNotAllowed | PasswordMismatch | SendRegister

  /** `handleRegister`'s checks. The user name and the e-mail count as
      missing when they trim to nothing, the two passwords only when they are
      empty; then the untrimmed e-mail meets the gmail pattern; then the two
      passwords are compared as typed. */
  function ValidateRegister(f: RegisterForm): (r: RegisterVerdict)
    ensures r == FieldsMissing <==>
              AllWhitespace(f.username) || AllWhitespace(f.email)
              || f.password == "" || f.confirmPassword == ""
    ensures r == EmailNotAllowed <==>
              && !AllWhitespace(f.username) && !AllWhitespace(f.email)
              && f.password != "" && f.confirmPassword != ""
              && !MatchesPattern(f.email)
    ensures r == PasswordMismatch <==>
              && !AllWhitespace(f.username) && MatchesPattern(f.email)
              && f.password != "" && f.confirmPassword != ""
              && f.password != f.confirmPassword
    ensures r == SendRegister <==>
              !AllWhitespace(f.username) && MatchesPattern(f.email)
              && f.password != "" && f.password == f.confirmPassword
  {
    BlankIffAllWhitespace(f.username);
    BlankIffAllWhitespace(f.email);
    GmailAddressIffPattern(f.email);
    Login.GmailAddressNotBlank(f.email);
    if IsBlank(f.username) || IsBlank(f.email) || f.password == "" || f.confirmPassword == ""
    then FieldsMissing
    else if !IsGmailAddress(f.email) then EmailNotAllowed
    else if f.password != f.confirmPassword then PasswordMismatch
    else SendRegister
  }

  /** The alert each refusal shows; none for a request that is sent. */
  function Alert(v: RegisterVerdict): (m: Option<string>)
    ensures m.None? <==> v == SendRegister
  {
    match v
    case FieldsMissing => Some("Please fill in all fields.")
    case EmailNotAllowed => Some("Only @gmail.com addresses are allowed.")
    case PasswordMismatch => Some("Passwords do not match!")
    case SendRegister => None
  }

  /** Registration and login accept the same e-mail strings: with the other
      fields in order, an address gets through one form exactly when it gets
      through the other. */
  lemma SameEmailRule(username: string, email: string, password: string)
    requires !AllWhitespace(username) && !AllWhitespace(password)
    ensures ValidateRegister(RegisterForm(username, email, password, password)) == SendRegister
            <==> Login.ValidateLogin(email, password) == Login.SendLogin
  {
  }

  /** The password is not trimmed here: a password of spaces registers,
      although the login form refuses the same password as missing. */
  lemma SpacesPasswordRegistersButCannotLogIn()
    ensures ValidateRegister(RegisterForm("ann", "ann@gmail.com", " ", " ")) == SendRegister
    ensures Login.ValidateLogin("ann@gmail.com", " ") == Login.PasswordMissing
  {
    assert "ann@gmail.com" == "ann" + GmailSuffix;
    assert AllLocal("ann");
    assert !IsWhitespace("ann"[0]);
    assert !AllWhitespace("ann");
    assert IsWhitespace(" "[0]);
  }
}
