/** The login form (index1.tsx): its three checks, run in order with the
    first failure ending the attempt, and the "Keep me signed in" flag. The
    request itself and its answer are not modelled; a verdict of
    `SendLogin` is where the form would post its fields. */
module Login {
  import opened Text
  import opened Options
  import opened Credentials

  datatype LoginForm = LoginForm(email: string, password: string, rememberMe: bool)

  datatype LoginVerdict = EmailMissing | EmailNotGmail | PasswordMissing | SendLogin

  /** `handleLogin`'s checks: the e-mail trimmed to nothing, then the
      untrimmed e-mail against the gmail pattern, then the password trimmed
      to nothing. */
  function ValidateLogin(email: string, password: string): (r: LoginVerdict)
    ensures r == EmailMissing <==> AllWhitespace(email)
    ensures r == EmailNotGmail <==> !AllWhitespace(email) && !IsGmailAddress(email)
    ensures r == PasswordMissing <==> IsGmailAddress(email) && AllWhitespace(password)
    ensures r == SendLogin <==> IsGmailAddress(email) && !AllWhitespace(password)
  {
    BlankIffAllWhitespace(email);
    BlankIffAllWhitespace(password);
    GmailAddressNotBlank(email);
    if IsBlank(email) then EmailMissing
    else if !IsGmailAddress(email) then EmailNotGmail
    else if IsBlank(password) then PasswordMissing
    else SendLogin
  }

  /** The request is sent exactly for an address the regular expression
      accepts and a password with a visible character. */
  lemma SendLoginIff(email: string, password: string)
    ensures ValidateLogin(email, password) == SendLogin <==>
              MatchesPattern(email)
              && exists i :: 0 <= i < |password| && !IsWhitespace(password[i])
  {
    GmailAddressIffPattern(email);
  }

  /** The alert each refusal shows; none for a request that is sent. */
  function Alert(v: LoginVerdict): (m: Option<string>)
    ensures m.None? <==> v == SendLogin
  {
    match v
    case EmailMissing => Some("Please enter your email.")
    case EmailNotGmail => Some("Invalid email format! Please use a @gmail.com address.")
    case PasswordMissing => Some("Please enter your password.")
    case SendLogin => None
  }

  /** Every gmail address has a visible first character, so the blank check
      never refuses an address the pattern would accept. */
  lemma GmailAddressNotBlank(email: string)
    ensures IsGmailAddress(email) ==> !IsBlank(email)
  {
    if IsGmailAddress(email) {
      var n := |GmailSuffix|;
      assert email[..|email| - n][0] == email[0];
      NotBlankIfFirstVisible(email);
    }
  }

  /** Each refusal names the first check that fails: the password is judged
      only once the e-mail has passed both of its checks. */
  lemma PasswordJudgedLast(email: string, password: string)
    ensures ValidateLogin(email, password) == PasswordMissing ==>
              !AllWhitespace(email) && MatchesPattern(email)
    ensures !MatchesPattern(email) ==> ValidateLogin(email, password) != PasswordMissing
  {
    GmailAddressIffPattern(email);
    GmailAddressNotBlank(email);
  }

  /** "Keep me signed in" flips the flag and touches nothing else. */
  function ToggleRemember(f: LoginForm): (r: LoginForm)
    ensures r.rememberMe != f.rememberMe
    ensures r.email == f.email && r.password == f.password
  {
    f.(rememberMe := !f.rememberMe)
  }

  /** Two presses leave the flag as it was. */
  lemma ToggleTwiceRestores(f: LoginForm)
    ensures ToggleRemember(ToggleRemember(f)) == f
  {
  }
}
