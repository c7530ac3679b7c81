/** The e-mail rule both credential forms apply, the regular expression
    `^[a-zA-Z0-9._%+-]+@gmail\.com$` without flags: one or more local-part
    characters, then exactly `@gmail.com`, then the end of the string. */
module Credentials {

  /** The bracket class of the pattern: ASCII letters and digits and the five
      symbols `.`, `_`, `%`, `+`, `-`. */
  predicate IsLocalChar(c: char) {
    || ('a' <= c <= 'z') || ('A' <= c <= 'Z') || ('0' <= c <= '9')
    || c == '.' || c == '_' || c == '%' || c == '+' || c == '-'
  }

  predicate AllLocal(s: string) {
    forall i :: 0 <= i < |s| ==> IsLocalChar(s[i])
  }

  const GmailSuffix := "@gmail.com"

  /** The pattern decided directly: longer than the suffix, ending in it,
      and local characters before it. */
  predicate IsGmailAddress(s: string) {
    && |s| > |GmailSuffix|
    && s[|s| - |GmailSuffix|..] == GmailSuffix
    && AllLocal(s[..|s| - |GmailSuffix|])
  }

  /** What the regular expression means: some non-empty run of local
      characters followed by the suffix makes up the whole string. */
  ghost predicate MatchesPattern(s: string) {
    exists local :: |local| >= 1 && AllLocal(local) && s == local + GmailSuffix
  }

  /** The direct decision agrees with the pattern on every string. */
  lemma GmailAddressIffPattern(s: string)
    ensures IsGmailAddress(s) <==> MatchesPattern(s)
  {
    var n := |GmailSuffix|;
    if IsGmailAddress(s) {
      var local := s[..|s| - n];
      assert s == local + GmailSuffix;
    }
    if MatchesPattern(s) {
      var local :| |local| >= 1 && AllLocal(local) && s == local + GmailSuffix;
      assert s[..|s| - n] == local;
      assert s[|s| - n..] == GmailSuffix;
    }
  }

  /** The local part cannot hold an `@`, so an address has one `@` only, the
      one of the suffix. */
  lemma SingleAt(s: string, i: int)
    requires IsGmailAddress(s) && 0 <= i < |s| && s[i] == '@'
    ensures i == |s| - |GmailSuffix|
  {
  }
}
