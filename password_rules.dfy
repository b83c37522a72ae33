/**
  The SuperGenPass password complexity rules and the `_valid_pass` regular
  expression that enforces them:

    ^[a-z] [a-zA-Z0-9]* (?:[A-Z][a-zA-Z0-9]*[0-9] | [0-9][a-zA-Z0-9]*[A-Z]) [a-zA-Z0-9]*$

  `ValidPass` is that match, written as a left-to-right character scan.
  `Rules` is the rule list in words, `Alternatives` the regex read literally;
  the lemmas show all three agree.
 */
module PasswordRules {
  import opened Text

  /** The rules: a lowercase first letter, alphanumerics only, and an uppercase letter and a digit after the first position. */
  predicate Rules(s: string)
  {
    && |s| >= 1
    && IsLower(s[0])
    && AllAlnum(s)
    && (exists i :: 1 <= i < |s| && IsUpper(s[i]))
    && (exists j :: 1 <= j < |s| && IsDigit(s[j]))
  }

  /** The regex's middle group read literally: an uppercase letter before a digit, or a digit before an uppercase letter. */
  predicate Alternatives(s: string)
  {
    && |s| >= 1
    && IsLower(s[0])
    && AllAlnum(s)
    && exists i, j :: 1 <= i < j < |s| && ((IsUpper(s[i]) && IsDigit(s[j])) || (IsDigit(s[i]) && IsUpper(s[j])))
  }

  /** The scan after the first character: every character alphanumeric, remembering whether an uppercase letter and a digit were seen. */
  function ScanRest(t: string, sawUpper: bool, sawDigit: bool): bool
    decreases |t|
  {
    if t == [] then sawUpper && sawDigit
    else IsAlnum(t[0]) && ScanRest(t[1..], sawUpper || IsUpper(t[0]), sawDigit || IsDigit(t[0]))
  }

  predicate Scan(s: string)
  {
    |s| >= 1 && IsLower(s[0]) && ScanRest(s[1..], false, false)
  }

  /** `_valid_pass.match(s)`: the scan, on the string the final `$` sees. */
  predicate ValidPass(s: string)
  {
    Scan(DropFinalNewline(s))
  }

  lemma {:induction false} ScanRestMeaning(t: string, sawUpper: bool, sawDigit: bool)
    ensures ScanRest(t, sawUpper, sawDigit) <==>
      && AllAlnum(t)
      && (sawUpper || exists i :: 0 <= i < |t| && IsUpper(t[i]))
      && (sawDigit || exists j :: 0 <= j < |t| && IsDigit(t[j]))
    decreases |t|
  {
    if t != [] {
      var u, d := sawUpper || IsUpper(t[0]), sawDigit || IsDigit(t[0]);
      ScanRestMeaning(t[1..], u, d);
      assert forall i :: 1 <= i < |t| ==> t[i] == t[1..][i - 1];
      if (exists i :: 0 <= i < |t| && IsUpper(t[i])) && !IsUpper(t[0]) {
        var i :| 0 <= i < |t| && IsUpper(t[i]);
        assert IsUpper(t[1..][i - 1]);
      }
      if (exists j :: 0 <= j < |t| && IsDigit(t[j])) && !IsDigit(t[0]) {
        var j :| 0 <= j < |t| && IsDigit(t[j]);
        assert IsDigit(t[1..][j - 1]);
      }
      if AllAlnum(t) {
        assert AllAlnum(t[1..]);
      }
      if IsAlnum(t[0]) && AllAlnum(t[1..]) {
        assert AllAlnum(t);
      }
    }
  }

  /** The character scan decides exactly the rules. */
  lemma ScanMeansRules(s: string)
    ensures Scan(s) <==> Rules(s)
  {
    if |s| >= 1 {
      var t := s[1..];
      ScanRestMeaning(t, false, false);
      assert forall i :: 1 <= i < |s| ==> s[i] == t[i - 1];
      if Scan(s) {
        var i :| 0 <= i < |t| && IsUpper(t[i]);
        var j :| 0 <= j < |t| && IsDigit(t[j]);
        assert IsUpper(s[i + 1]) && IsDigit(s[j + 1]);
      }
      if Rules(s) {
        var i :| 1 <= i < |s| && IsUpper(s[i]);
        var j :| 1 <= j < |s| && IsDigit(s[j]);
        assert IsUpper(t[i - 1]) && IsDigit(t[j - 1]);
      }
    }
  }

  /** The two regex alternatives together say only that both kinds of character occur after the first position. */
  lemma AlternativesMeanRules(s: string)
    ensures Alternatives(s) <==> Rules(s)
  {
    if Rules(s) {
      var i :| 1 <= i < |s| && IsUpper(s[i]);
      var j :| 1 <= j < |s| && IsDigit(s[j]);
      if i < j {
        assert IsUpper(s[i]) && IsDigit(s[j]);
      } else {
        assert i != j;
        assert IsDigit(s[j]) && IsUpper(s[i]);
      }
    }
  }

  /** What `_valid_pass.match` accepts: the rules, on the string without one final newline. */
  lemma ValidPassMeansRules(s: string)
    ensures ValidPass(s) <==> Rules(DropFinalNewline(s))
    ensures ValidPass(s) <==> Alternatives(DropFinalNewline(s))
  {
    ScanMeansRules(DropFinalNewline(s));
    AlternativesMeanRules(DropFinalNewline(s));
  }

  /** On alphanumeric text, such as every generated candidate, the match is exactly the rules. */
  lemma ValidAlnumMeansRules(s: string)
    requires AllAlnum(s)
    ensures ValidPass(s) <==> Rules(s)
  {
    AlnumHasNoFinalNewline(s);
    ScanMeansRules(s);
  }

  /** No string shorter than three characters is ever accepted. */
  lemma ValidPassLength(s: string)
    requires ValidPass(s)
    ensures |DropFinalNewline(s)| >= 3
  {
    var t := DropFinalNewline(s);
    ScanMeansRules(t);
    var i :| 1 <= i < |t| && IsUpper(t[i]);
    var j :| 1 <= j < |t| && IsDigit(t[j]);
    assert i != j;
  }
}
