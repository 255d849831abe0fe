/** `validateInput`: a character blocklist, not a defence in itself. */
module Validation {

  /** The regular expression class `['";`\-\-]`. The hyphen is listed
      twice, which is redundant: a class matches single characters, so a
      lone hyphen matches and `--` is not a pattern of its own. */
  const Suspicious: set<char> := {'\'', '"', ';', '`', '-'}

  /** The object `validateInput` returns. */
  datatype Verdict = Verdict(isSafe: bool, reason: string)

  const UnsafeReason: string := "Suspicious characters detected"
  const SafeReason: string := "Input appears safe"

  /** `/['";`\-\-]/.test(s)`: some character of `s` is in the class. */
  function ContainsSuspicious(s: string): (found: bool)
    ensures found <==> exists i :: 0 <= i < |s| && s[i] in Suspicious
  {
    if |s| == 0 then false
    else if s[0] in Suspicious then true
    else
      var rest := ContainsSuspicious(s[1..]);
      assert forall i :: 1 <= i < |s| ==> s[i] == s[1..][i - 1];
      rest
  }

  /** The input is reported unsafe exactly when one of its characters is in
      the class, and each verdict carries its own fixed reason. */
  function ValidateInput(input: string): (v: Verdict)
    ensures !v.isSafe <==> exists i :: 0 <= i < |input| && input[i] in Suspicious
    ensures v.reason == if v.isSafe then SafeReason else UnsafeReason
  {
    if ContainsSuspicious(input) then Verdict(false, UnsafeReason)
    else Verdict(true, SafeReason)
  }

  /** A concatenation is safe exactly when both parts are: the check looks
      at each character on its own. */
  lemma {:induction false} ValidateConcat(a: string, b: string)
    ensures ValidateInput(a + b).isSafe <==> ValidateInput(a).isSafe && ValidateInput(b).isSafe
  {
    var ab := a + b;
    if !ValidateInput(a).isSafe {
      var i :| 0 <= i < |a| && a[i] in Suspicious;
      assert ab[i] == a[i];
    }
    if !ValidateInput(b).isSafe {
      var i :| 0 <= i < |b| && b[i] in Suspicious;
      assert ab[|a| + i] == b[i];
    }
    if !ValidateInput(ab).isSafe {
      var i :| 0 <= i < |ab| && ab[i] in Suspicious;
      if i < |a| { assert a[i] == ab[i]; } else { assert b[i - |a|] == ab[i]; }
    }
  }

  /** A single hyphen is rejected, not only the SQL comment `--`; the demo
      user name `Aaron` is accepted. */
  lemma SingleHyphenRejected()
    ensures !ValidateInput("-").isSafe
    ensures !ValidateInput("a-b").isSafe
    ensures ValidateInput("Aaron").isSafe
  {
  }
}
