/**
 * The score summary text `"<c> of <n> correct"`. JavaScript renders a
 * non-negative integer in decimal without leading zeros; `ParseSummary`
 * reads such a text back, so the two counts can be recovered from it.
 */
module Summary {
  import opened Wrappers

  predicate IsDigit(c: char) { '0' <= c <= '9' }

  predicate AllDigits(s: string) { forall i :: 0 <= i < |s| ==> IsDigit(s[i]) }

  function DigitChar(d: nat): (c: char)
    requires d < 10
    ensures IsDigit(c) && c as int - '0' as int == d
  {
    ('0' as int + d) as char
  }

  /** The decimal rendering of `n`: digits only, and no leading zero unless `n` is 0. */
  function NatToString(n: nat): (r: string)
    ensures |r| >= 1 && AllDigits(r)
    ensures r[0] == '0' ==> n == 0
    decreases n
  {
    if n < 10 then [DigitChar(n)] else NatToString(n / 10) + [DigitChar(n % 10)]
  }

  /** The value a string of decimal digits denotes. */
  function DigitsValue(s: string): nat
    requires AllDigits(s)
  {
    if s == [] then 0 else DigitsValue(s[..|s| - 1]) * 10 + (s[|s| - 1] as int - '0' as int)
  }

  /** Reading the decimal rendering of `n` back gives `n`. */
  lemma {:induction false} NatToStringValue(n: nat)
    ensures DigitsValue(NatToString(n)) == n
    decreases n
  {
    if n >= 10 {
      var r := NatToString(n);
      NatToStringValue(n / 10);
      assert r[..|r| - 1] == NatToString(n / 10);
    }
  }

  /** The summary a check section's `webex-total_correct` span shows. */
  function SummaryText(correct: nat, total: nat): (r: string)
    ensures |r| == |NatToString(correct)| + |NatToString(total)| + 12
    ensures r[..|NatToString(correct)|] == NatToString(correct)
    ensures r[|r| - 8..] == " correct"
  {
    NatToString(correct) + " of " + NatToString(total) + " correct"
  }

  /** The length of the run of digits at the start of `s`. */
  function DigitRun(s: string): (k: nat)
    ensures k <= |s| && AllDigits(s[..k])
    ensures k < |s| ==> !IsDigit(s[k])
  {
    if s == [] || !IsDigit(s[0]) then 0
    else
      var k := 1 + DigitRun(s[1..]);
      assert forall i :: 1 <= i < k ==> s[..k][i] == s[1..][..k - 1][i - 1];
      k
  }

  /** The digit run of a digit string followed by a non-digit is exactly that string. */
  lemma {:induction false} DigitRunPrefix(d: string, t: string)
    requires AllDigits(d)
    requires t == [] || !IsDigit(t[0])
    ensures DigitRun(d + t) == |d|
  {
    if d == [] {
      assert d + t == t;
    } else {
      assert (d + t)[0] == d[0] && (d + t)[1..] == d[1..] + t;
      DigitRunPrefix(d[1..], t);
    }
  }

  /** Reads `"<c> of <n> correct"` back into its two counts. */
  function ParseSummary(s: string): Option<(nat, nat)>
  {
    var i := DigitRun(s);
    if i == 0 || |s| < i + 4 || s[i..i + 4] != " of " then None
    else
      var t := s[i + 4..];
      var j := DigitRun(t);
      if j == 0 || t[j..] != " correct" then None
      else Some((DigitsValue(s[..i]), DigitsValue(t[..j])))
  }

  /** Parsing two non-empty digit strings joined in the summary's shape gives back their values. */
  lemma ParseDigits(c: string, n: string)
    requires |c| > 0 && AllDigits(c) && |n| > 0 && AllDigits(n)
    ensures ParseSummary(c + (" of " + (n + " correct"))) == Some((DigitsValue(c), DigitsValue(n)))
  {
    var t := n + " correct";
    var s := c + (" of " + t);
    DigitRunPrefix(c, " of " + t);
    assert s[..|c|] == c;
    assert s[|c|..|c| + 4] == " of ";
    assert s[|c| + 4..] == t;
    DigitRunPrefix(n, " correct");
    assert t[..|n|] == n;
    assert t[|n|..] == " correct";
  }

  /**
   * The summary text determines both counts: parsing it gives back the
   * number correct and the number of gradable widgets.
   */
  lemma SummaryRoundTrip(correct: nat, total: nat)
    ensures ParseSummary(SummaryText(correct, total)) == Some((correct, total))
  {
    var c, n := NatToString(correct), NatToString(total);
    assert SummaryText(correct, total) == c + (" of " + (n + " correct"));
    ParseDigits(c, n);
    NatToStringValue(correct);
    NatToStringValue(total);
  }

  /** A scope without widgets reports "0 of 0 correct". */
  lemma EmptySummary()
    ensures SummaryText(0, 0) == "0 of 0 correct"
  {
  }
}
