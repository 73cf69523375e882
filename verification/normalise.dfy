/**
 * Normalisation of a text-input submission and of its stored answers:
 * lower-casing when the widget has class `ignorecase`, then removing
 * every space character when it has class `nospaces`.
 */
module Normalisation {

  predicate IsUpper(c: char) { 'A' <= c <= 'Z' }

  /** `toLowerCase` on one character (ASCII letters only). */
  function LowerChar(c: char): (r: char)
    ensures !IsUpper(r)
    ensures IsUpper(c) ==> r as int == c as int + 32
    ensures !IsUpper(c) ==> r == c
  {
    if IsUpper(c) then (c as int + 32) as char else c
  }

  /** `s.toLowerCase()`: same length, no upper-case letter left, every other character kept. */
  function Lower(s: string): (r: string)
    ensures |r| == |s|
    ensures forall i :: 0 <= i < |r| ==> !IsUpper(r[i])
    ensures forall i :: 0 <= i < |s| && !IsUpper(s[i]) ==> r[i] == s[i]
    ensures forall i :: 0 <= i < |s| && IsUpper(s[i]) ==> r[i] as int == s[i] as int + 32
  {
    if s == [] then [] else [LowerChar(s[0])] + Lower(s[1..])
  }

  /** `s.replace(/ /g, "")`: no space is left and every other character keeps its count. */
  function StripSpaces(s: string): (r: string)
    ensures ' ' !in r
    ensures |r| <= |s|
    ensures forall i :: 0 <= i < |r| ==> r[i] in s
    ensures forall c :: c != ' ' ==> multiset(r)[c] == multiset(s)[c]
  {
    if s == [] then []
    else
      assert s == [s[0]] + s[1..];
      if s[0] == ' ' then StripSpaces(s[1..]) else [s[0]] + StripSpaces(s[1..])
  }

  /** The normalisation a submission and the stored answers both undergo. */
  function Normalise(s: string, ignoreCase: bool, noSpaces: bool): (r: string)
    ensures noSpaces ==> ' ' !in r
    ensures ignoreCase ==> forall i :: 0 <= i < |r| ==> !IsUpper(r[i])
    ensures !ignoreCase && !noSpaces ==> r == s
  {
    var lowered := if ignoreCase then Lower(s) else s;
    if noSpaces then StripSpaces(lowered) else lowered
  }

  /** The stored answer list after the load-time normalisation. */
  function NormaliseAll(answers: seq<string>, ignoreCase: bool, noSpaces: bool): (r: seq<string>)
    ensures |r| == |answers|
    ensures forall i :: 0 <= i < |answers| ==> r[i] == Normalise(answers[i], ignoreCase, noSpaces)
  {
    seq(|answers|, i requires 0 <= i < |answers| => Normalise(answers[i], ignoreCase, noSpaces))
  }

  /** Removing spaces works character by character: it distributes over concatenation. */
  lemma {:induction false} StripSpacesConcat(a: string, b: string)
    ensures StripSpaces(a + b) == StripSpaces(a) + StripSpaces(b)
  {
    if a == [] {
      assert a + b == b;
    } else {
      assert (a + b)[0] == a[0] && (a + b)[1..] == a[1..] + b;
      StripSpacesConcat(a[1..], b);
      if a[0] == ' ' {
        assert StripSpaces(a + b) == StripSpaces(a[1..] + b);
      } else {
        assert StripSpaces(a + b) == [a[0]] + StripSpaces(a[1..] + b);
        assert StripSpaces(a) == [a[0]] + StripSpaces(a[1..]);
      }
    }
  }

  /** A string without upper-case letters is left alone by lower-casing. */
  lemma {:induction false} LowerFixed(s: string)
    requires forall i :: 0 <= i < |s| ==> !IsUpper(s[i])
    ensures Lower(s) == s
  {
    if s != [] {
      LowerFixed(s[1..]);
    }
  }

  /** A string without spaces is left alone by space removal. */
  lemma {:induction false} StripSpacesFixed(s: string)
    requires ' ' !in s
    ensures StripSpaces(s) == s
  {
    if s != [] {
      assert s[0] != ' ' && ' ' !in s[1..];
      StripSpacesFixed(s[1..]);
      assert s == [s[0]] + s[1..];
    }
  }

  /**
   * Normalising twice is normalising once. The stored answers are normalised
   * at load, so normalising them again when a submission is graded, or at a
   * second load, changes nothing.
   */
  lemma NormaliseIdempotent(s: string, ignoreCase: bool, noSpaces: bool)
    ensures Normalise(Normalise(s, ignoreCase, noSpaces), ignoreCase, noSpaces)
         == Normalise(s, ignoreCase, noSpaces)
  {
    var n := Normalise(s, ignoreCase, noSpaces);
    if ignoreCase {
      LowerFixed(n);
    }
    if noSpaces {
      var l := if ignoreCase then Lower(n) else n;
      assert l == n;
      StripSpacesFixed(n);
    }
  }

  /**
   * A normalised submission is in the normalised answer list exactly when
   * some original answer normalises to the same string.
   */
  lemma MatchAfterLoad(v: string, answers: seq<string>, ignoreCase: bool, noSpaces: bool)
    ensures Normalise(v, ignoreCase, noSpaces) in NormaliseAll(answers, ignoreCase, noSpaces)
        <==> exists a :: a in answers && Normalise(a, ignoreCase, noSpaces) == Normalise(v, ignoreCase, noSpaces)
  {
    var n := Normalise(v, ignoreCase, noSpaces);
    var all := NormaliseAll(answers, ignoreCase, noSpaces);
    if n in all {
      var i :| 0 <= i < |all| && all[i] == n;
      assert answers[i] in answers;
    }
    if exists a :: a in answers && Normalise(a, ignoreCase, noSpaces) == n {
      var a :| a in answers && Normalise(a, ignoreCase, noSpaces) == n;
      var i :| 0 <= i < |answers| && answers[i] == a;
      assert all[i] == n;
    }
  }
}
