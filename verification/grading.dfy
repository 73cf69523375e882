/**
 * The values the grading engine works with (widget configuration, the
 * `webex-correct` / `webex-incorrect` marks, feedback entries) and the
 * verdict each kind of widget reaches, stated in closed form.
 */
module Grading {
  import opened Wrappers
  import opened Normalisation
  import opened Summary

  /** The two mark classes an element can carry: `webex-correct` and `webex-incorrect`. */
  datatype Mark = Mark(correct: bool, incorrect: bool)

  const Unmarked := Mark(false, false)

  predicate Marked(m: Mark) { m.correct || m.incorrect }

  /** An `<option>` of a select, or one radio button of a group, with its `feedback` attribute. */
  datatype Choice = Choice(value: string, feedback: Option<string>)

  /**
   * A gradable widget as configured in the markup. `section` is the check
   * section (`webex-check`) the widget sits in, if any.
   */
  datatype Widget =
    | TextInput(id: string, answers: seq<string>, ignoreCase: bool, noSpaces: bool,
                tolerant: bool, regex: bool, feedback: Option<string>, section: Option<nat>)
    | Select(id: string, choices: seq<Choice>, section: Option<nat>)
    | RadioGroup(id: string, choices: seq<Choice>, section: Option<nat>)

  /** A feedback element: its `innerHTML` and whether its `style.display` shows it. */
  datatype Feedback = Feedback(text: string, visible: bool)

  const AnswerSentinel := "answer"
  const BlankSentinel := "blank"
  const EmptyBold := "<b></b>"
  const Separator := "</br></br>"

  /** The id of a widget's feedback element. */
  function FeedbackKey(id: string): (k: string)
    ensures |k| == |id| + 11 && k[11..] == id
  {
    "feedbackDiv" + id
  }

  /** Distinct widgets get distinct feedback elements. */
  lemma FeedbackKeyInjective(a: string, b: string)
    ensures FeedbackKey(a) == FeedbackKey(b) <==> a == b
  {
    if FeedbackKey(a) == FeedbackKey(b) {
      assert a == FeedbackKey(a)[11..];
    }
  }

  /**
   * What assigning an attribute that may be `null` to `innerHTML` renders:
   * absent and empty feedback both render as empty content, and nothing else does.
   */
  function Html(f: Option<string>): (r: string)
    ensures r == "" <==> f.None? || f == Some("")
  {
    if f.Some? then f.value else ""
  }

  /** A radio button's feedback with the separator appended unless it is absent or `<b></b>`. */
  function RadioFeedback(f: Option<string>): (r: string)
    ensures f.None? ==> r == ""
    ensures f.Some? ==> |f.value| <= |r| && r[..|f.value|] == f.value
    ensures f == Some(EmptyBold) ==> r == EmptyBold
    ensures f.Some? && f.value != EmptyBold ==> r[|f.value|..] == Separator
  {
    if f.Some? && f.value != EmptyBold then f.value + Separator else Html(f)
  }

  /** How many marked elements a widget has: the widget itself, or one label per radio button. */
  function Slots(w: Widget): nat
  {
    if w.RadioGroup? then |w.choices| else 1
  }

  function Blank(n: nat): (ms: seq<Mark>)
    ensures |ms| == n && forall i :: 0 <= i < n ==> ms[i] == Unmarked
  {
    seq(n, _ => Unmarked)
  }

  /** The widget after loading: a text input's stored answers are normalised like submissions. */
  function Load(w: Widget): (r: Widget)
    ensures r.id == w.id && r.section == w.section && Slots(r) == Slots(w)
    ensures r.TextInput? <==> w.TextInput?
    ensures !w.TextInput? ==> r == w
    ensures w.TextInput? ==> r.(answers := w.answers) == w && |r.answers| == |w.answers|
    ensures w.TextInput? ==> forall i :: 0 <= i < |w.answers| ==>
              r.answers[i] == Normalise(w.answers[i], w.ignoreCase, w.noSpaces)
              && Normalise(r.answers[i], w.ignoreCase, w.noSpaces) == r.answers[i]
  {
    if w.TextInput? then
      var r := w.(answers := NormaliseAll(w.answers, w.ignoreCase, w.noSpaces));
      assert forall i :: 0 <= i < |w.answers| ==>
        Normalise(r.answers[i], w.ignoreCase, w.noSpaces) == r.answers[i] by {
        forall i | 0 <= i < |w.answers| {
          NormaliseIdempotent(w.answers[i], w.ignoreCase, w.noSpaces);
        }
      }
      r
    else w
  }

  // ---------------------------------------------------------------- text inputs

  /**
   * The marks a text input ends with, in closed form: `incorrect` exactly when
   * the normalised value is non-empty and not an answer (the tolerance and
   * regex steps never touch it); `correct` when the regex matched, or else
   * when the tolerance step decided it, or else when the value is an answer.
   */
  function TextVerdict(w: Widget, value: string, withinTol: bool, regexHit: bool): (m: Mark)
    requires w.TextInput?
    ensures Normalise(value, w.ignoreCase, w.noSpaces) == "" ==> !m.incorrect
    ensures m.correct && m.incorrect ==> (w.tolerant && withinTol) || (w.regex && regexHit)
    ensures !m.correct && !m.incorrect ==>
              Normalise(value, w.ignoreCase, w.noSpaces) == "" || (w.tolerant && !withinTol)
  {
    var n := Normalise(value, w.ignoreCase, w.noSpaces);
    Mark(correct := (w.regex && regexHit) || (if w.tolerant then withinTol else n != "" && n in w.answers),
         incorrect := n != "" && n !in w.answers)
  }

  /** Whether grading fills the feedback element with the widget's `feedback` attribute. */
  function TextFilled(w: Widget, value: string, withinTol: bool): (r: bool)
    requires w.TextInput?
    ensures TextVerdict(w, value, withinTol, false).incorrect ==> r
    ensures r <==> TextVerdict(w, value, withinTol, false).incorrect || (w.tolerant && !withinTol)
  {
    var n := Normalise(value, w.ignoreCase, w.noSpaces);
    (n != "" && n !in w.answers) || (w.tolerant && !withinTol)
  }

  /**
   * Without tolerance and regex, a text input reaches one of three outcomes:
   * no mark for an empty normalised value, `correct` alone for an answer,
   * `incorrect` alone (with its feedback filled in) for anything else.
   */
  lemma TextOutcomes(w: Widget, value: string, withinTol: bool, regexHit: bool)
    requires w.TextInput? && !w.tolerant && !w.regex
    ensures var n := Normalise(value, w.ignoreCase, w.noSpaces);
            var m := TextVerdict(w, value, withinTol, regexHit);
            && (n == "" ==> m == Unmarked && !TextFilled(w, value, withinTol))
            && (n != "" && n in w.answers ==> m == Mark(true, false) && !TextFilled(w, value, withinTol))
            && (n != "" && n !in w.answers ==> m == Mark(false, true) && TextFilled(w, value, withinTol))
  {
  }

  /**
   * With the answers normalised at load, and without tolerance or regex, a
   * submission is marked correct exactly when it is non-empty after
   * normalisation and normalises to the same string as one of the original
   * answers.
   */
  lemma LoadedMatch(w: Widget, value: string, withinTol: bool, regexHit: bool)
    requires w.TextInput? && !w.tolerant && !w.regex
    ensures var n := Normalise(value, w.ignoreCase, w.noSpaces);
            (TextVerdict(Load(w), value, withinTol, regexHit).correct
             <==> n != "" && exists a :: a in w.answers && Normalise(a, w.ignoreCase, w.noSpaces) == n)
  {
    MatchAfterLoad(value, w.answers, w.ignoreCase, w.noSpaces);
  }

  /** The regex step only ever adds `correct`: it removes no mark. */
  lemma RegexOnlyAdds(w: Widget, value: string, withinTol: bool)
    requires w.TextInput? && w.regex
    ensures var before := TextVerdict(w.(regex := false), value, withinTol, false);
            var after := TextVerdict(w, value, withinTol, true);
            after.correct && after.incorrect == before.incorrect
    ensures TextVerdict(w, value, withinTol, false) == TextVerdict(w.(regex := false), value, withinTol, true)
  {
  }

  /**
   * The tolerance step never clears `incorrect`; when nothing is within
   * tolerance it removes `correct`, even from an exact match, which then
   * carries neither mark.
   */
  lemma ToleranceKeepsIncorrect(w: Widget, value: string, withinTol: bool, regexHit: bool)
    requires w.TextInput? && w.tolerant
    ensures TextVerdict(w, value, withinTol, regexHit).incorrect
         == TextVerdict(w.(tolerant := false), value, withinTol, regexHit).incorrect
    ensures !withinTol && !(w.regex && regexHit) ==> !TextVerdict(w, value, withinTol, regexHit).correct
  {
  }

  /**
   * An exact answer that is not within tolerance, without a regex hit, loses
   * the `correct` the membership step gave it and ends with neither mark.
   */
  lemma ToleranceClearsExactMatch(w: Widget, value: string, regexHit: bool)
    requires w.TextInput? && w.tolerant && !(w.regex && regexHit)
    requires var n := Normalise(value, w.ignoreCase, w.noSpaces); n != "" && n in w.answers
    ensures TextVerdict(w.(tolerant := false), value, false, regexHit) == Mark(true, false)
    ensures TextVerdict(w, value, false, regexHit) == Unmarked
  {
  }

  /**
   * An empty normalised value does not end grading: on a tolerant input the
   * tolerance step still decides `correct`, and a miss fills the feedback.
   */
  lemma EmptyTolerant(w: Widget, value: string, withinTol: bool, regexHit: bool)
    requires w.TextInput? && w.tolerant && Normalise(value, w.ignoreCase, w.noSpaces) == ""
    ensures !TextVerdict(w, value, withinTol, regexHit).incorrect
    ensures TextVerdict(w, value, withinTol, regexHit).correct <==> withinTol || (w.regex && regexHit)
    ensures TextFilled(w, value, withinTol) <==> !withinTol
  {
  }

  // ---------------------------------------------------------------- selects and radio groups

  /** The marks a select ends with, given the selected option's value. */
  function SelectVerdict(value: string): (m: Mark)
    ensures !(m.correct && m.incorrect)
    ensures Marked(m) <==> value != BlankSentinel
  {
    Mark(correct := value == AnswerSentinel,
         incorrect := value != AnswerSentinel && value != BlankSentinel)
  }

  /** A select is `correct` only for `"answer"`, unmarked only for `"blank"`, else `incorrect` only. */
  lemma SelectOutcomes(value: string)
    ensures SelectVerdict(value).correct <==> value == AnswerSentinel
    ensures !Marked(SelectVerdict(value)) <==> value == BlankSentinel
    ensures !(SelectVerdict(value).correct && SelectVerdict(value).incorrect)
  {
  }

  predicate AtMostOneMarked(ms: seq<Mark>)
  {
    forall i, j :: 0 <= i < |ms| && 0 <= j < |ms| && Marked(ms[i]) && Marked(ms[j]) ==> i == j
  }

  /**
   * The labels of a radio group of `n` buttons after button `k`, whose value
   * is `value`, was checked: that label alone is marked, `correct` for
   * `"answer"` and `incorrect` for anything else, `"blank"` included.
   */
  function RadioVerdict(n: nat, k: nat, value: string): (ms: seq<Mark>)
    requires k < n
    ensures |ms| == n && AtMostOneMarked(ms)
    ensures forall i :: 0 <= i < n && i != k ==> ms[i] == Unmarked
    ensures ms[k].correct <==> value == AnswerSentinel
    ensures ms[k].incorrect <==> value != AnswerSentinel
  {
    seq(n, i requires 0 <= i < n =>
      if i != k then Unmarked
      else if value == AnswerSentinel then Mark(true, false) else Mark(false, true))
  }

  // ---------------------------------------------------------------- counting

  /** How many of these elements carry `webex-correct`. */
  function CorrectMarks(ms: seq<Mark>): (c: nat)
    ensures c <= |ms|
  {
    if ms == [] then 0 else (if ms[0].correct then 1 else 0) + CorrectMarks(ms[1..])
  }

  /** A group whose labels carry at most one mark carries at most one `correct`. */
  lemma {:induction false} AtMostOneCorrect(ms: seq<Mark>)
    requires AtMostOneMarked(ms)
    ensures CorrectMarks(ms) <= 1
  {
    if ms != [] {
      assert AtMostOneMarked(ms[1..]) by {
        forall i, j | 0 <= i < |ms| - 1 && 0 <= j < |ms| - 1 && Marked(ms[1..][i]) && Marked(ms[1..][j])
          ensures i == j
        {
          assert ms[1..][i] == ms[i + 1] && ms[1..][j] == ms[j + 1];
        }
      }
      AtMostOneCorrect(ms[1..]);
      if ms[0].correct {
        NoneCorrect(ms[1..]);
      }
    }
  }

  lemma {:induction false} NoneCorrect(ms: seq<Mark>)
    requires forall i :: 0 <= i < |ms| ==> !Marked(ms[i])
    ensures CorrectMarks(ms) == 0
  {
    if ms != [] {
      NoneCorrect(ms[1..]);
    }
  }

  /** Number of `webex-correct` elements among the widgets of section `s`. */
  function CountCorrect(ws: seq<Widget>, ms: seq<seq<Mark>>, s: nat): (c: nat)
    requires |ws| == |ms|
    ensures (forall w :: 0 <= w < |ms| ==> CorrectMarks(ms[w]) == 0) ==> c == 0
    ensures (forall w :: 0 <= w < |ws| ==> ws[w].section != Some(s)) ==> c == 0
  {
    if ws == [] then 0
    else (if ws[0].section == Some(s) then CorrectMarks(ms[0]) else 0) + CountCorrect(ws[1..], ms[1..], s)
  }

  /** Number of gradable widgets in section `s`. */
  function CountWidgets(ws: seq<Widget>, s: nat): (n: nat)
    ensures n <= |ws|
    ensures (forall w :: 0 <= w < |ws| ==> ws[w].section == Some(s)) ==> n == |ws|
    ensures (forall w :: 0 <= w < |ws| ==> ws[w].section != Some(s)) ==> n == 0
  {
    if ws == [] then 0 else (if ws[0].section == Some(s) then 1 else 0) + CountWidgets(ws[1..], s)
  }

  /** When each widget carries at most one `correct`, the count correct never exceeds the total. */
  lemma {:induction false} CorrectAtMostTotal(ws: seq<Widget>, ms: seq<seq<Mark>>, s: nat)
    requires |ws| == |ms|
    requires forall w :: 0 <= w < |ms| ==> CorrectMarks(ms[w]) <= 1
    ensures CountCorrect(ws, ms, s) <= CountWidgets(ws, s)
  {
    if ws != [] {
      assert forall w :: 0 <= w < |ms| - 1 ==> ms[1..][w] == ms[w + 1];
      CorrectAtMostTotal(ws[1..], ms[1..], s);
    }
  }

  /** Grading a widget outside section `s` leaves that section's count correct as it was. */
  lemma {:induction false} CountOtherSection(ws: seq<Widget>, ms: seq<seq<Mark>>, w: nat, x: seq<Mark>, s: nat)
    requires |ws| == |ms| && w < |ws| && ws[w].section != Some(s)
    ensures CountCorrect(ws, ms[w := x], s) == CountCorrect(ws, ms, s)
  {
    if w > 0 {
      assert ms[w := x][1..] == ms[1..][w - 1 := x];
      CountOtherSection(ws[1..], ms[1..], w - 1, x, s);
    } else {
      assert ms[w := x][1..] == ms[1..];
    }
  }

  /** A section without widgets reports "0 of 0 correct". */
  lemma {:induction false} EmptyScope(ws: seq<Widget>, ms: seq<seq<Mark>>, s: nat)
    requires |ws| == |ms|
    requires forall w :: 0 <= w < |ws| ==> ws[w].section != Some(s)
    ensures CountWidgets(ws, s) == 0 && CountCorrect(ws, ms, s) == 0
    ensures SummaryText(CountCorrect(ws, ms, s), CountWidgets(ws, s)) == "0 of 0 correct"
  {
    if ws != [] {
      EmptyScope(ws[1..], ms[1..], s);
    }
    EmptySummary();
  }

  // ---------------------------------------------------------------- feedback visibility

  /** A widget's feedback is shown unless its section is `unchecked`. */
  predicate Shown(section: Option<nat>, unchecked: seq<bool>)
  {
    !(section.Some? && section.value < |unchecked| && unchecked[section.value])
  }

  /**
   * Setting section `t`'s `unchecked` flag to `b` changes the visibility of
   * exactly the widgets in `t`, which become hidden iff `b`.
   */
  lemma ShownFlip(section: Option<nat>, unchecked: seq<bool>, t: nat, b: bool)
    requires t < |unchecked|
    ensures Shown(section, unchecked[t := b]) == if section == Some(t) then !b else Shown(section, unchecked)
  {
  }

  /** The ids of the feedback elements of the widgets in section `s`. */
  function SectionKeys(ws: seq<Widget>, s: nat): set<string>
  {
    set w | 0 <= w < |ws| && ws[w].section == Some(s) :: FeedbackKey(ws[w].id)
  }

  /** Every feedback element whose id is in `keys` gets `visible`; the rest stay as they are. */
  function Restyle(fb: map<string, Feedback>, keys: set<string>, visible: bool): (r: map<string, Feedback>)
    ensures r.Keys == fb.Keys
    ensures forall k :: k in fb ==> r[k].text == fb[k].text
  {
    map k | k in fb :: if k in keys then fb[k].(visible := visible) else fb[k]
  }

  /**
   * Hiding and then showing again (or the reverse) restores every feedback
   * element, when the ones in `keys` were in the state the second step restores.
   */
  lemma RestyleTwice(fb: map<string, Feedback>, keys: set<string>, visible: bool)
    requires forall k :: k in keys && k in fb ==> fb[k].visible == visible
    ensures Restyle(Restyle(fb, keys, !visible), keys, visible) == fb
  {
  }
}
