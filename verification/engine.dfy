/**
 * The grading engine: the state the page's handlers update in place. Each
 * method of `Engine` models one handler running for one event; the mark
 * updates they make step by step are the methods `TextMarks`,
 * `SelectMarks` and `RadioMarks`, proved against the closed-form verdicts.
 */
module Webex {
  import opened Wrappers
  import opened Normalisation
  import opened Summary
  import opened Grading

  const ShowLabel := "Show Answers"
  const HideLabel := "Hide Answers"

  /** The check button's label for a section that is (or is not) `unchecked`. */
  function Label(unchecked: bool): string
  {
    if unchecked then ShowLabel else HideLabel
  }

  /** The two states have different labels, so every toggle changes the label. */
  lemma LabelToggles(unchecked: bool)
    ensures Label(!unchecked) != Label(unchecked)
  {
  }

  predicate DistinctIds(ws: seq<Widget>)
  {
    forall i, j :: 0 <= i < |ws| && 0 <= j < |ws| && ws[i].id == ws[j].id ==> i == j
  }

  /** The ids every widget's feedback element may have. */
  function Keys(ws: seq<Widget>): set<string>
  {
    set w | 0 <= w < |ws| :: FeedbackKey(ws[w].id)
  }

  /** Widgets point at existing sections, have distinct ids, and a radio group has at most one marked label. */
  predicate WellFormed(ws: seq<Widget>, ms: seq<seq<Mark>>, sections: nat)
  {
    && |ms| == |ws|
    && DistinctIds(ws)
    && (forall w :: 0 <= w < |ws| ==>
          && (ws[w].section.Some? ==> ws[w].section.value < sections)
          && |ms[w]| == Slots(ws[w])
          && AtMostOneMarked(ms[w]))
  }

  /**
   * Each widget has at most one feedback element, `"feedbackDiv"` + its id,
   * and that element is hidden exactly when the widget's section is `unchecked`.
   */
  predicate FeedbackInSync(ws: seq<Widget>, fb: map<string, Feedback>, unchecked: seq<bool>)
  {
    && (forall k :: k in fb ==> k in Keys(ws))
    && (forall w :: 0 <= w < |ws| && FeedbackKey(ws[w].id) in fb ==>
          fb[FeedbackKey(ws[w].id)].visible == Shown(ws[w].section, unchecked))
  }

  predicate LabelsInSync(unchecked: seq<bool>, labels: seq<string>)
  {
    |labels| == |unchecked| && forall s :: 0 <= s < |unchecked| ==> labels[s] == Label(unchecked[s])
  }

  /** Replacing one widget's marks by a well-shaped group keeps the widgets well formed. */
  lemma MarksUpdate(ws: seq<Widget>, ms: seq<seq<Mark>>, n: nat, w: nat, x: seq<Mark>)
    requires WellFormed(ws, ms, n) && w < |ws|
    requires |x| == Slots(ws[w]) && AtMostOneMarked(x)
    ensures WellFormed(ws, ms[w := x], n)
  {
  }

  /** Writing a widget's feedback element with the visibility its section calls for keeps feedback in sync. */
  lemma FeedbackUpdate(ws: seq<Widget>, fb: map<string, Feedback>, unchecked: seq<bool>, w: nat, div: Feedback)
    requires FeedbackInSync(ws, fb, unchecked) && DistinctIds(ws) && w < |ws|
    requires div.visible == Shown(ws[w].section, unchecked)
    ensures FeedbackInSync(ws, fb[FeedbackKey(ws[w].id) := div], unchecked)
  {
    var key := FeedbackKey(ws[w].id);
    forall v | 0 <= v < |ws| && v != w ensures FeedbackKey(ws[v].id) != key {
      FeedbackKeyInjective(ws[v].id, ws[w].id);
    }
  }

  /** With distinct widget ids, only widgets of section `s` own a key in `SectionKeys(ws, s)`. */
  lemma SectionKeyOwner(ws: seq<Widget>, s: nat, w: nat)
    requires DistinctIds(ws) && w < |ws|
    ensures FeedbackKey(ws[w].id) in SectionKeys(ws, s) <==> ws[w].section == Some(s)
  {
    if FeedbackKey(ws[w].id) in SectionKeys(ws, s) {
      var v :| 0 <= v < |ws| && ws[v].section == Some(s) && FeedbackKey(ws[v].id) == FeedbackKey(ws[w].id);
      FeedbackKeyInjective(ws[v].id, ws[w].id);
    }
  }

  /** Flipping section `s` and restyling its feedback elements to match keeps feedback in sync. */
  lemma ToggleUpdate(ws: seq<Widget>, fb: map<string, Feedback>, unchecked: seq<bool>, s: nat)
    requires FeedbackInSync(ws, fb, unchecked) && DistinctIds(ws) && s < |unchecked|
    ensures FeedbackInSync(ws, Restyle(fb, SectionKeys(ws, s), unchecked[s]), unchecked[s := !unchecked[s]])
  {
    var fb', u' := Restyle(fb, SectionKeys(ws, s), unchecked[s]), unchecked[s := !unchecked[s]];
    forall w | 0 <= w < |ws| && FeedbackKey(ws[w].id) in fb'
      ensures fb'[FeedbackKey(ws[w].id)].visible == Shown(ws[w].section, u')
    {
      SectionKeyOwner(ws, s, w);
    }
  }

  /** One more widget examined by the check toggle's loop. */
  lemma RestyleStep(fb: map<string, Feedback>, ws: seq<Widget>, i: nat, s: nat, show: bool)
    requires i < |ws|
    ensures var key := FeedbackKey(ws[i].id);
            var before := Restyle(fb, SectionKeys(ws[..i], s), show);
            Restyle(fb, SectionKeys(ws[..i + 1], s), show)
            == if ws[i].section == Some(s) && key in before
               then before[key := before[key].(visible := show)] else before
  {
    var key := FeedbackKey(ws[i].id);
    assert SectionKeys(ws[..i + 1], s)
        == SectionKeys(ws[..i], s) + (if ws[i].section == Some(s) then {key} else {});
  }

  // ---------------------------------------------------------------- the handlers' mark updates

  /**
   * The mark updates of `solveme_func`, step by step from the widget's
   * `prior` marks: normalise, grade by membership, then the tolerance step
   * and the regex step. `filled` says whether the feedback element gets the
   * widget's `feedback` attribute (and is placed in the document).
   */
  method TextMarks(cfg: Widget, text: string, withinTol: bool, regexHit: bool, prior: Mark)
    returns (m: Mark, filled: bool)
    requires cfg.TextInput?
    ensures m == TextVerdict(cfg, text, withinTol, regexHit)
    ensures filled == TextFilled(cfg, text, withinTol)
  {
    var answer := text;
    if cfg.ignoreCase {
      answer := Lower(answer);
    }
    if cfg.noSpaces {
      answer := StripSpaces(answer);
    }
    m, filled := prior, false;
    if answer == "" {
      m := m.(correct := false).(incorrect := false);
    } else if answer in cfg.answers {
      m := m.(correct := true).(incorrect := false);
    } else {
      m := m.(incorrect := true).(correct := false);
      filled := true;
    }
    if cfg.tolerant {
      if withinTol {
        m := m.(correct := true);
      } else {
        m := m.(correct := false);
        filled := true;
      }
    }
    if cfg.regex && regexHit {
      m := m.(correct := true);
    }
  }

  /** The mark updates of `select_func`: both marks removed, then one added by the sentinel rule. */
  method SelectMarks(value: string, prior: Mark) returns (m: Mark)
    ensures m == SelectVerdict(value)
  {
    m := prior.(incorrect := false).(correct := false);
    if value == AnswerSentinel {
      m := m.(correct := true);
    } else if value != BlankSentinel {
      m := m.(incorrect := true);
    }
  }

  /**
   * The mark updates of `radiogroups_func`: every label loses both marks,
   * then the label of checked button `k` gets `correct` for `"answer"` and
   * `incorrect` otherwise.
   */
  method RadioMarks(prior: seq<Mark>, k: nat, value: string) returns (ls: seq<Mark>)
    requires k < |prior|
    ensures ls == RadioVerdict(|prior|, k, value)
  {
    ls := prior;
    var i := 0;
    while i < |ls|
      invariant i <= |ls| == |prior|
      invariant forall j :: 0 <= j < i ==> ls[j] == Unmarked
    {
      ls := ls[i := ls[i].(incorrect := false).(correct := false)];
      i := i + 1;
    }
    if value == AnswerSentinel {
      ls := ls[k := ls[k].(correct := true)];
    } else {
      ls := ls[k := ls[k].(incorrect := true)];
    }
  }

  /** A radio group's feedback text: the separator is appended unless the attribute is absent or `<b></b>`. */
  method RadioText(feedback: Option<string>) returns (text: string)
    ensures text == RadioFeedback(feedback)
  {
    text := Html(feedback);
    if feedback.Some? && feedback.value != EmptyBold {
      text := text + Separator;
    }
  }

  // ---------------------------------------------------------------- the engine

  class Engine {
    /** The gradable widgets, with the answers of text inputs normalised at load. */
    const widgets: seq<Widget>
    /** How many check sections (`webex-check`) the page has. */
    const sectionCount: nat
    /** Each widget's current value: the text typed, or the value of the selected option or checked button. */
    var values: seq<string>
    /** Each widget's marks: one for a text input or select, one per label for a radio group. */
    var marks: seq<seq<Mark>>
    /** The feedback elements in the document, by id. */
    var feedback: map<string, Feedback>
    /** Per check section: whether it carries `unchecked`. */
    var unchecked: seq<bool>
    /** Per check section: its check button's label. */
    var labels: seq<string>
    /** Per check section: the text of its `webex-total_correct` span. */
    var summaries: seq<string>
    /** Per solution box (`webex-solution`): whether it carries `open`. */
    var open: seq<bool>

    /** Everything but the summaries, which `UpdateTotalCorrect` re-establishes. */
    ghost predicate Consistent()
      reads this
    {
      && |values| == |widgets|
      && |unchecked| == |summaries| == sectionCount
      && WellFormed(widgets, marks, sectionCount)
      && FeedbackInSync(widgets, feedback, unchecked)
      && LabelsInSync(unchecked, labels)
    }

    ghost predicate Valid()
      reads this
    {
      Consistent() && forall s :: 0 <= s < sectionCount ==> summaries[s] == ScopeSummary(s)
    }

    /** The summary section `s` should show for the current marks. */
    function ScopeSummary(s: nat): string
      reads this
      requires |marks| == |widgets|
    {
      SummaryText(CountCorrect(widgets, marks, s), CountWidgets(widgets, s))
    }

    /**
     * The state at page load: sections start `unchecked` with the label
     * "Show Answers", text inputs are emptied, the answers of text inputs are
     * normalised like submissions, nothing is marked, no feedback element
     * exists yet, and every summary is computed.
     */
    constructor (config: seq<Widget>, markup: seq<string>, sections: nat, solutions: seq<bool>)
      requires |markup| == |config|
      requires forall w :: 0 <= w < |config| && config[w].section.Some? ==> config[w].section.value < sections
      requires DistinctIds(config)
      ensures Valid()
      ensures sectionCount == sections
      ensures |widgets| == |config| && forall w :: 0 <= w < |config| ==> widgets[w] == Load(config[w])
      ensures |values| == |config|
      ensures forall w :: 0 <= w < |config| ==> values[w] == if config[w].TextInput? then "" else markup[w]
      ensures |marks| == |config| && forall w :: 0 <= w < |config| ==> marks[w] == Blank(Slots(config[w]))
      ensures feedback == map[]
      ensures unchecked == seq(sections, _ => true) && labels == seq(sections, _ => ShowLabel)
      ensures open == solutions
    {
      var flags, texts := [], [];
      var i := 0;
      while i < sections
        invariant i <= sections
        invariant flags == seq(i, _ => true) && texts == seq(i, _ => ShowLabel)
      {
        flags, texts := flags + [true], texts + [ShowLabel];
        i := i + 1;
      }
      var loaded, current, ms := [], [], [];
      i := 0;
      while i < |config|
        invariant i <= |config|
        invariant |loaded| == |current| == |ms| == i
        invariant forall w :: 0 <= w < i ==> loaded[w] == Load(config[w])
        invariant forall w :: 0 <= w < i ==> current[w] == if config[w].TextInput? then "" else markup[w]
        invariant forall w :: 0 <= w < i ==> ms[w] == Blank(Slots(config[w]))
      {
        var w := config[i];
        if w.TextInput? {
          var answers := w.answers;
          if w.ignoreCase {
            answers := seq(|answers|, j requires 0 <= j < |answers| => Lower(answers[j]));
          }
          if w.noSpaces {
            answers := seq(|answers|, j requires 0 <= j < |answers| => StripSpaces(answers[j]));
          }
          w := w.(answers := answers);
          current := current + [""];
        } else {
          current := current + [markup[i]];
        }
        loaded, ms := loaded + [w], ms + [Blank(Slots(w))];
        i := i + 1;
      }
      widgets, sectionCount := loaded, sections;
      values, marks, feedback := current, ms, map[];
      unchecked, labels, summaries := flags, texts, texts;
      open := solutions;
      new;
      assert forall w :: 0 <= w < |widgets| ==> widgets[w].id == config[w].id;
      UpdateTotalCorrect();
    }

    /**
     * `update_total_correct`: every section's summary is recounted from the
     * current marks.
     */
    method UpdateTotalCorrect()
      requires Consistent()
      modifies this`summaries
      ensures Valid()
      ensures forall s :: 0 <= s < sectionCount ==> summaries[s] == ScopeSummary(s)
    {
      var i := 0;
      while i < sectionCount
        invariant i <= sectionCount && |summaries| == sectionCount
        invariant forall s :: 0 <= s < i ==> summaries[s] == ScopeSummary(s)
      {
        summaries := summaries[i := SummaryText(CountCorrect(widgets, marks, i), CountWidgets(widgets, i))];
        i := i + 1;
      }
    }

    /** The summaries of sections other than `s` survive a change to the marks of a widget outside them. */
    lemma OtherSummaries(w: nat, before: seq<seq<Mark>>)
      requires Valid() && w < |widgets| && |before| == |widgets|
      requires marks == before[w := marks[w]]
      ensures forall s :: 0 <= s < sectionCount && widgets[w].section != Some(s) ==>
                SummaryText(CountCorrect(widgets, before, s), CountWidgets(widgets, s)) == summaries[s]
    {
      forall s | 0 <= s < sectionCount && widgets[w].section != Some(s)
        ensures CountCorrect(widgets, before, s) == CountCorrect(widgets, marks, s)
      {
        CountOtherSection(widgets, before, w, marks[w], s);
      }
    }

    /** `b_func`: a solution box opens if closed and closes if open. */
    method ToggleSolution(b: nat)
      requires Valid() && b < |open|
      modifies this`open
      ensures Valid()
      ensures open == old(open)[b := !old(open)[b]]
    {
      if open[b] {
        open := open[b := false];
      } else {
        open := open[b := true];
      }
    }

    /**
     * `check_func`: section `s` loses `unchecked` and shows its feedback, or
     * gains it and hides its feedback; its label follows. No mark changes.
     */
    method ToggleCheck(s: nat)
      requires Valid() && s < sectionCount
      modifies this`unchecked, this`labels, this`feedback
      ensures Valid()
      ensures unchecked == old(unchecked)[s := !old(unchecked)[s]]
      ensures labels == old(labels)[s := if old(unchecked)[s] then HideLabel else ShowLabel]
      ensures feedback == Restyle(old(feedback), SectionKeys(widgets, s), old(unchecked)[s])
    {
      var show := unchecked[s];
      ToggleUpdate(widgets, feedback, unchecked, s);
      if show {
        unchecked := unchecked[s := false];
        labels := labels[s := HideLabel];
      } else {
        unchecked := unchecked[s := true];
        labels := labels[s := ShowLabel];
      }
      var fb := feedback;
      var i := 0;
      while i < |widgets|
        invariant i <= |widgets|
        invariant fb == Restyle(feedback, SectionKeys(widgets[..i], s), show)
        modifies {}
      {
        RestyleStep(feedback, widgets, i, s, show);
        var key := FeedbackKey(widgets[i].id);
        if widgets[i].section == Some(s) && key in fb {
          fb := fb[key := fb[key].(visible := show)];
        }
        i := i + 1;
      }
      assert widgets[..i] == widgets;
      feedback := fb;
    }

    /**
     * `solveme_func`: text input `w` now holds `text`. `withinTol` says
     * whether some answer lies within the widget's tolerance, `regexHit`
     * whether the answers joined as a regular expression match the
     * normalised value.
     */
    method GradeText(w: nat, text: string, withinTol: bool, regexHit: bool)
      requires Valid() && w < |widgets| && widgets[w].TextInput?
      modifies this`values, this`marks, this`feedback, this`summaries
      ensures Valid()
      ensures values == old(values)[w := text]
      ensures marks == old(marks)[w := [TextVerdict(widgets[w], text, withinTol, regexHit)]]
      ensures var key := FeedbackKey(widgets[w].id);
              var filled := TextFilled(widgets[w], text, withinTol);
              feedback == if key in old(feedback) || filled
                          then old(feedback)[key := Feedback(if filled then Html(widgets[w].feedback) else "",
                                                             Shown(widgets[w].section, unchecked))]
                          else old(feedback)
      ensures forall s :: 0 <= s < sectionCount && widgets[w].section != Some(s) ==> summaries[s] == old(summaries)[s]
    {
      var cfg := widgets[w];
      values := values[w := text];
      var key := FeedbackKey(cfg.id);
      // an element already in the document is emptied and reused; otherwise a new one is made
      var inDocument := key in feedback;
      var div := if inDocument then feedback[key].(text := "") else Feedback("", true);
      div := div.(visible := Shown(cfg.section, unchecked));
      var m, filled := TextMarks(cfg, text, withinTol, regexHit, marks[w][0]);
      if filled {
        div := div.(text := Html(cfg.feedback));
        inDocument := true;
      }
      MarksUpdate(widgets, marks, sectionCount, w, [m]);
      ghost var before := marks;
      marks := marks[w := [m]];
      if inDocument {
        FeedbackUpdate(widgets, feedback, unchecked, w, div);
        feedback := feedback[key := div];
      }
      UpdateTotalCorrect();
      OtherSummaries(w, before);
    }

    /** `select_func`: option `k` of select `w` is now selected. */
    method GradeSelect(w: nat, k: nat)
      requires Valid() && w < |widgets| && widgets[w].Select? && k < |widgets[w].choices|
      modifies this`values, this`marks, this`feedback, this`summaries
      ensures Valid()
      ensures values == old(values)[w := widgets[w].choices[k].value]
      ensures marks == old(marks)[w := [SelectVerdict(widgets[w].choices[k].value)]]
      ensures feedback == old(feedback)[FeedbackKey(widgets[w].id) :=
                Feedback(Html(widgets[w].choices[k].feedback), Shown(widgets[w].section, unchecked))]
      ensures forall s :: 0 <= s < sectionCount && widgets[w].section != Some(s) ==> summaries[s] == old(summaries)[s]
    {
      var cfg := widgets[w];
      var option := cfg.choices[k];
      values := values[w := option.value];
      var key := FeedbackKey(cfg.id);
      var div := if key in feedback then feedback[key].(text := "") else Feedback("", true);
      div := div.(text := Html(option.feedback));
      div := div.(visible := Shown(cfg.section, unchecked));
      var m := SelectMarks(option.value, marks[w][0]);
      MarksUpdate(widgets, marks, sectionCount, w, [m]);
      ghost var before := marks;
      marks := marks[w := [m]];
      FeedbackUpdate(widgets, feedback, unchecked, w, div);
      feedback := feedback[key := div];
      UpdateTotalCorrect();
      OtherSummaries(w, before);
    }

    /**
     * `radiogroups_func`: button `k` of radio group `w` is now checked. Every
     * label loses both marks, then the checked one alone gets one.
     */
    method GradeRadio(w: nat, k: nat)
      requires Valid() && w < |widgets| && widgets[w].RadioGroup? && k < |widgets[w].choices|
      modifies this`values, this`marks, this`feedback, this`summaries
      ensures Valid()
      ensures values == old(values)[w := widgets[w].choices[k].value]
      ensures marks == old(marks)[w := RadioVerdict(|widgets[w].choices|, k, widgets[w].choices[k].value)]
      ensures feedback == old(feedback)[FeedbackKey(widgets[w].id) :=
                Feedback(RadioFeedback(widgets[w].choices[k].feedback), Shown(widgets[w].section, unchecked))]
      ensures forall s :: 0 <= s < sectionCount && widgets[w].section != Some(s) ==> summaries[s] == old(summaries)[s]
    {
      var cfg := widgets[w];
      var button := cfg.choices[k];
      values := values[w := button.value];
      var text := RadioText(button.feedback);
      var key := FeedbackKey(cfg.id);
      var div := if key in feedback then feedback[key].(text := "") else Feedback("", true);
      div := div.(text := text);
      div := div.(visible := Shown(cfg.section, unchecked));
      var ls := RadioMarks(marks[w], k, button.value);
      MarksUpdate(widgets, marks, sectionCount, w, ls);
      ghost var before := marks;
      marks := marks[w := ls];
      FeedbackUpdate(widgets, feedback, unchecked, w, div);
      feedback := feedback[key := div];
      UpdateTotalCorrect();
      OtherSummaries(w, before);
    }

    /**
     * Toggling section `s` twice restores every feedback element: the
     * invariant keeps the section's elements in the state the second toggle
     * sets them to.
     */
    lemma ToggleTwiceRestores(s: nat)
      requires Consistent() && s < sectionCount
      ensures var keys := SectionKeys(widgets, s);
              Restyle(Restyle(feedback, keys, unchecked[s]), keys, !unchecked[s]) == feedback
    {
      var keys := SectionKeys(widgets, s);
      forall k | k in keys && k in feedback ensures feedback[k].visible == !unchecked[s] {
        var w :| 0 <= w < |widgets| && widgets[w].section == Some(s) && k == FeedbackKey(widgets[w].id);
      }
      RestyleTwice(feedback, keys, !unchecked[s]);
    }

    /** The count correct in a section never exceeds its number of widgets. */
    lemma ScoreBounded(s: nat)
      requires Consistent()
      ensures CountCorrect(widgets, marks, s) <= CountWidgets(widgets, s)
    {
      forall w | 0 <= w < |marks| ensures CorrectMarks(marks[w]) <= 1 {
        AtMostOneCorrect(marks[w]);
      }
      CorrectAtMostTotal(widgets, marks, s);
    }
  }
}
