/** The blank-fill layer: writing a text with chosen words blanked out as spans,
    and quizzing the user on each blank. */
module Blanks {
  import opened Wrappers
  import opened Text
  import opened Faults
  import opened Styles
  import opened Cursor
  import opened Reading
  import opened Lines

  /** A regular-expression match: where it starts and what it matched; its Length
      is the length of the value. */
  datatype Match = Match(index: int, value: string)

  /** record Blank(string Word, Span Span) */
  datatype Blank = Blank(word: string, span: Span)

  /** What the quiz needs of a blank: the word and where its span lies. */
  datatype BlankView = BlankView(word: string, start: int, width: nat)

  /** record ScoreResult(int Score, int Total) */
  datatype ScoreResult = ScoreResult(score: int, total: int)

  /** The styles a right and a wrong answer are rewritten in. */
  datatype Feedback = Feedback(right: AnsiiStyle, wrong: AnsiiStyle)

  /** Foreground(Green) and Italic + Foreground(Red). */
  const CurrentFeedback := Feedback(Foreground(Green), Italic.Plus(Foreground(Red)))

  /** The older copy's Style(32) and Style(31, 3) around the write. */
  const LegacyFeedback := Feedback(AnsiiStyle("32"), AnsiiStyle("31;3"))

  /** Both versions mark a right answer green and a wrong one italic red. */
  lemma FeedbackCodes()
    ensures CurrentFeedback.right.Codes() == LegacyFeedback.right.Codes() == Some([32])
    ensures CurrentFeedback.wrong.Codes() == Some([3, 31])
    ensures LegacyFeedback.wrong.Codes() == Some([31, 3])
  {
    ForegroundCodes(Green);
    LegacyRightCodes();
    CurrentWrongCodes();
    LegacyWrongCodes();
  }

  lemma LegacyRightCodes()
    ensures LegacyFeedback.right.Codes() == Some([32])
  {
    NumeralCodes(32);
    assert NatToString(32) == "32";
  }

  lemma CurrentWrongCodes()
    ensures CurrentFeedback.wrong.Codes() == Some([3, 31])
  {
    ForegroundCodes(Red);
    NumeralCodes(3);
    assert NatToString(3) == "3";
    PlusCodes(Italic, Foreground(Red));
    assert [3] + [31] == [3, 31];
  }

  lemma LegacyWrongCodes()
    ensures LegacyFeedback.wrong.Codes() == Some([31, 3])
  {
    var left, right := AnsiiStyle(NatToString(31)), AnsiiStyle(NatToString(3));
    assert NatToString(31) == "31" && NatToString(3) == "3";
    assert LegacyFeedback.wrong == left.Plus(right);
    NumeralCodes(31);
    NumeralCodes(3);
    PlusCodes(left, right);
    assert [31] + [3] == [31, 3];
  }

  // ---------------------------------------------------------------------------
  // WriteBlanks

  function End(m: Match): int {
    m.index + |m.value|
  }

  /** From cursor index i on, the matches are in order, disjoint and inside text. */
  predicate Ordered(text: string, ms: seq<Match>, i: int)
    decreases |ms|
  {
    0 <= i <= |text| && (ms != [] ==> i <= ms[0].index && Ordered(text, ms[1..], End(ms[0])))
  }

  /** text from index i on, with every match replaced by as many underscores. */
  function Blanked(text: string, ms: seq<Match>, i: int): (r: string)
    requires Ordered(text, ms, i)
    ensures |r| == |text| - i
    decreases |ms|
  {
    if ms == [] then text[i..]
    else
      assert Ordered(text, ms[1..], End(ms[0]));
      text[i..ms[0].index] + Repeat('_', |ms[0].value|) + Blanked(text, ms[1..], End(ms[0]))
  }

  /** Position k of the text lies inside one of the matches. */
  predicate Covered(ms: seq<Match>, k: int) {
    exists j :: 0 <= j < |ms| && ms[j].index <= k < End(ms[j])
  }

  lemma {:induction false} OrderedBounds(text: string, ms: seq<Match>, i: int)
    requires Ordered(text, ms, i)
    ensures forall j :: 0 <= j < |ms| ==> i <= ms[j].index && End(ms[j]) <= |text|
    decreases |ms|
  {
    if ms != [] {
      OrderedBounds(text, ms[1..], End(ms[0]));
      forall j | 0 <= j < |ms| ensures i <= ms[j].index && End(ms[j]) <= |text| {
        if j > 0 {
          assert ms[j] == ms[1..][j - 1];
        }
      }
    }
  }

  /** The blanked text shows an underscore exactly where a match lies, and the
      text's own character everywhere else. */
  lemma {:induction false} BlankedChars(text: string, ms: seq<Match>, i: int)
    requires Ordered(text, ms, i)
    ensures forall k :: i <= k < |text| ==>
      Blanked(text, ms, i)[k - i] == if Covered(ms, k) then '_' else text[k]
    decreases |ms|
  {
    var r := Blanked(text, ms, i);
    if ms == [] {
    } else {
      var m := ms[0];
      var e := End(m);
      var rest := ms[1..];
      BlankedChars(text, rest, e);
      OrderedBounds(text, rest, e);
      var front := text[i..m.index];
      var bar := Repeat('_', |m.value|);
      assert r == front + bar + Blanked(text, rest, e);
      forall k | i <= k < |text| ensures r[k - i] == if Covered(ms, k) then '_' else text[k] {
        if k < m.index {
          assert r[k - i] == front[k - i];
          assert !Covered(ms, k) by {
            forall j | 0 <= j < |ms| ensures !(ms[j].index <= k < End(ms[j])) {
              if j > 0 { assert ms[j] == rest[j - 1]; }
            }
          }
        } else if k < e {
          assert r[k - i] == bar[k - m.index];
          assert ms[0].index <= k < End(ms[0]);
        } else {
          assert r[k - i] == Blanked(text, rest, e)[k - e];
          assert Covered(ms, k) <==> Covered(rest, k) by {
            forall j | 0 <= j < |ms| ensures (ms[j].index <= k < End(ms[j])) ==> Covered(rest, k) {
              if j > 0 { assert ms[j] == rest[j - 1]; }
            }
            if Covered(rest, k) {
              var j :| 0 <= j < |rest| && rest[j].index <= k < End(rest[j]);
              assert ms[j + 1] == rest[j];
            }
          }
        }
      }
    }
  }

  /** The writes WriteBlanks makes from cursor index i over the remaining matches:
      a Substring out of range throws before the write it feeds. */
  function BlankWrites(live: bool, h: Head, text: string, ms: seq<Match>, i: int): (e: Effect)
    requires h.Valid() && 0 <= i
    ensures e.head.Valid()
    decreases |ms|
  {
    if ms == [] then
      if i > |text| then Effect(h, Fail(OutOfRange)) else WriteEffect(live, h, text[i..], None)
    else
      var m := ms[0];
      if !(i <= m.index <= |text|) then Effect(h, Fail(OutOfRange))
      else
        var before := WriteEffect(live, h, text[i..m.index], None);
        if before.outcome.Fail? then before
        else
          var bar := WriteEffect(live, before.head, Repeat('_', |m.value|), None);
          if bar.outcome.Fail? then bar
          else BlankWrites(live, bar.head, text, ms[1..], End(m))
  }

  lemma HasControlConcat(a: string, b: string)
    ensures HasControl(a + b) <==> HasControl(a) || HasControl(b)
  {
    if HasControl(a + b) {
      var k :| 0 <= k < |a + b| && IsControl((a + b)[k]);
      if k >= |a| { assert b[k - |a|] == (a + b)[k]; }
    }
    if HasControl(a) {
      var k :| 0 <= k < |a| && IsControl(a[k]);
      assert (a + b)[k] == a[k];
    }
    if HasControl(b) {
      var k :| 0 <= k < |b| && IsControl(b[k]);
      assert (a + b)[|a| + k] == b[k];
    }
  }

  /** A write that passes is Written, also for the empty text. */
  lemma WritePasses(live: bool, h: Head, s: string, style: Option<AnsiiStyle>)
    requires h.Valid()
    ensures WriteEffect(live, h, s, style).outcome == Pass <==> live && !HasControl(s)
    ensures WriteEffect(live, h, s, style).outcome == Pass ==> WriteEffect(live, h, s, style).head == Written(h, s, style)
  {
    if |s| == 0 {
      PaintNothing(h.screen, h.pos, style);
    }
  }

  /** Three passing writes in a row are one write of the three texts, and the
      joined text has a control character only where one of the outer texts has. */
  lemma ThreeWrites(h: Head, a: string, b: string, c: string)
    requires h.Valid() && !HasControl(b)
    ensures Written(Written(Written(h, a, None), b, None), c, None) == Written(h, a + b + c, None)
    ensures HasControl(a + b + c) <==> HasControl(a) || HasControl(c)
  {
    HasControlConcat(a, b);
    HasControlConcat(a + b, c);
    WriteConcat(h, a, b, None);
    WriteConcat(h, a + b, c, None);
  }

  /** A control character before the first match survives the blanking. */
  lemma FrontControl(text: string, ms: seq<Match>, i: int)
    requires ms != [] && i <= ms[0].index <= |text| && Ordered(text, ms, i)
    requires HasControl(text[i..ms[0].index])
    ensures HasControl(Blanked(text, ms, i))
  {
    var front := text[i..ms[0].index];
    var rest := Repeat('_', |ms[0].value|) + Blanked(text, ms[1..], End(ms[0]));
    assert Blanked(text, ms, i) == front + rest;
    HasControlConcat(front, rest);
  }

  /** WriteBlanks completes exactly when the line is current, the matches are in
      order inside the text and the blanked text has no control character; it
      then has written the blanked text. */
  lemma {:induction false} BlankWritesLaw(live: bool, h: Head, text: string, ms: seq<Match>, i: int)
    requires h.Valid() && 0 <= i
    ensures var e := BlankWrites(live, h, text, ms, i);
      && (e.outcome == Pass <==> live && Ordered(text, ms, i) && !HasControl(Blanked(text, ms, i)))
      && (e.outcome == Pass ==> e.head == Written(h, Blanked(text, ms, i), None))
    decreases |ms|
  {
    var e := BlankWrites(live, h, text, ms, i);
    if ms == [] {
      if i <= |text| {
        WritePasses(live, h, text[i..], None);
      }
    } else {
      var m := ms[0];
      if i <= m.index <= |text| {
        var front := text[i..m.index];
        var bar := Repeat('_', |m.value|);
        WritePasses(live, h, front, None);
        var before := WriteEffect(live, h, front, None);
        if before.outcome == Pass {
          var h1 := Written(h, front, None);
          assert !HasControl(bar) by {
            if |bar| > 0 { RepeatControl('_', |bar|); }
          }
          WritePasses(live, h1, bar, None);
          var h2 := Written(h1, bar, None);
          BlankWritesLaw(live, h2, text, ms[1..], End(m));
          assert e == BlankWrites(live, h2, text, ms[1..], End(m));
          if Ordered(text, ms[1..], End(m)) {
            var tail := Blanked(text, ms[1..], End(m));
            assert Blanked(text, ms, i) == front + bar + tail;
            ThreeWrites(h, front, bar, tail);
          }
        } else {
          assert e == before;
          if live && Ordered(text, ms, i) {
            FrontControl(text, ms, i);
          }
        }
      }
    }
  }

  /** line.WriteBlanks(text, selector), for the matches the selector yields. */
  method WriteBlanks(line: Line, text: string, words: seq<Match>) returns (blanks: seq<Blank>, r: Outcome<Fault>)
    requires line.Valid()
    modifies line, line.term`pos, line.term`screen
    ensures line.Valid()
    ensures var e := BlankWrites(old(line.IsCurrent()), old(line.View()), text, words, 0);
      line.View() == e.head && r == e.outcome
    ensures r == Pass ==>
      && |blanks| == |words|
      && forall k :: 0 <= k < |words| ==>
           && blanks[k].word == words[k].value
           && blanks[k].span.line == line
           && blanks[k].span.start == old(line.offset) + words[k].index
           && blanks[k].span.width == |words[k].value|
  {
    ghost var live := line.IsCurrent();
    ghost var h := line.View();
    var i := 0;
    var j := 0;
    blanks := [];
    while j < |words|
      invariant 0 <= j <= |words| && 0 <= i
      invariant line.Valid() && line.IsCurrent() == live
      invariant line.offset == h.offset + i
      invariant BlankWrites(live, h, text, words, 0) == BlankWrites(live, line.View(), text, words[j..], i)
      invariant |blanks| == j
      invariant forall k :: 0 <= k < j ==>
        && blanks[k].word == words[k].value
        && blanks[k].span.line == line
        && blanks[k].span.start == h.offset + words[k].index
        && blanks[k].span.width == |words[k].value|
      decreases |words| - j
    {
      var word := words[j];
      assert words[j..][0] == word && words[j..][1..] == words[j + 1..];
      if !(i <= word.index <= |text|) {
        return blanks, Fail(OutOfRange);
      }
      r := line.Write(text[i..word.index], None);
      if r.Fail? {
        return;
      }
      var span;
      span, r := line.Span(Repeat('_', |word.value|));
      if r.Fail? {
        return;
      }
      blanks := blanks + [Blank(word.value, span)];
      i := End(word);
      j := j + 1;
    }
    if i > |text| {
      return blanks, Fail(OutOfRange);
    }
    r := line.Write(text[i..], None);
  }

  // ---------------------------------------------------------------------------
  // QuizBlanks

  /** new ReadOptions() { AutoSubmit = true, EraseChar = '_', AllowEscape = true } */
  const QuizOptions := DefaultOptions.(autoSubmit := true, eraseChar := '_', allowEscape := true)

  /** How a quiz ends. Stalled stands for a quiz still waiting for a key. */
  datatype QuizOutcome = Scored(result: ScoreResult) | Abandoned | Crashed(fault: Fault) | Stalled

  /** The end of a quiz: its outcome, the head of the line now in use, the keys
      left unread, and the quizzed line's own head (the same line unless the quiz
      finished with NewLine). */
  datatype QuizRun = QuizRun(outcome: QuizOutcome, head: Head, rest: seq<Key>, quizzed: Head)

  /** After one blank: go on with the next one, or the quiz is over. */
  datatype Turn = Next(head: Head, rest: seq<Key>, right: bool) | Over(run: QuizRun)

  /** line.NewLine(), then the quiz ends with the given outcome; the quizzed line is
      left at its head. */
  function Finish(live: bool, h: Head, width: int, keys: seq<Key>, outcome: QuizOutcome): (run: QuizRun)
    requires h.Valid() && width > 0
    ensures run.head.Valid()
  {
    var nl := NewLineEffect(live, h, 1, width);
    if nl.outcome.Fail? then QuizRun(Crashed(nl.outcome.error), nl.head, keys, nl.head)
    else QuizRun(outcome, nl.head, keys, Moved(h, Int32Max))
  }

  /** One blank: read its span, then rewrite the span with the answer when it
      matches the word ignoring case, and with the word otherwise. */
  function Ask(live: bool, h: Head, width: int, b: BlankView, keys: seq<Key>, fb: Feedback): (t: Turn)
    requires h.Valid() && width > 0
    ensures t.Next? ==> t.head.Valid()
    ensures t.Over? ==> t.run.head.Valid() && !t.run.outcome.Scored?
  {
    var read := SpanRead(QuizOptions, live, h, b.start, b.width, keys);
    match read.outcome
    case Waiting => Over(QuizRun(Stalled, read.head, read.rest, read.head))
    case Raised(f) => Over(QuizRun(Crashed(f), read.head, read.rest, read.head))
    case Escaped => Over(Finish(live, read.head, width, read.rest, Abandoned))
    case Submitted(answer) =>
      var right := EqualsIgnoreCase(answer, b.word);
      var shown := if right then answer else b.word;
      var style := if right then fb.right else fb.wrong;
      var w := SpanWriteEffect(live, read.head, b.start, b.width, shown, Some(style));
      if w.outcome.Fail? then Over(QuizRun(Crashed(w.outcome.error), w.head, read.rest, w.head))
      else Next(w.head, read.rest, right)
  }

  /** QuizBlanks from the blanks still to ask, with the running tally. */
  function Quiz(live: bool, h: Head, width: int, bs: seq<BlankView>, keys: seq<Key>, fb: Feedback, score: int, total: int): (run: QuizRun)
    requires h.Valid() && width > 0
    ensures run.head.Valid()
    decreases |bs|
  {
    if bs == [] then Finish(live, h, width, keys, Scored(ScoreResult(score, total)))
    else match Ask(live, h, width, bs[0], keys, fb)
      case Over(run) => run
      case Next(next, rest, right) =>
        Quiz(live, next, width, bs[1..], rest, fb, if right then score + 1 else score, total + 1)
  }

  function Views(blanks: seq<Blank>): (r: seq<BlankView>)
    ensures |r| == |blanks|
    ensures forall k :: 0 <= k < |blanks| ==>
      r[k] == BlankView(blanks[k].word, blanks[k].span.start, blanks[k].span.width)
  {
    if blanks == [] then []
    else [BlankView(blanks[0].word, blanks[0].span.start, blanks[0].span.width)] + Views(blanks[1..])
  }

  /** A finished quiz counts every blank once, and at most each blank is right. */
  lemma {:induction false} QuizTally(live: bool, h: Head, width: int, bs: seq<BlankView>, keys: seq<Key>, fb: Feedback, score: int, total: int)
    requires h.Valid() && width > 0
    ensures var run := Quiz(live, h, width, bs, keys, fb, score, total);
      run.outcome.Scored? ==>
        && run.outcome.result.total == total + |bs|
        && score <= run.outcome.result.score <= score + |bs|
    decreases |bs|
  {
    if bs != [] {
      var t := Ask(live, h, width, bs[0], keys, fb);
      if t.Next? {
        var next := if t.right then score + 1 else score;
        var run := Quiz(live, t.head, width, bs[1..], t.rest, fb, next, total + 1);
        QuizNext(live, h, width, bs, keys, fb, score, total);
        QuizTally(live, t.head, width, bs[1..], t.rest, fb, next, total + 1);
        assert run.outcome.Scored? ==> score <= next <= run.outcome.result.score <= next + |bs| - 1;
      } else {
        assert Quiz(live, h, width, bs, keys, fb, score, total) == t.run;
      }
    }
  }

  /** The number of answers equal to their word, ignoring case. */
  function Correct(answers: seq<string>, bs: seq<BlankView>): (n: nat)
    requires |answers| == |bs|
    ensures n <= |bs|
  {
    if bs == [] then 0
    else (if EqualsIgnoreCase(answers[0], bs[0].word) then 1 else 0) + Correct(answers[1..], bs[1..])
  }

  /** The keys that answer a span of the given width with w: its characters, then
      Enter unless they fill the span. */
  function Answered(w: string, width: int): seq<Key> {
    Typed(w) + (if |w| < width then [Key(Enter, '\r', false)] else [])
  }

  /** The keys that give each answer to its blank in turn. */
  function AnswerKeys(answers: seq<string>, bs: seq<BlankView>): seq<Key>
    requires |answers| == |bs|
  {
    if bs == [] then [] else Answered(answers[0], bs[0].width) + AnswerKeys(answers[1..], bs[1..])
  }

  /** A blank whose span lies on the written line sits where the quiz can reach it. */
  predicate Reachable(h: Head, b: BlankView) {
    0 <= b.start <= h.length
  }

  /** Each answer consists of typeable characters and is no wider than its span. */
  predicate Fits(answers: seq<string>, bs: seq<BlankView>) {
    && |answers| == |bs|
    && forall k :: 0 <= k < |bs| ==>
         && |answers[k]| <= bs[k].width && bs[k].width >= 1
         && forall c :: 0 <= c < |answers[k]| ==> Typeable(QuizOptions, answers[k][c])
  }

  /** Answering a span with w submits w; the span is then rewritten
      with the answer if it matches the word ignoring case, and with the word,
      in the wrong-answer style, otherwise. */
  lemma AskTyped(h: Head, width: int, b: BlankView, w: string, more: seq<Key>, fb: Feedback)
    requires h.Valid() && width > 0 && Reachable(h, b) && !HasControl(b.word)
    requires |w| <= b.width && 1 <= b.width <= Int32Max
    requires forall c :: 0 <= c < |w| ==> Typeable(QuizOptions, w[c])
    ensures var t := Ask(true, h, width, b, Answered(w, b.width) + more, fb);
      var right := EqualsIgnoreCase(w, b.word);
      var shown := if right then w else b.word;
      var at := h.pos + (b.start - h.offset);
      && t.Next? && t.rest == more && t.right == right && t.head.length >= h.length
      && forall p :: at <= p < at + Min(|shown|, b.width) ==>
           p in t.head.screen &&
           t.head.screen[p] == Cell(shown[p - at], Some(if right then fb.right else fb.wrong))
  {
    SpanReadAnswer(h, b.start, b.width, w, more);
    var mid := Written(Moved(h, b.start - h.offset), w, None);
    AskAfterRead(h, width, b, Answered(w, b.width) + more, fb, w, mid, more);
    TypedHasNoControl(w);
    var right := EqualsIgnoreCase(w, b.word);
    if right {
      RewriteShows(h, b, w, w, Some(fb.right));
    } else {
      RewriteShows(h, b, w, b.word, Some(fb.wrong));
    }
  }

  /** AskTyped without the screen: the turn goes on, with the keys after the answer. */
  lemma AskTypedTurn(h: Head, width: int, b: BlankView, w: string, more: seq<Key>, fb: Feedback)
    requires h.Valid() && width > 0 && Reachable(h, b) && !HasControl(b.word)
    requires |w| <= b.width && 1 <= b.width <= Int32Max
    requires forall c :: 0 <= c < |w| ==> Typeable(QuizOptions, w[c])
    ensures var t := Ask(true, h, width, b, Answered(w, b.width) + more, fb);
      && t.Next? && t.rest == more && t.right == EqualsIgnoreCase(w, b.word) && t.head.length >= h.length
  {
    AskTyped(h, width, b, w, more, fb);
  }

  /** The rewrite after a typed answer w: it passes, keeps the line at least as long,
      and shows shown from the span start on, over the echoed answer. */
  lemma RewriteShows(h: Head, b: BlankView, w: string, shown: string, style: Option<AnsiiStyle>)
    requires h.Valid() && Reachable(h, b) && !HasControl(w) && !HasControl(shown)
    ensures var mid := Written(Moved(h, b.start - h.offset), w, None);
      var e := SpanWriteEffect(true, mid, b.start, b.width, shown, style);
      var at := h.pos + (b.start - h.offset);
      && e.outcome == Pass && e.head.length >= h.length
      && forall p :: at <= p < at + Min(|shown|, b.width) ==>
           p in e.head.screen && e.head.screen[p] == Cell(shown[p - at], style)
  {
    var mid := Written(Moved(h, b.start - h.offset), w, None);
    MoveLaw(h, b.start - h.offset);
    assert mid.length >= h.length && mid.length >= b.start;
    SpanWriteShows(mid, b.start, b.width, shown, style, h.pos + (b.start - h.offset));
  }

  lemma TypedHasNoControl(w: string)
    requires forall c :: 0 <= c < |w| ==> Typeable(QuizOptions, w[c])
    ensures !HasControl(w)
  {
  }

  /** Once the read has submitted an answer, Ask rewrites the span. */
  lemma AskAfterRead(h: Head, width: int, b: BlankView, keys: seq<Key>, fb: Feedback, answer: string, mid: Head, rest: seq<Key>)
    requires h.Valid() && width > 0 && mid.Valid()
    requires SpanRead(QuizOptions, true, h, b.start, b.width, keys) == ReadRun(Submitted(answer), mid, rest)
    ensures var right := EqualsIgnoreCase(answer, b.word);
      var w := SpanWriteEffect(true, mid, b.start, b.width, if right then answer else b.word,
                               Some(if right then fb.right else fb.wrong));
      Ask(true, h, width, b, keys, fb) ==
        if w.outcome.Fail? then Over(QuizRun(Crashed(w.outcome.error), w.head, rest, w.head))
        else Next(w.head, rest, right)
  {
  }

  /** Under the quiz options, the keys Answered(w, width) submit w from the span start. */
  lemma SpanReadAnswer(h: Head, start: int, width: int, w: string, more: seq<Key>)
    requires h.Valid() && 0 <= start <= h.length && 1 <= width <= Int32Max && |w| <= width
    requires forall c :: 0 <= c < |w| ==> Typeable(QuizOptions, w[c])
    ensures SpanRead(QuizOptions, true, h, start, width, Answered(w, width) + more)
      == ReadRun(Submitted(w), Written(Moved(h, start - h.offset), w, None), more)
  {
    if |w| == width {
      assert Answered(w, width) == Typed(w);
      SpanReadTyped(QuizOptions, h, start, w, more);
    } else {
      SpanReadEntered(QuizOptions, h, start, width, w, more);
    }
  }

  /** A blank that is answered hands the rest of the quiz to the next blank. */
  lemma QuizNext(live: bool, h: Head, width: int, bs: seq<BlankView>, keys: seq<Key>, fb: Feedback, score: int, total: int)
    requires h.Valid() && width > 0 && bs != []
    requires Ask(live, h, width, bs[0], keys, fb).Next?
    ensures var t := Ask(live, h, width, bs[0], keys, fb);
      Quiz(live, h, width, bs, keys, fb, score, total)
        == Quiz(live, t.head, width, bs[1..], t.rest, fb, if t.right then score + 1 else score, total + 1)
  {
  }

  lemma AnswerKeysCons(answers: seq<string>, bs: seq<BlankView>, more: seq<Key>)
    requires |answers| == |bs| && bs != []
    ensures AnswerKeys(answers, bs) + more
      == Answered(answers[0], bs[0].width) + (AnswerKeys(answers[1..], bs[1..]) + more)
  {
    var head, tail := Answered(answers[0], bs[0].width), AnswerKeys(answers[1..], bs[1..]);
    assert AnswerKeys(answers, bs) == head + tail;
    KeysAssociate(head, tail, more);
  }

  lemma KeysAssociate(a: seq<Key>, b: seq<Key>, c: seq<Key>)
    ensures (a + b) + c == a + (b + c)
  {
  }

  /** The first blank of QuizTyped: its answer is taken, and the quiz goes on with
      the next blank and the keys of the later answers. */
  lemma AnswerTurn(h: Head, width: int, bs: seq<BlankView>, answers: seq<string>, more: seq<Key>, fb: Feedback, score: int, total: int)
    requires h.Valid() && width > 0 && bs != [] && Fits(answers, bs)
    requires Reachable(h, bs[0]) && bs[0].width <= Int32Max && !HasControl(bs[0].word)
    ensures var t := Ask(true, h, width, bs[0], AnswerKeys(answers, bs) + more, fb);
      var right := EqualsIgnoreCase(answers[0], bs[0].word);
      && t.Next? && t.right == right && t.head.length >= h.length
      && Quiz(true, h, width, bs, AnswerKeys(answers, bs) + more, fb, score, total)
         == Quiz(true, t.head, width, bs[1..], AnswerKeys(answers[1..], bs[1..]) + more, fb,
                 if right then score + 1 else score, total + 1)
  {
    var w := answers[0];
    var keys := AnswerKeys(answers, bs) + more;
    var later := AnswerKeys(answers[1..], bs[1..]) + more;
    AnswerKeysCons(answers, bs, more);
    assert |w| <= bs[0].width && forall c :: 0 <= c < |w| ==> Typeable(QuizOptions, w[c]);
    AskTypedTurn(h, width, bs[0], w, later, fb);
    QuizNext(true, h, width, bs, keys, fb, score, total);
  }

  /** What QuizTyped asks of its blanks and answers holds again for the rest of them,
      on any head whose line is at least as long. */
  lemma TypedTail(h: Head, h2: Head, bs: seq<BlankView>, answers: seq<string>)
    requires bs != [] && Fits(answers, bs) && h2.length >= h.length
    requires forall k :: 0 <= k < |bs| ==> Reachable(h, bs[k])
    requires forall k :: 0 <= k < |bs| ==> bs[k].width <= Int32Max && !HasControl(bs[k].word)
    ensures Fits(answers[1..], bs[1..])
    ensures forall k :: 0 <= k < |bs[1..]| ==> Reachable(h2, bs[1..][k])
    ensures forall k :: 0 <= k < |bs[1..]| ==> bs[1..][k].width <= Int32Max && !HasControl(bs[1..][k].word)
  {
    forall k | 0 <= k < |bs[1..]| ensures |answers[1..][k]| <= bs[1..][k].width && bs[1..][k].width >= 1 {
      assert answers[1..][k] == answers[k + 1] && bs[1..][k] == bs[k + 1];
    }
    forall k, c | 0 <= k < |bs[1..]| && 0 <= c < |answers[1..][k]|
      ensures Typeable(QuizOptions, answers[1..][k][c])
    {
      assert answers[1..][k] == answers[k + 1] && bs[1..][k] == bs[k + 1];
    }
    forall k | 0 <= k < |bs[1..]| ensures Reachable(h2, bs[1..][k]) {
      assert bs[1..][k] == bs[k + 1];
    }
  }

  /** Answering every blank with a typed answer no wider than its span, on a live
      line, ends the quiz with
      Total the number of blanks and Score the number of answers equal to their
      word ignoring case. */
  lemma {:induction false} QuizTyped(h: Head, width: int, bs: seq<BlankView>, answers: seq<string>, more: seq<Key>, fb: Feedback, score: int, total: int)
    requires h.Valid() && width > 0
    requires forall k :: 0 <= k < |bs| ==> Reachable(h, bs[k])
    requires Fits(answers, bs)
    requires forall k :: 0 <= k < |bs| ==> bs[k].width <= Int32Max && !HasControl(bs[k].word)
    ensures var run := Quiz(true, h, width, bs, AnswerKeys(answers, bs) + more, fb, score, total);
      && run.outcome == Scored(ScoreResult(score + Correct(answers, bs), total + |bs|))
      && run.rest == more
    decreases |bs|
  {
    if bs == [] {
      assert AnswerKeys(answers, bs) + more == more;
      assert NewLineEffect(true, h, 1, width).outcome == Pass;
    } else {
      var keys := AnswerKeys(answers, bs) + more;
      AnswerTurn(h, width, bs, answers, more, fb, score, total);
      var t := Ask(true, h, width, bs[0], keys, fb);
      var right := EqualsIgnoreCase(answers[0], bs[0].word);
      var next := if right then score + 1 else score;
      var run := Quiz(true, t.head, width, bs[1..], AnswerKeys(answers[1..], bs[1..]) + more, fb, next, total + 1);
      TypedTail(h, t.head, bs, answers);
      QuizTyped(t.head, width, bs[1..], answers[1..], more, fb, next, total + 1);
      assert Correct(answers, bs) == (if right then 1 else 0) + Correct(answers[1..], bs[1..]);
      assert run.outcome == Scored(ScoreResult(score + Correct(answers, bs), total + |bs|));
    }
  }

  /** Escape on the first blank ends the quiz on a fresh line, with no score. */
  lemma QuizEscape(h: Head, width: int, bs: seq<BlankView>, keys: seq<Key>, fb: Feedback, score: int, total: int)
    requires h.Valid() && width > 0 && bs != []
    requires keys != [] && keys[0].kind == Escape
    ensures var run := Quiz(true, h, width, bs, keys, fb, score, total);
      run.outcome == Abandoned && run.head.offset == 0 && run.head.length == 0 && run.rest == keys[1..]
  {
  }

  /** NewLine at the end of a quiz parks the quizzed line at its end, or int.MaxValue
      further on, and starts an empty line over the same screen. */
  lemma FinishLeavesLine(live: bool, h: Head, width: int, keys: seq<Key>, outcome: QuizOutcome)
    requires h.Valid() && width > 0 && (outcome.Scored? || outcome.Abandoned?)
    ensures var run := Finish(live, h, width, keys, outcome);
      if run.outcome == outcome then
        && run.head.offset == 0 && run.head.length == 0 && run.quizzed.screen == run.head.screen
        && run.quizzed.length == h.length
        && (run.quizzed.offset == h.length || run.quizzed.offset >= Int32Max)
      else run.quizzed == run.head == h
  {
    MoveLaw(h, Int32Max);
  }

  /** A quiz that stops on its line leaves that line in use; one that finishes
      leaves the quizzed line parked at its end, or int.MaxValue further on, below
      an empty new line over the same screen. */
  lemma {:induction false} QuizLeavesLine(live: bool, h: Head, width: int, bs: seq<BlankView>, keys: seq<Key>, fb: Feedback, score: int, total: int)
    requires h.Valid() && width > 0
    ensures var run := Quiz(live, h, width, bs, keys, fb, score, total);
      if run.outcome.Scored? || run.outcome.Abandoned? then
        && run.head.offset == 0 && run.head.length == 0 && run.quizzed.screen == run.head.screen
        && (run.quizzed.offset == run.quizzed.length || run.quizzed.offset >= Int32Max)
      else run.quizzed == run.head
    decreases |bs|
  {
    if bs == [] {
      FinishLeavesLine(live, h, width, keys, Scored(ScoreResult(score, total)));
    } else {
      var t := Ask(live, h, width, bs[0], keys, fb);
      if t.Next? {
        QuizNext(live, h, width, bs, keys, fb, score, total);
        QuizLeavesLine(live, t.head, width, bs[1..], t.rest, fb, if t.right then score + 1 else score, total + 1);
      } else {
        var read := SpanRead(QuizOptions, live, h, bs[0].start, bs[0].width, keys);
        if read.outcome.Escaped? {
          FinishLeavesLine(live, read.head, width, read.rest, Abandoned);
        }
      }
    }
  }

  /** One round of Quiz, read off its first blank's read. */
  lemma QuizRound(live: bool, h: Head, width: int, bs: seq<BlankView>, keys: seq<Key>, fb: Feedback, score: int, total: int)
    requires h.Valid() && width > 0 && bs != []
    ensures var read := SpanRead(QuizOptions, live, h, bs[0].start, bs[0].width, keys);
      var run := Quiz(live, h, width, bs, keys, fb, score, total);
      match read.outcome
      case Waiting => run == QuizRun(Stalled, read.head, read.rest, read.head)
      case Raised(f) => run == QuizRun(Crashed(f), read.head, read.rest, read.head)
      case Escaped => run == Finish(live, read.head, width, read.rest, Abandoned)
      case Submitted(answer) =>
        var right := EqualsIgnoreCase(answer, bs[0].word);
        var w := SpanWriteEffect(live, read.head, bs[0].start, bs[0].width, if right then answer else bs[0].word,
                                 Some(if right then fb.right else fb.wrong));
        run == if w.outcome.Fail? then QuizRun(Crashed(w.outcome.error), w.head, read.rest, w.head)
               else Quiz(live, w.head, width, bs[1..], read.rest, fb, if right then score + 1 else score, total + 1)
  {
  }

  /** line.QuizBlanks(blanks), with every blank's span on this line. */
  method QuizBlanks(line: Line, blanks: seq<Blank>, fb: Feedback, keys: seq<Key>) returns (outcome: QuizOutcome, rest: seq<Key>)
    requires line.Valid() && line.term.Valid()
    requires forall k :: 0 <= k < |blanks| ==> blanks[k].span.line == line
    modifies line, line.term
    ensures line.term.Valid()
    ensures var run := Quiz(old(line.IsCurrent()), old(line.View()), line.term.width, Views(blanks), keys, fb, 0, 0);
      && outcome == run.outcome && rest == run.rest
      && line.offset == run.quizzed.offset && line.length == run.quizzed.length
      && (if outcome.Scored? || outcome.Abandoned?
          then fresh(line.term.current) && line.term.current.View() == run.head
          else line.term.current == old(line.term.current) && line.View() == run.head)
  {
    ghost var live := line.IsCurrent();
    ghost var h := line.View();
    ghost var views := Views(blanks);
    var total := 0;
    var correct := 0;
    var i := 0;
    rest := keys;
    while i < |blanks|
      invariant 0 <= i <= |blanks| && total == i
      invariant line.Valid() && line.term.Valid() && line.IsCurrent() == live
      invariant line.term.current == old(line.term.current)
      invariant Quiz(live, h, line.term.width, views, keys, fb, 0, 0)
        == Quiz(live, line.View(), line.term.width, views[i..], rest, fb, correct, total)
      decreases |blanks| - i
    {
      var blank := blanks[i];
      assert views[i..][0] == BlankView(blank.word, blank.span.start, blank.span.width);
      assert views[i..][1..] == views[i + 1..];
      QuizRound(live, line.View(), line.term.width, views[i..], rest, fb, correct, total);
      total := total + 1;
      var answer;
      answer, rest := blank.span.Read(QuizOptions, rest);
      match answer {
        case Waiting =>
          return Stalled, rest;
        case Raised(f) =>
          return Crashed(f), rest;
        case Escaped =>
          var next, r := line.NewLine(1);
          if r.Fail? {
            return Crashed(r.error), rest;
          }
          return Abandoned, rest;
        case Submitted(text) =>
          var r;
          if EqualsIgnoreCase(text, blank.word) {
            correct := correct + 1;
            r := blank.span.Write(text, Some(fb.right));
          } else {
            r := blank.span.Write(blank.word, Some(fb.wrong));
          }
          if r.Fail? {
            return Crashed(r.error), rest;
          }
      }
      i := i + 1;
    }
    var next, r := line.NewLine(1);
    if r.Fail? {
      return Crashed(r.error), rest;
    }
    return Scored(ScoreResult(correct, total)), rest;
  }
}
