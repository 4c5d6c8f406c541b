/** Line.Read as a key-driven state machine over values: one Step per key, and
    ReadLoop for a sequence of keys. The Line.Read method follows ReadLoop. */
module Reading {
  import opened Wrappers
  import opened Text
  import opened Faults
  import opened Cursor

  /** The ConsoleKey values Read distinguishes; every other key is Other. */
  datatype KeyKind = Escape | Tab | Enter | Backspace | Other

  /** A ConsoleKeyInfo: the key, its character and whether Control was held. */
  datatype Key = Key(kind: KeyKind, ch: char, ctrl: bool)

  datatype ReadOptions = ReadOptions(
    minLength: int,
    maxLength: int,
    eraseChar: char,
    autoSubmit: bool,
    allowEscape: bool,
    allowSpace: bool)

  /** The record's initialisers. */
  const DefaultOptions := ReadOptions(0, Int32Max, ' ', false, false, false)

  /** What a read ends with. Waiting stands for a read still blocked in ReadKey
      when the given keys run out. */
  datatype ReadOutcome = Submitted(text: string) | Escaped | Raised(fault: Fault) | Waiting

  datatype ReadStep = Continue(head: Head, buffer: string) | Stop(outcome: ReadOutcome, head: Head)

  datatype ReadRun = ReadRun(outcome: ReadOutcome, head: Head, rest: seq<Key>)

  /** The default branch types the key's character, rather than skipping the key. */
  predicate Typeable(o: ReadOptions, c: char) {
    !IsControl(c) && (o.allowSpace || !IsWhiteSpace(c))
  }

  /** One pass of Read's loop body for the key k, with buffer b. */
  function Step(o: ReadOptions, live: bool, h: Head, b: string, k: Key): (r: ReadStep)
    requires h.Valid()
    ensures r.head.Valid()
  {
    match k.kind
    case Escape => Stop(Escaped, h)
    case Tab | Enter =>
      if |b| >= o.minLength then Stop(Submitted(b), h) else Continue(h, b)
    case Backspace =>
      if |b| == 0 then Continue(h, b)
      else
        var e := EraseEffect(live, h, if k.ctrl then |b| else 1, o.eraseChar);
        if e.outcome.Fail? then Stop(Raised(e.outcome.error), e.head)
        else Continue(e.head, if k.ctrl then "" else b[..|b| - 1])
    case Other =>
      if k.ctrl || !Typeable(o, k.ch) then Continue(h, b)
      else if |b| < o.maxLength then
        var e := WriteEffect(live, h, [k.ch], None);
        if e.outcome.Fail? then Stop(Raised(e.outcome.error), e.head)
        else if |b| + 1 >= o.maxLength && o.autoSubmit then Stop(Submitted(b + [k.ch]), e.head)
        else Continue(e.head, b + [k.ch])
      else if o.autoSubmit then Stop(Submitted(b), h)
      else Continue(h, b)
  }

  /** Read's loop from buffer b over the keys, up to the key that ends it. */
  function ReadLoop(o: ReadOptions, live: bool, h: Head, b: string, keys: seq<Key>): (r: ReadRun)
    requires h.Valid()
    ensures r.head.Valid()
    ensures |r.rest| <= |keys|
    decreases |keys|
  {
    if keys == [] then ReadRun(Waiting, h, [])
    else match Step(o, live, h, b, keys[0])
      case Stop(outcome, next) => ReadRun(outcome, next, keys[1..])
      case Continue(next, buffer) => ReadLoop(o, live, next, buffer, keys[1..])
  }

  /** Span.Read: seek to the span start, then read at most the span's width. */
  function SpanRead(o: ReadOptions, live: bool, h: Head, start: int, width: nat, keys: seq<Key>): (r: ReadRun)
    requires h.Valid()
    ensures r.head.Valid()
  {
    var sk := Sought(live, h, start);
    if sk.outcome.Fail? then ReadRun(Raised(sk.outcome.error), sk.head, keys)
    else ReadLoop(o.(maxLength := Min(width, o.maxLength)), live, sk.head, "", keys)
  }

  /** The keys that type the characters of w. */
  function Typed(w: string): (keys: seq<Key>)
    ensures |keys| == |w|
    ensures forall k :: 0 <= k < |w| ==> keys[k] == Key(Other, w[k], false)
  {
    if w == [] then [] else [Key(Other, w[0], false)] + Typed(w[1..])
  }

  // ---------------------------------------------------------------------------
  // Laws of Read

  /** What a buffer may hold: typed characters only, MaxLength at most. */
  predicate Admissible(o: ReadOptions, b: string) {
    && |b| <= Max(0, o.maxLength)
    && forall k :: 0 <= k < |b| ==> Typeable(o, b[k])
  }

  /** A text a read may hand back: admissible, and it met MinLength or filled the
      buffer under AutoSubmit. */
  predicate Acceptable(o: ReadOptions, t: string) {
    && Admissible(o, t)
    && (|t| >= o.minLength || (o.autoSubmit && |t| >= o.maxLength))
  }

  lemma StepKeepsAdmissible(o: ReadOptions, live: bool, h: Head, b: string, k: Key)
    requires h.Valid() && Admissible(o, b)
    ensures match Step(o, live, h, b, k)
      case Continue(_, next) => Admissible(o, next)
      case Stop(Submitted(t), _) => Acceptable(o, t)
      case Stop(_, _) => true
  {
    if k.kind == Backspace && |b| > 0 && !k.ctrl {
      var t := b[..|b| - 1];
      forall i | 0 <= i < |t| ensures Typeable(o, t[i]) {
        assert t[i] == b[i];
      }
    } else if k.kind == Other && !k.ctrl && Typeable(o, k.ch) && |b| < o.maxLength {
      var t := b + [k.ch];
      forall i | 0 <= i < |t| ensures Typeable(o, t[i]) {
        if i < |b| { assert t[i] == b[i]; }
      }
    }
  }

  /** Whatever Read submits was typed, fits MaxLength, and either reached MinLength
      or filled the buffer under AutoSubmit. */
  lemma {:induction false} ReadSubmitsAcceptable(o: ReadOptions, live: bool, h: Head, b: string, keys: seq<Key>)
    requires h.Valid() && Admissible(o, b)
    ensures ReadLoop(o, live, h, b, keys).outcome.Submitted? ==>
      Acceptable(o, ReadLoop(o, live, h, b, keys).outcome.text)
    decreases |keys|
  {
    if keys != [] {
      StepKeepsAdmissible(o, live, h, b, keys[0]);
      match Step(o, live, h, b, keys[0])
      case Stop(_, _) =>
      case Continue(next, buffer) => ReadSubmitsAcceptable(o, live, next, buffer, keys[1..]);
    }
  }

  /** A fresh read never submits more than MaxLength characters. */
  lemma ReadBounded(o: ReadOptions, live: bool, h: Head, keys: seq<Key>)
    requires h.Valid()
    ensures var r := ReadLoop(o, live, h, "", keys);
      r.outcome.Submitted? ==> |r.outcome.text| <= Max(0, o.maxLength)
  {
    ReadSubmitsAcceptable(o, live, h, "", keys);
  }

  /** Typing one character below MaxLength writes it and appends it. */
  lemma TypeOne(o: ReadOptions, h: Head, b: string, c: char)
    requires h.Valid() && Typeable(o, c) && |b| + 1 < o.maxLength
    ensures Step(o, true, h, b, Key(Other, c, false)) == Continue(Written(h, [c], None), b + [c])
  {
    assert !HasControl([c]);
  }

  /** Typing w below MaxLength writes w to the line and appends it to the buffer. */
  lemma {:induction false} TypingWrites(o: ReadOptions, h: Head, b: string, w: string, more: seq<Key>)
    requires h.Valid()
    requires forall k :: 0 <= k < |w| ==> Typeable(o, w[k])
    requires |b| + |w| < o.maxLength
    ensures ReadLoop(o, true, h, b, Typed(w) + more) == ReadLoop(o, true, Written(h, w, None), b + w, more)
    decreases |w|
  {
    if w == [] {
      assert Typed(w) + more == more;
      assert b + w == b;
      PaintNothing(h.screen, h.pos, None);
    } else {
      var c := w[0];
      var keys := Typed(w) + more;
      assert keys[0] == Key(Other, c, false);
      assert keys[1..] == Typed(w[1..]) + more;
      TypeOne(o, h, b, c);
      var h1 := Written(h, [c], None);
      assert ReadLoop(o, true, h, b, keys) == ReadLoop(o, true, h1, b + [c], keys[1..]);
      var tail := w[1..];
      assert forall k :: 0 <= k < |tail| ==> Typeable(o, tail[k]) by {
        forall k | 0 <= k < |tail| ensures Typeable(o, tail[k]) { assert tail[k] == w[k + 1]; }
      }
      TypingWrites(o, h1, b + [c], tail, more);
      WriteFirst(h, w);
      AppendFirst(b, w);
    }
  }

  lemma WriteFirst(h: Head, w: string)
    requires h.Valid() && |w| >= 1
    ensures Written(Written(h, [w[0]], None), w[1..], None) == Written(h, w, None)
  {
    assert [w[0]] + w[1..] == w;
    WriteConcat(h, [w[0]], w[1..], None);
  }

  lemma WriteLast(h: Head, w: string)
    requires h.Valid() && |w| >= 1
    ensures Written(Written(h, w[..|w| - 1], None), [w[|w| - 1]], None) == Written(h, w, None)
  {
    assert w[..|w| - 1] + [w[|w| - 1]] == w;
    WriteConcat(h, w[..|w| - 1], [w[|w| - 1]], None);
  }

  lemma AppendLast(b: string, w: string)
    requires |w| >= 1
    ensures (b + w[..|w| - 1]) + [w[|w| - 1]] == b + w
  {
    assert w[..|w| - 1] + [w[|w| - 1]] == w;
  }

  lemma AppendFirst(b: string, w: string)
    requires |w| >= 1
    ensures (b + [w[0]]) + w[1..] == b + w
  {
    assert [w[0]] + w[1..] == w;
  }

  /** Typing w below MaxLength and then Enter submits the buffer with w appended,
      once it has reached MinLength. */
  lemma EnterSubmits(o: ReadOptions, h: Head, b: string, w: string, more: seq<Key>)
    requires h.Valid()
    requires forall k :: 0 <= k < |w| ==> Typeable(o, w[k])
    requires o.minLength <= |b| + |w| < o.maxLength
    ensures ReadLoop(o, true, h, b, Typed(w) + [Key(Enter, '\r', false)] + more)
      == ReadRun(Submitted(b + w), Written(h, w, None), more)
  {
    var last := [Key(Enter, '\r', false)] + more;
    assert Typed(w) + [Key(Enter, '\r', false)] + more == Typed(w) + last;
    TypingWrites(o, h, b, w, last);
    assert last[0].kind == Enter && last[1..] == more;
  }

  /** Typing the characters that fill the buffer under AutoSubmit submits them
      at once, right after the last one is written. */
  lemma AutoSubmitOnFull(o: ReadOptions, h: Head, b: string, w: string, more: seq<Key>)
    requires h.Valid() && o.autoSubmit && |w| >= 1
    requires forall k :: 0 <= k < |w| ==> Typeable(o, w[k])
    requires |b| + |w| == o.maxLength
    ensures ReadLoop(o, true, h, b, Typed(w) + more) == ReadRun(Submitted(b + w), Written(h, w, None), more)
  {
    var init := w[..|w| - 1];
    var c := w[|w| - 1];
    assert init + [c] == w;
    var last := [Key(Other, c, false)] + more;
    assert Typed(w) + more == Typed(init) + last by {
      assert Typed(w) == Typed(init) + [Key(Other, c, false)];
    }
    TypingWrites(o, h, b, init, last);
    var h1 := Written(h, init, None);
    var b1 := b + init;
    assert last[0] == Key(Other, c, false) && last[1..] == more;
    assert !HasControl([c]);
    assert Step(o, true, h1, b1, last[0]) == Stop(Submitted(b1 + [c]), Written(h1, [c], None));
    assert ReadLoop(o, true, h1, b1, last) == ReadRun(Submitted(b1 + [c]), Written(h1, [c], None), more);
    WriteLast(h, w);
    AppendLast(b, w);
  }

  /** Typing a character and then Backspace restores the buffer and the line,
      leaving the erase character where the typed one was. */
  lemma TypeThenBackspace(o: ReadOptions, h: Head, b: string, c: char, ctrl: bool)
    requires h.Valid() && h.offset == h.length
    requires Typeable(o, c) && !IsControl(o.eraseChar) && |b| + 1 < o.maxLength
    ensures var typed := Step(o, true, h, b, Key(Other, c, false));
      && typed == Continue(Written(h, [c], None), b + [c])
      && Step(o, true, typed.head, typed.buffer, Key(Backspace, '\U{8}', false))
         == Continue(h.(screen := Paint(h.screen, h.pos, [o.eraseChar], None)), b)
  {
    assert !HasControl([c]);
    EraseUndoesWrite(h, [c], None, o.eraseChar);
    assert Repeat(o.eraseChar, 1) == [o.eraseChar];
    assert (b + [c])[..|b|] == b;
  }

  /** Ctrl+Backspace empties the buffer and steps the line back over as much of it
      as lies before the cursor, overprinting that with the erase character; the
      line shrinks to the cursor only when the erase started at its frontier. */
  lemma CtrlBackspaceClears(o: ReadOptions, h: Head, b: string)
    requires h.Valid() && |b| >= 1 && !IsControl(o.eraseChar)
    ensures var r := Step(o, true, h, b, Key(Backspace, '\U{8}', true));
      var k := Min(|b|, h.offset);
      && r.Continue? && r.buffer == ""
      && r.head.offset == h.offset - k && r.head.pos == h.pos - k
      && r.head.length == (if k > 0 && h.offset == h.length then h.offset - k else h.length)
      && r.head.screen == (if k == 0 then h.screen else Paint(h.screen, h.pos - k, Repeat(o.eraseChar, k), None))
  {
    EraseLaw(h, |b|, o.eraseChar);
  }

  /** Escape ends the read with no text, whatever the buffer and options; keys
      that Read ignores leave everything as it was. */
  lemma EscapeAndIgnoredKeys(o: ReadOptions, live: bool, h: Head, b: string, k: Key)
    requires h.Valid()
    ensures k.kind == Escape ==> Step(o, live, h, b, k) == Stop(Escaped, h)
    ensures k.kind == Other && (k.ctrl || IsControl(k.ch) || (IsWhiteSpace(k.ch) && !o.allowSpace))
      ==> Step(o, live, h, b, k) == Continue(h, b)
    ensures (k.kind == Tab || k.kind == Enter) ==>
      Step(o, live, h, b, k) == (if |b| >= o.minLength then Stop(Submitted(b), h) else Continue(h, b))
    ensures k.kind == Backspace && b == "" ==> Step(o, live, h, b, k) == Continue(h, b)
  {
  }

  /** A read on an expired line never moves the cursor or changes the screen. */
  lemma {:induction false} ExpiredReadIsInert(o: ReadOptions, h: Head, b: string, keys: seq<Key>)
    requires h.Valid()
    ensures ReadLoop(o, false, h, b, keys).head == h
    ensures ReadLoop(o, false, h, b, keys).outcome.Raised? ==>
      ReadLoop(o, false, h, b, keys).outcome.fault == Expired
    decreases |keys|
  {
    if keys != [] {
      match Step(o, false, h, b, keys[0])
      case Stop(_, _) =>
      case Continue(next, buffer) => ExpiredReadIsInert(o, next, buffer, keys[1..]);
    }
  }

  /** A span read lets through no more characters than the span is wide. */
  lemma SpanReadBounded(o: ReadOptions, live: bool, h: Head, start: int, width: nat, keys: seq<Key>)
    requires h.Valid()
    ensures var r := SpanRead(o, live, h, start, width, keys);
      r.outcome.Submitted? ==> |r.outcome.text| <= width && |r.outcome.text| <= Max(0, o.maxLength)
  {
    var sk := Sought(live, h, start);
    if sk.outcome.Pass? {
      ReadBounded(o.(maxLength := Min(width, o.maxLength)), live, sk.head, keys);
    }
  }

  /** Typing a word that fills a span under AutoSubmit, on a live line whose span
      lies within what was written, submits exactly that word. */
  lemma SpanReadTyped(o: ReadOptions, h: Head, start: int, w: string, more: seq<Key>)
    requires h.Valid() && 0 <= start <= h.length
    requires o.autoSubmit && 1 <= |w| <= o.maxLength
    requires forall k :: 0 <= k < |w| ==> Typeable(o, w[k])
    ensures var r := SpanRead(o, true, h, start, |w|, Typed(w) + more);
      && r.outcome == Submitted(w)
      && r.rest == more
      && r.head == Written(Moved(h, start - h.offset), w, None)
  {
    SeekIdempotent(h, start);
    var sk := Sought(true, h, start);
    assert sk.head == Moved(h, start - h.offset);
    var o2 := o.(maxLength := Min(|w|, o.maxLength));
    assert o2.maxLength == |w|;
    assert "" + w == w;
    AutoSubmitOnFull(o2, sk.head, "", w, more);
  }

  /** Typing a word shorter than the span and then Enter, on a live line whose span
      lies within what was written, submits exactly that word. */
  lemma SpanReadEntered(o: ReadOptions, h: Head, start: int, width: nat, w: string, more: seq<Key>)
    requires h.Valid() && 0 <= start <= h.length
    requires o.minLength <= |w| && |w| < width && |w| < o.maxLength
    requires forall k :: 0 <= k < |w| ==> Typeable(o, w[k])
    ensures var r := SpanRead(o, true, h, start, width, Typed(w) + [Key(Enter, '\r', false)] + more);
      && r.outcome == Submitted(w)
      && r.rest == more
      && r.head == Written(Moved(h, start - h.offset), w, None)
  {
    SeekIdempotent(h, start);
    var sk := Sought(true, h, start);
    assert sk.head == Moved(h, start - h.offset);
    var o2 := o.(maxLength := Min(width, o.maxLength));
    assert "" + w == w;
    EnterSubmits(o2, sk.head, "", w, more);
  }
}
