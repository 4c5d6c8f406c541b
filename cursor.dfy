/** The arithmetic of one terminal line, as values: what Line.Write, Erase, Move,
    NewLine and Span.Seek/Write do to a line's Offset and Length and to the terminal
    cursor and screen. The Line and Span classes are proved to follow these functions. */
module Cursor {
  import opened Wrappers
  import opened Text
  import opened Faults
  import opened Styles

  /** What one terminal position shows: a character and the style it was written in. */
  datatype Cell = Cell(ch: char, style: Option<AnsiiStyle>)

  /** A line's Offset and Length together with the terminal it drives: the linear
      cursor position CursorTop * BufferWidth + CursorLeft and the screen contents. */
  datatype Head = Head(offset: int, length: int, pos: int, screen: map<int, Cell>)
  {
    /** The cursor never leaves the written part of the line. */
    predicate Valid() {
      0 <= offset <= length
    }
  }

  /** The state after a call and whether it completed or threw. */
  datatype Effect = Effect(head: Head, outcome: Outcome<Fault>)

  /** EnsureCurrent: only the current line may be used. */
  function Guard(live: bool): Outcome<Fault> {
    if live then Pass else Fail(Expired)
  }

  /** int.Clamp(n, lo, hi) */
  function Clamp(n: int, lo: int, hi: int): int
    requires lo <= hi
  {
    if n < lo then lo else if hi < n then hi else n
  }

  /** The screen after s is printed from linear position at onwards, one
      character per position. */
  function Paint(screen: map<int, Cell>, at: int, s: string, style: Option<AnsiiStyle>): map<int, Cell>
    decreases |s|
  {
    if s == [] then screen else Paint(screen[at := Cell(s[0], style)], at + 1, s[1..], style)
  }

  /** Position p shows the character of s printed on it, and any other position
      keeps what it showed before. */
  lemma {:induction false} PaintLookup(screen: map<int, Cell>, at: int, s: string, style: Option<AnsiiStyle>, p: int)
    ensures var m := Paint(screen, at, s, style);
      && (p in m <==> p in screen || at <= p < at + |s|)
      && (at <= p < at + |s| ==> m[p] == Cell(s[p - at], style))
      && (p in screen && !(at <= p < at + |s|) ==> m[p] == screen[p])
    decreases |s|
  {
    if s != [] {
      PaintLookup(screen[at := Cell(s[0], style)], at + 1, s[1..], style, p);
      if at < p < at + |s| {
        assert s[1..][p - (at + 1)] == s[p - at];
      }
    }
  }

  /** Every character of s shows at its position, in the given style. */
  lemma PaintShows(screen: map<int, Cell>, at: int, s: string, style: Option<AnsiiStyle>)
    ensures forall p :: at <= p < at + |s| ==>
      p in Paint(screen, at, s, style) && Paint(screen, at, s, style)[p] == Cell(s[p - at], style)
  {
    forall p | at <= p < at + |s|
      ensures p in Paint(screen, at, s, style) && Paint(screen, at, s, style)[p] == Cell(s[p - at], style)
    {
      PaintLookup(screen, at, s, style, p);
    }
  }

  lemma PaintNothing(screen: map<int, Cell>, at: int, style: Option<AnsiiStyle>)
    ensures Paint(screen, at, "", style) == screen
  {
  }

  /** Painting over exactly the cells of an earlier paint hides the earlier one. */
  lemma PaintOver(screen: map<int, Cell>, at: int, a: string, b: string, sa: Option<AnsiiStyle>, sb: Option<AnsiiStyle>)
    requires |a| == |b|
    ensures Paint(Paint(screen, at, a, sa), at, b, sb) == Paint(screen, at, b, sb)
  {
    var left := Paint(Paint(screen, at, a, sa), at, b, sb);
    var right := Paint(screen, at, b, sb);
    forall p ensures (p in left <==> p in right) && (p in left ==> left[p] == right[p]) {
      PaintLookup(screen, at, a, sa, p);
      PaintLookup(Paint(screen, at, a, sa), at, b, sb, p);
      PaintLookup(screen, at, b, sb, p);
    }
  }

  /** Move(n) on the current line: the delta is clamped to the written part. */
  function Moved(h: Head, n: int): (r: Head)
    requires h.Valid()
    ensures r.Valid()
  {
    var d := Clamp(n, -h.offset, h.length - h.offset);
    h.(offset := h.offset + d, pos := h.pos + d)
  }

  /** Write(s, style) on the current line, for s free of control characters. */
  function Written(h: Head, s: string, style: Option<AnsiiStyle>): (r: Head)
    requires h.Valid()
    ensures r.Valid()
  {
    Head(h.offset + |s|, Max(h.length, h.offset + |s|), h.pos + |s|, Paint(h.screen, h.pos, s, style))
  }

  function WriteEffect(live: bool, h: Head, s: string, style: Option<AnsiiStyle>): (e: Effect)
    requires h.Valid()
    ensures e.head.Valid()
  {
    if !live then Effect(h, Fail(Expired))
    else if |s| == 0 then Effect(h, Pass)
    else if HasControl(s) then Effect(h, Fail(Argument))
    else Effect(Written(h, s, style), Pass)
  }

  function MoveEffect(live: bool, h: Head, n: int): (e: Effect)
    requires h.Valid()
    ensures e.head.Valid()
  {
    if !live then Effect(h, Fail(Expired)) else Effect(Moved(h, n), Pass)
  }

  /** Erase(n, c): step back over at most Offset characters, overprint them with c,
      step back again; at the frontier the line also gets shorter. A control
      character c throws from the inner Write, after the first step back. */
  function EraseEffect(live: bool, h: Head, n: int, c: char): (e: Effect)
    requires h.Valid()
    ensures e.head.Valid()
  {
    if !live then Effect(h, Fail(Expired))
    else
      var k := Min(n, h.offset);
      if k <= 0 then Effect(h, Pass)
      else
        var back := Moved(h, -k);
        if IsControl(c) then Effect(back, Fail(Argument))
        else
          var restored := Moved(Written(back, Repeat(c, k), None), -k);
          Effect(if h.offset == h.length then restored.(length := restored.offset) else restored, Pass)
  }

  /** Console.WriteLine: the cursor goes to column 0 of the next row. */
  function NextRow(pos: int, width: int): int
    requires width > 0
  {
    (pos / width + 1) * width
  }

  /** The cursor after n line breaks. */
  function RowsBelow(pos: int, n: nat, width: int): int
    requires width > 0
  {
    if n == 0 then pos else NextRow(RowsBelow(pos, n - 1, width), width)
  }

  /** NewLine(n): move to the head, reject n < 1, print n line breaks. On success
      the head returned is the fresh line's, at column 0 of the new row. */
  function NewLineEffect(live: bool, h: Head, n: int, width: int): (e: Effect)
    requires h.Valid() && width > 0
    ensures e.head.Valid()
  {
    if !live then Effect(h, Fail(Expired))
    else
      var atHead := Moved(h, Int32Max);
      if n < 1 then Effect(atHead, Fail(Argument))
      else Effect(Head(0, 0, RowsBelow(atHead.pos, n as nat, width), atHead.screen), Pass)
  }

  /** Span.Seek: one Move, and only when the line is elsewhere. */
  function Sought(live: bool, h: Head, start: int): (e: Effect)
    requires h.Valid()
    ensures e.head.Valid()
  {
    if h.offset == start then Effect(h, Pass) else MoveEffect(live, h, start - h.offset)
  }

  /** s cut to the span's width: s.Length < Length ? s : s.Substring(0, Length). */
  function Truncated(s: string, width: nat): string {
    if |s| < width then s else s[..width]
  }

  /** Span.Write: seek to the span's start, then write s cut to the span's width. */
  function SpanWriteEffect(live: bool, h: Head, start: int, width: nat, s: string, style: Option<AnsiiStyle>): (e: Effect)
    requires h.Valid()
    ensures e.head.Valid()
  {
    var sk := Sought(live, h, start);
    if sk.outcome.Fail? then sk else WriteEffect(live, sk.head, Truncated(s, width), style)
  }

  // ---------------------------------------------------------------------------
  // Laws of the line arithmetic

  lemma PaintThenPaint(screen: map<int, Cell>, at: int, a: string, b: string, style: Option<AnsiiStyle>)
    ensures Paint(Paint(screen, at, a, style), at + |a|, b, style) == Paint(screen, at, a + b, style)
  {
    var left := Paint(Paint(screen, at, a, style), at + |a|, b, style);
    var right := Paint(screen, at, a + b, style);
    forall p ensures (p in left <==> p in right) && (p in left ==> left[p] == right[p]) {
      PaintLookup(screen, at, a, style, p);
      PaintLookup(Paint(screen, at, a, style), at + |a|, b, style, p);
      PaintLookup(screen, at, a + b, style, p);
      if at + |a| <= p < at + |a| + |b| {
        assert (a + b)[p - at] == b[p - (at + |a|)];
      } else if at <= p < at + |a| {
        assert (a + b)[p - at] == a[p - at];
      }
    }
  }

  /** Writing a then b is writing a + b: Offset, Length, cursor and screen agree. */
  lemma {:induction false} WriteConcat(h: Head, a: string, b: string, style: Option<AnsiiStyle>)
    requires h.Valid()
    ensures Written(Written(h, a, style), b, style) == Written(h, a + b, style)
  {
    PaintThenPaint(h.screen, h.pos, a, b, style);
  }

  /** A write never moves the cursor before the line start, keeps Length the
      high-water mark of Offset and advances the terminal cursor by |s|. */
  lemma WriteLaw(live: bool, h: Head, s: string, style: Option<AnsiiStyle>)
    requires h.Valid()
    ensures var e := WriteEffect(live, h, s, style);
      && (e.outcome == Pass <==> live && !HasControl(s))
      && (e.outcome.Fail? || |s| == 0 ==> e.head == h)
      && (e.outcome == Pass ==>
            e.head.offset == h.offset + |s| && e.head.length == Max(h.length, h.offset + |s|)
            && e.head.pos == h.pos + |s|
            && forall p :: h.pos <= p < h.pos + |s| ==>
                 p in e.head.screen && e.head.screen[p] == Cell(s[p - h.pos], style))
  {
    PaintShows(h.screen, h.pos, s, style);
  }

  /** Move clamps its delta to [-Offset, Length - Offset], leaves Length alone and
      shifts the linear cursor position by exactly the clamped delta. */
  lemma MoveLaw(h: Head, n: int)
    requires h.Valid()
    ensures var r := Moved(h, n);
      && r.Valid() && r.length == h.length && r.screen == h.screen
      && r.offset - h.offset == Clamp(n, -h.offset, h.length - h.offset)
      && r.pos - h.pos == r.offset - h.offset
      && (0 <= h.offset + n <= h.length ==> r.offset == h.offset + n)
      && (h.length - h.offset <= Int32Max ==> Moved(h, Int32Max).offset == h.length)
      && (h.offset <= -Int32Min ==> Moved(h, Int32Min).offset == 0)
  {
  }

  /** Erase steps back over min(n, Offset) characters and overprints them with c; the
      line shrinks to the new Offset only when the erase started at the frontier. */
  lemma EraseLaw(h: Head, n: int, c: char)
    requires h.Valid()
    ensures var e := EraseEffect(true, h, n, c);
      var k := Max(0, Min(n, h.offset));
      && e.head.offset == h.offset - k
      && e.head.pos == h.pos - k
      && (k == 0 ==> e == Effect(h, Pass))
      && (k > 0 && IsControl(c) ==> e.outcome == Fail(Argument) && e.head.length == h.length)
      && (k > 0 && !IsControl(c) ==>
            e.outcome == Pass
            && e.head.length == (if h.offset == h.length then h.offset - k else h.length)
            && e.head.screen == Paint(h.screen, h.pos - k, Repeat(c, k), None))
  {
    var k := Max(0, Min(n, h.offset));
    if k > 0 {
      var back := Moved(h, -k);
      assert back.offset == h.offset - k && back.pos == h.pos - k;
      assert back.length == h.length && back.screen == h.screen;
      if !IsControl(c) {
        var over := Written(back, Repeat(c, k), None);
        assert over.offset == h.offset && over.pos == h.pos && over.length == h.length;
        var restored := Moved(over, -k);
        assert restored.offset == h.offset - k && restored.pos == h.pos - k;
        assert restored.length == h.length && restored.screen == over.screen;
        assert over.screen == Paint(h.screen, h.pos - k, Repeat(c, k), None);
        var e := EraseEffect(true, h, n, c);
        assert e.head == if h.offset == h.length then restored.(length := restored.offset) else restored;
        assert e.outcome == Pass;
      }
    }
  }

  /** Erasing what was just written at the frontier restores Offset, Length and the
      cursor, and leaves the fill character where the text was. */
  lemma {:induction false} EraseUndoesWrite(h: Head, s: string, style: Option<AnsiiStyle>, c: char)
    requires h.Valid() && h.offset == h.length && !IsControl(c)
    ensures var e := EraseEffect(true, Written(h, s, style), |s|, c);
      && e.outcome == Pass
      && e.head == h.(screen := Paint(h.screen, h.pos, Repeat(c, |s|), None))
  {
    var w := Written(h, s, style);
    var fill := Repeat(c, |s|);
    if |s| == 0 {
      PaintNothing(h.screen, h.pos, style);
      PaintNothing(h.screen, h.pos, None);
    } else {
      var back := Moved(w, -|s|);
      assert back == w.(offset := h.offset, pos := h.pos);
      var over := Written(back, fill, None);
      assert over == Head(w.offset, w.length, w.pos, Paint(w.screen, h.pos, fill, None));
      PaintOver(h.screen, h.pos, s, fill, style, None);
    }
  }

  /** A call on a line that is no longer current throws and changes nothing. */
  lemma ExpiredLineIsInert(h: Head, n: int, c: char, s: string, style: Option<AnsiiStyle>, width: int)
    requires h.Valid() && width > 0
    ensures WriteEffect(false, h, s, style) == Effect(h, Fail(Expired))
    ensures MoveEffect(false, h, n) == Effect(h, Fail(Expired))
    ensures EraseEffect(false, h, n, c) == Effect(h, Fail(Expired))
    ensures NewLineEffect(false, h, n, width) == Effect(h, Fail(Expired))
  {
  }

  /** NewLine rejects n < 1 after moving to the head; otherwise the fresh line starts
      empty at column 0, n rows below. */
  lemma {:induction false} NewLineLaw(h: Head, n: int, width: int)
    requires h.Valid() && width > 0 && h.length - h.offset <= Int32Max
    ensures var e := NewLineEffect(true, h, n, width);
      && (n < 1 ==> e.outcome == Fail(Argument) && e.head.offset == e.head.length == h.length)
      && (n >= 1 ==>
            && e.outcome == Pass && e.head.offset == 0 && e.head.length == 0
            && e.head.pos == RowsBelow(h.pos + h.length - h.offset, n as nat, width)
            && h.pos + h.length - h.offset < e.head.pos)
  {
    if n >= 1 {
      RowsBelowAdvances(h.pos + h.length - h.offset, n as nat, width);
    }
  }

  /** Each line break moves the cursor strictly forward. */
  lemma {:induction false} RowsBelowAdvances(pos: int, n: nat, width: int)
    requires width > 0 && n >= 1
    ensures pos < RowsBelow(pos, n, width)
  {
    NextRowAdvances(RowsBelow(pos, n - 1, width), width);
    if n > 1 {
      RowsBelowAdvances(pos, n - 1, width);
    }
  }

  lemma NextRowAdvances(pos: int, width: int)
    requires width > 0
    ensures pos < NextRow(pos, width)
  {
    var q := pos / width;
    assert pos == q * width + pos % width;
    assert (q + 1) * width == q * width + width;
  }

  /** Seeking lands on the span start whenever it lies on the written line, and a
      second seek is then a no-op. */
  lemma SeekIdempotent(h: Head, start: int)
    requires h.Valid() && 0 <= start <= h.length
    ensures var e := Sought(true, h, start);
      && e.outcome == Pass && e.head.offset == start
      && e.head.length == h.length && e.head.screen == h.screen
      && Sought(true, e.head, start) == e
  {
  }

  /** A span write writes min(|s|, width) characters from the span start, and the
      cursor ends just after them. */
  lemma SpanWriteLaw(h: Head, start: int, width: nat, s: string, style: Option<AnsiiStyle>)
    requires h.Valid() && 0 <= start <= h.length && !HasControl(s)
    ensures var e := SpanWriteEffect(true, h, start, width, s, style);
      var n := Min(|s|, width);
      var at := h.pos + (start - h.offset);
      && e.outcome == Pass
      && e.head.offset == start + n
      && e.head.length == Max(h.length, start + n)
      && e.head.screen == Paint(h.screen, at, s[..n], style)
  {
    var n := Min(|s|, width);
    var at := h.pos + (start - h.offset);
    var sk := Sought(true, h, start);
    assert sk == Effect(h.(offset := start, pos := at), Pass);
    var t := Truncated(s, width);
    TruncatedPrefix(s, width);
    var e := SpanWriteEffect(true, h, start, width, s, style);
    if |t| == 0 {
      assert e == sk;
      PaintNothing(h.screen, at, style);
    } else {
      assert e == Effect(Written(sk.head, t, style), Pass);
    }
  }

  /** After a span write, the span, whose first cell is at, shows the first
      min(|s|, width) characters of s. */
  lemma SpanWriteShows(h: Head, start: int, width: nat, s: string, style: Option<AnsiiStyle>, at: int)
    requires h.Valid() && 0 <= start <= h.length && !HasControl(s)
    requires at == h.pos + (start - h.offset)
    ensures var e := SpanWriteEffect(true, h, start, width, s, style);
      && e.outcome == Pass && e.head.length >= h.length
      && forall p :: at <= p < at + Min(|s|, width) ==>
           p in e.head.screen && e.head.screen[p] == Cell(s[p - at], style)
  {
    var n := Min(|s|, width);
    SpanWriteLaw(h, start, width, s, style);
    var e := SpanWriteEffect(true, h, start, width, s, style);
    assert e.head.screen == Paint(h.screen, at, s[..n], style);
    PaintShows(h.screen, at, s[..n], style);
  }

  lemma TruncatedPrefix(s: string, width: nat)
    ensures Truncated(s, width) == s[..Min(|s|, width)]
    ensures !HasControl(s) ==> !HasControl(Truncated(s, width))
  {
    var t := Truncated(s, width);
    if HasControl(t) {
      var k :| 0 <= k < |t| && IsControl(t[k]);
      assert t[k] == s[k];
    }
  }
}
