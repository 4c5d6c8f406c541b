/** The line engine as objects: the terminal with its single current line, lines
    whose Offset and Length the methods update, and spans over a line. Every method
    is proved to do what the matching Cursor or Reading function says. */
module Lines {
  import opened Wrappers
  import opened Text
  import opened Faults
  import opened Styles
  import opened Cursor
  import opened Reading

  /** System.Console together with the static Line.Current slot. */
  class Terminal {
    const width: int                   // Console.BufferWidth
    var pos: int                       // CursorTop * BufferWidth + CursorLeft
    ghost var screen: map<int, Cell>   // what has been printed where
    var current: Line?                 // Line.Current

    ghost predicate Valid()
      reads this, current
    {
      width > 0 && current != null && current.term == this && current.Valid()
    }

    /** A console at the home position whose current line is a fresh, empty one. */
    constructor (width: int)
      requires width > 0
      ensures Valid() && this.width == width && pos == 0 && screen == map[]
      ensures fresh(current) && current.offset == 0 && current.length == 0
    {
      this.width := width;
      pos := 0;
      screen := map[];
      new;
      current := new Line(this);
    }

    /** Console.Write: the text appears from the cursor on and the cursor follows it. */
    method Print(s: string, style: Option<AnsiiStyle>)
      modifies this`pos, this`screen
      ensures pos == old(pos) + |s| && screen == Paint(old(screen), old(pos), s, style)
    {
      screen := Paint(screen, pos, s, style);
      pos := pos + |s|;
    }

    /** Assigning CursorTop and CursorLeft from DivRem(p, BufferWidth). */
    method PlaceCursor(p: int)
      modifies this`pos
      ensures pos == p
    {
      pos := p;
    }

    /** Console.WriteLine() */
    method BreakLine()
      requires width > 0
      modifies this`pos
      ensures pos == NextRow(old(pos), width)
    {
      pos := NextRow(pos, width);
    }
  }

  class Line {
    const term: Terminal
    var offset: int   // Offset: the cursor column relative to the line start
    var length: int   // Length: how much of the line has been written

    ghost predicate Valid()
      reads this
    {
      0 <= offset <= length
    }

    constructor (term: Terminal)
      ensures this.term == term && offset == 0 && length == 0
    {
      this.term := term;
      offset := 0;
      length := 0;
    }

    predicate IsCurrent()
      reads term
    {
      term.current == this
    }

    /** The line's two integers together with the terminal's cursor and screen. */
    ghost function View(): Head
      reads this, term
    {
      Head(offset, length, term.pos, term.screen)
    }

    method EnsureCurrent() returns (r: Outcome<Fault>)
      ensures r == Guard(IsCurrent())
      ensures r == Pass <==> term.current == this
    {
      if term.current != this {
        r := Fail(Expired);
      } else {
        r := Pass;
      }
    }

    method Write(s: string, style: Option<AnsiiStyle>) returns (r: Outcome<Fault>)
      requires Valid()
      modifies this, term`pos, term`screen
      ensures Valid()
      ensures var e := WriteEffect(old(IsCurrent()), old(View()), s, style);
        View() == e.head && r == e.outcome
    {
      r := EnsureCurrent();
      if r.Fail? {
        return;
      }
      if |s| == 0 {
        return;
      }
      if HasControl(s) {
        return Fail(Argument);
      }
      offset := offset + |s|;
      length := Max(length, offset);
      term.Print(s, style);
    }

    method Erase(n: int, c: char) returns (r: Outcome<Fault>)
      requires Valid()
      modifies this, term`pos, term`screen
      ensures Valid()
      ensures var e := EraseEffect(old(IsCurrent()), old(View()), n, c);
        View() == e.head && r == e.outcome
    {
      r := EnsureCurrent();
      if r.Fail? {
        return;
      }
      ghost var h := View();
      var front := offset == length;
      var k := Min(n, offset);
      if k > 0 {
        r := Move(-k);
        ghost var back := View();
        assert back == Moved(h, -k);
        RepeatControl(c, k);
        r := Write(Repeat(c, k), None);
        if r.Fail? {
          assert View() == back && IsControl(c);
          return;
        }
        assert View() == Written(back, Repeat(c, k), None);
        r := Move(-k);
        assert View() == Moved(Written(back, Repeat(c, k), None), -k);
        if front {
          length := offset;
        }
      }
    }

    method Move(n: int) returns (r: Outcome<Fault>)
      requires Valid()
      modifies this, term`pos
      ensures Valid()
      ensures var e := MoveEffect(old(IsCurrent()), old(View()), n);
        View() == e.head && r == e.outcome
    {
      r := EnsureCurrent();
      if r.Fail? {
        return;
      }
      var d := Clamp(n, -offset, length - offset);
      offset := offset + d;
      term.PlaceCursor(term.pos + d);
    }

    method MoveToHead() returns (r: Outcome<Fault>)
      requires Valid()
      modifies this, term`pos
      ensures Valid()
      ensures var e := MoveEffect(old(IsCurrent()), old(View()), Int32Max);
        View() == e.head && r == e.outcome
      ensures old(IsCurrent()) && old(length - offset) <= Int32Max ==> offset == length
    {
      r := Move(Int32Max);
    }

    method MoveToTail() returns (r: Outcome<Fault>)
      requires Valid()
      modifies this, term`pos
      ensures Valid()
      ensures var e := MoveEffect(old(IsCurrent()), old(View()), Int32Min);
        View() == e.head && r == e.outcome
      ensures old(IsCurrent()) && old(offset) <= -Int32Min ==> offset == 0
    {
      r := Move(Int32Min);
    }

    /** Moves to the head, rejects n < 1, prints n line breaks and installs a fresh
        current line, which it returns; from then on this line is expired. */
    method NewLine(n: int) returns (next: Line?, r: Outcome<Fault>)
      requires Valid() && term.Valid()
      modifies this, term
      ensures Valid() && term.Valid()
      ensures var e := NewLineEffect(old(IsCurrent()), old(View()), n, term.width);
        && r == e.outcome
        && (r.Fail? ==> next == null && term.current == old(term.current) && View() == e.head)
        && (r.Pass? ==>
              && next != null && fresh(next) && term.current == next && next.term == term
              && next.View() == e.head && !IsCurrent()
              && offset == Moved(old(View()), Int32Max).offset && length == old(length))
    {
      r := EnsureCurrent();
      if r.Fail? {
        return null, r;
      }
      r := MoveToHead();
      if n < 1 {
        return null, Fail(Argument);
      }
      ghost var start := term.pos;
      var i := n;
      while i > 0
        invariant 0 <= i <= n
        invariant term.pos == RowsBelow(start, (n - i) as nat, term.width)
        invariant term.screen == old(term.screen)
        invariant Valid() && term.Valid() && term.current == this
        invariant offset == Moved(old(View()), Int32Max).offset && length == old(length)
        decreases i
      {
        term.BreakLine();
        i := i - 1;
      }
      next := new Line(term);
      term.current := next;
    }

    /** Reads keys until one ends the read; returns how it ended and the keys left. */
    method Read(o: ReadOptions, keys: seq<Key>) returns (outcome: ReadOutcome, rest: seq<Key>)
      requires Valid()
      modifies this, term`pos, term`screen
      ensures Valid()
      ensures var run := ReadLoop(o, old(IsCurrent()), old(View()), "", keys);
        outcome == run.outcome && rest == run.rest && View() == run.head
    {
      ghost var live := IsCurrent();
      var builder := "";
      var i := 0;
      while i < |keys|
        invariant 0 <= i <= |keys| && Valid() && IsCurrent() == live
        invariant ReadLoop(o, live, old(View()), "", keys) == ReadLoop(o, live, View(), builder, keys[i..])
        decreases |keys| - i
      {
        var key := keys[i];
        assert keys[i..][0] == key && keys[i..][1..] == keys[i + 1..];
        i := i + 1;
        match key.kind {
          case Escape =>
            return Escaped, keys[i..];
          case Tab | Enter =>
            if |builder| >= o.minLength {
              return Submitted(builder), keys[i..];
            }
          case Backspace =>
            if |builder| > 0 {
              if key.ctrl {
                var r := Erase(|builder|, o.eraseChar);
                if r.Fail? {
                  return Raised(r.error), keys[i..];
                }
                builder := "";
              } else {
                var r := Erase(1, o.eraseChar);
                if r.Fail? {
                  return Raised(r.error), keys[i..];
                }
                builder := builder[..|builder| - 1];
              }
            }
          case Other =>
            if key.ctrl {
              continue;
            }
            if IsControl(key.ch) {
              continue;
            }
            if IsWhiteSpace(key.ch) && !o.allowSpace {
              continue;
            }
            if |builder| < o.maxLength {
              var r := Write([key.ch], None);
              if r.Fail? {
                return Raised(r.error), keys[i..];
              }
              builder := builder + [key.ch];
            }
            if |builder| >= o.maxLength {
              if o.autoSubmit {
                return Submitted(builder), keys[i..];
              }
            }
        }
      }
      return Waiting, [];
    }

    /** Writes s and hands back a span over what was written. */
    method Span(s: string) returns (span: Span, r: Outcome<Fault>)
      requires Valid()
      modifies this, term`pos, term`screen
      ensures Valid() && fresh(span)
      ensures span.line == this && span.start == old(offset) && span.width == |s|
      ensures var e := WriteEffect(old(IsCurrent()), old(View()), s, None);
        View() == e.head && r == e.outcome
    {
      span := new Span(this, offset, |s|);
      r := Write(s, None);
    }
  }

  /** A fixed stretch of a line: where it starts and how wide it is. */
  class Span {
    const line: Line
    const start: int
    const width: nat

    constructor (line: Line, start: int, width: nat)
      ensures this.line == line && this.start == start && this.width == width
    {
      this.line := line;
      this.start := start;
      this.width := width;
    }

    /** Puts the line's cursor back on the span start, moving only when needed. */
    method Seek() returns (r: Outcome<Fault>)
      requires line.Valid()
      modifies line, line.term`pos
      ensures line.Valid()
      ensures var e := Sought(old(line.IsCurrent()), old(line.View()), start);
        line.View() == e.head && r == e.outcome
    {
      if line.offset != start {
        r := line.Move(start - line.offset);
      } else {
        r := Pass;
      }
    }

    /** Writes s, cut to the span's width, from the span start. */
    method Write(s: string, style: Option<AnsiiStyle>) returns (r: Outcome<Fault>)
      requires line.Valid()
      modifies line, line.term`pos, line.term`screen
      ensures line.Valid()
      ensures var e := SpanWriteEffect(old(line.IsCurrent()), old(line.View()), start, width, s, style);
        line.View() == e.head && r == e.outcome
    {
      r := Seek();
      if r.Fail? {
        return;
      }
      r := line.Write(if |s| < width then s else s[..width], style);
    }

    /** Reads from the span start, at most the span's width of characters. */
    method Read(o: ReadOptions, keys: seq<Key>) returns (outcome: ReadOutcome, rest: seq<Key>)
      requires line.Valid()
      modifies line, line.term`pos, line.term`screen
      ensures line.Valid()
      ensures var run := SpanRead(o, old(line.IsCurrent()), old(line.View()), start, width, keys);
        outcome == run.outcome && rest == run.rest && line.View() == run.head
    {
      var r := Seek();
      if r.Fail? {
        return Raised(r.error), keys;
      }
      outcome, rest := line.Read(o.(maxLength := Min(width, o.maxLength)), keys);
    }
  }
}
