/** A poem's lines and their segmentation into verses at empty lines. */
module Poems {

  /** string.IsNullOrEmpty (the model has no null strings). */
  predicate IsBlank(s: string) {
    s == ""
  }

  /** Lines.Count(string.IsNullOrEmpty) */
  function CountEmpty(s: seq<string>): nat {
    if s == [] then 0 else (if IsBlank(s[0]) then 1 else 0) + CountEmpty(s[1..])
  }

  /** The verses of s: the maximal runs of lines between empty lines. */
  function Split(s: seq<string>): (r: seq<seq<string>>)
    ensures |r| >= 1
  {
    if s == [] then [[]]
    else
      var rest := Split(s[1..]);
      if IsBlank(s[0]) then [[]] + rest else [[s[0]] + rest[0]] + rest[1..]
  }

  /** The verses put back together, one empty line between consecutive verses. */
  function JoinVerses(vs: seq<seq<string>>): seq<string>
    requires |vs| >= 1
  {
    if |vs| == 1 then vs[0] else vs[0] + [""] + JoinVerses(vs[1..])
  }

  function SumLengths(vs: seq<seq<string>>): nat {
    if vs == [] then 0 else |vs[0]| + SumLengths(vs[1..])
  }

  predicate NoBlank(v: seq<string>) {
    forall k :: 0 <= k < |v| ==> !IsBlank(v[k])
  }

  /** Array.FindIndex(Lines, start, string.IsNullOrEmpty): the first empty line at or
      after start, or -1 when there is none. */
  function FindIndex(s: seq<string>, start: nat): (r: int)
    requires start <= |s|
    ensures r == -1 || start <= r < |s|
    ensures r == -1 ==> NoBlank(s[start..])
    ensures r != -1 ==> IsBlank(s[r]) && NoBlank(s[start..r])
    decreases |s| - start
  {
    if start == |s| then -1
    else if IsBlank(s[start]) then start
    else
      var r := FindIndex(s, start + 1);
      assert s[start..] == [s[start]] + s[start + 1..];
      assert r != -1 ==> s[start..r] == [s[start]] + s[start + 1..r];
      r
  }

  // ---------------------------------------------------------------------------
  // Laws of the segmentation

  /** The number of verses is the number of empty lines plus one. */
  lemma {:induction false} SplitCount(s: seq<string>)
    ensures |Split(s)| == CountEmpty(s) + 1
  {
    if s != [] {
      SplitCount(s[1..]);
    }
  }

  /** Joining the verses gives the lines back. */
  lemma {:induction false} SplitJoin(s: seq<string>)
    ensures JoinVerses(Split(s)) == s
  {
    if s != [] {
      var rest := Split(s[1..]);
      SplitJoin(s[1..]);
      if IsBlank(s[0]) {
        assert Split(s)[1..] == rest;
      } else {
        var r := Split(s);
        assert r[0] == [s[0]] + rest[0] && r[1..] == rest[1..];
        if |rest| == 1 {
          assert JoinVerses(rest) == rest[0];
        } else {
          assert JoinVerses(rest) == rest[0] + [""] + JoinVerses(rest[1..]);
          assert JoinVerses(r) == r[0] + [""] + JoinVerses(rest[1..]);
        }
      }
    }
  }

  /** No verse contains an empty line. */
  lemma {:induction false} SplitNoBlank(s: seq<string>)
    ensures forall i :: 0 <= i < |Split(s)| ==> NoBlank(Split(s)[i])
  {
    if s != [] {
      SplitNoBlank(s[1..]);
      var rest := Split(s[1..]);
      if !IsBlank(s[0]) {
        assert NoBlank([s[0]] + rest[0]);
      }
    }
  }

  /** The verse lengths add up to the number of non-empty lines. */
  lemma {:induction false} SplitLengths(s: seq<string>)
    ensures SumLengths(Split(s)) == |s| - CountEmpty(s)
  {
    if s != [] {
      SplitLengths(s[1..]);
      SplitCount(s[1..]);
      var rest := Split(s[1..]);
      if IsBlank(s[0]) {
        assert ([[]] + rest)[1..] == rest;
      } else {
        var r := Split(s);
        assert r[1..] == rest[1..];
        assert SumLengths(rest) == |rest[0]| + SumLengths(rest[1..]);
      }
    }
  }

  /** Verses without empty lines are recovered from their join. */
  lemma {:induction false} JoinSplit(vs: seq<seq<string>>)
    requires |vs| >= 1
    requires forall i :: 0 <= i < |vs| ==> NoBlank(vs[i])
    ensures Split(JoinVerses(vs)) == vs
  {
    if |vs| == 1 {
      SplitPlain(vs[0]);
    } else {
      JoinSplit(vs[1..]);
      SplitPrefix(vs[0], JoinVerses(vs[1..]));
      assert [vs[0]] + vs[1..] == vs;
    }
  }

  /** A run without empty lines is a single verse. */
  lemma {:induction false} SplitPlain(v: seq<string>)
    requires NoBlank(v)
    ensures Split(v) == [v]
  {
    if v != [] {
      SplitPlain(v[1..]);
      assert [v[0]] + v[1..] == v;
    }
  }

  /** A run without empty lines followed by an empty line starts the verses. */
  lemma {:induction false} SplitPrefix(v: seq<string>, tail: seq<string>)
    requires NoBlank(v)
    ensures Split(v + [""] + tail) == [v] + Split(tail)
  {
    var s := v + [""] + tail;
    if v == [] {
      assert s[0] == "" && s[1..] == tail;
    } else {
      assert s[0] == v[0] && s[1..] == v[1..] + [""] + tail;
      SplitPrefix(v[1..], tail);
      assert [v[0]] + v[1..] == v;
    }
  }

  /** The verses of s, cut at its first empty line e. */
  lemma SplitAt(s: seq<string>, e: nat)
    requires e < |s| && IsBlank(s[e]) && NoBlank(s[..e])
    ensures Split(s) == [s[..e]] + Split(s[e + 1..])
  {
    var v, tail := s[..e], s[e + 1..];
    assert v + [""] + tail == s;
    SplitPrefix(v, tail);
  }

  /** One round of the extraction loop: the verse from start runs to the next empty
      line, or to the end when there is none. */
  lemma VerseAt(s: seq<string>, start: nat)
    requires start <= |s|
    ensures var end := FindIndex(s, start);
      && (end < 0 ==> Split(s[start..]) == [s[start..]])
      && (end >= 0 ==> Split(s[start..]) == [s[start..end]] + Split(s[end + 1..]))
  {
    var end := FindIndex(s, start);
    var here := s[start..];
    if end < 0 {
      SplitPlain(here);
    } else {
      assert here[..end - start] == s[start..end];
      assert here[end - start + 1..] == s[end + 1..];
      SplitAt(here, end - start);
    }
  }

  /** The extraction loop's round i, with the verses from i on being those of the
      lines from start on: it copies verse i and moves past its empty line. */
  lemma VerseStep(s: seq<string>, parts: seq<seq<string>>, i: nat, start: nat)
    requires start <= |s| && i < |parts| && parts[i..] == Split(s[start..])
    ensures var end := FindIndex(s, start);
      var length := if end < 0 then |s| - start else end - start;
      && start + length <= |s|
      && s[start..start + length] == parts[i]
      && (end < 0 ==> i + 1 == |parts|)
      && (end >= 0 ==> parts[i + 1..] == Split(s[end + 1..]))
  {
    var end := FindIndex(s, start);
    VerseAt(s, start);
    if end < 0 {
      assert s[start..|s|] == s[start..];
      assert parts[i..] == [s[start..]];
    } else {
      assert parts[i..] == [s[start..end]] + Split(s[end + 1..]);
      assert parts[i + 1..] == parts[i..][1..];
    }
  }

  /** new string[length] filled by Array.Copy from index start of the lines. */
  method CopyRange(s: seq<string>, start: nat, length: nat) returns (v: array<string>)
    requires start + length <= |s|
    ensures fresh(v) && v[..] == s[start..start + length]
  {
    v := new string[length];
    forall j | 0 <= j < length {
      v[j] := s[start + j];
    }
  }

  /** One round of the extraction loop: the next empty line from start, and a copy
      of the verse before it. */
  method NextVerse(s: seq<string>, start: nat, ghost parts: seq<seq<string>>, ghost i: nat)
    returns (end: int, v: array<string>)
    requires start <= |s| && i < |parts| && parts[i..] == Split(s[start..])
    ensures fresh(v) && v[..] == parts[i]
    ensures -1 <= end < |s|
    ensures end < 0 ==> i + 1 == |parts|
    ensures end >= 0 ==> parts[i + 1..] == Split(s[end + 1..])
  {
    end := FindIndex(s, start);
    var length := if end < 0 then |s| - start else end - start;
    VerseStep(s, parts, i, start);
    v := CopyRange(s, start, length);
  }

  class Poem {
    const author: string
    const title: string
    const lines: array<string>

    constructor (author: string, title: string, lines: array<string>)
      ensures this.author == author && this.title == title && this.lines == lines
    {
      this.author := author;
      this.title := title;
      this.lines := lines;
    }

    /** The obsolete VerseCount: the number of empty lines plus one, which is the
        number of verses. */
    function VerseCount(): (n: nat)
      reads lines
      ensures n == |Split(lines[..])|
    {
      SplitCount(lines[..]);
      CountEmpty(lines[..]) + 1
    }

    /** ExtractVerses: one freshly allocated array per verse, holding its lines. */
    method ExtractVerses() returns (verses: array<array?<string>>)
      ensures fresh(verses) && verses.Length == |Split(lines[..])|
      ensures forall i :: 0 <= i < verses.Length ==> verses[i] != null && verses[i][..] == Split(lines[..])[i]
      ensures forall i :: 0 <= i < verses.Length ==> fresh(verses[i])
      ensures forall i, j :: 0 <= i < j < verses.Length ==> verses[i] != verses[j]
    {
      var s := lines[..];   // Lines, read once; the loop never writes it
      ghost var parts := Split(s);
      SplitCount(s);
      verses := new array?<string>[CountEmpty(s) + 1];
      var start := 0;
      var i := 0;
      while i < verses.Length
        invariant 0 <= i <= verses.Length && 0 <= start <= |s|
        invariant i < verses.Length ==> parts[i..] == Split(s[start..])
        invariant forall k :: 0 <= k < i ==> verses[k] != null && verses[k][..] == parts[k]
        invariant forall k :: 0 <= k < i ==> fresh(verses[k])
        invariant forall k, l :: 0 <= k < l < i ==> verses[k] != verses[l]
      {
        var end, v := NextVerse(s, start, parts, i);
        verses[i] := v;
        start := end + 1;
        i := i + 1;
      }
    }
  }
}
