/** The list helpers of the quiz layer (SelectAtRandom, SkipAtRandom) and the
    padded title writer. */
module Utility {
  import opened Wrappers
  import opened Text
  import opened Faults
  import opened Cursor
  import opened Lines

  // ---------------------------------------------------------------------------
  // SkipAtRandom

  /** that.Select((it, i) => (it, i)).Where(it => it.i != skip).Select(it => it.it),
      over the elements of s numbered from `from` on. */
  function WithoutIndex<T>(s: seq<T>, skip: int, from: int): seq<T>
    decreases |s|
  {
    if s == [] then []
    else (if from == skip then [] else [s[0]]) + WithoutIndex(s[1..], skip, from + 1)
  }

  /** SkipAtRandom with its random draw i = Random.Next(0, |s|) as a parameter. */
  function SkipAtRandom<T>(s: seq<T>, i: int): seq<T>
    requires 0 <= i < |s| || i == 0
  {
    WithoutIndex(s, i, 0)
  }

  lemma {:induction false} WithoutIndexLaw<T>(s: seq<T>, skip: int, from: int)
    ensures from <= skip < from + |s| ==>
      WithoutIndex(s, skip, from) == s[..skip - from] + s[skip - from + 1..]
    ensures !(from <= skip < from + |s|) ==> WithoutIndex(s, skip, from) == s
  {
    if s != [] {
      WithoutIndexLaw(s[1..], skip, from + 1);
      if from == skip {
        assert s[..0] + s[1..] == s[1..];
      } else if from < skip < from + |s| {
        var k := skip - from;
        assert s[1..][..k - 1] == s[1..k] && s[1..][k..] == s[k + 1..];
        assert [s[0]] + s[1..k] == s[..k];
      } else {
        assert [s[0]] + s[1..] == s;
      }
    }
  }

  /** SkipAtRandom keeps the list in order minus the one element at the drawn index;
      an empty list stays empty. */
  lemma SkipAtRandomLaw<T>(s: seq<T>, i: int)
    requires 0 <= i < |s| || i == 0
    ensures s != [] ==> SkipAtRandom(s, i) == s[..i] + s[i + 1..]
    ensures s != [] ==> |SkipAtRandom(s, i)| == |s| - 1
    ensures s != [] ==> multiset(SkipAtRandom(s, i)) + multiset{s[i]} == multiset(s)
    ensures s == [] ==> SkipAtRandom(s, i) == []
  {
    WithoutIndexLaw(s, i, 0);
    if s != [] {
      var front, back := s[..i], s[i + 1..];
      assert s == front + [s[i]] + back;
      assert multiset(s) == multiset(front) + multiset{s[i]} + multiset(back);
    }
  }

  // ---------------------------------------------------------------------------
  // SelectAtRandom

  /** The loop's values of i: from, from + size, ... while below n. */
  function Starts(n: nat, size: nat, from: nat): (r: seq<nat>)
    requires size > 0
    ensures forall k :: 0 <= k < |r| ==> from <= r[k] < n
    decreases n - from
  {
    if from >= n then [] else [from] + Starts(n, size, from + size)
  }

  /** The chunks SelectAtRandom draws from, as the list of chunk starts and the chunk
      size, or the fault its division raises. */
  function ChunkPlan(n: nat, count: int): (r: Result<(seq<nat>, nat), Fault>)
    requires count >= 0
    ensures r.Success? ==> r.value.1 > 0
  {
    var c := Min(count, n);
    if c == 0 then Failure(DivideByZero)
    else
      var size := (n + c - 1) / c;
      Success((Starts(n, size, 0), size))
  }

  /** One index per chunk: the k-th pick lies in the k-th chunk [start, min(start + size, n)). */
  predicate OnePerChunk(n: nat, starts: seq<nat>, size: nat, picks: seq<nat>) {
    |picks| == |starts| &&
    forall k :: 0 <= k < |starts| ==> starts[k] <= picks[k] < Min(starts[k] + size, n)
  }

  /** SelectAtRandom with each Random.Next(i, min(i + size, n)) a nondeterministic
      choice; it returns the drawn indices with the elements. */
  method SelectAtRandom<T>(list: seq<T>, count: int) returns (r: Result<seq<T>, Fault>, picks: seq<nat>)
    requires count >= 0
    ensures ChunkPlan(|list|, count).Failure? ==> r == Failure(ChunkPlan(|list|, count).error)
    ensures ChunkPlan(|list|, count).Success? ==>
      var (starts, size) := ChunkPlan(|list|, count).value;
      && r.Success? && OnePerChunk(|list|, starts, size, picks)
      && |r.value| == |picks| && forall k :: 0 <= k < |picks| ==> r.value[k] == list[picks[k]]
  {
    var n := |list|;
    var c := Min(count, n);
    if c == 0 {
      return Failure(DivideByZero), [];
    }
    var size := (n + c - 1) / c;
    assert size >= 1 by {
      assert n + c - 1 >= c;
    }
    var out;
    out, picks := DrawChunks(list, size);
    PlanOf(n, count, size);
    r := Success(out);
  }

  /** SelectAtRandom's loop: one nondeterministic index from each chunk of size
      elements, with the elements at those indices. */
  method DrawChunks<T>(list: seq<T>, size: nat) returns (out: seq<T>, picks: seq<nat>)
    requires size > 0
    ensures OnePerChunk(|list|, Starts(|list|, size, 0), size, picks)
    ensures |out| == |picks| && forall k :: 0 <= k < |picks| ==> out[k] == list[picks[k]]
  {
    var n := |list|;
    ghost var starts := Starts(n, size, 0);
    out := [];
    picks := [];
    var i := 0;
    while i < n
      invariant 0 <= i && |picks| <= |starts|
      invariant starts[|picks|..] == Starts(n, size, i)
      invariant |out| == |picks|
      invariant forall k :: 0 <= k < |picks| ==> starts[k] <= picks[k] < Min(starts[k] + size, n)
      invariant forall k :: 0 <= k < |picks| ==> out[k] == list[picks[k]]
      decreases n - i
    {
      assert i <= i < Min(i + size, n);
      var j :| i <= j < Min(i + size, n);
      StartsStep(starts, |picks|, n, size, i);
      out := out + [list[j]];
      picks := picks + [j];
      i := i + size;
    }
    assert Starts(n, size, i) == [];
    assert |starts[|picks|..]| == 0;
  }

  lemma PlanOf(n: nat, count: int, size: nat)
    requires count >= 0 && Min(count, n) > 0 && size == (n + Min(count, n) - 1) / Min(count, n)
    ensures ChunkPlan(n, count) == Success((Starts(n, size, 0), size))
  {
  }

  /** One round of the loop: the next chunk starts at i and the rest follow from i + size. */
  lemma StartsStep(starts: seq<nat>, done: nat, n: nat, size: nat, i: nat)
    requires size > 0 && i < n && done <= |starts| && starts[done..] == Starts(n, size, i)
    ensures done < |starts| && starts[done] == i && starts[done + 1..] == Starts(n, size, i + size)
  {
    assert Starts(n, size, i) == [i] + Starts(n, size, i + size);
    assert starts[done + 1..] == starts[done..][1..];
  }

  /** The chunks follow each other: each starts where the previous one ends, the first
      at from, and the last reaches n. */
  lemma {:induction false} StartsShape(n: nat, size: nat, from: nat)
    requires size > 0
    ensures var r := Starts(n, size, from);
      && (from < n <==> |r| >= 1)
      && (|r| >= 1 ==> r[0] == from && r[|r| - 1] + size >= n)
      && forall k :: 0 <= k < |r| - 1 ==> r[k + 1] == r[k] + size
    decreases n - from
  {
    if from < n {
      StartsShape(n, size, from + size);
    }
  }

  /** Every index below n, from `from` on, lies in a chunk: k is that chunk's number. */
  lemma {:induction false} StartsCover(n: nat, size: nat, from: nat, j: nat) returns (k: nat)
    requires size > 0 && from <= j < n
    ensures var r := Starts(n, size, from);
      k < |r| && r[k] <= j < Min(r[k] + size, n)
    decreases n - from
  {
    var r := Starts(n, size, from);
    assert r == [from] + Starts(n, size, from + size);
    if j < from + size {
      k := 0;
    } else {
      var rest := Starts(n, size, from + size);
      var m := StartsCover(n, size, from + size, j);
      assert r[m + 1] == rest[m];
      k := m + 1;
    }
  }

  /** One pick per chunk means the picks come in strictly increasing index order. */
  lemma PicksIncreasing(n: nat, size: nat, from: nat, picks: seq<nat>)
    requires size > 0 && OnePerChunk(n, Starts(n, size, from), size, picks)
    ensures forall a, b :: 0 <= a < b < |picks| ==> picks[a] < picks[b]
  {
    var r := Starts(n, size, from);
    StartsShape(n, size, from);
    forall a, b | 0 <= a < b < |picks| ensures picks[a] < picks[b] {
      StartsIncrease(r, size, a, b);
    }
  }

  lemma {:induction false} StartsIncrease(r: seq<nat>, size: nat, a: nat, b: nat)
    requires size > 0 && a < b < |r|
    requires forall k :: 0 <= k < |r| - 1 ==> r[k + 1] == r[k] + size
    ensures r[a] + size <= r[b]
    decreases b - a
  {
    if b > a + 1 {
      StartsIncrease(r, size, a, b - 1);
    }
  }

  /** There are never more chunks than the clamped count, and at least one for a
      non-empty list. */
  lemma ChunkCount(n: nat, count: int)
    requires count >= 0 && ChunkPlan(n, count).Success?
    ensures 1 <= |ChunkPlan(n, count).value.0| <= Min(count, n)
  {
    var c := Min(count, n);
    var size := (n + c - 1) / c;
    CeilDiv(n, c);
    StartsLength(n, size, 0);
    var len := |Starts(n, size, 0)|;
    assert (c + 1) * size == size * c + size;
    if len > c {
      MulMonotone(len, c + 1, size);
    }
    StartsShape(n, size, 0);
  }

  lemma CeilDiv(n: nat, c: nat)
    requires c > 0
    ensures ((n + c - 1) / c) * c >= n
  {
    var q, r := (n + c - 1) / c, (n + c - 1) % c;
    assert n + c - 1 == q * c + r;
  }

  lemma {:induction false} StartsLength(n: nat, size: nat, from: nat)
    requires size > 0 && from < n + size
    ensures |Starts(n, size, from)| * size < n - from + size
    decreases n - from
  {
    if from < n {
      StartsLength(n, size, from + size);
      var len := |Starts(n, size, from + size)|;
      assert (1 + len) * size == size + len * size;
    }
  }

  lemma MulMonotone(a: nat, b: nat, s: nat)
    requires a >= b
    ensures a * s >= b * s
  {
    assert a * s == b * s + (a - b) * s;
  }

  /** The count is a bound, not a promise: five elements asked for four give three. */
  lemma FewerThanCount()
    ensures ChunkPlan(5, 4) == Success(([0, 2, 4], 2))
  {
    assert (5 + 4 - 1) / 4 == 2;
    assert Starts(5, 2, 6) == [];
    assert Starts(5, 2, 4) == [4] + Starts(5, 2, 6);
    assert Starts(5, 2, 2) == [2] + Starts(5, 2, 4);
    assert Starts(5, 2, 0) == [0] + Starts(5, 2, 2);
    assert [0] + ([2] + ([4] + [])) == [0, 2, 4];
    assert Starts(5, 2, 0) == [0, 2, 4];
    assert Min(4, 5) == 4;
  }

  /** As written, an empty list (for every count) or a zero count divide by zero. */
  lemma EmptyListDivides(count: int)
    requires count >= 0
    ensures ChunkPlan(0, count) == Failure(DivideByZero)
  {
  }

  /** The evidently intended plan: nothing to draw from gives no chunks. */
  function GuardedPlan(n: nat, count: int): (r: Result<(seq<nat>, nat), Fault>)
    requires count >= 0
    ensures r.Success?
    ensures Min(count, n) > 0 ==> r == ChunkPlan(n, count)
    ensures Min(count, n) == 0 ==> r.value.0 == []
  {
    if Min(count, n) == 0 then Success(([], 1)) else ChunkPlan(n, count)
  }

  /** SelectAtRandom guarded against the empty case: it then selects nothing. */
  method SelectAtRandomGuarded<T>(list: seq<T>, count: int) returns (r: Result<seq<T>, Fault>, picks: seq<nat>)
    requires count >= 0
    ensures r.Success?
    ensures var (starts, size) := GuardedPlan(|list|, count).value;
      && OnePerChunk(|list|, starts, size, picks)
      && |r.value| == |picks| && forall k :: 0 <= k < |picks| ==> r.value[k] == list[picks[k]]
  {
    if Min(count, |list|) == 0 {
      return Success([]), [];
    }
    r, picks := SelectAtRandom(list, count);
  }

  // ---------------------------------------------------------------------------
  // WriteTitle

  /** string.PadLeft(width, c): throws on a negative width. */
  function PadLeft(s: string, width: int, c: char): (r: Result<string, Fault>)
    ensures width < 0 <==> r.Failure?
    ensures r.Success? ==> |r.value| == Max(width, |s|)
    ensures r.Success? ==> r.value == Repeat(c, |r.value| - |s|) + s
  {
    if width < 0 then Failure(OutOfRange)
    else if width <= |s| then
      assert Repeat(c, 0) + s == s;
      Success(s)
    else Success(Repeat(c, width - |s|) + s)
  }

  /** string.PadRight(width, c): throws on a negative width. */
  function PadRight(s: string, width: int, c: char): (r: Result<string, Fault>)
    ensures width < 0 <==> r.Failure?
    ensures r.Success? ==> |r.value| == Max(width, |s|)
    ensures r.Success? ==> r.value == s + Repeat(c, |r.value| - |s|)
  {
    if width < 0 then Failure(OutOfRange)
    else if width <= |s| then
      assert s + Repeat(c, 0) == s;
      Success(s)
    else Success(s + Repeat(c, width - |s|))
  }

  /** The text WriteTitle writes: ' ' + title + ' ', PadLeft((totalLength - its length) / 2,
      '='), then PadRight(totalLength, '='). */
  function TitleText(title: string, totalLength: int): Result<string, Fault> {
    var t := " " + title + " ";
    match PadLeft(t, TruncDiv(totalLength - |t|, 2), '=')
    case Failure(e) => Failure(e)
    case Success(left) => PadRight(left, totalLength, '=')
  }

  /** The title is written between single spaces, padded with '=' to at least
      totalLength; it throws exactly when totalLength is at most the title's length. */
  lemma TitleLaw(title: string, totalLength: int)
    ensures TitleText(title, totalLength).Failure? <==> totalLength <= |title|
    ensures TitleText(title, totalLength).Failure? ==> TitleText(title, totalLength).error == OutOfRange
    ensures var t := " " + title + " ";
      var r := TitleText(title, totalLength);
      r.Success? ==>
        && |r.value| == Max(totalLength, |t|)
        && exists lead: nat, trail: nat :: r.value == Repeat('=', lead) + t + Repeat('=', trail)
  {
    var t := " " + title + " ";
    var w := TruncDiv(totalLength - |t|, 2);
    var l := PadLeft(t, w, '=');
    if l.Success? {
      var lead := |l.value| - |t|;
      var p := PadRight(l.value, totalLength, '=');
      assert w <= totalLength;
      var trail := |p.value| - |l.value|;
      assert p.value == Repeat('=', lead) + t + Repeat('=', trail);
    }
  }

  /** As written the title is not centred: all but the room PadLeft fills goes right. */
  lemma TitleNotCentred()
    ensures TitleText("Hi", 20) == Success("==== Hi ============")
  {
    var t := " Hi ";
    assert " " + "Hi" + " " == t;
    assert TruncDiv(20 - 4, 2) == 8;
    assert Repeat('=', 4) == "====";
    assert "====" + t == "==== Hi ";
    assert PadLeft(t, 8, '=') == Success(Repeat('=', 4) + t);
    assert Repeat('=', 12) == "============";
    assert "==== Hi " + "============" == "==== Hi ============";
    assert PadRight("==== Hi ", 20, '=') == Success("==== Hi " + Repeat('=', 12));
    assert PadRight("==== Hi ", 20, '=') == Success("==== Hi ============");
  }

  /** The evidently intended title: half the padding left (rounded down), the rest right. */
  function CenteredTitle(title: string, totalLength: int): Result<string, Fault> {
    var t := " " + title + " ";
    match PadLeft(t, |t| + TruncDiv(totalLength - |t|, 2), '=')
    case Failure(e) => Failure(e)
    case Success(left) => PadRight(left, totalLength, '=')
  }

  /** A centred title fills totalLength exactly, with left and right padding differing
      by at most one. */
  lemma CenteredTitleLaw(title: string, totalLength: int)
    requires totalLength >= |title| + 2
    ensures var t := " " + title + " ";
      var r := CenteredTitle(title, totalLength);
      var lead := (totalLength - |t|) / 2;
      && r.Success? && |r.value| == totalLength
      && r.value == Repeat('=', lead) + t + Repeat('=', totalLength - |t| - lead)
      && 0 <= (totalLength - |t| - lead) - lead <= 1
  {
  }

  /** WriteTitle: the padded title, written on the line; a padding fault comes before
      anything is written. */
  method WriteTitle(line: Line, title: string, totalLength: int) returns (r: Outcome<Fault>)
    requires line.Valid()
    modifies line, line.term`pos, line.term`screen
    ensures line.Valid()
    ensures TitleText(title, totalLength).Failure? ==>
      r == Fail(TitleText(title, totalLength).error) && line.View() == old(line.View())
    ensures TitleText(title, totalLength).Success? ==>
      var e := WriteEffect(old(line.IsCurrent()), old(line.View()), TitleText(title, totalLength).value, None);
      line.View() == e.head && r == e.outcome
  {
    var text := TitleText(title, totalLength);
    if text.Failure? {
      return Fail(text.error);
    }
    r := line.Write(text.value, None);
  }
}
