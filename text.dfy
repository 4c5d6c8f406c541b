/** Characters, strings and integers as the .NET base library treats them. */
module Text {

  const Int32Max: int := 0x7fff_ffff      // int.MaxValue
  const Int32Min: int := -0x8000_0000     // int.MinValue

  function Min(a: int, b: int): int { if a <= b then a else b }
  function Max(a: int, b: int): int { if a <= b then b else a }

  /** C#'s `/` on int truncates toward zero; Dafny's `/` is Euclidean. */
  function TruncDiv(a: int, b: int): (q: int)
    requires b > 0
    ensures a >= 0 ==> q == a / b
    ensures a < 0 ==> q == -((-a) / b)
  {
    if a >= 0 then a / b else -((-a) / b)
  }

  /** char.IsControl: the Unicode category Cc, U+0000..U+001F and U+007F..U+009F. */
  predicate IsControl(c: char) {
    c <= '\U{1F}' || ('\U{7F}' <= c <= '\U{9F}')
  }

  /** char.IsWhiteSpace: the separators Zs, Zl, Zp and U+0009..U+000D, U+0085. */
  predicate IsWhiteSpace(c: char) {
    ('\U{9}' <= c <= '\U{D}') || c == ' ' || c == '\U{85}' || c == '\U{A0}' || c == '\U{1680}'
    || ('\U{2000}' <= c <= '\U{200A}') || c == '\U{2028}' || c == '\U{2029}'
    || c == '\U{202F}' || c == '\U{205F}' || c == '\U{3000}'
  }

  /** s.Any(char.IsControl) */
  predicate HasControl(s: string) {
    exists k :: 0 <= k < |s| && IsControl(s[k])
  }

  /** new string(c, n) */
  function Repeat(c: char, n: nat): (r: string)
    ensures |r| == n
    ensures forall k :: 0 <= k < n ==> r[k] == c
  {
    seq(n, _ => c)
  }

  /** new string(c, n) holds a control character exactly when c is one. */
  lemma RepeatControl(c: char, n: nat)
    requires n > 0
    ensures HasControl(Repeat(c, n)) <==> IsControl(c)
  {
    assert Repeat(c, n)[0] == c;
  }

  /** Upper-case to lower-case for ASCII and the Latin-1 letters. */
  function FoldCase(c: char): char {
    if ('A' <= c <= 'Z') || ('\U{C0}' <= c <= '\U{DE}' && c != '\U{D7}')
    then (c as int + 32) as char
    else c
  }

  /** Equality ignoring case, compared character by character after folding the
      ASCII and Latin-1 letters. string.Compare(a, b, ignoreCase: true) == 0 is a
      culture-sensitive comparison; this is its code-point-wise part only. */
  predicate EqualsIgnoreCase(a: string, b: string) {
    |a| == |b| && forall k :: 0 <= k < |a| ==> FoldCase(a[k]) == FoldCase(b[k])
  }

  predicate IsDigit(c: char) { '0' <= c <= '9' }

  predicate IsNumeral(s: string) {
    |s| >= 1 && forall k :: 0 <= k < |s| ==> IsDigit(s[k])
  }

  function DigitChar(d: nat): (c: char)
    requires d < 10
    ensures IsDigit(c)
  {
    ('0' as int + d) as char
  }

  /** int.ToString() for a non-negative value. */
  function NatToString(n: nat): (s: string)
    ensures IsNumeral(s)
  {
    if n < 10 then [DigitChar(n)] else NatToString(n / 10) + [DigitChar(n % 10)]
  }

  /** The value a numeral denotes (the inverse of NatToString). */
  function ParseNat(s: string): nat
    requires forall k :: 0 <= k < |s| ==> IsDigit(s[k])
  {
    if s == [] then 0
    else
      assert IsDigit(s[|s| - 1]);
      var d := s[|s| - 1] as int - '0' as int;
      ParseNat(s[..|s| - 1]) * 10 + d
  }

  lemma {:induction false} ParseNatToString(n: nat)
    ensures ParseNat(NatToString(n)) == n
  {
    var s := NatToString(n);
    if n >= 10 {
      ParseNatToString(n / 10);
      assert s[..|s| - 1] == NatToString(n / 10);
    }
  }

  /** s.Split(';') */
  function Fields(s: string): (r: seq<string>)
    ensures |r| >= 1
  {
    if s == [] then [""]
    else
      var rest := Fields(s[1..]);
      if s[0] == ';' then [""] + rest else [[s[0]] + rest[0]] + rest[1..]
  }

  /** string.Join(';', parts) */
  function Join(parts: seq<string>): string {
    if parts == [] then ""
    else if |parts| == 1 then parts[0]
    else parts[0] + ";" + Join(parts[1..])
  }

  lemma {:induction false} FieldsOfPlain(s: string)
    requires ';' !in s
    ensures Fields(s) == [s]
  {
    if s != [] {
      assert s[0] != ';' && ';' !in s[1..];
      FieldsOfPlain(s[1..]);
      assert [s[0]] + s[1..] == s;
    }
  }

  /** Splitting a join of ';'-free parts gives the parts back. */
  lemma {:induction false} FieldsOfJoin(parts: seq<string>)
    requires |parts| >= 1
    requires forall k :: 0 <= k < |parts| ==> ';' !in parts[k]
    ensures Fields(Join(parts)) == parts
  {
    if |parts| == 1 {
      FieldsOfPlain(parts[0]);
    } else {
      FieldsOfJoin(parts[1..]);
      FieldsOfConcat(parts[0], Join(parts[1..]));
      FieldsOfPlain(parts[0]);
    }
  }

  /** Fields of a string with one more character in front. */
  lemma FieldsCons(c: char, s: string)
    ensures Fields([c] + s) == if c == ';' then [""] + Fields(s) else [[c] + Fields(s)[0]] + Fields(s)[1..]
  {
    assert ([c] + s)[0] == c && ([c] + s)[1..] == s;
  }

  /** Fields(a + ";" + b) splits into the fields of a followed by those of b. */
  lemma {:induction false} FieldsOfConcat(a: string, b: string)
    ensures Fields(a + ";" + b) == Fields(a) + Fields(b)
  {
    if a == [] {
      assert a + ";" + b == [';'] + b;
      FieldsCons(';', b);
    } else {
      var t := a[1..] + ";" + b;
      assert a + ";" + b == [a[0]] + t;
      assert a == [a[0]] + a[1..];
      FieldsOfConcat(a[1..], b);
      FieldsCons(a[0], t);
      FieldsCons(a[0], a[1..]);
      var tail, more := Fields(a[1..]), Fields(b);
      assert Fields(t) == tail + more;
      if a[0] == ';' {
        assert Fields(a + ";" + b) == [""] + (tail + more);
        assert Fields(a) == [""] + tail;
        PrependAppend("", tail, more);
      } else {
        ExtendFirst(a[0], tail, more);
        assert Fields(a + ";" + b) == [[a[0]] + (tail + more)[0]] + (tail + more)[1..];
        assert Fields(a) == [[a[0]] + tail[0]] + tail[1..];
      }
    }
  }

  lemma PrependAppend(x: string, tail: seq<string>, more: seq<string>)
    ensures [x] + (tail + more) == ([x] + tail) + more
  {
  }

  /** Extending the first of the parts commutes with appending more parts. */
  lemma ExtendFirst(c: char, tail: seq<string>, more: seq<string>)
    requires |tail| >= 1
    ensures [[c] + (tail + more)[0]] + (tail + more)[1..] == ([[c] + tail[0]] + tail[1..]) + more
  {
    assert (tail + more)[1..] == tail[1..] + more;
  }
}
