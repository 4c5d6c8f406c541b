/** Terminal text attributes as SGR ("select graphic rendition") escape codes:
    the AnsiiStyle value type of the current line engine. */
module Styles {
  import opened Wrappers
  import opened Text

  /** The control sequence introducer ESC '['. */
  const Csi: string := ['\U{1B}', '[']

  datatype AnsiiColor = Black | Red | Green | Yellow | Blue | Magenta | Cyan | White | Default
  {
    /** The enum's numeric value. */
    function Value(): nat {
      match this
      case Black => 0
      case Red => 1
      case Green => 2
      case Yellow => 3
      case Blue => 4
      case Magenta => 5
      case Cyan => 6
      case White => 7
      case Default => 9
    }
  }

  /** A style is the parameter text of one SGR escape, such as "3;31". */
  datatype AnsiiStyle = AnsiiStyle(code: string)
  {
    /** The escape sequence that switches the style on. */
    function ToString(): string {
      Csi + code + "m"
    }

    /** operator +: both styles at once, parameters joined by ';'. */
    function Plus(right: AnsiiStyle): AnsiiStyle {
      AnsiiStyle(code + ";" + right.code)
    }

    /** The numeric SGR parameters the code denotes, None if one is not a numeral. */
    function Codes(): Option<seq<nat>> {
      Parameters(Fields(code))
    }
  }

  function Parameters(fields: seq<string>): Option<seq<nat>> {
    if fields == [] then Some([])
    else if !IsNumeral(fields[0]) then None
    else match Parameters(fields[1..])
      case None => None
      case Some(rest) => Some([ParseNat(fields[0])] + rest)
  }

  const Clear := AnsiiStyle("0")
  const Bold := AnsiiStyle("1")
  const Faint := AnsiiStyle("2")
  const Italic := AnsiiStyle("3")
  const Underline := AnsiiStyle("4")
  const Blink := AnsiiStyle("5")
  const Inverse := AnsiiStyle("6")
  const Invisible := AnsiiStyle("7")
  const Strikethrough := AnsiiStyle("8")

  function Foreground(color: AnsiiColor): AnsiiStyle {
    AnsiiStyle(NatToString(30 + color.Value()))
  }

  /** As written: the same 30-based code as Foreground. */
  function Background(color: AnsiiColor): AnsiiStyle {
    AnsiiStyle(NatToString(30 + color.Value()))
  }

  /** The SGR background code, 40 + colour, as the older StringStyle uses it. */
  function BackgroundCorrected(color: AnsiiColor): AnsiiStyle {
    AnsiiStyle(NatToString(40 + color.Value()))
  }

  /** The SGR parameter text of a list of codes: their numerals joined by ';'. */
  function Sgr(codes: seq<nat>): string {
    Join(Numerals(codes))
  }

  function Numerals(codes: seq<nat>): (r: seq<string>)
    ensures |r| == |codes|
    ensures forall k :: 0 <= k < |codes| ==> r[k] == NatToString(codes[k])
  {
    if codes == [] then [] else [NatToString(codes[0])] + Numerals(codes[1..])
  }

  lemma {:induction false} ParametersOfConcat(a: seq<string>, b: seq<string>)
    ensures Parameters(a + b) ==
      match (Parameters(a), Parameters(b))
      case (Some(x), Some(y)) => Some(x + y)
      case _ => None
  {
    if a != [] {
      assert (a + b)[0] == a[0] && (a + b)[1..] == a[1..] + b;
      ParametersOfConcat(a[1..], b);
      if IsNumeral(a[0]) {
        match (Parameters(a[1..]), Parameters(b))
        case (Some(x), Some(y)) =>
          assert [ParseNat(a[0])] + (x + y) == ([ParseNat(a[0])] + x) + y;
        case _ =>
      }
    } else {
      assert a + b == b;
      match Parameters(b)
      case None =>
      case Some(y) => assert [] + y == y;
    }
  }

  lemma {:induction false} ParametersOfNumerals(codes: seq<nat>)
    ensures Parameters(Numerals(codes)) == Some(codes)
  {
    if codes != [] {
      ParametersOfNumerals(codes[1..]);
      ParseNatToString(codes[0]);
      assert Numerals(codes)[1..] == Numerals(codes[1..]);
      assert [codes[0]] + codes[1..] == codes;
    }
  }

  lemma NumeralHasNoSemicolon(s: string)
    requires IsNumeral(s)
    ensures ';' !in s
  {
    assert forall k :: 0 <= k < |s| ==> s[k] != ';' by {
      forall k | 0 <= k < |s| ensures s[k] != ';' { assert IsDigit(s[k]); }
    }
  }

  /** The SGR text of a non-empty code list denotes exactly that list. */
  lemma SgrCodes(codes: seq<nat>)
    requires |codes| >= 1
    ensures AnsiiStyle(Sgr(codes)).Codes() == Some(codes)
  {
    var parts := Numerals(codes);
    forall k | 0 <= k < |parts| ensures ';' !in parts[k] {
      NumeralHasNoSemicolon(parts[k]);
    }
    FieldsOfJoin(parts);
    ParametersOfNumerals(codes);
  }

  /** A single numeral styles with exactly its one code. */
  lemma NumeralCodes(n: nat)
    ensures AnsiiStyle(NatToString(n)).Codes() == Some([n])
  {
    var s := NatToString(n);
    NumeralHasNoSemicolon(s);
    FieldsOfPlain(s);
    ParseNatToString(n);
    assert [s][1..] == [];
    assert Parameters([s]) == Some([ParseNat(s)] + []);
    assert [ParseNat(s)] + [] == [n];
    assert AnsiiStyle(s).Codes() == Parameters([s]);
  }

  /** The escape for a combination carries the left style's codes, then the right's. */
  lemma PlusCodes(left: AnsiiStyle, right: AnsiiStyle)
    ensures left.Plus(right).ToString() == Csi + left.code + ";" + right.code + "m"
    ensures left.Plus(right).Codes() ==
      match (left.Codes(), right.Codes())
      case (Some(x), Some(y)) => Some(x + y)
      case _ => None
  {
    FieldsOfConcat(left.code, right.code);
    ParametersOfConcat(Fields(left.code), Fields(right.code));
  }

  /** Foreground colours use the codes 30..39. */
  lemma ForegroundCodes(color: AnsiiColor)
    ensures Foreground(color).Codes() == Some([30 + color.Value()])
    ensures 30 <= 30 + color.Value() <= 39
  {
    NumeralCodes(30 + color.Value());
  }

  /** The named styles are the SGR attributes 0..8. */
  lemma NamedStyleCodes()
    ensures Clear.Codes() == Some([0]) && Bold.Codes() == Some([1]) && Faint.Codes() == Some([2])
    ensures Italic.Codes() == Some([3]) && Underline.Codes() == Some([4]) && Blink.Codes() == Some([5])
    ensures Inverse.Codes() == Some([6]) && Invisible.Codes() == Some([7])
    ensures Strikethrough.Codes() == Some([8])
  {
    NumeralCodes(0); NumeralCodes(1); NumeralCodes(2);
    NumeralCodes(3); NumeralCodes(4); NumeralCodes(5);
    NumeralCodes(6); NumeralCodes(7); NumeralCodes(8);
  }

  /** As written, a background colour is indistinguishable from the same foreground colour. */
  lemma BackgroundIsForeground(color: AnsiiColor)
    ensures Background(color).Codes() == Foreground(color).Codes() == Some([30 + color.Value()])
  {
    NumeralCodes(30 + color.Value());
  }

  /** The corrected background uses the codes 40..49, never a foreground code. */
  lemma BackgroundCorrectedCodes(color: AnsiiColor)
    ensures BackgroundCorrected(color).Codes() == Some([40 + color.Value()])
    ensures 40 <= 40 + color.Value() <= 49
    ensures forall other: AnsiiColor :: BackgroundCorrected(color).Codes() != Foreground(other).Codes()
  {
    NumeralCodes(40 + color.Value());
    forall other: AnsiiColor ensures BackgroundCorrected(color).Codes() != Foreground(other).Codes() {
      ForegroundCodes(other);
    }
  }
}

/** The older, obsolete StringStyle builder: SGR codes collected in a sorted set. */
module LegacyStyles {
  import opened Wrappers
  import opened Text
  import opened Styles

  datatype AnsiiMode = NoMode | Bold | Faint | Italic | Underline | Blink | Inverse | Invisible | Strikethrough
  {
    /** The enum's numeric value (NoMode is the enum's None, 0). */
    function Value(): nat {
      match this
      case NoMode => 0
      case Bold => 1
      case Faint => 2
      case Italic => 3
      case Underline => 4
      case Blink => 5
      case Inverse => 6
      case Invisible => 7
      case Strikethrough => 8
    }
  }

  predicate Increasing(s: seq<nat>) {
    forall i, j :: 0 <= i < j < |s| ==> s[i] < s[j]
  }

  /** The members of s. */
  function Elements(s: seq<nat>): set<nat> {
    if s == [] then {} else {s[0]} + Elements(s[1..])
  }

  lemma ElementsCons(h: nat, t: seq<nat>)
    ensures Elements([h] + t) == {h} + Elements(t)
  {
    assert ([h] + t)[1..] == t;
  }

  lemma IncreasingCons(h: nat, t: seq<nat>)
    requires Increasing(t) && (t == [] || h < t[0])
    ensures Increasing([h] + t)
  {
    forall i, j | 0 <= i < j < |[h] + t| ensures ([h] + t)[i] < ([h] + t)[j] {
      if i == 0 && j > 1 {
        assert t[0] < t[j - 1];
      }
    }
  }

  /** SortedSet<int>.Add on the set's ascending enumeration. */
  function Insert(s: seq<nat>, x: nat): (r: seq<nat>)
    requires Increasing(s)
    ensures Increasing(r)
    ensures Elements(r) == Elements(s) + {x}
    ensures |r| >= 1 && (r[0] == x || (s != [] && r[0] == s[0]))
  {
    if s == [] then [x]
    else if x < s[0] then
      IncreasingCons(x, s);
      ElementsCons(x, s);
      [x] + s
    else if x == s[0] then s
    else
      var t := Insert(s[1..], x);
      assert s[1..] != [] ==> s[0] < s[1..][0];
      IncreasingCons(s[0], t);
      ElementsCons(s[0], t);
      [s[0]] + t
  }

  class StringStyle {
    var args: seq<nat>   // the SortedSet's contents in ascending order

    ghost predicate Valid()
      reads this
    {
      Increasing(args)
    }

    constructor ()
      ensures Valid() && args == []
    {
      args := [];
    }

    method Mode(mode: AnsiiMode)
      requires Valid()
      modifies this
      ensures Valid() && Elements(args) == old(Elements(args)) + {mode.Value()}
    {
      args := Insert(args, mode.Value());
    }

    method Bold()
      requires Valid()
      modifies this
      ensures Valid() && Elements(args) == old(Elements(args)) + {1}
    {
      Mode(AnsiiMode.Bold);
    }

    method Italic()
      requires Valid()
      modifies this
      ensures Valid() && Elements(args) == old(Elements(args)) + {3}
    {
      Mode(AnsiiMode.Italic);
    }

    method Underline()
      requires Valid()
      modifies this
      ensures Valid() && Elements(args) == old(Elements(args)) + {4}
    {
      Mode(AnsiiMode.Underline);
    }

    method Foreground(color: AnsiiColor)
      requires Valid()
      modifies this
      ensures Valid() && Elements(args) == old(Elements(args)) + {30 + color.Value()}
    {
      args := Insert(args, 30 + color.Value());
    }

    method Background(color: AnsiiColor)
      requires Valid()
      modifies this
      ensures Valid() && Elements(args) == old(Elements(args)) + {40 + color.Value()}
    {
      args := Insert(args, 40 + color.Value());
    }

    /** s between the escape for the collected codes, in ascending order, and the reset escape. */
    function Apply(s: string): (r: string)
      reads this
      requires Valid()
      ensures r == AnsiiStyle(Sgr(args)).ToString() + s + Clear.ToString()
      ensures |args| >= 1 ==> AnsiiStyle(Sgr(args)).Codes() == Some(args)
    {
      assert |args| >= 1 ==> AnsiiStyle(Sgr(args)).Codes() == Some(args) by {
        if |args| >= 1 { SgrCodes(args); }
      }
      Csi + Sgr(args) + "m" + s + Csi + "0m"
    }
  }
}
