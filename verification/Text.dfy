/**
 * The string operations that the exam page and the helper library lean on:
 * JavaScript's decimal rendering of integers, String.prototype.padStart with
 * a one-character pad, and, as their partners, the digit parsing and field
 * splitting needed to read the formatted text back.
 */
module Text {

  datatype Option<T> = None | Some(value: T)

  predicate IsDigit(c: char) {
    '0' <= c <= '9'
  }

  predicate IsDigits(s: string) {
    forall i :: 0 <= i < |s| ==> IsDigit(s[i])
  }

  /** A non-empty run of decimal digits. */
  predicate IsNumeral(s: string) {
    |s| > 0 && IsDigits(s)
  }

  function DigitChar(d: nat): (c: char)
    requires d < 10
    ensures IsDigit(c)
  {
    (('0' as int) + d) as char
  }

  function DigitValue(c: char): (d: nat)
    requires IsDigit(c)
    ensures d < 10
  {
    (c as int) - ('0' as int)
  }

  /**
   * Decimal text of a natural number, as Number.prototype.toString renders an
   * integer-valued number below 2^53 (from 1e21 on JavaScript switches to
   * exponent form, and above 2^53 its doubles are no longer exact).
   */
  function NatToString(n: nat): (s: string)
    ensures IsNumeral(s)
    ensures n >= 10 ==> s[0] != '0'
  {
    if n < 10 then [DigitChar(n)] else NatToString(n / 10) + [DigitChar(n % 10)]
  }

  /** Decimal text of an integer, as String(i) renders one of magnitude below 2^53: a minus sign, then the magnitude. */
  function IntToString(i: int): (s: string)
    ensures |s| > 0
    ensures i >= 0 ==> s == NatToString(i)
    ensures i < 0 ==> s[0] == '-' && s[1..] == NatToString(-i)
  {
    if i < 0 then "-" + NatToString(-i) else NatToString(i)
  }

  function Pow10(k: nat): (p: nat)
    ensures p >= 1
  {
    if k == 0 then 1 else 10 * Pow10(k - 1)
  }

  /** A number has at most k digits exactly when it is below 10^k. */
  lemma {:induction false} NatToStringLength(n: nat, k: nat)
    requires k >= 1
    ensures (|NatToString(n)| <= k) == (n < Pow10(k))
  {
    if n >= 10 {
      assert |NatToString(n)| == |NatToString(n / 10)| + 1;
      if k == 1 {
        assert Pow10(1) == 10;
      } else {
        NatToStringLength(n / 10, k - 1);
        assert (n / 10 < Pow10(k - 1)) == (n < 10 * Pow10(k - 1));
      }
    } else {
      assert Pow10(k) >= 10 by { Pow10AtLeastTen(k); }
    }
  }

  lemma {:induction false} Pow10AtLeastTen(k: nat)
    requires k >= 1
    ensures Pow10(k) >= 10
  {
    if k > 1 {
      Pow10AtLeastTen(k - 1);
    }
  }

  /** Numbers below 100 render as one digit below 10 and as two digits from 10 on. */
  lemma NatToStringSmall(n: nat)
    requires n < 100
    ensures |NatToString(n)| == if n < 10 then 1 else 2
  {
    assert Pow10(2) == 100;
    NatToStringLength(n, 2);
  }

  /** Four-digit numbers render as four characters. */
  lemma NatToStringFourDigits(n: nat)
    requires 1000 <= n < 10000
    ensures |NatToString(n)| == 4
  {
    assert Pow10(3) == 1000 && Pow10(4) == 10000;
    NatToStringLength(n, 4);
    NatToStringLength(n, 3);
  }

  /**
   * s.padStart(width, [pad]) with a single-character pad: the pad is put in
   * front of s until the text is width characters long; a text already that
   * long is returned as it is.
   */
  function PadStart(s: string, width: nat, pad: char): (r: string)
    ensures |r| == if |s| >= width then |s| else width
    ensures r[|r| - |s|..] == s
    ensures forall i :: 0 <= i < |r| - |s| ==> r[i] == pad
    decreases width - |s|
  {
    if |s| >= width then s else PadStart([pad] + s, width, pad)
  }

  /** Two-digit rendering of a small number: n.toString().padStart(2, '0'). */
  function Pad2(n: nat): (r: string)
    ensures IsNumeral(r)
    ensures n < 100 ==> |r| == 2
  {
    var s := NatToString(n);
    ParseNatPadStart(s, 2);
    if n < 100 then NatToStringSmall(n); PadStart(s, 2, '0') else PadStart(s, 2, '0')
  }

  /** From 10 on the numeral already has two digits or more, so Pad2 adds no zero. */
  lemma Pad2Wide(n: nat)
    requires n >= 10
    ensures Pad2(n) == NatToString(n)
  {
    NatToStringLength(n, 1);
  }

  /** The value of a run of decimal digits, most significant first. */
  function ParseNat(s: string): (n: nat)
    requires IsDigits(s)
  {
    if |s| == 0 then 0 else ParseNat(s[..|s| - 1]) * 10 + DigitValue(s[|s| - 1])
  }

  /** Reading back the decimal text of n gives n. */
  lemma {:induction false} ParseNatToString(n: nat)
    ensures ParseNat(NatToString(n)) == n
  {
    var s := NatToString(n);
    if n < 10 {
      assert s[..0] == [];
    } else {
      assert s[..|s| - 1] == NatToString(n / 10);
      ParseNatToString(n / 10);
    }
  }

  /** A leading zero does not change the value of a numeral. */
  lemma {:induction false} ParseNatLeadingZero(s: string)
    requires IsDigits(s)
    ensures IsDigits(['0'] + s) && ParseNat(['0'] + s) == ParseNat(s)
  {
    var t := ['0'] + s;
    if |s| == 0 {
      assert t[..0] == [];
    } else {
      assert t[..|t| - 1] == ['0'] + s[..|s| - 1];
      ParseNatLeadingZero(s[..|s| - 1]);
    }
  }

  /** Padding a numeral with zeros keeps its value. */
  lemma {:induction false} ParseNatPadStart(s: string, width: nat)
    requires IsDigits(s)
    ensures IsDigits(PadStart(s, width, '0'))
    ensures ParseNat(PadStart(s, width, '0')) == ParseNat(s)
    decreases width - |s|
  {
    if |s| < width {
      ParseNatLeadingZero(s);
      ParseNatPadStart(['0'] + s, width);
    }
  }

  lemma ParsePad2(n: nat)
    ensures ParseNat(Pad2(n)) == n
  {
    ParseNatPadStart(NatToString(n), 2);
    ParseNatToString(n);
  }

  /** Index of the first occurrence of c in t, or |t| when there is none. */
  function FindChar(t: string, c: char): (i: nat)
    ensures i <= |t|
    ensures i < |t| ==> t[i] == c
    ensures forall j :: 0 <= j < i ==> t[j] != c
  {
    if |t| == 0 then 0 else if t[0] == c then 0 else 1 + FindChar(t[1..], c)
  }

  /** The text before and after the first c, or None when t holds no c. */
  function SplitAt(t: string, c: char): (r: Option<(string, string)>)
    ensures r.None? <==> c !in t
    ensures r.Some? ==> r.value.0 + [c] + r.value.1 == t && c !in r.value.0
  {
    var i := FindChar(t, c);
    if i == |t| then None else Some((t[..i], t[i + 1..]))
  }

  /**
   * The numbers in t around the separators seps, taken in order: the numeral
   * up to the first seps[0], then up to the next seps[1], and so on, the last
   * one being all that is left. None when a separator is missing or a field is
   * not a numeral.
   */
  function ReadNumbers(t: string, seps: string): (r: Option<seq<nat>>)
    ensures r.Some? ==> |r.value| == |seps| + 1
    decreases |seps|
  {
    if |seps| == 0 then
      if IsNumeral(t) then Some([ParseNat(t)]) else None
    else
      match SplitAt(t, seps[0])
      case None => None
      case Some((field, rest)) =>
        if !IsNumeral(field) then None
        else
          match ReadNumbers(rest, seps[1..])
          case None => None
          case Some(ns) => Some([ParseNat(field)] + ns)
  }

  /** Two fields with a one-character separator between them. */
  function Joined(a: string, sep: char, b: string): (r: string)
    ensures |r| == |a| + 1 + |b|
    ensures forall i :: 0 <= i < |a| ==> r[i] == a[i]
    ensures r[|a|] == sep
    ensures forall i :: |a| < i < |r| ==> r[i] == b[i - |a| - 1]
  {
    a + [sep] + b
  }

  /** Splitting at the first c gives back both fields when the first holds no c. */
  lemma SplitAtJoin(a: string, c: char, b: string)
    requires c !in a
    ensures SplitAt(Joined(a, c, b), c) == Some((a, b))
  {
    var t := Joined(a, c, b);
    var i := FindChar(t, c);
    assert forall j :: 0 <= j < |a| ==> t[j] == a[j];
    assert t[..i] == a;
    assert t[i + 1..] == b;
  }

  /** Splitting a numeral followed by a separator that is not a digit gives back the numeral. */
  lemma SplitAfterNumeral(a: string, c: char, b: string)
    requires IsDigits(a) && !IsDigit(c)
    ensures SplitAt(Joined(a, c, b), c) == Some((a, b))
  {
    NotInDigits(a, c);
    SplitAtJoin(a, c, b);
  }

  /** A numeral followed by a separator that is not a digit is read off as the first number. */
  lemma ReadNumbersStep(a: string, n: nat, c: char, rest: string, seps: string, ns: seq<nat>)
    requires |seps| > 0 && seps[0] == c && !IsDigit(c)
    requires IsNumeral(a) && ParseNat(a) == n
    requires ReadNumbers(rest, seps[1..]) == Some(ns)
    ensures ReadNumbers(Joined(a, c, rest), seps) == Some([n] + ns)
  {
    SplitAfterNumeral(a, c, rest);
  }

  lemma ReadNumbersPad2(n: nat, c: char, rest: string, seps: string, ns: seq<nat>)
    requires |seps| > 0 && seps[0] == c && !IsDigit(c)
    requires ReadNumbers(rest, seps[1..]) == Some(ns)
    ensures ReadNumbers(Joined(Pad2(n), c, rest), seps) == Some([n] + ns)
  {
    ParsePad2(n);
    ReadNumbersStep(Pad2(n), n, c, rest, seps, ns);
  }

  lemma ReadNumbersLastPad2(n: nat)
    ensures ReadNumbers(Pad2(n), "") == Some([n])
  {
    ParsePad2(n);
  }

  /** A separator that is not a digit does not occur in a numeral. */
  lemma NotInDigits(s: string, c: char)
    requires IsDigits(s) && !IsDigit(c)
    ensures c !in s
  {
  }

  /** t has the shape of pat: a digit wherever pat holds '#', and pat's own character everywhere else. */
  predicate Fits(t: string, pat: string) {
    |t| == |pat| && forall i :: 0 <= i < |t| ==> if pat[i] == '#' then IsDigit(t[i]) else t[i] == pat[i]
  }

  /** Shapes compose over a separator. */
  lemma FitsJoined(a: string, pa: string, c: char, b: string, pb: string)
    requires Fits(a, pa) && Fits(b, pb) && c != '#'
    ensures Fits(Joined(a, c, b), Joined(pa, c, pb))
  {
    var t, p := Joined(a, c, b), Joined(pa, c, pb);
    forall i | 0 <= i < |t|
      ensures if p[i] == '#' then IsDigit(t[i]) else t[i] == p[i]
    {
      if i < |a| {
        assert t[i] == a[i] && p[i] == pa[i];
      } else if i > |a| {
        assert t[i] == b[i - |a| - 1] && p[i] == pb[i - |a| - 1];
      }
    }
  }

  /** Two two-digit fields around ':' have the shape of a clock. */
  lemma ClockFits(a: string, b: string)
    requires Fits(a, "##") && Fits(b, "##")
    ensures Fits(Joined(a, ':', b), "##:##")
  {
    FitsJoined(a, "##", ':', b, "##");
    assert Joined("##", ':', "##") == "##:##";
  }

  lemma TwoDigitsFit(s: string)
    requires IsDigits(s) && |s| == 2
    ensures Fits(s, "##")
  {
    assert "##"[0] == '#' && "##"[1] == '#';
  }

  lemma Pad2Fits(n: nat)
    requires n < 100
    ensures Fits(Pad2(n), "##")
  {
    TwoDigitsFit(Pad2(n));
  }

  lemma FourDigitsFit(n: nat)
    requires 1000 <= n < 10000
    ensures Fits(NatToString(n), "####")
  {
    NatToStringFourDigits(n);
    var s := NatToString(n);
    assert "####"[0] == '#' && "####"[1] == '#' && "####"[2] == '#' && "####"[3] == '#';
  }
}
