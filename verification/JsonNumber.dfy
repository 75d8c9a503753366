/** The numbers of JSON texts (section 6 of RFC 8259): where one ends, and that it is read the same
    before anything that does not go on with it. */
module JsonNumber {
  import opened Wrappers
  import opened Decimal

  /** What may follow a number: not more of the number. */
  predicate Stops(rest: string) {
    rest != "" ==> !IsDigit(rest[0]) && rest[0] != '.' && rest[0] != 'e' && rest[0] != 'E'
  }

  predicate NumberChar(c: char) {
    IsDigit(c) || c == '-' || c == '+' || c == '.' || c == 'e' || c == 'E'
  }

  predicate NumberChars(w: string) {
    forall i :: 0 <= i < |w| ==> NumberChar(w[i])
  }

  // ------------------------------------------------------------------------ the end of a number

  function SkipDigits(s: string): (r: string)
    ensures |r| <= |s|
    ensures r != "" ==> !IsDigit(r[0])
  {
    if s != "" && IsDigit(s[0]) then SkipDigits(s[1..]) else s
  }

  /** What follows the digits that must stand at the front. */
  function DigitsEnd(s: string): (r: Option<string>)
    ensures r.Some? ==> |r.value| < |s|
  {
    if s == "" || !IsDigit(s[0]) then None else Some(SkipDigits(s[1..]))
  }

  function AfterMinus(s: string): (r: string)
    ensures |r| <= |s|
  {
    if s != "" && s[0] == '-' then s[1..] else s
  }

  /** A leading zero stands alone. */
  function IntegerEnd(s: string): (r: Option<string>)
    ensures r.Some? ==> |r.value| < |s|
  {
    var t := AfterMinus(s);
    if t != "" && t[0] == '0' && 1 < |t| && IsDigit(t[1]) then None else DigitsEnd(t)
  }

  function FractionEnd(s: string): (r: Option<string>)
    ensures r.Some? ==> |r.value| <= |s|
  {
    if s == "" || s[0] != '.' then Some(s) else DigitsEnd(s[1..])
  }

  function ExponentEnd(s: string): (r: Option<string>)
    ensures r.Some? ==> |r.value| <= |s|
  {
    if s == "" || (s[0] != 'e' && s[0] != 'E') then Some(s)
    else if 1 < |s| && (s[1] == '+' || s[1] == '-') then DigitsEnd(s[2..])
    else DigitsEnd(s[1..])
  }

  /** What follows the number at the front, when there is one. */
  function NumberEnd(s: string): (r: Option<string>)
    ensures r.Some? ==> |r.value| < |s|
  {
    var t :- IntegerEnd(s);
    var u :- FractionEnd(t);
    ExponentEnd(u)
  }

  // ------------------------------------------------------------------------------ reading ahead

  /** The digits at the front, and that they end where something else begins. */
  lemma {:induction false} SkipAhead(s: string, after: string) returns (w: string)
    requires after != "" ==> !IsDigit(after[0])
    ensures s == w + SkipDigits(s) && NumberChars(w)
    ensures SkipDigits(w + after) == after
    decreases |s|
  {
    if s != "" && IsDigit(s[0]) {
      var v := SkipAhead(s[1..], after);
      w := [s[0]] + v;
      assert (w + after)[1..] == v + after;
    } else {
      w := "";
      assert "" + after == after && "" + s == s;
    }
  }

  lemma DigitsAhead(s: string, after: string) returns (w: string)
    requires DigitsEnd(s).Some? && (after != "" ==> !IsDigit(after[0]))
    ensures s == w + DigitsEnd(s).value && NumberChars(w) && w != "" && w[0] == s[0]
    ensures DigitsEnd(w + after) == Some(after)
    ensures |w| > 1 ==> s[1] == w[1] && IsDigit(w[1])
  {
    var v := SkipAhead(s[1..], after);
    w := [s[0]] + v;
    assert (w + after)[1..] == v + after;
    if v != "" {
      assert s[1..][0] == v[0];
      assert (v + after)[0] == v[0];
    }
  }

  /** A character in front of digits that are read ahead. */
  lemma InFront(s: string, front: string, w: string, rest: string, after: string)
    requires front <= s && s[|front|..] == w + rest
    ensures s == front + w + rest
    ensures (front + w + after)[..|front|] == front && (front + w + after)[|front|..] == w + after
  {
    assert s == front + s[|front|..];
  }

  lemma IntegerAhead(s: string, after: string) returns (w: string)
    requires IntegerEnd(s).Some? && (after != "" ==> !IsDigit(after[0]))
    ensures s == w + IntegerEnd(s).value && NumberChars(w) && w != "" && w[0] == s[0]
    ensures IntegerEnd(w + after) == Some(after)
  {
    var t := AfterMinus(s);
    var v := DigitsAhead(t, after);
    var front := if s[0] == '-' then "-" else "";
    InFront(s, front, v, IntegerEnd(s).value, after);
    w := front + v;
    hide DigitsEnd;
    var x := v + after;
    assert AfterMinus(w + after) == x;
    assert x[0] == t[0];
    assert 1 < |v| ==> x[1] == v[1] == t[1];
    assert 1 == |v| && after != "" ==> x[1] == after[0];
  }

  lemma FractionAhead(s: string, after: string) returns (w: string)
    requires FractionEnd(s).Some? && (after != "" ==> !IsDigit(after[0]) && after[0] != '.')
    ensures s == w + FractionEnd(s).value && NumberChars(w) && (w != "" ==> w[0] == '.')
    ensures FractionEnd(w + after) == Some(after)
  {
    if s == "" || s[0] != '.' {
      w := "";
      assert "" + after == after && "" + s == s;
    } else {
      var v := DigitsAhead(s[1..], after);
      InFront(s, ".", v, FractionEnd(s).value, after);
      w := "." + v;
      hide DigitsEnd;
      assert (w + after)[0] == '.';
    }
  }

  lemma ExponentAhead(s: string, after: string) returns (w: string)
    requires ExponentEnd(s).Some? && Stops(after)
    ensures s == w + ExponentEnd(s).value && NumberChars(w) && (w != "" ==> w[0] == 'e' || w[0] == 'E')
    ensures ExponentEnd(w + after) == Some(after)
  {
    if s == "" || (s[0] != 'e' && s[0] != 'E') {
      w := "";
      assert "" + after == after && "" + s == s;
    } else {
      var front := ExponentFront(s);
      var v := DigitsAhead(s[|front|..], after);
      InFront(s, front, v, ExponentEnd(s).value, after);
      w := front + v;
      hide DigitsEnd;
      ExponentSplits(w + after, front, v + after);
    }
  }

  /** The letter of an exponent and its sign. */
  function ExponentFront(s: string): string
    requires s != ""
  {
    if 1 < |s| && (s[1] == '+' || s[1] == '-') then s[..2] else s[..1]
  }

  lemma ExponentSplits(x: string, front: string, more: string)
    requires x == front + more && more != "" && IsDigit(more[0])
    requires |front| == 1 || (|front| == 2 && (front[1] == '+' || front[1] == '-'))
    requires front[0] == 'e' || front[0] == 'E'
    ensures ExponentEnd(x) == DigitsEnd(more)
  {
    assert x[0] == front[0] && x[|front|..] == more && x[1] == (if |front| > 1 then front[1] else more[0]);
    hide DigitsEnd;
  }

  /** A number is read the same before anything that does not go on with it. */
  lemma NumberAhead(s: string, after: string) returns (w: string)
    requires NumberEnd(s).Some? && Stops(after)
    ensures s == w + NumberEnd(s).value && NumberChars(w) && w != "" && w[0] == s[0]
    ensures NumberEnd(w + after) == Some(after)
  {
    var t := IntegerEnd(s).value;
    var u := FractionEnd(t).value;
    var e := ExponentAhead(u, after);
    FirstOf(e, after);
    var f := FractionAhead(t, e + after);
    FirstOf(f, e + after);
    var i := IntegerAhead(s, f + (e + after));
    w := i + f + e;
    Pieces(i, f, e, NumberEnd(s).value);
    Pieces(i, f, e, after);
    hide IntegerEnd, FractionEnd, ExponentEnd, Stops;
    JoinedChars(i, f, e);
  }

  /** The text of a number is a number. */
  lemma NumberAlone(s: string)
    requires NumberEnd(s).Some?
    ensures NumberEnd(s[..|s| - |NumberEnd(s).value|]) == Some("")
  {
    var w := NumberAhead(s, "");
    assert w + "" == w == s[..|s| - |NumberEnd(s).value|];
  }

  lemma FirstOf(w: string, after: string)
    ensures w + after != "" ==> (w + after)[0] == if w != "" then w[0] else after[0]
  {
  }

  lemma Pieces(i: string, f: string, e: string, after: string)
    ensures i + f + e + after == i + (f + (e + after))
  {
  }

  lemma JoinedChars(i: string, f: string, e: string)
    requires NumberChars(i) && NumberChars(f) && NumberChars(e) && i != ""
    ensures NumberChars(i + f + e) && (i + f + e)[0] == i[0]
  {
  }

  // --------------------------------------------------------------------------------- its value

  /** Whether a numeral has a fraction or an exponent. */
  predicate HasPoint(w: string) {
    '.' in w || 'e' in w || 'E' in w
  }

  lemma HalfIsFractional()
    ensures NumberEnd("0.5") == Some("") && HasPoint("0.5")
  {
    var s := "0.5";
    assert s[2..] == "5" && s[1..] == ".5" && ".5"[1..] == "5" && "5"[1..] == "";
    assert SkipDigits(".5") == ".5";
    assert DigitsEnd(s) == Some(".5") && s[1] == '.' && s[2] == '5';
  }

  /** The numerals with a fraction or an exponent. */
  type Fractional = w: string | NumberEnd(w) == Some("") && HasPoint(w) witness (HalfIsFractional(); "0.5")

  function Signed(negative: bool, n: int): int {
    if negative then -n else n
  }

  /** The integer a numeral without fraction and exponent stands for. */
  function IntegerValue(w: string): int {
    Signed(w != "" && w[0] == '-', ReadDigits(AfterMinus(w), 0).0)
  }

  /** Numerals are integers without a leading zero. */
  lemma NumeralEnds(n: int)
    ensures var w := Numeral(n);
            && NumberEnd(w) == Some("") && w != "" && (w[0] == '-' || IsDigit(w[0]))
            && !HasPoint(w) && IntegerValue(w) == n
  {
    var m: nat := if n < 0 then -n else n;
    var w, d := Numeral(n), Digits(m);
    DigitsShape(m);
    ReadWritten(m, "");
    assert d + "" == d;
    if n < 0 {
      assert w == "-" + d && w[1..] == d;
    }
    assert AfterMinus(w) == d;
    assert d[0] == '0' ==> |d| == 1;
    AllDigits(d[1..]);
    hide Digits, ReadDigits;
    assert DigitsEnd(d) == Some("");
    assert IntegerEnd(w) == Some("");
  }

  lemma {:induction false} AllDigits(d: string)
    requires forall i :: 0 <= i < |d| ==> IsDigit(d[i])
    ensures SkipDigits(d) == ""
    decreases |d|
  {
    if d != "" {
      AllDigits(d[1..]);
    }
  }
}
