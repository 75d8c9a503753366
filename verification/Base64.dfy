/** Base64 as in section 4 of RFC 4648: a block encoder and a strict decoder, and the
    streaming encoder that keeps pending bits in a 32-bit accumulator. */
module Base64 {
  import opened Wrappers
  import opened Bytes

  type sextet = x: int | 0 <= x < 64

  const BASE64_CHARS :=
    "ABCDEFGHIJKLMNOPQRSTUVWXYZ" +
    "abcdefghijklmnopqrstuvwxyz" +
    "0123456789+/"

  /** The character of a six-bit value. */
  function CharOf(v: sextet): char {
    if v < 26 then 'A' + v as char
    else if v < 52 then 'a' + (v - 26) as char
    else if v < 62 then '0' + (v - 52) as char
    else if v == 62 then '+'
    else '/'
  }

  function ValueOf(c: char): Option<sextet> {
    if 'A' <= c <= 'Z' then Some(c as int - 'A' as int)
    else if 'a' <= c <= 'z' then Some(c as int - 'a' as int + 26)
    else if '0' <= c <= '9' then Some(c as int - '0' as int + 52)
    else if c == '+' then Some(62)
    else if c == '/' then Some(63)
    else None
  }

  lemma TableIsAlphabet(v: sextet)
    ensures BASE64_CHARS[v] == CharOf(v)
  {
    var upper, lower, rest := "ABCDEFGHIJKLMNOPQRSTUVWXYZ", "abcdefghijklmnopqrstuvwxyz", "0123456789+/";
    if v < 26 {
      assert BASE64_CHARS[v] == upper[v];
    } else if v < 52 {
      assert BASE64_CHARS[v] == lower[v - 26];
    } else {
      assert BASE64_CHARS[v] == rest[v - 52];
    }
  }

  lemma ValueOfChar(v: sextet)
    ensures ValueOf(CharOf(v)) == Some(v) && CharOf(v) != '='
  {
  }

  // -------------------------------------------------------------- the standard's blocks

  function First(a: byte): char { CharOf(a / 4) }
  function Second(a: byte, b: byte): char { CharOf(a % 4 * 16 + b / 16) }
  function Third(b: byte, c: byte): char { CharOf(b % 16 * 4 + c / 64) }
  function Fourth(c: byte): char { CharOf(c % 64) }

  function Encode(d: seq<byte>): string
    decreases |d|
  {
    if |d| == 0 then ""
    else if |d| == 1 then [First(d[0]), Second(d[0], 0), '=', '=']
    else if |d| == 2 then [First(d[0]), Second(d[0], d[1]), Third(d[1], 0), '=']
    else [First(d[0]), Second(d[0], d[1]), Third(d[1], d[2]), Fourth(d[2])] + Encode(d[3..])
  }

  /** A strict decoder: whole blocks only, padding only at the end, unused bits zero. */
  function Decode(s: string): Option<seq<byte>>
    decreases |s|
  {
    if s == "" then Some([])
    else if |s| < 4 then None
    else
      var v0 :- ValueOf(s[0]);
      var v1 :- ValueOf(s[1]);
      if s[2] == '=' then
        if |s| == 4 && s[3] == '=' && v1 % 16 == 0 then Some([v0 * 4 + v1 / 16]) else None
      else
        var v2 :- ValueOf(s[2]);
        if s[3] == '=' then
          if |s| == 4 && v2 % 4 == 0 then Some([v0 * 4 + v1 / 16, v1 % 16 * 16 + v2 / 4]) else None
        else
          var v3 :- ValueOf(s[3]);
          var rest :- Decode(s[4..]);
          Some([v0 * 4 + v1 / 16, v1 % 16 * 16 + v2 / 4, v2 % 4 * 64 + v3] + rest)
  }

  lemma DecodeBlock(a: byte, b: byte, c: byte, rest: string)
    ensures Decode([First(a), Second(a, b), Third(b, c), Fourth(c)] + rest) ==
            match Decode(rest)
            case None => None
            case Some(d) => Some([a, b, c] + d)
  {
    var s := [First(a), Second(a, b), Third(b, c), Fourth(c)] + rest;
    assert s[0] == First(a) && s[1] == Second(a, b) && s[2] == Third(b, c) && s[3] == Fourth(c);
    assert s[4..] == rest;
    BlockBits(a, b, c);
    ValueOfChar(a / 4);
    ValueOfChar(a % 4 * 16 + b / 16);
    ValueOfChar(b % 16 * 4 + c / 64);
    ValueOfChar(c % 64);
    hide CharOf, ValueOf;
  }

  lemma BlockBits(a: byte, b: byte, c: byte)
    ensures var v0, v1, v2, v3 := a / 4, a % 4 * 16 + b / 16, b % 16 * 4 + c / 64, c % 64;
            && v0 * 4 + v1 / 16 == a
            && v1 % 16 * 16 + v2 / 4 == b
            && v2 % 4 * 64 + v3 == c
  {
  }

  lemma DecodeShort(a: byte, b: byte)
    ensures Decode([First(a), Second(a, 0), '=', '=']) == Some([a])
    ensures Decode([First(a), Second(a, b), Third(b, 0), '=']) == Some([a, b])
  {
    BlockBits(a, 0, 0);
    BlockBits(a, b, 0);
    ValueOfChar(a / 4);
    ValueOfChar(a % 4 * 16);
    ValueOfChar(a % 4 * 16 + b / 16);
    ValueOfChar(b % 16 * 4);
  }

  lemma DecodeEmpty()
    ensures Decode("") == Some([])
  {
  }

  /** Decoding what was encoded gives the bytes back, for every length. */
  lemma {:induction false} DecodeEncode(d: seq<byte>)
    ensures Decode(Encode(d)) == Some(d)
    decreases |d|
  {
    hide First, Second, Third, Fourth, Decode;
    if |d| == 0 {
      DecodeEmpty();
    } else if |d| == 1 {
      DecodeShort(d[0], 0);
      assert d == [d[0]];
    } else if |d| == 2 {
      DecodeShort(d[0], d[1]);
      assert d == [d[0], d[1]];
    } else {
      var a, b, c, rest := d[0], d[1], d[2], d[3..];
      assert d == [a, b, c] + rest;
      DecodeEncode(rest);
      DecodeBlock(a, b, c, Encode(rest));
    }
  }

  /** Four characters for every three bytes, the last group padded. */
  lemma {:induction false} EncodeLength(d: seq<byte>)
    ensures |Encode(d)| == (|d| + 2) / 3 * 4
    decreases |d|
  {
    hide First, Second, Third, Fourth;
    if |d| >= 3 {
      EncodeLength(d[3..]);
    }
  }

  // -------------------------------------------------------------- the streaming encoder

  /** The characters complete after the bytes `d`. */
  function Complete(d: seq<byte>): string
    decreases |d|
  {
    if |d| == 0 then ""
    else if |d| == 1 then [First(d[0])]
    else if |d| == 2 then [First(d[0]), Second(d[0], d[1])]
    else [First(d[0]), Second(d[0], d[1]), Third(d[1], d[2]), Fourth(d[2])] + Complete(d[3..])
  }

  /** What one more byte completes. */
  function Completes(d: seq<byte>, c: byte): string {
    if |d| % 3 == 0 then [First(c)]
    else if |d| % 3 == 1 then [Second(d[|d| - 1], c)]
    else [Third(d[|d| - 1], c), Fourth(c)]
  }

  /** What remains to be written once the input has ended. */
  function Flush(d: seq<byte>): string {
    if |d| % 3 == 0 then ""
    else if |d| % 3 == 1 then [Second(d[|d| - 1], 0), '=', '=']
    else [Third(d[|d| - 1], 0), '=']
  }

  lemma CompletesBehind(d: seq<byte>, d': seq<byte>, c: byte)
    requires |d| >= 3 && d' == d[3..]
    ensures Completes(d, c) == Completes(d', c) && Flush(d) == Flush(d')
  {
    hide First, Second, Third, Fourth;
    assert |d| == |d'| + 3;
    assert d' != [] ==> d'[|d'| - 1] == d[|d| - 1];
  }

  lemma {:induction false} CompleteSnoc(d: seq<byte>, c: byte)
    ensures Complete(d + [c]) == Complete(d) + Completes(d, c)
    decreases |d|
  {
    hide First, Second, Third, Fourth;
    var e := d + [c];
    if |d| >= 3 {
      var d' := d[3..];
      CompleteSnoc(d', c);
      assert e[0] == d[0] && e[1] == d[1] && e[2] == d[2] && e[3..] == d' + [c];
      CompletesBehind(d, d', c);
      hide Completes;
    } else if |d| == 2 {
      assert e == [d[0], d[1], c];
    } else if |d| == 1 {
      assert e == [d[0], c];
    }
  }

  lemma {:induction false} CompleteFlush(d: seq<byte>)
    ensures Encode(d) == Complete(d) + Flush(d)
    ensures |Complete(d)| == |d| / 3 * 4 + |d| % 3
    decreases |d|
  {
    hide First, Second, Third, Fourth;
    if |d| >= 3 {
      var d' := d[3..];
      CompleteFlush(d');
      CompletesBehind(d, d', 0);
      hide Flush;
    }
  }

  /** The value of a 32-bit signed integer after a computation that wraps. */
  function Wrap(x: int): int {
    (x + TWO_TO_THE_31) % TWO_TO_THE_32 - TWO_TO_THE_31
  }

  /** The low six bits of `val` after an arithmetic shift right by `k`. */
  function Pick(val: int, k: nat): sextet
    requires k <= 14
  {
    val / PowerOfTwo(k) % 64
  }

  lemma SmallPowers()
    ensures PowerOfTwo(0) == 1 && PowerOfTwo(2) == 4 && PowerOfTwo(4) == 16 && PowerOfTwo(6) == 64
  {
  }

  lemma ByteDigits(w: int, c: byte)
    ensures var x := w * 256 + c; x / 4 == w * 64 + c / 4 && x / 16 == w * 16 + c / 16 && x / 64 == w * 4 + c / 64
  {
  }

  lemma ByteLowBits(w: int, c: byte)
    ensures var x := w * 256 + c; x % 4 == c % 4 && x % 16 == c % 16 && x % 64 == c % 64
  {
    FourTimes(w * 64 + c / 4, c % 4);
    SixteenTimes(w * 16 + c / 16, c % 16);
    SixtyFourTimes(w * 4 + c / 64, c % 64);
  }

  lemma FourTimes(q: int, r: int)
    requires 0 <= r < 4
    ensures (4 * q + r) % 4 == r
  {
  }

  lemma SixteenTimes(q: int, r: int)
    requires 0 <= r < 16
    ensures (16 * q + r) % 16 == r
  {
  }

  lemma SixtyFourTimes(q: int, r: int)
    requires 0 <= r < 64
    ensures (64 * q + r) % 64 == r
  {
  }

  lemma SixBits(w: int, c: byte)
    ensures (w * 64 + c / 4) % 64 == c / 4
    ensures (w * 16 + c / 16) % 64 == w % 4 * 16 + c / 16
    ensures (w * 4 + c / 64) % 64 == w % 16 * 4 + c / 64
  {
    LowBits(w, c / 4);
    assert w * 16 == w / 4 * 64 + w % 4 * 16;
    LowBits(w / 4, w % 4 * 16 + c / 16);
    assert w * 4 == w / 16 * 64 + w % 16 * 4;
    LowBits(w / 16, w % 16 * 4 + c / 64);
  }

  lemma LowBits(q: int, r: nat)
    requires r < 64
    ensures (q * 64 + r) % 64 == r
  {
  }

  lemma WrapKeepsLow(x: int)
    ensures exists q :: Wrap(x) == x - q * TWO_TO_THE_32
  {
    assert Wrap(x) == x - (x + TWO_TO_THE_31) / TWO_TO_THE_32 * TWO_TO_THE_32;
  }

  /** Wrapping does not disturb the pending bits or the ones just shifted in. */
  lemma ShiftedIn(val: int, c: byte, val': int)
    requires val' == Wrap(val * 256 + c)
    ensures val' % 4 == c % 4 && val' % 16 == c % 16 && val' % 64 == c % 64
    ensures val' / 4 % 64 == c / 4
    ensures val' / 16 % 64 == val % 4 * 16 + c / 16
    ensures val' / 64 % 64 == val % 16 * 4 + c / 64
  {
    WrapKeepsLow(val * 256 + c);
    var q :| Wrap(val * 256 + c) == val * 256 + c - q * TWO_TO_THE_32;
    hide Wrap;
    var w := val - q * 0x100_0000;
    ByteDigits(w, c);
    ByteLowBits(w, c);
    SixBits(w, c);
    SameLow(val, q);
  }

  lemma SameLow(val: int, q: int)
    ensures (val - q * 0x100_0000) % 16 == val % 16 && (val - q * 0x100_0000) % 4 == val % 4
  {
    SameRemainder(val, q * 0x10_0000, 16);
    SameRemainder(val, q * 0x40_0000, 4);
  }

  lemma SameRemainder(x: int, k: int, m: nat)
    requires m == 4 || m == 16
    ensures (x - k * m) % m == x % m
  {
    var y := x - k * m;
    assert y == m * (x / m - k) + x % m && y == m * (y / m) + y % m;
  }

  /** The accumulator holds exactly the characters one byte completes. */
  lemma PickedChars(val: int, d: seq<byte>, c: byte, val': int)
    requires val' == Wrap(val * 256 + c)
    requires |d| % 3 == 1 ==> val % 4 == d[|d| - 1] % 4
    requires |d| % 3 == 2 ==> val % 16 == d[|d| - 1] % 16
    ensures |d| % 3 == 0 ==> Completes(d, c) == [CharOf(Pick(val', 2))]
    ensures |d| % 3 == 1 ==> Completes(d, c) == [CharOf(Pick(val', 4))]
    ensures |d| % 3 == 2 ==> Completes(d, c) == [CharOf(Pick(val', 6)), CharOf(Pick(val', 0))]
  {
    hide CharOf, Wrap;
    ShiftedIn(val, c, val');
    SmallPowers();
  }

  lemma NextThird(n: nat)
    ensures n % 3 == 0 || n % 3 == 1 || n % 3 == 2
    ensures (n + 1) % 3 == if n % 3 == 2 then 0 else n % 3 + 1
  {
  }

  /** The loop body: shifts one byte in and writes the characters it completes. */
  method PushByte(val: int, valb: int, ghost d: seq<byte>, c: byte) returns (more: string, val': int, valb': int)
    requires valb == |d| % 3 * 2 - 6
    requires |d| % 3 == 1 ==> val % 4 == d[|d| - 1] % 4
    requires |d| % 3 == 2 ==> val % 16 == d[|d| - 1] % 16
    ensures more == Completes(d, c)
    ensures valb' == (|d| + 1) % 3 * 2 - 6
    ensures val' % 4 == c % 4 && val' % 16 == c % 16
  {
    val', valb', more := Wrap(val * 256 + c), valb + 8, "";
    PickedChars(val, d, c, val');
    ShiftedIn(val, c, val');
    NextThird(|d|);
    hide CharOf, Wrap, Pick, Completes;
    ghost var k, all := |d| % 3, Completes(d, c);
    assert all == if k == 0 then [CharOf(Pick(val', 2))] else if k == 1 then [CharOf(Pick(val', 4))]
                  else [CharOf(Pick(val', 6)), CharOf(Pick(val', 0))];
    while valb' >= 0
      invariant valb' == k * 2 + 2 - 6 * |more|
      invariant more <= all
      decreases valb' + 6
    {
      TableIsAlphabet(Pick(val', valb'));
      assert more + [CharOf(Pick(val', valb'))] <= all;
      more := more + [BASE64_CHARS[Pick(val', valb')]];
      valb' := valb' - 6;
    }
  }

  function Padding(n: nat): string {
    if n == 0 then "" else "=" + Padding(n - 1)
  }

  /** The bits left over when the input ends make one more character. */
  lemma FlushBits(val: int, d: seq<byte>)
    requires |d| % 3 == 1 ==> val % 4 == d[|d| - 1] % 4
    requires |d| % 3 == 2 ==> val % 16 == d[|d| - 1] % 16
    ensures |d| % 3 == 1 ==> Flush(d) == [CharOf(Pick(Wrap(val * 256), 4))] + Padding(2)
    ensures |d| % 3 == 2 ==> Flush(d) == [CharOf(Pick(Wrap(val * 256), 6))] + Padding(1)
  {
    SmallPowers();
    ShiftedIn(val, 0, Wrap(val * 256));
  }

  /** Fills the last group with '='. */
  method PadGroup(s: string) returns (r: string)
    ensures r == s + Padding((4 - |s| % 4) % 4)
  {
    r := s;
    while |r| % 4 != 0
      invariant s + Padding((4 - |s| % 4) % 4) == r + Padding((4 - |r| % 4) % 4)
      decreases (4 - |r| % 4) % 4
    {
      r := r + ['='];
    }
  }

  /** The end of the input: flushes the pending bits and pads. */
  method FinishGroup(complete: string, val: int, valb: int, ghost d: seq<byte>) returns (result: string)
    requires complete == Complete(d) && valb == |d| % 3 * 2 - 6
    requires |d| % 3 == 1 ==> val % 4 == d[|d| - 1] % 4
    requires |d| % 3 == 2 ==> val % 16 == d[|d| - 1] % 16
    ensures result == Encode(d)
  {
    FinishText(val, d, if valb > -6 then CharOf(Pick(Wrap(val * 256), valb + 8)) else ' ');
    hide CharOf, Wrap, Pick, Complete, Encode, Padding;
    result := complete;
    if valb > -6 {
      var v := Pick(Wrap(val * 256), valb + 8);
      TableIsAlphabet(v);
      result := result + [BASE64_CHARS[v]];
    }
    result := PadGroup(result);
  }

  /** What is still to be written: a character of the bits left over, and the padding. */
  lemma FinishText(val: int, d: seq<byte>, c: char)
    requires |d| % 3 == 1 ==> val % 4 == d[|d| - 1] % 4
    requires |d| % 3 == 2 ==> val % 16 == d[|d| - 1] % 16
    requires |d| % 3 != 0 ==> c == CharOf(Pick(Wrap(val * 256), |d| % 3 * 2 + 2))
    ensures var text := if |d| % 3 == 0 then Complete(d) else Complete(d) + [c];
            Encode(d) == text + Padding((4 - |text| % 4) % 4)
  {
    CompleteFlush(d);
    FlushBits(val, d);
    assert |d| % 3 == 0 ==> Flush(d) == "";
    hide CharOf, Wrap, Pick, Complete, Encode, Flush;
    FinishWith(Complete(d), Flush(d), c, |d| / 3, |d| % 3);
  }

  lemma FinishWith(complete: string, flush: string, c: char, q: nat, m: nat)
    requires m < 3 && |complete| == q * 4 + m && flush == if m == 0 then "" else [c] + Padding(3 - m)
    ensures var text := if m == 0 then complete else complete + [c];
            complete + flush == text + Padding((4 - |text| % 4) % 4)
  {
    assert Padding(0) == "";
    hide Padding;
    if m == 0 {
      PaddedText(complete, "", Padding(0), q, 0);
    } else {
      PaddedText(complete, [c], Padding(3 - m), q, m + 1);
    }
  }

  /** The last group is filled up to four characters. */
  lemma PaddedText(complete: string, more: string, padding: string, q: nat, m: nat)
    requires |complete| + |more| == q * 4 + m && m < 4
    ensures complete + (more + padding) == (complete + more) + padding
    ensures (4 - |complete + more| % 4) % 4 == if m == 0 then 0 else 4 - m
    ensures more == "" ==> complete + more == complete
  {
    PadCount(q, m);
  }

  /** How many '=' fill a group. */
  lemma PadCount(q: nat, m: nat)
    requires m < 4
    ensures (4 - (q * 4 + m) % 4) % 4 == if m == 0 then 0 else 4 - m
  {
  }

  /** base64_encode */
  method Base64Encode(data: seq<byte>) returns (result: string)
    ensures result == Encode(data)
  {
    hide Complete, Encode;
    result := "";
    var val, valb := 0, -6;
    CompleteEmpty();
    for i := 0 to |data|
      invariant result == Complete(data[..i])
      invariant valb == i % 3 * 2 - 6
      invariant i % 3 == 1 ==> val % 4 == data[i - 1] % 4
      invariant i % 3 == 2 ==> val % 16 == data[i - 1] % 16
    {
      CompleteSnoc(data[..i], data[i]);
      assert data[..i + 1] == data[..i] + [data[i]];
      var more;
      more, val, valb := PushByte(val, valb, data[..i], data[i]);
      result := result + more;
    }
    assert data[..|data|] == data;
    result := FinishGroup(result, val, valb, data);
  }

  lemma CompleteEmpty()
    ensures Complete([]) == ""
  {
  }
}
