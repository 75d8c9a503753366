/** What the decoder and the form parser make of any text, piece by piece. */
module FormTexts {
  import opened Wrappers
  import opened Text
  import opened FormCodec

  /** A hexadecimal digit in either case, and its value. */
  predicate IsHex(c: char, v: nat) {
    v < 16 && (c == "0123456789abcdef"[v] || c == "0123456789ABCDEF"[v])
  }

  lemma HexIs(c: char, v: nat)
    ensures IsHex(c, v) <==> HexToInt(c) == Some(v)
  {
    if v < 16 {
      var small, large := "0123456789abcdef", "0123456789ABCDEF";
      assert small[v] as int == if v < 10 then '0' as int + v else 'a' as int + v - 10;
      assert large[v] as int == if v < 10 then '0' as int + v else 'A' as int + v - 10;
    }
  }

  // ------------------------------------------------------------------------------- encoding

  /** Letters, digits and four marks stand for themselves; a blank is a plus sign; every other byte is
      a percent sign and two digits, the letters in upper case. */
  lemma EncodedByte(c: bytechar)
    ensures var e := UrlEncode([c]);
            if ('0' <= c <= '9') || ('A' <= c <= 'Z') || ('a' <= c <= 'z') || c == '-' || c == '_' || c == '.' || c == '~'
            then e == [c]
            else if c == ' ' then e == ['+']
            else |e| == 3 && e[0] == '%' && !('a' <= e[1] <= 'f') && !('a' <= e[2] <= 'f')
                 && IsHex(e[1], c as int / 16) && IsHex(e[2], c as int % 16)
  {
    assert [c][1..] == [];
    assert UrlEncode([c]) == EncodeChar(c) + [] == EncodeChar(c);
    HexRoundTrip(c as int / 16);
    HexRoundTrip(c as int % 16);
    HexIs(HexDigit(c as int / 16), c as int / 16);
    HexIs(HexDigit(c as int % 16), c as int % 16);
    hide IsHex, HexToInt, UrlEncode;
  }

  // ------------------------------------------------------------------------------- decoding

  /** A character that stands for itself, a plus sign, an escape of a byte, or a percent sign that
      begins none. */
  datatype Token = Itself(c: bytechar) | Plus | Escape(high: bytechar, low: bytechar, code: bytechar) | Percent

  function SpellToken(t: Token): ByteString {
    match t
    case Itself(c) => [c]
    case Plus => ['+']
    case Escape(high, low, _) => ['%', high, low]
    case Percent => ['%']
  }

  function SpellTokens(ts: seq<Token>): ByteString {
    if ts == [] then [] else SpellToken(ts[0]) + SpellTokens(ts[1..])
  }

  function ByteOf(t: Token): bytechar {
    match t
    case Itself(c) => c
    case Plus => ' '
    case Escape(_, _, code) => code
    case Percent => '%'
  }

  function BytesOf(ts: seq<Token>): ByteString {
    if ts == [] then [] else [ByteOf(ts[0])] + BytesOf(ts[1..])
  }

  predicate LegalToken(t: Token, rest: ByteString) {
    match t
    case Itself(c) => c != '%' && c != '+'
    case Plus => true
    case Escape(high, low, code) => IsHex(high, code as int / 16) && IsHex(low, code as int % 16)
    case Percent => |rest| < 2 || forall v :: 0 <= v < 16 ==> !IsHex(rest[0], v) || forall w :: 0 <= w < 16 ==> !IsHex(rest[1], w)
  }

  predicate LegalTokens(ts: seq<Token>) {
    ts == [] || (LegalToken(ts[0], SpellTokens(ts[1..])) && LegalTokens(ts[1..]))
  }

  lemma DecodeToken(t: Token, rest: ByteString)
    requires LegalToken(t, rest)
    ensures UrlDecode(SpellToken(t) + rest) == [ByteOf(t)] + UrlDecode(rest)
  {
    var s := SpellToken(t) + rest;
    match t
    case Itself(c) => assert s[0] == c && s[1..] == rest;
    case Plus => assert s[0] == '+' && s[1..] == rest;
    case Escape(high, low, code) =>
      HexIs(high, code as int / 16);
      HexIs(low, code as int % 16);
      hide IsHex, HexToInt;
      assert s[0] == '%' && s[1] == high && s[2] == low && s[3..] == rest;
    case Percent =>
      assert s[0] == '%' && s[1..] == rest;
      if 2 < |s| {
        NotBothHex(rest[0], rest[1]);
        assert s[1] == rest[0] && s[2] == rest[1];
      }
      hide IsHex, HexToInt;
  }

  lemma NotBothHex(a: char, b: char)
    requires forall v :: 0 <= v < 16 ==> !IsHex(a, v) || forall w :: 0 <= w < 16 ==> !IsHex(b, w)
    ensures HexToInt(a).None? || HexToInt(b).None?
  {
    var va, vb := HexToInt(a), HexToInt(b);
    if va.Some? && vb.Some? {
      HexIs(a, va.value);
      HexIs(b, vb.value);
    }
  }

  /** What any text of such tokens decodes to. */
  lemma {:induction false} DecodeTokens(ts: seq<Token>)
    requires LegalTokens(ts)
    ensures UrlDecode(SpellTokens(ts)) == BytesOf(ts)
    decreases |ts|
  {
    if ts != [] {
      DecodeToken(ts[0], SpellTokens(ts[1..]));
      DecodeTokens(ts[1..]);
    }
  }

  /** Every text consists of such tokens. */
  lemma {:induction false} TextTokens(s: ByteString) returns (ts: seq<Token>)
    ensures LegalTokens(ts) && SpellTokens(ts) == s
    decreases |s|
  {
    ts := [];
    if s != [] {
      var t, rest := FirstToken(s);
      hide LegalToken, SpellToken;
      ts := TextTokens(rest);
      var all := [t] + ts;
      assert all[1..] == ts;
      ts := all;
    }
  }

  lemma FirstToken(s: ByteString) returns (t: Token, rest: ByteString)
    requires s != []
    ensures s == SpellToken(t) + rest && |rest| < |s| && LegalToken(t, rest)
  {
    if s[0] != '%' {
      t, rest := if s[0] == '+' then Plus else Itself(s[0]), s[1..];
    } else if 2 < |s| && HexToInt(s[1]).Some? && HexToInt(s[2]).Some? {
      t, rest := FirstEscape(s);
    } else {
      t, rest := Percent, s[1..];
      if 2 < |s| {
        SomeNotHex(s[1], s[2]);
      }
      hide IsHex, HexToInt;
    }
  }

  lemma FirstEscape(s: ByteString) returns (t: Token, rest: ByteString)
    requires 2 < |s| && s[0] == '%' && HexToInt(s[1]).Some? && HexToInt(s[2]).Some?
    ensures s == SpellToken(t) + rest && |rest| < |s| && LegalToken(t, rest)
  {
    var high, low := HexToInt(s[1]).value, HexToInt(s[2]).value;
    HexIs(s[1], high);
    HexIs(s[2], low);
    hide IsHex, HexToInt;
    var code: bytechar := (16 * high + low) as char;
    assert code as int / 16 == high && code as int % 16 == low;
    t, rest := Escape(s[1], s[2], code), s[3..];
    assert s == ['%', s[1], s[2]] + rest;
  }

  lemma SomeNotHex(a: char, b: char)
    requires HexToInt(a).None? || HexToInt(b).None?
    ensures forall v :: 0 <= v < 16 ==> !IsHex(a, v) || forall w :: 0 <= w < 16 ==> !IsHex(b, w)
  {
    forall v | 0 <= v < 16
      ensures HexToInt(a).None? ==> !IsHex(a, v)
      ensures HexToInt(b).None? ==> !IsHex(b, v)
    {
      HexIs(a, v);
      HexIs(b, v);
    }
  }

  // ----------------------------------------------------------------------------------- forms

  /** What stands between two ampersands: a key and a value, a key alone, or nothing. */
  datatype FormPiece = KeyValue(key: ByteString, value: ByteString) | KeyAlone(key: ByteString)

  predicate LegalPiece(p: FormPiece) {
    && '=' !in p.key && '&' !in p.key
    && (p.KeyValue? ==> '&' !in p.value)
  }

  function SpellPiece(p: FormPiece): ByteString {
    match p
    case KeyValue(key, value) => key + ['='] + value
    case KeyAlone(key) => key
  }

  function SpellForm(ps: seq<FormPiece>): ByteString {
    if ps == [] then [] else if |ps| == 1 then SpellPiece(ps[0]) else SpellPiece(ps[0]) + ['&'] + SpellForm(ps[1..])
  }

  /** The map of the decoded keys and values; a piece without an equals sign is a key with an empty
      value, one whose key decodes to nothing is dropped, and a later piece wins. */
  function FormOf(ps: seq<FormPiece>, m: Form): Form
    decreases |ps|
  {
    if ps == [] then m
    else
      var key, value := UrlDecode(ps[0].key), if ps[0].KeyValue? then UrlDecode(ps[0].value) else [];
      FormOf(ps[1..], if key == [] then m else m[key := value])
  }

  lemma PieceAdded(p: FormPiece, m: Form)
    requires LegalPiece(p)
    ensures FindChar(SpellPiece(p), '&', 0) == None
    ensures AddPiece(m, SpellPiece(p)) == FormOf([p], m)
  {
    assert [p][1..] == [];
    match p
    case KeyValue(key, value) => SplitPair(key, value);
    case KeyAlone(key) =>
      FindCharNone(key, '=', 0);
      FindCharNone(key, '&', 0);
  }

  lemma FormOfFirst(p: FormPiece, ps: seq<FormPiece>, m: Form)
    ensures FormOf([p] + ps, m) == FormOf(ps, FormOf([p], m))
  {
    assert ([p] + ps)[1..] == ps && [p][1..] == [];
    hide UrlDecode;
  }

  /** What the parser makes of any pieces joined by ampersands. */
  lemma {:induction false} ParsePieces(ps: seq<FormPiece>, m: Form)
    requires forall p :: p in ps ==> LegalPiece(p)
    ensures ParseForm(SpellForm(ps), m) == FormOf(ps, m)
    decreases |ps|
  {
    if ps != [] {
      var p, rest := ps[0], ps[1..];
      assert p in ps && forall q :: q in rest ==> q in ps;
      PieceAdded(p, m);
      FormOfFirst(p, rest, m);
      assert ps == [p] + rest;
      hide UrlDecode, AddPiece, FormOf, SpellPiece;
      if rest == [] {
        OnePiece(p, m);
      } else {
        ParsePieces(rest, FormOf([p], m));
        FirstPiece(SpellPiece(p), SpellForm(rest));
      }
    }
  }

  lemma OnePiece(p: FormPiece, m: Form)
    requires FindChar(SpellPiece(p), '&', 0) == None && AddPiece(m, SpellPiece(p)) == FormOf([p], m)
    ensures ParseForm(SpellPiece(p), m) == FormOf([p], m) && FormOf([], FormOf([p], m)) == FormOf([p], m)
  {
    if SpellPiece(p) == [] {
      assert FormOf([p], m) == AddPiece(m, []) == m by {
        assert FindChar([], '=', 0) == None && UrlDecode([]) == [];
      }
    }
  }

  lemma OneFormPiece(s: ByteString) returns (p: FormPiece)
    requires '&' !in s
    ensures LegalPiece(p) && SpellPiece(p) == s
  {
    match FindChar(s, '=', 0)
    case None => p := KeyAlone(s);
    case Some(i) =>
      p := KeyValue(s[..i], s[i + 1..]);
      assert s == s[..i] + ['='] + s[i + 1..];
  }

  /** Every text consists of such pieces. */
  lemma {:induction false} TextPieces(s: ByteString) returns (ps: seq<FormPiece>)
    ensures ps != [] && SpellForm(ps) == s && forall p :: p in ps ==> LegalPiece(p)
    decreases |s|
  {
    match FindChar(s, '&', 0)
    case None =>
      var p := OneFormPiece(s);
      ps := [p];
    case Some(i) =>
      assert '&' !in s[..i];
      var p := OneFormPiece(s[..i]);
      var more := TextPieces(s[i + 1..]);
      ps := [p] + more;
      assert ps[1..] == more && s == s[..i] + ['&'] + s[i + 1..];
      hide LegalPiece, SpellPiece;
  }
}
