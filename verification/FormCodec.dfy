/** The percent codec (section 2.1 of RFC 3986) in its form-data variant, and the parser of
    URL-encoded forms. */
module FormCodec {
  import opened Wrappers
  import opened Sequences
  import opened Text

  /** A character that stands for one byte. */
  type bytechar = c: char | c < 256 as char

  type ByteString = seq<bytechar>

  predicate IsUnreserved(c: char) {
    || ('0' <= c <= '9') || ('A' <= c <= 'Z') || ('a' <= c <= 'z')
    || c == '-' || c == '_' || c == '.' || c == '~'
  }

  /** An upper-case hexadecimal digit. */
  function HexDigit(v: nat): bytechar
    requires v < 16
  {
    if v < 10 then '0' + v as char else 'A' + (v - 10) as char
  }

  /** hex_to_int; None stands for -1. */
  function HexToInt(c: char): (r: Option<nat>)
    ensures r.Some? ==> r.value < 16
  {
    if '0' <= c <= '9' then Some(c as int - '0' as int)
    else if 'A' <= c <= 'F' then Some(c as int - 'A' as int + 10)
    else if 'a' <= c <= 'f' then Some(c as int - 'a' as int + 10)
    else None
  }

  function EncodeChar(c: bytechar): ByteString {
    if IsUnreserved(c) then [c]
    else if c == ' ' then "+"
    else ['%', HexDigit(c as int / 16), HexDigit(c as int % 16)]
  }

  function UrlEncode(s: ByteString): ByteString {
    if s == [] then [] else EncodeChar(s[0]) + UrlEncode(s[1..])
  }

  function UrlDecode(s: ByteString): ByteString
    decreases |s|
  {
    if s == [] then []
    else if s[0] == '%' && 2 < |s| && HexToInt(s[1]).Some? && HexToInt(s[2]).Some? then
      [(16 * HexToInt(s[1]).value + HexToInt(s[2]).value) as char] + UrlDecode(s[3..])
    else [if s[0] == '+' then ' ' else s[0]] + UrlDecode(s[1..])
  }

  lemma HexRoundTrip(v: nat)
    requires v < 16
    ensures HexToInt(HexDigit(v)) == Some(v)
  {
  }

  lemma DecodeOne(c: bytechar, rest: ByteString)
    ensures UrlDecode(EncodeChar(c) + rest) == [c] + UrlDecode(rest)
  {
    var e := EncodeChar(c);
    var s := e + rest;
    assert s[|e|..] == rest;
    if !IsUnreserved(c) && c != ' ' {
      HexRoundTrip(c as int / 16);
      HexRoundTrip(c as int % 16);
      assert s[0] == '%' && s[1] == e[1] && s[2] == e[2] && s[3..] == rest;
    } else {
      assert s[0] == e[0] && s[1..] == rest;
    }
  }

  /** Decoding what was encoded gives every byte string back. */
  lemma {:induction false} DecodeEncode(s: ByteString)
    ensures UrlDecode(UrlEncode(s)) == s
  {
    if s != [] {
      DecodeOne(s[0], UrlEncode(s[1..]));
      DecodeEncode(s[1..]);
    }
  }

  /** Encoded text uses only unreserved characters, '%' and '+'. */
  lemma {:induction false} EncodedChars(s: ByteString) returns (e: ByteString)
    ensures e == UrlEncode(s)
    ensures forall i :: 0 <= i < |e| ==> IsUnreserved(e[i]) || e[i] == '%' || e[i] == '+'
  {
    if s == [] {
      e := [];
    } else {
      var tail := EncodedChars(s[1..]);
      e := EncodeChar(s[0]) + tail;
    }
  }

  /** url_encode */
  method Encode(decoded: ByteString) returns (encoded: ByteString)
    ensures encoded == UrlEncode(decoded)
  {
    encoded := [];
    assert decoded[0..] == decoded;
    for i := 0 to |decoded|
      invariant UrlEncode(decoded) == encoded + UrlEncode(decoded[i..])
    {
      var c := decoded[i];
      assert decoded[i..][1..] == decoded[i + 1..];
      Regroup(encoded, EncodeChar(c), UrlEncode(decoded[i + 1..]), []);
      if IsUnreserved(c) {
        encoded := encoded + [c];
      } else if c == ' ' {
        encoded := encoded + ['+'];
      } else {
        encoded := encoded + ['%', HexDigit(c as int / 16), HexDigit(c as int % 16)];
      }
    }
  }

  /** One step of the decoder: the character it writes and how far it moves. */
  function DecodeStep(s: ByteString): (bytechar, nat)
    requires s != []
    ensures 1 <= DecodeStep(s).1 <= |s|
  {
    if s[0] == '%' && 2 < |s| && HexToInt(s[1]).Some? && HexToInt(s[2]).Some? then
      ((16 * HexToInt(s[1]).value + HexToInt(s[2]).value) as char, 3)
    else (if s[0] == '+' then ' ' else s[0], 1)
  }

  /** The decoder takes one step after another. */
  lemma DecodeByStep(done: ByteString, s: ByteString)
    requires s != []
    ensures done + UrlDecode(s) == (done + [DecodeStep(s).0]) + UrlDecode(s[DecodeStep(s).1..])
  {
    Regroup(done, [DecodeStep(s).0], UrlDecode(s[DecodeStep(s).1..]), []);
  }

  /** url_decode */
  method Decode(encoded: ByteString) returns (decoded: ByteString)
    ensures decoded == UrlDecode(encoded)
  {
    decoded := [];
    var i := 0;
    assert encoded[0..] == encoded;
    while i < |encoded|
      invariant 0 <= i <= |encoded|
      invariant UrlDecode(encoded) == decoded + UrlDecode(encoded[i..])
    {
      ghost var rest := encoded[i..];
      DecodeByStep(decoded, rest);
      ghost var step := DecodeStep(rest);
      assert rest[step.1..] == encoded[i + step.1..];
      hide UrlDecode;
      var c := encoded[i];
      if c == '%' && i + 2 < |encoded| {
        var hex1, hex2 := HexToInt(encoded[i + 1]), HexToInt(encoded[i + 2]);
        if hex1.Some? && hex2.Some? {
          decoded := decoded + [(hex1.value * 16 + hex2.value) as char];
          i := i + 2;
        } else {
          decoded := decoded + [c];
        }
      } else if c == '+' {
        decoded := decoded + [' '];
      } else {
        decoded := decoded + [c];
      }
      i := i + 1;
    }
    assert encoded[i..] == [];
  }

  // ------------------------------------------------------------------------- form data

  type Form = map<ByteString, ByteString>

  /** Records a decoded pair; pairs with an empty key are dropped. */
  function AddPair(m: Form, key: ByteString, value: ByteString): Form {
    if key == [] then m else m[key := value]
  }

  /** One piece between ampersands. */
  function AddPiece(m: Form, piece: ByteString): Form {
    match FindChar(piece, '=', 0)
    case None => AddPair(m, UrlDecode(piece), [])
    case Some(i) => AddPair(m, UrlDecode(piece[..i]), UrlDecode(piece[i + 1..]))
  }

  function ParseForm(s: ByteString, m: Form): Form
    decreases |s|
  {
    if s == [] then m
    else match FindChar(s, '&', 0)
      case None => AddPiece(m, s)
      case Some(i) => ParseForm(s[i + 1..], AddPiece(m, s[..i]))
  }

  datatype Pair = Pair(key: ByteString, value: ByteString)

  function EncodePair(p: Pair): ByteString {
    UrlEncode(p.key) + ['='] + UrlEncode(p.value)
  }

  function EncodePairs(ps: seq<Pair>): ByteString {
    if ps == [] then []
    else if |ps| == 1 then EncodePair(ps[0])
    else EncodePair(ps[0]) + ['&'] + EncodePairs(ps[1..])
  }

  /** The map of the pairs; a later pair wins over an earlier one with the same key. */
  function LastWins(ps: seq<Pair>, m: Form): Form
    decreases |ps|
  {
    if ps == [] then m else LastWins(ps[1..], AddPair(m, ps[0].key, ps[0].value))
  }

  lemma SplitPair(k: ByteString, v: ByteString)
    requires forall i :: 0 <= i < |k| ==> k[i] != '=' && k[i] != '&'
    requires forall i :: 0 <= i < |v| ==> v[i] != '&'
    ensures var e := k + ['='] + v;
            && FindChar(e, '=', 0) == Some(|k|) && e[..|k|] == k && e[|k| + 1..] == v
            && FindChar(e, '&', 0) == None
  {
    var e := k + ['='] + v;
    FindCharIs(e, '=', 0, |k|);
    FindCharNone(e, '&', 0);
  }

  lemma PieceOfPair(m: Form, p: Pair)
    ensures AddPiece(m, EncodePair(p)) == AddPair(m, p.key, p.value)
    ensures FindChar(EncodePair(p), '&', 0) == None
  {
    var k := EncodedChars(p.key);
    var v := EncodedChars(p.value);
    hide UrlDecode, UrlEncode, FindChar;
    SplitPair(k, v);
    DecodeEncode(p.key);
    DecodeEncode(p.value);
  }

  /** Parsing the encoded pairs, joined by ampersands, gives their last-wins map. */
  lemma {:induction false} ParseEncoded(ps: seq<Pair>, m: Form)
    ensures ParseForm(EncodePairs(ps), m) == LastWins(ps, m)
    decreases |ps|
  {
    if ps != [] {
      var e, rest := EncodePair(ps[0]), ps[1..];
      var m' := AddPair(m, ps[0].key, ps[0].value);
      PieceOfPair(m, ps[0]);
      if |ps| == 1 {
        assert rest == [];
      } else {
        ParseEncoded(rest, m');
        hide FindChar, AddPiece, AddPair, EncodePair;
        FirstPiece(e, EncodePairs(rest));
      }
    }
  }

  /** The first '&' is the one behind text that has none. */
  lemma FirstPiece(e: ByteString, more: ByteString)
    requires FindChar(e, '&', 0) == None
    ensures var s := e + ['&'] + more;
            FindChar(s, '&', 0) == Some(|e|) && s[..|e|] == e && s[|e| + 1..] == more
  {
    var s := e + ['&'] + more;
    assert forall j :: 0 <= j < |e| ==> s[j] == e[j];
    FindCharIs(s, '&', 0, |e|);
  }

  /** One iteration of the loop over pairs. */
  method RecordPair(m: Form, pair: ByteString) returns (result: Form)
    ensures result == AddPiece(m, pair)
  {
    result := m;
    if pair == [] {
      return;
    }
    var eq := FindChar(pair, '=', 0);
    if eq.None? {
      var key := Decode(pair);
      if key != [] {
        result := result[key := []];
      }
    } else {
      var key := Decode(pair[..eq.value]);
      var value := Decode(pair[eq.value + 1..]);
      if key != [] {
        result := result[key := value];
      }
    }
  }

  /** parse_form_data */
  method ParseFormData(body: ByteString) returns (result: Form)
    ensures result == ParseForm(body, map[])
  {
    result := map[];
    var pos := 0;
    assert body[0..] == body;
    while pos < |body|
      invariant 0 <= pos <= |body|
      invariant ParseForm(body, map[]) == ParseForm(body[pos..], result)
    {
      result, pos := ReadPiece(body, pos, result);
    }
  }

  /** One pair, and the position behind it. */
  method ReadPiece(body: ByteString, pos: nat, m: Form) returns (result: Form, next: nat)
    requires pos < |body|
    ensures pos < next <= |body| && ParseForm(body[next..], result) == ParseForm(body[pos..], m)
  {
    hide AddPiece, ParseForm;
    FormAt(body, pos, m);
    var amp := FindChar(body, '&', pos);
    var end := if amp.Some? then amp.value else |body|;
    result := RecordPair(m, body[pos..end]);
    next := if amp.Some? then end + 1 else |body|;
  }

  /** The form read from a position on: one pair, and what is behind it. */
  lemma FormAt(body: ByteString, pos: nat, m: Form)
    requires pos < |body|
    ensures var amp := FindChar(body, '&', pos);
            var end := if amp.Some? then amp.value else |body|;
            ParseForm(body[pos..], m) == ParseForm(body[if amp.Some? then end + 1 else |body|..], AddPiece(m, body[pos..end]))
  {
    hide AddPiece, FindChar;
    var rest := body[pos..];
    ShiftChar(body, '&', pos, 0);
    match FindChar(body, '&', pos)
    case None => assert body[pos..|body|] == rest && body[|body|..] == [];
    case Some(end) => assert body[pos..end] == rest[..end - pos] && rest[end - pos + 1..] == body[end + 1..];
  }
}
