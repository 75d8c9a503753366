/** The builder: an ordered map from names to fields, some of them already rendered, and the
    text built from it. */
module JsonBuilder {
  import opened Wrappers
  import opened Decimal
  import opened Json
  import opened JsonRoundTrip

  const MAX_KEY_LENGTH := 1000

  predicate ValidKey(key: string) {
    key != "" && |key| <= MAX_KEY_LENGTH
  }

  // ----------------------------------------------------------------------- ordered members

  /** The order of keys: character by character, a prefix first. */
  predicate Less(a: string, b: string) {
    b != "" && (a == "" || a[0] < b[0] || (a[0] == b[0] && Less(a[1..], b[1..])))
  }

  lemma {:induction false} LessIsOrder(a: string, b: string)
    ensures a == b ==> !Less(a, b)
    ensures Less(a, b) ==> !Less(b, a)
    ensures a == b || Less(a, b) || Less(b, a)
  {
    if a != "" && b != "" {
      LessIsOrder(a[1..], b[1..]);
      if a[0] == b[0] && a[1..] == b[1..] {
        assert a == [a[0]] + a[1..] == b;
      }
    }
  }

  lemma {:induction false} LessTransitive(a: string, b: string, c: string)
    requires Less(a, b) && Less(b, c)
    ensures Less(a, c)
  {
    if a != "" && a[0] == b[0] == c[0] {
      LessTransitive(a[1..], b[1..], c[1..]);
    }
  }

  ghost predicate Ordered(ms: seq<Member>) {
    forall i, j :: 0 <= i < j < |ms| ==> Less(ms[i].key, ms[j].key)
  }

  /** Assignment to one key of an ordered map. */
  function Put(ms: seq<Member>, key: string, value: Value): seq<Member> {
    if ms == [] || Less(key, ms[0].key) then [Member(key, value)] + ms
    else if ms[0].key == key then [Member(key, value)] + ms[1..]
    else [ms[0]] + Put(ms[1..], key, value)
  }

  function Lookup(ms: seq<Member>, key: string): Option<Value> {
    if ms == [] then None
    else if ms[0].key == key then Some(ms[0].value)
    else Lookup(ms[1..], key)
  }

  /** Assignment keeps the order and changes the one key. */
  lemma {:induction false} PutIsUpdate(ms: seq<Member>, key: string, value: Value, other: string)
    requires Ordered(ms)
    ensures var r := Put(ms, key, value);
            && Ordered(r)
            && (forall m :: m in r ==> m.key == key || m in ms)
            && Lookup(r, other) == if other == key then Some(value) else Lookup(ms, other)
  {
    var r := Put(ms, key, value);
    if ms == [] {
    } else if Less(key, ms[0].key) {
      assert r[1..] == ms;
      forall j | 0 < j < |ms|
        ensures Less(key, ms[j].key)
      {
        LessTransitive(key, ms[0].key, ms[j].key);
      }
      LookupBelow(ms, key);
    } else if ms[0].key == key {
      assert r[1..] == ms[1..];
    } else {
      LessIsOrder(key, ms[0].key);
      PutIsUpdate(ms[1..], key, value, other);
      var rest := Put(ms[1..], key, value);
      assert r[1..] == rest;
      forall j | 0 <= j < |rest|
        ensures Less(ms[0].key, rest[j].key)
      {
        assert rest[j] in rest;
      }
    }
  }

  lemma {:induction false} LookupBelow(ms: seq<Member>, key: string)
    requires forall i :: 0 <= i < |ms| ==> Less(key, ms[i].key)
    ensures Lookup(ms, key) == None
  {
    if ms != [] {
      LessIsOrder(key, ms[0].key);
      LookupBelow(ms[1..], key);
    }
  }

  /** Where assignment happens: before the first key that is not less. */
  lemma {:induction false} PutAt(ms: seq<Member>, key: string, value: Value, i: nat)
    requires i <= |ms| && forall j :: 0 <= j < i ==> Less(ms[j].key, key)
    requires i < |ms| ==> !Less(ms[i].key, key)
    ensures Put(ms, key, value) ==
            ms[..i] + [Member(key, value)] + if i < |ms| && ms[i].key == key then ms[i + 1..] else ms[i..]
  {
    if i == 0 {
      if ms != [] {
        LessIsOrder(ms[0].key, key);
      }
    } else {
      LessIsOrder(ms[0].key, key);
      assert ms[0].key != key && !Less(key, ms[0].key);
      PutAt(ms[1..], key, value, i - 1);
      hide Less;
      TailSlices(ms, i);
    }
  }

  lemma TailSlices(ms: seq<Member>, i: nat)
    requires 0 < i <= |ms|
    ensures ms[..i] == [ms[0]] + ms[1..][..i - 1] && ms[1..][i - 1..] == ms[i..]
    ensures i < |ms| ==> ms[1..][i..] == ms[i + 1..]
  {
  }

  // ------------------------------------------------------------------------------- the text

  /** What is built: the members one after another, or one to a line; nested values are
      compact either way. */
  function Text(ms: seq<Member>, pretty: bool): string {
    "{" + MembersFrom(ms, pretty, true) + (if pretty && ms != [] then "\n" else "") + "}"
  }

  function Separator(pretty: bool): string {
    if pretty then "\n  " else ""
  }

  function ColonGap(pretty: bool): string {
    if pretty then " " else ""
  }

  /** The members that are left, `first` saying that none was written yet. */
  function MembersFrom(ms: seq<Member>, pretty: bool, first: bool): string {
    if ms == [] then ""
    else (if first then "" else ",") + Separator(pretty) + PrintMembers(ms, Separator(pretty), ColonGap(pretty), Compact)
  }

  /** One member as the loop writes it. */
  function Chunk(m: Member, pretty: bool, first: bool): string {
    var comma := if first then "" else ",";
    var lead := if pretty then comma + "\n  " else comma;
    var named := lead + (Quoted(m.key) + ":");
    (if pretty then named + " " else named) + Print(m.value, Compact)
  }

  lemma ChunkParts(m: Member, pretty: bool, first: bool)
    ensures Chunk(m, pretty, first) ==
            (if first then "" else ",") + Separator(pretty) + (Quoted(m.key) + ":") + ColonGap(pretty) + Print(m.value, Compact)
  {
    hide Quoted, Print;
    var comma, named := if first then "" else ",", Quoted(m.key) + ":";
    if !pretty {
      assert comma + "" == comma && comma + named + "" == comma + named;
    }
  }

  lemma MapChunk(key: string, value: string, first: bool)
    ensures Chunk(Member(key, String(value)), false, first) ==
            (if first then "" else ",") + ("\"" + Escape(key) + "\"" + ":") + ("\"" + Escape(value) + "\"")
  {
  }

  lemma MembersFromStep(ms: seq<Member>, pretty: bool, first: bool)
    requires ms != []
    ensures MembersFrom(ms, pretty, first) == Chunk(ms[0], pretty, first) + MembersFrom(ms[1..], pretty, false)
  {
    var sep, gap, comma := Separator(pretty), ColonGap(pretty), if first then "" else ",";
    var q, p := Quoted(ms[0].key), Print(ms[0].value, Compact);
    ChunkParts(ms[0], pretty, first);
    if |ms| == 1 {
      assert MembersFrom(ms, pretty, first) == comma + sep + (q + ":" + gap + p);
      assert MembersFrom(ms[1..], pretty, false) == "";
      hide *;
      LastChunk(comma, sep, q, gap, p);
    } else {
      var more := PrintMembers(ms[1..], sep, gap, Compact);
      assert MembersFrom(ms, pretty, first) == comma + sep + (q + ":" + gap + p + "," + sep + more);
      assert MembersFrom(ms[1..], pretty, false) == "," + sep + more;
      hide *;
      FirstChunk(comma, sep, q, gap, p, more);
    }
  }

  lemma LastChunk(comma: string, sep: string, q: string, gap: string, p: string)
    ensures comma + sep + (q + ":" + gap + p) == comma + sep + (q + ":") + gap + p + ""
  {
  }

  lemma FirstChunk(comma: string, sep: string, q: string, gap: string, p: string, more: string)
    ensures comma + sep + (q + ":" + gap + p + "," + sep + more) ==
            comma + sep + (q + ":") + gap + p + ("," + sep + more)
  {
  }

  /** The lines of the members in the wide layout. */
  function MemberLines(ms: seq<Member>): string {
    if ms == [] then ""
    else "  " + Quoted(ms[0].key) + ": " + Print(ms[0].value, Compact) + (if |ms| > 1 then ",\n" else "\n") + MemberLines(ms[1..])
  }

  /** One member to a line, two blanks in front; nothing between the braces where there are none. */
  lemma PrettyText(ms: seq<Member>)
    ensures Text(ms, true) == if ms == [] then "{}" else "{\n" + MemberLines(ms) + "}"
  {
    if ms != [] {
      PrettyMembers(ms);
      var text := PrintMembers(ms, "\n  ", " ", Compact);
      assert MembersFrom(ms, true, true) == "" + "\n  " + text;
      hide *;
      PrettyRegroup(text, MemberLines(ms));
      assert Text(ms, true) == "{" + ("" + "\n  " + text) + "\n" + "}" by {
        TextIs(ms, "" + "\n  " + text);
      }
    } else {
      assert "{" + "" + "" + "}" == "{}";
    }
  }

  lemma TextIs(ms: seq<Member>, members: string)
    requires ms != [] && MembersFrom(ms, true, true) == members
    ensures Text(ms, true) == "{" + members + "\n" + "}"
  {
    hide MembersFrom;
  }

  lemma PrettyRegroup(text: string, lines: string)
    requires "  " + text + "\n" == lines
    ensures "{" + ("" + "\n  " + text) + "\n" + "}" == "{\n" + lines + "}"
  {
    assert "\n  " == "\n" + "  ";
  }

  lemma {:induction false} PrettyMembers(ms: seq<Member>)
    requires ms != []
    ensures "  " + PrintMembers(ms, "\n  ", " ", Compact) + "\n" == MemberLines(ms)
    decreases |ms|
  {
    var q, p := Quoted(ms[0].key), Print(ms[0].value, Compact);
    if |ms| == 1 {
      assert PrintMembers(ms, "\n  ", " ", Compact) == q + ":" + " " + p;
      assert MemberLines(ms) == "  " + q + ": " + p + "\n" + "";
      hide *;
      LastLine(q, p);
    } else {
      PrettyMembers(ms[1..]);
      var more := PrintMembers(ms[1..], "\n  ", " ", Compact);
      assert PrintMembers(ms, "\n  ", " ", Compact) == q + ":" + " " + p + "," + "\n  " + more;
      assert MemberLines(ms) == "  " + q + ": " + p + ",\n" + MemberLines(ms[1..]);
      hide *;
      NextLine(q, p, more);
    }
  }

  lemma LastLine(q: string, p: string)
    ensures "  " + (q + ":" + " " + p) + "\n" == "  " + q + ": " + p + "\n" + ""
  {
    assert ":" + " " == ": ";
  }

  lemma NextLine(q: string, p: string, more: string)
    ensures "  " + (q + ":" + " " + p + "," + "\n  " + more) + "\n" == "  " + q + ": " + p + ",\n" + ("  " + more + "\n")
  {
    assert ":" + " " == ": " && "," + "\n  " == ",\n" + "  ";
  }

  /** The text reads back as the members, in either layout. */
  lemma ReadTextBuilt(ms: seq<Member>, pretty: bool)
    ensures ReadText(Text(ms, pretty)) == Some(Object(ms))
    ensures Text(ms, false) == Print(Object(ms), Compact)
  {
    ReadBuilt(ms, pretty);
    CompactObject(ms);
    hide ReadValue, Text, Print;
    assert Skip("") == "";
  }

  lemma ReadBuilt(ms: seq<Member>, pretty: bool)
    ensures ReadValue(Text(ms, pretty)) == Some((Object(ms), ""))
  {
    var sep, gap := Separator(pretty), ColonGap(pretty);
    var first, last := if ms == [] then "" else sep, if pretty && ms != [] then "\n" else "";
    var text := PrintMembers(ms, sep, gap, Compact);
    assert MembersFrom(ms, pretty, true) == if ms == [] then "" else "" + sep + text;
    assert Blank(sep) && Blank(gap) && Blank(first) && Blank(last);
    assert ms == [] ==> text == "";
    TextPieces(first, text, last, if ms == [] then "" else "" + sep + text);
    hide ReadValue, PrintMembers, MembersFrom, Separator, ColonGap;
    ReadPrintedObject(ms, first, sep, gap, Compact, last, "");
  }

  lemma TextPieces(first: string, text: string, last: string, members: string)
    requires members == first + text
    ensures "{" + members + last + "}" == "{" + first + text + last + "}" + ""
  {
    assert "{" + (first + text) == "{" + first + text;
  }

  lemma CompactObject(ms: seq<Member>)
    ensures Text(ms, false) == Print(Object(ms), Compact)
  {
    var text := PrintMembers(ms, "", "", Compact);
    CompactMembers(ms);
    assert Print(Object(ms), Compact) == "{" + "" + text + "" + "}";
    hide PrintMembers, MembersFrom, Print;
    NothingBetween(text);
  }

  lemma CompactMembers(ms: seq<Member>)
    ensures MembersFrom(ms, false, true) == PrintMembers(ms, "", "", Compact)
  {
    var text := PrintMembers(ms, "", "", Compact);
    assert ms == [] ==> text == "";
    hide PrintMembers;
    assert "" + "" + text == text;
  }

  lemma NothingBetween(text: string)
    ensures "{" + "" + text + "" + "}" == "{" + text + "" + "}"
  {
  }

  // ----------------------------------------------------------------------------- the class

  datatype FieldKind = StringField | IntegerField | BooleanField | NullField | ArrayField | ObjectField

  datatype Field = Field(kind: FieldKind, text: string)

  datatype Entry = Entry(key: string, field: Field)

  /** Strings are kept raw and escaped when built; everything else is kept as text. */
  function Rendering(f: Field): string {
    if f.kind == StringField then Quoted(f.text) else f.text
  }

  /** What adding a value does to the members: names that are not valid are skipped. */
  function Added(ms: seq<Member>, key: string, value: Value): seq<Member> {
    if 1 <= |key| <= 1000 then Put(ms, key, value) else ms
  }

  function Strings(values: seq<string>): seq<Value> {
    seq(|values|, i requires 0 <= i < |values| => String(values[i]))
  }

  function Numbers(values: seq<int>): seq<Value> {
    seq(|values|, i requires 0 <= i < |values| => Number(values[i]))
  }

  function StringMembers(pairs: seq<(string, string)>): seq<Member> {
    seq(|pairs|, i requires 0 <= i < |pairs| => Member(pairs[i].0, String(pairs[i].1)))
  }

  /** The elements that are left to write. */
  function ElementsFrom(vs: seq<Value>, first: bool): string {
    if vs == [] then "" else (if first then "" else ",") + PrintElements(vs, Compact)
  }

  lemma ElementsFromStep(vs: seq<Value>, first: bool)
    requires vs != []
    ensures ElementsFrom(vs, first) == (if first then "" else ",") + Print(vs[0], Compact) + ElementsFrom(vs[1..], false)
  {
    var lead, p := if first then "" else ",", Print(vs[0], Compact);
    if |vs| == 1 {
      assert ElementsFrom(vs, first) == lead + p;
      assert ElementsFrom(vs[1..], false) == "";
    } else {
      var more := PrintElements(vs[1..], Compact);
      assert ElementsFrom(vs, first) == lead + (p + "," + "" + more);
      assert ElementsFrom(vs[1..], false) == "," + more;
    }
    hide *;
  }

  /** Writing the next piece leaves the whole text the same. */
  lemma Written(text: string, piece: string, rest: string)
    ensures text + (piece + rest) == text + piece + rest
  {
  }

  lemma ArrayText(vs: seq<Value>)
    ensures "[" + ElementsFrom(vs, true) + "]" == Print(Array(vs), Compact)
  {
    var e := PrintElements(vs, Compact);
    assert ElementsFrom(vs, true) == e;
    hide PrintElements, ElementsFrom;
    assert "[" + "" + e + "" + "]" == "[" + e + "]";
  }

  // The loops that render nested values.

  method EscapeJsonString(s: string) returns (escaped: string)
    ensures escaped == Escape(s)
  {
    escaped := "";
    var i := 0;
    assert s[0..] == s;
    while i < |s|
      invariant 0 <= i <= |s|
      invariant escaped + Escape(s[i..]) == Escape(s)
    {
      assert s[i..][0] == s[i] && s[i..][1..] == s[i + 1..];
      Written(escaped, EscapeChar(s[i]), Escape(s[i + 1..]));
      escaped := escaped + EscapeChar(s[i]);
      i := i + 1;
    }
  }

  /** An element behind what was written, and the elements behind it. */
  lemma NextElement(text: string, vs: seq<Value>, i: nat)
    requires i < |vs|
    ensures text + ((if i == 0 then "" else ",") + Print(vs[i], Compact)) + ElementsFrom(vs[i + 1..], false) ==
            text + ElementsFrom(vs[i..], i == 0)
  {
    ElementsFromStep(vs[i..], i == 0);
    assert vs[i..][0] == vs[i] && vs[i..][1..] == vs[i + 1..];
    hide *;
    Written(text, (if i == 0 then "" else ",") + Print(vs[i], Compact), ElementsFrom(vs[i + 1..], false));
  }

  method StringPiece(value: string, first: bool) returns (piece: string)
    ensures piece == (if first then "" else ",") + Print(String(value), Compact)
  {
    piece := if !first then "," else "";
    var escaped := EscapeJsonString(value);
    piece := piece + ("\"" + escaped + "\"");
    hide Escape;
  }

  method StringArrayText(values: seq<string>) returns (text: string)
    ensures text == Print(Array(Strings(values)), Compact)
  {
    ghost var vs := Strings(values);
    text := "[";
    var i := 0;
    while i < |values|
      invariant 0 <= i <= |values|
      invariant text + ElementsFrom(vs[i..], i == 0) == "[" + ElementsFrom(vs, true)
    {
      var piece := StringPiece(values[i], i == 0);
      NextElement(text, vs, i);
      text := text + piece;
      i := i + 1;
    }
    text := text + "]";
    ArrayText(vs);
    hide ElementsFrom, Print;
  }

  method IntArrayText(values: seq<int>) returns (text: string)
    ensures text == Print(Array(Numbers(values)), Compact)
  {
    ghost var vs := Numbers(values);
    text := "[";
    var i := 0;
    while i < |values|
      invariant 0 <= i <= |values|
      invariant text + ElementsFrom(vs[i..], i == 0) == "[" + ElementsFrom(vs, true)
    {
      NextElement(text, vs, i);
      var piece := (if i > 0 then "," else "") + Numeral(values[i]);
      text := text + piece;
      i := i + 1;
    }
    text := text + "]";
    ArrayText(vs);
    hide ElementsFrom, Print;
  }

  lemma NextMember(text: string, ms: seq<Member>, i: nat, pretty: bool)
    requires i < |ms|
    ensures text + Chunk(ms[i], pretty, i == 0) + MembersFrom(ms[i + 1..], pretty, false) ==
            text + MembersFrom(ms[i..], pretty, i == 0)
  {
    MembersFromStep(ms[i..], pretty, i == 0);
    assert ms[i..][0] == ms[i] && ms[i..][1..] == ms[i + 1..];
    hide *;
    Written(text, Chunk(ms[i], pretty, i == 0), MembersFrom(ms[i + 1..], pretty, false));
  }

  method PairPiece(pair: (string, string), first: bool) returns (piece: string)
    ensures piece == Chunk(Member(pair.0, String(pair.1)), false, first)
  {
    MapChunk(pair.0, pair.1, first);
    hide Escape, Chunk;
    piece := if !first then "," else "";
    var key := EscapeJsonString(pair.0);
    var value := EscapeJsonString(pair.1);
    piece := piece + ("\"" + key + "\"" + ":");
    piece := piece + ("\"" + value + "\"");
  }

  method MapText(pairs: seq<(string, string)>) returns (text: string)
    ensures text == Print(Object(StringMembers(pairs)), Compact)
  {
    ghost var ms := StringMembers(pairs);
    text := "{";
    var first, i := true, 0;
    while i < |pairs|
      invariant 0 <= i <= |pairs| && first == (i == 0)
      invariant text + MembersFrom(ms[i..], false, first) == "{" + MembersFrom(ms, false, true)
    {
      var piece := PairPiece(pairs[i], first);
      NextMember(text, ms, i, false);
      text := text + piece;
      first := false;
      i := i + 1;
    }
    assert text + "" == text;
    text := text + "}";
    CompactObject(ms);
    hide MembersFrom, Print;
  }

  predicate RendersOne(e: Entry, m: Member) {
    e.key == m.key && Rendering(e.field) == Print(m.value, Compact)
  }

  /** The fields render the members. */
  ghost predicate Renders(fields: seq<Entry>, members: seq<Member>) {
    |fields| == |members| && forall i :: 0 <= i < |fields| ==> RendersOne(fields[i], members[i])
  }

  /** One field as it is streamed out. */
  method MemberText(e: Entry, pretty: bool, first: bool, ghost m: Member) returns (piece: string)
    requires RendersOne(e, m)
    ensures piece == Chunk(m, pretty, first)
  {
    hide Escape, Rendering, Print;
    piece := "";
    if !first {
      piece := ",";
      if pretty {
        piece := piece + "\n  ";
      }
    } else if pretty {
      piece := piece + "\n  ";
    }
    var key := EscapeJsonString(e.key);
    piece := piece + ("\"" + key + "\"" + ":");
    if pretty {
      piece := piece + " ";
    }
    piece := piece + Rendering(e.field);
  }

  /** The loop over the map. */
  method BuildText(fields: seq<Entry>, pretty: bool, ghost members: seq<Member>) returns (json: string)
    requires Renders(fields, members)
    ensures json == Text(members, pretty)
  {
    json := "{";
    var first, i := true, 0;
    while i < |fields|
      invariant 0 <= i <= |fields| && first == (i == 0)
      invariant json + MembersFrom(members[i..], pretty, first) == "{" + MembersFrom(members, pretty, true)
    {
      var piece := MemberText(fields[i], pretty, first, members[i]);
      NextMember(json, members, i, pretty);
      json := json + piece;
      first := false;
      i := i + 1;
    }
    assert members[i..] == [] && json + "" == json;
    hide PrintMembers, Separator, ColonGap, RendersOne;
    if pretty && fields != [] {
      json := json + "\n";
    } else {
      assert json + "" == json;
    }
    json := json + "}";
  }

  lemma RendersSplice(fields: seq<Entry>, members: seq<Member>, e: Entry, m: Member, i: nat, k: nat)
    requires Renders(fields, members) && RendersOne(e, m) && i <= k <= |fields|
    ensures Renders(fields[..i] + [e] + fields[k..], members[..i] + [m] + members[k..])
  {
    hide RendersOne;
  }

  lemma RendersPut(fields: seq<Entry>, members: seq<Member>, e: Entry, value: Value, i: nat)
    requires Renders(fields, members) && RendersOne(e, Member(e.key, value)) && i <= |fields|
    requires forall j :: 0 <= j < i ==> Less(members[j].key, e.key)
    requires i < |fields| ==> !Less(members[i].key, e.key)
    ensures Renders(fields[..i] + [e] + (if i < |fields| && fields[i].key == e.key then fields[i + 1..] else fields[i..]),
                    Put(members, e.key, value))
  {
    PutAt(members, e.key, value, i);
    var k := if i < |fields| && fields[i].key == e.key then i + 1 else i;
    assert i < |fields| ==> RendersOne(fields[i], members[i]);
    hide Put, Less, Rendering, Print;
    RendersSplice(fields, members, e, Member(e.key, value), i, k);
  }

  class JsonBuilder {
    var fields: seq<Entry>
    ghost var members: seq<Member>

    ghost predicate Valid()
      reads this
    {
      Renders(fields, members) && Ordered(members)
    }

    constructor ()
      ensures Valid() && members == []
    {
      fields, members := [], [];
    }

    /** Assignment to a key of the map. */
    method Assign(key: string, field: Field, ghost value: Value)
      requires Valid() && Rendering(field) == Print(value, Compact)
      modifies this
      ensures Valid() && members == Put(old(members), key, value)
    {
      var i := 0;
      while i < |fields| && Less(fields[i].key, key)
        invariant 0 <= i <= |fields|
        invariant forall j :: 0 <= j < i ==> Less(members[j].key, key)
        modifies {}
      {
        i := i + 1;
      }
      RendersPut(fields, members, Entry(key, field), value, i);
      PutIsUpdate(members, key, value, key);
      hide Renders, Put, Ordered, Less, Rendering, Print;
      if i < |fields| && fields[i].key == key {
        fields := fields[..i] + [Entry(key, field)] + fields[i + 1..];
      } else {
        fields := fields[..i] + [Entry(key, field)] + fields[i..];
      }
      members := Put(members, key, value);
    }

    method AddString(key: string, value: string)
      requires Valid()
      modifies this
      ensures Valid() && members == Added(old(members), key, String(value))
    {
      if ValidKey(key) {
        Assign(key, Field(StringField, value), String(value));
      }
    }

    /** Integers and long integers are rendered alike. */
    method AddInteger(key: string, value: int)
      requires Valid()
      modifies this
      ensures Valid() && members == Added(old(members), key, Number(value))
    {
      if ValidKey(key) {
        Assign(key, Field(IntegerField, Numeral(value)), Number(value));
      }
    }

    method AddBool(key: string, value: bool)
      requires Valid()
      modifies this
      ensures Valid() && members == Added(old(members), key, Bool(value))
    {
      if ValidKey(key) {
        Assign(key, Field(BooleanField, if value then "true" else "false"), Bool(value));
      }
    }

    method AddNull(key: string)
      requires Valid()
      modifies this
      ensures Valid() && members == Added(old(members), key, Null)
    {
      if ValidKey(key) {
        Assign(key, Field(NullField, "null"), Null);
      }
    }

    method AddStringArray(key: string, values: seq<string>)
      requires Valid()
      modifies this
      ensures Valid() && members == Added(old(members), key, Array(Strings(values)))
    {
      if !ValidKey(key) {
        return;
      }
      var text := StringArrayText(values);
      Assign(key, Field(ArrayField, text), Array(Strings(values)));
    }

    method AddIntArray(key: string, values: seq<int>)
      requires Valid()
      modifies this
      ensures Valid() && members == Added(old(members), key, Array(Numbers(values)))
    {
      if !ValidKey(key) {
        return;
      }
      var text := IntArrayText(values);
      Assign(key, Field(ArrayField, text), Array(Numbers(values)));
    }

    /** An object given as an ordered map of strings. */
    method AddMap(key: string, pairs: seq<(string, string)>)
      requires Valid()
      modifies this
      ensures Valid() && members == Added(old(members), key, Object(StringMembers(pairs)))
    {
      if !ValidKey(key) {
        return;
      }
      var text := MapText(pairs);
      Assign(key, Field(ObjectField, text), Object(StringMembers(pairs)));
    }

    /** A nested builder is rendered at once; it may be this one. */
    method AddObject(key: string, builder: JsonBuilder)
      requires Valid() && builder.Valid()
      modifies this
      ensures Valid() && members == Added(old(members), key, Object(old(builder.members)))
    {
      if ValidKey(key) {
        var json := builder.Build(false);
        ReadTextBuilt(builder.members, false);
        Assign(key, Field(ObjectField, json), Object(builder.members));
      }
    }

    /** What is built reads back as the members that were added, in either layout. */
    method Build(pretty: bool) returns (json: string)
      requires Valid()
      ensures json == Text(members, pretty)
      ensures ReadText(json) == Some(Object(members))
    {
      json := BuildText(fields, pretty, members);
      ReadTextBuilt(members, pretty);
    }
  }

  lemma PutFirst(key: string, value: Value, m: Member)
    requires Less(key, m.key)
    ensures Put([m], key, value) == [Member(key, value), m]
  {
  }

  /** The response that wraps data reads back as a flag and that data. */
  method DataResponse(data: JsonBuilder, success: bool) returns (json: string)
    requires data.Valid()
    ensures ReadText(json) ==
            Some(Object([Member("data", Object(data.members)), Member("success", Bool(success))]))
  {
    var builder := new JsonBuilder();
    assert Less("data", "success");
    builder.AddBool("success", success);
    assert builder.members == [Member("success", Bool(success))];
    builder.AddObject("data", data);
    assert builder.members == Put([Member("success", Bool(success))], "data", Object(data.members));
    PutFirst("data", Object(data.members), Member("success", Bool(success)));
    hide *;
    json := builder.Build(false);
  }
}
