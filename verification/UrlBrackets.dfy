/** What the normaliser does to URLs whose host is an IPv6 address in brackets: its searches stop
    at the first colon inside the brackets. */
module UrlBrackets {
  import opened Wrappers
  import opened Url
  import opened UrlPass
  import opened UrlComponents

  /** An IPv6 address in brackets, with a colon in it. */
  predicate Bracketed(host: string) {
    && host != "" && host[0] == '[' && host[|host| - 1] == ']' && NoneOf(host, {'/', '?', '#', '@'})
    && var k := Span(host, {':'});
       k < |host| && NoneOf(host[..k], {']'})
  }

  predicate BracketedParts(c: Parts) {
    WellFormed(c.(host := "")) && Bracketed(c.host)
  }

  /** What is taken for the host, and the rest of the address. */
  function Front(c: Parts): string {
    c.host[..Span(c.host, {':'})]
  }

  function Inner(c: Parts): string {
    c.host[Span(c.host, {':'})..]
  }

  /** What stands behind the text taken for the host. */
  function BehindFront(c: Parts): string {
    Inner(c) + Port(c) + Tail(c)
  }

  lemma HostHalves(c: Parts)
    requires BracketedParts(c)
    ensures Front(c) + Inner(c) == c.host && Inner(c) != "" && Inner(c)[0] == ':'
    ensures NoneOf(Front(c), {':', '/', '?', '#'}) && NoneOf(Front(c), {'@'}) && NoneOf(Inner(c), {'/', '?', '#', '@'})
    ensures NormalDomain(Front(c)) == Front(c)
  {
    var k := Span(c.host, {':'});
    assert c.host == c.host[..k] + c.host[k..];
    NoneOfJoin(Front(c), Inner(c), {'/', '?', '#', '@'});
    NoneOfFewer(Front(c), {'/', '?', '#', '@'}, {'@'});
    assert NoneOf(Front(c), {':'});
    FrontKept(Front(c));
    hide Span;
  }

  lemma FrontKept(front: string)
    requires NoneOf(front, {']'}) && (front != "" ==> front[0] == '[')
    ensures NormalDomain(front) == front
  {
    if front != "" {
      assert forall j :: 0 <= j < |front| ==> front[j] != ']';
      Text.FindCharNone(front, ']', 0);
    }
  }

  lemma BracketsSplit(c: Parts)
    requires BracketedParts(c)
    ensures Splits(c.scheme, User(c), Front(c), BehindFront(c))
    ensures Normalize(Join(c)) == Normalize(Whole(c.scheme, User(c), Front(c), BehindFront(c)))
  {
    HostHalves(c);
    UserIsText(c);
    PortIsText(c);
    NoneOfFewer(c.host, {'/', '?', '#', '@'}, {'#'});
    FragmentDropped(c);
    NoneOfFewer(Inner(c), {'/', '?', '#', '@'}, {'#'});
    NoneOfJoin(c.path, Behind("?", c.query), {'#'});
    NoneOfJoin(Port(c), Tail(c), {'#'});
    NoneOfJoin(Inner(c), Port(c), {'#'});
    NoneOfJoin(Inner(c) + Port(c), Tail(c), {'#'});
    assert BehindFront(c)[0] == Inner(c)[0];
    hide Join, Span, LowerAuthority, RemoveDefaultPort, AddPath, Front, Inner, UserText, Tail, Port, User;
    HostRegroup(c.scheme, User(c), Front(c), Inner(c), Port(c), Tail(c));
    NoFragment(c.scheme, User(c), Front(c), BehindFront(c));
  }

  lemma HostRegroup(scheme: string, user: string, front: string, inner: string, port: string, tail: string)
    ensures Whole(scheme, user, front, inner + port + tail) == Whole(scheme, user, front + inner, port + tail)
  {
    assert front + (inner + port + tail) == (front + inner) + (port + tail);
  }

  // ------------------------------------------------------------------------------ the searches

  /** Text without '@' and '/' in front changes none of the searches for them. */
  lemma LeadSeen(user: string, lead: string, tail: string)
    requires NoneOf(lead, {'@'}) && NoneOf(lead, {'/'})
    ensures Misled(user, lead + tail) <==> Misled(user, tail)
    ensures LooksRight(user, lead + tail) <==> LooksRight(user, tail)
    ensures !LooksRight(user, tail) ==> UpToAt(lead + tail) == lead + UpToAt(tail) && AfterAt(lead + tail) == AfterAt(tail)
  {
    NoneOfJoin(lead, tail, {'@'});
    SpanOver(lead, tail, {'@'});
    SpanOver(lead, tail, {'/'});
    hide NoneOf, Span;
    if !LooksRight(user, tail) {
      AtSplits(tail);
      AtSplits(lead + tail);
      Slices(lead, tail, Span(tail, {'@'}) + 1);
    }
  }

  lemma LeadText(c: Parts)
    requires BracketedParts(c)
    ensures NoneOf(Inner(c) + Port(c), {'@'}) && NoneOf(Inner(c) + Port(c), {'/'}) && NoneOf(Inner(c) + Port(c), {'?'})
  {
    HostHalves(c);
    PortIsText(c);
    NoneOfJoin(Inner(c), Port(c), {'/', '?', '#', '@'});
    NoneOfFewer(Inner(c) + Port(c), {'/', '?', '#', '@'}, {'@'});
    NoneOfFewer(Inner(c) + Port(c), {'/', '?', '#', '@'}, {'/'});
    NoneOfFewer(Inner(c) + Port(c), {'/', '?', '#', '@'}, {'?'});
  }

  lemma BracketsSeen(c: Parts)
    requires BracketedParts(c)
    ensures var t := BehindFront(c);
            && (Misled(User(c), t) <==> !Located(c)) && (LooksRight(User(c), t) <==> SeesPort(c))
            && (!SeesPort(c) ==> UpToAt(t) == Inner(c) + Port(c) + UpToAt(Tail(c)) && AfterAt(t) == AfterAt(Tail(c)))
    ensures !Located(c) ==> !SeesPort(c) && AtInQuery(BehindFront(c))
  {
    LeadText(c);
    LeadSeen(User(c), Inner(c) + Port(c), Tail(c));
    UserIsText(c);
    PathFirst(c);
    SpanAll(Tail(c), {'@'});
    if !Located(c) {
      SpanOver(Inner(c) + Port(c), Tail(c), {'@'});
      SpanOver(Inner(c) + Port(c), Tail(c), {'?'});
      assert Tail(c)[0] == '?';
    }
    hide UpToAt, AfterAt, NoneOf;
  }

  /** What follows the first colon holds the closing bracket, so it is not a default port. */
  lemma BracketInPort(scheme: string, inner: string, rest: string)
    requires |inner| >= 2 && inner[0] == ':' && inner[|inner| - 1] == ']' && NoneOf(inner, {'/', '?', '#'})
    ensures !DefaultColon(scheme, inner + rest)
  {
    var t := inner + rest;
    SpanOver(inner, rest, {'/', '?', '#'});
    assert t[0] == ':' && t[|inner| - 1] == ']';
    assert Span(t, {':'}) == 0 && t[0..] == t;
    var end := PortEnd(t);
    assert |inner| <= end;
    hide Span, PortEnd;
    assert t[1..end][|inner| - 2] == ']';
  }

  lemma NoPortInBrackets(c: Parts)
    requires BracketedParts(c)
    ensures !DefaultColon(c.scheme, BehindFront(c))
  {
    HostHalves(c);
    LastOfInner(c);
    NoneOfFewer(Inner(c), {'/', '?', '#', '@'}, {'/', '?', '#'});
    hide Inner, Port, Tail, DefaultColon, NoneOf;
    assert Inner(c) + Port(c) + Tail(c) == Inner(c) + (Port(c) + Tail(c));
    BracketInPort(c.scheme, Inner(c), Port(c) + Tail(c));
  }

  lemma LastOfInner(c: Parts)
    requires BracketedParts(c)
    ensures |Inner(c)| >= 2 && Inner(c)[|Inner(c)| - 1] == ']'
  {
    var k := Span(c.host, {':'});
    assert c.host[k] == ':' && c.host[k..][|c.host| - k - 1] == ']';
  }

  /** What is left of the text behind the '@' where the port was looked for. */
  function LeftOf(c: Parts): string {
    WithoutPort(c.scheme, if Located(c) then AfterAt(Tail(c)) else LowerDomain(AfterAt(Tail(c))))
  }

  function TailKept(c: Parts): string {
    if SeesPort(c) then Tail(c) else UpToAt(Tail(c)) + LeftOf(c)
  }

  lemma BracketsLeft(c: Parts)
    requires BracketedParts(c)
    ensures Left(c.scheme, User(c), BehindFront(c)) == if SeesPort(c) then BehindFront(c) else LeftOf(c)
    ensures Lead(User(c), Lowered(User(c), BehindFront(c))) ==
            if SeesPort(c) then "" else Inner(c) + Port(c) + UpToAt(Tail(c))
  {
    BracketsSeen(c);
    if SeesPort(c) {
      NoPortInBrackets(c);
      hide DefaultColon, CutPort, BehindFront, AfterAt, UpToAt, LowerDomain, LooksRight, SeesPort;
    } else if !Located(c) {
      MisledHasAt(User(c), BehindFront(c));
      hide Lowered, WithoutPort, BehindFront, AfterAt, UpToAt, LowerDomain, LooksRight, SeesPort, Misled;
    } else {
      hide WithoutPort, BehindFront, AfterAt, UpToAt, LowerDomain, LooksRight, SeesPort, Misled;
    }
  }

  /** The pass over such a URL: the host and the port stay, and a slash is added when there is
      none. */
  lemma BracketedPass(c: Parts)
    requires BracketedParts(c)
    ensures Normalize(Join(c)) == Whole(Lower(c.scheme), User(c), c.host, Port(c) + Slashed(TailKept(c)))
  {
    BracketsSplit(c);
    BracketsSeen(c);
    BracketsLeft(c);
    HostHalves(c);
    LeadText(c);
    BracketsBehind(c);
    hide *;
    Pass(c.scheme, User(c), Front(c), BehindFront(c));
    FrontAfter(c);
    HostRegroup(Lower(c.scheme), User(c), Front(c), Inner(c), Port(c), Slashed(TailKept(c)));
  }

  lemma FrontAfter(c: Parts)
    requires NormalDomain(Front(c)) == Front(c)
    ensures HostAfter(User(c), Front(c), BehindFront(c)) == Front(c)
  {
    hide NormalDomain, Misled;
  }

  lemma BracketsBehind(c: Parts)
    requires BracketedParts(c)
    ensures BehindAfter(c.scheme, User(c), BehindFront(c)) == Inner(c) + Port(c) + Slashed(TailKept(c))
  {
    BracketsLeft(c);
    LeadText(c);
    hide Lead, Left, Lowered, SeesPort, LeftOf, UpToAt, Inner, Port, Tail, User, Slashed, NoneOf;
    KeptRegroup(Inner(c) + Port(c), UpToAt(Tail(c)), LeftOf(c), Tail(c));
    SlashedBehind(Inner(c) + Port(c), TailKept(c));
  }

  lemma KeptRegroup(lead: string, up: string, l: string, tail: string)
    ensures lead + up + l == lead + (up + l) && "" + (lead + tail) == lead + tail
  {
  }

  // -------------------------------------------------------------------------- what is kept

  /** The text behind the host is not touched: nothing in it is taken for the domain, or it is
      lowered already, and no default port is found in it. */
  predicate Untouched(c: Parts) {
    var after := AfterAt(Tail(c));
    && (Located(c) || LowerDomain(after) == after)
    && (SeesPort(c) || !DefaultColon(c.scheme, after))
  }

  /** It is no longer than before, and has a slash when it had one. */
  lemma KeptShape(c: Parts)
    requires BracketedParts(c)
    ensures |TailKept(c)| <= |Tail(c)| && (NoneOf(TailKept(c), {'/'}) <==> NoneOf(Tail(c), {'/'}))
    ensures TailKept(c) == Tail(c) <==> Untouched(c)
    ensures Tail(c) == "" ==> TailKept(c) == ""
    ensures Tail(c) != "" ==> TailKept(c) != "" && TailKept(c)[0] == Tail(c)[0]
  {
    BracketsSeen(c);
    if !SeesPort(c) {
      var up, after := UpToAt(Tail(c)), AfterAt(Tail(c));
      var x := if Located(c) then after else LowerDomain(after);
      AtSplits(Tail(c));
      LowerDomainKeeps(after);
      CutIsShorter(c.scheme, x);
      NoneOfJoin(up, after, {'/'});
      NoneOfJoin(up, LeftOf(c), {'/'});
      SameBehind(up, LeftOf(c), after);
      assert up[0] == Tail(c)[0];
      hide LowerDomain, DefaultColon, CutPort, UpToAt, AfterAt, Tail, NoneOf, Located, SeesPort, Misled, LooksRight;
    }
  }

  lemma SlashedSameText(a: string, b: string)
    requires NoneOf(a, {'/'}) <==> NoneOf(b, {'/'})
    ensures Slashed(a) == Slashed(b) <==> a == b
  {
    if NoneOf(a, {'/'}) && Slashed(a) == Slashed(b) {
      var p, q := Span(a, {'?'}), Span(b, {'?'});
      var x := Slashed(a);
      assert x[p] == '/' && x[q] == '/';
      assert forall i :: 0 <= i < p ==> x[i] == a[i];
      assert forall i :: p < i < |x| ==> x[i] == a[i - 1];
      assert p == q;
      assert a == x[..p] + x[p + 1..] && b == x[..p] + x[p + 1..];
    }
  }

  /** The scheme is put in lower case, an empty path becomes a slash and the fragment goes; the
      host, its capitals and the port stay. Nothing else happens exactly when the text behind
      them is not touched. */
  lemma BracketedUntouched(c: Parts)
    requires BracketedParts(c)
    ensures Normalize(Join(c)) ==
            Join(c.(scheme := Lower(c.scheme), path := if c.path == "" && SlashOk(c) then "/" else c.path, fragment := None))
            <==> Untouched(c)
  {
    var path := if c.path == "" && SlashOk(c) then "/" else c.path;
    var r := c.(scheme := Lower(c.scheme), path := path, fragment := None);
    BracketedPass(c);
    KeptShape(c);
    SlashedSameText(TailKept(c), Tail(c));
    SlashedPath(c);
    JoinWhole(r);
    hide *;
    WholeEqual(Lower(c.scheme), User(c), c.host, Port(c) + Slashed(TailKept(c)), Port(c) + Slashed(Tail(c)));
    SameBehind(Port(c), Slashed(TailKept(c)), Slashed(Tail(c)));
  }

  lemma SlashedPath(c: Parts)
    requires WellFormed(c.(host := ""))
    ensures Slashed(Tail(c)) == Tail(c.(path := if c.path == "" && SlashOk(c) then "/" else c.path))
  {
    SlashInTail(c);
    hide NoneOf, Slashed;
    if c.path == "" && SlashOk(c) {
      SlashedFront(Tail(c));
      assert "/" + Behind("?", c.query) == "/" + ("" + Behind("?", c.query));
    } else {
      SlashedSame(Tail(c));
    }
  }

  lemma JoinWhole(c: Parts)
    requires c.fragment.None?
    ensures Join(c) == Whole(c.scheme, User(c), c.host, Port(c) + Tail(c))
  {
    var w := Whole(c.scheme, User(c), c.host, Port(c) + Tail(c));
    assert w + "" == w;
  }

  // ------------------------------------------------------------------- component by component

  lemma WholeSplit(s: string, u: string, h1: string, b1: string, h2: string, b2: string)
    requires |h1| == |h2|
    ensures Whole(s, u, h1, b1) == Whole(s, u, h2, b2) <==> h1 == h2 && b1 == b2
  {
    var w1, w2, n := Whole(s, u, h1, b1), Whole(s, u, h2, b2), |s| + 3 + |u|;
    if w1 == w2 {
      assert w1[n..][..|h1|] == h1 && w1[n..][|h1|..] == b1;
      assert w2[n..][..|h2|] == h2 && w2[n..][|h2|..] == b2;
    }
  }

  lemma BracketLowered(c: Parts)
    requires BracketedParts(c)
    ensures DropDot(Lower(c.host)) == Lower(c.host)
  {
    assert Lower(c.host)[|c.host| - 1] == LowerChar(']');
  }

  /** The text behind the host is the normal one. */
  lemma BehindIsNormal(c: Parts)
    requires BracketedParts(c)
    ensures Port(c) + Slashed(TailKept(c)) == NormalTail(c) <==> !HasDefaultPort(c) && SlashOk(c) && Untouched(c)
  {
    KeptShape(c);
    if HasDefaultPort(c) {
      NoPortInFront(c);
      assert (Port(c) + Slashed(TailKept(c)))[0] == ':';
    } else {
      TailIsNormal(c);
      hide Slashed, TailKept, Tail, Untouched, SlashOk;
      SameBehind(Port(c), Slashed(TailKept(c)), Tail(NormalParts(c)));
    }
  }

  lemma TailIsNormal(c: Parts)
    requires BracketedParts(c)
    ensures Slashed(TailKept(c)) == Tail(NormalParts(c)) <==> SlashOk(c) && Untouched(c)
  {
    KeptShape(c);
    if SlashOk(c) {
      SlashedTail(c);
      SlashedSameText(TailKept(c), Tail(c));
    } else {
      SlashInTail(c);
      JoinNormal(c);
      SlashedSame(TailKept(c));
    }
    hide TailKept, Untouched, Tail, Slashed, NoneOf;
  }

  /** So a URL with such a host is normalised component by component exactly when its host is in
      lower case already, it has no default port, and its searches are not misled. */
  lemma BracketedIsByComponent(c: Parts)
    requires BracketedParts(c)
    ensures Normalize(Join(c)) == Join(NormalParts(c)) <==>
            Lower(c.host) == c.host && !HasDefaultPort(c) && SlashOk(c) && Untouched(c)
  {
    BracketedPass(c);
    BracketLowered(c);
    JoinNormal(c);
    BehindIsNormal(c);
    hide Normalize, Join, Whole, Slashed, TailKept, NormalTail, HasDefaultPort, SlashOk, Untouched, DropDot, Lower;
    WholeSplit(Lower(c.scheme), User(c), c.host, Port(c) + Slashed(TailKept(c)), Lower(c.host), NormalTail(c));
  }

  // ------------------------------------------------------------------------- a second pass

  /** A second pass finds no default port in what was left behind an '@', and what it takes for
      the domain there is lowered already. */
  predicate StableBrackets(c: Parts) {
    SeesPort(c) ||
    (!DefaultColon(c.scheme, LeftOf(c)) && (Located(c) || NoneOf(LeftOf(c), {'/'}) || LowerDomain(LeftOf(c)) == LeftOf(c)))
  }

  lemma BracketedTwice(c: Parts)
    requires BracketedParts(c)
    ensures Normalize(Normalize(Join(c))) == Normalize(Join(c)) <==> StableBrackets(c)
  {
    BracketsSettled(c);
    hide *;
    BracketsSplit(c);
    PassTwice(c.scheme, User(c), Front(c), BehindFront(c));
  }

  lemma BracketsSettled(c: Parts)
    requires BracketedParts(c)
    ensures Settled(c.scheme, User(c), Front(c), BehindFront(c)) <==> StableBrackets(c)
  {
    BracketsSeen(c);
    BracketsLeft(c);
    HostHalves(c);
    NoPortInBrackets(c);
    hide Left, LeftOf, BehindFront, LowerDomain, DefaultColon, NoneOf, Misled, AtInQuery, NormalDomain, SeesPort, Located,
         Settled, Front, User;
    SettledAs(c.scheme, User(c), Front(c), BehindFront(c), Left(c.scheme, User(c), BehindFront(c)), !Located(c));
  }

  // ------------------------------------------------------------------------- where it goes wrong

  const CAPITAL_HOST := Parts("http", None, "[2001:DB8::1]", Some("80"), "/", None, None)

  lemma IsBracketed(host: string, front: string, inner: string)
    requires host == front + inner && front != "" && front[0] == '[' && NoneOf(front, {':', ']', '/', '?', '#', '@'})
    requires |inner| >= 2 && inner[0] == ':' && inner[|inner| - 1] == ']' && NoneOf(inner, {'/', '?', '#', '@'})
    ensures Bracketed(host)
  {
    NoneOfFewer(front, {':', ']', '/', '?', '#', '@'}, {':'});
    NoneOfFewer(front, {':', ']', '/', '?', '#', '@'}, {']'});
    NoneOfFewer(front, {':', ']', '/', '?', '#', '@'}, {'/', '?', '#', '@'});
    NoneOfJoin(front, inner, {'/', '?', '#', '@'});
    SpanOver(front, inner, {':'});
    assert Span(inner, {':'}) == 0 && host[..|front|] == front;
  }

  lemma AddressChars()
    ensures NoneOf("[2001", {':', ']', '/', '?', '#', '@'})
    ensures NoneOf(":DB8::1]", {'/', '?', '#', '@'}) && NoneOf(":db8::1]", {'/', '?', '#', '@'})
  {
  }

  lemma AddressTexts()
    ensures "[2001:DB8::1]" == "[2001" + ":DB8::1]" && "[2001:db8::1]" == "[2001" + ":db8::1]"
  {
  }

  lemma Addresses()
    ensures Bracketed("[2001:DB8::1]") && Bracketed("[2001:db8::1]")
  {
    AddressChars();
    AddressTexts();
    hide Bracketed, NoneOf;
    IsBracketed("[2001:DB8::1]", "[2001", ":DB8::1]");
    IsBracketed("[2001:db8::1]", "[2001", ":db8::1]");
  }

  lemma CapitalIsBracketed()
    ensures BracketedParts(CAPITAL_HOST)
  {
    Addresses();
    hide Bracketed;
  }

  lemma CapitalText()
    ensures Join(CAPITAL_HOST) == "http://[2001:DB8::1]:80/"
    ensures Join(NormalParts(CAPITAL_HOST)) == "http://[2001:db8::1]/"
  {
    CapitalLowered();
    hide Lower, DropDot;
    assert Tail(CAPITAL_HOST) == "/" && Tail(NormalParts(CAPITAL_HOST)) == "/";
    JoinWhole(CAPITAL_HOST);
    JoinWhole(NormalParts(CAPITAL_HOST));
    hide Join, Tail;
    assert Whole("http", "", "[2001:DB8::1]", ":80/") == "http://[2001:DB8::1]:80/";
    assert Whole("http", "", "[2001:db8::1]", "/") == "http://[2001:db8::1]/";
  }

  lemma CapitalLowered()
    ensures Lower("http") == "http" && DropDot(Lower("[2001:DB8::1]")) == "[2001:db8::1]"
  {
    assert Lower("[2001:DB8::1]") == "[2001:db8::1]";
  }

  /** The capitals and the default port of such a URL stay. */
  lemma CapitalsStay()
    ensures BracketedParts(CAPITAL_HOST) && Normalize("http://[2001:DB8::1]:80/") == "http://[2001:DB8::1]:80/"
    ensures Join(CAPITAL_HOST) == "http://[2001:DB8::1]:80/" && Join(NormalParts(CAPITAL_HOST)) == "http://[2001:db8::1]/"
  {
    CapitalText();
    CapitalIsBracketed();
    CapitalUntouched();
    BracketedUntouched(CAPITAL_HOST);
    hide Normalize, Join, BracketedParts, Untouched, NormalParts, Lower;
    assert CAPITAL_HOST.(scheme := "http", path := "/", fragment := None) == CAPITAL_HOST;
  }

  lemma CapitalUntouched()
    ensures Untouched(CAPITAL_HOST) && Lower("http") == "http"
  {
    assert Lower("http") == "http";
    assert Tail(CAPITAL_HOST) == "/" && NoneOf("/", {'@'});
    SpanAll("/", {'@'});
    hide DefaultColon, LowerDomain, Lower;
  }

  const PORT_IN_PATH := Parts("http", None, "[2001:db8::1]", None, "/@x:80/", None, None)

  lemma PathIsBracketed()
    ensures BracketedParts(PORT_IN_PATH)
  {
    Addresses();
    hide Bracketed;
  }

  lemma PathText()
    ensures Join(PORT_IN_PATH) == "http://[2001:db8::1]/@x:80/" && Tail(PORT_IN_PATH) == "/@x:80/"
  {
    assert Tail(PORT_IN_PATH) == "/@x:80/";
    JoinWhole(PORT_IN_PATH);
    hide Join, Tail;
    AddressWhole("/@x:80/");
    assert "" + "/@x:80/" == "/@x:80/";
    assert "http://[2001:db8::1]" + "/@x:80/" == "http://[2001:db8::1]/@x:80/";
  }

  lemma AddressWhole(t: string)
    ensures Whole("http", "", "[2001:db8::1]", t) == "http://[2001:db8::1]" + t
  {
    assert "http" + "://" + "[2001:db8::1]" == "http://[2001:db8::1]";
    assert "" + ("[2001:db8::1]" + t) == "[2001:db8::1]" + t;
  }

  lemma PathAfterAt()
    ensures !NoneOf("/@x:80/", {'@'}) && UpToAt("/@x:80/") == "/@" && AfterAt("/@x:80/") == "x:80/"
    ensures !AtFirst("/@x:80/")
  {
    var t := "/@x:80/";
    assert t == "/" + "@x:80/" && NoneOf("/", {'@'}) && t[1] == '@';
    SpanOver("/", "@x:80/", {'@'});
    assert Span("@x:80/", {'@'}) == 0 && Span(t, {'/'}) == 0;
    assert t[..2] == "/@" && t[2..] == "x:80/";
  }

  lemma PathKept()
    ensures TailKept(PORT_IN_PATH) == "/@x/" && Slashed("/@x/") == "/@x/"
  {
    PathText();
    PathAfterAt();
    PathCutText();
    PathSlashed();
    hide Tail, UpToAt, AfterAt, AtFirst, NoneOf, WithoutPort, Slashed, LowerDomain, Join;
  }

  lemma PathSlashed()
    ensures Slashed("/@x/") == "/@x/" && "/@" + "x/" == "/@x/"
  {
    assert "/@x/"[0] == '/';
    SlashedSame("/@x/");
  }

  lemma PathCutText()
    ensures WithoutPort("http", "x:80/") == "x/"
  {
    PathCut("x", "/");
    assert "x" + (":80" + "/") == "x:80/" && "x" + "/" == "x/";
  }

  lemma PathResult()
    ensures Whole("http", "", "[2001:db8::1]", "" + "/@x/") == "http://[2001:db8::1]/@x/" && Lower("http") == "http"
  {
    AddressWhole("/@x/");
    hide Whole;
    assert "" + "/@x/" == "/@x/" && "http://[2001:db8::1]" + "/@x/" == "http://[2001:db8::1]/@x/";
  }

  /** A default port behind an '@' in the path goes. */
  lemma PathLosesPort()
    ensures BracketedParts(PORT_IN_PATH) && Join(PORT_IN_PATH) == "http://[2001:db8::1]/@x:80/"
    ensures Normalize("http://[2001:db8::1]/@x:80/") == "http://[2001:db8::1]/@x/"
  {
    PathText();
    PathIsBracketed();
    PathKept();
    PathResult();
    hide Normalize, Join, BracketedParts, TailKept, Slashed, Lower, Whole;
    BracketedPass(PORT_IN_PATH);
  }
}
