/** When the rewriting by positions is the normalisation of components, and when a second
    pass changes nothing. */
module UrlComponents {
  import opened Wrappers
  import opened Sequences
  import opened Url
  import opened UrlPass

  function User(c: Parts): string {
    Before(c.userinfo, "@")
  }

  function Port(c: Parts): string {
    Behind(":", c.port)
  }

  /** No '@' in the query of a URL that has neither user information nor a path is taken for
      the end of the user information. */
  predicate Located(c: Parts) {
    c.userinfo.None? ==> !AtFirst(Tail(c))
  }

  /** The host is found; where it is not, it and the text taken for it are lowered already. */
  predicate HostOk(c: Parts) {
    Located(c) || (DropDot(Lower(c.host)) == c.host && LowerDomain(AfterAt(Tail(c))) == AfterAt(Tail(c)))
  }

  predicate HasDefaultPort(c: Parts) {
    c.port.Some? && IsDefaultPort(Lower(c.scheme), c.port.value)
  }

  /** The port is looked for where it is. */
  predicate SeesPort(c: Parts) {
    c.userinfo.Some? || NoneOf(Tail(c), {'@'})
  }

  /** No slash in the query is taken for a path. */
  predicate SlashOk(c: Parts) {
    c.path != "" || c.query.None? || NoneOf(c.query.value, {'/'})
  }

  /** No colon of the path or query is taken for that of the port, and a default port is not
      overlooked. */
  predicate PortOk(c: Parts) {
    if SeesPort(c) then c.port.Some? || !DefaultColon(c.scheme, Tail(c))
    else !HasDefaultPort(c) && !DefaultColon(c.scheme, AfterAt(Tail(c)))
  }

  // ------------------------------------------------------------------------ the first steps

  /** What is left behind the host when the port has been looked for. */
  function Stripped(c: Parts): string {
    if SeesPort(c) then
      if HasDefaultPort(c) then Tail(c)
      else if c.port.Some? then Port(c) + Tail(c)
      else if DefaultColon(c.scheme, Tail(c)) then CutPort(Tail(c)) else Tail(c)
    else if DefaultColon(c.scheme, AfterAt(Tail(c))) then Port(c) + (UpToAt(Tail(c)) + CutPort(AfterAt(Tail(c))))
    else Port(c) + Tail(c)
  }

  lemma UserIsText(c: Parts)
    requires WellFormed(c.(host := ""))
    ensures UserText(User(c)) && (User(c) == "" <==> c.userinfo.None?)
  {
    if c.userinfo.Some? {
      assert User(c)[..|User(c)| - 1] == c.userinfo.value;
    }
  }

  /** The port text is free of delimiters, and the rest starts with one. */
  lemma PortIsText(c: Parts)
    requires WellFormed(c.(host := ""))
    ensures NoneOf(Port(c), {'/', '?', '#', '@'})
    ensures Delimited(Port(c) + Tail(c)) && (Tail(c) == "" || Tail(c)[0] in {'/', '?', '#'})
    ensures AtFirst(Port(c) + Tail(c)) <==> AtFirst(Tail(c))
  {
    NoneOfFewer(Port(c), {'/', '?', '#', '@'}, {'@'});
    NoneOfFewer(Port(c), {'/', '?', '#', '@'}, {'/'});
    SpanOver(Port(c), Tail(c), {'@'});
    SpanOver(Port(c), Tail(c), {'/'});
  }

  /** A host that is not in brackets loses its capitals and one trailing dot. */
  lemma PlainHost(c: Parts)
    requires WellFormed(c)
    ensures NormalDomain(c.host) == DropDot(Lower(c.host))
  {
  }

  lemma PartsSplit(c: Parts)
    requires WellFormed(c)
    ensures Splits(c.scheme, User(c), c.host, Port(c) + Tail(c))
    ensures DropFragment(Join(c)) == DropFragment(Whole(c.scheme, User(c), c.host, Port(c) + Tail(c)))
  {
    FragmentDropped(c);
    PartsAreText(c);
    hide *;
    NoFragment(c.scheme, User(c), c.host, Port(c) + Tail(c));
  }

  lemma PartsAreText(c: Parts)
    requires WellFormed(c)
    ensures Splits(c.scheme, User(c), c.host, Port(c) + Tail(c))
  {
    UserIsText(c);
    PortIsText(c);
    NoneOfFewer(c.host, {':', '/', '?', '#', '@'}, {':', '/', '?', '#'});
    NoneOfFewer(c.host, {':', '/', '?', '#', '@'}, {'@'});
    NoneOfJoin(c.path, Behind("?", c.query), {'#'});
    NoneOfJoin(Port(c), Tail(c), {'#'});
    hide User, Port;
  }

  /** The pass over the parts of a URL. */
  lemma NormalizePass(c: Parts)
    requires WellFormed(c)
    ensures Normalize(Join(c)) == Normalize(Whole(c.scheme, User(c), c.host, Port(c) + Tail(c)))
    ensures Normalize(Join(c)) ==
            Whole(Lower(c.scheme), User(c), HostAfter(User(c), c.host, Port(c) + Tail(c)),
                  BehindAfter(c.scheme, User(c), Port(c) + Tail(c)))
  {
    PartsSplit(c);
    Pass(c.scheme, User(c), c.host, Port(c) + Tail(c));
    hide Join, DropFragment, Whole, BehindAfter, HostAfter, LowerAuthority, RemoveDefaultPort, AddPath;
  }

  /** The searches of the pass, in terms of the components. */
  lemma PartsSeen(c: Parts)
    requires WellFormed(c.(host := ""))
    ensures var t := Port(c) + Tail(c);
            && (Misled(User(c), t) <==> !Located(c)) && (LooksRight(User(c), t) <==> SeesPort(c))
            && (!SeesPort(c) ==> UpToAt(t) == Port(c) + UpToAt(Tail(c)) && AfterAt(t) == AfterAt(Tail(c)))
    ensures !Located(c) ==> c.path == "" && c.query.Some? && !SeesPort(c)
  {
    UserIsText(c);
    PortIsText(c);
    PathFirst(c);
    NoneOfFewer(Port(c), {'/', '?', '#', '@'}, {'@'});
    NoneOfJoin(Port(c), Tail(c), {'@'});
    SpanAll(Tail(c), {'@'});
    SpanOver(Port(c), Tail(c), {'@'});
    Slices(Port(c), Tail(c), Span(Tail(c), {'@'}));
    hide NoneOf, Span, Tail;
    if !SeesPort(c) {
      AtSplits(Tail(c));
      AtSplits(Port(c) + Tail(c));
      Slices(Port(c), Tail(c), Span(Tail(c), {'@'}) + 1);
    }
  }

  /** An '@' that misleads stands behind the question mark of the query. */
  lemma PartsAtInQuery(c: Parts)
    requires WellFormed(c.(host := "")) && !Located(c)
    ensures AtInQuery(Port(c) + Tail(c))
  {
    PathFirst(c);
    PortIsText(c);
    NoneOfFewer(Port(c), {'/', '?', '#', '@'}, {'@'});
    NoneOfFewer(Port(c), {'/', '?', '#', '@'}, {'?'});
    SpanOver(Port(c), Tail(c), {'@'});
    SpanOver(Port(c), Tail(c), {'?'});
    assert Tail(c)[0] == '?';
  }

  lemma PathFirst(c: Parts)
    requires WellFormed(c.(host := ""))
    ensures c.path != "" ==> !AtFirst(Tail(c))
  {
    assert c.path != "" ==> Tail(c)[0] == '/';
  }

  lemma NothingLowered(c: Parts)
    requires WellFormed(c) && HostOk(c)
    ensures HostAfter(User(c), c.host, Port(c) + Tail(c)) == DropDot(Lower(c.host))
    ensures Lowered(User(c), Port(c) + Tail(c)) == Port(c) + Tail(c)
  {
    PartsSeen(c);
    PlainHost(c);
    if !Located(c) {
      LeadAndRegion(User(c), Port(c) + Tail(c));
    }
    hide Tail, UpToAt, AfterAt, LowerDomain, Misled, LooksRight, Lower, DropDot, Located, SeesPort;
  }

  lemma PortCut(c: Parts)
    requires WellFormed(c) && SeesPort(c)
    ensures WithoutPort(c.scheme, Port(c) + Tail(c)) == Stripped(c)
  {
    PortIsText(c);
    if c.port.Some? {
      NoneOfFewer(c.port.value, {'/', '?', '#', '@'}, {'/', '?', '#'});
      PortFound(c.scheme, c.port.value, Tail(c));
    } else {
      assert Port(c) + Tail(c) == Tail(c);
    }
    hide CutPort, DefaultColon, NoneOf, Tail;
  }

  lemma PortOverlooked(c: Parts)
    requires WellFormed(c) && !SeesPort(c)
    ensures Port(c) + UpToAt(Tail(c)) + WithoutPort(c.scheme, AfterAt(Tail(c))) == Stripped(c)
  {
    var up, after := UpToAt(Tail(c)), AfterAt(Tail(c));
    AtSplits(Tail(c));
    hide CutPort, DefaultColon, NoneOf, Tail, UpToAt, AfterAt;
    Regroup(Port(c), up, WithoutPort(c.scheme, after), "");
  }

  lemma StrippedIs(c: Parts)
    requires WellFormed(c) && HostOk(c)
    ensures BehindAfter(c.scheme, User(c), Port(c) + Tail(c)) == Slashed(Stripped(c))
  {
    NothingLowered(c);
    PartsSeen(c);
    var t := Port(c) + Tail(c);
    hide NoneOf, DropDot, Lower, AfterAt, UpToAt, Slashed, Tail, LowerDomain, WithoutPort, Stripped, SeesPort, Lowered,
         LooksRight, HostAfter;
    if SeesPort(c) {
      PortCut(c);
      assert "" + WithoutPort(c.scheme, t) == WithoutPort(c.scheme, t);
    } else {
      PortOverlooked(c);
    }
  }

  lemma SlashInTail(c: Parts)
    requires WellFormed(c.(host := ""))
    ensures c.path != "" ==> !NoneOf(Tail(c), {'/'})
    ensures c.path == "" ==> (NoneOf(Tail(c), {'/'}) <==> SlashOk(c))
    ensures c.path == "" ==> Span(Tail(c), {'?'}) == 0
  {
    if c.path != "" {
      assert Tail(c)[0] == '/';
    } else {
      assert Tail(c) == Behind("?", c.query);
      if c.query.Some? {
        NoneOfJoin("?", c.query.value, {'/'});
      }
    }
  }

  function NormalTail(c: Parts): string {
    Behind(":", NormalParts(c).port) + Tail(NormalParts(c))
  }

  lemma JoinNormal(c: Parts)
    ensures Join(NormalParts(c)) == Whole(Lower(c.scheme), User(c), DropDot(Lower(c.host)), NormalTail(c))
    ensures Tail(NormalParts(c)) == (if c.path == "" then "/" else "") + Tail(c)
  {
    var n := NormalParts(c);
    var w := Whole(n.scheme, User(n), n.host, Behind(":", n.port) + Tail(n));
    assert w + "" == w;
    if c.path == "" {
      assert "/" + Behind("?", c.query) == "/" + ("" + Behind("?", c.query));
    }
  }

  lemma WholeEqual(s: string, u: string, h: string, a: string, b: string)
    ensures |Whole(s, u, h, a)| == |s| + 3 + |u| + |h| + |a|
    ensures Whole(s, u, h, a) == Whole(s, u, h, b) <==> a == b
  {
    var n := |s| + 3 + |u| + |h|;
    assert Whole(s, u, h, a)[n..] == a && Whole(s, u, h, b)[n..] == b;
  }

  // ------------------------------------------------------------------- component by component

  lemma SlashedBehindPort(port: string, tail: string)
    requires NoneOf(port, {'/', '?', '#', '@'})
    ensures Slashed(port + tail) == port + Slashed(tail)
  {
    NoneOfFewer(port, {'/', '?', '#', '@'}, {'/'});
    NoneOfFewer(port, {'/', '?', '#', '@'}, {'?'});
    SlashedBehind(port, tail);
  }

  lemma SlashedTail(c: Parts)
    requires WellFormed(c.(host := "")) && SlashOk(c)
    ensures Slashed(Tail(c)) == Tail(NormalParts(c))
  {
    SlashInTail(c);
    JoinNormal(c);
    hide *;
    if c.path == "" {
      SlashedFront(Tail(c));
    } else {
      SlashedSame(Tail(c));
    }
  }

  lemma SlashedFront(t: string)
    requires NoneOf(t, {'/'}) && Span(t, {'?'}) == 0
    ensures Slashed(t) == "/" + t
  {
    assert t[..0] + "/" + t[0..] == "/" + t;
  }

  lemma SlashedSame(t: string)
    requires !NoneOf(t, {'/'})
    ensures Slashed(t) == t == "" + t
  {
  }

  lemma NormalizeSlashed(c: Parts)
    requires WellFormed(c) && HostOk(c)
    ensures Normalize(Join(c)) == Whole(Lower(c.scheme), User(c), DropDot(Lower(c.host)), Slashed(Stripped(c)))
  {
    NormalizePass(c);
    NothingLowered(c);
    StrippedIs(c);
    hide Normalize, Join, Whole, HostAfter, BehindAfter, DropDot, Lower, Stripped, Slashed;
  }

  /** Where the guards hold, each component is normalised on its own. */
  lemma PartsNormalized(c: Parts)
    requires WellFormed(c) && HostOk(c) && SlashOk(c) && PortOk(c)
    ensures Normalize(Join(c)) == Join(NormalParts(c))
  {
    NormalizeSlashed(c);
    JoinNormal(c);
    SlashedTail(c);
    PortIsText(c);
    var port := Behind(":", NormalParts(c).port);
    assert NoneOf(port, {'/', '?', '#', '@'});
    assert Stripped(c) == port + Tail(c) by {
      assert "" + Tail(c) == Tail(c);
    }
    SlashedBehindPort(port, Tail(c));
    hide Normalize, Join, Whole, Stripped, Slashed, DropDot, Lower, Tail;
  }

  /** Elsewhere the result is another text: shorter by a port or a slash, or with the default
      port still in it. */
  lemma PartsNotNormalized(c: Parts)
    requires WellFormed(c) && HostOk(c) && !(SlashOk(c) && PortOk(c))
    ensures Normalize(Join(c)) != Join(NormalParts(c))
  {
    NormalizeSlashed(c);
    JoinNormal(c);
    WholeEqual(Lower(c.scheme), User(c), DropDot(Lower(c.host)), Slashed(Stripped(c)), NormalTail(c));
    SlashInTail(c);
    if !SeesPort(c) && HasDefaultPort(c) {
      PortKept(c);
    } else {
      StrippedLength(c);
      assert |NormalTail(c)| == |Behind(":", NormalParts(c).port)| + |Tail(c)| + if c.path == "" then 1 else 0;
    }
  }

  lemma SlashedLength(b: string)
    ensures |Slashed(b)| == |b| + if NoneOf(b, {'/'}) then 1 else 0
  {
  }

  /** A default port that is overlooked stays where no port should be. */
  lemma PortKept(c: Parts)
    requires WellFormed(c) && !SeesPort(c) && HasDefaultPort(c)
    ensures Slashed(Stripped(c)) != NormalTail(c)
  {
    ColonStays(Stripped(c));
    NoPortInFront(c);
    assert Stripped(c)[0] == ':';
    hide Slashed, NormalTail, Tail, DefaultColon, CutPort, UpToAt, AfterAt;
  }

  lemma ColonStays(b: string)
    requires b != "" && b[0] == ':'
    ensures Slashed(b) != "" && Slashed(b)[0] == ':'
  {
    var q := Span(b, {'?'});
    assert b[..q][0] == ':';
  }

  lemma NoPortInFront(c: Parts)
    requires WellFormed(c.(host := "")) && HasDefaultPort(c)
    ensures NormalTail(c) != "" && NormalTail(c)[0] == '/'
  {
    var n := NormalParts(c);
    assert n.path[0] == '/' && NormalTail(c) == n.path + Behind("?", n.query);
  }

  /** Otherwise what is left is as long as it should be, or shorter when a port is cut out of
      the path or query. */
  lemma StrippedLength(c: Parts)
    requires WellFormed(c) && (SeesPort(c) || !HasDefaultPort(c))
    ensures var m := |Behind(":", NormalParts(c).port)| + |Tail(c)|;
            if PortOk(c) then |Stripped(c)| == m else |Stripped(c)| < m
    ensures |Slashed(Stripped(c))| == |Stripped(c)| + if NoneOf(Tail(c), {'/'}) then 1 else 0
  {
    PortIsText(c);
    NoneOfFewer(Port(c), {'/', '?', '#', '@'}, {'/'});
    NoneOfJoin(Port(c), Tail(c), {'/'});
    SlashedLength(Stripped(c));
    if SeesPort(c) {
      CutIsShorter(c.scheme, Tail(c));
    } else {
      OverlookedLength(c);
    }
    hide NoneOf, Span, DefaultColon, CutPort, Slashed;
  }

  lemma OverlookedLength(c: Parts)
    requires WellFormed(c) && !SeesPort(c)
    ensures DefaultColon(c.scheme, AfterAt(Tail(c))) ==>
              var cut := UpToAt(Tail(c)) + CutPort(AfterAt(Tail(c)));
              |cut| < |Tail(c)| && (NoneOf(Port(c) + cut, {'/'}) <==> NoneOf(Tail(c), {'/'}))
  {
    var up, after := UpToAt(Tail(c)), AfterAt(Tail(c));
    PortIsText(c);
    NoneOfFewer(Port(c), {'/', '?', '#', '@'}, {'/'});
    AtSplits(Tail(c));
    hide NoneOf, Span, DefaultColon, CutPort, UpToAt, AfterAt, Tail;
    NoneOfJoin(up, after, {'/'});
    NoneOfJoin(up, CutPort(after), {'/'});
    NoneOfJoin(Port(c), up + CutPort(after), {'/'});
    if DefaultColon(c.scheme, after) {
      CutShortens(c.scheme, after);
    }
  }

  /** The rewriting acts component by component exactly where its searches are not misled, or
      where that makes no difference. */
  lemma NormalizeIsByComponent(c: Parts)
    requires WellFormed(c)
    ensures Normalize(Join(c)) == Join(NormalParts(c)) <==> HostOk(c) && SlashOk(c) && PortOk(c)
  {
    if !HostOk(c) {
      HostLost(c);
    } else if SlashOk(c) && PortOk(c) {
      PartsNormalized(c);
    } else {
      PartsNotNormalized(c);
    }
  }

  /** Where the search for the host is misled, the host stays as it is, and the text taken for
      it is lowered. */
  lemma HostLost(c: Parts)
    requires WellFormed(c) && !HostOk(c)
    ensures Normalize(Join(c)) != Join(NormalParts(c))
  {
    var s, h := Lower(c.scheme), DropDot(Lower(c.host));
    var r := BehindAfter(c.scheme, User(c), Port(c) + Tail(c));
    NormalizePass(c);
    PartsSeen(c);
    UserIsText(c);
    JoinNormal(c);
    NormalTailDelimited(c);
    if h == c.host {
      TextLost(c);
      WholeEqual(s, "", h, r, NormalTail(c));
    } else if Normalize(Join(c)) == Join(NormalParts(c)) {
      hide Normalize, Join, BehindAfter, NormalTail, NoneOf, Lower, DropDot;
      SameHost(s, c.host, r, h, NormalTail(c));
    }
  }

  /** The pass over such a URL. */
  lemma MisledText(c: Parts)
    requires WellFormed(c) && !Located(c)
    ensures var l := WithoutPort(c.scheme, LowerDomain(AfterAt(Tail(c))));
            BehindAfter(c.scheme, User(c), Port(c) + Tail(c)) == Slashed(Port(c) + (UpToAt(Tail(c)) + l))
  {
    PartsSeen(c);
    hide *;
    MisledParts(c, Port(c) + Tail(c), AfterAt(Tail(c)));
    Regroup(Port(c), UpToAt(Tail(c)), WithoutPort(c.scheme, LowerDomain(AfterAt(Tail(c)))), "");
  }

  lemma MisledParts(c: Parts, t: string, after: string)
    requires Misled(User(c), t) && after == AfterAt(t)
    ensures BehindAfter(c.scheme, User(c), t) == Slashed(UpToAt(t) + WithoutPort(c.scheme, LowerDomain(after)))
  {
    MisledHasAt(User(c), t);
    hide Lowered, LowerDomain, WithoutPort, Misled, UpToAt, AfterAt, Slashed, Lead, Region;
  }

  lemma QueryFirst(c: Parts)
    requires WellFormed(c) && !Located(c)
    ensures var up := UpToAt(Tail(c)); up != "" && up[0] == '?' && up + AfterAt(Tail(c)) == Tail(c)
    ensures NormalTail(c) == Behind(":", NormalParts(c).port) + ("/" + Tail(c))
  {
    PartsSeen(c);
    AtSplits(Tail(c));
    JoinNormal(c);
    assert Tail(c) == Behind("?", c.query);
    assert Tail(c)[0] == '?';
    hide Span, NoneOf;
  }

  lemma TextLost(c: Parts)
    requires WellFormed(c) && !Located(c) && LowerDomain(AfterAt(Tail(c))) != AfterAt(Tail(c))
    ensures BehindAfter(c.scheme, User(c), Port(c) + Tail(c)) != NormalTail(c)
  {
    var up, after := UpToAt(Tail(c)), AfterAt(Tail(c));
    var l := WithoutPort(c.scheme, LowerDomain(after));
    MisledText(c);
    LowerDomainKeeps(after);
    CutIsShorter(c.scheme, LowerDomain(after));
    QueryFirst(c);
    PartsSeen(c);
    hide BehindAfter, Left, LowerDomain, Misled, UpToAt, AfterAt, Tail, NormalTail, Slashed, DefaultColon, CutPort;
    if HasDefaultPort(c) {
      ColonStays(Port(c) + (up + l));
      NoPortInFront(c);
    } else {
      PortIsText(c);
      SlashedBehindPort(Port(c), up + l);
      OtherText(Port(c), up, l, after);
    }
  }

  /** Other text that is no longer differs after a slash is put in front of one of them. */
  lemma OtherText(port: string, up: string, l: string, after: string)
    requires up != "" && up[0] == '?' && l != after && |l| <= |after|
    ensures port + Slashed(up + l) != port + ("/" + (up + after))
  {
    var x := up + l;
    assert Span(x, {'?'}) == 0 && x[..0] + "/" + x[0..] == "/" + x;
    if port + Slashed(x) == port + ("/" + (up + after)) {
      SameBehind(port, Slashed(x), "/" + (up + after));
      assert Slashed(x) == "/" + x;
      SameBehind("/", x, up + after);
      SameBehind(up, l, after);
    }
  }

  lemma NormalTailDelimited(c: Parts)
    requires WellFormed(c)
    ensures NormalTail(c) != "" && NormalTail(c)[0] in {':', '/'}
  {
    var n := NormalParts(c);
    assert n.path[0] == '/' && Tail(n)[0] == '/';
    assert NormalTail(c)[0] == if n.port.Some? then ':' else Tail(n)[0];
  }

  /** The host is the text up to the first delimiter. */
  lemma SameHost(s: string, host: string, r: string, h: string, behind: string)
    requires NoneOf(host, {':', '/', '?', '#', '@'}) && behind != "" && behind[0] in {':', '/'} && |h| <= |host|
    requires Whole(s, "", host, r) == Whole(s, "", h, behind)
    ensures host == h
  {
    var n := |s| + 3;
    assert Whole(s, "", host, r)[n..] == host + r && Whole(s, "", h, behind)[n..] == h + behind;
    assert (h + behind)[|h|] == behind[0];
    assert forall i :: 0 <= i < |host| ==> (host + r)[i] == host[i];
    assert (host + r)[..|host|] == host && (h + behind)[..|h|] == h;
  }

  // ---------------------------------------------------------------------------- a second pass

  predicate TwoDots(host: string) {
    |host| >= 2 && host[|host| - 1] == '.' && host[|host| - 2] == '.'
  }

  lemma HostTwice(host: string)
    requires host != "" ==> host[0] != '['
    ensures var h := NormalDomain(host); NormalDomain(h) == h <==> !TwoDots(host)
  {
    var l := Lower(host);
    var h := DropDot(l);
    assert forall i :: 0 <= i < |host| ==> (l[i] == '.' <==> host[i] == '.');
    assert h != "" ==> h[0] == LowerChar(host[0]) != '[';
    assert Lower(h) == h;
  }

  /** What is left of the text in which the port was looked for. */
  function LeftBehind(c: Parts): string {
    WithoutPort(c.scheme, if SeesPort(c) then Port(c) + Tail(c)
                          else if Located(c) then AfterAt(Tail(c)) else LowerDomain(AfterAt(Tail(c))))
  }

  /** No default port is found in what is left, and what is taken for the domain is lowered:
      the host without its one trailing dot, or the text behind the '@' that misleads again. */
  predicate Stable(c: Parts) {
    && !DefaultColon(c.scheme, LeftBehind(c))
    && if Located(c) then !TwoDots(c.host)
       else if NoneOf(LeftBehind(c), {'/'}) then DropDot(Lower(c.host)) == c.host
       else LowerDomain(LeftBehind(c)) == LeftBehind(c)
  }

  lemma LeftIs(c: Parts)
    requires WellFormed(c)
    ensures Left(c.scheme, User(c), Port(c) + Tail(c)) == LeftBehind(c)
  {
    PartsSeen(c);
    var t := Port(c) + Tail(c);
    if !Located(c) {
      MisledHasAt(User(c), t);
    }
    hide LowerDomain, WithoutPort, Misled, LooksRight, AfterAt, UpToAt, Tail;
  }

  /** What is asked of a text that splits, in terms of what is left of it. */
  lemma SettledAs(scheme: string, user: string, host: string, behind: string, l: string, misled: bool)
    requires l == Left(scheme, user, behind) && misled == Misled(user, behind) && (misled ==> AtInQuery(behind))
    ensures Settled(scheme, user, host, behind) <==>
            && !DefaultColon(scheme, l)
            && if !misled then NormalDomain(NormalDomain(host)) == NormalDomain(host)
               else if NoneOf(l, {'/'}) then NormalDomain(host) == host else LowerDomain(l) == l
  {
    hide Left, LowerDomain, DefaultColon, NoneOf, Misled, NormalDomain, AtInQuery;
  }

  lemma SettledIsStable(c: Parts)
    requires WellFormed(c)
    ensures Settled(c.scheme, User(c), c.host, Port(c) + Tail(c)) <==> Stable(c)
  {
    PartsSeen(c);
    LeftIs(c);
    HostTwice(c.host);
    PlainHost(c);
    if !Located(c) {
      PartsAtInQuery(c);
    }
    hide AtInQuery, NormalDomain, Left, LeftBehind, LowerDomain, DefaultColon, NoneOf, Misled, TwoDots, Located, Lower, DropDot,
         Settled, Tail, Port, User, LooksRight, SeesPort, UpToAt, AfterAt;
    SettledAs(c.scheme, User(c), c.host, Port(c) + Tail(c), LeftBehind(c), !Located(c));
  }

  /** A second pass changes nothing exactly for the stable URLs. */
  lemma NormalizeTwice(c: Parts)
    requires WellFormed(c)
    ensures Normalize(Normalize(Join(c))) == Normalize(Join(c)) <==> Stable(c)
  {
    hide *;
    PartsSplit(c);
    NormalizePass(c);
    SettledIsStable(c);
    PassTwice(c.scheme, User(c), c.host, Port(c) + Tail(c));
  }

  // ------------------------------------------------------------------------- where it goes wrong

  lemma PlainJoin(c: Parts)
    requires c.userinfo.None? && c.port.None? && c.fragment.None?
    ensures Join(c) == Whole(c.scheme, "", c.host, Tail(c))
  {
    var w := Whole(c.scheme, "", c.host, Tail(c));
    assert "" + Tail(c) == Tail(c) && w + "" == w;
  }

  lemma NothingSeen(scheme: string, t: string)
    requires NoneOf(t, {'@'}) && NoneOf(t, {':'})
    ensures !Misled("", t) && BehindAfter(scheme, "", t) == Slashed(t)
  {
    SpanAll(t, {'@'});
    SpanAll(t, {':'});
    assert "" + t == t;
  }

  const QUERY_ONLY := Parts("http", None, "a.co", None, "", Some("a/b"), None)

  lemma PlainTexts()
    ensures Lower("http") == "http" && Lower("a.co") == "a.co" && Lower("A.co") == "a.co"
    ensures NormalDomain("a.co") == "a.co" && DropDot("a.co") == "a.co"
  {
    assert Lower("http") == "http" && Lower("a.co") == "a.co" && Lower("A.co") == "a.co";
    hide Lower;
  }

  lemma QueryOnlyTexts()
    ensures Join(QUERY_ONLY) == Whole("http", "", "a.co", "?a/b") == "http://a.co?a/b"
    ensures Join(NormalParts(QUERY_ONLY)) == Whole("http", "", "a.co", "/?a/b") == "http://a.co/?a/b"
  {
    QueryOnlyNormal();
    PlainJoin(QUERY_ONLY);
    PlainJoin(NormalParts(QUERY_ONLY));
    hide *;
  }

  lemma QueryOnlyNormal()
    ensures NormalParts(QUERY_ONLY) == Parts("http", None, "a.co", None, "/", Some("a/b"), None)
    ensures Tail(QUERY_ONLY) == "?a/b" && Tail(NormalParts(QUERY_ONLY)) == "/?a/b"
  {
    PlainTexts();
    hide Lower, DropDot;
    assert "" + "?a/b" == "?a/b" && "?" + "a/b" == "?a/b" && "/" + "?a/b" == "/?a/b";
  }

  lemma QueryOnlyChars()
    ensures WellFormed(QUERY_ONLY) && !SlashOk(QUERY_ONLY) && Splits("http", "", "a.co", "?a/b")
    ensures NoneOf("?a/b", {'@'}) && NoneOf("?a/b", {':'}) && Slashed("?a/b") == "?a/b"
  {
    assert "?a/b"[2] == '/' && "a/b"[1] == '/';
  }

  /** A slash in the query is taken for a path, and none is added. */
  lemma QueryTakenForPath()
    ensures WellFormed(QUERY_ONLY) && !SlashOk(QUERY_ONLY)
    ensures Normalize("http://a.co?a/b") == Join(QUERY_ONLY) == "http://a.co?a/b"
    ensures Join(NormalParts(QUERY_ONLY)) == "http://a.co/?a/b"
  {
    QueryOnlyChars();
    QueryOnlyTexts();
    PlainTexts();
    NothingSeen("http", "?a/b");
    Pass("http", "", "a.co", "?a/b");
    hide Join, Whole, Lower, DropDot, Normalize, BehindAfter, Slashed, NoneOf, Splits, WellFormed, NormalParts, SlashOk,
         Misled;
  }

  const AT_IN_QUERY := Parts("http", None, "A.co", None, "", Some("q@x"), None)

  lemma AtInQueryTexts()
    ensures Join(AT_IN_QUERY) == Whole("http", "", "A.co", "?q@x") == "http://A.co?q@x"
    ensures Whole("http", "", "A.co", "/?q@x") == "http://A.co/?q@x"
    ensures Join(NormalParts(AT_IN_QUERY)) == Whole("http", "", "a.co", "/?q@x") == "http://a.co/?q@x"
  {
    AtInQueryNormal();
    PlainJoin(AT_IN_QUERY);
    PlainJoin(NormalParts(AT_IN_QUERY));
    hide *;
  }

  lemma AtInQueryNormal()
    ensures NormalParts(AT_IN_QUERY) == Parts("http", None, "a.co", None, "/", Some("q@x"), None)
    ensures Tail(AT_IN_QUERY) == "?q@x" && Tail(NormalParts(AT_IN_QUERY)) == "/?q@x"
  {
    PlainTexts();
    hide Lower, DropDot;
    assert "" + "?q@x" == "?q@x" && "?" + "q@x" == "?q@x" && "/" + "?q@x" == "/?q@x";
  }

  lemma AtInQueryChars()
    ensures WellFormed(AT_IN_QUERY) && Splits("http", "", "A.co", "?q@x")
    ensures Misled("", "?q@x") && UpToAt("?q@x") == "?q@" && AfterAt("?q@x") == "x"
  {
    var t := "?q@x";
    assert t == "?q" + "@x";
    assert NoneOf("?q", {'@'}) && NoneOf(t, {'/'});
    SpanOver("?q", "@x", {'@'});
    SpanAll(t, {'/'});
    assert Span("@x", {'@'}) == 0;
    hide WellFormed, Splits;
    assert t[..3] == "?q@" && t[3..] == "x";
  }

  lemma LetterUntouched()
    ensures LowerDomain("x") == "x" && WithoutPort("http", "x") == "x"
  {
    var t := "x";
    assert NoneOf(t, {':', '/', '?'}) && NoneOf(t, {':'});
    SpanAll(t, {':', '/', '?'});
    SpanAll(t, {':'});
    assert Lower(t) == t && t[..1] == t && t[1..] == "";
  }

  lemma AtInQuerySlashed()
    ensures Slashed("?q@x") == "/?q@x"
  {
    var t := "?q@x";
    assert NoneOf(t, {'/'}) && Span(t, {'?'}) == 0;
    SlashedFront(t);
    hide *;
    assert "" + ("/" + t) == "/?q@x";
  }

  lemma AtInQueryPass()
    ensures HostAfter("", "A.co", "?q@x") == "A.co" && BehindAfter("http", "", "?q@x") == "/?q@x"
  {
    AtInQueryChars();
    MisledHasAt("", "?q@x");
    LetterUntouched();
    AtInQuerySlashed();
    hide Lowered, LowerDomain, WithoutPort, Slashed, Lead, Region, Misled;
    assert "?q@" + "x" == "?q@x";
  }

  /** An '@' in the query is taken for the end of the user information, and the host stays. */
  lemma HostOverlooked()
    ensures WellFormed(AT_IN_QUERY) && Join(AT_IN_QUERY) == "http://A.co?q@x"
    ensures Normalize("http://A.co?q@x") == "http://A.co/?q@x" && Join(NormalParts(AT_IN_QUERY)) == "http://a.co/?q@x"
  {
    AtInQueryChars();
    AtInQueryTexts();
    AtInQueryPass();
    PlainTexts();
    Pass("http", "", "A.co", "?q@x");
    hide Join, Whole, Lower, DropDot, Normalize, BehindAfter, HostAfter, Slashed, NoneOf, Splits, WellFormed, NormalParts,
         Misled;
  }

  lemma PortText(tail: string)
    requires tail != "" && tail[0] == '/'
    ensures DefaultColon("http", ":80" + tail) && CutPort(":80" + tail) == tail
  {
    PortFound("http", "80", tail);
    hide DefaultColon, CutPort;
    assert Lower("http") == "http" && ":" + "80" + tail == ":80" + tail;
  }

  lemma PathCut(front: string, tail: string)
    requires NoneOf(front, {':', '@', '?', '#'}) && tail != "" && tail[0] == '/'
    ensures WithoutPort("http", front + (":80" + tail)) == front + tail
  {
    NoneOfFewer(front, {':', '@', '?', '#'}, {':'});
    PortText(tail);
    hide DefaultColon, CutPort;
    ColonBehindHost("http", front, ":80" + tail);
  }

  lemma PathPass(front: string, tail: string, t: string)
    requires t == front + (":80" + tail)
    requires LooksRight("", t) && !Misled("", t) && Slashed(front + tail) == front + tail
    requires WithoutPort("http", t) == front + tail
    ensures BehindAfter("http", "", t) == front + tail && HostAfter("", "a.co", t) == "a.co"
  {
    PlainTexts();
    hide Lower, Slashed, WithoutPort, LooksRight, Misled;
    assert "" + (front + tail) == front + tail;
  }

  /** A default port anywhere in a path is cut out. */
  lemma CutInPath(front: string, tail: string)
    requires NoneOf(front, {':', '@', '?', '#'}) && NoneOf(tail, {'@', '#'})
    requires front != "" && front[0] == '/' && tail != "" && tail[0] == '/'
    ensures Normalize("http://a.co" + (front + (":80" + tail))) == "http://a.co" + (front + tail)
  {
    assert Lower("http") == "http";
    CutInPathChars(front, tail);
    PathCut(front, tail);
    hide *;
    var t := front + (":80" + tail);
    PathPass(front, tail, t);
    HttpWhole(t);
    HttpWhole(front + tail);
    Pass("http", "", "a.co", t);
  }

  lemma HttpWhole(t: string)
    ensures Whole("http", "", "a.co", t) == "http://a.co" + t
  {
    assert "" + ("a.co" + t) == "a.co" + t;
  }

  lemma CutInPathChars(front: string, tail: string)
    requires NoneOf(front, {':', '@', '?', '#'}) && NoneOf(tail, {'@', '#'})
    requires front != "" && front[0] == '/' && tail != "" && tail[0] == '/'
    ensures var t := front + (":80" + tail);
            Splits("http", "", "a.co", t) && LooksRight("", t) && !Misled("", t)
    ensures NoneOf(front, {':'}) && NoneOf("80", {'/', '?', '#'}) && Slashed(front + tail) == front + tail
  {
    var t := front + (":80" + tail);
    NoneOfJoin(front, ":80" + tail, {'@'});
    NoneOfJoin(":80", tail, {'@'});
    NoneOfJoin(front, ":80" + tail, {'#'});
    NoneOfJoin(":80", tail, {'#'});
    SpanAll(t, {'@'});
    assert (front + tail)[0] == '/';
  }

  lemma PortCutTexts()
    ensures "http://a.co" + ("/x" + (":80" + "/y:80/")) == "http://a.co/x:80/y:80/"
    ensures "http://a.co" + ("/x" + "/y:80/") == "http://a.co/x/y:80/" == "http://a.co" + ("/x/y" + (":80" + "/"))
    ensures "http://a.co" + ("/x/y" + "/") == "http://a.co/x/y/"
  {
  }

  /** So a second pass can cut out another one. */
  lemma PortCutTwice()
    ensures Normalize("http://a.co/x:80/y:80/") == "http://a.co/x/y:80/"
    ensures Normalize("http://a.co/x/y:80/") == "http://a.co/x/y/"
  {
    PortCutTexts();
    hide Normalize;
    CutInPath("/x", "/y:80/");
    CutInPath("/x/y", "/");
  }

  // ------------------------------------------------------------------------------- plain URLs

  /** The same text, its capitals as small letters. */
  predicate SmallLetters(s: string, r: string) {
    && |r| == |s|
    && forall i :: 0 <= i < |s| ==> r[i] as int == if 'A' <= s[i] <= 'Z' then s[i] as int + 32 else s[i] as int
  }

  lemma LowerIsSmall(s: string)
    ensures SmallLetters(s, Lower(s))
  {
  }

  lemma OneSmall(s: string, r: string)
    requires SmallLetters(s, r)
    ensures r == Lower(s)
  {
  }

  /** A URL of a scheme, a host with its port, and a path; the scheme may be written in capitals, the
      host with capitals and a trailing dot. What comes out has small letters, no dot, no default port
      and, where there was none, the path "/". */
  lemma PlainUrl(scheme: string, host: string, dot: bool, port: string, path: string, small: string, smallHost: string)
    requires SmallLetters(scheme, small) && SmallLetters(host, smallHost)
    requires (small == "http" && port == "80") || (small == "https" && port == "443")
    requires NoneOf(host, {':', '/', '?', '#', '@'}) && host != "" && host[0] != '[' && host[|host| - 1] != '.'
    requires NoneOf(path, {'?', '#', '@', ':'}) && (path != "" ==> path[0] == '/')
    ensures var h := if dot then host + "." else host;
            var result := small + "://" + smallHost + (if path == "" then "/" else path);
            && Normalize(scheme + "://" + h + ":" + port + path) == result
            && Normalize(scheme + "://" + h + path) == result
  {
    var h := if dot then host + "." else host;
    OneSmall(scheme, small);
    OneSmall(host, smallHost);
    PlainHostLowered(host, h);
    SchemeIsPlain(scheme, small);
    hide Normalize, SmallLetters, NoneOf, Lower, DropDot, PlainText;
    PlainOne(scheme, h, Some(port), path, port, small, smallHost);
    PlainOne(scheme, h, None, path, port, small, smallHost);
    PlainTextIs(scheme, h, port, path);
    PlainTextIs(small, smallHost, port, if path == "" then "/" else path);
  }

  lemma PlainOne(scheme: string, h: string, o: Option<string>, path: string, port: string, small: string, smallHost: string)
    requires NoneOf(scheme, {':', '?', '#'}) && NoneOf(h, {':', '/', '?', '#', '@'}) && (h != "" ==> h[0] != '[')
    requires (small == "http" && port == "80") || (small == "https" && port == "443")
    requires o == None || o == Some(port)
    requires NoneOf(path, {'?', '#', '@', ':'}) && (path != "" ==> path[0] == '/')
    requires small == Lower(scheme) && smallHost == DropDot(Lower(h))
    ensures Normalize(PlainText(scheme, h, o, path)) == PlainText(small, smallHost, None, if path == "" then "/" else path)
  {
    var c := Parts(scheme, None, h, o, path, None, None);
    PlainParts(scheme, h, o, path, port);
    PlainNormal(c, small, smallHost, port);
    hide *;
    PlainTextOf(c);
    PlainTextOf(NormalParts(c));
    NormalizeIsByComponent(c);
  }

  function PlainText(scheme: string, host: string, port: Option<string>, path: string): string {
    scheme + "://" + host + Behind(":", port) + path
  }

  lemma PlainNormal(c: Parts, small: string, smallHost: string, port: string)
    requires small == Lower(c.scheme) && smallHost == DropDot(Lower(c.host))
    requires (small == "http" && port == "80") || (small == "https" && port == "443")
    requires c.userinfo.None? && c.query.None? && c.fragment.None? && (c.port == None || c.port == Some(port))
    ensures NormalParts(c) == Parts(small, None, smallHost, None, if c.path == "" then "/" else c.path, None, None)
  {
    hide Lower, DropDot;
  }

  lemma SchemeIsPlain(scheme: string, small: string)
    requires SmallLetters(scheme, small) && (small == "http" || small == "https")
    ensures NoneOf(scheme, {':', '?', '#'})
  {
    forall i | 0 <= i < |scheme|
      ensures scheme[i] !in {':', '?', '#'}
    {
      assert small[i] in {'h', 't', 'p', 's'};
    }
  }

  lemma PlainHostLowered(host: string, h: string)
    requires NoneOf(host, {':', '/', '?', '#', '@'}) && host != "" && host[0] != '[' && host[|host| - 1] != '.'
    requires h == host || h == host + "."
    ensures NoneOf(h, {':', '/', '?', '#', '@'}) && h[0] != '[' && DropDot(Lower(h)) == Lower(host)
  {
    if h == host + "." {
      assert Lower(h) == Lower(host) + ".";
      assert (Lower(host) + ".")[..|host|] == Lower(host);
    } else {
      assert Lower(host)[|host| - 1] != '.';
    }
  }

  lemma PlainParts(scheme: string, h: string, o: Option<string>, path: string, port: string)
    requires NoneOf(scheme, {':', '?', '#'}) && NoneOf(h, {':', '/', '?', '#', '@'}) && (h != "" ==> h[0] != '[')
    requires port == "80" || port == "443"
    requires o == None || o == Some(port)
    requires NoneOf(path, {'?', '#', '@', ':'}) && (path != "" ==> path[0] == '/')
    ensures var c := Parts(scheme, None, h, o, path, None, None); WellFormed(c) && HostOk(c) && SlashOk(c) && PortOk(c)
  {
    var c := Parts(scheme, None, h, o, path, None, None);
    assert Tail(c) == path;
    assert NoneOf(path, {'@'}) && NoneOf(path, {':'}) && NoneOf(port, {'/', '?', '#', '@'});
    SpanAll(path, {'@'});
    SpanAll(path, {':'});
  }

  lemma PlainTextOf(c: Parts)
    requires c.userinfo.None? && c.query.None? && c.fragment.None?
    ensures Join(c) == PlainText(c.scheme, c.host, c.port, c.path)
  {
    assert c.path + "" == c.path;
  }

  lemma PlainTextIs(scheme: string, host: string, port: string, path: string)
    ensures PlainText(scheme, host, Some(port), path) == scheme + "://" + host + ":" + port + path
    ensures PlainText(scheme, host, None, path) == scheme + "://" + host + path
  {
    assert scheme + "://" + host + (":" + port) + path == scheme + "://" + host + ":" + port + path;
    assert scheme + "://" + host + "" + path == scheme + "://" + host + path;
  }
}
