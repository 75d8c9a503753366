/** One pass of the normaliser over a text split into scheme, user information, host and what
    stands behind the host, and what a second pass does to its result. */
module UrlPass {
  import opened Wrappers
  import opened Text
  import opened Url

  // ---------------------------------------------------------------------------- what a pass does

  /** An '@' behind the host is taken for the end of the user information. */
  predicate Misled(user: string, behind: string) {
    user == "" && AtFirst(behind)
  }

  /** The text up to the next delimiter, normalised like a domain. */
  function LowerDomain(t: string): string {
    var d := Span(t, {':', '/', '?'});
    NormalDomain(t[..d]) + t[d..]
  }

  function HostAfter(user: string, host: string, behind: string): string {
    if Misled(user, behind) then host else NormalDomain(host)
  }

  function Lowered(user: string, behind: string): string {
    if Misled(user, behind) then UpToAt(behind) + LowerDomain(AfterAt(behind)) else behind
  }

  /** The port is looked for in the region behind the lead. */
  function Lead(user: string, behind: string): string {
    if LooksRight(user, behind) then "" else UpToAt(behind)
  }

  function Region(user: string, behind: string): string {
    if LooksRight(user, behind) then behind else AfterAt(behind)
  }

  function WithoutPort(scheme: string, t: string): string {
    if DefaultColon(scheme, t) then CutPort(t) else t
  }

  /** The text behind the host, with a slash when it has none. */
  function Slashed(b: string): string {
    var q := Span(b, {'?'});
    if !NoneOf(b, {'/'}) then b else b[..q] + "/" + b[q..]
  }

  /** What is left of the region in which the port was looked for. */
  function Left(scheme: string, user: string, behind: string): string {
    WithoutPort(scheme, Region(user, Lowered(user, behind)))
  }

  function BehindAfter(scheme: string, user: string, behind: string): string {
    Slashed(Lead(user, Lowered(user, behind)) + Left(scheme, user, behind))
  }

  predicate Splits(scheme: string, user: string, host: string, behind: string) {
    && NoneOf(scheme, {':', '?', '#'}) && UserText(user) && HostText(user, host)
    && Delimited(behind) && NoneOf(behind, {'#'})
  }

  // ------------------------------------------------------------------------------- the steps

  lemma NoFragment(scheme: string, user: string, host: string, behind: string)
    requires Splits(scheme, user, host, behind)
    ensures DropFragment(Whole(scheme, user, host, behind)) == Whole(scheme, user, host, behind)
  {
    var w, h := Whole(scheme, user, host, behind), {'#'};
    assert NoneOf(user, h) && NoneOf(scheme + "://", h) && NoneOf(host, h);
    NoneOfJoin(host, behind, h);
    NoneOfJoin(user, host + behind, h);
    NoneOfJoin(scheme + "://", user + (host + behind), h);
    SpanAll(w, h);
    assert w[..|w|] == w;
  }

  lemma AtSplits(t: string)
    requires !NoneOf(t, {'@'})
    ensures Span(t, {'@'}) < |t| && UpToAt(t) == t[..Span(t, {'@'}) + 1] && AfterAt(t) == t[Span(t, {'@'}) + 1..]
    ensures UpToAt(t) + AfterAt(t) == t && UpToAt(t) != ""
  {
    SpanAll(t, {'@'});
    hide Span, NoneOf;
    Parted(t, Span(t, {'@'}) + 1);
  }

  lemma Parted(t: string, k: nat)
    requires k <= |t|
    ensures t[..k] + t[k..] == t && |t[..k]| == k
  {
  }

  lemma MisledUserEnd(host: string, behind: string)
    requires HostText("", host) && AtFirst(behind)
    ensures UserEnd(host + behind) == |host| + Span(behind, {'@'}) + 1
  {
    NoneOfFewer(host, {':', '/', '?', '#'}, {'/'});
    SpanOver(host, behind, {'@'});
    SpanOver(host, behind, {'/'});
    hide NoneOf, Span;
  }

  /** The step, from where its searches end. */
  lemma AuthorityFrom(s: string, scheme: string, rest: string, u: nat, front: string, after: string)
    requires Find(s, "://", 0) == Some(|scheme|) && |scheme| + 3 <= |s|
    requires s[..|scheme|] == scheme && s[|scheme| + 3..] == rest
    requires u == UserEnd(rest) && u <= |rest| && rest[..u] == front && rest[u..] == after
    ensures LowerAuthority(s) == Lower(scheme) + "://" + (front + LowerDomain(after))
  {
    hide Find, UserEnd, Span, Lower, NormalDomain;
  }

  lemma MisledSlices(host: string, behind: string) returns (u: nat)
    requires HostText("", host) && AtFirst(behind)
    ensures u == UserEnd(host + behind) <= |host + behind|
    ensures (host + behind)[..u] == host + UpToAt(behind) && (host + behind)[u..] == AfterAt(behind)
  {
    MisledUserEnd(host, behind);
    SpanAll(behind, {'@'});
    AtSplits(behind);
    u := |host| + (Span(behind, {'@'}) + 1);
    Slices(host, behind, Span(behind, {'@'}) + 1);
    hide UserEnd, Span, AtFirst, HostText, UpToAt, AfterAt, NoneOf;
  }

  lemma AuthorityMisled(scheme: string, host: string, behind: string)
    requires NoneOf(scheme, {':'}) && HostText("", host) && AtFirst(behind)
    ensures LowerAuthority(Whole(scheme, "", host, behind)) ==
            Whole(Lower(scheme), "", host, UpToAt(behind) + LowerDomain(AfterAt(behind)))
  {
    var rest := host + behind;
    var u := MisledSlices(host, behind);
    SchemeEnd(scheme, rest);
    hide Find, LowerAuthority, UserEnd, Span, AtFirst, HostText, UpToAt, AfterAt, NoneOf, Lower, LowerDomain;
    AuthorityFrom(scheme + "://" + rest, scheme, rest, u, host + UpToAt(behind), AfterAt(behind));
    CutRegroup(Lower(scheme), host, UpToAt(behind), LowerDomain(AfterAt(behind)));
    assert "" + rest == rest;
  }

  lemma AuthorityStep(scheme: string, user: string, host: string, behind: string)
    requires Splits(scheme, user, host, behind)
    ensures LowerAuthority(Whole(scheme, user, host, behind)) ==
            Whole(Lower(scheme), user, HostAfter(user, host, behind), Lowered(user, behind))
  {
    NoneOfFewer(scheme, {':', '?', '#'}, {':'});
    hide LowerAuthority, Whole, HostText, UserText, NoneOf, Lower, NormalDomain, LowerDomain, AtFirst, UpToAt, AfterAt;
    if Misled(user, behind) {
      AuthorityMisled(scheme, host, behind);
    } else {
      AuthorityLowered(scheme, user, host, behind);
    }
  }

  lemma PortStep(scheme: string, user: string, host: string, behind: string)
    requires NoneOf(scheme, {':'}) && UserText(user) && HostText(user, host)
    ensures RemoveDefaultPort(Whole(scheme, user, host, behind)) ==
            Whole(scheme, user, host, Lead(user, behind) + WithoutPort(scheme, Region(user, behind)))
  {
    if LooksRight(user, behind) {
      PortRemoved(scheme, user, host, behind);
      hide RemoveDefaultPort, Whole, CutPort, DefaultColon, LooksRight;
      assert "" + WithoutPort(scheme, behind) == WithoutPort(scheme, behind);
    } else {
      PortLookedForBehindAt(scheme, host, behind);
      hide RemoveDefaultPort, Whole, CutPort, DefaultColon, UpToAt, AfterAt;
    }
  }

  lemma PathStep(scheme: string, user: string, host: string, behind: string)
    requires NoneOf(scheme, {':', '?', '#'}) && UserText(user) && HostText(user, host)
    ensures AddPath(Whole(scheme, user, host, behind)) == Whole(scheme, user, host, Slashed(behind))
  {
    NoneOfFewer(scheme, {':', '?', '#'}, {':', '?'});
    NoneOfFewer(host, {':', '/', '?', '#'}, {'/', '?'});
    PathAdded(scheme, user, host, "", behind);
    var q := Span(behind, {'?'});
    assert "" + behind == behind && "" + (behind[..q] + "/" + behind[q..]) == behind[..q] + "/" + behind[q..];
    hide AddPath, Whole, Span, NoneOf;
  }

  lemma HostAfterText(user: string, host: string, behind: string)
    requires HostText(user, host)
    ensures HostText(user, HostAfter(user, host, behind)) && |HostAfter(user, host, behind)| <= |host|
  {
    NormalDomainKeeps(host, {':', '/', '?', '#'});
    NormalDomainKeeps(host, {'@'});
    hide NormalDomain, NoneOf;
  }

  /** One pass over the parts. */
  lemma Pass(scheme: string, user: string, host: string, behind: string)
    requires Splits(scheme, user, host, behind)
    ensures Normalize(Whole(scheme, user, host, behind)) ==
            Whole(Lower(scheme), user, HostAfter(user, host, behind), BehindAfter(scheme, user, behind))
  {
    var s, h, b := Lower(scheme), HostAfter(user, host, behind), Lowered(user, behind);
    NoFragment(scheme, user, host, behind);
    AuthorityStep(scheme, user, host, behind);
    HostAfterText(user, host, behind);
    LowerKeeps(scheme, {':', '?', '#'});
    NoneOfFewer(s, {':', '?', '#'}, {':'});
    PortStep(s, user, h, b);
    PathStep(s, user, h, Lead(user, b) + WithoutPort(s, Region(user, b)));
    SameScheme(scheme, Region(user, b));
    hide Whole, LowerAuthority, RemoveDefaultPort, AddPath, DropFragment, Slashed, Lead, Region, Lowered, HostAfter,
         WithoutPort, NoneOf, HostText, UserText, Lower;
  }

  /** The scheme is compared in lower case. */
  lemma SameScheme(scheme: string, t: string)
    ensures DefaultColon(Lower(scheme), t) <==> DefaultColon(scheme, t)
    ensures WithoutPort(Lower(scheme), t) == WithoutPort(scheme, t)
  {
    LowerTwice(scheme);
    hide Lower, Span, CutPort, IsDefaultPort;
  }

  // ---------------------------------------------------------------------------- what a pass keeps

  /** The '@' in it is its last character. */
  predicate Marked(front: string) {
    front != "" && front[|front| - 1] == '@' && NoneOf(front[..|front| - 1], {'@'})
  }

  lemma UpToAtMarked(t: string)
    requires !NoneOf(t, {'@'})
    ensures Marked(UpToAt(t)) && |UpToAt(t)| == Span(t, {'@'}) + 1
  {
    AtSplits(t);
    var u := UpToAt(t);
    assert u[..|u| - 1] == t[..Span(t, {'@'})];
  }

  lemma MarkedSplits(front: string, t: string)
    requires Marked(front)
    ensures Span(front + t, {'@'}) == |front| - 1 && !NoneOf(front + t, {'@'})
    ensures UpToAt(front + t) == front && AfterAt(front + t) == t
  {
    var u := front[..|front| - 1];
    assert front + t == u + ("@" + t);
    SpanOver(u, "@" + t, {'@'});
    assert Span("@" + t, {'@'}) == 0;
    assert (front + t)[|front| - 1] == '@';
  }

  lemma LeadAndRegion(user: string, behind: string)
    ensures Lead(user, behind) + Region(user, behind) == behind
    ensures !LooksRight(user, behind) ==> Marked(Lead(user, behind))
  {
    if !LooksRight(user, behind) {
      AtSplits(behind);
      UpToAtMarked(behind);
    }
  }

  lemma CutIsShorter(scheme: string, t: string)
    ensures |WithoutPort(scheme, t)| <= |t|
    ensures |WithoutPort(scheme, t)| == |t| <==> !DefaultColon(scheme, t)
    ensures NoneOf(WithoutPort(scheme, t), {'/'}) <==> NoneOf(t, {'/'})
  {
    if DefaultColon(scheme, t) {
      CutShortens(scheme, t);
    }
  }

  lemma LowerDomainKeeps(t: string)
    ensures |LowerDomain(t)| <= |t| && (NoneOf(LowerDomain(t), {'/'}) <==> NoneOf(t, {'/'}))
    ensures NoneOf(t, {'#'}) ==> NoneOf(LowerDomain(t), {'#'})
  {
    var d := Span(t, {':', '/', '?'});
    var w := t[..d];
    NormalDomainKeeps(w, {'/'});
    NormalDomainKeeps(w, {'#'});
    assert t == w + t[d..];
    NoneOfFewer(w, {':', '/', '?'}, {'/'});
    NoneOfJoin(w, t[d..], {'/'});
    NoneOfJoin(w, t[d..], {'#'});
    NoneOfJoin(NormalDomain(w), t[d..], {'/'});
    NoneOfJoin(NormalDomain(w), t[d..], {'#'});
    hide NormalDomain, NoneOf, Span;
  }

  lemma NormalDomainKeeps(w: string, stops: set<char>)
    requires forall c :: c in stops ==> !('a' <= c <= 'z')
    ensures |NormalDomain(w)| <= |w| && (NoneOf(w, stops) ==> NoneOf(NormalDomain(w), stops))
  {
    var n := NormalDomain(w);
    assert |n| <= |w| && forall i :: 0 <= i < |n| ==> n[i] == w[i] || n[i] == LowerChar(w[i]);
    hide NormalDomain;
    if NoneOf(w, stops) {
      forall i | 0 <= i < |n|
        ensures n[i] !in stops
      {
        assert w[i] !in stops;
      }
    }
  }

  /** The slash put in stops no search that was not stopped before. */
  lemma ColonInSlashed(scheme: string, t: string)
    requires NoneOf(t, {'#'})
    ensures DefaultColon(scheme, Slashed(t)) <==> DefaultColon(scheme, t)
  {
    var q := Span(t, {'?'});
    var a, b := t[..q], t[q..];
    if NoneOf(t, {'/'}) {
      assert t == a + b && Slashed(t) == a + ("/" + b);
      NoneOfJoin(a, b, {'#'});
      NoneOfJoin(a, b, {'/'});
      assert b == "" || b[0] == '?';
      ColonSplit(scheme, a, b);
      ColonSplit(scheme, a, "/" + b);
      ColonBehindSlash(scheme, b);
    }
  }

  lemma ColonBehindSlash(scheme: string, t: string)
    ensures DefaultColon(scheme, "/" + t) <==> DefaultColon(scheme, t)
  {
    ColonBehindHost(scheme, "/", t);
  }

  /** A delimiter ends the port whichever it is. */
  lemma ColonSplit(scheme: string, a: string, b: string)
    requires b == "" || b[0] in {'/', '?', '#'}
    ensures DefaultColon(scheme, a + b) <==> DefaultColon(scheme, if NoneOf(a, {':'}) then b else a)
  {
    if NoneOf(a, {':'}) {
      ColonBehindHost(scheme, a, b);
    } else {
      var p := Span(a, {':'});
      SpanAll(a, {':'});
      var front, port := a[..p], a[p..];
      assert a == front + port && a + b == front + (port + b);
      ColonBehindHost(scheme, front, port);
      ColonBehindHost(scheme, front, port + b);
      hide NoneOf, Span, DefaultColon;
      PortDelimited(scheme, port, b);
    }
  }

  lemma PortDelimited(scheme: string, t: string, b: string)
    requires t != "" && t[0] == ':' && (b == "" || b[0] in {'/', '?', '#'})
    ensures DefaultColon(scheme, t + b) <==> DefaultColon(scheme, t)
  {
    var n := PortEnd(t);
    assert t == t[..n] + t[n..] && t + b == t[..n] + (t[n..] + b);
    SpanOver(t[..n], t[n..] + b, {'/', '?', '#'});
    assert Span(t[n..] + b, {'/', '?', '#'}) == 0;
    assert PortEnd(t + b) == n && (t + b)[1..n] == t[1..n];
    assert Span(t, {':'}) == 0 == Span(t + b, {':'});
    assert t[0..] == t && (t + b)[0..] == t + b;
    hide Span, PortEnd, IsDefaultPort, Lower;
  }

  // ------------------------------------------------------------------------------ a second pass

  /** The '@' stands in a query. */
  predicate AtInQuery(behind: string) {
    Span(behind, {'?'}) < Span(behind, {'@'})
  }

  lemma NoHashCut(scheme: string, t: string)
    requires NoneOf(t, {'#'})
    ensures NoneOf(WithoutPort(scheme, t), {'#'})
  {
    var p := Span(t, {':'});
    if p < |t| {
      NoneOfJoin(t[..p], t[p..][PortEnd(t[p..])..], {'#'});
    }
  }

  lemma NoHashSlashed(t: string)
    requires NoneOf(t, {'#'})
    ensures NoneOf(Slashed(t), {'#'})
  {
    var q := Span(t, {'?'});
    NoneOfJoin(t[..q] + "/", t[q..], {'#'});
    NoneOfJoin(t[..q], "/", {'#'});
  }

  lemma NoHashLowered(user: string, behind: string)
    requires NoneOf(behind, {'#'})
    ensures NoneOf(Lowered(user, behind), {'#'})
    ensures NoneOf(Lead(user, behind), {'#'}) && NoneOf(Region(user, behind), {'#'})
  {
    LowerDomainKeeps(AfterAt(behind));
    NoneOfJoin(UpToAt(behind), LowerDomain(AfterAt(behind)), {'#'});
    hide LowerDomain;
  }

  lemma NoHash(scheme: string, user: string, behind: string)
    requires NoneOf(behind, {'#'})
    ensures NoneOf(BehindAfter(scheme, user, behind), {'#'}) && NoneOf(Left(scheme, user, behind), {'#'})
  {
    var b := Lowered(user, behind);
    NoHashLowered(user, behind);
    NoHashLowered(user, b);
    NoHashCut(scheme, Region(user, b));
    NoneOfJoin(Lead(user, b), Left(scheme, user, behind), {'#'});
    hide NoneOf, Lowered, Lead, Region, WithoutPort, Slashed;
    NoHashSlashed(Lead(user, b) + Left(scheme, user, behind));
  }

  lemma LoweredStart(user: string, behind: string)
    ensures Lowered(user, behind) == "" || (behind != "" && Lowered(user, behind)[0] == behind[0])
  {
    if Misled(user, behind) {
      assert !NoneOf(behind, {'@'}) by {
        SpanAll(behind, {'@'});
      }
      AtSplits(behind);
    }
  }

  lemma CutStart(scheme: string, t: string)
    requires Delimited(t) && NoneOf(t, {'#'})
    ensures Delimited(WithoutPort(scheme, t))
  {
    var p := Span(t, {':'});
    if p < |t| {
      var e := PortEnd(t[p..]);
      if e < |t[p..]| {
        assert t[p..][e] == t[p + e];
      }
    }
  }

  lemma SlashedStart(t: string)
    requires Delimited(t)
    ensures Slashed(t) != "" && Delimited(Slashed(t)) && !NoneOf(Slashed(t), {'/'})
  {
    var q := Span(t, {'?'});
    assert (t[..q] + "/" + t[q..])[q] == '/';
  }

  lemma AfterDelimited(scheme: string, user: string, behind: string)
    requires Delimited(behind) && NoneOf(behind, {'#'})
    ensures Delimited(BehindAfter(scheme, user, behind)) && !NoneOf(BehindAfter(scheme, user, behind), {'/'})
  {
    var b := Lowered(user, behind);
    LoweredStart(user, behind);
    NoHashLowered(user, behind);
    LeadAndRegion(user, b);
    CutStart(scheme, b);
    hide Lowered, Lead, WithoutPort, Slashed, NoneOf;
    SlashedStart(Lead(user, b) + Left(scheme, user, behind));
  }

  lemma NoAtLeft(scheme: string, t: string)
    requires NoneOf(t, {'@'})
    ensures NoneOf(Slashed(WithoutPort(scheme, t)), {'@'})
  {
    var p, l := Span(t, {':'}), WithoutPort(scheme, t);
    if p < |t| {
      NoneOfJoin(t[..p], t[p..][PortEnd(t[p..])..], {'@'});
    }
    var q := Span(l, {'?'});
    NoneOfJoin(l[..q] + "/", l[q..], {'@'});
    NoneOfJoin(l[..q], "/", {'@'});
  }

  lemma FirstAt(t: string)
    requires AtFirst(t)
    ensures !NoneOf(t, {'@'}) && Marked(UpToAt(t)) && NoneOf(UpToAt(t), {'/'})
  {
    SpanAll(t, {'@'});
    UpToAtMarked(t);
    AtSplits(t);
    var at, slash := Span(t, {'@'}), Span(t, {'/'});
    assert NoneOf(t[..slash], {'/'});
    hide Span, Marked;
    assert t[..at + 1] == t[..slash][..at + 1];
  }

  lemma MisledHasAt(user: string, behind: string)
    requires Misled(user, behind)
    ensures !LooksRight(user, Lowered(user, behind)) && Lead(user, Lowered(user, behind)) == UpToAt(behind)
    ensures Marked(UpToAt(behind)) && NoneOf(UpToAt(behind), {'/'})
    ensures Region(user, Lowered(user, behind)) == LowerDomain(AfterAt(behind))
  {
    FirstAt(behind);
    hide LowerDomain, Marked, NoneOf, UpToAt, AfterAt, AtFirst;
    MarkedSplits(UpToAt(behind), LowerDomain(AfterAt(behind)));
  }

  lemma AtFirstMarked(front: string, t: string)
    requires Marked(front)
    ensures AtFirst(front + t) <==> NoneOf(front, {'/'})
  {
    MarkedSplits(front, t);
    if NoneOf(front, {'/'}) {
      SpanOver(front, t, {'/'});
    } else {
      var q := Span(front, {'/'});
      SpanAll(front, {'/'});
      assert front + t == front[..q] + (front[q..] + t);
      SpanOver(front[..q], front[q..] + t, {'/'});
      assert (front[q..] + t)[0] == '/';
      assert Span(front + t, {'/'}) == q;
    }
    hide NoneOf, Span;
  }

  lemma SeenAll(scheme: string, user: string, behind: string)
    requires LooksRight(user, Lowered(user, behind))
    ensures var r, l := BehindAfter(scheme, user, behind), Left(scheme, user, behind);
            LooksRight(user, r) && r == Slashed(l) && !Misled(user, behind) && !Misled(user, r)
  {
    var l, r := Left(scheme, user, behind), BehindAfter(scheme, user, behind);
    assert "" + l == l;
    if Misled(user, behind) {
      MisledHasAt(user, behind);
    }
    if user == "" {
      NoAtLeft(scheme, behind);
      SpanAll(r, {'@'});
    }
    hide WithoutPort, NoneOf, Slashed, Span;
  }

  lemma SeenBehindAt(scheme: string, user: string, behind: string)
    requires !LooksRight(user, Lowered(user, behind))
    requires !NoneOf(Lead(user, Lowered(user, behind)) + Left(scheme, user, behind), {'/'})
    ensures var r, l := BehindAfter(scheme, user, behind), Left(scheme, user, behind);
            !LooksRight(user, r) && Region(user, r) == l && r == Lead(user, Lowered(user, behind)) + l
    ensures Misled(user, BehindAfter(scheme, user, behind)) <==> Misled(user, behind)
    ensures Misled(user, behind) ==> !NoneOf(Left(scheme, user, behind), {'/'})
  {
    var b, l := Lowered(user, behind), Left(scheme, user, behind);
    var front := Lead(user, b);
    LeadAndRegion(user, b);
    MarkedSplits(front, l);
    AtFirstMarked(front, l);
    AtFirstMarked(front, Region(user, b));
    NoneOfJoin(front, l, {'/'});
    if Misled(user, behind) {
      MisledHasAt(user, behind);
    }
    hide NoneOf, Span, AtFirst, Left, Marked;
  }

  lemma SeenSlashed(scheme: string, user: string, behind: string)
    requires !LooksRight(user, Lowered(user, behind))
    requires NoneOf(Lead(user, Lowered(user, behind)) + Left(scheme, user, behind), {'/'})
    ensures var r, l := BehindAfter(scheme, user, behind), Left(scheme, user, behind);
            && !LooksRight(user, r) && Misled(user, behind) && NoneOf(l, {'/'})
            && Region(user, r) == (if AtInQuery(behind) then l else Slashed(l))
            && (Misled(user, r) <==> !AtInQuery(behind))
  {
    var b, l := Lowered(user, behind), Left(scheme, user, behind);
    var front := Lead(user, b);
    LeadAndRegion(user, b);
    NoneOfJoin(front, l, {'/'});
    AtFirstMarked(front, Region(user, b));
    assert Misled(user, behind);
    MisledHasAt(user, behind);
    SpanAll(behind, {'@'});
    hide Span, AtFirst, Left, Marked, Lowered, Lead, UpToAt, NoneOf;
    if AtInQuery(behind) {
      var q := QueryInFront(behind, l);
      SlashIntoFront(front, q, l);
      var more := front[..q] + "/" + front[q..];
      MarkedSplits(more, l);
      AtFirstMarked(more, l);
      SlashInside(more, q);
    } else {
      SlashBehindFront(behind, l);
      MarkedSplits(front, Slashed(l));
      AtFirstMarked(front, Slashed(l));
    }
  }

  lemma SlashInside(more: string, q: nat)
    requires q < |more| && more[q] == '/'
    ensures !NoneOf(more, {'/'})
  {
  }

  lemma NoQueryInFront(behind: string)
    requires AtFirst(behind) && !AtInQuery(behind)
    ensures NoneOf(UpToAt(behind), {'?'})
  {
    var at, q := Span(behind, {'@'}), Span(behind, {'?'});
    SpanAll(behind, {'@'});
    AtSplits(behind);
    assert NoneOf(behind[..q], {'?'}) && behind[at] == '@';
    hide Span;
    assert q != at;
    assert behind[..at + 1] == behind[..q][..at + 1];
  }

  /** Where no question mark stands in front of the '@', the slash goes behind it. */
  lemma SlashBehindFront(behind: string, l: string)
    requires AtFirst(behind) && !AtInQuery(behind) && NoneOf(UpToAt(behind) + l, {'/'})
    ensures Slashed(UpToAt(behind) + l) == UpToAt(behind) + Slashed(l)
  {
    NoQueryInFront(behind);
    NoneOfJoin(UpToAt(behind), l, {'/'});
    hide *;
    SlashedBehind(UpToAt(behind), l);
  }

  lemma SlashedBehind(front: string, tail: string)
    requires NoneOf(front, {'/'}) && NoneOf(front, {'?'})
    ensures Slashed(front + tail) == front + Slashed(tail)
  {
    NoneOfJoin(front, tail, {'/'});
    SpanOver(front, tail, {'?'});
    hide Span, NoneOf;
    SlashIntoTail(front, tail, Span(tail, {'?'}));
  }

  lemma SlashIntoTail(front: string, tail: string, q: nat)
    requires q <= |tail|
    ensures (front + tail)[..|front| + q] + "/" + (front + tail)[|front| + q..] == front + (tail[..q] + "/" + tail[q..])
  {
    Slices(front, tail, q);
  }

  lemma QueryInFront(behind: string, l: string) returns (q: nat)
    requires !NoneOf(behind, {'@'}) && Span(behind, {'?'}) < Span(behind, {'@'})
    ensures q == Span(UpToAt(behind) + l, {'?'}) < |UpToAt(behind)| - 1
  {
    q := Span(behind, {'?'});
    AtSplits(behind);
    var front := UpToAt(behind);
    assert front + l == behind[..q] + (front[q..] + l);
    SpanOver(behind[..q], front[q..] + l, {'?'});
    assert (front[q..] + l)[0] == '?';
  }

  lemma SlashIntoFront(front: string, q: nat, l: string)
    requires Marked(front) && q < |front| - 1
    ensures (front + l)[..q] + "/" + (front + l)[q..] == (front[..q] + "/" + front[q..]) + l
    ensures Marked(front[..q] + "/" + front[q..])
  {
    var more := front[..q] + "/" + front[q..];
    var u := front[..|front| - 1];
    assert more[..|more| - 1] == u[..q] + "/" + u[q..];
    NoneOfJoin(u[..q] + "/", u[q..], {'@'});
    NoneOfJoin(u[..q], "/", {'@'});
  }

  /** After a pass the port is looked for in what the first pass left, now with its slash when
      that went there; and the search for the user information is misled again unless the slash
      went in front of the '@'. */
  lemma SeenAgain(scheme: string, user: string, behind: string)
    ensures var r, l := BehindAfter(scheme, user, behind), Left(scheme, user, behind);
            && (Region(user, r) == l || Region(user, r) == Slashed(l))
            && (Misled(user, r) <==> Misled(user, behind) && !(NoneOf(l, {'/'}) && AtInQuery(behind)))
  {
    var b, l := Lowered(user, behind), Left(scheme, user, behind);
    hide Lowered, Lead, Left, AtInQuery, Misled, BehindAfter, Slashed, NoneOf;
    if LooksRight(user, b) {
      SeenAll(scheme, user, behind);
    } else if NoneOf(Lead(user, b) + l, {'/'}) {
      SeenSlashed(scheme, user, behind);
    } else {
      SeenBehindAt(scheme, user, behind);
    }
  }

  /** The slash put in does not change what is taken for the domain. */
  lemma DomainInSlashed(t: string)
    ensures LowerDomain(Slashed(t)) == Slashed(t) <==> LowerDomain(t) == t
  {
    if NoneOf(t, {'/'}) {
      var q, d := Span(t, {'?'}), Span(t, {':', '/', '?'});
      var x := Slashed(t);
      SpanOfMore(t, {':', '/', '?'}, {'?'});
      assert x[..d] == t[..d] && (d < q ==> x[d] == t[d]) && (d == q ==> x[d] == '/');
      assert x == t[..d] + x[d..];
      SpanOver(t[..d], x[d..], {':', '/', '?'});
      assert x[d..][0] == x[d];
      assert Span(x[d..], {':', '/', '?'}) == 0;
      assert t == t[..d] + t[d..];
      hide Span, NormalDomain, NoneOf;
      SameFront(NormalDomain(t[..d]), t[..d], x[d..]);
      SameFront(NormalDomain(t[..d]), t[..d], t[d..]);
    }
  }

  /** More to stop at stops no later. */
  lemma {:induction false} SpanOfMore(t: string, more: set<char>, fewer: set<char>)
    requires fewer <= more
    ensures Span(t, more) <= Span(t, fewer)
  {
    if t != "" && t[0] !in more {
      SpanOfMore(t[1..], more, fewer);
    }
  }

  lemma SameFront(a: string, b: string, t: string)
    ensures a + t == b + t <==> a == b
  {
    if a + t == b + t {
      assert |a| == |b|;
      assert (a + t)[..|a|] == a && (b + t)[..|a|] == b;
    }
  }

  /** What a pass does to text that has a slash. */
  lemma PassFixes(scheme: string, user: string, r: string)
    requires !NoneOf(r, {'/'})
    ensures |BehindAfter(scheme, user, r)| <= |r|
    ensures BehindAfter(scheme, user, r) == r <==> Lowered(user, r) == r && !DefaultColon(scheme, Region(user, r))
  {
    var b := Lowered(user, r);
    var lead, region := Lead(user, b), Region(user, b);
    LoweredFixes(user, r);
    LeadAndRegion(user, b);
    CutIsShorter(scheme, region);
    NoneOfJoin(lead, region, {'/'});
    NoneOfJoin(lead, WithoutPort(scheme, region), {'/'});
    assert BehindAfter(scheme, user, r) == lead + WithoutPort(scheme, region);
    hide NoneOf, Lowered, Lead, Region, DefaultColon, CutPort, BehindAfter;
  }

  lemma LoweredFixes(user: string, r: string)
    requires !NoneOf(r, {'/'})
    ensures |Lowered(user, r)| <= |r| && !NoneOf(Lowered(user, r), {'/'})
    ensures Lowered(user, r) == r <==> !Misled(user, r) || LowerDomain(Region(user, r)) == Region(user, r)
  {
    if Misled(user, r) {
      var up, after := UpToAt(r), AfterAt(r);
      SpanAll(r, {'@'});
      AtSplits(r);
      LowerDomainKeeps(after);
      NoneOfJoin(up, after, {'/'});
      NoneOfJoin(up, LowerDomain(after), {'/'});
      hide LowerDomain, Span, NoneOf, UpToAt, AfterAt;
      SameBehind(up, LowerDomain(after), after);
    }
  }

  lemma SameBehind(front: string, a: string, b: string)
    ensures front + a == front + b <==> a == b
  {
    assert (front + a)[|front|..] == a && (front + b)[|front|..] == b;
  }

  lemma SameWhole(s: string, u: string, h1: string, b1: string, h2: string, b2: string)
    requires |h1| <= |h2| && |b1| <= |b2|
    ensures Whole(s, u, h1, b1) == Whole(s, u, h2, b2) <==> h1 == h2 && b1 == b2
  {
    var w1, w2, n := Whole(s, u, h1, b1), Whole(s, u, h2, b2), |s| + 3 + |u|;
    if w1 == w2 {
      assert w1[n..][..|h1|] == h1 && w1[n..][|h1|..] == b1;
      assert w2[n..][..|h2|] == h2 && w2[n..][|h2|..] == b2;
    }
  }

  /** What a second pass needs to change nothing: no default port is found in what is left, and
      what is taken for the domain then is lowered already. */
  predicate Settled(scheme: string, user: string, host: string, behind: string) {
    var l := Left(scheme, user, behind);
    && !DefaultColon(scheme, l)
    && if Misled(user, behind) && !(NoneOf(l, {'/'}) && AtInQuery(behind)) then LowerDomain(l) == l
       else var h := HostAfter(user, host, behind); NormalDomain(h) == h
  }

  lemma TextFixes(scheme: string, user: string, behind: string)
    requires Delimited(behind) && NoneOf(behind, {'#'})
    ensures var r, l := BehindAfter(scheme, user, behind), Left(scheme, user, behind);
            && |BehindAfter(scheme, user, r)| <= |r|
            && (BehindAfter(scheme, user, r) == r <==>
                !DefaultColon(scheme, l) && (Misled(user, r) ==> LowerDomain(l) == l))
  {
    var r, l := BehindAfter(scheme, user, behind), Left(scheme, user, behind);
    AfterDelimited(scheme, user, behind);
    NoHash(scheme, user, behind);
    SeenAgain(scheme, user, behind);
    ColonInSlashed(scheme, l);
    DomainInSlashed(l);
    PassFixes(scheme, user, r);
    LoweredFixes(user, r);
    hide NoneOf, Lowered, LowerDomain, Lead, Region, DefaultColon, BehindAfter, Left, Misled, LooksRight, Slashed, AtInQuery;
  }

  /** The result of a pass splits as the text did. */
  lemma PassSplits(scheme: string, user: string, host: string, behind: string)
    requires Splits(scheme, user, host, behind)
    ensures Splits(Lower(scheme), user, HostAfter(user, host, behind), BehindAfter(scheme, user, behind))
  {
    HostAfterText(user, host, behind);
    LowerKeeps(scheme, {':', '?', '#'});
    AfterDelimited(scheme, user, behind);
    NoHash(scheme, user, behind);
    hide BehindAfter, HostAfter, NoneOf, Delimited, HostText, UserText, Lower, Left;
  }

  lemma SecondPass(scheme: string, user: string, host: string, behind: string)
    requires Splits(scheme, user, host, behind)
    ensures var s, h, r := Lower(scheme), HostAfter(user, host, behind), BehindAfter(scheme, user, behind);
            Normalize(Normalize(Whole(scheme, user, host, behind))) ==
            Whole(s, user, HostAfter(user, h, r), BehindAfter(scheme, user, r))
  {
    hide *;
    var s, h, r := Lower(scheme), HostAfter(user, host, behind), BehindAfter(scheme, user, behind);
    Pass(scheme, user, host, behind);
    PassSplits(scheme, user, host, behind);
    Pass(s, user, h, r);
    LowerTwice(scheme);
    SameBehindAfter(scheme, user, r);
  }

  lemma SameBehindAfter(scheme: string, user: string, behind: string)
    ensures BehindAfter(Lower(scheme), user, behind) == BehindAfter(scheme, user, behind)
  {
    SameScheme(scheme, Region(user, Lowered(user, behind)));
    hide Lower, Lowered, Region, WithoutPort, Lead, Slashed;
  }

  lemma PassTwice(scheme: string, user: string, host: string, behind: string)
    requires Splits(scheme, user, host, behind)
    ensures var w := Normalize(Whole(scheme, user, host, behind));
            Normalize(w) == w <==> Settled(scheme, user, host, behind)
  {
    var s, h, r := Lower(scheme), HostAfter(user, host, behind), BehindAfter(scheme, user, behind);
    Pass(scheme, user, host, behind);
    SecondPass(scheme, user, host, behind);
    TextFixes(scheme, user, behind);
    SeenAgain(scheme, user, behind);
    HostAfterText(user, host, behind);
    HostAfterText(user, h, r);
    SameWhole(s, user, HostAfter(user, h, r), BehindAfter(scheme, user, r), h, r);
    hide Normalize, BehindAfter, Whole, NoneOf, Lower, NormalDomain, Left, LowerDomain, DefaultColon, Misled, HostText, AtInQuery;
  }

  // ------------------------------------------------------------------------------- any text

  /** A scheme without the characters that the searches look for. */
  predicate SchemeOk(url: string) {
    match Find(DropFragment(url), "://", 0)
    case None => false
    case Some(e) => NoneOf(DropFragment(url)[..e], {':', '?', '#'})
  }

  function SchemeOf(url: string): string
    requires SchemeOk(url)
  {
    DropFragment(url)[..Find(DropFragment(url), "://", 0).value]
  }

  function RestOf(url: string): string
    requires SchemeOk(url)
  {
    DropFragment(url)[Find(DropFragment(url), "://", 0).value + 3..]
  }

  /** The user information with its '@', when one stands in front of every slash and question
      mark. */
  function UserOf(rest: string): string {
    var at := Span(rest, {'@', '/', '?'});
    if at < |rest| && rest[at] == '@' then rest[..at + 1] else ""
  }

  function HostOf(rest: string): string {
    var t := rest[|UserOf(rest)|..];
    t[..Span(t, {':', '/', '?'})]
  }

  function BehindOf(rest: string): string {
    var t := rest[|UserOf(rest)|..];
    t[Span(t, {':', '/', '?'})..]
  }

  lemma UserSplits(rest: string)
    requires NoneOf(rest, {'#'})
    ensures UserText(UserOf(rest)) && UserOf(rest) == rest[..|UserOf(rest)|]
    ensures UserOf(rest) == "" ==> Span(rest, {'@', '/', '?'}) == |rest| || rest[Span(rest, {'@', '/', '?'})] != '@'
  {
    var at := Span(rest, {'@', '/', '?'});
    if at < |rest| && rest[at] == '@' {
      var u := UserOf(rest);
      assert u[..|u| - 1] == rest[..at];
      assert NoneOf(rest[..at], {'#'}) && NoneOf(rest[..at], {'@', '/', '?'});
    }
  }

  /** Without user information no '@' stands in the text up to a delimiter. */
  lemma NoAtInHost(rest: string)
    requires Span(rest, {'@', '/', '?'}) == |rest| || rest[Span(rest, {'@', '/', '?'})] != '@'
    ensures NoneOf(rest[..Span(rest, {':', '/', '?'})], {'@'})
  {
    var at, d := Span(rest, {'@', '/', '?'}), Span(rest, {':', '/', '?'});
    assert forall i :: 0 <= i < at ==> rest[i] == rest[..at][i];
    assert forall i :: 0 <= i < d ==> rest[i] == rest[..d][i];
    assert at < |rest| ==> d <= at;
  }

  lemma RestText(scheme: string, rest: string, n: nat, d: nat)
    requires n <= |rest| && d <= |rest[n..]|
    ensures Whole(scheme, rest[..n], rest[n..][..d], rest[n..][d..]) == scheme + "://" + rest
  {
    assert rest[n..] == rest[n..][..d] + rest[n..][d..];
    assert rest == rest[..n] + rest[n..];
  }

  lemma RestSplits(scheme: string, rest: string)
    requires NoneOf(scheme, {':', '?', '#'}) && NoneOf(rest, {'#'})
    ensures Splits(scheme, UserOf(rest), HostOf(rest), BehindOf(rest))
    ensures Whole(scheme, UserOf(rest), HostOf(rest), BehindOf(rest)) == scheme + "://" + rest
  {
    UserSplits(rest);
    var n := |UserOf(rest)|;
    var t := rest[n..];
    var d := Span(t, {':', '/', '?'});
    if n == 0 {
      assert t == rest;
      NoAtInHost(rest);
    }
    hide UserText, Span, UserOf, Whole;
    HostSplits(t, d);
    RestText(scheme, rest, n, d);
  }

  lemma HostSplits(t: string, d: nat)
    requires NoneOf(t, {'#'}) && d <= |t| && NoneOf(t[..d], {':', '/', '?'})
    ensures NoneOf(t[..d], {':', '/', '?', '#'}) && NoneOf(t[d..], {'#'})
  {
  }

  lemma UrlSplits(url: string)
    requires SchemeOk(url)
    ensures var rest := RestOf(url);
            && Splits(SchemeOf(url), UserOf(rest), HostOf(rest), BehindOf(rest))
            && DropFragment(url) == Whole(SchemeOf(url), UserOf(rest), HostOf(rest), BehindOf(rest))
            && Normalize(url) == Normalize(DropFragment(url))
  {
    var t, e := DropFragment(url), Find(DropFragment(url), "://", 0).value;
    assert t[e..e + 3] == "://" && t == t[..e] + "://" + t[e + 3..];
    RestSplits(t[..e], RestOf(url));
    NoFragment(SchemeOf(url), UserOf(RestOf(url)), HostOf(RestOf(url)), BehindOf(RestOf(url)));
    hide Find, Splits, Whole, UserOf, HostOf, BehindOf, LowerAuthority, RemoveDefaultPort, AddPath;
  }

  /** A second pass over any such URL changes nothing exactly when it is settled. */
  lemma NormalizedOnce(url: string)
    requires SchemeOk(url)
    ensures var rest := RestOf(url);
            Normalize(Normalize(url)) == Normalize(url) <==>
            Settled(SchemeOf(url), UserOf(rest), HostOf(rest), BehindOf(rest))
  {
    hide *;
    UrlSplits(url);
    PassTwice(SchemeOf(url), UserOf(RestOf(url)), HostOf(RestOf(url)), BehindOf(RestOf(url)));
  }
}
