/** The URL normaliser: rewriting by positions in the text, and what it does to the
    components of a URL (sections 3, 6.2.2.1 and 6.2.3 of RFC 3986). */
module Url {
  import opened Wrappers
  import opened Sequences
  import opened Text

  // ------------------------------------------------------------------------------ searching

  predicate NoneOf(s: string, stops: set<char>) {
    forall i :: 0 <= i < |s| ==> s[i] !in stops
  }

  /** find_first_of, with the length standing for "not found". */
  function Span(s: string, stops: set<char>): (n: nat)
    ensures n <= |s| && NoneOf(s[..n], stops)
    ensures n < |s| ==> s[n] in stops
  {
    if s == "" || s[0] in stops then 0 else 1 + Span(s[1..], stops)
  }

  /** The search passes over text without the characters searched for. */
  lemma {:induction false} SpanOver(a: string, b: string, stops: set<char>)
    requires NoneOf(a, stops)
    ensures Span(a + b, stops) == |a| + Span(b, stops)
  {
    if a == "" {
      assert a + b == b;
    } else {
      assert (a + b)[0] == a[0] && (a + b)[1..] == a[1..] + b;
      SpanOver(a[1..], b, stops);
    }
  }

  lemma SpanAll(s: string, stops: set<char>)
    ensures Span(s, stops) == |s| <==> NoneOf(s, stops)
  {
    assert s[..|s|] == s;
  }

  // ---------------------------------------------------------------------------- lower case

  function LowerChar(c: char): char {
    if 'A' <= c <= 'Z' then c - 'A' + 'a' else c
  }

  function Lower(s: string): (r: string)
    ensures |r| == |s|
  {
    seq(|s|, i requires 0 <= i < |s| => LowerChar(s[i]))
  }

  lemma LowerTwice(s: string)
    ensures Lower(Lower(s)) == Lower(s)
  {
  }

  /** Lowering changes letters only. */
  lemma LowerKeeps(s: string, stops: set<char>)
    requires NoneOf(s, stops) && forall c :: c in stops ==> !('a' <= c <= 'z')
    ensures NoneOf(Lower(s), stops)
  {
    forall i | 0 <= i < |s|
      ensures Lower(s)[i] !in stops
    {
      assert s[i] !in stops;
    }
  }

  // -------------------------------------------------------------------------- the rewriting

  function DropFragment(s: string): string {
    s[..Span(s, {'#'})]
  }

  function DropDot(d: string): string {
    if d != "" && d[|d| - 1] == '.' then d[..|d| - 1] else d
  }

  /** Lower case without one trailing dot; a bracketed address only up to its bracket. */
  function NormalDomain(d: string): string {
    if d != "" && d[0] == '[' then
      match FindChar(d, ']', 0)
      case None => d
      case Some(b) => "[" + Lower(d[1..b]) + "]" + d[b + 1..]
    else DropDot(Lower(d))
  }

  /** What is skipped before the domain: everything up to an '@' that no slash precedes. */
  function UserEnd(rest: string): (n: nat)
    ensures n <= |rest|
  {
    var at, slash := Span(rest, {'@'}), Span(rest, {'/'});
    if at < |rest| && at < slash then at + 1 else 0
  }

  function LowerAuthority(s: string): string {
    match Find(s, "://", 0)
    case None => s
    case Some(e) =>
      var rest := s[e + 3..];
      var u := UserEnd(rest);
      var d := Span(rest[u..], {':', '/', '?'});
      Lower(s[..e]) + "://" + (rest[..u] + (NormalDomain(rest[u..][..d]) + rest[u..][d..]))
  }

  predicate IsDefaultPort(scheme: string, port: string) {
    (scheme == "http" && port == "80") || (scheme == "https" && port == "443")
  }

  /** The text between the first colon and the next delimiter is a default port. */
  predicate DefaultColon(scheme: string, t: string) {
    var p := Span(t, {':'});
    p < |t| && IsDefaultPort(Lower(scheme), t[p..][1..PortEnd(t[p..])])
  }

  function PortEnd(t: string): (n: nat)
    requires t != "" && t[0] == ':'
    ensures 1 <= n <= |t|
  {
    Span(t, {'/', '?', '#'})
  }

  function CutPort(t: string): string {
    var p := Span(t, {':'});
    if p < |t| then t[..p] + t[p..][PortEnd(t[p..])..] else t
  }

  /** Here the '@' is looked for in the whole text, path and query included. */
  function RemoveDefaultPort(s: string): string {
    match Find(s, "://", 0)
    case None => s
    case Some(e) =>
      var rest := s[e + 3..];
      var at := Span(rest, {'@'});
      var u := if at < |rest| then at + 1 else 0;
      if DefaultColon(s[..e], rest[u..]) then s[..e] + "://" + (rest[..u] + CutPort(rest[u..])) else s
  }

  /** A search that fails returns the largest position, to which 3 is added. */
  function AddPath(s: string): string {
    var from := match Find(s, "://", 0) case None => 2 case Some(e) => e + 3;
    if FindChar(s, '/', from).Some? then s
    else
      var q := Span(s, {'?'});
      s[..q] + "/" + s[q..]
  }

  function Normalize(url: string): string {
    AddPath(RemoveDefaultPort(LowerAuthority(DropFragment(url))))
  }

  function AddDefaultScheme(url: string): string {
    if url == "" || Contains(url, "://") then url else "https://" + url
  }

  // ----------------------------------------------------------------------------- components

  datatype Parts = Parts(scheme: string, userinfo: Option<string>, host: string, port: Option<string>,
                         path: string, query: Option<string>, fragment: Option<string>)

  function Before(o: Option<string>, mark: string): string {
    if o.Some? then o.value + mark else ""
  }

  function Behind(mark: string, o: Option<string>): string {
    if o.Some? then mark + o.value else ""
  }

  function Tail(c: Parts): string {
    c.path + Behind("?", c.query)
  }

  function Join(c: Parts): string {
    c.scheme + "://" + (Before(c.userinfo, "@") + (c.host + (Behind(":", c.port) + Tail(c)))) + Behind("#", c.fragment)
  }

  /** The delimiters of a component do not occur in it; the host is not a bracketed one. */
  predicate WellFormed(c: Parts) {
    && NoneOf(c.scheme, {':', '?', '#'})
    && (c.userinfo.Some? ==> NoneOf(c.userinfo.value, {'@', '/', '?', '#'}))
    && NoneOf(c.host, {':', '/', '?', '#', '@'}) && (c.host != "" ==> c.host[0] != '[')
    && (c.port.Some? ==> NoneOf(c.port.value, {'/', '?', '#', '@'}))
    && NoneOf(c.path, {'?', '#'}) && (c.path != "" ==> c.path[0] == '/')
    && (c.query.Some? ==> NoneOf(c.query.value, {'#'}))
  }

  /** What normalisation should do, component by component. */
  function NormalParts(c: Parts): Parts {
    Parts(Lower(c.scheme), c.userinfo, DropDot(Lower(c.host)),
          if c.port.Some? && IsDefaultPort(Lower(c.scheme), c.port.value) then None else c.port,
          if c.path == "" then "/" else c.path, c.query, None)
  }

  // ----------------------------------------------------------------------------- the pieces

  lemma SchemeEnd(scheme: string, rest: string)
    requires NoneOf(scheme, {':'})
    ensures Find(scheme + "://" + rest, "://", 0) == Some(|scheme|)
    ensures var s := scheme + "://" + rest; s[..|scheme|] == scheme && s[|scheme| + 3..] == rest
  {
    var s, n := scheme + "://" + rest, |scheme|;
    assert s[n..n + 3] == "://";
    forall j | 0 <= j < n
      ensures !OccursAt(s, "://", j)
    {
      assert s[j] == scheme[j] && scheme[j] in scheme;
      assert s[j..j + 3][0] == s[j];
    }
    FindIs(s, "://", 0, n);
  }

  lemma NoneOfJoin(a: string, b: string, stops: set<char>)
    ensures NoneOf(a + b, stops) <==> NoneOf(a, stops) && NoneOf(b, stops)
  {
    if NoneOf(a + b, stops) {
      assert forall i :: 0 <= i < |a| ==> (a + b)[i] == a[i];
      assert forall i :: 0 <= i < |b| ==> (a + b)[|a| + i] == b[i];
    }
  }

  lemma NoneOfFewer(s: string, more: set<char>, fewer: set<char>)
    requires NoneOf(s, more) && fewer <= more
    ensures NoneOf(s, fewer)
  {
  }

  /** The scheme, and what stands in front of the host, in it, and behind it. */
  function Whole(scheme: string, user: string, host: string, behind: string): string {
    scheme + "://" + (user + (host + behind))
  }

  predicate UserText(user: string) {
    user == "" || (user[|user| - 1] == '@' && NoneOf(user[..|user| - 1], {'@', '/', '?', '#'}))
  }

  lemma FragmentDropped(c: Parts)
    requires WellFormed(c.(host := "")) && NoneOf(c.host, {'#'})
    ensures DropFragment(Join(c)) == Whole(c.scheme, Before(c.userinfo, "@"), c.host, Behind(":", c.port) + Tail(c))
  {
    var user, port, query := Before(c.userinfo, "@"), Behind(":", c.port), Behind("?", c.query);
    var t := Whole(c.scheme, user, c.host, port + Tail(c));
    var h := {'#'};
    assert NoneOf(user, h) && NoneOf(port, h) && NoneOf(query, h) && NoneOf(c.path, h) && NoneOf(c.scheme + "://", h);
    NoneOfJoin(c.path, query, h);
    NoneOfJoin(port, Tail(c), h);
    NoneOfJoin(c.host, port + Tail(c), h);
    NoneOfJoin(user, c.host + (port + Tail(c)), h);
    NoneOfJoin(c.scheme + "://", user + (c.host + (port + Tail(c))), h);
    var f := Behind("#", c.fragment);
    assert Join(c) == t + f;
    SpanOver(t, f, h);
    assert Span(f, h) == 0;
    assert (t + f)[..|t|] == t;
  }

  // ---------------------------------------------------------------------------- the steps

  /** An '@' that no slash precedes. */
  predicate AtFirst(t: string) {
    Span(t, {'@'}) < |t| && Span(t, {'@'}) < Span(t, {'/'})
  }

  predicate Delimited(t: string) {
    t == "" || t[0] in {':', '/', '?'}
  }

  /** The text up to the next delimiter; without user information it holds no '@'. */
  predicate HostText(user: string, host: string) {
    NoneOf(host, {':', '/', '?', '#'}) && (user == "" ==> NoneOf(host, {'@'}))
  }

  /** The search for the domain starts behind the user information, unless an '@' in the
      query of a URL without a path misleads it. */
  lemma UserEndAt(user: string, host: string, behind: string)
    requires UserText(user) && NoneOf(host, {'/'})
    requires user == "" ==> NoneOf(host, {'@'}) && !AtFirst(behind)
    ensures UserEnd(user + (host + behind)) == |user|
  {
    var rest := host + behind;
    if user == "" {
      SpanOver(host, behind, {'@'});
      SpanOver(host, behind, {'/'});
      assert user + rest == rest;
    } else {
      var u := user[..|user| - 1];
      assert user + rest == u + ("@" + rest) && user == u + "@";
      SpanOver(u, "@" + rest, {'@'});
      assert NoneOf(user, {'/'});
      SpanOver(user, rest, {'/'});
      assert Span("@" + rest, {'@'}) == 0;
    }
  }

  lemma AuthorityLowered(scheme: string, user: string, host: string, behind: string)
    requires NoneOf(scheme, {':'}) && UserText(user) && HostText(user, host) && Delimited(behind)
    requires user == "" ==> !AtFirst(behind)
    ensures LowerAuthority(Whole(scheme, user, host, behind)) == Whole(Lower(scheme), user, NormalDomain(host), behind)
  {
    var rest := user + (host + behind);
    SchemeEnd(scheme, rest);
    NoneOfFewer(host, {':', '/', '?', '#'}, {'/'});
    UserEndAt(user, host, behind);
    assert rest[|user|..] == host + behind && rest[..|user|] == user;
    NoneOfFewer(host, {':', '/', '?', '#'}, {':', '/', '?'});
    SpanOver(host, behind, {':', '/', '?'});
    assert Span(behind, {':', '/', '?'}) == 0;
    assert (host + behind)[..|host|] == host && (host + behind)[|host|..] == behind;
    hide Find, Span, UserEnd, Lower, DropDot, NormalDomain;
  }

  /** The search for the port passes over the host. */
  lemma ColonBehindHost(scheme: string, host: string, behind: string)
    requires NoneOf(host, {':'})
    ensures DefaultColon(scheme, host + behind) <==> DefaultColon(scheme, behind)
    ensures CutPort(host + behind) == host + CutPort(behind)
  {
    SpanOver(host, behind, {':'});
    var p := Span(behind, {':'});
    Slices(host, behind, p);
    if p < |behind| {
      Regroup(host, behind[..p], behind[p..][PortEnd(behind[p..])..], "");
    }
    hide Span, PortEnd, IsDefaultPort, Lower;
  }

  lemma Slices(a: string, b: string, p: nat)
    requires p <= |b|
    ensures (a + b)[|a| + p..] == b[p..] && (a + b)[..|a| + p] == a + b[..p]
  {
  }

  lemma PortFound(scheme: string, port: string, tail: string)
    requires NoneOf(port, {'/', '?', '#'}) && (tail == "" || tail[0] in {'/', '?', '#'})
    ensures DefaultColon(scheme, ":" + port + tail) <==> IsDefaultPort(Lower(scheme), port)
    ensures CutPort(":" + port + tail) == tail
  {
    var t := ":" + port + tail;
    assert Span(t, {':'}) == 0 && t[0..] == t && t[..0] == "";
    assert t == (":" + port) + tail;
    SpanOver(":" + port, tail, {'/', '?', '#'});
    assert Span(tail, {'/', '?', '#'}) == 0;
    assert t[1..1 + |port|] == port && t[1 + |port|..] == tail;
  }

  /** Cutting a default port removes its three or four characters and no slash. */
  lemma CutShortens(scheme: string, t: string)
    requires DefaultColon(scheme, t)
    ensures |CutPort(t)| < |t|
    ensures NoneOf(CutPort(t), {'/'}) <==> NoneOf(t, {'/'})
  {
    var p := Span(t, {':'});
    var q := PortEnd(t[p..]);
    var port := t[p..][1..q];
    assert t == t[..p] + (t[p..][..q] + t[p..][q..]);
    NoneOfJoin(t[..p], t[p..][q..], {'/'});
    NoneOfJoin(t[..p], t[p..][..q] + t[p..][q..], {'/'});
    NoneOfJoin(t[p..][..q], t[p..][q..], {'/'});
    assert NoneOf(t[p..][..q], {'/'});
  }

  /** Where the port is looked for: behind the user information, or behind the first '@' of
      the path and query when there is none. */
  predicate LooksRight(user: string, behind: string) {
    user != "" || NoneOf(behind, {'@'})
  }

  lemma PortRemoved(scheme: string, user: string, host: string, behind: string)
    requires NoneOf(scheme, {':'}) && UserText(user) && HostText(user, host)
    requires LooksRight(user, behind)
    ensures RemoveDefaultPort(Whole(scheme, user, host, behind)) ==
            Whole(scheme, user, host, if DefaultColon(scheme, behind) then CutPort(behind) else behind)
  {
    var rest := user + (host + behind);
    SchemeEnd(scheme, rest);
    NoneOfFewer(host, {':', '/', '?', '#'}, {':'});
    AtOf(user, host + behind);
    NoneOfJoin(host, behind, {'@'});
    SpanAll(host + behind, {'@'});
    ColonBehindHost(scheme, host, behind);
    assert rest[|user|..] == host + behind && rest[..|user|] == user;
    hide Find, Span, CutPort, DefaultColon;
  }

  lemma AtOf(user: string, rest: string)
    requires UserText(user)
    ensures user != "" ==> Span(user + rest, {'@'}) == |user| - 1
    ensures user == "" ==> user + rest == rest
  {
    if user != "" {
      var u := user[..|user| - 1];
      assert user + rest == u + ("@" + rest);
      SpanOver(u, "@" + rest, {'@'});
      assert Span("@" + rest, {'@'}) == 0;
    }
  }

  /** What stands behind the first '@'. */
  function AfterAt(t: string): string {
    if Span(t, {'@'}) < |t| then t[Span(t, {'@'}) + 1..] else ""
  }

  function UpToAt(t: string): string {
    if Span(t, {'@'}) < |t| then t[..Span(t, {'@'}) + 1] else t
  }

  lemma AtBehindHost(host: string, behind: string) returns (u: nat)
    requires NoneOf(host, {'@'}) && !NoneOf(behind, {'@'})
    ensures Span(host + behind, {'@'}) + 1 == u <= |host + behind|
    ensures (host + behind)[..u] == host + UpToAt(behind) && (host + behind)[u..] == AfterAt(behind)
    ensures UpToAt(behind) + AfterAt(behind) == behind
  {
    var k := Span(behind, {'@'}) + 1;
    SpanAll(behind, {'@'});
    SpanOver(host, behind, {'@'});
    Slices(host, behind, k);
    u := |host| + k;
    assert behind[..k] + behind[k..] == behind;
    hide Span, NoneOf;
  }

  lemma PortLookedForBehindAt(scheme: string, host: string, behind: string)
    requires NoneOf(scheme, {':'}) && NoneOf(host, {'@'}) && !NoneOf(behind, {'@'})
    ensures var after := AfterAt(behind);
            RemoveDefaultPort(Whole(scheme, "", host, behind)) ==
            Whole(scheme, "", host, UpToAt(behind) + if DefaultColon(scheme, after) then CutPort(after) else after)
  {
    var up, after := UpToAt(behind), AfterAt(behind);
    var u := AtBehindHost(host, behind);
    hide Find, Span, CutPort, DefaultColon, AfterAt, UpToAt, NoneOf, RemoveDefaultPort;
    RemovePortAt(scheme, host + behind, u, host + up, after);
    CutRegroup(scheme, host, up, CutPort(after));
    CutRegroup(scheme, host, up, after);
    Regroup(host, up, after, "");
  }

  lemma RemovePortAt(scheme: string, rest: string, u: nat, front: string, after: string)
    requires NoneOf(scheme, {':'})
    requires u == if Span(rest, {'@'}) < |rest| then Span(rest, {'@'}) + 1 else 0
    requires u <= |rest| && rest[..u] == front && rest[u..] == after
    ensures RemoveDefaultPort(scheme + "://" + rest) ==
            if DefaultColon(scheme, after) then scheme + "://" + (front + CutPort(after)) else scheme + "://" + rest
  {
    SchemeEnd(scheme, rest);
    hide *;
    RemovePortFrom(scheme + "://" + rest, scheme, rest, u, front, after);
  }

  /** The step, from where its searches end. */
  lemma RemovePortFrom(s: string, scheme: string, rest: string, u: nat, front: string, after: string)
    requires Find(s, "://", 0) == Some(|scheme|) && |scheme| + 3 <= |s|
    requires s[..|scheme|] == scheme && s[|scheme| + 3..] == rest
    requires u == if Span(rest, {'@'}) < |rest| then Span(rest, {'@'}) + 1 else 0
    requires u <= |rest| && rest[..u] == front && rest[u..] == after
    ensures RemoveDefaultPort(s) ==
            if DefaultColon(scheme, after) then scheme + "://" + (front + CutPort(after)) else s
  {
    hide Find, Span, CutPort, DefaultColon;
  }

  lemma CutRegroup(scheme: string, host: string, up: string, cut: string)
    ensures scheme + "://" + (host + up + cut) == Whole(scheme, "", host, up + cut)
  {
    assert host + up + cut == "" + (host + (up + cut));
  }

  /** A slash is put in front of the query only when there is no slash at all. */
  lemma PathAdded(scheme: string, user: string, host: string, port: string, tail: string)
    requires NoneOf(scheme, {':', '?'}) && UserText(user) && NoneOf(host, {'/', '?'}) && NoneOf(port, {'/', '?'})
    ensures AddPath(Whole(scheme, user, host, port + tail)) ==
            if !NoneOf(tail, {'/'}) then Whole(scheme, user, host, port + tail)
            else Whole(scheme, user, host, port + (tail[..Span(tail, {'?'})] + "/" + tail[Span(tail, {'?'})..]))
  {
    var rest := user + (host + port);
    HeadClean(scheme, user, host, port);
    HeadRegroup(scheme + "://", user, host, port, tail);
    hide UserText, NoneOf, Span, AddPath;
    SlashAdded(scheme, rest, tail);
    var q := Span(tail, {'?'});
    PathRegroup(scheme + "://", user, host, port, tail[..q], tail[q..]);
  }

  lemma SlashAdded(scheme: string, rest: string, tail: string)
    requires NoneOf(scheme, {':', '?'}) && NoneOf(scheme + "://" + rest, {'?'}) && NoneOf(rest, {'/'})
    ensures var h, q := scheme + "://" + rest, Span(tail, {'?'});
            AddPath(h + tail) == if !NoneOf(tail, {'/'}) then h + tail else h + tail[..q] + "/" + tail[q..]
  {
    var h, q := scheme + "://" + rest, Span(tail, {'?'});
    var s, n := h + tail, |scheme| + 3;
    SpanOver(h, tail, {'?'});
    hide NoneOf, Span, Find, FindChar, AddPath;
    assert Find(s, "://", 0) == Some(|scheme|) && (FindChar(s, '/', n).None? <==> NoneOf(tail, {'/'})) by {
      Regroup(scheme + "://", rest, tail, "");
      SchemeOnly(scheme, rest + tail);
      SlashBehind(s, n, rest, tail);
    }
    Slices(h, tail, q);
    AddPathAt(s, |scheme|, |h| + q, h + tail[..q], tail[q..]);
  }

  lemma SchemeOnly(scheme: string, rest: string)
    requires NoneOf(scheme, {':', '?'})
    ensures Find(scheme + "://" + rest, "://", 0) == Some(|scheme|)
    ensures (scheme + "://" + rest)[|scheme| + 3..] == rest
  {
    SchemeEnd(scheme, rest);
  }

  lemma AddPathAt(s: string, e: nat, q: nat, front: string, back: string)
    requires Find(s, "://", 0) == Some(e) && Span(s, {'?'}) == q && s[..q] == front && s[q..] == back
    ensures AddPath(s) == if FindChar(s, '/', e + 3).Some? then s else front + "/" + back
  {
    hide Find, FindChar, Span;
  }

  lemma PathRegroup(scheme: string, user: string, host: string, port: string, a: string, b: string)
    ensures scheme + (user + (host + (port + (a + "/" + b)))) == scheme + (user + (host + port)) + a + "/" + b
  {
  }

  lemma HeadRegroup(scheme: string, user: string, host: string, port: string, tail: string)
    ensures scheme + (user + (host + (port + tail))) == scheme + (user + (host + port)) + tail
  {
  }

  lemma HeadClean(scheme: string, user: string, host: string, port: string)
    requires NoneOf(scheme, {':', '?'}) && UserText(user) && NoneOf(host, {'/', '?'}) && NoneOf(port, {'/', '?'})
    ensures NoneOf(scheme + "://" + (user + (host + port)), {'?'}) && NoneOf(user + (host + port), {'/'})
  {
    assert NoneOf(user, {'?'}) && NoneOf(user, {'/'}) && NoneOf(scheme + "://", {'?'});
    NoneOfJoin(host, port, {'?'});
    NoneOfJoin(host, port, {'/'});
    NoneOfJoin(user, host + port, {'?'});
    NoneOfJoin(user, host + port, {'/'});
    NoneOfJoin(scheme + "://", user + (host + port), {'?'});
  }

  lemma SlashBehind(s: string, n: nat, head: string, tail: string)
    requires n <= |s| && s[n..] == head + tail && NoneOf(head, {'/'})
    ensures FindChar(s, '/', n).None? <==> NoneOf(tail, {'/'})
  {
    NoneOfJoin(head, tail, {'/'});
    NoCharFrom(s, '/', n);
  }

  lemma NoCharFrom(s: string, c: char, n: nat)
    requires n <= |s|
    ensures FindChar(s, c, n).None? <==> NoneOf(s[n..], {c})
  {
    match FindChar(s, c, n)
    case None =>
    case Some(i) => assert s[n..][i - n] == c;
  }
}
