/** Validation and normalisation together: what is accepted, and whether it is accepted
    again. */
module UrlValidator {
  import opened Wrappers
  import opened Text
  import opened Url
  import opened UrlPass
  import opened UrlComponents

  predicate IsUrlChar(c: char) {
    if ('A' <= c <= 'Z') || ('a' <= c <= 'z') || ('0' <= c <= '9') then true
    else if c in "-._~:/?#[]@!$&'()*+,;=%" then true
    else if c in "<>\"\\{}|^` " then false
    else 32 as char <= c < 127 as char
  }

  predicate UrlChars(s: string) {
    forall i :: 0 <= i < |s| ==> IsUrlChar(s[i])
  }

  /** The result, or no result when the URL is refused; `acceptable` stands for the checks
      on the normalised text. */
  function Validate(url: string, acceptable: string -> bool): Option<string> {
    if url == "" || !UrlChars(url) then None
    else
      var normalized := Normalize(AddDefaultScheme(url));
      if acceptable(normalized) then Some(normalized) else None
  }

  // ------------------------------------------------------------------- what the checks amount to

  /** The characters of a URL are the visible ones of ASCII, less nine. */
  lemma UrlCharIs(c: char)
    ensures IsUrlChar(c) <==>
            && 33 <= c as int <= 126
            && c != '<' && c != '>' && c != '"' && c != '\\' && c != '{' && c != '}' && c != '|' && c != '^' && c != '`'
  {
    var good, bad := "-._~:/?#[]@!$&'()*+,;=%", "<>\"\\{}|^` ";
    assert c in bad <==> c == '<' || c == '>' || c == '"' || c == '\\' || c == '{' || c == '}' || c == '|' || c == '^' || c == '`'
                         || c == ' ' by {
      assert bad[0] == '<' && bad[1] == '>' && bad[2] == '"' && bad[3] == '\\' && bad[4] == '{' && bad[5] == '}';
      assert bad[6] == '|' && bad[7] == '^' && bad[8] == '`' && bad[9] == ' ';
    }
    if c in good {
      GoodChar(c);
    }
  }

  lemma GoodChar(c: char)
    requires c in "-._~:/?#[]@!$&'()*+,;=%"
    ensures 33 <= c as int <= 126
    ensures c != '<' && c != '>' && c != '"' && c != '\\' && c != '{' && c != '}' && c != '|' && c != '^' && c != '`'
  {
  }

  /** A URL without a scheme is validated as the same text behind "https://". */
  lemma SchemeAssumed(url: string, acceptable: string -> bool)
    requires url != "" && !Contains(url, "://")
    ensures Validate(url, acceptable) == Validate("https://" + url, acceptable)
  {
    var full := "https://" + url;
    assert UrlChars("https://");
    UrlCharsJoin("https://", url);
    assert full[5..8] == "://" && OccursAt(full, "://", 5);
    hide UrlChars, Normalize;
  }

  // -------------------------------------------------------------------------- acceptance

  lemma UrlCharsJoin(a: string, b: string)
    ensures UrlChars(a + b) <==> UrlChars(a) && UrlChars(b)
  {
    if UrlChars(a + b) {
      assert forall i :: 0 <= i < |a| ==> (a + b)[i] == a[i];
      assert forall i :: 0 <= i < |b| ==> (a + b)[|a| + i] == b[i];
    }
  }

  lemma SliceUrlChars(s: string, i: nat)
    requires UrlChars(s) && i <= |s|
    ensures UrlChars(s[..i]) && UrlChars(s[i..])
  {
    assert s == s[..i] + s[i..];
    UrlCharsJoin(s[..i], s[i..]);
  }

  lemma UrlCharsLower(s: string)
    requires UrlChars(s)
    ensures UrlChars(Lower(s)) && UrlChars(DropDot(s))
  {
  }

  /** No rewriting brings in a character that a URL may not have. */
  lemma NormalUrlChars(url: string)
    requires UrlChars(url)
    ensures UrlChars(Normalize(url))
  {
    assert UrlChars(DropFragment(url));
    AuthorityUrlChars(DropFragment(url));
    PortUrlChars(LowerAuthority(DropFragment(url)));
    PathUrlChars(RemoveDefaultPort(LowerAuthority(DropFragment(url))));
    hide UrlChars, DropFragment, LowerAuthority, RemoveDefaultPort, AddPath;
  }

  lemma AuthorityUrlChars(s: string)
    requires UrlChars(s)
    ensures UrlChars(LowerAuthority(s))
  {
    match Find(s, "://", 0)
    case None =>
    case Some(e) =>
      var rest := s[e + 3..];
      var u := UserEnd(rest);
      var d := Span(rest[u..], {':', '/', '?'});
      hide Find, UserEnd, Span, UrlChars, NormalDomain, Lower;
      SliceUrlChars(s, e);
      SliceUrlChars(s, e + 3);
      SliceUrlChars(rest, u);
      SliceUrlChars(rest[u..], d);
      UrlCharsLower(s[..e]);
      DomainUrlChars(rest[u..][..d]);
      UrlCharsJoin(NormalDomain(rest[u..][..d]), rest[u..][d..]);
      ThreeUrlChars(Lower(s[..e]), rest[..u], NormalDomain(rest[u..][..d]) + rest[u..][d..]);
  }

  lemma DomainUrlChars(d: string)
    requires UrlChars(d)
    ensures UrlChars(NormalDomain(d))
  {
    UrlCharsLower(d);
    UrlCharsLower(Lower(d));
    if d != "" && d[0] == '[' {
      match FindChar(d, ']', 0)
      case None =>
      case Some(b) =>
        assert UrlChars(d[1..b]) && UrlChars(d[b + 1..]) && UrlChars("[") && UrlChars("]");
        UrlCharsLower(d[1..b]);
        UrlCharsJoin("[" + Lower(d[1..b]), "]");
        UrlCharsJoin("[", Lower(d[1..b]));
        UrlCharsJoin("[" + Lower(d[1..b]) + "]", d[b + 1..]);
    }
    hide IsUrlChar, Lower, DropDot;
  }

  lemma CutUrlChars(t: string)
    requires UrlChars(t)
    ensures UrlChars(CutPort(t))
  {
    var p := Span(t, {':'});
    if p < |t| {
      var e := PortEnd(t[p..]);
      assert UrlChars(t[..p]) && UrlChars(t[p..][e..]);
      UrlCharsJoin(t[..p], t[p..][e..]);
    }
  }

  lemma PortUrlChars(s: string)
    requires UrlChars(s)
    ensures UrlChars(RemoveDefaultPort(s))
  {
    hide UrlChars, Find, Span, DefaultColon, CutPort;
    var scheme := Find(s, "://", 0);
    if scheme.Some? {
      var e := scheme.value;
      var rest := s[e + 3..];
      SliceUrlChars(s, e);
      SliceUrlChars(s, e + 3);
      var at := Span(rest, {'@'});
      var u := if at < |rest| then at + 1 else 0;
      CutAtUrlChars(s[..e], rest, u);
      assert RemoveDefaultPort(s) ==
             if DefaultColon(s[..e], rest[u..]) then s[..e] + "://" + (rest[..u] + CutPort(rest[u..])) else s;
    }
  }

  lemma CutAtUrlChars(scheme: string, rest: string, u: nat)
    requires UrlChars(scheme) && UrlChars(rest) && u <= |rest|
    ensures UrlChars(scheme + "://" + (rest[..u] + CutPort(rest[u..])))
  {
    hide UrlChars, CutPort;
    SliceUrlChars(rest, u);
    CutUrlChars(rest[u..]);
    ThreeUrlChars(scheme, rest[..u], CutPort(rest[u..]));
  }

  lemma ThreeUrlChars(scheme: string, front: string, back: string)
    requires UrlChars(scheme) && UrlChars(front) && UrlChars(back)
    ensures UrlChars(scheme + "://" + (front + back))
  {
    assert UrlChars("://");
    hide UrlChars;
    UrlCharsJoin(front, back);
    UrlCharsJoin(scheme, "://");
    UrlCharsJoin(scheme + "://", front + back);
  }

  lemma PathUrlChars(s: string)
    requires UrlChars(s)
    ensures UrlChars(AddPath(s))
  {
    var q := Span(s, {'?'});
    assert UrlChars(s[..q]) && UrlChars(s[q..]) && UrlChars("/");
    UrlCharsJoin(s[..q], "/");
    UrlCharsJoin(s[..q] + "/", s[q..]);
    hide UrlChars, Find, Span;
  }

  lemma SchemeAdded(url: string)
    ensures UrlChars(url) ==> UrlChars(AddDefaultScheme(url))
    ensures Contains(url, "://") ==> AddDefaultScheme(url) == url
  {
    UrlCharsJoin("https://", url);
    assert UrlChars("https://");
    hide Find;
  }

  /** What is accepted is accepted again and unchanged exactly for the settled texts, whatever
      its parts look like. */
  lemma AcceptedTwice(url: string, acceptable: string -> bool)
    requires Validate(url, acceptable).Some? && SchemeOk(AddDefaultScheme(url))
    ensures var full := AddDefaultScheme(url);
            var rest := RestOf(full);
            Validate(Validate(url, acceptable).value, acceptable) == Validate(url, acceptable) <==>
            Settled(SchemeOf(full), UserOf(rest), HostOf(rest), BehindOf(rest))
  {
    var full := AddDefaultScheme(url);
    var n := Normalize(full);
    NormalizedOnce(full);
    SchemeAdded(url);
    NormalUrlChars(full);
    NormalHasScheme(full);
    SchemeAdded(n);
    hide Normalize, UrlChars, Contains, AddDefaultScheme, Settled, SchemeOk, UserOf, HostOf, BehindOf, RestOf, SchemeOf;
  }

  /** In terms of components: it is normalised one by one exactly where the guards hold, and is
      accepted again and unchanged exactly for the stable URLs. */
  lemma AcceptedAgain(url: string, c: Parts, acceptable: string -> bool)
    requires AddDefaultScheme(url) == Join(c) && WellFormed(c) && Validate(url, acceptable).Some?
    ensures Validate(url, acceptable) == Some(Join(NormalParts(c))) <==> HostOk(c) && SlashOk(c) && PortOk(c)
    ensures Validate(Validate(url, acceptable).value, acceptable) == Validate(url, acceptable) <==> Stable(c)
  {
    var n := Normalize(Join(c));
    NormalizeIsByComponent(c);
    NormalizeTwice(c);
    SchemeAdded(url);
    NormalUrlChars(Join(c));
    JoinHasScheme(c);
    NormalHasScheme(Join(c));
    SchemeAdded(n);
    hide Normalize, UrlChars, Join, Contains, AddDefaultScheme, Stable, HostOk, SlashOk, PortOk, NormalParts, SchemeOk;
  }

  lemma JoinHasScheme(c: Parts)
    requires WellFormed(c)
    ensures SchemeOk(Join(c))
  {
    FragmentDropped(c);
    NoneOfFewer(c.scheme, {':', '?', '#'}, {':'});
    SchemeEnd(c.scheme, User(c) + (c.host + (Port(c) + Tail(c))));
    hide Join, DropFragment, Find, Span;
  }

  lemma NormalHasScheme(url: string)
    requires SchemeOk(url)
    ensures Normalize(url) != "" && Contains(Normalize(url), "://")
  {
    var s, rest := SchemeOf(url), RestOf(url);
    UrlSplits(url);
    Pass(s, UserOf(rest), HostOf(rest), BehindOf(rest));
    PassSplits(s, UserOf(rest), HostOf(rest), BehindOf(rest));
    NoneOfFewer(Lower(s), {':', '?', '#'}, {':'});
    var h, b := HostAfter(UserOf(rest), HostOf(rest), BehindOf(rest)), BehindAfter(s, UserOf(rest), BehindOf(rest));
    hide Normalize, HostAfter, BehindAfter, Find, NoneOf, UserOf, HostOf, BehindOf, RestOf, SchemeOf, SchemeOk;
    SchemeEnd(Lower(s), UserOf(rest) + (h + b));
  }

  /** A URL that is accepted and does not stay as it is. */
  lemma ChangesAgain(acceptable: string -> bool)
    requires acceptable("http://a.co/x/y:80/") && acceptable("http://a.co/x/y/")
    ensures Validate("http://a.co/x:80/y:80/", acceptable) == Some("http://a.co/x/y:80/")
    ensures Validate("http://a.co/x/y:80/", acceptable) == Some("http://a.co/x/y/")
  {
    hide *;
    PortCutTwice();
    FirstText();
    SecondText();
    Accepted("http://a.co/x:80/y:80/", "http://a.co/x/y:80/", acceptable);
    Accepted("http://a.co/x/y:80/", "http://a.co/x/y/", acceptable);
  }

  lemma Accepted(url: string, n: string, acceptable: string -> bool)
    requires url != "" && UrlChars(url) && AddDefaultScheme(url) == url && Normalize(url) == n && acceptable(n)
    ensures Validate(url, acceptable) == Some(n)
  {
  }

  lemma FirstText()
    ensures var url := "http://a.co/x:80/y:80/"; url != "" && UrlChars(url) && AddDefaultScheme(url) == url
  {
    hide *;
    var rest := "a.co/x:80/y:80/";
    AcceptedHttp(rest);
    assert "http://" + rest == "http://a.co/x:80/y:80/";
  }

  lemma SecondText()
    ensures var url := "http://a.co/x/y:80/"; url != "" && UrlChars(url) && AddDefaultScheme(url) == url
  {
    hide *;
    var rest := "a.co/x/y:80/";
    AcceptedHttp(rest);
    assert "http://" + rest == "http://a.co/x/y:80/";
  }

  lemma UrlMarks()
    ensures IsUrlChar(':') && IsUrlChar('/') && IsUrlChar('.')
  {
    assert "-._~:/"[4] == ':' && "-._~:/"[5] == '/' && "-._~:/"[1] == '.';
  }

  lemma AcceptedHttp(rest: string)
    requires forall i :: 0 <= i < |rest| ==> 'a' <= rest[i] <= 'z' || '0' <= rest[i] <= '9' || rest[i] in {':', '/', '.'}
    ensures UrlChars("http://" + rest) && AddDefaultScheme("http://" + rest) == "http://" + rest
  {
    UrlMarks();
    assert UrlChars(rest) && UrlChars("http://");
    hide UrlChars, AddDefaultScheme;
    HttpScheme(rest);
    UrlCharsJoin("http://", rest);
  }

  lemma HttpScheme(rest: string)
    ensures AddDefaultScheme("http://" + rest) == "http://" + rest
  {
    assert "http" + "://" + rest == "http://" + rest;
    SchemeEnd("http", rest);
  }

  // ------------------------------------------------------------------------ the rewriting
  // Positions behind the scheme are counted from where the authority starts.

  /** find of a character is the span up to it. */
  lemma FindCharSpan(s: string, c: char)
    ensures FindChar(s, c, 0) == if Span(s, {c}) < |s| then Some(Span(s, {c})) else None
  {
    var k := Span(s, {c});
    if k < |s| {
      assert forall j :: 0 <= j < k ==> s[j] == s[..k][j];
      FindCharIs(s, c, 0, k);
    } else {
      SpanAll(s, {c});
      FindCharNone(s, c, 0);
    }
  }

  method NormalizeHost(host: string) returns (domain: string)
    ensures domain == NormalDomain(host)
  {
    domain := host;
    if domain != "" && domain[0] == '[' {
      var bracketEnd := FindChar(domain, ']', 0);
      if bracketEnd.Some? {
        domain := "[" + Lower(domain[1..bracketEnd.value]) + "]" + domain[bracketEnd.value + 1..];
      }
    } else {
      domain := Lower(domain);
      if domain != "" && domain[|domain| - 1] == '.' {
        domain := domain[..|domain| - 1];
      }
    }
  }

  /** Where the domain starts. */
  method FindDomain(rest: string) returns (domainStart: nat)
    ensures domainStart == UserEnd(rest)
  {
    FindCharSpan(rest, '@');
    FindCharSpan(rest, '/');
    domainStart := 0;
    var at := FindChar(rest, '@', 0);
    if at.Some? {
      var slash := FindChar(rest, '/', 0);
      if slash.None? || at.value < slash.value {
        domainStart := at.value + 1;
      }
    }
  }

  method LowerSchemeAndHost(url: string) returns (normalized: string)
    ensures normalized == LowerAuthority(url)
  {
    hide Find, UserEnd, Span, NormalDomain, Lower;
    normalized := url;
    var schemeEnd := Find(normalized, "://", 0);
    if schemeEnd.Some? {
      var scheme := Lower(normalized[..schemeEnd.value]);
      var rest := normalized[schemeEnd.value + 3..];
      var domainStart := FindDomain(rest);
      var domainLength := Span(rest[domainStart..], {':', '/', '?'});
      var domain := NormalizeHost(rest[domainStart..][..domainLength]);
      normalized := scheme + "://" + (rest[..domainStart] + (domain + rest[domainStart..][domainLength..]));
    }
  }

  /** What stands behind the user information, without its first colon's text when that is a
      default port. */
  method CutDefaultPort(scheme: string, t: string) returns (isDefault: bool, r: string)
    ensures isDefault == DefaultColon(scheme, t) && r == if isDefault then CutPort(t) else t
  {
    hide FindChar, Span;
    isDefault, r := false, t;
    FindCharSpan(t, ':');
    var portStart := FindChar(t, ':', 0);
    if portStart.Some? {
      var fromPort := t[portStart.value..];
      var portEnd := Span(fromPort, {'/', '?', '#'});
      assert portEnd == PortEnd(fromPort);
      var port := fromPort[1..portEnd];
      var lower := Lower(scheme);
      isDefault := (lower == "http" && port == "80") || (lower == "https" && port == "443");
      if isDefault {
        r := t[..portStart.value] + fromPort[portEnd..];
      }
    }
  }

  method RemovePort(url: string) returns (r: string)
    ensures r == RemoveDefaultPort(url)
  {
    r := url;
    var schemeEnd := Find(url, "://", 0);
    if schemeEnd.None? {
      return;
    }
    hide Find, FindChar, Span, DefaultColon, CutPort;
    var scheme, rest := url[..schemeEnd.value], url[schemeEnd.value + 3..];
    var domainStart := 0;
    FindCharSpan(rest, '@');
    var at := FindChar(rest, '@', 0);
    if at.Some? {
      domainStart := at.value + 1;
    }
    var isDefault, cut := CutDefaultPort(scheme, rest[domainStart..]);
    if isDefault {
      r := scheme + "://" + (rest[..domainStart] + cut);
    }
  }

  /** The path of a URL that has none. */
  method AddRootPath(url: string) returns (r: string)
    ensures r == AddPath(url)
  {
    hide Find, FindChar, Span;
    r := url;
    var authority := Find(url, "://", 0);
    var from := if authority.Some? then authority.value + 3 else 2;
    var path := FindChar(url, '/', from);
    if path.None? {
      FindCharSpan(url, '?');
      var query := FindChar(url, '?', 0);
      if query.None? {
        assert url[..|url|] == url && url[|url|..] == "" && url + "/" == url + "/" + "";
        r := url + "/";
      } else {
        r := url[..query.value] + "/" + url[query.value..];
      }
    }
  }

  /** The normaliser, one rewriting after the other. */
  method NormalizeUrl(url: string) returns (normalized: string)
    ensures normalized == Normalize(url)
  {
    hide FindChar, LowerAuthority, RemoveDefaultPort, AddPath, Span;
    normalized := url;
    FindCharSpan(url, '#');
    var fragment := FindChar(normalized, '#', 0);
    if fragment.Some? {
      normalized := normalized[..fragment.value];
    }
    assert url[..|url|] == url;
    normalized := LowerSchemeAndHost(normalized);
    normalized := RemovePort(normalized);
    normalized := AddRootPath(normalized);
  }

  method ValidateAndNormalize(url: string, acceptable: string -> bool) returns (r: Option<string>)
    ensures r == Validate(url, acceptable)
  {
    if url == "" {
      return None;
    }
    var i := 0;
    while i < |url|
      invariant 0 <= i <= |url| && UrlChars(url[..i])
    {
      if !IsUrlChar(url[i]) {
        return None;
      }
      assert url[..i + 1] == url[..i] + [url[i]];
      i := i + 1;
    }
    assert url[..|url|] == url;
    var normalized := NormalizeUrl(AddDefaultScheme(url));
    r := if acceptable(normalized) then Some(normalized) else None;
  }
}
