/** The two services over one database and one disk: shortening URLs and keeping uploads. */
module Services {
  import opened Wrappers
  import opened LinkStore
  import UrlValidator

  // -------------------------------------------------------------------------------- codes

  const MAX_ATTEMPTS := 100

  /** Each character is a draw from the character set. */
  method GenerateCode(draw: seq<nat>) returns (code: string)
    requires IsDraw(draw)
    ensures code == CodeOf(draw)
  {
    code := "";
    while |code| < |draw|
      invariant |code| <= |draw| && code == CodeOf(draw)[..|code|]
    {
      code := code + [CHARSET[draw[|code|]]];
    }
  }

  /** A code that no link has, or the empty text when every attempt drew one that exists. */
  method GenerateUniqueCode(db: Database, draws: seq<seq<nat>>, maxAttempts: nat) returns (code: string)
    requires maxAttempts > 0 && |draws| == maxAttempts && AreDraws(draws)
    ensures code == FirstFree(draws, db.links.Keys)
  {
    var attempt := 0;
    while attempt < maxAttempts
      invariant attempt <= maxAttempts
      invariant FirstFree(draws, db.links.Keys) == FirstFree(draws[attempt..], db.links.Keys)
    {
      assert draws[attempt..][0] == draws[attempt] && draws[attempt..][1..] == draws[attempt + 1..];
      var candidate := GenerateCode(draws[attempt]);
      var exists_ := db.CodeExists(candidate);
      if !exists_ {
        return candidate;
      }
      attempt := attempt + 1;
    }
    code := "";
  }

  // --------------------------------------------------------------------------------- privacy

  function FindLast(s: string, c: char): (r: Option<nat>)
    ensures r.Some? ==> r.value < |s| && s[r.value] == c && c !in s[r.value + 1..]
    ensures r.None? ==> c !in s
  {
    if s == "" then None
    else if s[|s| - 1] == c then Some(|s| - 1)
    else FindLast(s[..|s| - 1], c)
  }

  /** The address without its last part. */
  function TruncateIp(ip: string): string {
    if ip == "" then "0.0.0.0"
    else
      match FindLast(ip, '.')
      case Some(i) => ip[..i] + ".0"
      case None =>
        match FindLast(ip, ':')
        case Some(i) => ip[..i] + "::0"
        case None => "0.0.0.0"
  }

  lemma {:induction false} FindLastIs(s: string, c: char, i: nat)
    requires i < |s| && s[i] == c && forall j :: i < j < |s| ==> s[j] != c
    ensures FindLast(s, c) == Some(i)
  {
    if i < |s| - 1 {
      FindLastIs(s[..|s| - 1], c, i);
    }
  }

  /** An address as it may be stored: what is behind the last dot, or else behind the last colon, is
      replaced; of anything else nothing is kept. */
  ghost predicate LastPartCut(ip: string, stored: string) {
    && (forall i :: 0 <= i < |ip| && ip[i] == '.' && '.' !in ip[i + 1..] ==> stored == ip[..i] + ".0")
    && ('.' !in ip ==> forall i :: 0 <= i < |ip| && ip[i] == ':' && ':' !in ip[i + 1..] ==> stored == ip[..i] + "::0")
    && ('.' !in ip && ':' !in ip ==> stored == "0.0.0.0")
  }

  lemma TruncatedIsCut(ip: string)
    ensures LastPartCut(ip, TruncateIp(ip))
  {
    forall i | 0 <= i < |ip|
      ensures ip[i] == '.' && '.' !in ip[i + 1..] ==> FindLast(ip, '.') == Some(i)
      ensures ip[i] == ':' && ':' !in ip[i + 1..] ==> FindLast(ip, ':') == Some(i)
    {
      OnlyLast(ip, i);
    }
    hide FindLast;
  }

  lemma OnlyLast(ip: string, i: nat)
    requires i < |ip|
    ensures ip[i] !in ip[i + 1..] ==> FindLast(ip, ip[i]) == Some(i)
  {
    if ip[i] !in ip[i + 1..] {
      forall j | i < j < |ip|
        ensures ip[j] != ip[i]
      {
        assert ip[j] == ip[i + 1..][j - i - 1];
      }
      FindLastIs(ip, ip[i], i);
    }
  }

  /** For an address in two parts, and for one without any. */
  lemma CutIs(ip: string, stored: string, front: string, last: string)
    requires LastPartCut(ip, stored)
    ensures ip == front + "." + last && '.' !in last ==> stored == front + ".0"
    ensures ip == front + ":" + last && '.' !in ip && ':' !in last ==> stored == front + "::0"
    ensures '.' !in ip && ':' !in ip ==> stored == "0.0.0.0"
  {
    if ip == front + "." + last && '.' !in last {
      TakenApart(ip, front, '.', last);
      DotCut(ip, stored, |front|);
    }
    if ip == front + ":" + last && '.' !in ip && ':' !in last {
      TakenApart(ip, front, ':', last);
      ColonCut(ip, stored, |front|);
    }
    hide *;
  }

  lemma TakenApart(ip: string, front: string, mark: char, last: string)
    requires ip == front + [mark] + last
    ensures |front| < |ip| && ip[|front|] == mark && ip[..|front|] == front && ip[|front| + 1..] == last
  {
  }

  lemma DotCut(ip: string, stored: string, i: nat)
    requires i < |ip| && ip[i] == '.' && '.' !in ip[i + 1..] && LastPartCut(ip, stored)
    ensures stored == ip[..i] + ".0"
  {
  }

  lemma ColonCut(ip: string, stored: string, i: nat)
    requires i < |ip| && ip[i] == ':' && ':' !in ip[i + 1..] && '.' !in ip && LastPartCut(ip, stored)
    ensures stored == ip[..i] + "::0"
  {
  }

  /** The row of one visit behind the others: its code, what the visitor sent, and the address without
      its last part. */
  ghost predicate VisitAdded(rows: seq<Click>, rows': seq<Click>, code: string, visitor: Visitor) {
    && |rows'| == |rows| + 1 && rows'[..|rows|] == rows
    && var row := rows'[|rows|];
       && row.code == code && row.userAgent == visitor.userAgent && row.referrer == visitor.referrer
       && LastPartCut(visitor.ip, row.ip)
  }

  lemma RowAdded(rows: seq<Click>, click: Click, code: string, visitor: Visitor)
    requires click == Click(code, TruncateIp(visitor.ip), visitor.userAgent, visitor.referrer)
    ensures VisitAdded(rows, rows + [click], code, visitor)
  {
    TruncatedIsCut(visitor.ip);
    hide TruncateIp, LastPartCut;
  }

  /** Addresses that differ in their last part at most. */
  predicate SameButLast(a: string, b: string) {
    a == b || exists i :: 0 <= i < |a| && i < |b| && a[..i + 1] == b[..i + 1] && IsLastMark(a, i) && IsLastMark(b, i)
  }

  predicate IsLastMark(ip: string, i: nat)
    requires i < |ip|
  {
    (ip[i] == '.' && '.' !in ip[i + 1..]) || (ip[i] == ':' && '.' !in ip && ':' !in ip[i + 1..])
  }

  /** What is stored of an address does not depend on its last part. */
  lemma LastPartHidden(a: string, b: string, storedA: string, storedB: string)
    requires LastPartCut(a, storedA) && LastPartCut(b, storedB) && SameButLast(a, b)
    ensures storedA == storedB
  {
    if a == b {
      TruncatedIsCut(a);
      OneCut(a, storedA, storedB);
    } else {
      var i :| 0 <= i < |a| && i < |b| && a[..i + 1] == b[..i + 1] && IsLastMark(a, i) && IsLastMark(b, i);
      assert a[i] == a[..i + 1][i] == b[..i + 1][i] == b[i];
      assert a[..i] == a[..i + 1][..i] == b[..i + 1][..i] == b[..i];
    }
  }

  lemma OneCut(ip: string, x: string, y: string)
    requires LastPartCut(ip, x) && LastPartCut(ip, y)
    ensures x == y
  {
    var dot, colon := FindLast(ip, '.'), FindLast(ip, ':');
    hide FindLast;
    if dot.Some? {
      assert x == ip[..dot.value] + ".0" == y;
    } else if colon.Some? {
      assert x == ip[..colon.value] + "::0" == y;
    }
  }

  // ------------------------------------------------------------------------------- the state

  /** What the generator draws, and how the database and the disk behave, during one call. */
  datatype Env = Env(draws: seq<seq<nat>>, stored: bool, directoryMade: bool, outcome: WriteOutcome, removed: bool)

  predicate GoodEnv(env: Env) {
    |env.draws| == 100 && AreDraws(env.draws)
  }

  datatype Visitor = Visitor(ip: string, userAgent: string, referrer: string)

  ghost predicate Sound(uploadDir: string, db: Database, disk: Disk)
    reads db, disk
  {
    Consistent(uploadDir, db.links, db.clicks, disk.files)
  }

  ghost function Meaning(db: Database, disk: Disk): map<string, Entry>
    reads db, disk
  {
    View(db.links, db.clicks, disk.files)
  }

  function ShortUrl(baseUrl: string, mark: string, code: string): string {
    (if baseUrl != "" && baseUrl[|baseUrl| - 1] == '/' then baseUrl[..|baseUrl| - 1] else baseUrl) + mark + code
  }

  /** A short URL ends in the mark and the code, behind the base without its trailing slash. */
  lemma ShortUrlEnds(base: string, slashed: string, mark: string, code: string)
    requires slashed == base + "/"
    ensures ShortUrl(slashed, mark, code) == base + mark + code
    ensures (base != "" ==> base[|base| - 1] != '/') ==> ShortUrl(base, mark, code) == base + mark + code
  {
    assert slashed[..|slashed| - 1] == base;
  }

  // ---------------------------------------------------------------------------- shortening URLs

  datatype ShortenResult = Refused | Shortened(code: string, shortUrl: string)

  class UrlShorteningService {
    const db: Database
    const baseUrl: string

    constructor (db: Database, baseUrl: string)
      ensures this.db == db && this.baseUrl == baseUrl
    {
      this.db, this.baseUrl := db, baseUrl;
    }

    /** The first free code drawn becomes a link to the normalised URL; a URL that is not
        valid, a hundred taken codes or a row that is not stored change nothing. */
    method ShortenUrl(url: string, acceptable: string -> bool, env: Env, ghost uploadDir: string, ghost disk: Disk)
      returns (result: ShortenResult)
      requires Sound(uploadDir, db, disk) && GoodEnv(env)
      modifies db
      ensures Sound(uploadDir, db, disk)
      ensures var m := old(Meaning(db, disk));
              var code, normalized := FirstFree(env.draws, m.Keys), UrlValidator.Validate(url, acceptable);
              if normalized.None? || code == "" || !env.stored then result == Refused && Meaning(db, disk) == m
              else
                && result == Shortened(code, ShortUrl(baseUrl, "/r/", code))
                && Meaning(db, disk) == m[code := Entry(Url(normalized.value), 0)]
      ensures var was := old(db.links);
              var code, normalized := FirstFree(env.draws, was.Keys), UrlValidator.Validate(url, acceptable);
              db.links == if normalized.None? || code == "" || !env.stored then was
                          else was[code := Link(normalized.value, UrlLink)]
      ensures db.clicks == old(db.clicks)
    {
      ViewKeys(db.links, db.clicks, disk.files);
      hide View, Consistent, FirstFree, UrlValidator.Validate, IsCode;
      var normalized := UrlValidator.ValidateAndNormalize(url, acceptable);
      if normalized.None? {
        return Refused;
      }
      var code := GenerateUniqueCode(db, env.draws, MAX_ATTEMPTS);
      FirstFreeIs(env.draws, db.links.Keys);
      if code == "" {
        return Refused;
      }
      hide *;
      var ok := StoreUrl(code, normalized.value, env.stored, uploadDir, disk);
      if !ok {
        return Refused;
      }
      result := Shortened(code, ShortUrl(baseUrl, "/r/", code));
    }

    /** A free code gets its row, or nothing changes. */
    method StoreUrl(code: string, url: string, stored: bool, ghost uploadDir: string, ghost disk: Disk) returns (ok: bool)
      requires Consistent(uploadDir, db.links, db.clicks, disk.files) && IsCode(code) && code !in db.links
      modifies db
      ensures Consistent(uploadDir, db.links, db.clicks, disk.files) && ok == stored && db.clicks == old(db.clicks)
      ensures View(db.links, db.clicks, disk.files) ==
              if ok then old(View(db.links, db.clicks, disk.files))[code := Entry(Url(url), 0)]
              else old(View(db.links, db.clicks, disk.files))
      ensures db.links == if ok then old(db.links)[code := Link(url, UrlLink)] else old(db.links)
    {
      UrlContent(url, disk.files);
      Inserted(uploadDir, db.links, db.clicks, disk.files, code, Link(url, UrlLink));
      hide Consistent, View, IsCode;
      ok := db.InsertLink(code, url, UrlLink, stored);
    }

    /** The URL of a URL link; other links do not resolve here. */
    method ResolveCode(code: string, ghost disk: Disk) returns (url: Option<string>)
      ensures url == if code in Meaning(db, disk) && Meaning(db, disk)[code].content.Url?
                     then Some(Meaning(db, disk)[code].content.url) else None
    {
      var link := db.GetLink(code);
      url := if link.Some? && link.value.kind == UrlLink then Some(link.value.destination) else None;
    }

    method RecordAccess(code: string, visitor: Visitor, env: Env, ghost uploadDir: string, ghost disk: Disk)
      returns (ok: bool)
      requires Sound(uploadDir, db, disk)
      modifies db
      ensures Sound(uploadDir, db, disk) && ok == (code in old(Meaning(db, disk)) && env.stored)
      ensures Meaning(db, disk) == if ok then Accessed(old(Meaning(db, disk)), code) else old(Meaning(db, disk))
      ensures db.links == old(db.links)
      ensures if ok then VisitAdded(old(db.clicks), db.clicks, code, visitor) else db.clicks == old(db.clicks)
    {
      var exists_ := db.CodeExists(code);
      if !exists_ {
        return false;
      }
      var click := Click(code, TruncateIp(visitor.ip), visitor.userAgent, visitor.referrer);
      ViewKeys(db.links, db.clicks, disk.files);
      hide View, Consistent, TruncateIp, Accessed, VisitAdded;
      Clicked(uploadDir, db.links, db.clicks, disk.files, click);
      RowAdded(db.clicks, click, code, visitor);
      ok := db.RecordClick(click, env.stored);
    }

    method GetStatistics(code: string, ghost uploadDir: string, ghost disk: Disk) returns (total: nat)
      requires Sound(uploadDir, db, disk)
      ensures total == if code in Meaning(db, disk) then Meaning(db, disk)[code].accesses else 0
    {
      total := db.GetTotalClicks(code);
      if code !in db.links {
        NoClicks(db.clicks, code);
      }
    }

    /** A link of either kind goes with its clicks; the file of a file link stays. */
    method DeleteLink(code: string, env: Env, ghost uploadDir: string, ghost disk: Disk) returns (ok: bool)
      requires Sound(uploadDir, db, disk)
      modifies db
      ensures Sound(uploadDir, db, disk) && ok == (code in old(Meaning(db, disk)) && env.stored)
      ensures Meaning(db, disk) == if ok then old(Meaning(db, disk)) - {code} else old(Meaning(db, disk))
      ensures db.links == if code in old(db.links) && env.stored then old(db.links) - {code} else old(db.links)
      ensures db.clicks == if code in old(db.links) && env.stored then Others(old(db.clicks), code) else old(db.clicks)
    {
      if code in db.links {
        DeletedLink(uploadDir, db.links, db.clicks, disk.files, code);
      }
      ok := db.DeleteLink(code, env.stored);
    }
  }

  lemma UrlContent(url: string, files: map<string, string>)
    ensures ContentOf(Link(url, UrlLink), files) == Url(url)
  {
  }

  lemma ViewKeys(links: map<string, Link>, clicks: seq<Click>, files: map<string, string>)
    ensures View(links, clicks, files).Keys == links.Keys
  {
  }

  // ------------------------------------------------------------------------------- uploads

  datatype UploadResult = Rejected | Uploaded(code: string, shortUrl: string, filePath: string)

  /** The links, and the files on the disk. */
  datatype Tables = Tables(links: map<string, Link>, files: map<string, string>)

  /** What an upload leaves behind: nothing, part of a file, a file and its link, or a file
      alone when neither its row is stored nor the clean-up succeeds. */
  function Uploading(uploadDir: string, t: Tables, data: string, accepted: bool, sanitized: string, env: Env): Tables
    requires GoodEnv(env)
  {
    var code := FirstFree(env.draws, t.links.Keys);
    if !accepted || sanitized == "" || |code| < 2 then t
    else
      var path := FilePath(uploadDir, code, sanitized, env.directoryMade);
      match env.outcome
      case NotOpened => t
      case Partial(part) => t.(files := t.files[path := part])
      case Written =>
        if env.stored then Tables(t.links[code := Link(path, FileLink)], t.files[path := data])
        else t.(files := if env.removed then t.files - {path} else t.files[path := data])
  }

  /** The link goes first, and then the file when it can be removed. */
  function DeletingFile(t: Tables, code: string, env: Env): Tables {
    if code in t.links && t.links[code].kind == FileLink && env.stored then
      Tables(t.links - {code}, if env.removed then t.files - {t.links[code].destination} else t.files)
    else t
  }

  class FileUploadService {
    const db: Database
    const disk: Disk
    const uploadDir: string
    const baseUrl: string

    constructor (db: Database, disk: Disk, uploadDir: string, baseUrl: string)
      ensures this.db == db && this.disk == disk && this.uploadDir == uploadDir && this.baseUrl == baseUrl
    {
      this.db, this.disk, this.uploadDir, this.baseUrl := db, disk, uploadDir, baseUrl;
    }

    /** The first free code drawn becomes a link to the bytes; whatever goes wrong with the
        disk or the database, a rejection leaves every other link as it was. */
    method UploadFile(filename: string, data: string, accepted: bool, sanitized: string, env: Env)
      returns (result: UploadResult)
      requires Sound(uploadDir, db, disk) && GoodEnv(env)
      modifies db, disk
      ensures Sound(uploadDir, db, disk)
      ensures var m := old(Meaning(db, disk));
              var code := FirstFree(env.draws, m.Keys);
              if !accepted || sanitized == "" || code == "" || !env.outcome.Written? || !env.stored
              then result == Rejected && Meaning(db, disk) == m
              else
                && |code| >= 2
                && result == Uploaded(code, ShortUrl(baseUrl, "/f/", code),
                                      FilePath(uploadDir, code, sanitized, env.directoryMade))
                && Meaning(db, disk) == m[code := Entry(File(data), 0)]
                && code in db.links && db.links[code] == Link(result.filePath, FileLink)
      ensures Tables(db.links, disk.files) ==
              Uploading(uploadDir, Tables(old(db.links), old(disk.files)), data, accepted, sanitized, env)
      ensures db.clicks == old(db.clicks)
    {
      ViewKeys(db.links, db.clicks, disk.files);
      if !accepted || sanitized == "" {
        return Rejected;
      }
      var code := GenerateUniqueCode(db, env.draws, MAX_ATTEMPTS);
      FirstFreeIs(env.draws, db.links.Keys);
      if code == "" {
        return Rejected;
      }
      var path := FilePath(uploadDir, code, sanitized, env.directoryMade);
      assert PathFor(uploadDir, code, path);
      ghost var links, clicks, files := db.links, db.clicks, disk.files;
      hide View, Consistent, PathFor, FilePath, FirstFree;
      var written := disk.Write(path, data, env.outcome);
      ForeignFile(uploadDir, links, clicks, files, disk.files, code, path);
      if !written {
        return Rejected;
      }
      Inserted(uploadDir, links, clicks, disk.files, code, Link(path, FileLink));
      var ok := db.InsertLink(code, path, FileLink, env.stored);
      if !ok {
        var removed := disk.Remove(path, env.removed);
        ForeignFile(uploadDir, links, clicks, files, disk.files, code, path);
        assert files[path := data] - {path} == files - {path};
        return Rejected;
      }
      result := Uploaded(code, ShortUrl(baseUrl, "/f/", code), path);
    }

    /** The path of a file link, where its bytes are. */
    method GetFilePath(code: string) returns (path: Option<string>)
      requires Sound(uploadDir, db, disk)
      ensures path.Some? <==> code in Meaning(db, disk) && Meaning(db, disk)[code].content.File?
      ensures path.Some? ==>
                && path.value == db.links[code].destination && path.value in disk.files
                && Meaning(db, disk)[code].content == File(disk.files[path.value])
    {
      var link := db.GetLink(code);
      path := None;
      if link.Some? && link.value.kind == FileLink {
        assert LinkOk(uploadDir, code, db.links[code], disk.files);
        path := Some(link.value.destination);
      }
    }

    method GetFileMetadata(code: string) returns (link: Option<Link>)
      ensures link == if code in db.links && db.links[code].kind == FileLink then Some(db.links[code]) else None
      ensures link.Some? <==> code in Meaning(db, disk) && Meaning(db, disk)[code].content.File?
    {
      link := db.GetLink(code);
      if link.Some? && link.value.kind != FileLink {
        link := None;
      }
    }

    method RecordFileAccess(code: string, visitor: Visitor, env: Env) returns (ok: bool)
      requires Sound(uploadDir, db, disk)
      modifies db
      ensures Sound(uploadDir, db, disk)
      ensures ok == (code in old(Meaning(db, disk)) && old(Meaning(db, disk))[code].content.File? && env.stored)
      ensures Meaning(db, disk) == if ok then Accessed(old(Meaning(db, disk)), code) else old(Meaning(db, disk))
      ensures db.links == old(db.links)
      ensures if ok then VisitAdded(old(db.clicks), db.clicks, code, visitor) else db.clicks == old(db.clicks)
    {
      var link := GetFileMetadata(code);
      if link.None? {
        return false;
      }
      ViewKeys(db.links, db.clicks, disk.files);
      hide View, Consistent, TruncateIp, Accessed, VisitAdded;
      var click := Click(code, TruncateIp(visitor.ip), visitor.userAgent, visitor.referrer);
      Clicked(uploadDir, db.links, db.clicks, disk.files, click);
      RowAdded(db.clicks, click, code, visitor);
      ok := db.RecordClick(click, env.stored);
    }

    /** The link goes first; the answer also needs the file to be removed. */
    method DeleteFile(code: string, env: Env) returns (ok: bool)
      requires Sound(uploadDir, db, disk)
      modifies db, disk
      ensures Sound(uploadDir, db, disk)
      ensures var m := old(Meaning(db, disk));
              var deleted := code in m && m[code].content.File? && env.stored;
              && ok == (deleted && env.removed)
              && Meaning(db, disk) == (if deleted then m - {code} else m)
              && (ok ==> old(db.links[code].destination) !in disk.files)
      ensures Tables(db.links, disk.files) == DeletingFile(Tables(old(db.links), old(disk.files)), code, env)
      ensures db.clicks == if code in old(db.links) && old(db.links)[code].kind == FileLink && env.stored
                           then Others(old(db.clicks), code) else old(db.clicks)
    {
      var path := GetFilePath(code);
      if path.None? {
        return false;
      }
      ghost var links, clicks, files := db.links, db.clicks, disk.files;
      DeletedLink(uploadDir, links, clicks, files, code);
      assert LinkOk(uploadDir, code, links[code], files);
      var deleted := db.DeleteLink(code, env.stored);
      if !deleted {
        return false;
      }
      hide View, Consistent, PathFor;
      ok := disk.Remove(path.value, env.removed);
      ForeignFile(uploadDir, db.links, db.clicks, files, disk.files, code, path.value);
    }
  }
}
