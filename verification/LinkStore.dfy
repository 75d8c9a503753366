/** The tables of links and clicks, the uploaded files, and what they mean together: a map
    from codes to contents with their numbers of accesses. */
module LinkStore {
  import opened Wrappers

  // ------------------------------------------------------------------------------ the tables

  datatype Kind = UrlLink | FileLink

  datatype Link = Link(destination: string, kind: Kind)

  datatype Click = Click(code: string, ip: string, userAgent: string, referrer: string)

  /** The primary key makes the links a map from codes. */
  class Database {
    var links: map<string, Link>
    var clicks: seq<Click>

    constructor ()
      ensures links == map[] && clicks == []
    {
      links, clicks := map[], [];
    }

    /** An insertion fails on an empty code, on a code that exists, or when the database
        cannot store the row. */
    method InsertLink(code: string, destination: string, kind: Kind, stored: bool) returns (ok: bool)
      modifies this`links
      ensures ok == (code != "" && code !in old(links) && stored)
      ensures links == if ok then old(links)[code := Link(destination, kind)] else old(links)
    {
      ok := code != "" && code !in links && stored;
      if ok {
        links := links[code := Link(destination, kind)];
      }
    }

    method GetLink(code: string) returns (r: Option<Link>)
      ensures r == if code in links then Some(links[code]) else None
    {
      r := if code in links then Some(links[code]) else None;
    }

    method CodeExists(code: string) returns (r: bool)
      ensures r == (code in links)
    {
      r := code in links;
    }

    /** Deleting a link deletes its clicks with it. */
    method DeleteLink(code: string, stored: bool) returns (changed: bool)
      modifies this
      ensures changed == (code in old(links) && stored)
      ensures links == if changed then old(links) - {code} else old(links)
      ensures clicks == if changed then Others(old(clicks), code) else old(clicks)
    {
      changed := code in links && stored;
      if changed {
        links := links - {code};
        clicks := Others(clicks, code);
      }
    }

    /** A click must refer to a link. */
    method RecordClick(click: Click, stored: bool) returns (ok: bool)
      modifies this`clicks
      ensures ok == (click.code in links && stored)
      ensures clicks == if ok then old(clicks) + [click] else old(clicks)
    {
      ok := click.code in links && stored;
      if ok {
        clicks := clicks + [click];
      }
    }

    method GetTotalClicks(code: string) returns (n: nat)
      ensures n == Count(clicks, code)
    {
      n := Count(clicks, code);
    }
  }

  function Count(clicks: seq<Click>, code: string): nat {
    if clicks == [] then 0
    else Count(clicks[..|clicks| - 1], code) + if clicks[|clicks| - 1].code == code then 1 else 0
  }

  /** The clicks of other links. */
  function Others(clicks: seq<Click>, code: string): seq<Click> {
    if clicks == [] then []
    else
      var last := clicks[|clicks| - 1];
      Others(clicks[..|clicks| - 1], code) + if last.code == code then [] else [last]
  }

  lemma CountSnoc(clicks: seq<Click>, click: Click, code: string)
    ensures Count(clicks + [click], code) == Count(clicks, code) + if click.code == code then 1 else 0
  {
    assert (clicks + [click])[..|clicks|] == clicks;
  }

  lemma {:induction false} CountOthers(clicks: seq<Click>, gone: string, code: string)
    ensures Count(Others(clicks, gone), code) == if code == gone then 0 else Count(clicks, code)
  {
    if clicks != [] {
      var front, last := clicks[..|clicks| - 1], clicks[|clicks| - 1];
      CountOthers(front, gone, code);
      assert Others(front, gone) + [] == Others(front, gone);
      if last.code != gone {
        CountSnoc(Others(front, gone), last, code);
      }
    }
  }

  lemma {:induction false} OthersAre(clicks: seq<Click>, gone: string, click: Click)
    ensures click in Others(clicks, gone) <==> click in clicks && click.code != gone
  {
    if clicks != [] {
      var front, last := clicks[..|clicks| - 1], clicks[|clicks| - 1];
      OthersAre(front, gone, click);
      assert clicks == front + [last];
    }
  }

  lemma {:induction false} NoClicks(clicks: seq<Click>, code: string)
    requires forall c :: c in clicks ==> c.code != code
    ensures Count(clicks, code) == 0
  {
    if clicks != [] {
      var last := clicks[|clicks| - 1];
      assert last in clicks;
      NoClicks(clicks[..|clicks| - 1], code);
    }
  }

  // -------------------------------------------------------------------------------- the disk

  /** What happens to a file that is written: it cannot be opened, or only part of it is
      written, or all of it. */
  datatype WriteOutcome = NotOpened | Partial(written: string) | Written

  class Disk {
    var files: map<string, string>

    constructor ()
      ensures files == map[]
    {
      files := map[];
    }

    method Write(path: string, data: string, outcome: WriteOutcome) returns (ok: bool)
      modifies this
      ensures ok == outcome.Written?
      ensures files == match outcome
                       case NotOpened => old(files)
                       case Partial(part) => old(files)[path := part]
                       case Written => old(files)[path := data]
    {
      match outcome
      case NotOpened => ok := false;
      case Partial(part) =>
        files := files[path := part];
        ok := false;
      case Written =>
        files := files[path := data];
        ok := true;
    }

    method Remove(path: string, done: bool) returns (ok: bool)
      modifies this
      ensures ok == (path in old(files) && done)
      ensures files == if ok then old(files) - {path} else old(files)
    {
      ok := path in files && done;
      if ok {
        files := files - {path};
      }
    }
  }

  // --------------------------------------------------------------------------- codes and paths

  const LETTERS := "abcdefghijklmnopqrstuvwxyz"
  const CAPITALS := "ABCDEFGHIJKLMNOPQRSTUVWXYZ"
  const DIGITS := "0123456789"
  const CHARSET := LETTERS + CAPITALS + DIGITS
  const CODE_LENGTH := 8

  predicate IsCodeChar(c: char) {
    ('a' <= c <= 'z') || ('A' <= c <= 'Z') || ('0' <= c <= '9')
  }

  predicate IsCode(code: string) {
    |code| == CODE_LENGTH && forall i :: 0 <= i < |code| ==> IsCodeChar(code[i])
  }

  /** The indices one attempt draws from the character set. */
  predicate IsDraw(draw: seq<nat>) {
    |draw| == CODE_LENGTH && forall i :: 0 <= i < |draw| ==> draw[i] < |CHARSET|
  }

  function CodeOf(draw: seq<nat>): string
    requires IsDraw(draw)
  {
    seq(|draw|, i requires 0 <= i < |draw| => CHARSET[draw[i]])
  }

  predicate AreDraws(draws: seq<seq<nat>>) {
    forall i :: 0 <= i < |draws| ==> IsDraw(draws[i])
  }

  /** The first code drawn that is not taken, or the empty text. */
  function FirstFree(draws: seq<seq<nat>>, taken: set<string>): string
    requires AreDraws(draws)
  {
    if draws == [] then ""
    else if CodeOf(draws[0]) !in taken then CodeOf(draws[0])
    else FirstFree(draws[1..], taken)
  }

  lemma CharsetChar(i: nat)
    requires i < |CHARSET|
    ensures IsCodeChar(CHARSET[i])
  {
    assert |LETTERS| == 26 && |CAPITALS| == 26 && |DIGITS| == 10;
    if i < 26 {
      var s := "abcdefghijklmnopqrstuvwxyz";
      assert CHARSET[i] == LETTERS[i] == s[i];
    } else if i < 52 {
      var s := "ABCDEFGHIJKLMNOPQRSTUVWXYZ";
      assert CHARSET[i] == CAPITALS[i - 26] == s[i - 26];
    } else {
      var s := "0123456789";
      assert CHARSET[i] == DIGITS[i - 52] == s[i - 52];
    }
  }

  /** Every letter of either case and every digit can be drawn. */
  lemma CharsetComplete(c: char) returns (i: nat)
    requires IsCodeChar(c)
    ensures i < |CHARSET| == 62 && CHARSET[i] == c
  {
    assert |LETTERS| == 26 && |CAPITALS| == 26 && |DIGITS| == 10;
    if 'a' <= c <= 'z' {
      i := c as int - 'a' as int;
      AlphabetAt("abcdefghijklmnopqrstuvwxyz", 'a', i);
    } else if 'A' <= c <= 'Z' {
      var k := c as int - 'A' as int;
      i := 26 + k;
      AlphabetAt("ABCDEFGHIJKLMNOPQRSTUVWXYZ", 'A', k);
      assert CHARSET[i] == CAPITALS[k];
    } else {
      var k := c as int - '0' as int;
      i := 52 + k;
      AlphabetAt("0123456789", '0', k);
      assert CHARSET[i] == DIGITS[k];
    }
  }

  lemma AlphabetAt(s: string, first: char, k: nat)
    requires s == "abcdefghijklmnopqrstuvwxyz" || s == "ABCDEFGHIJKLMNOPQRSTUVWXYZ" || s == "0123456789"
    requires k < |s| && first == s[0]
    ensures s[k] as int == first as int + k
  {
  }

  /** It is a code and it is free; there is none only when every attempt drew a taken one. */
  lemma {:induction false} FirstFreeIs(draws: seq<seq<nat>>, taken: set<string>)
    requires AreDraws(draws)
    ensures var code := FirstFree(draws, taken);
            && (code != "" ==> IsCode(code) && |code| == 8 && code !in taken)
            && (code == "" <==> forall i :: 0 <= i < |draws| ==> CodeOf(draws[i]) in taken)
  {
    if draws != [] {
      var first := draws[0];
      forall i | 0 <= i < |first|
        ensures IsCodeChar(CHARSET[first[i]])
      {
        CharsetChar(first[i]);
      }
      FirstFreeIs(draws[1..], taken);
      hide IsCodeChar;
      assert |CodeOf(first)| == CODE_LENGTH;
      assert forall i :: 1 <= i < |draws| ==> draws[i] == draws[1..][i - 1];
    }
  }

  /** Where the upload of a code is kept: in a directory of its first two characters, or in
      the upload directory itself when that directory cannot be made. */
  function FilePath(uploadDir: string, code: string, filename: string, made: bool): string
    requires |code| >= 2
  {
    (if made then uploadDir + "/" + code[..2] else uploadDir) + "/" + code + "_" + filename
  }

  /** The file is in the upload directory, or in a directory of the code's first two characters there,
      and its name is the code, an underscore and the file name. */
  lemma PathShape(uploadDir: string, code: string, filename: string, made: bool)
    requires |code| >= 2
    ensures var p, name := FilePath(uploadDir, code, filename, made), code + "_" + filename;
            && |p| == |uploadDir| + 1 + (if made then 3 else 0) + |name|
            && p[..|uploadDir|] == uploadDir && p[|uploadDir|] == '/' && p[|p| - |name|..] == name
            && (made ==> p[|uploadDir| + 1..|uploadDir| + 4] == [code[0], code[1], '/'])
  {
    var p, name := FilePath(uploadDir, code, filename, made), code + "_" + filename;
    assert code[..2] == [code[0], code[1]];
    if made {
      assert p == uploadDir + "/" + [code[0], code[1]] + "/" + name;
    } else {
      assert p == uploadDir + "/" + name;
    }
  }

  /** What stands behind the upload directory. */
  function Below(code: string, filename: string, made: bool): string
    requires |code| >= 2
  {
    if made then code[..2] + "/" + code + "_" + filename else code + "_" + filename
  }

  lemma PathBelow(uploadDir: string, code: string, filename: string, made: bool)
    requires |code| >= 2
    ensures FilePath(uploadDir, code, filename, made)[|uploadDir| + 1..] == Below(code, filename, made)
  {
    var p := FilePath(uploadDir, code, filename, made);
    if made {
      assert p == uploadDir + "/" + (code[..2] + "/" + code + "_" + filename);
    } else {
      assert p == uploadDir + "/" + (code + "_" + filename);
    }
  }

  /** Codes of one length keep their files apart, whatever the file names, and whether or not
      the directories could be made. */
  lemma PathsInjective(uploadDir: string, c1: string, f1: string, m1: bool, c2: string, f2: string, m2: bool)
    requires IsCode(c1) && IsCode(c2)
    ensures FilePath(uploadDir, c1, f1, m1) == FilePath(uploadDir, c2, f2, m2) ==> c1 == c2
  {
    PathBelow(uploadDir, c1, f1, m1);
    PathBelow(uploadDir, c2, f2, m2);
    var b1, b2 := Below(c1, f1, m1), Below(c2, f2, m2);
    BelowShape(c1, f1, m1);
    BelowShape(c2, f2, m2);
    hide FilePath, Below;
    if b1 == b2 {
      assert m1 == m2;
      var k := if m1 then 3 else 0;
      assert b1[k..k + 8] == c1 && b2[k..k + 8] == c2;
    }
  }

  /** The third character tells the two layouts apart. */
  lemma BelowShape(code: string, filename: string, made: bool)
    requires IsCode(code)
    ensures var b, k := Below(code, filename, made), if made then 3 else 0;
            |b| >= k + 8 && b[k..k + 8] == code && (b[2] == '/' <==> made)
  {
    var b := Below(code, filename, made);
    if made {
      assert b == code[..2] + "/" + (code + ("_" + filename));
      assert b[2] == '/';
      assert b[3..] == code + ("_" + filename);
      assert b[3..][..8] == code;
    } else {
      assert b[..8] == code && b[2] == code[2];
      assert IsCodeChar(code[2]);
    }
  }

  // ------------------------------------------------------------------------------- the meaning

  datatype Content = Url(url: string) | File(data: string)

  datatype Entry = Entry(content: Content, accesses: nat)

  /** A path made for this code. */
  ghost predicate PathFor(uploadDir: string, code: string, path: string) {
    |code| >= 2 && exists filename, made :: path == FilePath(uploadDir, code, filename, made)
  }

  ghost predicate LinkOk(uploadDir: string, code: string, link: Link, files: map<string, string>) {
    && IsCode(code)
    && (link.kind == FileLink ==> PathFor(uploadDir, code, link.destination) && link.destination in files)
  }

  /** Links have proper codes, file links have their files, clicks have their links. */
  ghost predicate Consistent(uploadDir: string, links: map<string, Link>, clicks: seq<Click>, files: map<string, string>) {
    && (forall c :: c in links ==> LinkOk(uploadDir, c, links[c], files))
    && (forall click :: click in clicks ==> click.code in links)
  }

  function ContentOf(link: Link, files: map<string, string>): Content {
    if link.kind == UrlLink then Url(link.destination)
    else File(if link.destination in files then files[link.destination] else "")
  }

  /** What the tables and the disk mean. */
  ghost function View(links: map<string, Link>, clicks: seq<Click>, files: map<string, string>): map<string, Entry> {
    map c | c in links :: Entry(ContentOf(links[c], files), Count(clicks, c))
  }

  /** One access more. */
  function Accessed(m: map<string, Entry>, code: string): map<string, Entry> {
    if code in m then m[code := m[code].(accesses := m[code].accesses + 1)] else m
  }

  /** Distinct live file links have distinct paths. */
  lemma DistinctPaths(uploadDir: string, links: map<string, Link>, clicks: seq<Click>, files: map<string, string>,
                      c1: string, c2: string)
    requires Consistent(uploadDir, links, clicks, files) && c1 in links && c2 in links
    requires links[c1].kind == FileLink && links[c2].kind == FileLink
    ensures links[c1].destination == links[c2].destination ==> c1 == c2
  {
    assert LinkOk(uploadDir, c1, links[c1], files) && LinkOk(uploadDir, c2, links[c2], files);
    SamePath(uploadDir, c1, c2, links[c1].destination, links[c2].destination);
  }

  lemma SamePath(uploadDir: string, c1: string, c2: string, p1: string, p2: string)
    requires IsCode(c1) && IsCode(c2) && PathFor(uploadDir, c1, p1) && PathFor(uploadDir, c2, p2)
    ensures p1 == p2 ==> c1 == c2
  {
    var f1, m1 :| p1 == FilePath(uploadDir, c1, f1, m1);
    var f2, m2 :| p2 == FilePath(uploadDir, c2, f2, m2);
    PathsInjective(uploadDir, c1, f1, m1, c2, f2, m2);
  }

  /** What happens to a file of a code that has no link does not matter. */
  lemma ForeignFile(uploadDir: string, links: map<string, Link>, clicks: seq<Click>, files: map<string, string>,
                    files': map<string, string>, code: string, path: string)
    requires Consistent(uploadDir, links, clicks, files)
    requires code !in links && IsCode(code) && PathFor(uploadDir, code, path)
    requires forall p :: p != path ==> (p in files' <==> p in files) && (p in files ==> files'[p] == files[p])
    ensures Consistent(uploadDir, links, clicks, files')
    ensures View(links, clicks, files') == View(links, clicks, files)
  {
    hide PathFor, IsCode, Count;
    forall c | c in links
      ensures LinkOk(uploadDir, c, links[c], files') && ContentOf(links[c], files') == ContentOf(links[c], files)
    {
      assert LinkOk(uploadDir, c, links[c], files);
      if links[c].kind == FileLink {
        SamePath(uploadDir, c, code, links[c].destination, path);
      }
    }
  }

  /** A new link starts without accesses. */
  lemma Inserted(uploadDir: string, links: map<string, Link>, clicks: seq<Click>, files: map<string, string>,
                 code: string, link: Link)
    requires Consistent(uploadDir, links, clicks, files) && code !in links && LinkOk(uploadDir, code, link, files)
    ensures Consistent(uploadDir, links[code := link], clicks, files)
    ensures View(links[code := link], clicks, files) ==
            View(links, clicks, files)[code := Entry(ContentOf(link, files), 0)]
  {
    NoClicks(clicks, code);
    hide LinkOk, Count, ContentOf;
  }

  lemma Clicked(uploadDir: string, links: map<string, Link>, clicks: seq<Click>, files: map<string, string>, click: Click)
    requires Consistent(uploadDir, links, clicks, files) && click.code in links
    ensures Consistent(uploadDir, links, clicks + [click], files)
    ensures View(links, clicks + [click], files) == Accessed(View(links, clicks, files), click.code)
  {
    forall c
      ensures Count(clicks + [click], c) == Count(clicks, c) + if click.code == c then 1 else 0
    {
      CountSnoc(clicks, click, c);
    }
    hide LinkOk, Count, ContentOf;
  }

  lemma DeletedLink(uploadDir: string, links: map<string, Link>, clicks: seq<Click>, files: map<string, string>, code: string)
    requires Consistent(uploadDir, links, clicks, files) && code in links
    ensures Consistent(uploadDir, links - {code}, Others(clicks, code), files)
    ensures View(links - {code}, Others(clicks, code), files) == View(links, clicks, files) - {code}
  {
    hide LinkOk, Count, ContentOf, Others;
    forall c | c in links
      ensures Count(Others(clicks, code), c) == if c == code then 0 else Count(clicks, c)
    {
      CountOthers(clicks, code, c);
    }
    forall click | click in Others(clicks, code)
      ensures click.code in links - {code}
    {
      OthersAre(clicks, code, click);
    }
  }

  // ------------------------------------------------------------------------ files without links

  ghost predicate LeadsTo(links: map<string, Link>, path: string) {
    exists c :: c in links && links[c] == Link(path, FileLink)
  }

  /** Every file on the disk is that of a live file link. */
  ghost predicate NoOrphans(links: map<string, Link>, files: map<string, string>) {
    forall p :: p in files ==> LeadsTo(links, p)
  }

  /** Deleting a link leaves no file behind exactly when it is a URL link. */
  lemma LinkDeletedOrphans(uploadDir: string, links: map<string, Link>, clicks: seq<Click>, files: map<string, string>,
                           code: string)
    requires Consistent(uploadDir, links, clicks, files) && NoOrphans(links, files) && code in links
    ensures NoOrphans(links - {code}, files) <==> links[code].kind == UrlLink
  {
    var rest := links - {code};
    if links[code].kind == UrlLink {
      forall p | p in files
        ensures LeadsTo(rest, p)
      {
        var c :| c in links && links[c] == Link(p, FileLink);
        assert c in rest;
      }
    } else {
      var path := links[code].destination;
      assert LinkOk(uploadDir, code, links[code], files);
      forall c | c in rest
        ensures rest[c] != Link(path, FileLink)
      {
        if links[c].kind == FileLink {
          DistinctPaths(uploadDir, links, clicks, files, c, code);
        }
      }
      assert path in files && !LeadsTo(rest, path);
    }
  }

  /** Deleting it together with its file leaves none. */
  lemma UploadDeletedOrphans(links: map<string, Link>, files: map<string, string>, code: string)
    requires NoOrphans(links, files) && code in links && links[code].kind == FileLink
    ensures NoOrphans(links - {code}, files - {links[code].destination})
  {
    forall p | p in files && p != links[code].destination
      ensures LeadsTo(links - {code}, p)
    {
      var c :| c in links && links[c] == Link(p, FileLink);
      assert c in links - {code};
    }
  }

  /** A file of a code without a link is an orphan. */
  lemma FileAlone(uploadDir: string, links: map<string, Link>, clicks: seq<Click>, files: map<string, string>,
                  code: string, path: string, data: string)
    requires Consistent(uploadDir, links, clicks, files)
    requires code !in links && IsCode(code) && PathFor(uploadDir, code, path)
    ensures !LeadsTo(links, path) && !NoOrphans(links, files[path := data])
    ensures NoOrphans(links, files) ==> path !in files
  {
    forall c | c in links
      ensures links[c] != Link(path, FileLink)
    {
      assert LinkOk(uploadDir, c, links[c], files);
      if links[c].kind == FileLink {
        SamePath(uploadDir, c, code, links[c].destination, path);
      }
    }
    assert path in files[path := data];
  }

  /** A new link, with its file if it has one, leaves none. */
  lemma LinkAddedOrphans(links: map<string, Link>, files: map<string, string>, code: string, link: Link, data: string)
    requires NoOrphans(links, files) && code !in links
    ensures NoOrphans(links[code := link], if link.kind == FileLink then files[link.destination := data] else files)
  {
    var links', files' := links[code := link], if link.kind == FileLink then files[link.destination := data] else files;
    forall p | p in files'
      ensures LeadsTo(links', p)
    {
      if link == Link(p, FileLink) {
        assert code in links' && links'[code] == Link(p, FileLink);
      } else {
        var c :| c in links && links[c] == Link(p, FileLink);
        assert c in links' && links'[c] == Link(p, FileLink);
      }
    }
  }
}
