/** Runs of calls to both services over one database and one disk. */
module StoreRuns {
  import opened Wrappers
  import opened LinkStore
  import opened Services

  datatype Call =
    | Shorten(url: string)
    | Upload(filename: string, data: string, accepted: bool, sanitized: string)
    | Resolve(code: string)
    | Fetch(code: string)
    | Visit(code: string, visitor: Visitor)
    | VisitFile(code: string, visitor: Visitor)
    | Total(code: string)
    | Delete(code: string)
    | DeleteUpload(code: string)

  datatype Reply = No | Yes | Made(code: string) | Target(url: string) | Bytes(data: string) | Number(n: nat)

  type Store = map<string, Entry>

  predicate HasUrl(m: Store, code: string) {
    code in m && m[code].content.Url?
  }

  predicate HasFile(m: Store, code: string) {
    code in m && m[code].content.File?
  }

  function YesOrNo(b: bool): Reply {
    if b then Yes else No
  }

  /** The first free code drawn is made for the content, or nothing changes. */
  ghost predicate Makes(m: Store, content: Option<Content>, possible: bool, env: Env, m': Store, reply: Reply)
    requires GoodEnv(env)
  {
    var code := FirstFree(env.draws, m.Keys);
    if content.None? || code == "" || !possible then reply == No && m' == m
    else reply == Made(code) && m' == m[code := Entry(content.value, 0)]
  }

  /** What a call stores when it makes a code. */
  ghost function Stored(call: Call, acceptable: string -> bool): Option<Content> {
    match call
    case Shorten(url) =>
      (match UrlValidator.Validate(url, acceptable) case None => None case Some(n) => Some(Url(n)))
    case Upload(_, data, accepted, sanitized) => if accepted && sanitized != "" then Some(File(data)) else None
    case _ => None
  }

  /** One call on the map. */
  ghost predicate Step(m: Store, call: Call, env: Env, acceptable: string -> bool, m': Store, reply: Reply)
    requires GoodEnv(env)
  {
    match call
    case Shorten(_) => Makes(m, Stored(call, acceptable), env.stored, env, m', reply)
    case Upload(_, _, _, _) =>
      Makes(m, Stored(call, acceptable), env.outcome.Written? && env.stored, env, m', reply)
    case Resolve(c) => m' == m && reply == if HasUrl(m, c) then Target(m[c].content.url) else No
    case Fetch(c) => m' == m && reply == if HasFile(m, c) then Bytes(m[c].content.data) else No
    case Visit(c, _) =>
      var ok := c in m && env.stored;
      m' == (if ok then Accessed(m, c) else m) && reply == YesOrNo(ok)
    case VisitFile(c, _) =>
      var ok := HasFile(m, c) && env.stored;
      m' == (if ok then Accessed(m, c) else m) && reply == YesOrNo(ok)
    case Total(c) => m' == m && reply == Number(if c in m then m[c].accesses else 0)
    case Delete(c) =>
      var ok := c in m && env.stored;
      m' == (if ok then m - {c} else m) && reply == YesOrNo(ok)
    case DeleteUpload(c) =>
      var gone := HasFile(m, c) && env.stored;
      m' == (if gone then m - {c} else m) && reply == YesOrNo(gone && env.removed)
  }

  /** What a call does to the links and the files. */
  function NextTables(uploadDir: string, t: Tables, call: Call, env: Env, acceptable: string -> bool): Tables
    requires GoodEnv(env)
  {
    match call
    case Shorten(url) =>
      var code, normalized := FirstFree(env.draws, t.links.Keys), UrlValidator.Validate(url, acceptable);
      if normalized.None? || code == "" || !env.stored then t
      else t.(links := t.links[code := Link(normalized.value, UrlLink)])
    case Upload(_, data, accepted, sanitized) => Uploading(uploadDir, t, data, accepted, sanitized, env)
    case Delete(c) => if c in t.links && env.stored then t.(links := t.links - {c}) else t
    case DeleteUpload(c) => DeletingFile(t, c, env)
    case _ => t
  }

  /** What a call does to the rows of visits. */
  ghost predicate RowsStep(t: Tables, rows: seq<Click>, call: Call, env: Env, rows': seq<Click>) {
    match call
    case Visit(c, visitor) =>
      if c in t.links && env.stored then VisitAdded(rows, rows', c, visitor) else rows' == rows
    case VisitFile(c, visitor) =>
      if c in t.links && t.links[c].kind == FileLink && env.stored then VisitAdded(rows, rows', c, visitor) else rows' == rows
    case Delete(c) => rows' == if c in t.links && env.stored then Others(rows, c) else rows
    case DeleteUpload(c) =>
      rows' == if c in t.links && t.links[c].kind == FileLink && env.stored then Others(rows, c) else rows
    case _ => rows' == rows
  }

  /** The rows before the first call and after each one. */
  ghost predicate RowsRun(tables: seq<Tables>, rows: seq<seq<Click>>, calls: seq<Call>, envs: seq<Env>) {
    && |tables| == |calls| + 1 && |rows| == |calls| + 1 && |envs| == |calls|
    && forall i :: 0 <= i < |calls| ==> RowsStep(tables[i], rows[i], calls[i], envs[i], rows[i + 1])
  }

  predicate AreGood(envs: seq<Env>) {
    forall i :: 0 <= i < |envs| ==> GoodEnv(envs[i])
  }

  ghost predicate Run(states: seq<Store>, calls: seq<Call>, envs: seq<Env>, acceptable: string -> bool,
                      replies: seq<Reply>)
  {
    && |states| == |calls| + 1 && |replies| == |calls| && |envs| == |calls| && AreGood(envs)
    && forall i :: 0 <= i < |calls| ==> Step(states[i], calls[i], envs[i], acceptable, states[i + 1], replies[i])
  }

  /** The links are those of proper codes and have their files. */
  ghost predicate Proper(uploadDir: string, t: Tables) {
    Consistent(uploadDir, t.links, [], t.files)
  }

  lemma SoundIsProper(uploadDir: string, db: Database, disk: Disk)
    requires Sound(uploadDir, db, disk)
    ensures Proper(uploadDir, Tables(db.links, disk.files))
  {
    hide LinkOk;
  }

  /** The tables before the first call and after each one. */
  ghost predicate TablesRun(uploadDir: string, tables: seq<Tables>, calls: seq<Call>, envs: seq<Env>,
                            acceptable: string -> bool)
  {
    && |tables| == |calls| + 1 && |envs| == |calls| && AreGood(envs)
    && (forall i :: 0 <= i <= |calls| ==> Proper(uploadDir, tables[i]))
    && (forall i :: 0 <= i < |calls| ==>
          tables[i + 1] == NextTables(uploadDir, tables[i], calls[i], envs[i], acceptable))
  }

  /** A visit of a link or of an upload. */
  method ServeVisit(urls: UrlShorteningService, uploads: FileUploadService, call: Call, env: Env, acceptable: string -> bool)
    returns (reply: Reply)
    requires urls.db == uploads.db && Sound(uploads.uploadDir, uploads.db, uploads.disk) && GoodEnv(env)
    requires call.Visit? || call.VisitFile?
    modifies uploads.db
    ensures Sound(uploads.uploadDir, uploads.db, uploads.disk)
    ensures Step(old(Meaning(uploads.db, uploads.disk)), call, env, acceptable, Meaning(uploads.db, uploads.disk), reply)
    ensures uploads.db.links == old(uploads.db.links)
    ensures RowsStep(Tables(old(uploads.db.links), old(uploads.disk.files)), old(uploads.db.clicks), call, env, uploads.db.clicks)
  {
    MeaningOfLinks(uploads.db, uploads.disk);
    hide VisitAdded, Sound, Meaning, Accessed;
    var ok;
    if call.Visit? {
      ok := urls.RecordAccess(call.code, call.visitor, env, uploads.uploadDir, uploads.disk);
    } else {
      ok := uploads.RecordFileAccess(call.code, call.visitor, env);
    }
    reply := YesOrNo(ok);
  }

  /** Every call does what its step says, and keeps the tables and the disk sound. */
  method Serve(urls: UrlShorteningService, uploads: FileUploadService, call: Call, env: Env, acceptable: string -> bool)
    returns (reply: Reply)
    requires urls.db == uploads.db && Sound(uploads.uploadDir, uploads.db, uploads.disk) && GoodEnv(env)
    modifies uploads.db, uploads.disk
    ensures Sound(uploads.uploadDir, uploads.db, uploads.disk)
    ensures Step(old(Meaning(uploads.db, uploads.disk)), call, env, acceptable, Meaning(uploads.db, uploads.disk), reply)
    ensures Tables(uploads.db.links, uploads.disk.files) ==
            NextTables(uploads.uploadDir, Tables(old(uploads.db.links), old(uploads.disk.files)), call, env, acceptable)
    ensures RowsStep(Tables(old(uploads.db.links), old(uploads.disk.files)), old(uploads.db.clicks), call, env, uploads.db.clicks)
  {
    if call.Visit? || call.VisitFile? {
      reply := ServeVisit(urls, uploads, call, env, acceptable);
      hide Step, RowsStep;
      return;
    }
    hide VisitAdded, Others, Sound, Meaning, UrlValidator.Validate, FirstFree, Accessed, FilePath, ShortUrl;
    ghost var dir, disk := uploads.uploadDir, uploads.disk;
    match call
    case Shorten(url) =>
      var r := urls.ShortenUrl(url, acceptable, env, dir, disk);
      reply := if r.Refused? then No else Made(r.code);
    case Upload(filename, data, accepted, sanitized) =>
      var r := uploads.UploadFile(filename, data, accepted, sanitized, env);
      reply := if r.Rejected? then No else Made(r.code);
    case Resolve(c) =>
      var r := urls.ResolveCode(c, disk);
      reply := if r.None? then No else Target(r.value);
    case Fetch(c) =>
      var path := uploads.GetFilePath(c);
      reply := if path.None? then No else Bytes(uploads.disk.files[path.value]);
    case Total(c) =>
      var n := urls.GetStatistics(c, dir, disk);
      reply := Number(n);
    case Delete(c) =>
      var ok := urls.DeleteLink(c, env, dir, disk);
      reply := YesOrNo(ok);
    case DeleteUpload(c) =>
      var ok := uploads.DeleteFile(c, env);
      reply := YesOrNo(ok);
  }

  /** A code means a file exactly when its link is one. */
  lemma MeaningOfLinks(db: Database, disk: Disk)
    ensures Meaning(db, disk).Keys == db.links.Keys
    ensures forall c :: c in db.links ==> (Meaning(db, disk)[c].content.File? <==> db.links[c].kind == FileLink)
  {
  }

  lemma RunStarts(m: Store, acceptable: string -> bool)
    ensures Run([m], [], [], acceptable, [])
  {
  }

  lemma RunExtends(states: seq<Store>, calls: seq<Call>, envs: seq<Env>, acceptable: string -> bool, replies: seq<Reply>,
                   call: Call, env: Env, m': Store, reply: Reply)
    requires Run(states, calls, envs, acceptable, replies) && GoodEnv(env)
    requires Step(states[|calls|], call, env, acceptable, m', reply)
    ensures Run(states + [m'], calls + [call], envs + [env], acceptable, replies + [reply])
  {
    hide Step, GoodEnv;
  }

  lemma TablesExtend(uploadDir: string, tables: seq<Tables>, calls: seq<Call>, envs: seq<Env>, acceptable: string -> bool,
                     call: Call, env: Env, t': Tables)
    requires TablesRun(uploadDir, tables, calls, envs, acceptable) && GoodEnv(env) && Proper(uploadDir, t')
    requires t' == NextTables(uploadDir, tables[|calls|], call, env, acceptable)
    ensures TablesRun(uploadDir, tables + [t'], calls + [call], envs + [env], acceptable)
  {
    hide NextTables, Proper, GoodEnv;
  }

  lemma TablesStart(uploadDir: string, t: Tables, acceptable: string -> bool)
    requires Proper(uploadDir, t)
    ensures TablesRun(uploadDir, [t], [], [], acceptable)
  {
    hide Proper;
  }

  lemma RowsExtend(tables: seq<Tables>, rows: seq<seq<Click>>, calls: seq<Call>, envs: seq<Env>,
                   call: Call, env: Env, t': Tables, rows': seq<Click>)
    requires RowsRun(tables, rows, calls, envs) && RowsStep(tables[|calls|], rows[|calls|], call, env, rows')
    ensures RowsRun(tables + [t'], rows + [rows'], calls + [call], envs + [env])
  {
    hide RowsStep;
  }

  method ServeAll(urls: UrlShorteningService, uploads: FileUploadService, calls: seq<Call>, envs: seq<Env>,
                  acceptable: string -> bool)
    returns (replies: seq<Reply>, ghost states: seq<Store>, ghost tables: seq<Tables>, ghost rows: seq<seq<Click>>)
    requires urls.db == uploads.db && Sound(uploads.uploadDir, uploads.db, uploads.disk)
    requires |envs| == |calls| && AreGood(envs)
    modifies uploads.db, uploads.disk
    ensures Sound(uploads.uploadDir, uploads.db, uploads.disk)
    ensures Run(states, calls, envs, acceptable, replies)
    ensures states[0] == old(Meaning(uploads.db, uploads.disk))
    ensures states[|calls|] == Meaning(uploads.db, uploads.disk)
    ensures TablesRun(uploads.uploadDir, tables, calls, envs, acceptable)
    ensures tables[0] == Tables(old(uploads.db.links), old(uploads.disk.files))
    ensures tables[|calls|] == Tables(uploads.db.links, uploads.disk.files)
    ensures RowsRun(tables, rows, calls, envs) && rows[0] == old(uploads.db.clicks) && rows[|calls|] == uploads.db.clicks
  {
    SoundIsProper(uploads.uploadDir, uploads.db, uploads.disk);
    replies, states := [], [Meaning(uploads.db, uploads.disk)];
    tables, rows := [Tables(uploads.db.links, uploads.disk.files)], [uploads.db.clicks];
    RunStarts(states[0], acceptable);
    TablesStart(uploads.uploadDir, tables[0], acceptable);
    hide Step, Sound, Meaning, NextTables, Proper, GoodEnv, RowsStep;
    for i := 0 to |calls|
      invariant Sound(uploads.uploadDir, uploads.db, uploads.disk)
      invariant Run(states, calls[..i], envs[..i], acceptable, replies)
      invariant states[0] == old(Meaning(uploads.db, uploads.disk)) && states[i] == Meaning(uploads.db, uploads.disk)
      invariant TablesRun(uploads.uploadDir, tables, calls[..i], envs[..i], acceptable)
      invariant tables[0] == Tables(old(uploads.db.links), old(uploads.disk.files))
      invariant tables[i] == Tables(uploads.db.links, uploads.disk.files)
      invariant RowsRun(tables, rows, calls[..i], envs[..i])
      invariant rows[0] == old(uploads.db.clicks) && rows[i] == uploads.db.clicks
    {
      assert calls[..i + 1] == calls[..i] + [calls[i]] && envs[..i + 1] == envs[..i] + [envs[i]];
      var reply := Serve(urls, uploads, calls[i], envs[i], acceptable);
      SoundIsProper(uploads.uploadDir, uploads.db, uploads.disk);
      ghost var m', t' := Meaning(uploads.db, uploads.disk), Tables(uploads.db.links, uploads.disk.files);
      RunExtends(states, calls[..i], envs[..i], acceptable, replies, calls[i], envs[i], m', reply);
      TablesExtend(uploads.uploadDir, tables, calls[..i], envs[..i], acceptable, calls[i], envs[i], t');
      RowsExtend(tables, rows, calls[..i], envs[..i], calls[i], envs[i], t', uploads.db.clicks);
      replies, states, tables := replies + [reply], states + [m'], tables + [t'];
      rows := rows + [uploads.db.clicks];
    }
    assert calls[..|calls|] == calls && envs[..|calls|] == envs;
  }

  // --------------------------------------------------------------------- what holds in a run

  predicate Deletes(call: Call, code: string) {
    match call
    case Delete(c) => c == code
    case DeleteUpload(c) => c == code
    case _ => false
  }

  /** A successful access to a code. */
  predicate Accesses(call: Call, reply: Reply, code: string) {
    match call
    case Visit(c, _) => c == code && reply == Yes
    case VisitFile(c, _) => c == code && reply == Yes
    case _ => false
  }

  function CountAccesses(calls: seq<Call>, replies: seq<Reply>, code: string, from: nat, to: nat): nat
    requires from <= to <= |calls| && |replies| == |calls|
  {
    if from == to then 0
    else CountAccesses(calls, replies, code, from, to - 1) + if Accesses(calls[to - 1], replies[to - 1], code) then 1 else 0
  }

  /** No other call touches an entry. */
  lemma EntryStep(m: Store, call: Call, env: Env, acceptable: string -> bool, m': Store, reply: Reply, code: string)
    requires GoodEnv(env) && Step(m, call, env, acceptable, m', reply) && code in m && !Deletes(call, code)
    ensures code in m' && m'[code].content == m[code].content
    ensures m'[code].accesses == m[code].accesses + if Accesses(call, reply, code) then 1 else 0
  {
    FirstFreeIs(env.draws, m.Keys);
    hide UrlValidator.Validate, FirstFree;
  }

  /** A returned code is new, and holds what was sent without accesses. */
  lemma MadeStep(m: Store, call: Call, env: Env, acceptable: string -> bool, m': Store, reply: Reply, code: string)
    requires GoodEnv(env) && Step(m, call, env, acceptable, m', reply) && reply == Made(code)
    ensures Stored(call, acceptable).Some? && IsCode(code) && code !in m
    ensures code in m' && m'[code] == Entry(Stored(call, acceptable).value, 0)
  {
    FirstFreeIs(env.draws, m.Keys);
    hide UrlValidator.Validate, FirstFree, IsCode;
  }

  /** A code that was returned keeps its content until it is deleted, and its accesses are
      the successful ones since it was made. */
  lemma {:induction false} MadeStays(states: seq<Store>, calls: seq<Call>, envs: seq<Env>, acceptable: string -> bool,
                                     replies: seq<Reply>, code: string, i: nat, j: nat)
    requires Run(states, calls, envs, acceptable, replies) && i < j <= |calls|
    requires replies[i] == Made(code) && forall k :: i < k < j ==> !Deletes(calls[k], code)
    ensures Stored(calls[i], acceptable).Some? && code !in states[i] && code in states[j]
    ensures states[j][code] == Entry(Stored(calls[i], acceptable).value, CountAccesses(calls, replies, code, i + 1, j))
    decreases j
  {
    hide Step, Stored, Deletes, Accesses, GoodEnv, IsCode;
    if j == i + 1 {
      MadeStep(states[i], calls[i], envs[i], acceptable, states[j], replies[i], code);
    } else {
      MadeStays(states, calls, envs, acceptable, replies, code, i, j - 1);
      EntryStep(states[j - 1], calls[j - 1], envs[j - 1], acceptable, states[j], replies[j - 1], code);
    }
  }

  /** What the calls that only read say about an entry. */
  lemma Answered(m: Store, call: Call, env: Env, acceptable: string -> bool, m': Store, reply: Reply, code: string)
    requires GoodEnv(env) && Step(m, call, env, acceptable, m', reply) && code in m
    ensures call == Resolve(code) && m[code].content.Url? ==> reply == Target(m[code].content.url)
    ensures call == Fetch(code) && m[code].content.File? ==> reply == Bytes(m[code].content.data)
    ensures call == Total(code) ==> reply == Number(m[code].accesses)
  {
    hide UrlValidator.Validate, FirstFree, Accessed;
  }

  /** So it resolves to the normalised URL or the uploaded bytes, and its total is exact. */
  lemma MadeIsAnswered(states: seq<Store>, calls: seq<Call>, envs: seq<Env>, acceptable: string -> bool,
                       replies: seq<Reply>, code: string, i: nat, j: nat)
    requires Run(states, calls, envs, acceptable, replies) && i < j < |calls|
    requires replies[i] == Made(code) && forall k :: i < k < j ==> !Deletes(calls[k], code)
    ensures calls[i].Shorten? && calls[j] == Resolve(code) ==>
              UrlValidator.Validate(calls[i].url, acceptable).Some? &&
              replies[j] == Target(UrlValidator.Validate(calls[i].url, acceptable).value)
    ensures calls[i].Upload? && calls[j] == Fetch(code) ==> replies[j] == Bytes(calls[i].data)
    ensures calls[j] == Total(code) ==> replies[j] == Number(CountAccesses(calls, replies, code, i + 1, j))
  {
    hide Step, CountAccesses, UrlValidator.Validate, Deletes, IsCode, GoodEnv;
    MadeStays(states, calls, envs, acceptable, replies, code, i, j);
    Answered(states[j], calls[j], envs[j], acceptable, states[j + 1], replies[j], code);
  }

  // ------------------------------------------------------------------- files that no link leads to

  /** A call leaves a file that no link leads to: it writes one, whole or in part, and makes no
      link to it, or it deletes the link of a file that stays. */
  predicate LeavesFile(t: Tables, call: Call, env: Env)
    requires GoodEnv(env)
  {
    match call
    case Upload(_, _, accepted, sanitized) =>
      && accepted && sanitized != "" && FirstFree(env.draws, t.links.Keys) != ""
      && (env.outcome.Partial? || (env.outcome.Written? && !env.stored && !env.removed))
    case Delete(c) => c in t.links && t.links[c].kind == FileLink && env.stored
    case DeleteUpload(c) => c in t.links && t.links[c].kind == FileLink && env.stored && !env.removed
    case _ => false
  }

  lemma UploadLeaves(uploadDir: string, t: Tables, data: string, accepted: bool, sanitized: string, env: Env)
    requires Proper(uploadDir, t) && NoOrphans(t.links, t.files) && GoodEnv(env)
    ensures var t' := Uploading(uploadDir, t, data, accepted, sanitized, env);
            NoOrphans(t'.links, t'.files) <==> !LeavesFile(t, Upload("", data, accepted, sanitized), env)
  {
    var code := FirstFree(env.draws, t.links.Keys);
    FirstFreeIs(env.draws, t.links.Keys);
    if accepted && sanitized != "" && code != "" {
      var path := FilePath(uploadDir, code, sanitized, env.directoryMade);
      assert PathFor(uploadDir, code, path);
      hide PathFor, FilePath, NoOrphans, Consistent, FirstFree, LeadsTo;
      match env.outcome
      case NotOpened =>
      case Partial(part) => FileAlone(uploadDir, t.links, [], t.files, code, path, part);
      case Written =>
        FileAlone(uploadDir, t.links, [], t.files, code, path, data);
        if env.stored {
          LinkAddedOrphans(t.links, t.files, code, Link(path, FileLink), data);
        } else {
          assert env.removed ==> t.files - {path} == t.files;
        }
    }
  }

  lemma DeleteLeaves(uploadDir: string, t: Tables, code: string, env: Env)
    requires Proper(uploadDir, t) && NoOrphans(t.links, t.files) && GoodEnv(env) && code in t.links && env.stored
    ensures NoOrphans(t.links - {code}, t.files) <==> !LeavesFile(t, Delete(code), env)
    ensures var t' := DeletingFile(t, code, env);
            NoOrphans(t'.links, t'.files) <==> !LeavesFile(t, DeleteUpload(code), env)
  {
    LinkDeletedOrphans(uploadDir, t.links, [], t.files, code);
    hide NoOrphans, Consistent;
    if t.links[code].kind == FileLink {
      UploadDeletedOrphans(t.links, t.files, code);
    }
  }

  /** One call keeps the disk free of such files exactly when it leaves none. */
  lemma StaysClean(uploadDir: string, t: Tables, call: Call, env: Env, acceptable: string -> bool)
    requires Proper(uploadDir, t) && NoOrphans(t.links, t.files) && GoodEnv(env)
    ensures var t' := NextTables(uploadDir, t, call, env, acceptable);
            NoOrphans(t'.links, t'.files) <==> !LeavesFile(t, call, env)
  {
    hide NoOrphans, Proper, UrlValidator.Validate, FirstFree, Uploading;
    match call
    case Shorten(url) =>
      var code, normalized := FirstFree(env.draws, t.links.Keys), UrlValidator.Validate(url, acceptable);
      FirstFreeIs(env.draws, t.links.Keys);
      if normalized.Some? && code != "" {
        LinkAddedOrphans(t.links, t.files, code, Link(normalized.value, UrlLink), "");
      }
    case Upload(_, data, accepted, sanitized) => UploadLeaves(uploadDir, t, data, accepted, sanitized, env);
    case Delete(c) => if c in t.links && env.stored { DeleteLeaves(uploadDir, t, c, env); }
    case DeleteUpload(c) => if c in t.links && env.stored { DeleteLeaves(uploadDir, t, c, env); }
    case _ =>
  }

  /** In every run, all the files have their links after each call exactly when none of the
      calls leaves a file. */
  lemma {:induction false} RunStaysClean(uploadDir: string, tables: seq<Tables>, calls: seq<Call>, envs: seq<Env>,
                                         acceptable: string -> bool, n: nat)
    requires TablesRun(uploadDir, tables, calls, envs, acceptable) && n <= |calls|
    requires NoOrphans(tables[0].links, tables[0].files)
    ensures (forall i :: 0 <= i <= n ==> NoOrphans(tables[i].links, tables[i].files)) <==>
            (forall i :: 0 <= i < n ==> !LeavesFile(tables[i], calls[i], envs[i]))
  {
    hide NoOrphans, Proper, NextTables, LeavesFile, GoodEnv;
    if n > 0 {
      RunStaysClean(uploadDir, tables, calls, envs, acceptable, n - 1);
      var clean := NoOrphans(tables[n].links, tables[n].files);
      if NoOrphans(tables[n - 1].links, tables[n - 1].files) {
        StaysClean(uploadDir, tables[n - 1], calls[n - 1], envs[n - 1], acceptable);
      }
    }
  }

  // ---------------------------------------------------------------------------- what is kept of visitors

  /** Calls that differ in the last parts of visitors' addresses at most. */
  predicate AlikeCalls(a: Call, b: Call) {
    match (a, b)
    case (Visit(c, v), Visit(c', v')) => c == c' && AlikeVisitors(v, v')
    case (VisitFile(c, v), VisitFile(c', v')) => c == c' && AlikeVisitors(v, v')
    case _ => a == b
  }

  predicate AlikeVisitors(v: Visitor, w: Visitor) {
    v.userAgent == w.userAgent && v.referrer == w.referrer && SameButLast(v.ip, w.ip)
  }

  lemma SameRow(rows: seq<Click>, a: seq<Click>, b: seq<Click>, code: string, v: Visitor, w: Visitor)
    requires VisitAdded(rows, a, code, v) && VisitAdded(rows, b, code, w) && AlikeVisitors(v, w)
    ensures a == b
  {
    var n := |rows|;
    LastPartHidden(v.ip, w.ip, a[n].ip, b[n].ip);
    hide LastPartCut, SameButLast;
    assert a == a[..n] + [a[n]] && b == b[..n] + [b[n]];
  }

  lemma SameRowsStep(t: Tables, rows: seq<Click>, a: Call, b: Call, env: Env, rowsA: seq<Click>, rowsB: seq<Click>)
    requires RowsStep(t, rows, a, env, rowsA) && RowsStep(t, rows, b, env, rowsB) && AlikeCalls(a, b)
    ensures rowsA == rowsB
  {
    hide VisitAdded, AlikeVisitors, Others;
    match a
    case Visit(c, v) =>
      if c in t.links && env.stored {
        SameRow(rows, rowsA, rowsB, c, v, b.visitor);
      }
    case VisitFile(c, v) =>
      if c in t.links && t.links[c].kind == FileLink && env.stored {
        SameRow(rows, rowsA, rowsB, c, v, b.visitor);
      }
    case _ =>
  }

  /** Two runs from the same tables that differ in last parts of addresses at most store the same
      rows. */
  lemma {:induction false} SameRows(uploadDir: string, tables: seq<Tables>, tables': seq<Tables>,
                                    rows: seq<seq<Click>>, rows': seq<seq<Click>>, calls: seq<Call>, calls': seq<Call>,
                                    envs: seq<Env>, acceptable: string -> bool, n: nat)
    requires TablesRun(uploadDir, tables, calls, envs, acceptable) && RowsRun(tables, rows, calls, envs)
    requires TablesRun(uploadDir, tables', calls', envs, acceptable) && RowsRun(tables', rows', calls', envs)
    requires |calls| == |calls'| && forall i :: 0 <= i < |calls| ==> AlikeCalls(calls[i], calls'[i])
    requires tables[0] == tables'[0] && rows[0] == rows'[0] && n <= |calls|
    ensures tables[n] == tables'[n] && rows[n] == rows'[n]
  {
    if n > 0 {
      SameRows(uploadDir, tables, tables', rows, rows', calls, calls', envs, acceptable, n - 1);
      var t, a, b := tables[n - 1], calls[n - 1], calls'[n - 1];
      SameTables(uploadDir, t, a, b, envs[n - 1], acceptable);
      hide NextTables, RowsStep, AlikeCalls, Proper, GoodEnv;
      SameRowsStep(t, rows[n - 1], a, b, envs[n - 1], rows[n], rows'[n]);
    }
  }

  lemma SameTables(uploadDir: string, t: Tables, a: Call, b: Call, env: Env, acceptable: string -> bool)
    requires AlikeCalls(a, b) && GoodEnv(env)
    ensures NextTables(uploadDir, t, a, env, acceptable) == NextTables(uploadDir, t, b, env, acceptable)
  {
    hide AlikeVisitors, Uploading, FirstFree, UrlValidator.Validate;
  }
}
