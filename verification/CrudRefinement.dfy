/** The handler over the three maps refines one map from entity and id to body, over any run
    of create, read, update, delete and list requests. */
module CrudRefinement {
  import opened Decimal
  import opened FakeFileSystem
  import opened ApiHandler

  // ------------------------------------------------------------------------ the simple map

  datatype Key = Key(entity: string, id: nat)

  /** The bodies, and the entities that were ever created in. */
  datatype Store = Store(items: map<Key, string>, known: set<string>)

  datatype Op =
    | Create(entity: string, data: string)
    | Update(key: Key, data: string)
    | Read(key: Key)
    | Delete(key: Key)
    | List(entity: string)

  datatype Reply = MadeAt(id: nat) | Changed | Found(body: string) | Gone | Missing | Listed

  /** Entities are non-empty names without slashes; ids count from one. */
  predicate ValidEntity(entity: string) {
    entity != "" && '/' !in entity
  }

  predicate ValidKey(k: Key) {
    ValidEntity(k.entity) && k.id >= 1
  }

  predicate ValidOp(op: Op) {
    match op
    case Create(e, _) => ValidEntity(e)
    case Update(k, _) => ValidKey(k)
    case Read(k) => ValidKey(k)
    case Delete(k) => ValidKey(k)
    case List(e) => ValidEntity(e)
  }

  ghost predicate IsLeastFree(items: map<Key, string>, entity: string, id: nat) {
    && id >= 1 && Key(entity, id) !in items
    && forall j :: 1 <= j < id ==> Key(entity, j) in items
  }

  /** One request on the simple map. */
  ghost predicate Step(s: Store, op: Op, s': Store, reply: Reply) {
    match op
    case Create(e, data) =>
      && reply.MadeAt? && IsLeastFree(s.items, e, reply.id)
      && s' == Store(s.items[Key(e, reply.id) := data], s.known + {e})
    case Update(k, data) =>
      if k in s.items then reply == Changed && s' == s.(items := s.items[k := data])
      else reply == Missing && s' == s
    case Read(k) =>
      s' == s && reply == if k in s.items then Found(s.items[k]) else Missing
    case Delete(k) =>
      if k in s.items then reply == Gone && s' == s.(items := s.items - {k})
      else reply == Missing && s' == s
    case List(e) =>
      s' == s && reply == if e in s.known then Listed else Missing
  }

  // --------------------------------------------------------------------- requests and paths

  function Relative(k: Key): string {
    k.entity + "/" + Digits(k.id)
  }

  /** The HTTP request for an operation. */
  function RequestFor(op: Op): Request {
    match op
    case Create(e, data) => Request("POST", "/api/" + e, data)
    case Update(k, data) => Request("PUT", "/api/" + Relative(k), data)
    case Read(k) => Request("GET", "/api/" + Relative(k), "")
    case Delete(k) => Request("DELETE", "/api/" + Relative(k), "")
    case List(e) => Request("GET", "/api/" + e, "")
  }

  function ResponseFor(reply: Reply, listing: string): Response {
    match reply
    case MadeAt(id) => Created(id)
    case Changed => Updated()
    case Found(body) => Json(body)
    case Gone => Deleted()
    case Missing => NotFound()
    case Listed => Json(listing)
  }

  function DirOf(root: string, entity: string): string {
    root + "/" + entity
  }

  function FileOf(root: string, k: Key): string {
    Numbered(DirOf(root, k.entity), k.id)
  }

  /** An entity and a rest behind its first slash. */
  lemma SplitUnique(e1: string, r1: string, e2: string, r2: string)
    requires '/' !in e1 && '/' !in e2 && e1 + "/" + r1 == e2 + "/" + r2
    ensures e1 == e2 && r1 == r2
  {
    var s1, s2 := e1 + "/" + r1, e2 + "/" + r2;
    assert s1[|e1|] == '/' && s2[|e2|] == '/';
    assert forall i :: 0 <= i < |e1| ==> s1[i] == e1[i];
    assert forall i :: 0 <= i < |e2| ==> s2[i] == e2[i];
    assert |e1| == |e2|;
    assert s1[..|e1|] == e1 && s2[..|e2|] == e2;
    assert s1[|e1| + 1..] == r1 && s2[|e2| + 1..] == r2;
  }

  lemma FileText(root: string, k: Key)
    ensures FileOf(root, k) == root + "/" + Relative(k)
    ensures FileOf(root, k)[|root| + 1..] == Relative(k)
  {
  }

  /** Different items are different files, and none of them is a directory of entities. */
  lemma FilesDistinct(root: string, k1: Key, k2: Key)
    requires ValidKey(k1) && ValidKey(k2)
    ensures FileOf(root, k1) == FileOf(root, k2) <==> k1 == k2
  {
    FileText(root, k1);
    FileText(root, k2);
    if FileOf(root, k1) == FileOf(root, k2) {
      SplitUnique(k1.entity, Digits(k1.id), k2.entity, Digits(k2.id));
      DigitsInjective(k1.id, k2.id);
    }
  }

  lemma FileNotDirectory(root: string, k: Key, entity: string)
    requires '/' !in entity
    ensures FileOf(root, k) != DirOf(root, entity)
  {
    FileText(root, k);
    assert DirOf(root, entity)[|root| + 1..] == entity;
    assert Relative(k)[|k.entity|] == '/';
  }

  lemma DirsDistinct(root: string, e1: string, e2: string)
    ensures DirOf(root, e1) == DirOf(root, e2) <==> e1 == e2
  {
    assert DirOf(root, e1)[|root| + 1..] == e1 && DirOf(root, e2)[|root| + 1..] == e2;
  }

  lemma FileDirectory(root: string, k: Key)
    ensures Directory(FileOf(root, k)) == DirOf(root, k.entity)
  {
    DigitsShape(k.id);
    DirectoryOf(DirOf(root, k.entity), Digits(k.id));
  }

  // -------------------------------------------------------------------------- the refinement

  /** The files are the items. */
  ghost predicate HoldsItems(root: string, files: map<string, string>, items: map<Key, string>) {
    && (forall k :: k in items ==> ValidKey(k) && FileOf(root, k) in files && files[FileOf(root, k)] == items[k])
    && (forall p :: p in files ==> exists k :: k in items && p == FileOf(root, k))
  }

  /** The directories are the entities. */
  ghost predicate HoldsEntities(root: string, directories: map<string, bool>, known: set<string>) {
    && (forall e :: e in known ==> ValidEntity(e) && DirOf(root, e) in directories)
    && (forall p :: p in directories ==> directories[p] && exists e :: e in known && p == DirOf(root, e))
  }

  /** Every file is a regular file, and nothing else is. */
  ghost predicate AllRegular(files: map<string, string>, regular: map<string, bool>) {
    regular.Keys == files.Keys && forall p :: p in regular ==> regular[p]
  }

  /** The three maps hold the items, and nothing else. */
  ghost predicate Refines(root: string, fs: State, s: Store) {
    && HoldsItems(root, fs.files, s.items)
    && HoldsEntities(root, fs.directories, s.known)
    && AllRegular(fs.files, fs.regular)
    && (forall k :: k in s.items ==> k.entity in s.known)
  }

  lemma EmptyRefines(root: string)
    ensures Refines(root, State(map[], map[], map[]), Store(map[], {}))
  {
  }

  /** A file is there exactly when its item is. */
  lemma FileIsItem(root: string, fs: State, s: Store, k: Key)
    requires Refines(root, fs, s) && ValidKey(k)
    ensures FileOf(root, k) in fs.files <==> k in s.items
    ensures FileOf(root, k) !in fs.directories
    ensures fs.Exists(FileOf(root, k)) <==> k in s.items
    ensures fs.IsRegularFile(FileOf(root, k)) <==> k in s.items
    ensures k in s.items ==> fs.files[FileOf(root, k)] == s.items[k]
  {
    var p := FileOf(root, k);
    if p in fs.files {
      var k' :| k' in s.items && p == FileOf(root, k');
      FilesDistinct(root, k, k');
    }
    forall e | e in s.known
      ensures p != DirOf(root, e)
    {
      FileNotDirectory(root, k, e);
    }
  }

  /** A directory is there exactly when something was created in it. */
  lemma DirectoryIsKnown(root: string, fs: State, s: Store, e: string)
    requires Refines(root, fs, s) && ValidEntity(e)
    ensures fs.IsDirectory(DirOf(root, e)) <==> e in s.known
    ensures DirOf(root, e) !in fs.files
  {
    var p := DirOf(root, e);
    if p in fs.directories {
      var e' :| e' in s.known && p == DirOf(root, e');
      DirsDistinct(root, e, e');
    }
    forall k | k in s.items
      ensures p != FileOf(root, k)
    {
      FileNotDirectory(root, k, e);
    }
  }

  lemma WriteItem(root: string, files: map<string, string>, items: map<Key, string>, k: Key, data: string)
    requires HoldsItems(root, files, items) && ValidKey(k)
    ensures HoldsItems(root, files[FileOf(root, k) := data], items[k := data])
  {
    var p := FileOf(root, k);
    var files', items' := files[p := data], items[k := data];
    forall k' | k' in items'
      ensures ValidKey(k') && FileOf(root, k') in files' && files'[FileOf(root, k')] == items'[k']
    {
      FilesDistinct(root, k, k');
    }
    hide FileOf, ValidKey;
    forall q | q in files'
      ensures exists k' :: k' in items' && q == FileOf(root, k')
    {
      if q == p {
        assert k in items';
      } else {
        var k' :| k' in items && q == FileOf(root, k');
        assert k' in items';
      }
    }
  }

  lemma RemoveItem(root: string, files: map<string, string>, items: map<Key, string>, k: Key)
    requires HoldsItems(root, files, items) && k in items
    ensures HoldsItems(root, files - {FileOf(root, k)}, items - {k})
  {
    var p := FileOf(root, k);
    var files', items' := files - {p}, items - {k};
    forall k' | k' in items'
      ensures ValidKey(k') && FileOf(root, k') in files' && files'[FileOf(root, k')] == items'[k']
    {
      FilesDistinct(root, k, k');
    }
    hide FileOf, ValidKey;
    forall q | q in files'
      ensures exists k' :: k' in items' && q == FileOf(root, k')
    {
      var k' :| k' in items && q == FileOf(root, k');
      assert k' in items';
    }
  }

  lemma AddEntity(root: string, directories: map<string, bool>, known: set<string>, e: string)
    requires HoldsEntities(root, directories, known) && ValidEntity(e)
    ensures HoldsEntities(root, directories[DirOf(root, e) := true], known + {e})
  {
    hide DirOf, ValidEntity;
    var d, known' := directories[DirOf(root, e) := true], known + {e};
    forall q | q in d
      ensures d[q] && exists e' :: e' in known' && q == DirOf(root, e')
    {
      if q == DirOf(root, e) {
        assert e in known';
      } else {
        var e' :| e' in known && q == DirOf(root, e');
        assert e' in known';
      }
    }
  }

  lemma WriteRefines(root: string, fs: State, s: Store, k: Key, data: string)
    requires Refines(root, fs, s) && ValidKey(k)
    ensures Refines(root, fs.Overwritten(FileOf(root, k), data), Store(s.items[k := data], s.known + {k.entity}))
  {
    FileDirectory(root, k);
    WriteItem(root, fs.files, s.items, k, data);
    AddEntity(root, fs.directories, s.known, k.entity);
    RegularWritten(fs.files, fs.regular, FileOf(root, k), data);
    hide FileOf, DirOf, Directory, HoldsItems, HoldsEntities, AllRegular, ValidKey;
  }

  lemma RegularWritten(files: map<string, string>, regular: map<string, bool>, path: string, data: string)
    requires AllRegular(files, regular)
    ensures AllRegular(files[path := data], regular[path := true])
    ensures AllRegular(files - {path}, regular - {path})
  {
  }

  lemma RemoveRefines(root: string, fs: State, s: Store, k: Key)
    requires Refines(root, fs, s) && k in s.items
    ensures Refines(root, fs.Removed(FileOf(root, k)), s.(items := s.items - {k}))
  {
    var p := FileOf(root, k);
    FileIsItem(root, fs, s, k);
    RemoveItem(root, fs.files, s.items, k);
    assert fs.directories - {p} == fs.directories;
    RegularWritten(fs.files, fs.regular, p, "");
    hide FileOf, DirOf, HoldsItems, HoldsEntities, AllRegular;
  }

  /** The id found in the maps is the least free one of the simple map. */
  lemma FreeIdIsLeast(root: string, fs: State, s: Store, e: string)
    requires Refines(root, fs, s) && ValidEntity(e)
    ensures IsLeastFree(s.items, e, FreeId(fs, DirOf(root, e), 1))
  {
    var id := FreeId(fs, DirOf(root, e), 1);
    FileIsItem(root, fs, s, Key(e, id));
    forall j | 1 <= j < id
      ensures Key(e, j) in s.items
    {
      FileIsItem(root, fs, s, Key(e, j));
      assert fs.Exists(Numbered(DirOf(root, e), j));
    }
  }

  /** A request does to the maps what its operation does to the simple map. */
  ghost predicate Refined(servingPath: string, root: string, fs: State, s: Store, op: Op, listing: string,
                          s': Store, reply: Reply)
  {
    var r := Respond(servingPath, root, fs, RequestFor(op), listing);
    Step(s, op, s', reply) && Refines(root, r.0, s') && r.1 == ResponseFor(reply, listing)
  }

  lemma CreateRefines(servingPath: string, root: string, fs: State, s: Store, e: string, data: string, listing: string)
    returns (s': Store, reply: Reply)
    requires Refines(root, fs, s) && ValidOp(Create(e, data))
    ensures Refined(servingPath, root, fs, s, Create(e, data), listing, s', reply)
  {
    RequestPath(root, Create(e, data));
    var id := FreeId(fs, DirOf(root, e), 1);
    FreeIdIsLeast(root, fs, s, e);
    s', reply := Store(s.items[Key(e, id) := data], s.known + {e}), MadeAt(id);
    assert FileOf(root, Key(e, id)) == Numbered(DirOf(root, e), id);
    WriteRefines(root, fs, s, Key(e, id), data);
    hide Refines, FileOf, DirOf, PathOf, IsApiUri, IsLeastFree, FreeId, Digits, Numbered;
  }

  lemma UpdateRefines(servingPath: string, root: string, fs: State, s: Store, k: Key, data: string, listing: string)
    returns (s': Store, reply: Reply)
    requires Refines(root, fs, s) && ValidOp(Update(k, data))
    ensures Refined(servingPath, root, fs, s, Update(k, data), listing, s', reply)
  {
    UpdateResponse(servingPath, root, fs, s, k, data, listing);
    ReplyTexts(listing);
    s', reply := UpdateStep(s, k, data);
    hide Refines, FileOf, Respond, RequestFor, Step, ResponseFor;
    if k in s.items {
      UpdateItem(root, fs, s, k, data);
    }
  }

  lemma UpdateStep(s: Store, k: Key, data: string) returns (s': Store, reply: Reply)
    ensures Step(s, Update(k, data), s', reply)
    ensures k in s.items ==> s' == Store(s.items[k := data], s.known) && reply == Changed
    ensures k !in s.items ==> s' == s && reply == Missing
  {
    s', reply := s, Missing;
    if k in s.items {
      s', reply := Store(s.items[k := data], s.known), Changed;
    }
  }

  lemma ReadStep(s: Store, k: Key, listing: string) returns (s': Store, reply: Reply)
    ensures Step(s, Read(k), s', reply) && s' == s
    ensures ResponseFor(reply, listing) == if k in s.items then Json(s.items[k]) else NotFound()
  {
    s', reply := s, if k in s.items then Found(s.items[k]) else Missing;
  }

  lemma DeleteStep(s: Store, k: Key) returns (s': Store, reply: Reply)
    ensures Step(s, Delete(k), s', reply)
    ensures k in s.items ==> s' == s.(items := s.items - {k}) && reply == Gone
    ensures k !in s.items ==> s' == s && reply == Missing
  {
    s', reply := s, Missing;
    if k in s.items {
      s', reply := s.(items := s.items - {k}), Gone;
    }
  }

  lemma ReplyTexts(listing: string)
    ensures ResponseFor(Changed, listing) == Updated() && ResponseFor(Missing, listing) == NotFound()
    ensures ResponseFor(Gone, listing) == Deleted()
  {
  }

  lemma UpdateResponse(servingPath: string, root: string, fs: State, s: Store, k: Key, data: string, listing: string)
    requires Refines(root, fs, s) && ValidKey(k)
    ensures Respond(servingPath, root, fs, RequestFor(Update(k, data)), listing) ==
            if k in s.items then (fs.Overwritten(FileOf(root, k), data), Updated()) else (fs, NotFound())
  {
    RequestPath(root, Update(k, data));
    FileIsItem(root, fs, s, k);
    hide Refines, FileOf, IsApiUri, PathOf, Respond;
    PutResponse(servingPath, root, fs, RequestFor(Update(k, data)), listing);
  }

  lemma UpdateItem(root: string, fs: State, s: Store, k: Key, data: string)
    requires Refines(root, fs, s) && k in s.items
    ensures Refines(root, fs.Overwritten(FileOf(root, k), data), Store(s.items[k := data], s.known))
  {
    assert s.known + {k.entity} == s.known;
    hide Refines;
    WriteRefines(root, fs, s, k, data);
  }

  lemma PutResponse(servingPath: string, root: string, fs: State, req: Request, listing: string)
    requires IsApiUri(req.uri) && req.verb == "PUT"
    ensures var path := PathOf(root, req.uri);
            Respond(servingPath, root, fs, req, listing) ==
            if fs.Exists(path) then (fs.Overwritten(path, req.body), Updated()) else (fs, NotFound())
  {
    hide PathOf, IsApiUri;
  }

  lemma GetResponse(servingPath: string, root: string, fs: State, req: Request, listing: string)
    requires IsApiUri(req.uri) && req.verb == "GET"
    ensures var path := PathOf(root, req.uri);
            && (!fs.Exists(path) ==> Respond(servingPath, root, fs, req, listing) == (fs, NotFound()))
            && (fs.Exists(path) && fs.IsDirectory(path) ==> Respond(servingPath, root, fs, req, listing) == (fs, Json(listing)))
            && (fs.IsRegularFile(path) && !fs.IsDirectory(path) && path in fs.files ==>
                  Respond(servingPath, root, fs, req, listing) == (fs, Json(fs.files[path])))
  {
    hide PathOf, IsApiUri, NotFound, Json, Failed;
  }

  lemma ReadResponse(servingPath: string, root: string, fs: State, s: Store, k: Key, listing: string)
    requires Refines(root, fs, s) && ValidKey(k)
    ensures Respond(servingPath, root, fs, RequestFor(Read(k)), listing) ==
            (fs, if k in s.items then Json(s.items[k]) else NotFound())
  {
    RequestPath(root, Read(k));
    FileIsItem(root, fs, s, k);
    hide Refines, FileOf, IsApiUri, PathOf, Respond, NotFound, Json;
    GetResponse(servingPath, root, fs, RequestFor(Read(k)), listing);
  }

  lemma ReadRefines(servingPath: string, root: string, fs: State, s: Store, k: Key, listing: string)
    returns (s': Store, reply: Reply)
    requires Refines(root, fs, s) && ValidOp(Read(k))
    ensures Refined(servingPath, root, fs, s, Read(k), listing, s', reply)
  {
    ReadResponse(servingPath, root, fs, s, k, listing);
    ReplyTexts(listing);
    s', reply := ReadStep(s, k, listing);
    hide Refines, FileOf, Respond, RequestFor, Step, ResponseFor;
  }

  lemma DeleteRefines(servingPath: string, root: string, fs: State, s: Store, k: Key, listing: string)
    returns (s': Store, reply: Reply)
    requires Refines(root, fs, s) && ValidOp(Delete(k))
    ensures Refined(servingPath, root, fs, s, Delete(k), listing, s', reply)
  {
    DeleteResponse(servingPath, root, fs, s, k, listing);
    ReplyTexts(listing);
    s', reply := DeleteStep(s, k);
    hide Refines, FileOf, Respond, RequestFor, Step, ResponseFor;
    if k in s.items {
      RemoveRefines(root, fs, s, k);
    }
  }

  lemma DeleteAnswer(servingPath: string, root: string, fs: State, req: Request, listing: string)
    requires IsApiUri(req.uri) && req.verb == "DELETE"
    ensures var path := PathOf(root, req.uri);
            Respond(servingPath, root, fs, req, listing) ==
            if !fs.Exists(path) then (fs, NotFound())
            else if !fs.IsRegularFile(path) then (fs, Failed("File is not a regular file and cannot be deleted."))
            else if path !in fs.files then (fs, Failed("Error deleting file."))
            else (fs.Removed(path), Deleted())
  {
    hide PathOf, IsApiUri;
  }

  lemma DeleteResponse(servingPath: string, root: string, fs: State, s: Store, k: Key, listing: string)
    requires Refines(root, fs, s) && ValidKey(k)
    ensures Respond(servingPath, root, fs, RequestFor(Delete(k)), listing) ==
            if k in s.items then (fs.Removed(FileOf(root, k)), Deleted()) else (fs, NotFound())
  {
    RequestPath(root, Delete(k));
    FileIsItem(root, fs, s, k);
    DeleteAnswer(servingPath, root, fs, RequestFor(Delete(k)), listing);
    hide Refines, FileOf, IsApiUri, PathOf, Html, Respond;
  }

  lemma ListRefines(servingPath: string, root: string, fs: State, s: Store, e: string, listing: string)
    returns (s': Store, reply: Reply)
    requires Refines(root, fs, s) && ValidOp(List(e))
    ensures Refined(servingPath, root, fs, s, List(e), listing, s', reply)
  {
    RequestPath(root, List(e));
    DirectoryIsKnown(root, fs, s, e);
    s', reply := s, if e in s.known then Listed else Missing;
    hide Refines, FileOf, DirOf, PathOf, IsApiUri, Html, NotFound, Deleted, Json, Failed;
  }

  /** Every request refines its operation. */
  lemma RespondRefines(servingPath: string, root: string, fs: State, s: Store, op: Op, listing: string)
    returns (s': Store, reply: Reply)
    requires Refines(root, fs, s) && ValidOp(op)
    ensures Refined(servingPath, root, fs, s, op, listing, s', reply)
  {
    hide Refined;
    match op
    case Create(e, data) => s', reply := CreateRefines(servingPath, root, fs, s, e, data, listing);
    case Update(k, data) => s', reply := UpdateRefines(servingPath, root, fs, s, k, data, listing);
    case Read(k) => s', reply := ReadRefines(servingPath, root, fs, s, k, listing);
    case Delete(k) => s', reply := DeleteRefines(servingPath, root, fs, s, k, listing);
    case List(e) => s', reply := ListRefines(servingPath, root, fs, s, e, listing);
  }

  // ------------------------------------------------------ which requests the simple map covers

  /** Some simple map describes the files. */
  ghost predicate Described(root: string, fs: State) {
    exists s: Store :: Refines(root, fs, s)
  }

  /** A PUT on a collection that exists, or a POST to a path with a slash. */
  predicate Escapes(req: Request, known: set<string>) {
    && IsApiUri(req.uri)
    && ((req.verb == "PUT" && req.uri[5..] in known) || (req.verb == "POST" && '/' in req.uri[5..]))
  }

  /** No file that a map describes stands in the place of a collection, or below an item. */
  lemma FileWithoutKey(root: string, rest: string, digits: string, fs: State)
    requires ('/' !in rest && root + "/" + rest in fs.files) ||
             ('/' in rest && root + "/" + rest + "/" + digits in fs.files)
    ensures !Described(root, fs)
  {
    var path := if '/' in rest then root + "/" + rest + "/" + digits else root + "/" + rest;
    forall k | ValidKey(k)
      ensures FileOf(root, k) != path
    {
      FileText(root, k);
      if '/' in rest {
        DeepPath(root, rest, digits, k);
      } else {
        FileNotDirectory(root, k, rest);
      }
    }
    hide FileOf, ValidKey;
    forall s: Store
      ensures !Refines(root, fs, s)
    {
      assert Refines(root, fs, s) ==> exists k :: k in s.items && path == FileOf(root, k);
    }
  }

  /** A path with a slash before its last part is not that of an item. */
  lemma DeepPath(root: string, rest: string, digits: string, k: Key)
    requires '/' in rest && ValidKey(k)
    ensures FileOf(root, k) != root + "/" + rest + "/" + digits
  {
    var i := FirstSlash(rest);
    var e, r := rest[..i], rest[i + 1..];
    FileText(root, k);
    DigitsShape(k.id);
    var path := root + "/" + rest + "/" + digits;
    assert path[|root| + 1..] == rest + "/" + digits == e + "/" + (r + "/" + digits);
    var behind := r + "/" + digits;
    assert behind[|r|] == '/';
    if FileOf(root, k) == path {
      SplitUnique(k.entity, Digits(k.id), e, behind);
    }
  }

  lemma FirstSlash(s: string) returns (i: nat)
    requires '/' in s
    ensures i < |s| && s[i] == '/' && '/' !in s[..i]
  {
    i := 0;
    while s[i] != '/'
      invariant i < |s| && '/' !in s[..i] && '/' in s[i..]
      decreases |s| - i
    {
      assert s[i..] == [s[i]] + s[i + 1..];
      i := i + 1;
    }
  }

  /** A request leaves files that a simple map describes exactly when it does not escape. */
  lemma StaysDescribed(servingPath: string, root: string, fs: State, s: Store, req: Request, listing: string)
    requires Refines(root, fs, s)
    ensures Described(root, Respond(servingPath, root, fs, req, listing).0) <==> !Escapes(req, s.known)
  {
    var fs' := Respond(servingPath, root, fs, req, listing).0;
    if !IsApiUri(req.uri) {
    } else if req.verb == "POST" {
      PostDescribed(servingPath, root, fs, s, req, listing);
    } else if req.verb == "PUT" {
      PutDescribed(servingPath, root, fs, s, req, listing);
    } else if req.verb == "DELETE" {
      DeleteDescribed(servingPath, root, fs, s, req, listing);
    } else {
      assert fs' == fs;
    }
  }

  lemma ApiUri(uri: string)
    requires IsApiUri(uri)
    ensures uri == "/api/" + uri[5..] && uri[5..] != ""
  {
  }

  lemma PostDescribed(servingPath: string, root: string, fs: State, s: Store, req: Request, listing: string)
    requires Refines(root, fs, s) && IsApiUri(req.uri) && req.verb == "POST"
    ensures Described(root, Respond(servingPath, root, fs, req, listing).0) <==> '/' !in req.uri[5..]
  {
    var rest := req.uri[5..];
    var fs' := Respond(servingPath, root, fs, req, listing).0;
    ApiUri(req.uri);
    if '/' in rest {
      var path := PathOf(root, req.uri);
      var id := FreeId(fs, path, 1);
      hide Refines, FreeId;
      assert root + "/" + rest + "/" + Digits(id) in fs'.files;
      FileWithoutKey(root, rest, Digits(id), fs');
    } else {
      assert req == RequestFor(Create(rest, req.body));
      hide Respond, RequestFor, Refines;
      var s', reply := CreateRefines(servingPath, root, fs, s, rest, req.body, listing);
      assert Refines(root, fs', s');
    }
  }

  lemma PutDescribed(servingPath: string, root: string, fs: State, s: Store, req: Request, listing: string)
    requires Refines(root, fs, s) && IsApiUri(req.uri) && req.verb == "PUT"
    ensures Described(root, Respond(servingPath, root, fs, req, listing).0) <==> req.uri[5..] !in s.known
  {
    var rest, path := req.uri[5..], PathOf(root, req.uri);
    var fs' := Respond(servingPath, root, fs, req, listing).0;
    PutResponse(servingPath, root, fs, req, listing);
    hide Respond;
    if rest in s.known {
      PutOnKnown(root, fs, s, rest, req.body);
    } else if fs.Exists(path) {
      var k := KnownPath(root, fs, s, rest);
      hide FileOf, PathOf, Refines;
      UpdateItem(root, fs, s, k, req.body);
      assert Refines(root, fs', Store(s.items[k := req.body], s.known));
    } else {
      hide Refines;
      assert Refines(root, fs', s);
    }
  }

  /** A collection that exists is a path that exists, and a file in its place has no key. */
  lemma PutOnKnown(root: string, fs: State, s: Store, rest: string, body: string)
    requires Refines(root, fs, s) && rest in s.known
    ensures var path := root + "/" + rest;
            fs.Exists(path) && !Described(root, fs.Overwritten(path, body))
  {
    var path := root + "/" + rest;
    assert ValidEntity(rest) && path == DirOf(root, rest);
    DirectoryIsKnown(root, fs, s, rest);
    hide Refines, Described;
    FileWithoutKey(root, rest, "", fs.Overwritten(path, body));
  }

  /** What exists and is not a collection is an item. */
  lemma KnownPath(root: string, fs: State, s: Store, rest: string) returns (k: Key)
    requires Refines(root, fs, s) && rest !in s.known && fs.Exists(root + "/" + rest)
    ensures k in s.items && root + "/" + rest == FileOf(root, k)
  {
    var path := root + "/" + rest;
    if path !in fs.files {
      var e :| e in s.known && path == DirOf(root, e);
      DirsDistinct(root, e, rest);
    }
    hide FileOf, ValidKey, DirOf;
    k :| k in s.items && path == FileOf(root, k);
  }

  lemma DeleteDescribed(servingPath: string, root: string, fs: State, s: Store, req: Request, listing: string)
    requires Refines(root, fs, s) && IsApiUri(req.uri) && req.verb == "DELETE"
    ensures Described(root, Respond(servingPath, root, fs, req, listing).0)
  {
    var path := PathOf(root, req.uri);
    DeleteAnswer(servingPath, root, fs, req, listing);
    hide Respond, FileOf, DirOf, PathOf;
    if fs.Exists(path) && fs.IsRegularFile(path) && path in fs.files {
      FileRemoved(root, fs, s, path);
    } else {
      hide Refines;
      assert Refines(root, fs, s);
    }
  }

  lemma FileRemoved(root: string, fs: State, s: Store, path: string)
    requires Refines(root, fs, s) && path in fs.files
    ensures Described(root, fs.Removed(path))
  {
    hide FileOf, DirOf;
    var k :| k in s.items && path == FileOf(root, k);
    RemoveRefines(root, fs, s, k);
    hide Refines;
    assert Refines(root, fs.Removed(path), s.(items := s.items - {k}));
  }

  /** From the empty file system two requests get there: what was created as a collection is
      overwritten as a file. */
  lemma CollectionOverwritten(servingPath: string, root: string, first: string, second: string, listing: string)
    ensures var fs := Respond(servingPath, root, State(map[], map[], map[]), Request("POST", "/api/A", first), listing).0;
            var r := Respond(servingPath, root, fs, Request("PUT", "/api/A", second), listing);
            Described(root, fs) && r.1 == Updated() && !Described(root, r.0)
  {
    var s' := CollectionMade(servingPath, root, first, listing);
    var fs := Respond(servingPath, root, State(map[], map[], map[]), Request("POST", "/api/A", first), listing).0;
    var put := Request("PUT", "/api/A", second);
    CollectionUri(root);
    assert Described(root, fs) by {
      hide Respond, Refines;
      assert Refines(root, fs, s');
    }
    hide Respond, Refines, Described, IsApiUri, PathOf, DirOf, ValidEntity;
    PutDescribed(servingPath, root, fs, s', put, listing);
    PutResponse(servingPath, root, fs, put, listing);
    DirectoryIsKnown(root, fs, s', "A");
  }

  lemma CollectionUri(root: string)
    ensures "/api/A"[5..] == "A" && IsApiUri("/api/A") && PathOf(root, "/api/A") == DirOf(root, "A")
  {
  }

  lemma CollectionMade(servingPath: string, root: string, first: string, listing: string) returns (s': Store)
    ensures var fs := Respond(servingPath, root, State(map[], map[], map[]), Request("POST", "/api/A", first), listing).0;
            Refines(root, fs, s') && "A" in s'.known && ValidEntity("A")
  {
    EmptyRefines(root);
    assert "/api/" + "A" == "/api/A" && ValidEntity("A");
    var reply;
    s', reply := CreateRefines(servingPath, root, State(map[], map[], map[]), Store(map[], {}), "A", first, listing);
    hide Respond, Refines, FreeId;
  }

  lemma RequestPath(root: string, op: Op)
    requires ValidOp(op)
    ensures IsApiUri(RequestFor(op).uri)
    ensures PathOf(root, RequestFor(op).uri) ==
            match op
            case Create(e, _) => DirOf(root, e)
            case Update(k, _) => FileOf(root, k)
            case Read(k) => FileOf(root, k)
            case Delete(k) => FileOf(root, k)
            case List(e) => DirOf(root, e)
  {
    var uri := RequestFor(op).uri;
    var rest := match op
      case Create(e, _) => e
      case Update(k, _) => Relative(k)
      case Read(k) => Relative(k)
      case Delete(k) => Relative(k)
      case List(e) => e;
    assert uri == "/api/" + rest && uri[..5] == "/api/" && uri[5..] == rest;
    match op
    case Update(k, _) => FileText(root, k);
    case Read(k) => FileText(root, k);
    case Delete(k) => FileText(root, k);
    case _ =>
  }

  // ------------------------------------------------------------------------------- whole runs

  /** A run of the simple map: the states between the requests and the replies to them. */
  ghost predicate Run(states: seq<Store>, ops: seq<Op>, replies: seq<Reply>) {
    && |states| == |ops| + 1 && |replies| == |ops|
    && forall i :: 0 <= i < |ops| ==> Step(states[i], ops[i], states[i + 1], replies[i])
  }

  predicate AllValid(ops: seq<Op>) {
    forall op :: op in ops ==> ValidOp(op)
  }

  lemma TakeOne(ops: seq<Op>, i: nat)
    requires AllValid(ops) && i < |ops|
    ensures ValidOp(ops[i]) && ops[..i + 1] == ops[..i] + [ops[i]] && |ops[..i]| == i
  {
  }

  ghost predicate Answers(responses: seq<Response>, replies: seq<Reply>, listings: seq<string>) {
    && |responses| == |replies| <= |listings|
    && forall i :: 0 <= i < |responses| ==> responses[i] == ResponseFor(replies[i], listings[i])
  }

  lemma AnswersExtend(responses: seq<Response>, replies: seq<Reply>, listings: seq<string>, response: Response, reply: Reply)
    requires |responses| < |listings| && Answers(responses, replies, listings)
    requires response == ResponseFor(reply, listings[|responses|])
    ensures Answers(responses + [response], replies + [reply], listings)
  {
    hide ResponseFor;
  }

  lemma RunExtends(states: seq<Store>, ops: seq<Op>, replies: seq<Reply>, op: Op, s': Store, reply: Reply)
    requires Run(states, ops, replies) && |states| > 0 && Step(states[|states| - 1], op, s', reply)
    ensures Run(states + [s'], ops + [op], replies + [reply])
  {
    hide Step;
  }

  /** One request sent to the handler. */
  method ServeOne(handler: ApiHandler, op: Op, listing: string, ghost s: Store)
    returns (response: Response, ghost s': Store, ghost reply: Reply)
    requires Refines(handler.root, handler.fs.Contents(), s) && ValidOp(op)
    modifies handler.fs
    ensures Refines(handler.root, handler.fs.Contents(), s') && Step(s, op, s', reply)
    ensures response == ResponseFor(reply, listing)
  {
    hide Step, Refines, ResponseFor, RequestFor, Respond, ValidOp;
    s', reply := RespondRefines(handler.servingPath, handler.root, handler.fs.Contents(), s, op, listing);
    response := handler.HandleRequest(RequestFor(op), listing);
  }

  /** Sending the requests one after the other to a handler over an empty file system. */
  method Serve(handler: ApiHandler, ops: seq<Op>, listings: seq<string>)
    returns (responses: seq<Response>, ghost states: seq<Store>, ghost replies: seq<Reply>)
    requires handler.fs.Contents() == State(map[], map[], map[])
    requires |listings| == |ops| && AllValid(ops)
    modifies handler.fs
    ensures Run(states, ops, replies) && |states| == |ops| + 1 && states[0] == Store(map[], {})
    ensures Answers(responses, replies, listings) && |responses| == |ops|
    ensures Refines(handler.root, handler.fs.Contents(), states[|ops|])
  {
    EmptyRefines(handler.root);
    assert Run([Store(map[], {})], ops[..0], []) && Answers([], [], listings);
    hide Step, Run, Refines, ResponseFor, ValidOp, Answers, AllValid;
    responses, states, replies := [], [Store(map[], {})], [];
    for i := 0 to |ops|
      invariant Run(states, ops[..i], replies) && |states| == i + 1 && states[0] == Store(map[], {})
      invariant Answers(responses, replies, listings) && |responses| == i
      invariant Refines(handler.root, handler.fs.Contents(), states[i])
    {
      TakeOne(ops, i);
      ghost var s', reply;
      var response;
      response, s', reply := ServeOne(handler, ops[i], listings[i], states[i]);
      RunExtends(states, ops[..i], replies, ops[i], s', reply);
      AnswersExtend(responses, replies, listings, response, reply);
      responses, states, replies := responses + [response], states + [s'], replies + [reply];
    }
    assert ops[..|ops|] == ops;
  }

  /** The operations that change what is under a key. */
  predicate Touches(op: Op, k: Key) {
    match op
    case Update(k', _) => k' == k
    case Delete(k') => k' == k
    case _ => false
  }

  /** What was created is read back until it is updated or deleted, and creating elsewhere
      overwrites nothing. */
  lemma {:induction false} CreatedIsReadBack(states: seq<Store>, ops: seq<Op>, replies: seq<Reply>, i: nat, j: nat)
    requires Run(states, ops, replies) && i < j <= |ops| && ops[i].Create? && replies[i].MadeAt?
    requires var k := Key(ops[i].entity, replies[i].id); forall m :: i < m < j ==> !Touches(ops[m], k)
    ensures var k := Key(ops[i].entity, replies[i].id);
            && k !in states[i].items
            && k in states[j].items && states[j].items[k] == ops[i].data
            && (j < |ops| && ops[j] == Read(k) ==> replies[j] == Found(ops[i].data))
    decreases j
  {
    assert Step(states[i], ops[i], states[i + 1], replies[i]);
    if j > i + 1 {
      CreatedIsReadBack(states, ops, replies, i, j - 1);
      assert Step(states[j - 1], ops[j - 1], states[j], replies[j - 1]);
    }
    if j < |ops| {
      assert Step(states[j], ops[j], states[j + 1], replies[j]);
    }
  }
}
