/** What the answers of the handler say: their status, and the id in the text of a 201. */
module CrudReplies {
  import opened Wrappers
  import opened Decimal
  import opened FakeFileSystem
  import opened ApiHandler
  import opened CrudRefinement
  import Json
  import JsonRoundTrip

  /** The body of a 201 is an object with the id. */
  predicate NamesId(body: string, id: nat) {
    Json.ReadText(body) == Some(Json.Object([Json.Member("id", Json.Number(id))]))
  }

  lemma CreatedNamesId(id: nat)
    ensures NamesId(Created(id).body, id) && Created(id).status == CREATED
  {
    var m := Json.Member("id", Json.Number(id));
    var text := Json.PrintMembers([m], "", " ", Json.Compact);
    JsonRoundTrip.ReadPrintedObject([m], "", "", " ", Json.Compact, "", "");
    CreatedText(id);
    assert Json.Skip("") == "";
    hide Json.ReadValue, Json.PrintMembers, Json.Skip;
    assert "{" + "" + text + "" + "}" + "" == "{" + text + "}";
  }

  lemma CreatedText(id: nat)
    ensures Created(id).body == "{" + Json.PrintMembers([Json.Member("id", Json.Number(id))], "", " ", Json.Compact) + "}"
  {
    var m := Json.Member("id", Json.Number(id));
    QuotedId();
    hide Json.Quoted, Digits;
    assert Json.Print(m.value, Json.Compact) == Digits(id);
    assert Json.PrintMembers([m], "", " ", Json.Compact) == Json.Quoted("id") + ":" + " " + Digits(id);
    assert "{" + ("\"id\"" + ":" + " " + Digits(id)) + "}" == "{\"id\": " + Digits(id) + "}";
  }

  lemma QuotedId()
    ensures Json.Quoted("id") == "\"id\""
  {
    assert "id"[1..] == "d" && "d"[1..] == "";
    assert Json.Escape("d") == "d" + Json.Escape("");
    assert Json.Escape("id") == "i" + Json.Escape("d");
  }

  // ------------------------------------------------------------------------------ the statuses

  /** The status of the answer to any request over any files. */
  lemma StatusOf(servingPath: string, root: string, fs: State, req: Request, listing: string)
    ensures var r := Respond(servingPath, root, fs, req, listing).1;
            if |req.uri| <= 5 || req.uri[..5] != "/api/" then r.status == FORBIDDEN
            else
              var path := root + "/" + req.uri[5..];
              if req.verb == "POST" then r.status == CREATED
              else if req.verb != "PUT" && req.verb != "GET" && req.verb != "DELETE" then r.status == OK
              else if path !in fs.files && !fs.IsDirectory(path) then r.status == NOT_FOUND
              else if req.verb == "PUT" then r.status == OK
              else if req.verb == "GET" then
                r.status == if fs.IsDirectory(path) || (fs.IsRegularFile(path) && path in fs.files) then OK
                            else INTERNAL_SERVER_ERROR
              else r.status == if fs.IsRegularFile(path) && path in fs.files then OK else INTERNAL_SERVER_ERROR
  {
    Statuses();
    assert IsApiUri(req.uri) ==> PathOf(root, req.uri) == root + "/" + req.uri[5..];
    hide FreeId, Numbered, Forbidden, NotFound, Updated, Deleted, Failed, Created, Unimplemented, PathOf;
  }

  lemma Statuses()
    ensures Forbidden().status == FORBIDDEN && NotFound().status == NOT_FOUND && Updated().status == OK && Deleted().status == OK
    ensures forall reason :: Failed(reason).status == INTERNAL_SERVER_ERROR
    ensures forall id :: Created(id).status == CREATED
    ensures forall p, root :: Unimplemented(p, root).status == OK
  {
  }

  /** A POST to a collection writes the body to a new file of it and names its id; a GET of that file
      is answered with the body, whatever other files there are. */
  lemma CreatedThenRead(servingPath: string, root: string, fs: State, name: string, data: string,
                        listing: string, listing': string) returns (id: nat)
    requires name != ""
    ensures var (fs', r) := Respond(servingPath, root, fs, Request("POST", "/api/" + name, data), listing);
            var file := root + "/" + name + "/" + Digits(id);
            && id >= 1 && r.status == CREATED && NamesId(r.body, id)
            && !fs.Exists(file) && fs'.files == fs.files[file := data]
            && Respond(servingPath, root, fs', Request("GET", "/api/" + name + "/" + Digits(id), ""), listing').1 ==
               Response(OK, "application/json", data)
  {
    var path := root + "/" + name;
    id := FreeId(fs, path, 1);
    UriPath(root, name, Digits(id));
    CreatedNamesId(id);
    hide Digits, FreeId, Created, NamesId, IsApiUri, PathOf;
    var file := Numbered(path, id);
    FileRead(fs, path, Digits(id), data);
    GetFile(servingPath, root, fs.Overwritten(file, data), Request("GET", "/api/" + name + "/" + Digits(id), ""), file, data,
            listing');
  }

  lemma GetFile(servingPath: string, root: string, fs: State, req: Request, file: string, data: string, listing: string)
    requires req.verb == "GET" && IsApiUri(req.uri) && PathOf(root, req.uri) == file
    requires !fs.IsDirectory(file) && fs.IsRegularFile(file) && file in fs.files && fs.files[file] == data
    ensures Respond(servingPath, root, fs, req, listing).1 == Response(OK, "application/json", data)
  {
    hide IsApiUri, PathOf, FreeId;
  }

  lemma FileRead(fs: State, path: string, digits: string, data: string)
    requires !fs.Exists(path + "/" + digits)
    ensures var file := path + "/" + digits; var fs' := fs.Overwritten(file, data);
            && !fs'.IsDirectory(file) && fs'.IsRegularFile(file) && file in fs'.files && fs'.files[file] == data
  {
    var file := path + "/" + digits;
    NotItsDirectory(file);
    hide Directory;
  }

  /** No path is its own directory. */
  lemma {:induction false} NotItsDirectory(path: string)
    requires path != ""
    ensures |Directory(path)| < |path|
  {
    if path[|path| - 1] != '/' && |path| > 1 {
      NotItsDirectory(path[..|path| - 1]);
    }
  }

  lemma UriPath(root: string, name: string, digits: string)
    requires name != ""
    ensures IsApiUri("/api/" + name) && PathOf(root, "/api/" + name) == root + "/" + name
    ensures var uri := "/api/" + name + "/" + digits;
            IsApiUri(uri) && PathOf(root, uri) == root + "/" + name + "/" + digits
  {
    var uri := "/api/" + name;
    assert uri[..5] == "/api/" && uri[5..] == name;
    var uri' := "/api/" + name + "/" + digits;
    assert uri'[..5] == "/api/" && uri'[5..] == name + "/" + digits;
    assert root + "/" + (name + "/" + digits) == root + "/" + name + "/" + digits;
  }

  // ------------------------------------------------------------- answers to the five operations

  /** The answer to an operation over files that a simple map describes. */
  lemma Answered(servingPath: string, root: string, fs: State, s: Store, op: Op, listing: string)
    requires Refines(root, fs, s) && ValidOp(op)
    ensures var r := Respond(servingPath, root, fs, RequestFor(op), listing).1;
            match op
            case Create(e, _) => r.status == CREATED && exists id :: IsLeastFree(s.items, e, id) && NamesId(r.body, id)
            case Update(k, _) => r.status == if k in s.items then OK else NOT_FOUND
            case Read(k) => if k in s.items then r == Response(OK, "application/json", s.items[k]) else r.status == NOT_FOUND
            case Delete(k) => r.status == if k in s.items then OK else NOT_FOUND
            case List(e) => if e in s.known then r == Response(OK, "application/json", listing) else r.status == NOT_FOUND
  {
    var s', reply := RespondRefines(servingPath, root, fs, s, op, listing);
    hide Respond, Refines, Step, ResponseFor;
    StepAnswered(s, op, s', reply, listing);
  }

  lemma StepAnswered(s: Store, op: Op, s': Store, reply: Reply, listing: string)
    requires Step(s, op, s', reply)
    ensures var r := ResponseFor(reply, listing);
            match op
            case Create(e, _) => r.status == CREATED && exists id :: IsLeastFree(s.items, e, id) && NamesId(r.body, id)
            case Update(k, _) => r.status == if k in s.items then OK else NOT_FOUND
            case Read(k) => if k in s.items then r == Response(OK, "application/json", s.items[k]) else r.status == NOT_FOUND
            case Delete(k) => r.status == if k in s.items then OK else NOT_FOUND
            case List(e) => if e in s.known then r == Response(OK, "application/json", listing) else r.status == NOT_FOUND
  {
    if reply.MadeAt? {
      CreatedNamesId(reply.id);
    }
    hide Created, NamesId, IsLeastFree;
  }
}
