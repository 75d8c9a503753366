/** The handler that creates, reads, updates and deletes entities as files. */
module ApiHandler {
  import opened Decimal
  import opened FakeFileSystem

  datatype Status = OK | CREATED | FORBIDDEN | NOT_FOUND | INTERNAL_SERVER_ERROR

  datatype Response = Response(status: Status, contentType: string, body: string)

  datatype Request = Request(verb: string, uri: string, body: string)

  // ------------------------------------------------------------------------- the responses

  function Html(status: Status, body: string): Response {
    Response(status, "text/html", "<html><body>" + body + "</body></html>")
  }

  const FORBIDDEN_BODY := "<h1>403 Forbidden</h1><p>You may only access subdirectories of the /api directory.</p>" +
                          "<p>For example: /api/Shoes</p>"

  function Forbidden(): Response {
    Html(FORBIDDEN, FORBIDDEN_BODY)
  }

  function Created(id: nat): Response {
    Response(CREATED, "text/html", "{\"id\": " + Digits(id) + "}")
  }

  function NotFound(): Response {
    Html(NOT_FOUND, "<h1>404 Not Found</h1><p>The requested file could not be found.</p>")
  }

  function Updated(): Response {
    Html(OK, "<h1>200 OK</h1><p>File updated successfully.</p>")
  }

  function Deleted(): Response {
    Html(OK, "<h1>200 OK</h1><p>File deleted successfully.</p>")
  }

  function Failed(reason: string): Response {
    Html(INTERNAL_SERVER_ERROR, "<h1>500 Internal Server Error</h1><p>" + reason + "</p>")
  }

  function Json(body: string): Response {
    Response(OK, "application/json", body)
  }

  function Unimplemented(servingPath: string, root: string): Response {
    Html(OK, "<h1>ApiHandler is not yet fully implemented</h1><p>Serving path is: " + servingPath +
             "Root directory is: " + root + "</p>")
  }

  // ---------------------------------------------------------------------------- the free id

  function Numbered(base: string, id: nat): string {
    base + "/" + Digits(id)
  }

  ghost predicate TakenBelow(fs: State, base: string, id: nat) {
    forall j :: 1 <= j < id ==> fs.Exists(Numbered(base, j))
  }

  /** Everything that can exist. */
  function Names(fs: State): set<string> {
    fs.files.Keys + fs.directories.Keys
  }

  function NumberedUpTo(base: string, n: nat): set<string> {
    if n == 0 then {} else NumberedUpTo(base, n - 1) + {Numbered(base, n)}
  }

  lemma {:induction false} NotNumberedYet(base: string, n: nat, k: nat)
    requires n < k
    ensures Numbered(base, k) !in NumberedUpTo(base, n)
  {
    if n > 0 {
      NotNumberedYet(base, n - 1, k);
      NumberedInjective(base, n, k);
    }
  }

  lemma {:induction false} NumberedCount(base: string, n: nat)
    ensures |NumberedUpTo(base, n)| == n
  {
    if n > 0 {
      NumberedCount(base, n - 1);
      NotNumberedYet(base, n - 1, n);
    }
  }

  lemma {:induction false} NumberedTaken(fs: State, base: string, n: nat)
    requires TakenBelow(fs, base, n + 1)
    ensures NumberedUpTo(base, n) <= Names(fs)
  {
    if n > 0 {
      NumberedTaken(fs, base, n - 1);
      assert fs.Exists(Numbered(base, n));
    }
  }

  lemma NumberedInjective(base: string, i: nat, j: nat)
    ensures Numbered(base, i) == Numbered(base, j) <==> i == j
  {
    DigitsInjective(i, j);
    assert Numbered(base, i)[|base| + 1..] == Digits(i) && Numbered(base, j)[|base| + 1..] == Digits(j);
  }

  /** Finitely many names cannot take more ids than there are names. */
  lemma TakenAreFew(fs: State, base: string, id: nat)
    requires 1 <= id && TakenBelow(fs, base, id)
    ensures id <= |Names(fs)| + 1
  {
    var taken := NumberedUpTo(base, id - 1);
    NumberedCount(base, id - 1);
    NumberedTaken(fs, base, id - 1);
    assert Names(fs) == taken + (Names(fs) - taken);
  }

  /** The least free id from one on below which all are taken. */
  ghost function FreeId(fs: State, base: string, id: nat): (r: nat)
    requires 1 <= id && TakenBelow(fs, base, id)
    ensures id <= r && TakenBelow(fs, base, r) && !fs.Exists(Numbered(base, r))
    decreases |Names(fs)| + 1 - id
  {
    TakenAreFew(fs, base, id);
    if fs.Exists(Numbered(base, id)) then
      assert TakenBelow(fs, base, id + 1);
      TakenAreFew(fs, base, id + 1);
      FreeId(fs, base, id + 1)
    else id
  }

  // ------------------------------------------------------------------------------ the effect

  predicate IsApiUri(uri: string) {
    |uri| > 5 && uri[..5] == "/api/"
  }

  function PathOf(root: string, uri: string): string
    requires IsApiUri(uri)
  {
    root + "/" + uri[5..]
  }

  /** What a request does to the files and what it answers; `listing` is the text the file
      system gives for a directory. */
  ghost function Respond(servingPath: string, root: string, fs: State, req: Request, listing: string): (State, Response) {
    if !IsApiUri(req.uri) then (fs, Forbidden())
    else
      var path := PathOf(root, req.uri);
      if req.verb == "POST" then
        var id := FreeId(fs, path, 1);
        (fs.Overwritten(Numbered(path, id), req.body), Created(id))
      else if req.verb == "PUT" then
        if fs.Exists(path) then (fs.Overwritten(path, req.body), Updated()) else (fs, NotFound())
      else if req.verb == "GET" then
        (fs,
         if !fs.Exists(path) then NotFound()
         else if fs.IsDirectory(path) then Json(listing)
         else if !fs.IsRegularFile(path) then Failed("Unsupported file type.")
         else if path !in fs.files then Failed("Error reading file.")
         else Json(fs.files[path]))
      else if req.verb == "DELETE" then
        if !fs.Exists(path) then (fs, NotFound())
        else if !fs.IsRegularFile(path) then (fs, Failed("File is not a regular file and cannot be deleted."))
        else if path !in fs.files then (fs, Failed("Error deleting file."))
        else (fs.Removed(path), Deleted())
      else (fs, Unimplemented(servingPath, root))
  }

  class ApiHandler {
    const servingPath: string
    const root: string
    const fs: FileSystem

    /** The serving path without a slash at its end. */
    constructor (servingPath: string, root: string, fs: FileSystem)
      requires servingPath != "" && servingPath[0] == '/'
      ensures this.root == root && this.fs == fs
      ensures |servingPath| > 1 && servingPath[|servingPath| - 1] == '/' ==>
                this.servingPath == servingPath[..|servingPath| - 1]
      ensures !(|servingPath| > 1 && servingPath[|servingPath| - 1] == '/') ==> this.servingPath == servingPath
    {
      this.servingPath := if |servingPath| > 1 && servingPath[|servingPath| - 1] == '/'
                          then servingPath[..|servingPath| - 1] else servingPath;
      this.root := root;
      this.fs := fs;
    }

    method HandleRequest(req: Request, listing: string) returns (response: Response)
      modifies fs
      ensures (fs.Contents(), response) == Respond(servingPath, root, old(fs.Contents()), req, listing)
    {
      hide FreeId, Numbered, Unimplemented, Forbidden, NotFound, Updated, Json, Failed, Deleted, Created;
      if |req.uri| <= 5 || req.uri[..5] != "/api/" {
        return Forbidden();
      }
      var basePath := root + "/" + req.uri[5..];
      if req.verb == "POST" {
        response := Post(basePath, req.body);
        return;
      }
      if req.verb == "PUT" {
        response := Put(basePath, req.body);
        return;
      }
      if req.verb == "GET" {
        response := Get(basePath, listing);
        return;
      }
      if req.verb == "DELETE" {
        response := Delete(basePath);
        return;
      }
      response := Unimplemented(servingPath, root);
    }

    method Put(basePath: string, body: string) returns (response: Response)
      modifies fs
      ensures var was := old(fs.Contents());
              (fs.Contents(), response) ==
              if was.Exists(basePath) then (was.Overwritten(basePath, body), Updated()) else (was, NotFound())
    {
      var exists_ := fs.Exists(basePath);
      if !exists_ {
        return NotFound();
      }
      var code := fs.OverwriteFile(basePath, body);
      response := Updated();
    }

    method Get(basePath: string, listing: string) returns (response: Response)
      ensures var now := fs.Contents();
              response == if !now.Exists(basePath) then NotFound()
                          else if now.IsDirectory(basePath) then Json(listing)
                          else if !now.IsRegularFile(basePath) then Failed("Unsupported file type.")
                          else if basePath !in now.files then Failed("Error reading file.")
                          else Json(now.files[basePath])
    {
      var exists_ := fs.Exists(basePath);
      if !exists_ {
        return NotFound();
      }
      var directory := fs.IsDirectory(basePath);
      if directory {
        return Json(listing);
      }
      var regular := fs.IsRegularFile(basePath);
      if regular {
        var length, data := fs.ReadFile(basePath);
        if length < 0 {
          return Failed("Error reading file.");
        }
        return Json(data);
      }
      response := Failed("Unsupported file type.");
    }

    method Delete(basePath: string) returns (response: Response)
      modifies fs
      ensures var was := old(fs.Contents());
              (fs.Contents(), response) ==
              if !was.Exists(basePath) then (was, NotFound())
              else if !was.IsRegularFile(basePath) then (was, Failed("File is not a regular file and cannot be deleted."))
              else if basePath !in was.files then (was, Failed("Error deleting file."))
              else (was.Removed(basePath), Deleted())
    {
      var exists_ := fs.Exists(basePath);
      if !exists_ {
        return NotFound();
      }
      var regular := fs.IsRegularFile(basePath);
      if !regular {
        return Failed("File is not a regular file and cannot be deleted.");
      }
      var ok := fs.Remove(basePath);
      if !ok {
        return Failed("Error deleting file.");
      }
      response := Deleted();
    }

    /** The search for an id ends because only finitely many are taken. */
    method Post(basePath: string, body: string) returns (response: Response)
      modifies fs
      ensures var id := FreeId(old(fs.Contents()), basePath, 1);
              fs.Contents() == old(fs.Contents()).Overwritten(Numbered(basePath, id), body) && response == Created(id)
    {
      ghost var was := fs.Contents();
      var id := 1;
      var taken := fs.Exists(basePath + "/" + Digits(id));
      while taken
        invariant 1 <= id && TakenBelow(was, basePath, id)
        invariant taken == was.Exists(Numbered(basePath, id))
        invariant FreeId(was, basePath, 1) == FreeId(was, basePath, id)
        decreases |Names(was)| + 2 - id
        modifies {}
      {
        TakenAreFew(was, basePath, id);
        assert TakenBelow(was, basePath, id + 1);
        id := id + 1;
        taken := fs.Exists(basePath + "/" + Digits(id));
      }
      var code := fs.OverwriteFile(basePath + "/" + Digits(id), body);
      response := Created(id);
    }
  }
}
