/** The file system kept in three maps. */
module FakeFileSystem {

  /** The contents of the maps. */
  datatype State = State(files: map<string, string>, directories: map<string, bool>, regular: map<string, bool>) {

    predicate IsDirectory(path: string) {
      path in directories && directories[path]
    }

    predicate IsRegularFile(path: string) {
      path in regular && regular[path]
    }

    predicate Exists(path: string) {
      path in files || IsDirectory(path)
    }

    function Overwritten(path: string, data: string): State {
      State(files[path := data], directories[Directory(path) := true], regular[path := true])
    }

    function Removed(path: string): State {
      State(files - {path}, directories - {path}, regular - {path})
    }
  }

  /** The text before the last slash. */
  function Directory(path: string): string {
    if path == "" then "" else if path[|path| - 1] == '/' then path[..|path| - 1] else Directory(path[..|path| - 1])
  }

  /** A name without slashes is cut off with the slash before it. */
  lemma {:induction false} DirectoryOf(base: string, name: string)
    requires '/' !in name
    ensures Directory(base + "/" + name) == base
  {
    var path := base + "/" + name;
    if name == "" {
      assert path[|path| - 1] == '/' && path[..|path| - 1] == base;
    } else {
      var front := name[..|name| - 1];
      assert path[|path| - 1] == name[|name| - 1] && path[..|path| - 1] == base + "/" + front;
      DirectoryOf(base, front);
    }
  }

  class FileSystem {
    var files: map<string, string>
    var directories: map<string, bool>
    var regular: map<string, bool>

    constructor ()
      ensures Contents() == State(map[], map[], map[])
    {
      files, directories, regular := map[], map[], map[];
    }

    function Contents(): State
      reads this
    {
      State(files, directories, regular)
    }

    /** The length read, or -1. */
    method ReadFile(path: string) returns (length: int, data: string)
      ensures path in files ==> length == |files[path]| && data == files[path]
      ensures path !in files ==> length == -1 && data == ""
    {
      if path in files {
        return |files[path]|, files[path];
      }
      return -1, "";
    }

    method OverwriteFile(path: string, data: string) returns (code: int)
      modifies this
      ensures code == 0 && Contents() == old(Contents()).Overwritten(path, data)
    {
      files := files[path := data];
      regular := regular[path := true];
      directories := directories[Directory(path) := true];
      code := 0;
    }

    method Exists(path: string) returns (r: bool)
      ensures r == Contents().Exists(path)
    {
      var directory := IsDirectory(path);
      r := path in files || directory;
    }

    method IsDirectory(path: string) returns (r: bool)
      ensures r == Contents().IsDirectory(path)
    {
      r := path in directories && directories[path];
    }

    method IsRegularFile(path: string) returns (r: bool)
      ensures r == Contents().IsRegularFile(path)
    {
      r := path in regular && regular[path];
    }

    method Remove(path: string) returns (ok: bool)
      modifies this
      ensures ok == (path in old(files))
      ensures Contents() == if ok then old(Contents()).Removed(path) else old(Contents())
    {
      if path !in files {
        return false;
      }
      files := files - {path};
      directories := directories - {path};
      regular := regular - {path};
      ok := true;
    }
  }
}
