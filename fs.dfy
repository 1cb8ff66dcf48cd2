/** The `fs` object of index.js: one method per function, working on the
    shared `localStorage` object as the original does, each proved to have
    exactly the effect that module FsModel gives it. Exceptions are returned
    as values. */
module Fs {
  import opened Wrappers
  import opened Paths
  import opened KeyValue
  import opened FsModel

  /** `existsSync(path)`. What the answer means is stated about
      `FsModel.Exists` by `ExistsCases` and `ExistsAgreesWithStat`. */
  method ExistsSync(ls: LocalStorage, path: string) returns (r: bool)
    ensures r == Exists(ls.State(), path)
  {
    var resolved := Resolve(path);
    if StartsWith(resolved, LanguagesPrefix) {
      return true;
    }
    r := ls.GetItem(resolved) != None;
  }

  /** `unlinkSync(path)` */
  method UnlinkSync(ls: LocalStorage, path: string)
    requires ls.Valid()
    modifies ls
    ensures ls.Valid()
    ensures ls.State() == Unlink(old(ls.State()), path)
  {
    var resolved := Resolve(path);
    ls.RemoveItem(resolved);
  }

  /** `readdirSync(path)`: the scan over every key; the store is not changed. */
  method ReaddirSync(ls: LocalStorage, path: string) returns (out: seq<string>)
    ensures out == ReadDir(ls.State(), path)
  {
    var resolved := Resolve(path);
    if resolved == LanguagesPrefix {
      return ["english"];
    }
    if resolved == EnglishDir {
      return ["dialogue.loc"];
    }
    out := [];
    var i := 0;
    while i < ls.Length()
      invariant 0 <= i <= |ls.keys|
      invariant out == Children(ls.keys[..i], resolved)
    {
      var key := ls.Key(i).value;
      assert ls.keys[..i + 1][..i] == ls.keys[..i];
      if Dirname(key) == resolved {
        out := out + [Basename(key)];
      }
      i := i + 1;
    }
    assert ls.keys[..i] == ls.keys;
  }

  /** `statSync(path)`. What the answer means is stated about
      `FsModel.Stat` by `StatOfStoredEntry`, `AssetStat` and
      `ExistsAgreesWithStat`. */
  method StatSync(ls: LocalStorage, path: string) returns (r: Result<Stats>)
    ensures r == Stat(ls.State(), path)
  {
    var resolved := Resolve(path);
    if StartsWith(resolved, AssetPrefix) {
      return Ok(Stats(true, true));
    }
    var item := ls.GetItem(resolved);
    if item == None {
      return Err(FileDoesNotExist);
    }
    r := Ok(Stats(item.value != DirMarker, item.value == DirMarker));
  }

  /** `readFileSync(path)`: `fetch` stands for the blocking request for an
      asset, made with the resolved path minus its first four characters.
      What the answer means is stated about `FsModel.ReadFile` by
      `AssetReadsIgnoreStore` and `WriteThenRead`. */
  method ReadFileSync(ls: LocalStorage, path: string, fetch: string -> string)
    returns (r: Option<string>)
    ensures r == ReadFile(ls.State(), path, fetch)
  {
    var resolved := Resolve(path);
    if StartsWith(resolved, AssetPrefix) {
      return Some(fetch(resolved[4..]));
    }
    r := ls.GetItem(resolved);
  }

  /** `writeFileSync(path, data)` */
  method WriteFileSync(ls: LocalStorage, path: string, data: string)
    requires ls.Valid()
    modifies ls
    ensures ls.Valid()
    ensures ls.State() == WriteFile(old(ls.State()), path, data)
  {
    var resolved := Resolve(path);
    ls.SetItem(resolved, data);
  }

  /** `copyFileSync(from, to)` */
  method CopyFileSync(ls: LocalStorage, from: string, to: string)
    requires ls.Valid()
    modifies ls
    ensures ls.Valid()
    ensures ls.State() == CopyFile(old(ls.State()), from, to)
  {
    var resolvedFrom := Resolve(from);
    var resolvedTo := Resolve(to);
    var item := ls.GetItem(resolvedFrom);
    ls.SetItem(resolvedTo, JsString(item));
  }

  /** `appendFileSync(path, data)` */
  method AppendFileSync(ls: LocalStorage, path: string, data: string)
    requires ls.Valid()
    modifies ls
    ensures ls.Valid()
    ensures ls.State() == AppendFile(old(ls.State()), path, data)
  {
    var resolved := Resolve(path);
    var item := ls.GetItem(resolved);
    ls.SetItem(resolved, JsString(item) + data);
  }

  /** `mkdirSync(path)`: walks the prefixes of the resolved path with
      `setItem` as it goes; a thrown "File exists" leaves what was created. */
  method MkdirSync(ls: LocalStorage, path: string) returns (thrown: Option<FsError>)
    requires ls.Valid()
    modifies ls
    ensures ls.Valid()
    ensures Effect(ls.State(), thrown) == Mkdir(old(ls.State()), path)
  {
    var resolved := Resolve(path);
    var parts := Split(resolved);
    ghost var prefixes := MkdirPrefixes(resolved);
    ghost var goal := Mkdir(ls.State(), path);
    MkdirDone(ls.State(), resolved);
    var i := 0;
    while i < |parts|
      invariant 0 <= i <= |parts| == |prefixes|
      invariant ls.Valid()
      invariant MkdirFrom(ls.State(), prefixes[i..]) == goal
    {
      var part := Join(parts[..i + 1]);
      if part == "" {
        part := "/";
      }
      MkdirTurn(ls.State(), resolved, i, part);
      var item := ls.GetItem(part);
      if item == None {
        ls.SetItem(part, DirMarker);
      } else if item.value != DirMarker {
        return Some(FileExists);
      }
      i := i + 1;
    }
    MkdirDone(ls.State(), resolved);
    return None;
  }

  /** `accessSync(path)`: a stub that always succeeds and touches nothing. */
  method AccessSync(ls: LocalStorage, path: string)
    ensures ls.State() == old(ls.State())
  {
  }
}
