/** The `fs` functions of index.js as operations on the value of the store:
    each takes the store before the call and gives what the call returns or
    the store after it. The methods in module Fs are proved to compute
    exactly these, and the lemmas below state what the operations promise. */
module FsModel {
  import opened Wrappers
  import opened Paths
  import opened KeyValue

  /** The value that marks a key as a directory. */
  const DirMarker: string := "_DIR"
  /** Paths starting with this string are read-only bundled assets. */
  const AssetPrefix: string := "/www"
  /** Paths starting with this string always exist; it is also the language bundle root. */
  const LanguagesPrefix: string := "/www/languages"
  /** The one language directory inside the bundle. */
  const EnglishDir: string := "/www/languages/english"

  /** The two errors the facade throws. */
  datatype FsError = FileDoesNotExist | FileExists

  datatype Result<T> = Ok(value: T) | Err(error: FsError)

  /** What `statSync` returns: the answers of `isFile()` and `isDirectory()`. */
  datatype Stats = Stats(isFile: bool, isDirectory: bool)

  /** The store after a call that may throw part-way, and what it threw. */
  datatype Effect = Effect(store: Store, thrown: Option<FsError>)

  /** JavaScript `startsWith`: a raw prefix test on the string. */
  predicate StartsWith(s: string, prefix: string) {
    prefix <= s
  }

  predicate IsAsset(resolved: string) {
    StartsWith(resolved, AssetPrefix)
  }

  /** How JavaScript turns a value that may be `null` into a string, both in
      `setItem(k, null)` and in `null + data`: `null` becomes "null". */
  function JsString(v: Option<string>): string {
    match v
    case Some(s) => s
    case None => "null"
  }

  /** Every key of the store is a canonical path. */
  ghost predicate CanonicalKeys(st: Store) {
    forall k :: k in st.items ==> IsCanonical(k)
  }

  /** A non-directory entry, which makes `mkdirSync` throw. */
  predicate Blocked(st: Store, key: string) {
    Get(st, key).Some? && Get(st, key).value != DirMarker
  }

  // ---------------------------------------------------------------- lookups

  /** `existsSync` */
  function Exists(st: Store, path: string): bool {
    var resolved := Resolve(path);
    StartsWith(resolved, LanguagesPrefix) || Get(st, resolved).Some?
  }

  /** `statSync` */
  function Stat(st: Store, path: string): Result<Stats> {
    var resolved := Resolve(path);
    if IsAsset(resolved) then Ok(Stats(true, true))
    else
      match Get(st, resolved)
      case None => Err(FileDoesNotExist)
      case Some(item) => Ok(Stats(item != DirMarker, item == DirMarker))
  }

  /** `readFileSync`: an asset is fetched by the path with the prefix
      removed; anything else is read from the store, `null` when absent. */
  function ReadFile(st: Store, path: string, fetch: string -> string): Option<string> {
    var resolved := Resolve(path);
    if IsAsset(resolved) then Some(fetch(resolved[|AssetPrefix|..]))
    else Get(st, resolved)
  }

  // -------------------------------------------------------------- mutations

  /** `writeFileSync` */
  function WriteFile(st: Store, path: string, data: string): Store {
    Put(st, Resolve(path), data)
  }

  /** `copyFileSync` */
  function CopyFile(st: Store, from: string, to: string): Store {
    Put(st, Resolve(to), JsString(Get(st, Resolve(from))))
  }

  /** `appendFileSync` */
  function AppendFile(st: Store, path: string, data: string): Store {
    var resolved := Resolve(path);
    Put(st, resolved, JsString(Get(st, resolved)) + data)
  }

  /** `unlinkSync` */
  function Unlink(st: Store, path: string): Store {
    Remove(st, Resolve(path))
  }

  // ------------------------------------------------------------ directories

  /** The base names of the keys whose parent is `dir`, in enumeration order. */
  function Children(keys: seq<string>, dir: string): seq<string> {
    if keys == [] then []
    else
      var key := keys[|keys| - 1];
      Children(keys[..|keys| - 1], dir) + (if Dirname(key) == dir then [Basename(key)] else [])
  }

  /** `readdirSync` */
  function ReadDir(st: Store, path: string): seq<string> {
    var resolved := Resolve(path);
    if resolved == LanguagesPrefix then ["english"]
    else if resolved == EnglishDir then ["dialogue.loc"]
    else Children(st.keys, resolved)
  }

  /** The `part` that `mkdirSync` builds from the first parts of the split. */
  function PrefixPath(head: seq<string>): string {
    var part := Join(head);
    if part == "" then "/" else part
  }

  /** The `part` values `mkdirSync` visits, in order. */
  function MkdirPrefixes(resolved: string): seq<string> {
    var parts := Split(resolved);
    seq(|parts|, i requires 0 <= i < |parts| => PrefixPath(parts[..i + 1]))
  }

  /** The loop of `mkdirSync` over the remaining prefixes: a missing one is
      created as a directory, a non-directory throws, leaving what was
      already created in place. */
  function MkdirFrom(st: Store, prefixes: seq<string>): (e: Effect)
    ensures st.Valid() ==> e.store.Valid()
    ensures forall k :: k in e.store.items ==> k in st.items || k in prefixes
    decreases |prefixes|
  {
    if prefixes == [] then Effect(st, None)
    else
      var part := prefixes[0];
      match Get(st, part)
      case None => MkdirFrom(Put(st, part, DirMarker), prefixes[1..])
      case Some(item) =>
        if item != DirMarker then Effect(st, Some(FileExists))
        else MkdirFrom(st, prefixes[1..])
  }

  /** One turn of the loop of `mkdirSync`, at part `i` of the split. */
  lemma MkdirTurn(st: Store, resolved: string, i: nat, part: string)
    requires i < |Split(resolved)| && part == PrefixPath(Split(resolved)[..i + 1])
    ensures var ps := MkdirPrefixes(resolved);
      && |ps| == |Split(resolved)|
      && (Get(st, part) == None ==>
            MkdirFrom(st, ps[i..]) == MkdirFrom(Put(st, part, DirMarker), ps[i + 1..]))
      && (Get(st, part) == Some(DirMarker) ==> MkdirFrom(st, ps[i..]) == MkdirFrom(st, ps[i + 1..]))
      && (Blocked(st, part) ==> MkdirFrom(st, ps[i..]) == Effect(st, Some(FileExists)))
  {
    var ps := MkdirPrefixes(resolved);
    assert ps[i..][0] == part;
    assert ps[i..][1..] == ps[i + 1..];
  }

  /** The loop of `mkdirSync` ends with nothing left to visit. */
  lemma MkdirDone(st: Store, resolved: string)
    ensures var ps := MkdirPrefixes(resolved);
      |ps| == |Split(resolved)| && MkdirFrom(st, ps[|ps|..]) == Effect(st, None)
  {
    var ps := MkdirPrefixes(resolved);
    assert ps[|ps|..] == [];
  }

  /** `mkdirSync` */
  function Mkdir(st: Store, path: string): Effect {
    MkdirFrom(st, MkdirPrefixes(Resolve(path)))
  }

  // ------------------------------------------------------- lookup lemmas

  /** Paths starting with "/www/languages" always exist; any other path
      exists exactly when its resolved form is a key of the store. */
  lemma ExistsCases(st: Store, path: string)
    ensures StartsWith(Resolve(path), LanguagesPrefix) ==> Exists(st, path)
    ensures !StartsWith(Resolve(path), LanguagesPrefix) ==>
              (Exists(st, path) <==> Resolve(path) in st.items)
  {
  }

  /** Outside "/www", `existsSync` and `statSync` agree: `statSync` throws
      "File does not exist" exactly when `existsSync` is false. */
  lemma ExistsAgreesWithStat(st: Store, path: string)
    requires !IsAsset(Resolve(path))
    ensures Exists(st, path) <==> Stat(st, path).Ok?
    ensures Stat(st, path).Err? ==> Stat(st, path).error == FileDoesNotExist
  {
    assert !StartsWith(Resolve(path), LanguagesPrefix) by {
      assert AssetPrefix <= LanguagesPrefix;
    }
  }

  /** An asset path that is not in the store is reported missing by
      `existsSync` although `statSync` calls it both a file and a directory. */
  lemma AssetExistsAsymmetry(st: Store, path: string)
    requires IsAsset(Resolve(path)) && !StartsWith(Resolve(path), LanguagesPrefix)
    requires Resolve(path) !in st.items
    ensures !Exists(st, path)
    ensures Stat(st, path) == Ok(Stats(true, true))
  {
  }

  /** `statSync` calls every path under the asset prefix both a file and a
      directory, whatever the store holds: a file written there is stored
      but does not change the answer. */
  lemma AssetStat(st: Store, path: string, data: string)
    requires IsAsset(Resolve(path))
    ensures Stat(st, path) == Ok(Stats(true, true))
    ensures Resolve(path) in WriteFile(st, path, data).items
    ensures Stat(WriteFile(st, path, data), path) == Ok(Stats(true, true))
  {
  }

  /** For a store entry, `isFile` and `isDirectory` are complements, and the
      entry is a directory exactly when it holds the marker. */
  lemma StatOfStoredEntry(st: Store, path: string)
    requires !IsAsset(Resolve(path)) && Resolve(path) in st.items
    ensures Stat(st, path).Ok?
    ensures Stat(st, path).value.isFile == !Stat(st, path).value.isDirectory
    ensures Stat(st, path).value.isDirectory <==> st.items[Resolve(path)] == DirMarker
  {
  }

  /** The asset prefix is a raw string prefix: "/wwwx" is an asset too. */
  lemma RawAssetPrefix(st: Store, fetch: string -> string)
    ensures Stat(st, "/wwwx") == Ok(Stats(true, true))
    ensures ReadFile(st, "/wwwx", fetch) == Some(fetch("x"))
  {
    assert Join(["wwwx"]) == "wwwx";
    assert Canon(["wwwx"]) == "/wwwx";
    CanonIsCanonical(["wwwx"]);
    assert "/wwwx"[4..] == "x";
  }

  /** Reads under the asset prefix do not look at the store: what any write
      did to the store leaves them unchanged. */
  lemma AssetReadsIgnoreStore(st1: Store, st2: Store, path: string, fetch: string -> string)
    requires IsAsset(Resolve(path))
    ensures ReadFile(st1, path, fetch) == ReadFile(st2, path, fetch)
    ensures ReadFile(st1, path, fetch) == Some(fetch(Resolve(path)[4..]))
  {
  }

  // ----------------------------------------------------- mutation lemmas

  /** `writeFileSync` sets the resolved key and no other, whatever was there
      (a file, a directory marker, nothing); reading it back outside "/www"
      gives the data. */
  lemma WriteThenRead(st: Store, path: string, data: string, fetch: string -> string)
    ensures Get(WriteFile(st, path, data), Resolve(path)) == Some(data)
    ensures forall k :: k != Resolve(path) ==> Get(WriteFile(st, path, data), k) == Get(st, k)
    ensures !IsAsset(Resolve(path)) ==> ReadFile(WriteFile(st, path, data), path, fetch) == Some(data)
  {
  }

  /** A plain write over a directory turns it into a file (unless the data
      is the marker itself): there is no kind check. */
  lemma WriteOverDirectory(st: Store, path: string, data: string)
    requires !IsAsset(Resolve(path)) && Get(st, Resolve(path)) == Some(DirMarker)
    requires data != DirMarker
    ensures Stat(WriteFile(st, path, data), path) == Ok(Stats(true, false))
  {
  }

  /** `unlinkSync` removes exactly the resolved key: its children and every
      other key keep their values; afterwards the path no longer exists
      (outside the language bundle). There is no error for a missing key. */
  lemma UnlinkRemovesOnlyKey(st: Store, path: string)
    ensures Get(Unlink(st, path), Resolve(path)) == None
    ensures forall k :: k != Resolve(path) ==> Get(Unlink(st, path), k) == Get(st, k)
    ensures !StartsWith(Resolve(path), LanguagesPrefix) ==> !Exists(Unlink(st, path), path)
  {
  }

  /** `copyFileSync` stores at the target the value the source had before
      (the string "null" when the source was missing), leaves the source as
      it was and touches no other key. */
  lemma CopyThenRead(st: Store, from: string, to: string, fetch: string -> string)
    ensures Get(CopyFile(st, from, to), Resolve(to)) == Some(JsString(Get(st, Resolve(from))))
    ensures Resolve(from) !in st.items ==> Get(CopyFile(st, from, to), Resolve(to)) == Some("null")
    ensures forall k :: k != Resolve(to) ==> Get(CopyFile(st, from, to), k) == Get(st, k)
    ensures !IsAsset(Resolve(from)) && !IsAsset(Resolve(to)) && Resolve(from) in st.items ==>
              ReadFile(CopyFile(st, from, to), to, fetch) == ReadFile(st, from, fetch)
  {
  }

  /** `appendFileSync` stores the old value followed by the data; on a
      missing key the old value reads as "null". No other key changes. */
  lemma AppendThenGet(st: Store, path: string, data: string)
    ensures Resolve(path) in st.items ==>
              Get(AppendFile(st, path, data), Resolve(path)) == Some(st.items[Resolve(path)] + data)
    ensures Resolve(path) !in st.items ==>
              Get(AppendFile(st, path, data), Resolve(path)) == Some("null" + data)
    ensures forall k :: k != Resolve(path) ==> Get(AppendFile(st, path, data), k) == Get(st, k)
  {
  }

  // ---------------------------------------------------- directory lemmas

  /** A base name is listed exactly when some key has `dir` as its parent
      and that base name. */
  lemma {:induction false} ChildrenMembership(keys: seq<string>, dir: string, x: string)
    ensures x in Children(keys, dir) <==>
              exists k :: k in keys && Dirname(k) == dir && Basename(k) == x
  {
    if keys != [] {
      var init, last := keys[..|keys| - 1], keys[|keys| - 1];
      assert keys == init + [last];
      ChildrenMembership(init, dir, x);
      if Dirname(last) == dir && Basename(last) == x {
        assert last in keys;
      }
      if exists k :: k in init && Dirname(k) == dir && Basename(k) == x {
        var k :| k in init && Dirname(k) == dir && Basename(k) == x;
        assert k in keys;
      }
    }
  }

  /** Listing follows the enumeration order: listing a concatenation lists
      the first part's children, then the second's. */
  lemma {:induction false} ChildrenAppend(a: seq<string>, b: seq<string>, dir: string)
    ensures Children(a + b, dir) == Children(a, dir) + Children(b, dir)
  {
    if b == [] {
      assert a + b == a;
    } else {
      var init, last := b[..|b| - 1], b[|b| - 1];
      assert (a + b)[..|a + b| - 1] == a + init;
      assert (a + b)[|a + b| - 1] == last;
      ChildrenAppend(a, init, dir);
    }
  }

  lemma LanguagesCanonical(path: string)
    requires path == LanguagesPrefix
    ensures IsCanonical(path)
  {
    var n := ["www", "languages"];
    assert Join(n) == "www/languages";
    assert Canon(n) == path;
    CanonIsCanonical(n);
  }

  lemma EnglishCanonical(path: string)
    requires path == EnglishDir
    ensures IsCanonical(path)
  {
    var n := ["www", "languages", "english"];
    assert Join(n[2..]) == "english";
    assert Join(n[1..]) == "languages" + "/" + "english";
    assert Join(n) == "www" + "/" + "languages/english";
    assert Canon(n) == path;
    CanonIsCanonical(n);
  }

  /** The two language directories have fixed listings, whatever the store holds. */
  lemma ReadDirLanguages(st: Store, path: string)
    ensures path == LanguagesPrefix ==> ReadDir(st, path) == ["english"]
    ensures path == EnglishDir ==> ReadDir(st, path) == ["dialogue.loc"]
  {
    if path == LanguagesPrefix {
      LanguagesCanonical(path);
    } else if path == EnglishDir {
      EnglishCanonical(path);
    }
  }

  /** Any other directory lists the base names of exactly the keys whose
      parent is the resolved path. */
  lemma ReadDirScan(st: Store, path: string, x: string)
    requires Resolve(path) != LanguagesPrefix && Resolve(path) != EnglishDir
    ensures ReadDir(st, path) == Children(st.keys, Resolve(path))
    ensures x in ReadDir(st, path) <==>
              exists k :: k in st.keys && Dirname(k) == Resolve(path) && Basename(k) == x
  {
    ChildrenMembership(st.keys, Resolve(path), x);
  }

  /** "/" is canonical, is its own parent with the empty base name, and is
      neither of the two language directories. */
  lemma RootFacts(root: string)
    requires root == "/"
    ensures Resolve(root) == root && Dirname(root) == root && Basename(root) == ""
    ensures root != LanguagesPrefix && root != EnglishDir
  {
    RootCanonical(root);
    RootParent(root);
    RootNotLanguages(root);
  }

  lemma RootNotLanguages(root: string)
    requires root == "/"
    ensures root != LanguagesPrefix && root != EnglishDir
  {
    assert |root| < |LanguagesPrefix| && |root| < |EnglishDir|;
  }

  lemma RootCanonical(root: string)
    requires root == "/"
    ensures Resolve(root) == root
  {
    CanonIsCanonical([]);
    assert Canon([]) == root;
  }

  /** The root holds itself: once "/" is a key (every successful `mkdirSync`
      makes it one), listing "/" includes the empty name, since the parent
      of "/" is "/" and its base name is "". */
  lemma RootListsEmptyName(st: Store, root: string)
    requires root == "/"
    requires st.Valid() && root in st.items
    ensures "" in ReadDir(st, root)
  {
    RootFacts(root);
    SelfParentListed(st, root);
  }

  /** A stored directory that is its own parent, with the empty base name,
      lists the empty name. */
  lemma SelfParentListed(st: Store, d: string)
    requires st.Valid() && d in st.items
    requires Resolve(d) == d && Dirname(d) == d && Basename(d) == ""
    requires d != LanguagesPrefix && d != EnglishDir
    ensures "" in ReadDir(st, d)
  {
    assert d in st.keys;
    ReadDirScan(st, d, "");
  }

  /** Writing a new file adds its base name at the end of its parent's listing. */
  lemma WriteNewIsListedLast(st: Store, path: string, data: string)
    requires st.Valid() && Resolve(path) !in st.items
    requires Dirname(Resolve(path)) != LanguagesPrefix && Dirname(Resolve(path)) != EnglishDir
    ensures ReadDir(WriteFile(st, path, data), Dirname(Resolve(path))) ==
              ReadDir(st, Dirname(Resolve(path))) + [Basename(Resolve(path))]
  {
    var r := Resolve(path);
    ResolveIdempotent(path);
    DirnameCanonical(r);
    var keys := WriteFile(st, path, data).keys;
    assert keys == st.keys + [r];
    assert keys[..|keys| - 1] == st.keys;
  }

  /** After `unlinkSync`, the parent's listing no longer shows the removed
      name: no other canonical key has the same parent and base name. */
  lemma UnlinkHidesName(st: Store, path: string)
    requires st.Valid() && CanonicalKeys(st)
    requires Dirname(Resolve(path)) != LanguagesPrefix && Dirname(Resolve(path)) != EnglishDir
    ensures Basename(Resolve(path)) !in ReadDir(Unlink(st, path), Dirname(Resolve(path)))
  {
    var r := Resolve(path);
    ResolveIdempotent(path);
    DirnameCanonical(r);
    var d := Dirname(r);
    var after := Unlink(st, path);
    assert after.Valid();
    forall k | k in after.keys && Dirname(k) == d
      ensures Basename(k) != Basename(r)
    {
      assert k in after.items;
      assert Get(after, k).Some? && k != r;
      assert Get(st, k) == Get(after, k);
      assert k in st.items;
      ParentAndNameDetermine(k, r);
    }
    ChildrenMembership(after.keys, d, Basename(r));
  }

  // -------------------------------------------------------- mkdir lemmas

  /** On a canonical path of segments `n`, the i-th prefix visited is the
      path of the first i segments. */
  lemma PrefixAt(n: seq<string>, i: nat)
    requires Segments(n) && n != [] && i <= |n|
    ensures |MkdirPrefixes(Canon(n))| == |n| + 1
    ensures MkdirPrefixes(Canon(n))[i] == Canon(n[..i])
  {
    var parts := [""] + n;
    assert parts[1..] == n;
    assert Join(parts) == Canon(n);
    WalkSegments([], n);
    assert SlashFree(parts);
    SplitJoin(parts);
    var ps := MkdirPrefixes(Canon(n));
    assert ps[i] == PrefixPath(parts[..i + 1]);
    assert parts[..i + 1] == [""] + n[..i];
    if i == 0 {
      assert Join([""]) == "";
      assert n[..i] == [];
      assert Canon([]) == "/";
    } else {
      assert ([""] + n[..i])[1..] == n[..i];
      assert Join([""] + n[..i]) == "" + "/" + Join(n[..i]);
      assert Join([""] + n[..i]) == Canon(n[..i]);
      assert PrefixPath([""] + n[..i]) == Canon(n[..i]);
    }
  }

  /** On the root, `mkdirSync` visits "/" twice: "/".split("/") is ["", ""]. */
  lemma RootPrefixes(r: string)
    requires r == "/"
    ensures MkdirPrefixes(r) == ["/", "/"]
  {
    assert r[1..] == "" && r[0] == '/';
    assert Split(r[1..]) == [""];
    var parts := Split(r);
    assert parts == ["", ""];
    var ps := MkdirPrefixes(r);
    assert |ps| == 2;
    assert parts[..1] == [""];
    assert parts[..2] == parts;
    assert Join([""]) == "";
    assert Join(["", ""]) == "" + "/" + Join([""]);
    assert ps[0] == PrefixPath(parts[..1]) == "/";
    assert ps[1] == PrefixPath(parts[..2]) == "/";
  }

  /** Below the root, each prefix visited is a child of the one before. */
  lemma PrefixChild(n: seq<string>, i: nat)
    requires Segments(n) && n != [] && 0 < i <= |n|
    ensures |MkdirPrefixes(Canon(n))| == |n| + 1
    ensures Dirname(MkdirPrefixes(Canon(n))[i]) == MkdirPrefixes(Canon(n))[i - 1]
  {
    PrefixAt(n, i);
    PrefixAt(n, i - 1);
    assert n[..i] == n[..i - 1] + [n[i - 1]];
    assert Segments(n[..i - 1]) && IsSegment(n[i - 1]);
    ParentOfCanon(n[..i - 1], n[i - 1]);
  }

  /** Every prefix visited is canonical. */
  lemma PrefixCanonical(n: seq<string>, i: nat)
    requires Segments(n) && n != [] && i <= |n|
    ensures |MkdirPrefixes(Canon(n))| == |n| + 1
    ensures IsCanonical(MkdirPrefixes(Canon(n))[i])
  {
    PrefixAt(n, i);
    assert Segments(n[..i]);
    CanonIsCanonical(n[..i]);
  }

  /** The ancestors of `r` from the root down: "/" first, `r` last, each
      entry the parent of the next, all canonical. */
  predicate IsChain(ps: seq<string>, r: string) {
    && |ps| >= 2 && ps[0] == "/" && ps[|ps| - 1] == r
    && (forall i :: 0 < i < |ps| ==> Dirname(ps[i]) == ps[i - 1])
    && (forall i :: 0 <= i < |ps| ==> IsCanonical(ps[i]))
  }

  /** On the root the chain is "/" twice: the root is its own parent. */
  lemma RootChain(r: string)
    requires r == "/"
    ensures IsChain(MkdirPrefixes(r), r)
  {
    RootPrefixes(r);
    RootParent(r);
    RootCanonical(r);
    ChainOfTwice(r, [r, r]);
  }

  /** A path that is its own canonical parent, visited twice, is a chain. */
  lemma ChainOfTwice(r: string, ps: seq<string>)
    requires ps == [r, r] && r == "/" && Dirname(r) == r && IsCanonical(r)
    ensures IsChain(ps, r)
  {
    forall i | 0 <= i < |ps|
      ensures ps[i] == r
    {
    }
  }

  /** `mkdirSync` visits "/" first and the resolved path last, and each
      prefix it visits after the first is a child of the one before: the
      chain of ancestors from the root down. Every prefix is canonical. */
  lemma MkdirPrefixesChain(path: string)
    ensures IsChain(MkdirPrefixes(Resolve(path)), Resolve(path))
  {
    var n := Normalize(path);
    var r := Resolve(path);
    if n == [] {
      RootChain(r);
    } else {
      var ps := MkdirPrefixes(r);
      PrefixAt(n, 0);
      PrefixAt(n, |n|);
      assert n[..|n|] == n;
      forall i | 0 < i < |ps|
        ensures Dirname(ps[i]) == ps[i - 1]
      {
        PrefixChild(n, i);
      }
      forall i | 0 <= i < |ps|
        ensures IsCanonical(ps[i])
      {
        PrefixCanonical(n, i);
      }
    }
  }

  /** Nothing that `mkdirSync` creates changes whether a later prefix blocks. */
  lemma PutDirKeepsBlocked(st: Store, part: string)
    requires Get(st, part) == None
    ensures forall k :: Blocked(Put(st, part, DirMarker), k) == Blocked(st, k)
  {
  }

  /** The loop succeeds exactly when no prefix holds a non-directory. */
  lemma {:induction false} MkdirFromSucceedsIff(st: Store, ps: seq<string>)
    ensures MkdirFrom(st, ps).thrown == None <==> forall i :: 0 <= i < |ps| ==> !Blocked(st, ps[i])
    decreases |ps|
  {
    if ps != [] {
      var rest := ps[1..];
      assert forall i :: 0 < i < |ps| ==> ps[i] == rest[i - 1];
      if Get(st, ps[0]) == None {
        PutDirKeepsBlocked(st, ps[0]);
        MkdirFromSucceedsIff(Put(st, ps[0], DirMarker), rest);
      } else if !Blocked(st, ps[0]) {
        MkdirFromSucceedsIff(st, rest);
      }
    }
  }

  /** When no prefix blocks, every prefix ends up a directory and every
      other key keeps its value. */
  lemma {:induction false} MkdirFromClear(st: Store, ps: seq<string>)
    requires forall i :: 0 <= i < |ps| ==> !Blocked(st, ps[i])
    ensures MkdirFrom(st, ps).thrown == None
    ensures forall k :: Get(MkdirFrom(st, ps).store, k) ==
                          if k in ps then Some(DirMarker) else Get(st, k)
    decreases |ps|
  {
    if ps != [] {
      var rest := ps[1..];
      assert forall i :: 0 <= i < |rest| ==> rest[i] == ps[i + 1];
      assert forall k :: k in ps <==> k == ps[0] || k in rest;
      if Get(st, ps[0]) == None {
        PutDirKeepsBlocked(st, ps[0]);
        MkdirFromClear(Put(st, ps[0], DirMarker), rest);
      } else {
        MkdirFromClear(st, rest);
      }
    }
  }

  /** When prefix j is the first that blocks, the loop throws "File exists"
      after making every earlier prefix a directory; nothing else changes. */
  lemma {:induction false} MkdirFromBlocked(st: Store, ps: seq<string>, j: nat)
    requires j < |ps| && Blocked(st, ps[j])
    requires forall i :: 0 <= i < j ==> !Blocked(st, ps[i])
    ensures MkdirFrom(st, ps).thrown == Some(FileExists)
    ensures forall k :: Get(MkdirFrom(st, ps).store, k) ==
                          if k in ps[..j] then Some(DirMarker) else Get(st, k)
    decreases j
  {
    if j > 0 {
      var rest := ps[1..];
      assert forall i :: 0 <= i < |rest| ==> rest[i] == ps[i + 1];
      assert ps[..j] == [ps[0]] + rest[..j - 1];
      assert forall k :: k in ps[..j] <==> k == ps[0] || k in rest[..j - 1];
      if Get(st, ps[0]) == None {
        PutDirKeepsBlocked(st, ps[0]);
        MkdirFromBlocked(Put(st, ps[0], DirMarker), rest, j - 1);
      } else {
        MkdirFromBlocked(st, rest, j - 1);
      }
    }
  }

  /** When every prefix is already a directory, the loop changes nothing. */
  lemma {:induction false} MkdirFromAllDirs(st: Store, ps: seq<string>)
    requires forall i :: 0 <= i < |ps| ==> Get(st, ps[i]) == Some(DirMarker)
    ensures MkdirFrom(st, ps) == Effect(st, None)
    decreases |ps|
  {
    if ps != [] {
      MkdirFromAllDirs(st, ps[1..]);
    }
  }

  /** `mkdirSync` succeeds exactly when no prefix of the resolved path holds
      a non-directory; then every prefix, from "/" down to the resolved path,
      is a directory and no other key changed. */
  lemma MkdirSucceeds(st: Store, path: string)
    ensures var ps := MkdirPrefixes(Resolve(path));
      Mkdir(st, path).thrown == None <==> forall i :: 0 <= i < |ps| ==> !Blocked(st, ps[i])
    ensures var ps := MkdirPrefixes(Resolve(path));
      Mkdir(st, path).thrown == None ==>
        forall k :: Get(Mkdir(st, path).store, k) ==
                      if k in ps then Some(DirMarker) else Get(st, k)
  {
    var ps := MkdirPrefixes(Resolve(path));
    MkdirFromSucceedsIff(st, ps);
    if Mkdir(st, path).thrown == None {
      MkdirFromClear(st, ps);
    }
  }

  /** When prefix j is the first holding a non-directory, `mkdirSync` throws
      "File exists" with every earlier prefix already a directory (no
      rollback) and nothing else changed. */
  lemma MkdirFails(st: Store, path: string, j: nat)
    requires var ps := MkdirPrefixes(Resolve(path));
      j < |ps| && Blocked(st, ps[j]) && forall i :: 0 <= i < j ==> !Blocked(st, ps[i])
    ensures Mkdir(st, path).thrown == Some(FileExists)
    ensures var ps := MkdirPrefixes(Resolve(path));
      forall k :: Get(Mkdir(st, path).store, k) ==
                    if k in ps[..j] then Some(DirMarker) else Get(st, k)
  {
    MkdirFromBlocked(st, MkdirPrefixes(Resolve(path)), j);
  }

  /** A second `mkdirSync` of the same path, with nothing in between, does
      not throw and changes nothing. */
  lemma MkdirIdempotent(st: Store, path: string)
    requires Mkdir(st, path).thrown == None
    ensures Mkdir(Mkdir(st, path).store, path) == Effect(Mkdir(st, path).store, None)
  {
    var ps := MkdirPrefixes(Resolve(path));
    MkdirSucceeds(st, path);
    var after := Mkdir(st, path).store;
    assert forall i :: 0 <= i < |ps| ==> ps[i] in ps;
    MkdirFromAllDirs(after, ps);
  }

  /** After a successful `mkdirSync` outside "/www", `statSync` reports a
      directory that is not a file. */
  lemma StatAfterMkdir(st: Store, path: string)
    requires Mkdir(st, path).thrown == None && !IsAsset(Resolve(path))
    ensures Stat(Mkdir(st, path).store, path) == Ok(Stats(false, true))
  {
    var ps := MkdirPrefixes(Resolve(path));
    MkdirPrefixesChain(path);
    MkdirSucceeds(st, path);
    assert ps[|ps| - 1] in ps;
  }

  // ----------------------------------------------------- store invariant

  /** Every operation keeps every key of the store a canonical path. */
  lemma KeysStayCanonical(st: Store, path: string, other: string, data: string)
    requires CanonicalKeys(st)
    ensures CanonicalKeys(WriteFile(st, path, data))
    ensures CanonicalKeys(AppendFile(st, path, data))
    ensures CanonicalKeys(CopyFile(st, other, path))
    ensures CanonicalKeys(Unlink(st, path))
    ensures CanonicalKeys(Mkdir(st, path).store)
  {
    ResolveIdempotent(path);
    MkdirPrefixesChain(path);
    var ps := MkdirPrefixes(Resolve(path));
    assert forall k :: k in ps ==> IsCanonical(k);
  }
}
