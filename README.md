# CoffinBrowser `fs` emulation, modelled in Dafny

CoffinBrowser runs a desktop game inside a browser and replaces Node's
`fs` module with a small emulation in `index.js`. Files and directories are
entries of the browser's `localStorage`. Each entry's key is an absolute,
resolved path. A directory is an entry whose value is the marker `"_DIR"`.
Any path whose resolved form starts with the string `/www` is a game asset. `statSync` and `readFileSync` never
look in the store for such a path: `statSync` calls it both a file and a
directory, and `readFileSync` fetches it with a synchronous HTTP request.
The writing functions have no such test, so a write under `/www` still
lands in the store, where those two reads then ignore it (`AssetStat`,
`AssetReadsIgnoreStore`). `readdirSync` answers `/www/languages` and
`/www/languages/english` from constants.

The project has five modules:

- `Wrappers`: the `Option` type. It models JavaScript `null`.
- `Paths`: `resolve`, `dirname` and `basename`, with the working
  directory fixed at `/`. It also holds JavaScript's `split("/")` and
  `join("/")`. `resolve` drops empty and `.` parts; `..` removes the last
  segment and stops at the root. `dirname` and `basename` ignore trailing
  separators and split what remains at its last separator, as the bundled
  path polyfill does. This is a stand-in for the `path` library (see
  "Left out"). Its lemmas prove the facts the `fs` code relies on:
  - resolving is idempotent;
  - `split` and `join` are inverse;
  - a canonical path is the child of its `dirname`, named by its
    `basename`;
  - two canonical paths with the same parent and the same name are equal.
- `KeyValue`: `localStorage` values. `Store` is a map plus the keys in
  enumeration order. The model fixes that order to insertion order: new
  keys go last, overwriting a key keeps its place, and removing a key
  closes the gap (see "Left out"). `LocalStorage` is the mutable object with
  `length`, `key`, `getItem`, `setItem` and `removeItem`.
- `FsModel`: each `fs` function as a function on a `Store`, plus the
  lemmas about them.
- `Fs`: each `fs` function as a method on the shared `LocalStorage`. The
  loops of `readdirSync` and `mkdirSync` keep their original form. Each
  method is proved to have exactly the effect its `FsModel` function gives
  it.

A thrown `Error` is modelled as a returned value:
- `statSync` returns `Err(FileDoesNotExist)`;
- `mkdirSync` returns `Some(FileExists)`, together with the directories the
  loop had already created.

The asset request is a parameter `fetch` from the path with `/www` removed
to the response text.

Behaviour kept exactly as written:
- `existsSync` checks the `/www/languages` prefix. `statSync` and
  `readFileSync` check the wider `/www` prefix. So a missing asset "does
  not exist" yet still stats as a file and a directory
  (`AssetExistsAsymmetry`).
- The prefix test is on characters, not segments. So `/wwwx` counts as an
  asset and is fetched as `x` (`RawAssetPrefix`).
- `copyFileSync` from a missing file writes the string `"null"`.
  `appendFileSync` on a missing file writes `"null"` followed by the data.
- `mkdirSync` splits `"/a/b"` into `["", "a", "b"]`, so it visits `/`,
  `/a` and `/a/b`. It also stores `/` itself as a directory. Since
  `dirname("/")` is `/` and `basename("/")` is `""`, `readdirSync("/")`
  then lists an empty name (`RootListsEmptyName`).

## Model

| member | source | states |
|---|---|---|
| Paths.Split | index.js:123 | `split("/")` gives at least one part and no part holds a separator; its inverse is stated by `JoinSplit` and `SplitJoin` |
| Paths.Join | index.js:125 | definition of `join("/")`; stated by `JoinSplit`, `SplitJoin` and `JoinSnoc` |
| Paths.Walk | index.js:31 | normalising keeps only proper segments; stated further by `WalkSegments` |
| Paths.Normalize | index.js:31 | the segments of a resolved path are proper segments; stated further by `NormalizeCanon` |
| Paths.Resolve | index.js:31 | `resolve` gives an absolute path; stated further by `ResolveIdempotent`, `CanonIsCanonical`, `ParentStep` and `RootDotDot` |
| Paths.LastSlash | index.js:59-60 | the index found holds a separator and no separator follows it, or it is -1 and the text has none |
| Paths.TrimTrailingSpec | index.js:59-60 | trimming keeps a prefix that does not end in a separator and drops only separators |
| Paths.TrimTrailing | index.js:59-60 | definition of the removal of trailing separators; stated by `TrimTrailingSpec` |
| Paths.Strip | index.js:59-60 | definition of the trailing-separator removal `dirname` and `basename` start with; stated by `TrimTrailingSpec`, `StripNoTrailing` and `TrailingSeparatorIgnored` |
| Paths.StripNoTrailing | index.js:59-60 | a path that does not end in a separator is left as it is |
| Paths.Dirname | index.js:59 | definition of `dirname`; stated by `ParentOfCanon`, `RootParent`, `TrailingSeparatorIgnored` and `ParentAndNameDetermine` |
| Paths.Basename | index.js:60 | definition of `basename`; stated by `ParentOfCanon`, `RootParent`, `TrailingSeparatorIgnored` and `ParentAndNameDetermine` |
| Paths.TrailingSeparatorIgnored | index.js:59-60 | appending a separator to a non-empty path changes neither its `dirname` nor its `basename` |
| Paths.TrailingSeparator | index.js:59-60 | an example of `TrailingSeparatorIgnored`: a stored key `/a/` is the entry `a` of `/` |
| Paths.LastSlashUnique | index.js:59-60 | a separator with no separator after it is the last separator |
| Paths.LastSlashNone | index.js:59-60 | text without a separator has no last separator |
| Paths.WalkConcat | index.js:31 | normalising two lists of parts one after the other is normalising their concatenation |
| Paths.ParentStep | index.js:31 | a trailing `..` removes the last segment of a canonical path |
| Paths.RootDotDot | index.js:31 | `..` cannot climb above the root: `/..` resolves to `/` |
| Paths.ResolveIdempotent | index.js:31 | resolving an already resolved path changes nothing, so every key the `fs` functions store is a fixed point of `resolve` |
| Paths.CanonIsCanonical | index.js:31 | any `/`-joined list of proper segments is a resolved path |
| Paths.NormalizeCanon | index.js:31 | resolving a path built from proper segments gives back exactly those segments |
| Paths.WalkSegments | index.js:31 | resolving segments that hold no `.`, `..` or empty part appends them unchanged |
| Paths.JoinSplit | index.js:123-125 | `s.split("/").join("/")` is `s` for every string |
| Paths.SplitJoin | index.js:123-125 | `join("/")` followed by `split("/")` gives back the parts when no part holds a `/` |
| Paths.SplitPrefix | index.js:123 | splitting a slash-free string followed by more text extends the first part of the rest |
| Paths.JoinSnoc | index.js:125 | joining one more part appends `/` and that part |
| Paths.LastSlashAt | index.js:59-60 | in `a + "/" + x` where `x` has no slash, the last slash is the one after `a` |
| Paths.ParentOfCanon | index.js:59-60 | a resolved path with one more segment has the shorter path as `dirname` and the segment as `basename` |
| Paths.RootParent | index.js:59-60 | `dirname("/")` is `/` and `basename("/")` is the empty name |
| Paths.DirnameCanonical | index.js:59 | the `dirname` of a resolved path is resolved |
| Paths.CanonShape | index.js:59-60 | a resolved path is `/` or its parent's path plus `/` and its base name |
| Paths.SameParentSameName | index.js:59-60 | two segment lists with equal parent paths and equal last segments are equal |
| Paths.SameParentAndName | index.js:59-60 | two resolved paths with the same `dirname` and `basename` are the same path |
| Paths.ParentAndNameDetermine | index.js:59-60 | two resolved paths have the same `dirname` and `basename` exactly when they are the same path |
| KeyValue.Get | index.js:37 | definition of `getItem`: `null` for a missing key; stated by `Put` and `Remove` |
| KeyValue.Put | index.js:103 | `setItem` keeps the store well formed, makes the key read back the value and leaves every other key alone |
| KeyValue.Without | index.js:43 | removing a key from the enumeration keeps exactly the other keys, without duplicates |
| KeyValue.WithoutAt | index.js:43 | removing a present key closes the gap and keeps the order of the rest |
| KeyValue.WithoutAbsent | index.js:43 | removing an absent key leaves the enumeration unchanged |
| KeyValue.Remove | index.js:43 | `removeItem` keeps the store well formed, makes the key read as `null` and leaves every other key alone |
| KeyValue.LocalStorage.constructor | index.js:37 | the object starts with the store persisted by earlier sessions |
| KeyValue.LocalStorage.Length | index.js:57 | definition of `localStorage.length`: the number of keys enumerated; used by `Fs.ReaddirSync` |
| KeyValue.LocalStorage.Key | index.js:58 | definition of `localStorage.key(i)`: the `i`-th key enumerated, `null` past the end; used by `Fs.ReaddirSync` |
| KeyValue.LocalStorage.GetItem | index.js:37 | definition of `getItem` on the object: `Get` of its state |
| KeyValue.LocalStorage.SetItem | index.js:103 | the object's new state is `Put` of its old state |
| KeyValue.LocalStorage.RemoveItem | index.js:43 | the object's new state is `Remove` of its old state |
| FsModel.StartsWith | index.js:34-34 | definition of JavaScript's `startsWith` as a character prefix test; stated by `ExistsCases` and `RawAssetPrefix` |
| FsModel.IsAsset | index.js:70-70 | definition of the raw `/www` prefix test of `statSync` and `readFileSync`; stated by `AssetStat`, `RawAssetPrefix` and `AssetReadsIgnoreStore` |
| FsModel.JsString | index.js:110-116 | definition of JavaScript's conversion of `null` to `"null"`; stated by `CopyThenRead` and `AppendThenGet` |
| FsModel.Blocked | index.js:129-133 | definition of the entry that makes `mkdirSync` throw: a stored value other than `"_DIR"`; stated by `MkdirFromSucceedsIff`, `MkdirFails` and `PutDirKeepsBlocked` |
| FsModel.Exists | index.js:30-38 | definition of `existsSync`; stated by `ExistsCases` and `ExistsAgreesWithStat` |
| FsModel.Stat | index.js:66-84 | definition of `statSync`; stated by `StatOfStoredEntry`, `AssetStat` and `ExistsAgreesWithStat` |
| FsModel.ReadFile | index.js:86-98 | definition of `readFileSync`; stated by `AssetReadsIgnoreStore` and `WriteThenRead` |
| FsModel.WriteFile | index.js:100-104 | definition of `writeFileSync`; stated by `WriteThenRead` and `WriteOverDirectory` |
| FsModel.CopyFile | index.js:106-111 | definition of `copyFileSync`; stated by `CopyThenRead` |
| FsModel.AppendFile | index.js:113-117 | definition of `appendFileSync`; stated by `AppendThenGet` |
| FsModel.Unlink | index.js:40-44 | definition of `unlinkSync`; stated by `UnlinkRemovesOnlyKey` and `UnlinkHidesName` |
| FsModel.Children | index.js:56-63 | definition of the scan over the keys; stated by `ChildrenMembership` and `ChildrenAppend` |
| FsModel.ReadDir | index.js:46-64 | definition of `readdirSync`; stated by `ReadDirLanguages` and `ReadDirScan` |
| FsModel.PrefixPath | index.js:125-128 | definition of one `part`: the joined head, with `""` turned into `/`; stated by `PrefixAt` and `RootPrefixes` |
| FsModel.MkdirPrefixes | index.js:123-128 | definition of the `part` values `mkdirSync` visits; stated by `PrefixAt` and `MkdirPrefixesChain` |
| FsModel.Mkdir | index.js:119-136 | definition of `mkdirSync`; stated by `MkdirSucceeds`, `MkdirFails` and `MkdirIdempotent` |
| FsModel.ExistsCases | index.js:30-38 | paths under `/www/languages` always exist; any other path exists exactly when its resolved form is a stored key |
| FsModel.ExistsAgreesWithStat | index.js:30-84 | outside `/www`, `existsSync` answers true exactly when `statSync` does not throw, and the only error is "File does not exist" |
| FsModel.AssetExistsAsymmetry | index.js:34-75 | an unstored asset outside `/www/languages` does not exist, yet stats as both a file and a directory |
| FsModel.AssetStat | index.js:70-75 | every path under `/www` stats as both a file and a directory, whatever is stored, even right after a write stored it |
| FsModel.StatOfStoredEntry | index.js:76-83 | a stored entry outside `/www` stats as exactly one of file or directory, and as a directory exactly when its value is `"_DIR"` |
| FsModel.RawAssetPrefix | index.js:70-95 | `/wwwx` counts as an asset: it stats as a file and a directory, and reads as the fetch of `x` |
| FsModel.AssetReadsIgnoreStore | index.js:91-95 | reading an asset does not depend on the store and fetches the resolved path with `/www` removed |
| FsModel.WriteThenRead | index.js:97-104 | after `writeFileSync` the resolved path holds the data, every other key is unchanged, and outside `/www` `readFileSync` returns the data |
| FsModel.WriteOverDirectory | index.js:80-103 | writing over a directory entry turns it into a file |
| FsModel.UnlinkRemovesOnlyKey | index.js:37-44 | after `unlinkSync` the path reads as `null`, every other key is unchanged, and outside `/www/languages` the path no longer exists |
| FsModel.CopyThenRead | index.js:106-111 | the target holds the source's value, or `"null"` when the source is missing; other keys are unchanged; a stored non-asset source reads the same at the target |
| FsModel.AppendThenGet | index.js:113-117 | the path holds the old value followed by the data, or `"null"` followed by the data when missing; other keys are unchanged |
| FsModel.ChildrenMembership | index.js:56-63 | a name is listed exactly when some key has the directory as its `dirname` and the name as its `basename` |
| FsModel.ChildrenAppend | index.js:57-62 | the scan over two runs of keys is the scan over the first followed by the scan over the second |
| FsModel.LanguagesCanonical | index.js:50 | `/www/languages` is a resolved path, so resolving it reaches the constant branch |
| FsModel.EnglishCanonical | index.js:53 | `/www/languages/english` is a resolved path, so resolving it reaches the constant branch |
| FsModel.ReadDirLanguages | index.js:50-55 | `readdirSync("/www/languages")` is `["english"]` and `readdirSync("/www/languages/english")` is `["dialogue.loc"]`, whatever is stored |
| FsModel.ReadDirScan | index.js:56-63 | any other directory lists the base names of the keys whose `dirname` is that directory, in enumeration order, and only those |
| FsModel.RootCanonical | index.js:31 | `/` is a resolved path |
| FsModel.RootFacts | index.js:31-60 | `/` is resolved, is its own `dirname`, has the empty `basename` and is neither language directory |
| FsModel.RootNotLanguages | index.js:50-53 | `/` is neither `/www/languages` nor `/www/languages/english` |
| FsModel.SelfParentListed | index.js:56-63 | a stored directory that is its own parent with the empty base name lists the empty name |
| FsModel.RootListsEmptyName | index.js:56-128 | once `/` is stored, `readdirSync("/")` lists the empty name |
| FsModel.WriteNewIsListedLast | index.js:56-103 | writing a new file appends its base name to the end of its directory's listing |
| FsModel.UnlinkHidesName | index.js:40-63 | when every key is resolved, after `unlinkSync` the name is no longer listed in its directory |
| FsModel.MkdirFrom | index.js:124-135 | the loop keeps the store well formed and only adds keys from the prefixes it visits |
| FsModel.MkdirTurn | index.js:125-134 | one turn: a missing prefix is created as a directory, a directory is passed over, anything else throws "File exists" with the store as it stands |
| FsModel.MkdirDone | index.js:124 | with no prefixes left the loop ends without throwing and without change |
| FsModel.PrefixAt | index.js:123-128 | the prefix `mkdirSync` visits at step `i` is the path of the first `i` segments |
| FsModel.RootChain | index.js:123-128 | on `/` the visited prefixes are `/` and `/`, the root being its own parent |
| FsModel.IsChain | index.js:123-128 | definition of the chain of ancestors from `/` down to a path; stated by `MkdirPrefixesChain` |
| FsModel.ChainOfTwice | index.js:123-128 | `/` visited twice is a chain ending at `/` |
| FsModel.RootPrefixes | index.js:123-128 | on `/`, `mkdirSync` visits `/` twice |
| FsModel.PrefixChild | index.js:123-128 | below the root, each visited prefix is the `dirname` of the next |
| FsModel.PrefixCanonical | index.js:123-128 | every visited prefix is a resolved path |
| FsModel.MkdirPrefixesChain | index.js:123-128 | `mkdirSync` visits `/` first and the resolved path last, each prefix is the parent of the next, and all are resolved paths |
| FsModel.PutDirKeepsBlocked | index.js:130-131 | creating a missing directory entry changes for no key whether it blocks `mkdirSync` |
| FsModel.MkdirFromSucceedsIff | index.js:124-135 | the loop finishes without throwing exactly when no visited prefix holds a non-directory |
| FsModel.MkdirFromClear | index.js:124-135 | when nothing blocks, every visited prefix becomes a directory and every other key is unchanged |
| FsModel.MkdirFromBlocked | index.js:124-135 | at the first blocked prefix the loop throws "File exists", keeping the directories created before it and changing nothing else |
| FsModel.MkdirFromAllDirs | index.js:129-132 | when every prefix is already a directory, the loop changes nothing |
| FsModel.MkdirSucceeds | index.js:119-136 | `mkdirSync` succeeds exactly when no ancestor holds a non-directory, and then makes every ancestor a directory and changes nothing else |
| FsModel.MkdirFails | index.js:119-136 | at the first ancestor holding a non-directory, `mkdirSync` throws "File exists" and keeps only the directories it created before it |
| FsModel.MkdirIdempotent | index.js:119-136 | a second successful `mkdirSync` of the same path changes nothing |
| FsModel.StatAfterMkdir | index.js:76-136 | after a successful `mkdirSync` outside `/www`, `statSync` reports a directory |
| FsModel.KeysStayCanonical | index.js:40-136 | every write, copy, append, unlink and mkdir stores only resolved paths as keys |
| Fs.ExistsSync | index.js:30-38 | returns `FsModel.Exists` of the current store |
| Fs.UnlinkSync | index.js:40-44 | the new store is `FsModel.Unlink` of the old one |
| Fs.ReaddirSync | index.js:46-64 | the scan over `localStorage.key(i)` returns `FsModel.ReadDir` of the current store |
| Fs.StatSync | index.js:66-84 | returns `FsModel.Stat` of the current store |
| Fs.ReadFileSync | index.js:86-98 | returns `FsModel.ReadFile` of the current store and the fetch |
| Fs.WriteFileSync | index.js:100-104 | the new store is `FsModel.WriteFile` of the old one |
| Fs.CopyFileSync | index.js:106-111 | the new store is `FsModel.CopyFile` of the old one |
| Fs.AppendFileSync | index.js:113-117 | the new store is `FsModel.AppendFile` of the old one |
| Fs.MkdirSync | index.js:119-136 | the loop's final store and thrown error are exactly `FsModel.Mkdir` of the old store |
| Fs.AccessSync | index.js:138-141 | the store is unchanged |

## Left out

- The `path` library is not part of this model. `Paths.Resolve`, `Paths.Dirname` and `Paths.Basename` are stand-ins. They are not checked against the library's code.
  - `Resolve` works against the directory `/`. It drops empty and `.` parts, and `..` removes the last segment but stops at the root (`ParentStep`, `RootDotDot`).
  - `Dirname` and `Basename` ignore trailing separators and split at the last separator that remains. This is the regex-based splitting of the path polyfill that rollup.config.js bundles. Node's own `dirname` differs from it on a path that starts with two separators and then one name: it gives `//` for `//a`, where the model gives `/`. No key the `fs` functions write has that shape (`KeysStayCanonical`).
- KeyValue.Put: the model fixes `localStorage` enumeration to insertion order. New keys go last, overwriting keeps the key's place, and `KeyValue.Remove` closes the gap. The model fixes this order; `readdirSync` returns whatever order `key(i)` gives, and the HTML Standard leaves that order to the browser. The order of `readdirSync` results, `FsModel.WriteNewIsListedLast` and the order half of `FsModel.ReadDirScan` hold only under this assumption; membership in a listing does not depend on it.
- KeyValue.Remove: closing the gap in the enumeration is part of the same insertion-order assumption.
- FsModel.WriteNewIsListedLast: that the new name comes last holds only under the insertion-order assumption.
- `console.debug` logging in every function is left out. It has no effect on the store or on any result.
- The `mkdirSync` `opts` argument is not modelled. The source only logs it.
- `Fs.ReadFileSync`: the synchronous `XMLHttpRequest` is the parameter `fetch`. Network failures, HTTP status codes and the request's own errors are not modelled.
- `localStorage` quota errors and any sharing of storage between tabs are not modelled. `setItem` always succeeds.
- The type coercion of `data` is not modelled. `data` is taken to be a string; the source would convert a `Buffer` or a number with `String()`.
- The other objects `index.js` exports are not part of this model: `process`, `Buffer`, `os`, `nw.gui`, `greenworks`, `zlib` and the `require` table. They are constant tables or forward to libraries.
- `rollup.config.js` is build configuration and not part of this model.
