/** A stand-in for the `path` module's `resolve`, `dirname` and `basename`,
    as the path polyfill bundled into the browser build computes them, with
    the working directory fixed at "/", together with JavaScript's `split("/")` and `join("/")`,
    which `mkdirSync` uses on resolved paths. */
module Paths {

  /** Every part of a split holds no separator. */
  predicate SlashFree(parts: seq<string>) {
    forall i :: 0 <= i < |parts| ==> '/' !in parts[i]
  }

  /** JavaScript `s.split("/")`: "" gives [""], "/" gives ["", ""]. */
  function Split(s: string): (parts: seq<string>)
    ensures |parts| >= 1
    ensures SlashFree(parts)
  {
    if s == [] then [""]
    else
      var rest := Split(s[1..]);
      if s[0] == '/' then [""] + rest
      else [[s[0]] + rest[0]] + rest[1..]
  }

  /** JavaScript `parts.join("/")`. */
  function Join(parts: seq<string>): string {
    if |parts| == 0 then ""
    else if |parts| == 1 then parts[0]
    else parts[0] + "/" + Join(parts[1..])
  }

  /** Joining what was split gives back the original string. */
  lemma {:induction false} JoinSplit(s: string)
    ensures Join(Split(s)) == s
  {
    if s != [] {
      var rest := Split(s[1..]);
      JoinSplit(s[1..]);
      if s[0] == '/' {
        assert Split(s) == [""] + rest;
        assert ([""] + rest)[1..] == rest;
      } else {
        assert Split(s) == [[s[0]] + rest[0]] + rest[1..];
        if |rest| == 1 {
          assert s == [s[0]] + s[1..];
        } else {
          assert ([[s[0]] + rest[0]] + rest[1..])[1..] == rest[1..];
          assert s == [s[0]] + s[1..];
        }
      }
    }
  }

  /** Splitting a separator-free head followed by `t` glues the head to the
      first part of `t`'s split. */
  lemma {:induction false} SplitPrefix(a: string, t: string)
    requires '/' !in a
    ensures Split(a + t) == [a + Split(t)[0]] + Split(t)[1..]
  {
    if a == [] {
      assert a + t == t;
      assert a + Split(t)[0] == Split(t)[0];
      assert Split(t) == [Split(t)[0]] + Split(t)[1..];
    } else {
      assert (a + t)[0] == a[0];
      assert (a + t)[1..] == a[1..] + t;
      SplitPrefix(a[1..], t);
      assert [a[0]] + (a[1..] + Split(t)[0]) == a + Split(t)[0];
    }
  }

  /** Splitting what was joined gives back the parts, when none holds a separator. */
  lemma {:induction false} SplitJoin(parts: seq<string>)
    requires |parts| >= 1 && SlashFree(parts)
    ensures Split(Join(parts)) == parts
  {
    var a := parts[0];
    assert '/' !in a;
    if |parts| == 1 {
      SplitPrefix(a, "");
      assert a + "" == a;
    } else {
      var j := Join(parts[1..]);
      SplitJoin(parts[1..]);
      var t := "/" + j;
      assert t[0] == '/' && t[1..] == j;
      assert Split(t) == [""] + Split(j);
      SplitPrefix(a, t);
      assert a + "/" + j == a + t;
      assert a + "" == a;
      assert parts == [a] + parts[1..];
    }
  }

  /** Joining one more part appends a separator and that part. */
  lemma {:induction false} JoinSnoc(parts: seq<string>, x: string)
    requires |parts| >= 1
    ensures Join(parts + [x]) == Join(parts) + "/" + x
  {
    if |parts| > 1 {
      assert (parts + [x])[1..] == parts[1..] + [x];
      JoinSnoc(parts[1..], x);
    } else {
      assert (parts + [x])[1..] == [x];
    }
  }

  /** A segment of a canonical path: not empty, not "." or "..", no separator. */
  predicate IsSegment(s: string) {
    s != "" && s != "." && s != ".." && '/' !in s
  }

  predicate Segments(n: seq<string>) {
    forall i :: 0 <= i < |n| ==> IsSegment(n[i])
  }

  /** The absolute path spelled by a list of segments. */
  function Canon(n: seq<string>): string {
    "/" + Join(n)
  }

  /** One left-to-right pass of path normalisation: empty parts and "." are
      dropped, ".." removes the last kept segment (and cannot climb above the
      root), any other part is kept. */
  function Walk(stack: seq<string>, parts: seq<string>): (n: seq<string>)
    requires Segments(stack) && SlashFree(parts)
    ensures Segments(n)
    decreases |parts|
  {
    if parts == [] then stack
    else
      var s := parts[0];
      var next :=
        if s == "" || s == "." then stack
        else if s == ".." then (if stack == [] then [] else stack[..|stack| - 1])
        else stack + [s];
      Walk(next, parts[1..])
  }

  /** The segments of `p` resolved against the working directory "/". */
  function Normalize(p: string): (n: seq<string>)
    ensures Segments(n)
  {
    Walk([], Split(p))
  }

  /** `path.resolve(p)` with the working directory "/". */
  function Resolve(p: string): (r: string)
    ensures |r| >= 1 && r[0] == '/'
  {
    Canon(Normalize(p))
  }

  predicate IsCanonical(p: string) {
    Resolve(p) == p
  }

  /** Segments that are already normal pass through a walk unchanged. */
  lemma {:induction false} WalkSegments(stack: seq<string>, n: seq<string>)
    requires Segments(stack) && Segments(n)
    ensures SlashFree(n) && Walk(stack, n) == stack + n
    decreases |n|
  {
    if n != [] {
      assert IsSegment(n[0]);
      assert Segments(n[1..]);
      WalkSegments(stack + [n[0]], n[1..]);
      assert stack + [n[0]] + n[1..] == stack + n;
    }
  }

  /** Normalising a canonical spelling recovers its segments. */
  lemma NormalizeCanon(n: seq<string>)
    requires Segments(n)
    ensures Normalize(Canon(n)) == n
  {
    if n == [] {
      assert Canon(n) == "/";
      assert "/"[1..] == "";
      assert Split("/") == ["", ""];
      assert Walk([], ["", ""]) == Walk([], [""]);
    } else {
      var parts := [""] + n;
      assert parts[1..] == n;
      assert Join(parts) == Canon(n);
      WalkSegments([], n);
      assert SlashFree(parts);
      SplitJoin(parts);
      assert Walk([], parts) == Walk([], n);
    }
  }

  /** A walk over two lists of parts is the walk over the second one,
      started from where the first one ends. */
  lemma {:induction false} WalkConcat(stack: seq<string>, a: seq<string>, b: seq<string>)
    requires Segments(stack) && SlashFree(a) && SlashFree(b)
    ensures SlashFree(a + b) && Walk(stack, a + b) == Walk(Walk(stack, a), b)
    decreases |a|
  {
    assert forall i :: 0 <= i < |a + b| ==> (a + b)[i] == if i < |a| then a[i] else b[i - |a|];
    if a != [] {
      var s := a[0];
      var next :=
        if s == "" || s == "." then stack
        else if s == ".." then (if stack == [] then [] else stack[..|stack| - 1])
        else stack + [s];
      assert (a + b)[0] == s && (a + b)[1..] == a[1..] + b;
      assert SlashFree(a[1..]);
      WalkConcat(next, a[1..], b);
    } else {
      assert a + b == b;
    }
  }

  /** A trailing ".." removes the last segment: resolving "/n.../x/.."
      gives the path of `n`. */
  lemma ParentStep(n: seq<string>, x: string)
    requires Segments(n) && IsSegment(x)
    ensures Resolve(Canon(n + [x]) + "/..") == Canon(n)
  {
    var parts := [""] + (n + [x]);
    assert parts[1..] == n + [x];
    assert Join(parts) == Canon(n + [x]);
    JoinSnoc(parts, "..");
    var all := parts + [".."];
    assert Join(all) == Canon(n + [x]) + "/..";
    assert all == [""] + ((n + [x]) + [".."]);
    assert Segments(n + [x]);
    WalkSegments([], n + [x]);
    assert SlashFree(all);
    SplitJoin(all);
    WalkConcat([], [""] + (n + [x]), [".."]);
    WalkConcat([], [""], n + [x]);
    assert Walk([], [""]) == [];
    assert Walk([], [""] + (n + [x])) == n + [x];
    assert (n + [x])[..|n + [x]| - 1] == n;
    assert Walk(n + [x], [".."]) == Walk(n, []) == n;
    assert Normalize(Canon(n + [x]) + "/..") == Walk([], all) == n;
  }

  /** ".." cannot climb above the root: "/.." resolves to "/". */
  lemma RootDotDot(p: string)
    requires p == "/.."
    ensures Resolve(p) == "/"
  {
    assert p[1..] == "..";
    SplitPrefix("..", "");
    assert ".." + "" == ".." && Split("") == [""];
    assert Split("..") == [".."];
    assert Split(p) == ["", ".."];
    assert Walk([], ["", ".."]) == Walk([], [".."]);
    assert Canon([]) == "/";
  }

  /** Resolving is idempotent: a resolved path is canonical. */
  lemma ResolveIdempotent(p: string)
    ensures Resolve(Resolve(p)) == Resolve(p)
  {
    NormalizeCanon(Normalize(p));
  }

  lemma CanonIsCanonical(n: seq<string>)
    requires Segments(n)
    ensures IsCanonical(Canon(n))
  {
    NormalizeCanon(n);
  }

  /** The index of the last separator in `s`, or -1 when it has none. */
  function LastSlash(s: string): (i: int)
    ensures -1 <= i < |s|
    ensures 0 <= i ==> s[i] == '/'
    ensures forall j :: i < j < |s| ==> s[j] != '/'
  {
    if s == [] then -1
    else if s[|s| - 1] == '/' then |s| - 1
    else LastSlash(s[..|s| - 1])
  }

  /** `s` without its trailing separators. */
  function TrimTrailing(s: string): string {
    if s != [] && s[|s| - 1] == '/' then TrimTrailing(s[..|s| - 1]) else s
  }

  /** Trimming keeps a prefix that does not end in a separator and drops
      only separators. */
  lemma {:induction false} TrimTrailingSpec(s: string)
    ensures var t := TrimTrailing(s);
      && t <= s
      && (t == [] || t[|t| - 1] != '/')
      && forall j :: |t| <= j < |s| ==> s[j] == '/'
    decreases |s|
  {
    if s != [] && s[|s| - 1] == '/' {
      TrimTrailingSpec(s[..|s| - 1]);
    }
  }

  /** `s` without its trailing separators, except that a path made only of
      separators keeps one: the root. */
  function Strip(s: string): string {
    var t := TrimTrailing(s);
    if t == [] && s != [] then "/" else t
  }

  /** `path.dirname`, as the bundled path polyfill computes it: everything
      before the last separator of the stripped path; "/" when that is the
      leading one; "." when there is none. */
  function Dirname(s: string): string {
    var p := Strip(s);
    var i := LastSlash(p);
    if i < 0 then "." else if i == 0 then "/" else p[..i]
  }

  /** `path.basename`: everything after the last separator of the stripped
      path. */
  function Basename(s: string): string {
    var p := Strip(s);
    p[LastSlash(p) + 1..]
  }

  /** The last separator is the one after which no other follows. */
  lemma LastSlashUnique(s: string, i: nat)
    requires i < |s| && s[i] == '/'
    requires forall j :: i < j < |s| ==> s[j] != '/'
    ensures LastSlash(s) == i
  {
    var r := LastSlash(s);
    assert r >= i;
  }

  lemma LastSlashAt(a: string, x: string, s: string)
    requires s == a + "/" + x && '/' !in x
    ensures LastSlash(s) == |a|
  {
    assert |s| == |a| + 1 + |x|;
    assert s[|a|] == '/';
    forall j | |a| < j < |s|
      ensures s[j] != '/'
    {
      assert s[j] == x[j - |a| - 1];
      assert x[j - |a| - 1] in x;
    }
    LastSlashUnique(s, |a|);
  }

  /** A string without separators has no last separator. */
  lemma LastSlashNone(x: string)
    requires '/' !in x
    ensures LastSlash(x) == -1
  {
    assert forall j :: 0 <= j < |x| ==> x[j] in x;
  }

  /** A path that does not end in a separator is its own stripped form. */
  lemma StripNoTrailing(s: string)
    requires s != [] && s[|s| - 1] != '/'
    ensures Strip(s) == s
  {
  }

  /** The parent of a canonical path with one more segment is the shorter
      path, and its base name is that segment. */
  lemma ParentOfCanon(m: seq<string>, x: string)
    requires Segments(m) && IsSegment(x)
    ensures Dirname(Canon(m + [x])) == Canon(m)
    ensures Basename(Canon(m + [x])) == x
  {
    var k := Canon(m + [x]);
    if m == [] {
      assert k == "" + "/" + x;
      LastSlashAt("", x, k);
    } else {
      JoinSnoc(m, x);
      assert k == Canon(m) + "/" + x;
      LastSlashAt(Canon(m), x, k);
      assert (Canon(m) + "/" + x)[..|Canon(m)|] == Canon(m);
    }
    assert k[|k| - 1] == x[|x| - 1] && x[|x| - 1] in x;
    StripNoTrailing(k);
  }

  /** The root is its own parent, with the empty base name. */
  lemma RootParent(r: string)
    requires r == "/"
    ensures Dirname(r) == r && Basename(r) == ""
  {
    assert r[..0] == "";
    assert TrimTrailing(r) == "";
    assert Strip(r) == r;
  }

  /** A trailing separator changes neither the parent nor the base name. */
  lemma TrailingSeparatorIgnored(s: string)
    requires s != ""
    ensures Dirname(s + "/") == Dirname(s) && Basename(s + "/") == Basename(s)
  {
    assert (s + "/")[..|s|] == s;
    assert TrimTrailing(s + "/") == TrimTrailing(s);
    assert Strip(s + "/") == Strip(s);
  }

  /** An example of `TrailingSeparatorIgnored`: "/a/" is the entry "a" of "/". */
  lemma TrailingSeparator(s: string)
    requires s == "/a/"
    ensures Dirname(s) == "/" && Basename(s) == "a"
  {
    assert s[..2] == "/a";
    assert TrimTrailing(s) == TrimTrailing("/a") == "/a";
    assert Strip(s) == "/a";
    LastSlashAt("", "a", "/a");
  }

  /** The parent of a canonical path is canonical. */
  lemma DirnameCanonical(k: string)
    requires IsCanonical(k)
    ensures IsCanonical(Dirname(k))
  {
    var n := Normalize(k);
    if n == [] {
      RootParent(k);
      CanonIsCanonical([]);
    } else {
      var m := n[..|n| - 1];
      assert n == m + [n[|n| - 1]];
      ParentOfCanon(m, n[|n| - 1]);
      CanonIsCanonical(m);
    }
  }

  /** The shape of a canonical path: the root, whose base name is empty, or
      a parent and a non-empty last segment. */
  lemma CanonShape(k: string)
    requires IsCanonical(k)
    ensures var n := Normalize(k);
      && k == Canon(n)
      && (n == [] ==> Basename(k) == "")
      && (n != [] ==> Basename(k) == n[|n| - 1] != ""
                      && Dirname(k) == Canon(n[..|n| - 1]))
  {
    var n := Normalize(k);
    if n == [] {
      assert k == Canon([]) == "/";
      RootParent(k);
    } else {
      assert n == n[..|n| - 1] + [n[|n| - 1]];
      ParentOfCanon(n[..|n| - 1], n[|n| - 1]);
    }
  }

  /** Two paths spelled by non-empty segment lists with the same parent
      and the same last segment are the same path. */
  lemma SameParentSameName(n1: seq<string>, n2: seq<string>)
    requires Segments(n1) && Segments(n2) && n1 != [] && n2 != []
    requires Canon(n1[..|n1| - 1]) == Canon(n2[..|n2| - 1]) && n1[|n1| - 1] == n2[|n2| - 1]
    ensures n1 == n2
  {
    var m1, m2 := n1[..|n1| - 1], n2[..|n2| - 1];
    NormalizeCanon(m1);
    NormalizeCanon(m2);
    assert n1 == m1 + [n1[|n1| - 1]];
    assert n2 == m2 + [n2[|n2| - 1]];
  }

  /** Two resolved paths with the same parent and base name are equal. */
  lemma SameParentAndName(k1: string, k2: string)
    requires IsCanonical(k1) && IsCanonical(k2)
    requires Dirname(k1) == Dirname(k2) && Basename(k1) == Basename(k2)
    ensures k1 == k2
  {
    var n1, n2 := Normalize(k1), Normalize(k2);
    CanonShape(k1);
    CanonShape(k2);
    if n1 != [] && n2 != [] {
      SameParentSameName(n1, n2);
    } else {
      assert n1 == [] && n2 == [];
      assert k1 == Canon(n1) && k2 == Canon(n2);
    }
  }

  /** A canonical path is determined by its parent and its base name. */
  lemma ParentAndNameDetermine(k1: string, k2: string)
    requires IsCanonical(k1) && IsCanonical(k2)
    ensures Dirname(k1) == Dirname(k2) && Basename(k1) == Basename(k2) <==> k1 == k2
  {
    if Dirname(k1) == Dirname(k2) && Basename(k1) == Basename(k2) {
      SameParentAndName(k1, k2);
    }
  }
}
