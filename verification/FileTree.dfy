/**
 * What a walk must visit and record, said of the directories themselves: which listings can be
 * used, which entries lead further, in which order. The recursive walk does all of it.
 */
module FileTree {
  import opened Sequences
  import opened WalkOrder

  // ---------------------------------------------------------------- one directory

  /** A subdirectory: not one of the two dot entries. */
  predicate Subdir(e: Dirent) {
    e.kind == Directory && e.name != "." && e.name != ".."
  }

  /** A directory that can be opened and has no entry that fails it; the empty path has no subdirectories. */
  ghost predicate Readable(fs: FileSystem, path: string) {
    && fs(path).Listed?
    && (forall i :: 0 <= i < |fs(path).entries| ==> !Failing(fs(path).entries[i]))
    && (path == "" ==> forall i :: 0 <= i < |fs(path).entries| ==> !Subdir(fs(path).entries[i]))
  }

  /** `q` is the path of the subdirectory `e` of `path`, and not too long. */
  predicate Leads(e: Dirent, path: string, q: string) {
    Subdir(e) && q == path + "/" + e.name && |q| <= PATH_MAX
  }

  /** `d` holds the entries of a readable directory that are not passed over, in listing order. */
  ghost predicate Lists(fs: FileSystem, d: Dir) {
    Readable(fs, d.path) && exists at :: PlacesOf(fs(d.path).entries, at) && KeptFrom(d.files, fs(d.path).entries, at)
  }

  lemma OpenedMeans(fs: FileSystem, path: string)
    ensures Opened(fs, path).Some? <==> Readable(fs, path)
    ensures Opened(fs, path).Some? ==> fs(path).Listed? && Opened(fs, path) == Scan(fs(path).entries)
  {
    if fs(path).Listed? {
      var entries := fs(path).entries;
      var at := ScanMeans(entries);
      if Scan(entries).Some? { KeptDirs(Scan(entries).value, entries, at); }
    }
  }

  /** The kept entries have a directory exactly if the listing has a subdirectory. */
  lemma KeptDirs(files: seq<File>, entries: seq<Dirent>, at: seq<nat>)
    requires PlacesOf(entries, at) && KeptFrom(files, entries, at)
    ensures (exists j :: 0 <= j < |files| && files[j].isDir) <==> exists i :: 0 <= i < |entries| && Subdir(entries[i])
  {
    if j :| 0 <= j < |files| && files[j].isDir {
      assert at[j] in at;
      assert Subdir(entries[at[j]]);
    }
    if i: nat :| i < |entries| && Subdir(entries[i]) {
      assert i in at;
      var j :| 0 <= j < |at| && at[j] == i;
      assert files[j].isDir;
    }
  }

  /** A readable directory is opened with exactly one list of entries. */
  lemma OpenedLists(fs: FileSystem, d: Dir)
    ensures Opened(fs, d.path) == Some(d.files) <==> Lists(fs, d)
  {
    OpenedMeans(fs, d.path);
    if Readable(fs, d.path) {
      var entries := fs(d.path).entries;
      var at := ScanMeans(entries);
      forall at' | PlacesOf(entries, at') && KeptFrom(d.files, entries, at') ensures d.files == Scan(entries).value {
        SamePlaces(entries, at, at');
      }
    }
  }

  lemma SamePlaces(entries: seq<Dirent>, at: seq<nat>, at': seq<nat>)
    requires PlacesOf(entries, at) && PlacesOf(entries, at')
    ensures at == at'
  {
    assert SameNumbers(at, at') by {
      forall i: nat ensures i in at <==> i in at' {
        if i in at || i in at' { assert i < |entries|; }
      }
    }
    SortedUnique(at, at');
  }

  ghost predicate SameNumbers(s: seq<nat>, t: seq<nat>) {
    forall i: nat :: i in s <==> i in t
  }

  /** Increasing sequences of the same numbers are the same. */
  lemma {:induction false} SortedUnique(s: seq<nat>, t: seq<nat>)
    requires Increasing(s) && Increasing(t) && SameNumbers(s, t)
    ensures s == t
  {
    if s != [] { assert s[0] in t; }
    if t != [] { assert t[0] in s; }
    if s != [] {
      var m, n := |s| - 1, |t| - 1;
      SameInits(s, t);
      SortedUnique(s[..m], t[..n]);
      assert s == s[..m] + [s[m]] && t == t[..n] + [t[n]];
    }
  }

  lemma SameInits(s: seq<nat>, t: seq<nat>)
    requires Increasing(s) && Increasing(t) && SameNumbers(s, t) && s != [] && t != []
    ensures s[|s| - 1] == t[|t| - 1] && SameNumbers(s[..|s| - 1], t[..|t| - 1])
  {
    var m, n := |s| - 1, |t| - 1;
    LastLargest(s);
    LastLargest(t);
    assert s[m] in t && t[n] in s;
    forall i: nat ensures i in s[..m] <==> i in t[..n] {
      assert i in s[..m] <==> i in s && i != s[m];
      assert i in t[..n] <==> i in t && i != t[n];
    }
  }

  lemma LastLargest(s: seq<nat>)
    requires Increasing(s) && s != []
    ensures forall i :: i in s ==> i <= s[|s| - 1]
    ensures forall i: nat :: i in s[..|s| - 1] <==> i in s && i != s[|s| - 1]
  {
    var m := |s| - 1;
    assert s == s[..m] + [s[m]];
  }

  /** `kids` are the paths of the subdirectories at the places `at`, which are all that lead further, in order. */
  predicate KidsAt(path: string, entries: seq<Dirent>, kids: seq<string>, at: seq<nat>) {
    && |kids| == |at| && Increasing(at)
    && (forall j :: 0 <= j < |at| ==> at[j] < |entries| && Leads(entries[at[j]], path, kids[j]))
    && forall i: nat :: i < |entries| ==> (i in at <==> Leads(entries[i], path, path + "/" + entries[i].name))
  }

  lemma {:induction false} ChildPathsMean(path: string, entries: seq<Dirent>) returns (at: seq<nat>)
    requires Scan(entries).Some?
    ensures KidsAt(path, entries, ChildPaths(path, Scan(entries).value), at)
    decreases |entries|
  {
    at := [];
    if entries != [] {
      var init, e := entries[..|entries| - 1], entries[|entries| - 1];
      assert entries == init + [e];
      ScanLast(init, e);
      var at0 := ChildPathsMean(path, init);
      at := if Leads(e, path, path + "/" + e.name) then at0 + [|init|] else at0;
      KidsGrow(path, init, ChildPaths(path, Scan(init).value), at0, e);
      ChildPathsLast(path, Scan(init).value, e);
    }
  }

  lemma ChildPathsLast(path: string, files: seq<File>, e: Dirent)
    requires !Failing(e)
    ensures var q := path + "/" + e.name;
            ChildPaths(path, files + if Skipped(e) then [] else [FileOf(e)]) ==
            if Leads(e, path, q) then ChildPaths(path, files) + [q] else ChildPaths(path, files)
  {
    if Skipped(e) {
      assert files + [] == files;
    } else {
      assert (files + [FileOf(e)])[..|files|] == files;
    }
  }

  lemma KidsGrow(path: string, entries: seq<Dirent>, kids: seq<string>, at: seq<nat>, e: Dirent)
    requires KidsAt(path, entries, kids, at)
    ensures var q := path + "/" + e.name;
            if Leads(e, path, q) then KidsAt(path, entries + [e], kids + [q], at + [|entries|])
            else KidsAt(path, entries + [e], kids, at)
  {
    var q := path + "/" + e.name;
    var entries', at' := entries + [e], if Leads(e, path, q) then at + [|entries|] else at;
    forall i: nat | i < |entries'| ensures i in at' <==> Leads(entries'[i], path, path + "/" + entries'[i].name) {
      assert i < |entries| ==> entries'[i] == entries[i];
      assert i == |entries| ==> i !in at;
    }
  }

  /** The children of a readable directory are its subdirectories, in listing order; others have none. */
  lemma KidsMean(fs: FileSystem, path: string) returns (at: seq<nat>)
    ensures !Readable(fs, path) ==> Kids(fs, path) == []
    ensures Readable(fs, path) ==> KidsAt(path, fs(path).entries, Kids(fs, path), at)
  {
    OpenedMeans(fs, path);
    at := [];
    if Readable(fs, path) { at := ChildPathsMean(path, fs(path).entries); }
  }

  // ---------------------------------------------------------------- what is visited

  /** `q` is the path of a subdirectory of a readable directory. */
  ghost predicate ChildOf(fs: FileSystem, path: string, q: string) {
    Readable(fs, path) && exists i :: 0 <= i < |fs(path).entries| && Leads(fs(path).entries[i], path, q)
  }

  /** A way down: each path is that of a subdirectory of the one before. */
  ghost predicate Descent(fs: FileSystem, c: seq<string>) {
    c != [] && forall i :: 0 < i < |c| ==> StepDown(fs, c, i)
  }

  ghost predicate StepDown(fs: FileSystem, c: seq<string>, i: nat)
    requires 0 < i < |c|
  {
    ChildOf(fs, c[i - 1], c[i])
  }

  ghost predicate Reached(fs: FileSystem, start: string, q: string) {
    exists c :: Descent(fs, c) && c[0] == start && c[|c| - 1] == q
  }

  lemma ChildIsKid(fs: FileSystem, path: string, q: string)
    ensures q in Kids(fs, path) <==> ChildOf(fs, path, q)
  {
    var at := KidsMean(fs, path);
    var kids := Kids(fs, path);
    if q in kids {
      var j :| 0 <= j < |kids| && kids[j] == q;
      assert Leads(fs(path).entries[at[j]], path, q);
    }
    if ChildOf(fs, path, q) {
      var i: nat :| i < |fs(path).entries| && Leads(fs(path).entries[i], path, q);
      assert i in at;
      var j :| 0 <= j < |at| && at[j] == i;
      assert kids[j] == q;
    }
  }

  lemma ChainIsDescent(fs: FileSystem, c: seq<string>)
    ensures Chain(fs, c) <==> Descent(fs, c)
  {
    forall i | 0 < i < |c| ensures ChildAt(fs, c, i) <==> StepDown(fs, c, i) { ChildIsKid(fs, c[i - 1], c[i]); }
  }

  /** A walk visits exactly what can be reached from its start. */
  lemma VisitedMeans(fs: FileSystem, start: string, q: string)
    requires |start| <= PATH_MAX
    ensures q in Order(fs, start) <==> Reached(fs, start, q)
  {
    VisitedIffReachable(fs, start, q);
    if c :| Chain(fs, c) && c[0] == start && c[|c| - 1] == q { ChainIsDescent(fs, c); }
    if c :| Descent(fs, c) && c[0] == start && c[|c| - 1] == q { ChainIsDescent(fs, c); }
  }

  // ---------------------------------------------------------------- in which order

  /** Whatever of `visited` lies at or below `p` comes before whatever lies at or below `q`. */
  ghost predicate Before(visited: seq<string>, p: string, q: string) {
    forall m, n :: 0 <= m < |visited| && 0 <= n < |visited| && Under(visited[m], p) && Under(visited[n], q) ==> m < n
  }

  /** A directory comes before everything below it. */
  ghost predicate ParentFirst(visited: seq<string>) {
    forall m, n :: 0 <= m < |visited| && 0 <= n < |visited| && m != n && Under(visited[n], visited[m]) ==> m < n
  }

  /** Of two subdirectories of one directory, the one listed later comes first with all that is below it. */
  ghost predicate LaterFirst(fs: FileSystem, visited: seq<string>) {
    forall path, i, j :: path in visited && Siblings(fs, path, i, j) ==> LaterBefore(fs, visited, path, i, j)
  }

  ghost predicate Siblings(fs: FileSystem, path: string, i: nat, j: nat) {
    && Readable(fs, path) && i < j < |fs(path).entries| && Subdir(fs(path).entries[i]) && Subdir(fs(path).entries[j])
  }

  ghost predicate LaterBefore(fs: FileSystem, visited: seq<string>, path: string, i: nat, j: nat)
    requires fs(path).Listed? && i < j < |fs(path).entries|
  {
    Before(visited, path + "/" + fs(path).entries[j].name, path + "/" + fs(path).entries[i].name)
  }

  /** Of several paths apart from each other, a later one is walked before an earlier one. */
  lemma {:induction false} LastPathFirst(fs: FileSystem, paths: seq<string>, low: int, i: nat, j: nat)
    requires GoodNames(fs) && -1 <= low && Within(paths, low) && AllApart(paths) && i < j < |paths|
    ensures Before(OrderAll(fs, paths, low), paths[j], paths[i])
    decreases |paths|
  {
    var n := |paths| - 1;
    var init := paths[..n];
    var a, b := Order(fs, paths[n]), OrderAll(fs, init, low);
    LastApart(fs, paths, init, low, i);
    if j < n {
      LastApart(fs, paths, init, low, j);
      LastPathFirst(fs, init, low, i, j);
      BeforeBehind(a, b, paths[j], paths[i]);
    } else {
      BeforeAcross(a, b, paths[j], paths[i]);
    }
  }

  lemma LastApart(fs: FileSystem, paths: seq<string>, init: seq<string>, low: int, i: nat)
    requires GoodNames(fs) && -1 <= low && Within(paths, low) && AllApart(paths) && i < |paths| - 1
    requires init == paths[..|paths| - 1]
    ensures forall q :: q in Order(fs, paths[|paths| - 1]) ==> !Under(q, paths[i])
    ensures forall q :: q in OrderAll(fs, init, low) ==> !Under(q, paths[|paths| - 1])
  {
    var n := |paths| - 1;
    OrderUnder(fs, paths[n]);
    OrderAllUnder(fs, init, low);
    assert Apart(paths[i], paths[n]);
    forall q | q in OrderAll(fs, init, low) ensures !Under(q, paths[n]) {
      var k :| 0 <= k < n && Under(q, init[k]);
      assert Apart(paths[k], paths[n]);
    }
  }

  lemma BeforeBehind(a: seq<string>, b: seq<string>, p: string, q: string)
    requires Before(b, p, q) && forall r :: r in a ==> !Under(r, p) && !Under(r, q)
    ensures Before(a + b, p, q)
  {
    var s := a + b;
    forall m, n | 0 <= m < |s| && 0 <= n < |s| && Under(s[m], p) && Under(s[n], q) ensures m < n {
      InEither(a, b, m);
      InEither(a, b, n);
    }
  }

  lemma BeforeAcross(a: seq<string>, b: seq<string>, p: string, q: string)
    requires (forall r :: r in a ==> !Under(r, q)) && (forall r :: r in b ==> !Under(r, p))
    ensures Before(a + b, p, q)
  {
    var s := a + b;
    forall m, n | 0 <= m < |s| && 0 <= n < |s| && Under(s[m], p) && Under(s[n], q) ensures m < n {
      InEither(a, b, m);
      InEither(a, b, n);
    }
  }

  lemma InEither(a: seq<string>, b: seq<string>, m: nat)
    requires m < |a + b|
    ensures if m < |a| then (a + b)[m] in a else (a + b)[m] == b[m - |a|] && (a + b)[m] in b
  {
  }

  /** `s` is `a`, then `block`, then `b`, and outside the block nothing lies at or below `path`. */
  ghost predicate Encloses(s: seq<string>, a: seq<string>, block: seq<string>, b: seq<string>, path: string) {
    s == a + block + b && (forall q :: q in a ==> !Under(q, path)) && forall q :: q in b ==> !Under(q, path)
  }

  /** The walk from a visited path is one piece of the whole walk, and holds all of it that lies below that path. */
  lemma {:induction false} BlockOf(fs: FileSystem, start: string, path: string) returns (a: seq<string>, b: seq<string>)
    requires GoodNames(fs) && |start| <= PATH_MAX && path in Order(fs, start)
    ensures |path| <= PATH_MAX && Under(path, start) && Encloses(Order(fs, start), a, Order(fs, path), b, path)
    decreases PATH_MAX - |start|, 1, 0
  {
    OrderUnder(fs, start);
    a, b := [], [];
    if path == start {
      assert Order(fs, start) == [] + Order(fs, path) + [];
    } else {
      KidsLonger(fs, start);
      KidsApart(fs, start);
      BelowTop(fs, start, path);
      a, b := BlockBelow(fs, Kids(fs, start), |start|, path);
      assert !Under(start, path);
      EnclosesMore([start], OrderAll(fs, Kids(fs, start), |start|), a, Order(fs, path), b, path);
      OrderTop(fs, start);
      a := [start] + a;
    }
  }

  lemma OrderTop(fs: FileSystem, path: string)
    requires |path| <= PATH_MAX
    ensures Within(Kids(fs, path), |path|) && Order(fs, path) == [path] + OrderAll(fs, Kids(fs, path), |path|)
  {
    KidsLonger(fs, path);
  }

  lemma EnclosesMore(first: seq<string>, s: seq<string>, a: seq<string>, block: seq<string>, b: seq<string>, path: string)
    requires Encloses(s, a, block, b, path) && forall q :: q in first ==> !Under(q, path)
    ensures Encloses(first + s, first + a, block, b, path)
  {
    assert first + (a + block + b) == (first + a) + block + b;
  }

  lemma EnclosesBefore(s: seq<string>, last: seq<string>, a: seq<string>, block: seq<string>, b: seq<string>, path: string)
    requires Encloses(s, a, block, b, path) && forall q :: q in last ==> !Under(q, path)
    ensures Encloses(s + last, a, block, b + last, path)
  {
    assert (a + block + b) + last == a + block + (b + last);
  }

  lemma {:induction false} BlockBelow(fs: FileSystem, paths: seq<string>, low: int, path: string)
    returns (a: seq<string>, b: seq<string>)
    requires GoodNames(fs) && -1 <= low && Within(paths, low) && AllApart(paths) && path in OrderAll(fs, paths, low)
    ensures |path| <= PATH_MAX && Encloses(OrderAll(fs, paths, low), a, Order(fs, path), b, path)
    decreases PATH_MAX - low, 0, |paths|
  {
    var n := |paths| - 1;
    var init := paths[..n];
    OrderUnder(fs, paths[n]);
    OrderAllUnder(fs, init, low);
    if path in Order(fs, paths[n]) {
      a, b := BlockOf(fs, paths[n], path);
      forall q | q in OrderAll(fs, init, low) ensures !Under(q, path) {
        var k :| 0 <= k < n && Under(q, init[k]);
        assert Apart(paths[k], paths[n]);
        if Under(q, path) { UnderTrans(q, path, paths[n]); }
      }
      EnclosesBefore(Order(fs, paths[n]), OrderAll(fs, init, low), a, Order(fs, path), b, path);
      b := b + OrderAll(fs, init, low);
    } else {
      a, b := BlockBelow(fs, init, low, path);
      var k :| 0 <= k < n && Under(path, init[k]);
      assert Apart(paths[k], paths[n]);
      forall q | q in Order(fs, paths[n]) ensures !Under(q, path) {
        if Under(q, path) { UnderTrans(q, path, paths[k]); }
      }
      EnclosesMore(Order(fs, paths[n]), OrderAll(fs, init, low), a, Order(fs, path), b, path);
      a := Order(fs, paths[n]) + a;
    }
  }

  lemma OrderParentFirst(fs: FileSystem, start: string)
    requires GoodNames(fs) && |start| <= PATH_MAX
    ensures ParentFirst(Order(fs, start))
  {
    var order := Order(fs, start);
    OrderNoDup(fs, start);
    forall m, n | 0 <= m < |order| && 0 <= n < |order| && m != n && Under(order[n], order[m]) ensures m < n {
      var a, b := BlockOf(fs, start, order[m]);
      BlockFirst(order, a, Order(fs, order[m]), b, m, n);
    }
  }

  /** What heads its own block comes before the rest of the block. */
  lemma BlockFirst(s: seq<string>, a: seq<string>, block: seq<string>, b: seq<string>, m: nat, n: nat)
    requires m < |s| && n < |s| && m != n && NoDup(s) && block != [] && block[0] == s[m]
    requires Encloses(s, a, block, b, s[m]) && Under(s[n], s[m])
    ensures m < n
  {
    assert s[|a|] == block[0];
    assert m == |a|;
    InEither(a, block + b, n);
    assert s == a + (block + b);
  }

  lemma BeforeInside(s: seq<string>, a: seq<string>, block: seq<string>, b: seq<string>, path: string, p: string, q: string)
    requires Encloses(s, a, block, b, path) && Before(block, p, q) && Under(p, path) && Under(q, path)
    ensures Before(s, p, q)
  {
    forall m, n | 0 <= m < |s| && 0 <= n < |s| && Under(s[m], p) && Under(s[n], q) ensures m < n {
      InBlock(s, a, block, b, path, p, m);
      InBlock(s, a, block, b, path, q, n);
    }
  }

  lemma InBlock(s: seq<string>, a: seq<string>, block: seq<string>, b: seq<string>, path: string, p: string, m: nat)
    requires Encloses(s, a, block, b, path) && Under(p, path) && m < |s| && Under(s[m], p)
    ensures |a| <= m < |a| + |block| && s[m] == block[m - |a|]
  {
    UnderTrans(s[m], p, path);
    InEither(a + block, b, m);
    if m < |a + block| { InEither(a, block, m); }
  }

  /** A path too long to be visited leads to nothing visited. */
  lemma NothingBelow(visited: seq<string>, p: string, q: string)
    requires |p| > PATH_MAX || |q| > PATH_MAX
    requires forall r :: r in visited ==> |r| <= PATH_MAX
    ensures Before(visited, p, q)
  {
    assert forall m :: 0 <= m < |visited| ==> |visited[m]| <= PATH_MAX;
  }

  lemma PlacesOrdered(at: seq<nat>, k: nat, l: nat)
    requires Increasing(at) && k < |at| && l < |at| && at[k] < at[l]
    ensures k < l
  {
  }

  lemma KidsBefore(fs: FileSystem, path: string, i: nat, j: nat)
    requires GoodNames(fs) && |path| <= PATH_MAX && Siblings(fs, path, i, j)
    requires |path + "/" + fs(path).entries[i].name| <= PATH_MAX && |path + "/" + fs(path).entries[j].name| <= PATH_MAX
    ensures LaterBefore(fs, Order(fs, path), path, i, j)
  {
    var k, l := KidPlaces(fs, path, i, j);
    KidsInOrder(fs, path, k, l);
  }

  lemma KidPlaces(fs: FileSystem, path: string, i: nat, j: nat) returns (k: nat, l: nat)
    requires Siblings(fs, path, i, j)
    requires |path + "/" + fs(path).entries[i].name| <= PATH_MAX && |path + "/" + fs(path).entries[j].name| <= PATH_MAX
    ensures k < l < |Kids(fs, path)|
    ensures Kids(fs, path)[k] == path + "/" + fs(path).entries[i].name
    ensures Kids(fs, path)[l] == path + "/" + fs(path).entries[j].name
  {
    var at := KidsMean(fs, path);
    assert i in at && j in at;
    k :| 0 <= k < |at| && at[k] == i;
    l :| 0 <= l < |at| && at[l] == j;
    PlacesOrdered(at, k, l);
  }

  /** The walk below a later child comes before the walk below an earlier one. */
  lemma KidsInOrder(fs: FileSystem, path: string, k: nat, l: nat)
    requires GoodNames(fs) && |path| <= PATH_MAX && k < l < |Kids(fs, path)|
    ensures Before(Order(fs, path), Kids(fs, path)[l], Kids(fs, path)[k])
  {
    var kids := Kids(fs, path);
    OrderTop(fs, path);
    KidsApart(fs, path);
    LastPathFirst(fs, kids, |path|, k, l);
    BeforeBehind([path], OrderAll(fs, kids, |path|), kids[l], kids[k]);
  }

  lemma OrderLaterFirst(fs: FileSystem, start: string)
    requires GoodNames(fs) && |start| <= PATH_MAX
    ensures LaterFirst(fs, Order(fs, start))
  {
    var order := Order(fs, start);
    forall path, i, j | path in order && Siblings(fs, path, i, j) ensures LaterBefore(fs, order, path, i, j) {
      LaterSibling(fs, start, path, i, j);
    }
  }

  lemma LaterSibling(fs: FileSystem, start: string, path: string, i: nat, j: nat)
    requires GoodNames(fs) && |start| <= PATH_MAX && path in Order(fs, start) && Siblings(fs, path, i, j)
    ensures LaterBefore(fs, Order(fs, start), path, i, j)
  {
    var p, q := path + "/" + fs(path).entries[j].name, path + "/" + fs(path).entries[i].name;
    var a, b := BlockOf(fs, start, path);
    if |p| <= PATH_MAX && |q| <= PATH_MAX {
      KidsBefore(fs, path, i, j);
      UnderChild(path, fs(path).entries[i].name);
      UnderChild(path, fs(path).entries[j].name);
      BeforeInside(Order(fs, start), a, Order(fs, path), b, path, p, q);
    } else {
      OrderShort(fs, start);
      NothingBelow(Order(fs, start), p, q);
    }
  }

  lemma UnderChild(path: string, name: string)
    ensures Under(path + "/" + name, path)
  {
  }

  lemma OrderShort(fs: FileSystem, start: string)
    requires GoodNames(fs) && |start| <= PATH_MAX
    ensures forall r :: r in Order(fs, start) ==> |r| <= PATH_MAX
  {
    forall r | r in Order(fs, start) ensures |r| <= PATH_MAX { var a, b := BlockOf(fs, start, r); }
  }

  /** Everything reachable is visited once, parents first, and later subdirectories before earlier ones. */
  ghost predicate Visits(fs: FileSystem, start: string, visited: seq<string>) {
    && NoDup(visited) && (forall q :: q in visited <==> Reached(fs, start, q))
    && ParentFirst(visited) && LaterFirst(fs, visited)
  }

  lemma OrderVisits(fs: FileSystem, start: string)
    requires GoodNames(fs) && |start| <= PATH_MAX
    ensures Visits(fs, start, Order(fs, start))
  {
    OrderNoDup(fs, start);
    OrderParentFirst(fs, start);
    OrderLaterFirst(fs, start);
    forall q ensures q in Order(fs, start) <==> Reached(fs, start, q) { VisitedMeans(fs, start, q); }
  }

  // ---------------------------------------------------------------- no other order

  /** `p` and `q` are at or below two subdirectories of one directory, `p` of the one listed later. */
  ghost predicate Parted(fs: FileSystem, path: string, i: nat, j: nat, p: string, q: string) {
    && Siblings(fs, path, i, j)
    && Under(p, path + "/" + fs(path).entries[j].name) && Under(q, path + "/" + fs(path).entries[i].name)
  }

  /** One of them is below the other, or they part at a visited directory. */
  ghost predicate Related(fs: FileSystem, visited: seq<string>, p: string, q: string) {
    || Under(p, q) || Under(q, p)
    || exists path, i, j :: path in visited && (Parted(fs, path, i, j, p, q) || Parted(fs, path, i, j, q, p))
  }

  lemma RelatedGrows(fs: FileSystem, visited: seq<string>, visited': seq<string>, p: string, q: string)
    requires Related(fs, visited, p, q) && forall r :: r in visited ==> r in visited'
    ensures Related(fs, visited', p, q)
  {
    if !Under(p, q) && !Under(q, p) {
      var path, i, j :| path in visited && (Parted(fs, path, i, j, p, q) || Parted(fs, path, i, j, q, p));
      assert path in visited';
    }
  }

  lemma KidsParted(fs: FileSystem, path: string, k: nat, l: nat, p: string, q: string) returns (i: nat, j: nat)
    requires k < l < |Kids(fs, path)| && Under(p, Kids(fs, path)[l]) && Under(q, Kids(fs, path)[k])
    ensures Parted(fs, path, i, j, p, q)
  {
    var at := KidsMean(fs, path);
    i, j := at[k], at[l];
    assert Leads(fs(path).entries[i], path, Kids(fs, path)[k]) && Leads(fs(path).entries[j], path, Kids(fs, path)[l]);
  }

  lemma {:induction false} KidOf(fs: FileSystem, paths: seq<string>, low: int, q: string) returns (k: nat)
    requires -1 <= low && Within(paths, low) && q in OrderAll(fs, paths, low)
    ensures k < |paths| && q in Order(fs, paths[k])
    ensures forall r :: r in Order(fs, paths[k]) ==> r in OrderAll(fs, paths, low)
    decreases |paths|
  {
    var n := |paths| - 1;
    if q in Order(fs, paths[n]) {
      k := n;
    } else {
      k := KidOf(fs, paths[..n], low, q);
    }
  }

  /** Any two visited paths are related. */
  lemma {:induction false} VisitedRelated(fs: FileSystem, start: string, p: string, q: string)
    requires GoodNames(fs) && |start| <= PATH_MAX && p in Order(fs, start) && q in Order(fs, start)
    ensures Related(fs, Order(fs, start), p, q)
    decreases PATH_MAX - |start|
  {
    OrderUnder(fs, start);
    if p != start && q != start {
      OrderTop(fs, start);
      var kids := Kids(fs, start);
      var k := KidOf(fs, kids, |start|, p);
      var l := KidOf(fs, kids, |start|, q);
      OrderUnder(fs, kids[k]);
      OrderUnder(fs, kids[l]);
      if k < l {
        var i, j := KidsParted(fs, start, k, l, q, p);
      } else if l < k {
        var i, j := KidsParted(fs, start, l, k, p, q);
      } else {
        VisitedRelated(fs, kids[k], p, q);
        RelatedGrows(fs, Order(fs, kids[k]), Order(fs, start), p, q);
      }
    }
  }

  /** Related paths come in the same order in all that keep to the rules. */
  lemma RelatedOrder(fs: FileSystem, s: seq<string>, t: seq<string>, m: nat, n: nat, m': nat, n': nat)
    requires ParentFirst(s) && ParentFirst(t) && LaterFirst(fs, s) && LaterFirst(fs, t)
    requires forall q :: q in s <==> q in t
    requires m < n < |s| && m' < |t| && n' < |t| && s[m] == t[m'] && s[n] == t[n'] && s[m] != s[n]
    requires Related(fs, s, s[m], s[n])
    ensures m' < n'
  {
    if !Under(s[m], s[n]) && !Under(s[n], s[m]) {
      var path, i, j :| path in s && (Parted(fs, path, i, j, s[m], s[n]) || Parted(fs, path, i, j, s[n], s[m]));
      assert Siblings(fs, path, i, j);
      assert LaterBefore(fs, s, path, i, j) && LaterBefore(fs, t, path, i, j);
    }
  }

  ghost predicate SameOrder(s: seq<string>, t: seq<string>) {
    forall m, n, m', n' ::
      m < n < |s| && 0 <= m && 0 <= m' < |t| && 0 <= n' < |t| && s[m] == t[m'] && s[n] == t[n'] ==> m' < n'
  }

  /** Sequences with the same elements in the same order, each once, are equal. */
  lemma {:induction false} SameOrderSame(s: seq<string>, t: seq<string>)
    requires NoDup(s) && NoDup(t) && SameOrder(s, t) && forall q :: q in s <==> q in t
    ensures s == t
  {
    if s != [] { assert s[0] in t; }
    if t != [] { assert t[0] in s; }
    if s != [] {
      var m, n := |s| - 1, |t| - 1;
      SameLast(s, t);
      WithoutLast(s);
      WithoutLast(t);
      forall q ensures q in s[..m] <==> q in t[..n] {
        assert q in s[..m] <==> q in s && q != s[m];
        assert q in t[..n] <==> q in t && q != t[n];
      }
      SameOrderSame(s[..m], t[..n]);
      assert s == s[..m] + [s[m]] && t == t[..n] + [t[n]];
    }
  }

  lemma SameLast(s: seq<string>, t: seq<string>)
    requires SameOrder(s, t) && s != [] && t != [] && forall q :: q in s <==> q in t
    ensures s[|s| - 1] == t[|t| - 1] && SameOrder(s[..|s| - 1], t[..|t| - 1])
  {
    var m, n := |s| - 1, |t| - 1;
    assert s[m] in t && t[n] in s;
    var m' :| 0 <= m' <= n && t[m'] == s[m];
    var n' :| 0 <= n' <= m && s[n'] == t[n];
    assert n' == m;
  }

  lemma WithoutLast(s: seq<string>)
    requires NoDup(s) && s != []
    ensures NoDup(s[..|s| - 1]) && forall q :: q in s[..|s| - 1] <==> q in s && q != s[|s| - 1]
  {
    var m := |s| - 1;
    assert s == s[..m] + [s[m]];
  }

  /** There is no other way to visit: what a walk must do determines the whole sequence of visits. */
  lemma VisitsUnique(fs: FileSystem, start: string, visited: seq<string>)
    requires GoodNames(fs) && |start| <= PATH_MAX && Visits(fs, start, visited)
    ensures visited == Order(fs, start)
  {
    var order := Order(fs, start);
    OrderVisits(fs, start);
    forall m, n, m', n' | m < n < |order| && 0 <= m && 0 <= m' < |visited| && 0 <= n' < |visited|
                          && order[m] == visited[m'] && order[n] == visited[n']
      ensures m' < n'
    {
      VisitedRelated(fs, start, order[m], order[n]);
      RelatedOrder(fs, order, visited, m, n, m', n');
    }
    SameOrderSame(order, visited);
  }

  // ---------------------------------------------------------------- what is recorded

  /** `dirs` lists the readable paths among `visited`, which are at the places `at`, in order. */
  ghost predicate RecordsAt(fs: FileSystem, visited: seq<string>, dirs: seq<Dir>, at: seq<nat>) {
    && |dirs| == |at| && Increasing(at)
    && (forall k :: 0 <= k < |at| ==> at[k] < |visited| && dirs[k].path == visited[at[k]] && Lists(fs, dirs[k]))
    && forall m: nat :: m < |visited| ==> (m in at <==> Readable(fs, visited[m]))
  }

  ghost predicate Records(fs: FileSystem, visited: seq<string>, dirs: seq<Dir>) {
    exists at :: RecordsAt(fs, visited, dirs, at)
  }

  /** There is no other record of the same visits. */
  lemma RecordsUnique(fs: FileSystem, visited: seq<string>, dirs: seq<Dir>)
    requires Records(fs, visited, dirs)
    ensures dirs == Recorded(fs, visited)
  {
    var at :| RecordsAt(fs, visited, dirs, at);
    var record := Recorded(fs, visited);
    var at' := RecordedMeans(fs, visited);
    assert SameNumbers(at, at') by {
      forall m: nat ensures m in at <==> m in at' {
        if m in at || m in at' { assert m < |visited|; }
      }
    }
    SortedUnique(at, at');
    forall k | 0 <= k < |dirs| ensures dirs[k] == record[k] {
      OpenedLists(fs, dirs[k]);
      OpenedLists(fs, record[k]);
    }
  }

  lemma {:induction false} RecordedMeans(fs: FileSystem, visited: seq<string>) returns (at: seq<nat>)
    ensures RecordsAt(fs, visited, Recorded(fs, visited), at)
    decreases |visited|
  {
    at := [];
    if visited != [] {
      var init, path := visited[..|visited| - 1], visited[|visited| - 1];
      assert visited == init + [path];
      var at0 := RecordedMeans(fs, init);
      RecordStep(fs, init, path);
      OpenedMeans(fs, path);
      at := if Readable(fs, path) then at0 + [|init|] else at0;
      if Readable(fs, path) { OpenedLists(fs, Dir(path, Opened(fs, path).value)); }
      RecordsGrow(fs, init, Recorded(fs, init), at0, path);
    }
  }

  lemma RecordsGrow(fs: FileSystem, visited: seq<string>, dirs: seq<Dir>, at: seq<nat>, path: string)
    requires RecordsAt(fs, visited, dirs, at)
    ensures !Readable(fs, path) ==> RecordsAt(fs, visited + [path], dirs + [], at)
    ensures forall files :: Lists(fs, Dir(path, files)) ==>
              RecordsAt(fs, visited + [path], dirs + [Dir(path, files)], at + [|visited|])
  {
    var visited', at' := visited + [path], if Readable(fs, path) then at + [|visited|] else at;
    forall m: nat | m < |visited'| ensures m in at' <==> Readable(fs, visited'[m]) {
      assert m < |visited| ==> visited'[m] == visited[m];
      assert m == |visited| ==> m !in at;
    }
    assert dirs + [] == dirs;
  }

  // ---------------------------------------------------------------- the start path

  /** A start path loses one trailing slash, unless it is nothing else, and must then be short enough. */
  lemma PathInitMeans(s: string)
    ensures var p := PathInit(s);
            && (|s| <= 1 ==> p == Some(s))
            && (forall init :: init != "" && s == init + "/" ==> p == if |init| <= PATH_MAX then Some(init) else None)
            && (s != "" && s[|s| - 1] != '/' ==> p == if |s| <= PATH_MAX then Some(s) else None)
  {
    assert s[..|s|] == s;
    forall init | init != "" && s == init + "/" ensures s[..|s| - 1] == init {
    }
  }
}
