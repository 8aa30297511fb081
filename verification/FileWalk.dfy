/**
 * The order in which a directory walk visits directories, by recursion on the directory tree.
 *
 * A file system is given by what opening and listing each path yields. Nothing is assumed about
 * it except that entry names are what a directory can hold.
 */
module WalkOrder {
  import opened Sequences

  const PATH_MAX: nat := 4096
  const NAME_MAX: nat := 255

  datatype Kind = Regular | Directory | Unknown | Unsupported

  datatype Dirent = Dirent(name: string, kind: Kind)

  datatype Listing = Denied | Listed(entries: seq<Dirent>)

  type FileSystem = string -> Listing

  /** A directory entry that the walk keeps. */
  datatype File = File(name: string, isDir: bool)

  /** One directory of the record: its path and its entries. */
  datatype Dir = Dir(path: string, files: seq<File>)

  datatype Option<+T> = None | Some(value: T)

  /** Names a directory can hold: not empty, without slashes, no two alike. */
  ghost predicate GoodNames(fs: FileSystem) {
    forall path :: fs(path).Listed? ==> GoodEntries(fs(path).entries)
  }

  predicate GoodEntries(entries: seq<Dirent>) {
    && (forall i :: 0 <= i < |entries| ==> entries[i].name != "" && '/' !in entries[i].name)
    && (forall i, j :: 0 <= i < j < |entries| ==> entries[i].name != entries[j].name)
  }

  // ---------------------------------------------------------------- one directory

  /**
   * The entries kept from a listing. Dot entries and unsupported kinds are passed over; an entry of
   * unknown kind, or a name that is too long, fails the whole directory.
   */
  function Scan(entries: seq<Dirent>): Option<seq<File>> {
    if entries == [] then Some([])
    else
      var n := |entries| - 1;
      var init := Scan(entries[..n]);
      if init.None? then None
      else
        var e := entries[n];
        if e.name == "." || e.name == ".." || e.kind == Unsupported then init
        else if e.kind == Unknown || |e.name| > NAME_MAX then None
        else Some(init.value + [File(e.name, e.kind == Directory)])
  }

  /** The path of an entry of `path`, if it is short enough. */
  function Compose(path: string, name: string): Option<string> {
    if |path| + |name| + 1 > PATH_MAX then None else Some(path + "/" + name)
  }

  /** The paths pushed for the kept entries, in listing order. */
  function ChildPaths(path: string, files: seq<File>): seq<string> {
    if files == [] then []
    else
      var n := |files| - 1;
      var init := ChildPaths(path, files[..n]);
      var child := Compose(path, files[n].name);
      if files[n].isDir && child.Some? then init + [child.value] else init
  }

  /** What opening and scanning a directory yields; nothing can be composed with an empty path. */
  function Opened(fs: FileSystem, path: string): Option<seq<File>> {
    match fs(path)
    case Denied => None
    case Listed(entries) =>
      var files := Scan(entries);
      if files.Some? && path == "" && (exists i :: 0 <= i < |files.value| && files.value[i].isDir) then None
      else files
  }

  function Kids(fs: FileSystem, path: string): seq<string> {
    var files := Opened(fs, path);
    if files.None? then [] else ChildPaths(path, files.value)
  }

  lemma {:induction false} ChildPathsAre(path: string, files: seq<File>)
    ensures forall q :: q in ChildPaths(path, files) <==>
              exists i :: 0 <= i < |files| && files[i].isDir && Compose(path, files[i].name) == Some(q)
  {
    if files != [] {
      var n := |files| - 1;
      var init := files[..n];
      ChildPathsAre(path, init);
      forall q
        ensures q in ChildPaths(path, files) <==>
                exists i :: 0 <= i < |files| && files[i].isDir && Compose(path, files[i].name) == Some(q)
      {
        if q in ChildPaths(path, init) {
          var i :| 0 <= i < |init| && init[i].isDir && Compose(path, init[i].name) == Some(q);
          assert files[i] == init[i];
        }
        if exists i :: 0 <= i < |files| && files[i].isDir && Compose(path, files[i].name) == Some(q) {
          var i :| 0 <= i < |files| && files[i].isDir && Compose(path, files[i].name) == Some(q);
          if i < n { assert init[i] == files[i]; }
        }
      }
    }
  }

  /** Children are longer than their parent and within the limit. */
  lemma KidsLonger(fs: FileSystem, path: string)
    ensures forall i :: 0 <= i < |Kids(fs, path)| ==> |path| < |Kids(fs, path)[i]| <= PATH_MAX
  {
    var files := Opened(fs, path);
    if files.Some? {
      ChildPathsAre(path, files.value);
      forall i | 0 <= i < |Kids(fs, path)| ensures |path| < |Kids(fs, path)[i]| <= PATH_MAX {
        assert Kids(fs, path)[i] in ChildPaths(path, files.value);
      }
    }
  }

  // ---------------------------------------------------------------- the recursive walk

  predicate Within(paths: seq<string>, low: int) {
    forall i :: 0 <= i < |paths| ==> low < |paths[i]| <= PATH_MAX
  }

  /** Preorder: a directory, then its subdirectories from the last to the first. */
  function Order(fs: FileSystem, path: string): seq<string>
    requires |path| <= PATH_MAX
    decreases PATH_MAX - |path|, 1, 0
  {
    KidsLonger(fs, path);
    [path] + OrderAll(fs, Kids(fs, path), |path|)
  }

  /** The walks below several paths, the last path first. */
  function OrderAll(fs: FileSystem, paths: seq<string>, low: int): seq<string>
    requires -1 <= low && Within(paths, low)
    decreases PATH_MAX - low, 0, |paths|
  {
    if paths == [] then []
    else Order(fs, paths[|paths| - 1]) + OrderAll(fs, paths[..|paths| - 1], low)
  }

  /** The directories recorded among the visited paths: those that could be opened and scanned. */
  function Recorded(fs: FileSystem, paths: seq<string>): seq<Dir> {
    if paths == [] then []
    else
      var n := |paths| - 1;
      var files := Opened(fs, paths[n]);
      Recorded(fs, paths[..n]) + if files.None? then [] else [Dir(paths[n], files.value)]
  }

  lemma {:induction false} LowIsFree(fs: FileSystem, paths: seq<string>, low: int, low': int)
    requires -1 <= low && -1 <= low' && Within(paths, low) && Within(paths, low')
    ensures OrderAll(fs, paths, low) == OrderAll(fs, paths, low')
    decreases |paths|
  {
    if paths != [] { LowIsFree(fs, paths[..|paths| - 1], low, low'); }
  }

  lemma OrderLast(fs: FileSystem, paths: seq<string>, low: int, last: string, init: seq<string>)
    requires -1 <= low && Within(paths, low) && paths != [] && paths[|paths| - 1] == last && paths[..|paths| - 1] == init
    ensures OrderAll(fs, paths, low) == Order(fs, last) + OrderAll(fs, init, low)
  {
  }

  /** Paths put on top of a stack are walked before what lies below them. */
  lemma {:induction false} OrderStacked(fs: FileSystem, below: seq<string>, top: seq<string>, low: int)
    requires -1 <= low && Within(below + top, low) && Within(below, low) && Within(top, low)
    ensures OrderAll(fs, below + top, low) == OrderAll(fs, top, low) + OrderAll(fs, below, low)
    decreases |top|
  {
    if top == [] {
      assert below + top == below;
    } else {
      var n := |top| - 1;
      var all := below + top;
      assert all[..|all| - 1] == below + top[..n] && all[|all| - 1] == top[n];
      OrderStacked(fs, below, top[..n], low);
      OrderLast(fs, all, low, top[n], below + top[..n]);
      OrderLast(fs, top, low, top[n], top[..n]);
      Associate(Order(fs, top[n]), OrderAll(fs, top[..n], low), OrderAll(fs, below, low));
    }
  }

  lemma Associate(a: seq<string>, b: seq<string>, c: seq<string>)
    ensures a + (b + c) == (a + b) + c
  {
  }

  // ---------------------------------------------------------------- exactly once

  /** `q` is `p` or lies below it. */
  predicate Under(q: string, p: string) {
    q == p || (|p| < |q| && q[..|p|] == p && q[|p|] == '/')
  }

  lemma UnderTrans(r: string, q: string, p: string)
    requires Under(r, q) && Under(q, p)
    ensures Under(r, p)
  {
    if r != q && q != p { assert r[..|q|][..|p|] == r[..|p|] && r[..|q|][|p|] == r[|p|]; }
  }

  predicate PlainName(name: string) {
    name != "" && '/' !in name
  }

  /** Nothing lies below two different siblings. */
  lemma SiblingsApart(path: string, a: string, b: string, q: string)
    requires PlainName(a) && PlainName(b) && a != b && |a| <= |b|
    ensures Under(q, path + "/" + b) ==> !Under(q, path + "/" + a)
  {
    var pa, pb := path + "/" + a, path + "/" + b;
    if Under(q, pb) {
      assert q[..|pb|] == pb;
      if |a| < |b| {
        assert q[|pa|] == pb[|pa|] == b[|a|] && b[|a|] in b;
      } else {
        assert pa[|path| + 1..] == a && pb[|path| + 1..] == b;
        assert q[..|pa|] == pb != pa;
      }
    }
  }

  predicate GoodFiles(files: seq<File>) {
    && (forall i :: 0 <= i < |files| ==> PlainName(files[i].name))
    && (forall i, j :: 0 <= i < j < |files| ==> files[i].name != files[j].name)
  }

  lemma {:induction false} ScanNames(entries: seq<Dirent>)
    requires GoodEntries(entries) && Scan(entries).Some?
    ensures GoodFiles(Scan(entries).value)
    ensures forall i :: 0 <= i < |Scan(entries).value| ==>
              exists j :: 0 <= j < |entries| && entries[j].name == Scan(entries).value[i].name
  {
    if entries != [] {
      var n := |entries| - 1;
      var init := entries[..n];
      ScanNames(init);
      var files, files' := Scan(init).value, Scan(entries).value;
      forall i | 0 <= i < |files| ensures exists j :: 0 <= j < n && entries[j].name == files[i].name {
        var j :| 0 <= j < |init| && init[j].name == files[i].name;
        assert entries[j].name == files[i].name;
      }
      assert forall i :: 0 <= i < |files'| ==> files'[i].name == (if i < |files| then files[i].name else entries[n].name);
    }
  }

  ghost predicate Apart(p: string, q: string) {
    forall r :: !(Under(r, p) && Under(r, q))
  }

  ghost predicate AllApart(paths: seq<string>) {
    forall i, j :: 0 <= i < j < |paths| ==> Apart(paths[i], paths[j])
  }

  lemma NamesApart(path: string, a: string, b: string)
    requires PlainName(a) && PlainName(b) && a != b
    ensures Apart(path + "/" + a, path + "/" + b)
  {
    forall r ensures !(Under(r, path + "/" + a) && Under(r, path + "/" + b)) {
      if |a| <= |b| { SiblingsApart(path, a, b, r); } else { SiblingsApart(path, b, a, r); }
    }
  }

  lemma {:induction false} ChildrenApart(path: string, files: seq<File>)
    requires GoodFiles(files)
    ensures AllApart(ChildPaths(path, files))
  {
    if files != [] {
      var n := |files| - 1;
      var init := files[..n];
      ChildrenApart(path, init);
      ChildPathsAre(path, init);
      var paths := ChildPaths(path, init);
      forall i | 0 <= i < |paths| ensures Apart(paths[i], path + "/" + files[n].name) {
        assert paths[i] in paths;
        var j :| 0 <= j < |init| && init[j].isDir && Compose(path, init[j].name) == Some(paths[i]);
        assert init[j] == files[j];
        NamesApart(path, files[j].name, files[n].name);
      }
    }
  }

  lemma KidsApart(fs: FileSystem, path: string)
    requires GoodNames(fs)
    ensures AllApart(Kids(fs, path))
    ensures forall i :: 0 <= i < |Kids(fs, path)| ==> Under(Kids(fs, path)[i], path)
  {
    if Opened(fs, path).Some? {
      var files := Opened(fs, path).value;
      ScanNames(fs(path).entries);
      ChildrenApart(path, files);
      ChildPathsAre(path, files);
      forall i | 0 <= i < |Kids(fs, path)| ensures Under(Kids(fs, path)[i], path) {
        assert Kids(fs, path)[i] in ChildPaths(path, files);
      }
    }
  }

  lemma {:induction false} OrderUnder(fs: FileSystem, path: string)
    requires GoodNames(fs) && |path| <= PATH_MAX
    ensures forall q :: q in Order(fs, path) ==> Under(q, path)
    decreases PATH_MAX - |path|, 1, 0
  {
    KidsLonger(fs, path);
    KidsApart(fs, path);
    var kids := Kids(fs, path);
    OrderAllUnder(fs, kids, |path|);
    forall q | q in OrderAll(fs, kids, |path|) ensures Under(q, path) {
      var i :| 0 <= i < |kids| && Under(q, kids[i]);
      UnderTrans(q, kids[i], path);
    }
  }

  lemma {:induction false} OrderAllUnder(fs: FileSystem, paths: seq<string>, low: int)
    requires GoodNames(fs) && -1 <= low && Within(paths, low)
    ensures forall q :: q in OrderAll(fs, paths, low) ==> exists i :: 0 <= i < |paths| && Under(q, paths[i])
    decreases PATH_MAX - low, 0, |paths|
  {
    if paths != [] {
      var n := |paths| - 1;
      OrderUnder(fs, paths[n]);
      OrderAllUnder(fs, paths[..n], low);
      forall q | q in OrderAll(fs, paths, low) ensures exists i :: 0 <= i < |paths| && Under(q, paths[i]) {
        if q in OrderAll(fs, paths[..n], low) {
          var i :| 0 <= i < n && Under(q, paths[..n][i]);
          assert Under(q, paths[i]);
        }
      }
    }
  }

  lemma NoDupAppend(a: seq<string>, b: seq<string>)
    requires NoDup(a) && NoDup(b) && forall q :: q in a ==> q !in b
    ensures NoDup(a + b)
  {
    var s := a + b;
    forall i, j | 0 <= i < j < |s| ensures s[i] != s[j] {
      if i < |a| <= j { assert s[i] in a && s[j] in b; }
    }
  }

  /** No path is visited twice. */
  lemma {:induction false} OrderNoDup(fs: FileSystem, path: string)
    requires GoodNames(fs) && |path| <= PATH_MAX
    ensures NoDup(Order(fs, path))
    decreases PATH_MAX - |path|, 1, 0
  {
    KidsLonger(fs, path);
    KidsApart(fs, path);
    var kids := Kids(fs, path);
    OrderAllNoDup(fs, kids, |path|);
    OrderAllUnder(fs, kids, |path|);
    forall q | q in OrderAll(fs, kids, |path|) ensures q != path {
      var i :| 0 <= i < |kids| && Under(q, kids[i]);
    }
    NoDupAppend([path], OrderAll(fs, kids, |path|));
  }

  lemma {:induction false} OrderAllNoDup(fs: FileSystem, paths: seq<string>, low: int)
    requires GoodNames(fs) && -1 <= low && Within(paths, low) && AllApart(paths)
    ensures NoDup(OrderAll(fs, paths, low))
    decreases PATH_MAX - low, 0, |paths|
  {
    if paths != [] {
      var n := |paths| - 1;
      var a, b := Order(fs, paths[n]), OrderAll(fs, paths[..n], low);
      OrderNoDup(fs, paths[n]);
      OrderUnder(fs, paths[n]);
      OrderAllNoDup(fs, paths[..n], low);
      OrderAllUnder(fs, paths[..n], low);
      forall q | q in b ensures q !in a {
        var i :| 0 <= i < n && Under(q, paths[..n][i]);
        assert Apart(paths[i], paths[n]) && Under(q, paths[i]);
      }
      NoDupAppend(a, b);
    }
  }

  // ---------------------------------------------------------------- everything reachable

  /** Each path of the chain is a subdirectory that the walk finds in the one before. */
  predicate Chain(fs: FileSystem, c: seq<string>) {
    c != [] && forall i :: 0 < i < |c| ==> ChildAt(fs, c, i)
  }

  predicate ChildAt(fs: FileSystem, c: seq<string>, i: nat)
    requires 0 < i < |c|
  {
    c[i] in Kids(fs, c[i - 1])
  }

  lemma {:induction false} InOrderAll(fs: FileSystem, paths: seq<string>, low: int, i: nat, q: string)
    requires -1 <= low && Within(paths, low) && i < |paths| && q in Order(fs, paths[i])
    ensures q in OrderAll(fs, paths, low)
    decreases |paths|
  {
    if i < |paths| - 1 { InOrderAll(fs, paths[..|paths| - 1], low, i, q); }
  }

  lemma {:induction false} ChainVisited(fs: FileSystem, c: seq<string>)
    requires Chain(fs, c) && |c[0]| <= PATH_MAX
    ensures c[|c| - 1] in Order(fs, c[0])
    decreases |c|
  {
    KidsLonger(fs, c[0]);
    if |c| > 1 {
      var kids := Kids(fs, c[0]);
      assert ChildAt(fs, c, 1);
      var i :| 0 <= i < |kids| && kids[i] == c[1];
      assert Chain(fs, c[1..]) by {
        forall j | 0 < j < |c[1..]| ensures ChildAt(fs, c[1..], j) { assert ChildAt(fs, c, j + 1); }
      }
      ChainVisited(fs, c[1..]);
      InOrderAll(fs, kids, |c[0]|, i, c[|c| - 1]);
    }
  }

  lemma {:induction false} VisitedChain(fs: FileSystem, path: string, q: string) returns (c: seq<string>)
    requires |path| <= PATH_MAX && q in Order(fs, path)
    ensures Chain(fs, c) && c[0] == path && c[|c| - 1] == q
    decreases PATH_MAX - |path|, 1, 0
  {
    c := [path];
    if q != path {
      KidsLonger(fs, path);
      BelowTop(fs, path, q);
      var rest, i := VisitedBelow(fs, Kids(fs, path), |path|, q);
      c := ChainCons(fs, path, rest);
    }
  }

  lemma BelowTop(fs: FileSystem, path: string, q: string)
    requires |path| <= PATH_MAX && Within(Kids(fs, path), |path|) && q in Order(fs, path) && q != path
    ensures q in OrderAll(fs, Kids(fs, path), |path|)
  {
    assert Order(fs, path) == [path] + OrderAll(fs, Kids(fs, path), |path|);
  }

  lemma ChainCons(fs: FileSystem, path: string, rest: seq<string>) returns (c: seq<string>)
    requires Chain(fs, rest) && rest[0] in Kids(fs, path)
    ensures Chain(fs, c) && c[0] == path && c[|c| - 1] == rest[|rest| - 1]
  {
    c := [path] + rest;
    forall j | 0 < j < |c| ensures ChildAt(fs, c, j) {
      if j > 1 { assert ChildAt(fs, rest, j - 1); }
    }
  }

  lemma {:induction false} VisitedBelow(fs: FileSystem, paths: seq<string>, low: int, q: string)
    returns (c: seq<string>, i: nat)
    requires -1 <= low && Within(paths, low) && q in OrderAll(fs, paths, low)
    ensures Chain(fs, c) && i < |paths| && c[0] == paths[i] && c[|c| - 1] == q
    decreases PATH_MAX - low, 0, |paths|
  {
    var n := |paths| - 1;
    if q in Order(fs, paths[n]) {
      c := VisitedChain(fs, paths[n], q);
      i := n;
    } else {
      c, i := VisitedBelow(fs, paths[..n], low, q);
    }
  }

  /** The paths visited are exactly those at the end of a chain from the start. */
  lemma VisitedIffReachable(fs: FileSystem, path: string, q: string)
    requires |path| <= PATH_MAX
    ensures q in Order(fs, path) <==> exists c :: Chain(fs, c) && c[0] == path && c[|c| - 1] == q
  {
    if q in Order(fs, path) {
      var c := VisitedChain(fs, path, q);
    }
    if exists c :: Chain(fs, c) && c[0] == path && c[|c| - 1] == q {
      var c :| Chain(fs, c) && c[0] == path && c[|c| - 1] == q;
      ChainVisited(fs, c);
    }
  }

  /** A directory is recorded, with its entries, exactly when it was visited and could be read. */
  lemma {:induction false} RecordedAre(fs: FileSystem, paths: seq<string>)
    ensures forall d :: d in Recorded(fs, paths) <==> d.path in paths && Opened(fs, d.path) == Some(d.files)
  {
    if paths != [] { RecordedAre(fs, paths[..|paths| - 1]); }
  }

  lemma {:induction false} RecordedOnce(fs: FileSystem, paths: seq<string>)
    requires NoDup(paths)
    ensures forall i, j :: 0 <= i < j < |Recorded(fs, paths)| ==> Recorded(fs, paths)[i].path != Recorded(fs, paths)[j].path
  {
    if paths != [] {
      var n := |paths| - 1;
      var init := Recorded(fs, paths[..n]);
      RecordedOnce(fs, paths[..n]);
      RecordedAre(fs, paths[..n]);
      forall i | 0 <= i < |init| ensures init[i].path != paths[n] {
        assert init[i] in init;
      }
    }
  }

  lemma WalkRecordOf(fs: FileSystem, start: string, order: seq<string>)
    requires |start| <= PATH_MAX && order == Order(fs, start) && NoDup(order)
    ensures forall i, j :: 0 <= i < j < |Recorded(fs, order)| ==> Recorded(fs, order)[i].path != Recorded(fs, order)[j].path
    ensures forall d :: d in Recorded(fs, order) <==>
              && Opened(fs, d.path) == Some(d.files)
              && exists c :: Chain(fs, c) && c[0] == start && c[|c| - 1] == d.path
  {
    RecordedOnce(fs, order);
    RecordedAre(fs, order);
    forall d: Dir
      ensures d.path in order <==> exists c :: Chain(fs, c) && c[0] == start && c[|c| - 1] == d.path
    {
      VisitedIffReachable(fs, start, d.path);
    }
  }

  /**
   * The record of a walk: every directory that can be read and is reached through directories that
   * can be read, with its entries, and none of them twice.
   */
  lemma WalkRecord(fs: FileSystem, start: string)
    requires GoodNames(fs) && |start| <= PATH_MAX
    ensures var record := Recorded(fs, Order(fs, start));
            && (forall i, j :: 0 <= i < j < |record| ==> record[i].path != record[j].path)
            && (forall d :: d in record <==>
                  && Opened(fs, d.path) == Some(d.files)
                  && exists c :: Chain(fs, c) && c[0] == start && c[|c| - 1] == d.path)
  {
    OrderNoDup(fs, start);
    WalkRecordOf(fs, start, Order(fs, start));
  }

  // ---------------------------------------------------------------- the walk with a stack

  /** A failure among the first entries is a failure of the whole listing. */
  lemma {:induction false} ScanStops(entries: seq<Dirent>, n: nat)
    requires n <= |entries| && Scan(entries[..n]).None?
    ensures Scan(entries).None?
    decreases |entries|
  {
    if n == |entries| {
      assert entries[..n] == entries;
    } else {
      var init := entries[..|entries| - 1];
      assert init[..n] == entries[..n];
      ScanStops(init, n);
    }
  }

  /** An entry the scan passes over. */
  predicate Skipped(e: Dirent) {
    e.name == "." || e.name == ".." || e.kind == Unsupported
  }

  /** An entry that fails the whole directory. */
  predicate Failing(e: Dirent) {
    !Skipped(e) && (e.kind == Unknown || |e.name| > NAME_MAX)
  }

  function FileOf(e: Dirent): File {
    File(e.name, e.kind == Directory)
  }

  predicate Increasing(s: seq<nat>) {
    forall i, j :: 0 <= i < j < |s| ==> s[i] < s[j]
  }

  /** `at` lists the places of the entries that are not passed over, in order. */
  predicate PlacesOf(entries: seq<Dirent>, at: seq<nat>) {
    && Increasing(at) && (forall j :: 0 <= j < |at| ==> at[j] < |entries|)
    && (forall i: nat :: i < |entries| ==> (i in at <==> !Skipped(entries[i])))
  }

  /**
   * A scan fails exactly if some entry fails it, and otherwise keeps exactly the entries that are
   * not passed over, in order.
   */
  lemma ScanMeans(entries: seq<Dirent>) returns (at: seq<nat>)
    ensures Scan(entries).None? <==> exists i :: 0 <= i < |entries| && Failing(entries[i])
    ensures PlacesOf(entries, at)
    ensures Scan(entries).Some? ==> KeptFrom(Scan(entries).value, entries, at)
  {
    ScanFails(entries);
    at := ScanKeeps(entries);
  }

  /** `files` are the entries at the places `at`. */
  predicate KeptFrom(files: seq<File>, entries: seq<Dirent>, at: seq<nat>) {
    |files| == |at| && forall j :: 0 <= j < |at| ==> at[j] < |entries| && files[j] == FileOf(entries[at[j]])
  }

  lemma ScanLast(init: seq<Dirent>, e: Dirent)
    ensures Scan(init + [e]) ==
            if Scan(init).None? || Failing(e) then None
            else Some(Scan(init).value + if Skipped(e) then [] else [FileOf(e)])
  {
    var entries := init + [e];
    assert entries[..|entries| - 1] == init && entries[|entries| - 1] == e;
    if Scan(init).Some? { assert Scan(init).value + [] == Scan(init).value; }
  }

  lemma {:induction false} ScanFails(entries: seq<Dirent>)
    ensures Scan(entries).None? <==> exists i :: 0 <= i < |entries| && Failing(entries[i])
    decreases |entries|
  {
    if entries != [] {
      var init, e := entries[..|entries| - 1], entries[|entries| - 1];
      ScanFails(init);
      assert entries == init + [e];
      ScanLast(init, e);
      FailingLast(init, e);
    }
  }

  lemma {:induction false} ScanKeeps(entries: seq<Dirent>) returns (at: seq<nat>)
    ensures PlacesOf(entries, at)
    ensures Scan(entries).Some? ==> KeptFrom(Scan(entries).value, entries, at)
    decreases |entries|
  {
    at := [];
    if entries != [] {
      var init, e := entries[..|entries| - 1], entries[|entries| - 1];
      var at0 := ScanKeeps(init);
      assert entries == init + [e];
      PlacesGrow(init, e, at0);
      ScanLast(init, e);
      at := if Skipped(e) then at0 else at0 + [|init|];
      if Scan(entries).Some? { KeptGrow(Scan(init).value, init, e, at0); }
    }
  }

  lemma KeptGrow(files: seq<File>, init: seq<Dirent>, e: Dirent, at: seq<nat>)
    requires KeptFrom(files, init, at)
    ensures if Skipped(e) then KeptFrom(files + [], init + [e], at)
            else KeptFrom(files + [FileOf(e)], init + [e], at + [|init|])
  {
  }

  lemma PlacesGrow(init: seq<Dirent>, e: Dirent, at: seq<nat>)
    requires PlacesOf(init, at)
    ensures PlacesOf(init + [e], if Skipped(e) then at else at + [|init|])
  {
    var entries, at' := init + [e], if Skipped(e) then at else at + [|init|];
    forall i: nat | i < |entries| ensures i in at' <==> !Skipped(entries[i]) {
      assert i < |init| ==> entries[i] == init[i];
      assert i == |init| ==> i !in at;
    }
  }

  lemma FailingLast(init: seq<Dirent>, e: Dirent)
    ensures (exists i :: 0 <= i < |init + [e]| && Failing((init + [e])[i])) <==>
            Failing(e) || exists i :: 0 <= i < |init| && Failing(init[i])
  {
    var entries := init + [e];
    if i :| 0 <= i < |init| && Failing(init[i]) { assert Failing(entries[i]); }
    if Failing(e) { assert Failing(entries[|init|]); }
  }

  /** A stored path loses one trailing slash. */
  function PathInit(s: string): Option<string> {
    var n := if |s| > 1 && s[|s| - 1] == '/' then |s| - 1 else |s|;
    if n > PATH_MAX then None else Some(s[..n])
  }

  lemma ComposedIsStored(path: string, name: string)
    requires PlainName(name) && Compose(path, name).Some?
    ensures PathInit(Compose(path, name).value) == Compose(path, name)
  {
    var s := path + "/" + name;
    assert s[|s| - 1] == name[|name| - 1] && name[|name| - 1] in name;
    assert s[..|s|] == s;
  }

  /** What has been visited, followed by what the stack will lead to, is the recursive walk. */
  predicate Progress(fs: FileSystem, start: string, visited: seq<string>, stack: seq<string>, dirs: seq<Dir>) {
    && |start| <= PATH_MAX && Within(stack, -1)
    && visited + OrderAll(fs, stack, -1) == Order(fs, start)
    && dirs == Recorded(fs, visited)
  }

  /** On top of a stack, a path is followed by its children, and they by what lies below. */
  lemma VisitOrder(fs: FileSystem, below: seq<string>, path: string)
    requires Within(below + [path], -1) && Within(below, -1) && Within(below + Kids(fs, path), -1)
    requires Within(Kids(fs, path), -1)
    ensures OrderAll(fs, below + [path], -1) == [path] + OrderAll(fs, below + Kids(fs, path), -1)
  {
    var stack, kids := below + [path], Kids(fs, path);
    assert stack[|below|] == path && stack[..|below|] == below;
    KidsLonger(fs, path);
    OrderStacked(fs, below, kids, -1);
    OrderLast(fs, stack, -1, path, below);
    LowIsFree(fs, kids, -1, |path|);
    Associate([path], OrderAll(fs, kids, -1), OrderAll(fs, below, -1));
  }

  lemma StackWithin(fs: FileSystem, below: seq<string>, path: string)
    requires Within(below + [path], -1)
    ensures Within(below, -1) && Within(Kids(fs, path), -1) && Within(below + Kids(fs, path), -1)
  {
    assert forall i :: 0 <= i < |below| ==> below[i] == (below + [path])[i];
    KidsLonger(fs, path);
  }

  /** Visiting the top path: its children take its place on the stack, and it may be recorded. */
  lemma StepProgress(fs: FileSystem, start: string, visited: seq<string>, below: seq<string>, path: string, dirs: seq<Dir>)
    requires Progress(fs, start, visited, below + [path], dirs)
    ensures var files := Opened(fs, path);
            Progress(fs, start, visited + [path], below + Kids(fs, path),
                     dirs + if files.None? then [] else [Dir(path, files.value)])
  {
    StackWithin(fs, below, path);
    VisitStep(fs, visited, below, path);
    RecordStep(fs, visited, path);
  }

  lemma VisitStep(fs: FileSystem, visited: seq<string>, below: seq<string>, path: string)
    requires Within(below + [path], -1) && Within(below, -1) && Within(below + Kids(fs, path), -1)
    requires Within(Kids(fs, path), -1)
    ensures visited + OrderAll(fs, below + [path], -1) == (visited + [path]) + OrderAll(fs, below + Kids(fs, path), -1)
  {
    VisitOrder(fs, below, path);
    Associate(visited, [path], OrderAll(fs, below + Kids(fs, path), -1));
  }

  lemma RecordStep(fs: FileSystem, visited: seq<string>, path: string)
    ensures var files := Opened(fs, path);
            Recorded(fs, visited + [path]) ==
            Recorded(fs, visited) + if files.None? then [] else [Dir(path, files.value)]
  {
    assert (visited + [path])[..|visited|] == visited;
  }
}

/**
 * The walk as it runs: a stack of paths still to visit and a record of the directories read, both
 * in growing arrays. Each step handles the path on top of the stack.
 */
module FileWalk {
  import opened WalkOrder
  import opened FileTree

  const DEFAULT_CAPACITY: nat := 16

  /** An array that doubles when it is full. */
  class Vector<T(0)> {
    var count: nat
    var data: array<T>

    ghost predicate Valid()
      reads this
    {
      0 < data.Length && count <= data.Length
    }

    ghost function Contents(): seq<T>
      requires Valid()
      reads this, data
    {
      data[..count]
    }

    constructor ()
      ensures Valid() && fresh(data) && Contents() == [] && data.Length == DEFAULT_CAPACITY
    {
      data := new T[DEFAULT_CAPACITY];
      count := 0;
    }

    method Push(x: T)
      requires Valid()
      modifies this, data
      ensures Valid() && (data == old(data) || fresh(data))
      ensures Contents() == old(Contents()) + [x]
      ensures data.Length == old(data.Length) * if old(count) == old(data.Length) then 2 else 1
    {
      if count >= data.Length {
        Grow();
      }
      data[count] := x;
      count := count + 1;
    }

    method Grow()
      requires Valid()
      modifies this`data
      ensures Valid() && fresh(data) && data.Length == 2 * old(data.Length)
      ensures Contents() == old(Contents())
    {
      var d, n := data, count;
      var bigger := new T[2 * d.Length];
      for i := 0 to n
        invariant count == n && data == d
        invariant forall j :: 0 <= j < i ==> bigger[j] == d[j]
      {
        bigger[i] := d[i];
      }
      data := bigger;
    }

    method Pop() returns (x: Option<T>)
      requires Valid()
      modifies this`count
      ensures Valid() && (x.None? <==> old(count) == 0)
      ensures x.None? ==> Contents() == old(Contents())
      ensures x.Some? ==> old(Contents()) == Contents() + [x.value]
    {
      if count == 0 { return None; }
      count := count - 1;
      x := Some(data[count]);
    }
  }

  /** The entries kept from a listing, one at a time. */
  method ScanDir(entries: seq<Dirent>) returns (files: Option<seq<File>>)
    ensures files == Scan(entries)
  {
    var kept: seq<File> := [];
    for i := 0 to |entries|
      invariant Scan(entries[..i]) == Some(kept)
    {
      var e := entries[i];
      assert entries[..i + 1][..i] == entries[..i];
      if e.name == "." || e.name == ".." { continue; }
      if e.kind == Unsupported { continue; }
      if e.kind == Unknown || |e.name| > NAME_MAX {
        ScanStops(entries, i + 1);
        return None;
      }
      kept := kept + [File(e.name, e.kind == Directory)];
    }
    assert entries[..|entries|] == entries;
    return Some(kept);
  }

  class Walk {
    const fs: FileSystem
    const start: string
    const paths: Vector<string>
    const dirs: Vector<Dir>
    ghost var visited: seq<string>

    ghost predicate Valid()
      reads this, paths, dirs, paths.data, dirs.data
    {
      && paths.Valid() && dirs.Valid() && paths.data as object != dirs.data
      && Progress(fs, start, visited, paths.Contents(), dirs.Contents())
    }

    /** A walk that starts at a path, unless the path is too long. */
    constructor (fileSystem: FileSystem, path: string)
      requires PathInit(path).Some?
      ensures Valid() && fs == fileSystem && start == PathInit(path).value && visited == []
      ensures fresh(paths) && fresh(dirs) && fresh(paths.data) && fresh(dirs.data)
      ensures paths.Contents() == [start] && dirs.Contents() == []
    {
      fs := fileSystem;
      var p := PathInit(path).value;
      start := p;
      visited := [];
      var ps := new Vector<string>();
      var ds := new Vector<Dir>();
      ps.Push(p);
      paths, dirs := ps, ds;
      new;
      assert paths.Contents() == [start];
      assert OrderAll(fs, [start], -1) == Order(fs, start) + OrderAll(fs, [], -1);
    }

    /** Pushes the paths of the subdirectories; a path that is too long is left out. */
    method PushDirPaths(files: seq<File>, path: string) returns (ok: bool)
      requires paths.Valid() && GoodFiles(files)
      modifies paths, paths.data
      ensures paths.Valid() && (paths.data == old(paths.data) || fresh(paths.data))
      ensures ok <==> !(path == "" && exists i :: 0 <= i < |files| && files[i].isDir)
      ensures paths.Contents() == old(paths.Contents()) + if ok then ChildPaths(path, files) else []
    {
      for i := 0 to |files|
        invariant paths.Valid() && (paths.data == old(paths.data) || fresh(paths.data))
        invariant paths.Contents() == old(paths.Contents()) + ChildPaths(path, files[..i])
        invariant path == "" ==> (forall j :: 0 <= j < i ==> !files[j].isDir) && ChildPaths(path, files[..i]) == []
      {
        assert files[..i + 1][..i] == files[..i];
        if !files[i].isDir { continue; }
        if path == "" { return false; }
        var composed := Compose(path, files[i].name);
        if composed.None? { continue; }
        ComposedIsStored(path, files[i].name);
        var stored := PathInit(composed.value);
        paths.Push(stored.value);
      }
      assert files[..|files|] == files;
      return true;
    }

    /**
     * One step: the top path is visited; if it can be read, its subdirectories go on the stack and
     * it goes on the record, and otherwise it is dropped.
     */
    method Step()
      requires Valid() && GoodNames(fs)
      modifies this, paths, dirs, paths.data, dirs.data
      ensures Valid() && (paths.data == old(paths.data) || fresh(paths.data)) && (dirs.data == old(dirs.data) || fresh(dirs.data))
      ensures old(paths.count) == 0 ==> visited == old(visited) && paths.count == 0
      ensures old(paths.count) > 0 ==>
                visited == old(visited) + [old(paths.Contents())[old(paths.count) - 1]]
      ensures old(paths.count) > 0 ==>
                var stack, n := old(paths.Contents()), old(paths.count) - 1;
                paths.Contents() == stack[..n] + Kids(fs, stack[n])
    {
      if paths.count == 0 { return; }
      ghost var stack, record := paths.Contents(), dirs.Contents();
      var popped := paths.Pop();
      var path := popped.value;
      ghost var below := paths.Contents();
      assert stack == below + [path];
      StepProgress(fs, start, visited, below, path, record);
      visited := visited + [path];
      ReadDir(path);
    }

    /** Opens, lists and scans a directory; on success pushes its children and records it. */
    method ReadDir(path: string)
      requires paths.Valid() && dirs.Valid() && paths.data as object != dirs.data && GoodNames(fs)
      modifies paths, dirs, paths.data, dirs.data
      ensures paths.Valid() && dirs.Valid() && paths.data as object != dirs.data
      ensures (paths.data == old(paths.data) || fresh(paths.data)) && (dirs.data == old(dirs.data) || fresh(dirs.data))
      ensures paths.Contents() == old(paths.Contents()) + Kids(fs, path)
      ensures var files := Opened(fs, path);
              dirs.Contents() == old(dirs.Contents()) + if files.None? then [] else [Dir(path, files.value)]
    {
      var listing := fs(path);
      if listing.Denied? { return; }
      var files := ScanDir(listing.entries);
      if files.None? { return; }
      ScanNames(listing.entries);
      var ok := PushDirPaths(files.value, path);
      if !ok { return; }
      dirs.Push(Dir(path, files.value));
    }

    /** Stepping until the stack is empty ends, and records the recursive walk. */
    method Run()
      requires Valid() && GoodNames(fs)
      modifies this, paths, dirs, paths.data, dirs.data
      ensures Valid() && paths.count == 0 && visited == Order(fs, start)
      ensures dirs.Contents() == Recorded(fs, Order(fs, start))
      ensures Visits(fs, start, visited) && Records(fs, visited, dirs.Contents())
    {
      while paths.count > 0
        invariant Valid() && (paths.data == old(paths.data) || fresh(paths.data))
        invariant dirs.data == old(dirs.data) || fresh(dirs.data)
        decreases |OrderAll(fs, paths.Contents(), -1)|
      {
        ghost var before := |visited|;
        assert |visited| + |OrderAll(fs, paths.Contents(), -1)| == |Order(fs, start)|;
        Step();
        assert |visited| + |OrderAll(fs, paths.Contents(), -1)| == |Order(fs, start)|;
        assert |visited| == before + 1;
      }
      assert paths.Contents() == [];
      assert visited + [] == visited;
      OrderVisits(fs, start);
      ghost var at := RecordedMeans(fs, visited);
    }
  }

  /** A walk that starts at a path, or nothing if the path is too long. */
  method Start(fs: FileSystem, path: string) returns (walk: Option<Walk>)
    ensures walk.None? <==> PathInit(path).None?
    ensures walk.Some? ==>
              var w := walk.value;
              && fresh(w) && fresh(w.paths) && fresh(w.dirs) && fresh(w.paths.data) && fresh(w.dirs.data)
              && w.Valid() && w.fs == fs && w.start == PathInit(path).value && w.visited == []
  {
    if PathInit(path).None? { return None; }
    var w := new Walk(fs, path);
    return Some(w);
  }
}
