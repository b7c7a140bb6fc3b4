/** The scan is a lossless flattening, and restoring its entries rebuilds the tree. */
module WalkProofs {
  import opened Bytes
  import opened Entries
  import opened Paths
  import opened Container
  import opened Walk

  /** What a file system guarantees of a folder: proper names, no two alike in one directory. */
  ghost predicate WellFormed(items: seq<Item>)
    decreases items
  {
    && (forall i :: 0 <= i < |items| ==> IsFileName(items[i].name))
    && (forall i, j :: 0 <= i < j < |items| ==> items[i].name != items[j].name)
    && (forall i :: 0 <= i < |items| && items[i].DirItem? ==> WellFormed(items[i].kids))
  }

  lemma WellFormedFront(items: seq<Item>)
    requires WellFormed(items) && items != []
    ensures WellFormed(items[..|items| - 1])
    ensures items[|items| - 1].DirItem? ==> WellFormed(items[|items| - 1].kids)
  {
  }

  // ----- every visited path runs through one of the items -----

  predicate Through(v: Visit, prefix: Path, name: string) {
    |v.path| > |prefix| && v.path[..|prefix|] == prefix && v.path[|prefix|] == name
  }

  predicate AllThrough(vs: seq<Visit>, prefix: Path, name: string) {
    forall i :: 0 <= i < |vs| ==> Through(vs[i], prefix, name) && AllFileNames(vs[i].path)
  }

  predicate AllBelow(vs: seq<Visit>, prefix: Path, items: seq<Item>) {
    forall i :: 0 <= i < |vs| ==>
      AllFileNames(vs[i].path) && exists k :: 0 <= k < |items| && Through(vs[i], prefix, items[k].name)
  }

  lemma {:induction false} ItemThrough(prefix: Path, item: Item, dirs: bool)
    requires AllFileNames(prefix) && IsFileName(item.name) && (item.DirItem? ==> WellFormed(item.kids))
    ensures AllThrough(VisitItem(prefix, item, dirs), prefix, item.name)
    decreases item, 0
  {
    var p := prefix + [item.name];
    if item.DirItem? {
      AllThroughBelow(p, item.kids, dirs);
      var vs := VisitAll(p, item.kids, dirs);
      forall i | 0 <= i < |vs| ensures Through(vs[i], prefix, item.name) {
        assert vs[i].path[..|p|] == p;
        assert vs[i].path[..|prefix|] == vs[i].path[..|p|][..|prefix|] == prefix;
        assert vs[i].path[|prefix|] == vs[i].path[..|p|][|prefix|];
      }
    }
  }

  lemma {:induction false} AllThroughBelow(prefix: Path, items: seq<Item>, dirs: bool)
    requires AllFileNames(prefix) && WellFormed(items)
    ensures AllBelow(VisitAll(prefix, items, dirs), prefix, items)
    decreases items, 1
  {
    if items == [] {
    } else {
      var front, last := items[..|items| - 1], items[|items| - 1];
      WellFormedFront(items);
      AllThroughBelow(prefix, front, dirs);
      ItemThrough(prefix, last, dirs);
      var a, b := VisitAll(prefix, front, dirs), VisitItem(prefix, last, dirs);
      forall i | 0 <= i < |a| ensures exists k :: 0 <= k < |items| && Through(a[i], prefix, items[k].name) {
        var k :| 0 <= k < |front| && Through(a[i], prefix, front[k].name);
        assert Through(a[i], prefix, items[k].name);
      }
    }
  }

  // ----- no path is visited twice -----

  predicate Distinct(vs: seq<Visit>) {
    forall i, j :: 0 <= i < j < |vs| ==> vs[i].path != vs[j].path
  }

  predicate Disjoint(a: seq<Visit>, b: seq<Visit>) {
    forall i, j :: 0 <= i < |a| && 0 <= j < |b| ==> a[i].path != b[j].path
  }

  lemma DistinctConcat(a: seq<Visit>, b: seq<Visit>)
    ensures Distinct(a + b) <==> Distinct(a) && Distinct(b) && Disjoint(a, b)
  {
    if Distinct(a + b) {
      forall i, j | 0 <= i < j < |a| ensures a[i].path != a[j].path {
        assert (a + b)[i].path != (a + b)[j].path;
      }
      forall i, j | 0 <= i < j < |b| ensures b[i].path != b[j].path {
        assert (a + b)[|a| + i].path != (a + b)[|a| + j].path;
      }
      forall i, j | 0 <= i < |a| && 0 <= j < |b| ensures a[i].path != b[j].path {
        assert (a + b)[i].path != (a + b)[|a| + j].path;
      }
    }
  }

  lemma DistinctMerge(a: seq<Visit>, x: seq<Visit>, b: seq<Visit>, y: seq<Visit>)
    requires Distinct(a + b) && Distinct(x + y)
    requires Disjoint(a, x) && Disjoint(a, y) && Disjoint(x, b) && Disjoint(b, y)
    ensures Distinct((a + x) + (b + y))
  {
    DistinctConcat(a, b);
    DistinctConcat(x, y);
    DistinctConcat(a, x);
    DistinctConcat(b, y);
    DistinctConcat(a + x, b + y);
  }

  lemma ApartByName(prefix: Path, front: seq<Item>, name: string, a: seq<Visit>, x: seq<Visit>)
    requires forall k :: 0 <= k < |front| ==> front[k].name != name
    requires AllBelow(a, prefix, front) && AllThrough(x, prefix, name)
    ensures Disjoint(a, x) && Disjoint(x, a)
  {
  }

  lemma {:induction false} ItemDistinct(prefix: Path, item: Item)
    requires AllFileNames(prefix) && IsFileName(item.name) && (item.DirItem? ==> WellFormed(item.kids))
    ensures Distinct(VisitItem(prefix, item, true) + VisitItem(prefix, item, false))
    decreases item, 0
  {
    if item.DirItem? {
      var p := prefix + [item.name];
      AllDistinct(p, item.kids);
      AllThroughBelow(p, item.kids, true);
      AllThroughBelow(p, item.kids, false);
      DistinctBelow(Visit(p, DirNode, item.mtime), VisitAll(p, item.kids, true), VisitAll(p, item.kids, false));
    }
  }

  lemma DistinctBelow(v: Visit, d: seq<Visit>, f: seq<Visit>)
    requires Distinct(d + f)
    requires forall i :: 0 <= i < |d| ==> |d[i].path| > |v.path|
    requires forall i :: 0 <= i < |f| ==> |f[i].path| > |v.path|
    ensures Distinct(([v] + d) + ([] + f))
  {
    DistinctConcat([v], d + f);
    assert ([v] + d) + ([] + f) == [v] + (d + f);
  }

  lemma {:induction false} AllDistinct(prefix: Path, items: seq<Item>)
    requires AllFileNames(prefix) && WellFormed(items)
    ensures Distinct(VisitAll(prefix, items, true) + VisitAll(prefix, items, false))
    decreases items, 1
  {
    if items == [] {
    } else {
      var front, last := items[..|items| - 1], items[|items| - 1];
      WellFormedFront(items);
      AllDistinct(prefix, front);
      ItemDistinct(prefix, last);
      var a, b := VisitAll(prefix, front, true), VisitAll(prefix, front, false);
      var x, y := VisitItem(prefix, last, true), VisitItem(prefix, last, false);
      AllThroughBelow(prefix, front, true);
      AllThroughBelow(prefix, front, false);
      ItemThrough(prefix, last, true);
      ItemThrough(prefix, last, false);
      ApartByName(prefix, front, last.name, a, x);
      ApartByName(prefix, front, last.name, a, y);
      ApartByName(prefix, front, last.name, b, x);
      ApartByName(prefix, front, last.name, b, y);
      DistinctMerge(a, x, b, y);
    }
  }

  // ----- directories come before what they hold -----

  function Parent(p: Path): Path
    requires p != []
  {
    p[..|p| - 1]
  }

  /** Is this path the base or a directory among the visits? */
  ghost predicate HasDir(vs: seq<Visit>, base: Path, p: Path) {
    p == base || exists j :: 0 <= j < |vs| && vs[j].path == p && vs[j].node == DirNode
  }

  ghost predicate Closed(base: Path, vs: seq<Visit>) {
    forall i :: 0 <= i < |vs| ==> vs[i].path != [] && HasDir(vs[..i], base, Parent(vs[i].path))
  }

  lemma HasDirMore(pre: seq<Visit>, vs: seq<Visit>, post: seq<Visit>, base: Path, p: Path)
    requires HasDir(vs, base, p)
    ensures HasDir(pre + vs + post, base, p)
  {
    if p != base {
      var j :| 0 <= j < |vs| && vs[j].path == p && vs[j].node == DirNode;
      assert (pre + vs + post)[|pre| + j] == vs[j];
    }
  }

  lemma ClosedConcat(base: Path, a: seq<Visit>, b: seq<Visit>)
    requires Closed(base, a) && Closed(base, b)
    ensures Closed(base, a + b)
  {
    var c := a + b;
    forall i | 0 <= i < |c| ensures c[i].path != [] && HasDir(c[..i], base, Parent(c[i].path)) {
      if i < |a| {
        assert c[..i] == a[..i];
      } else {
        assert c[..i] == a + b[..i - |a|] + [];
        HasDirMore(a, b[..i - |a|], [], base, Parent(b[i - |a|].path));
      }
    }
  }

  /** Below a visited directory, the visits inside it come after it. */
  lemma HasDirNested(head: Visit, vs: seq<Visit>, base: Path, p: Path)
    requires head.node == DirNode && HasDir(vs, head.path, p)
    ensures HasDir([head] + vs, base, p)
  {
    if p == head.path {
      assert ([head] + vs)[0] == head;
    } else {
      var j :| 0 <= j < |vs| && vs[j].path == p && vs[j].node == DirNode;
      assert ([head] + vs)[j + 1] == vs[j];
    }
  }

  lemma ClosedNested(base: Path, name: string, mtime: u64, inner: seq<Visit>)
    requires Closed(base + [name], inner)
    ensures Closed(base, [Visit(base + [name], DirNode, mtime)] + inner)
  {
    hide HasDir;
    var head := Visit(base + [name], DirNode, mtime);
    var c := [head] + inner;
    forall i | 0 <= i < |c| ensures c[i].path != [] && HasDir(c[..i], base, Parent(c[i].path)) {
      if i == 0 {
        assert Parent(head.path) == base;
        BaseIsDir(c[..0], base);
      } else {
        assert c[i] == inner[i - 1] && c[..i] == [head] + inner[..i - 1];
        HasDirNested(head, inner[..i - 1], base, Parent(inner[i - 1].path));
      }
    }
  }

  lemma BaseIsDir(vs: seq<Visit>, base: Path)
    ensures HasDir(vs, base, base)
  {
  }

  lemma {:induction false} DirsClosed(prefix: Path, items: seq<Item>)
    ensures Closed(prefix, VisitAll(prefix, items, true))
    decreases items
  {
    if items == [] {
    } else {
      var last := items[|items| - 1];
      DirsClosed(prefix, items[..|items| - 1]);
      if last.DirItem? {
        DirsClosed(prefix + [last.name], last.kids);
        ClosedNested(prefix, last.name, last.mtime, VisitAll(prefix + [last.name], last.kids, true));
      }
      ClosedConcat(prefix, VisitAll(prefix, items[..|items| - 1], true), VisitItem(prefix, last, true));
    }
  }

  /** Every file lies in the base or in one of the directories. */
  ghost predicate Housed(base: Path, dirs: seq<Visit>, files: seq<Visit>) {
    forall i :: 0 <= i < |files| ==> files[i].path != [] && HasDir(dirs, base, Parent(files[i].path))
  }

  lemma HousedMerge(base: Path, a: seq<Visit>, x: seq<Visit>, b: seq<Visit>, y: seq<Visit>)
    requires Housed(base, a, b) && Housed(base, x, y)
    ensures Housed(base, a + x, b + y)
  {
    forall i | 0 <= i < |b + y| ensures HasDir(a + x, base, Parent((b + y)[i].path)) {
      var p := Parent((b + y)[i].path);
      if i < |b| {
        HasDirMore([], a, x, base, p);
        assert [] + a + x == a + x;
      } else {
        HasDirMore(a, x, [], base, p);
        assert a + x + [] == a + x;
      }
    }
  }

  lemma HousedNested(base: Path, name: string, mtime: u64, dirs: seq<Visit>, files: seq<Visit>)
    requires Housed(base + [name], dirs, files)
    ensures Housed(base, [Visit(base + [name], DirNode, mtime)] + dirs, files)
  {
    hide HasDir;
    var head := Visit(base + [name], DirNode, mtime);
    forall i | 0 <= i < |files| ensures HasDir([head] + dirs, base, Parent(files[i].path)) {
      HasDirNested(head, dirs, base, Parent(files[i].path));
    }
  }

  lemma {:induction false} FilesHoused(prefix: Path, items: seq<Item>)
    ensures Housed(prefix, VisitAll(prefix, items, true), VisitAll(prefix, items, false))
    decreases items
  {
    if items == [] {
    } else {
      var front, last := items[..|items| - 1], items[|items| - 1];
      FilesHoused(prefix, front);
      if last.DirItem? {
        var p := prefix + [last.name];
        FilesHoused(p, last.kids);
        HousedNested(prefix, last.name, last.mtime, VisitAll(p, last.kids, true), VisitAll(p, last.kids, false));
      } else if last.FileItem? {
        assert Parent(prefix + [last.name]) == prefix;
      }
      HousedMerge(prefix, VisitAll(prefix, front, true), VisitItem(prefix, last, true),
                  VisitAll(prefix, front, false), VisitItem(prefix, last, false));
    }
  }

  /** The shape every manifest of a scan has. */
  ghost predicate Orderly(vs: seq<Visit>) {
    && Distinct(vs)
    && Closed([], vs)
    && forall i :: 0 <= i < |vs| ==> AllFileNames(vs[i].path)
  }

  lemma ScanIsOrderly(root: seq<Item>)
    requires WellFormed(root)
    ensures Orderly(Visits(root))
  {
    var d, f := VisitAll([], root, true), VisitAll([], root, false);
    AllDistinct([], root);
    DirsClosed([], root);
    FilesHoused([], root);
    AllThroughBelow([], root, true);
    AllThroughBelow([], root, false);
    ClosedThenHoused([], d, f);
  }

  lemma ClosedThenHoused(base: Path, d: seq<Visit>, f: seq<Visit>)
    requires Closed(base, d) && Housed(base, d, f)
    ensures Closed(base, d + f)
  {
    hide HasDir;
    var c := d + f;
    forall i | 0 <= i < |c| ensures c[i].path != [] && HasDir(c[..i], base, Parent(c[i].path)) {
      if i < |d| {
        assert c[i] == d[i] && c[..i] == d[..i];
      } else {
        assert c[i] == f[i - |d|] && c[..i] == [] + d + f[..i - |d|];
        HasDirMore([], d, f[..i - |d|], base, Parent(f[i - |d|].path));
      }
    }
  }

  // ----- restoring the entries rebuilds the tree -----

  lemma {:induction false} TreeMembers(vs: seq<Visit>, p: Path)
    ensures p in TreeOf(vs) <==> exists i :: 0 <= i < |vs| && vs[i].path == p
  {
    if vs == [] {
    } else {
      TreeMembers(vs[..|vs| - 1], p);
      if p in TreeOf(vs[..|vs| - 1]) {
        var i :| 0 <= i < |vs| - 1 && vs[..|vs| - 1][i].path == p;
        assert vs[i].path == p;
      }
    }
  }

  lemma {:induction false} TreeNodes(vs: seq<Visit>, i: nat)
    requires Distinct(vs) && i < |vs|
    ensures vs[i].path in TreeOf(vs) && TreeOf(vs)[vs[i].path] == vs[i].node
  {
    if i >= |vs| - 1 {
    } else {
      var front := vs[..|vs| - 1];
      forall a, b | 0 <= a < b < |front| ensures front[a].path != front[b].path {
        assert vs[a].path != vs[b].path;
      }
      TreeNodes(front, i);
      assert front[i] == vs[i];
    }
  }

  /** The contents the files of a tree show to the writer. */
  function SourceOf(t: FileTree): Source {
    map p | p in t && t[p].FileNode? :: t[p].data
  }

  ghost predicate ShowsFiles(source: Source, vs: seq<Visit>) {
    forall i :: 0 <= i < |vs| && vs[i].node.FileNode? ==>
      vs[i].path in source && source[vs[i].path] == vs[i].node.data
  }

  predicate PathsSafe(vs: seq<Visit>, dirs: bool) {
    forall i :: 0 <= i < |vs| && vs[i].node.DirNode? == dirs ==> AllSafe(vs[i].path)
  }

  lemma EntryFaithful(v: Visit, source: Source)
    requires v.node.FileNode? && |v.node.data| <= Bytes.U64_MAX && v.path != [] && AllFileNames(v.path)
    requires v.path in source && source[v.path] == v.node.data
    ensures Target(EntryOf(v)) == if AllSafe(v.path) then Ok(v.path) else Err(Tampered)
    ensures Faithful(EntryOf(v), source) <==> AllSafe(v.path)
    ensures AllSafe(v.path) ==> DataOf(EntryOf(v), source) == v.node.data
  {
    JoinInvertsRelPath([], v.path);
    assert [] + v.path == v.path;
  }

  lemma DirTarget(v: Visit)
    requires v.node.DirNode? && v.path != [] && AllFileNames(v.path)
    ensures Target(EntryOf(v)) == if AllSafe(v.path) then Ok(v.path) else Err(Tampered)
  {
    JoinInvertsRelPath([], v.path);
    assert [] + v.path == v.path;
  }

  lemma {:induction false} SourceShows(vs: seq<Visit>)
    requires Distinct(vs)
    ensures ShowsFiles(SourceOf(TreeOf(vs)), vs)
  {
    forall i | 0 <= i < |vs| ensures vs[i].path in TreeOf(vs) && TreeOf(vs)[vs[i].path] == vs[i].node {
      TreeNodes(vs, i);
    }
  }

  /** The writer accepts a scanned folder exactly when the path of every file is safe. */
  lemma {:induction false} FaithfulWhenFilesSafe(vs: seq<Visit>, source: Source)
    requires Sized(vs) && ShowsFiles(source, vs)
    requires forall i :: 0 <= i < |vs| ==> vs[i].path != [] && AllFileNames(vs[i].path)
    ensures AllFaithful(EntriesOf(vs), source) <==> PathsSafe(vs, false)
  {
    hide Target, IsFileName, Faithful;
    if vs == [] {
    } else {
      var v, tail := vs[0], vs[1..];
      FaithfulWhenFilesSafe(tail, source);
      assert EntriesOf(vs)[1..] == EntriesOf(tail);
      if v.node.FileNode? {
        EntryFaithful(v, source);
      }
      SafeHead(vs, false);
    }
  }

  lemma SafeHead(vs: seq<Visit>, dirs: bool)
    requires vs != []
    ensures PathsSafe(vs, dirs) <==> (vs[0].node.DirNode? == dirs ==> AllSafe(vs[0].path)) && PathsSafe(vs[1..], dirs)
  {
  }

  /** The parent of the next visit is already a directory of the tree built so far. */
  lemma ParentReady(done: seq<Visit>, todo: seq<Visit>)
    requires Orderly(done + todo) && todo != []
    ensures todo[0].path != [] && todo[0].path !in TreeOf(done)
    ensures MakeDirs(TreeOf(done), Parent(todo[0].path)) == Ok(TreeOf(done))
  {
    var all, v := done + todo, todo[0];
    assert all[|done|] == v && all[..|done|] == done;
    TreeMembers(done, v.path);
    forall i | 0 <= i < |done| ensures done[i].path != v.path {
      assert all[i] == done[i];
    }
    var p := Parent(v.path);
    if p != [] {
      var j :| 0 <= j < |done| && done[j].path == p && done[j].node == DirNode;
      DistinctConcat(done, todo);
      TreeNodes(done, j);
    }
  }

  lemma RestoreDir(v: Visit, tail: seq<Visit>, source: Source, t: FileTree)
    requires v.node.DirNode? && v.path != [] && AllFileNames(v.path) && Sized([v] + tail)
    requires v.path !in t && MakeDirs(t, Parent(v.path)) == Ok(t)
    requires AllFaithful(EntriesOf([v] + tail), source)
    ensures Sized(tail) && AllFaithful(EntriesOf(tail), source)
    ensures Restored(EntriesOf([v] + tail), source, t)
            == if AllSafe(v.path) then Restored(EntriesOf(tail), source, t[v.path := DirNode]) else Err(Tampered)
  {
    hide Target, IsFileName, Faithful;
    DirTarget(v);
    SizedParts([v], tail);
    EntriesConcat([v], tail);
    assert EntriesOf([v] + tail)[0] == EntryOf(v) && EntriesOf([v] + tail)[1..] == EntriesOf(tail);
  }

  lemma RestoreFile(v: Visit, tail: seq<Visit>, source: Source, t: FileTree)
    requires v.node.FileNode? && v.path != [] && AllFileNames(v.path) && Sized([v] + tail)
    requires v.path in source && source[v.path] == v.node.data
    requires v.path !in t && MakeDirs(t, Parent(v.path)) == Ok(t)
    requires AllFaithful(EntriesOf([v] + tail), source)
    ensures Sized(tail) && AllFaithful(EntriesOf(tail), source)
    ensures Restored(EntriesOf([v] + tail), source, t) == Restored(EntriesOf(tail), source, t[v.path := v.node])
  {
    hide Target, IsFileName, Faithful;
    SizedParts([v], tail);
    EntriesConcat([v], tail);
    assert EntriesOf([v] + tail)[0] == EntryOf(v) && EntriesOf([v] + tail)[1..] == EntriesOf(tail);
    assert |([v] + tail)[0].node.data| <= Bytes.U64_MAX;
    EntryFaithful(v, source);
  }

  lemma TreeSnoc(done: seq<Visit>, v: Visit)
    ensures TreeOf(done + [v]) == TreeOf(done)[v.path := v.node]
  {
  }

  lemma Regroup(done: seq<Visit>, v: Visit, tail: seq<Visit>)
    ensures done + ([v] + tail) == (done + [v]) + tail
  {
  }

  lemma FirstShown(v: Visit, tail: seq<Visit>, source: Source)
    requires ShowsFiles(source, [v] + tail)
    ensures ShowsFiles(source, tail)
    ensures v.node.FileNode? ==> v.path in source && source[v.path] == v.node.data
  {
    assert ([v] + tail)[0] == v;
    forall i | 0 <= i < |tail| && tail[i].node.FileNode?
      ensures tail[i].path in source && source[tail[i].path] == tail[i].node.data
    {
      assert ([v] + tail)[i + 1] == tail[i];
    }
  }

  lemma {:induction false} RestoreSteps(done: seq<Visit>, todo: seq<Visit>, source: Source)
    requires Orderly(done + todo) && Sized(todo) && ShowsFiles(source, todo)
    requires AllFaithful(EntriesOf(todo), source)
    ensures Restored(EntriesOf(todo), source, TreeOf(done))
            == if PathsSafe(todo, true) then Ok(TreeOf(done + todo)) else Err(Tampered)
    decreases |todo|
  {
    hide ShowsFiles, AllFaithful, TreeOf, MakeDirs, PathsSafe, AllSafe;
    if todo == [] {
      RestoreNothing(done, source);
    } else {
      var v, tail := todo[0], todo[1..];
      assert todo == [v] + tail && (done + todo)[|done|] == v;
      ParentReady(done, todo);
      FirstShown(v, tail, source);
      SafeHead(todo, true);
      TreeSnoc(done, v);
      Regroup(done, v, tail);
      if v.node.DirNode? {
        RestoreDir(v, tail, source, TreeOf(done));
      } else {
        RestoreFile(v, tail, source, TreeOf(done));
      }
      RestoreSteps(done + [v], tail, source);
    }
  }

  lemma RestoreNothing(done: seq<Visit>, source: Source)
    ensures AllFaithful(EntriesOf([]), source)
    ensures Restored(EntriesOf([]), source, TreeOf(done)) == Ok(TreeOf(done + []))
    ensures PathsSafe([], true)
  {
    assert done + [] == done;
  }

  /** Restoring a scanned folder gives exactly its tree, unless a directory has a name extraction
      refuses: the writer checks the names on the way to files only. */
  lemma RestoredIsContents(root: seq<Item>)
    requires WellFormed(root)
    ensures Sized(Visits(root))
    ensures var es, source := EntriesOf(Visits(root)), SourceOf(Contents(root));
            && (AllFaithful(es, source) <==> PathsSafe(Visits(root), false))
            && (AllFaithful(es, source) ==>
                 Restored(es, source, map[])
                 == if PathsSafe(Visits(root), true) then Ok(Contents(root)) else Err(Tampered))
  {
    var vs := Visits(root);
    ScanIsOrderly(root);
    VisitsSized([], root, true);
    VisitsSized([], root, false);
    SourceShows(vs);
    FaithfulWhenFilesSafe(vs, SourceOf(Contents(root)));
    if AllFaithful(EntriesOf(vs), SourceOf(Contents(root))) {
      assert [] + vs == vs;
      RestoreSteps([], vs, SourceOf(Contents(root)));
    }
  }

  // ----- the flattening, entry by entry -----

  function SizeSum(es: seq<Entry>): nat {
    if es == [] then 0 else SizeSum(es[..|es| - 1]) + es[|es| - 1].size
  }

  lemma {:induction false} SizeSumConcat(a: seq<Entry>, b: seq<Entry>)
    ensures SizeSum(a + b) == SizeSum(a) + SizeSum(b)
  {
    if b == [] {
      assert a + b == a;
    } else {
      SizeSumConcat(a, b[..|b| - 1]);
      assert (a + b)[..|a + b| - 1] == a + b[..|b| - 1];
    }
  }

  lemma {:induction false} SizesAddUp(prefix: Path, items: seq<Item>)
    ensures Sized(VisitAll(prefix, items, true)) && Sized(VisitAll(prefix, items, false))
    ensures SizeSum(EntriesOf(VisitAll(prefix, items, true))) == 0
    ensures SizeSum(EntriesOf(VisitAll(prefix, items, false))) == TotalBytes(items)
    decreases items
  {
    VisitsSized(prefix, items, true);
    VisitsSized(prefix, items, false);
    if items == [] {
    } else {
      var front, last := items[..|items| - 1], items[|items| - 1];
      SizesAddUp(prefix, front);
      ItemSizes(prefix, last);
      forall dirs ensures SizeSum(EntriesOf(VisitAll(prefix, items, dirs)))
                          == SizeSum(EntriesOf(VisitAll(prefix, front, dirs))) + SizeSum(EntriesOf(VisitItem(prefix, last, dirs)))
      {
        EntriesConcat(VisitAll(prefix, front, dirs), VisitItem(prefix, last, dirs));
        SizeSumConcat(EntriesOf(VisitAll(prefix, front, dirs)), EntriesOf(VisitItem(prefix, last, dirs)));
      }
    }
  }

  lemma {:induction false} ItemSizes(prefix: Path, item: Item)
    ensures Sized(VisitItem(prefix, item, true)) && Sized(VisitItem(prefix, item, false))
    ensures SizeSum(EntriesOf(VisitItem(prefix, item, true))) == 0
    ensures SizeSum(EntriesOf(VisitItem(prefix, item, false))) == ItemBytes(item)
    decreases item, 0
  {
    match item
    case LinkItem(_) =>
    case FileItem(name, data, mtime, readonly) =>
      OneSize(Visit(prefix + [name], FileNode(data, readonly), mtime));
    case DirItem(name, mtime, kids) =>
      var p := prefix + [name];
      var here := Visit(p, DirNode, mtime);
      SizesAddUp(p, kids);
      OneSize(here);
      EntriesConcat([here], VisitAll(p, kids, true));
      SizeSumConcat(EntriesOf([here]), EntriesOf(VisitAll(p, kids, true)));
      assert [] + VisitAll(p, kids, false) == VisitAll(p, kids, false);
  }

  lemma OneSize(v: Visit)
    requires Sized([v])
    ensures [v][0] == v && SizeSum(EntriesOf([v])) == EntryOf(v).size
  {
  }

  predicate AllOfKind(vs: seq<Visit>, dirs: bool) {
    forall i :: 0 <= i < |vs| ==> vs[i].node.DirNode? == dirs
  }

  lemma KindConcat(a: seq<Visit>, b: seq<Visit>, dirs: bool)
    requires AllOfKind(a, dirs) && AllOfKind(b, dirs)
    ensures AllOfKind(a + b, dirs)
  {
  }

  lemma {:induction false} VisitKinds(prefix: Path, items: seq<Item>, dirs: bool)
    ensures AllOfKind(VisitAll(prefix, items, dirs), dirs)
    decreases items
  {
    if items == [] {
    } else {
      var front, last := items[..|items| - 1], items[|items| - 1];
      VisitKinds(prefix, front, dirs);
      if last.DirItem? {
        var p := prefix + [last.name];
        VisitKinds(p, last.kids, dirs);
        KindConcat(if dirs then [Visit(p, DirNode, last.mtime)] else [], VisitAll(p, last.kids, dirs), dirs);
      }
      KindConcat(VisitAll(prefix, front, dirs), VisitItem(prefix, last, dirs), dirs);
    }
  }

  /** Whatever lies below a visited directory is visited after it. */
  lemma {:induction false} AncestorsFirst(vs: seq<Visit>, j: nat, i: nat)
    requires Distinct(vs) && Closed([], vs)
    requires j < |vs| && i < |vs| && vs[j].path < vs[i].path
    ensures j < i
    decreases |vs[i].path|
  {
    var p := Parent(vs[i].path);
    assert vs[j].path != [] && p != [];
    var k :| 0 <= k < i && vs[..i][k].path == p;
    assert vs[k].path == p;
    if vs[j].path == p {
      assert j == k;
    } else {
      AncestorsFirst(vs, j, k);
    }
  }

  lemma PathsTellApart(vs: seq<Visit>, i: nat, j: nat)
    requires Orderly(vs) && i < j < |vs|
    ensures RelPath(vs[i].path) != RelPath(vs[j].path)
  {
    assert vs[i].path != [] && vs[j].path != [] && vs[i].path != vs[j].path;
    if RelPath(vs[i].path) == RelPath(vs[j].path) {
      RelPathInjective(vs[i].path, vs[j].path);
    }
  }

  /** The tree has exactly the visited nodes. */
  lemma TreeIsVisits(vs: seq<Visit>)
    requires Distinct(vs)
    ensures forall p :: p in TreeOf(vs) <==> exists i :: 0 <= i < |vs| && vs[i].path == p
    ensures forall i :: 0 <= i < |vs| ==> vs[i].path in TreeOf(vs) && TreeOf(vs)[vs[i].path] == vs[i].node
  {
    forall p ensures p in TreeOf(vs) <==> exists i :: 0 <= i < |vs| && vs[i].path == p {
      TreeMembers(vs, p);
    }
    forall i | 0 <= i < |vs| ensures vs[i].path in TreeOf(vs) && TreeOf(vs)[vs[i].path] == vs[i].node {
      TreeNodes(vs, i);
    }
  }
}
