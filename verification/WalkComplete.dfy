/** The walk misses nothing: what it visits is what the listing shows, and so is what is restored. */
module WalkComplete {
  import opened Bytes
  import opened Entries
  import opened Paths
  import opened Container
  import opened Walk
  import opened WalkProofs

  /** The visit a listed item should get. */
  function VisitOf(path: Path, item: Item): Visit
    requires !item.LinkItem?
  {
    Visit(path, NodeOf(item), item.mtime)
  }

  lemma {:induction false} LeadsIsVisited(prefix: Path, first: Item, path: Path, item: Item)
    requires path != [] && Leads(first, path, item) && !item.LinkItem?
    ensures VisitOf(prefix + path, item) in VisitItem(prefix, first, item.DirItem?)
    decreases first, 0
  {
    var p := prefix + [first.name];
    if |path| == 1 {
      assert path == [first.name];
      var v := VisitOf(p, item);
      assert VisitItem(prefix, first, item.DirItem?)[0] == v;
    } else {
      ListedIsVisited(p, first.kids, path[1..], item);
      assert p + path[1..] == prefix + path;
    }
  }

  /** Whatever the listing shows is visited. */
  lemma {:induction false} ListedIsVisited(prefix: Path, items: seq<Item>, path: Path, item: Item)
    requires ListedAt(items, path, item) && !item.LinkItem?
    ensures VisitOf(prefix + path, item) in VisitAll(prefix, items, item.DirItem?)
    decreases items, 1
  {
    var i :| 0 <= i < |items| && Leads(items[i], path, item);
    var front, last := items[..|items| - 1], items[|items| - 1];
    if i == |front| {
      LeadsIsVisited(prefix, last, path, item);
    } else {
      assert Leads(front[i], path, item);
      ListedIsVisited(prefix, front, path, item);
    }
  }

  lemma {:induction false} VisitLeads(prefix: Path, first: Item, dirs: bool, v: Visit) returns (path: Path, item: Item)
    requires v in VisitItem(prefix, first, dirs)
    ensures path != [] && Leads(first, path, item) && !item.LinkItem?
    ensures v == VisitOf(prefix + path, item) && item.DirItem? == dirs
    decreases first, 0
  {
    var p := prefix + [first.name];
    if first.DirItem? && v in VisitAll(p, first.kids, dirs) {
      var rest, i := VisitIsListed(p, first.kids, dirs, v);
      path, item := [first.name] + rest, i;
      assert path[1..] == rest && p + rest == prefix + path;
    } else {
      path, item := [first.name], first;
    }
  }

  /** Whatever is visited is shown by the listing. */
  lemma {:induction false} VisitIsListed(prefix: Path, items: seq<Item>, dirs: bool, v: Visit) returns (path: Path, item: Item)
    requires v in VisitAll(prefix, items, dirs)
    ensures ListedAt(items, path, item) && !item.LinkItem?
    ensures v == VisitOf(prefix + path, item) && item.DirItem? == dirs
    decreases items, 1
  {
    var front, last := items[..|items| - 1], items[|items| - 1];
    if v in VisitAll(prefix, front, dirs) {
      path, item := VisitIsListed(prefix, front, dirs, v);
      var i :| 0 <= i < |front| && Leads(front[i], path, item);
      assert Leads(items[i], path, item);
    } else {
      path, item := VisitLeads(prefix, last, dirs, v);
      assert Leads(items[|items| - 1], path, item);
    }
  }

  /** Every listed item that is not a link is visited, and nothing else is. */
  lemma VisitedIffListed(root: seq<Item>)
    ensures forall p, item :: ListedAt(root, p, item) && !item.LinkItem? ==> VisitOf(p, item) in Visits(root)
    ensures forall v :: v in Visits(root) ==> exists item :: ListedAt(root, v.path, item) && !item.LinkItem? && v == VisitOf(v.path, item)
  {
    hide ListedAt, VisitAll;
    forall p, item | ListedAt(root, p, item) && !item.LinkItem? ensures VisitOf(p, item) in Visits(root) {
      ListedIsVisited([], root, p, item);
      assert [] + p == p;
    }
    forall v | v in Visits(root)
      ensures exists item :: ListedAt(root, v.path, item) && !item.LinkItem? && v == VisitOf(v.path, item)
    {
      var path, item := VisitIsListed([], root, v in VisitAll([], root, true), v);
      assert [] + path == path;
    }
  }

  lemma {:induction false} LinkIsListed(items: seq<Item>) returns (path: Path, item: Item)
    requires HasLink(items)
    ensures ListedAt(items, path, item) && item.LinkItem?
    decreases items
  {
    var front, last := items[..|items| - 1], items[|items| - 1];
    if HasLink(front) {
      path, item := LinkIsListed(front);
      var i :| 0 <= i < |front| && Leads(front[i], path, item);
      assert Leads(items[i], path, item);
    } else {
      if last.LinkItem? {
        path, item := [last.name], last;
      } else {
        var rest, i := LinkIsListed(last.kids);
        path, item := [last.name] + rest, i;
        assert path[1..] == rest;
      }
      assert Leads(items[|items| - 1], path, item);
    }
  }

  lemma {:induction false} ListedLink(items: seq<Item>, path: Path, item: Item)
    requires ListedAt(items, path, item) && item.LinkItem?
    ensures HasLink(items)
    decreases items
  {
    var i :| 0 <= i < |items| && Leads(items[i], path, item);
    var front, last := items[..|items| - 1], items[|items| - 1];
    if i < |front| {
      assert Leads(front[i], path, item);
      ListedLink(front, path, item);
    } else if |path| > 1 {
      ListedLink(last.kids, path[1..], item);
    }
  }

  /** The scan is refused exactly when the listing shows a link, at any depth. */
  lemma LinksAreFound(root: seq<Item>)
    ensures HasLink(root) <==> exists p, item :: ListedAt(root, p, item) && item.LinkItem?
  {
    hide HasLink;
    if HasLink(root) {
      var p, item := LinkIsListed(root);
      assert ListedAt(root, p, item) && item.LinkItem?;
    }
    forall p, item | ListedAt(root, p, item) && item.LinkItem? ensures HasLink(root) {
      ListedLink(root, p, item);
    }
  }

  lemma ContentsHold(root: seq<Item>, v: Visit)
    requires WellFormed(root) && v in Visits(root)
    ensures v.path in Contents(root) && Contents(root)[v.path] == v.node
  {
    hide VisitAll;
    ScanIsOrderly(root);
    TreeIsVisits(Visits(root));
  }

  lemma VisitOfPath(root: seq<Item>, p: Path) returns (v: Visit)
    requires WellFormed(root) && p in Contents(root)
    ensures v in Visits(root) && v.path == p
  {
    hide Visits, TreeOf;
    ScanIsOrderly(root);
    TreeIsVisits(Visits(root));
    var i :| 0 <= i < |Visits(root)| && Visits(root)[i].path == p;
    v := Visits(root)[i];
  }

  /** The tree the visits make up is the tree the listing shows. */
  lemma ContentsAreListed(root: seq<Item>)
    requires WellFormed(root)
    ensures Shows(root, Contents(root))
  {
    hide Visits, ListedAt, Contents, WellFormed;
    VisitedIffListed(root);
    forall p, item | ListedAt(root, p, item) && !item.LinkItem?
      ensures p in Contents(root) && Contents(root)[p] == NodeOf(item)
    {
      ContentsHold(root, VisitOf(p, item));
    }
    forall p | p in Contents(root) ensures exists item :: ListedAt(root, p, item) && !item.LinkItem? {
      var v := VisitOfPath(root, p);
      var item :| ListedAt(root, v.path, item) && !item.LinkItem?;
    }
  }

  lemma ShownOnce(root: seq<Item>, a: FileTree, b: FileTree, p: Path)
    requires Shows(root, a) && Shows(root, b) && p in a
    ensures p in b && a[p] == b[p]
  {
    hide ListedAt;
    var item :| ListedAt(root, p, item) && !item.LinkItem?;
  }

  /** A well-formed listing shows one tree, the one the visits make up. */
  lemma ShownIsContents(root: seq<Item>, t: FileTree)
    requires WellFormed(root) && Shows(root, t)
    ensures t == Contents(root)
  {
    hide Shows, Contents;
    ContentsAreListed(root);
    forall p ensures (p in t <==> p in Contents(root)) && (p in t ==> t[p] == Contents(root)[p]) {
      if p in t {
        ShownOnce(root, t, Contents(root), p);
      }
      if p in Contents(root) {
        ShownOnce(root, Contents(root), t, p);
      }
    }
  }

  /** Extraction accepts the names of the tree's directories, or of its files. */
  predicate NamesSafe(t: FileTree, dirs: bool) {
    forall p :: p in t && t[p].DirNode? == dirs ==> AllSafe(p)
  }

  lemma SafeNames(root: seq<Item>, dirs: bool)
    requires WellFormed(root)
    ensures PathsSafe(Visits(root), dirs) <==> NamesSafe(Contents(root), dirs)
  {
    hide Visits, AllSafe, TreeOf;
    var vs := Visits(root);
    ScanIsOrderly(root);
    TreeIsVisits(vs);
    if PathsSafe(vs, dirs) {
      forall p | p in Contents(root) && Contents(root)[p].DirNode? == dirs ensures AllSafe(p) {
        var i :| 0 <= i < |vs| && vs[i].path == p;
      }
    }
  }

  /** Restoring a scanned folder gives exactly the tree its listing shows, unless a directory has a
      name extraction refuses; the copy is faithful exactly when the names of all files are safe. */
  lemma RestoredIsShown(root: seq<Item>, t: FileTree)
    requires WellFormed(root) && Shows(root, t)
    ensures Sized(Visits(root))
    ensures var es, source := EntriesOf(Visits(root)), SourceOf(t);
            && (AllFaithful(es, source) <==> NamesSafe(t, false))
            && (AllFaithful(es, source) ==>
                 Restored(es, source, map[]) == if NamesSafe(t, true) then Ok(t) else Err(Tampered))
  {
    hide Visits, Shows, AllFaithful, Restored, NamesSafe, PathsSafe;
    ShownIsContents(root, t);
    RestoredIsContents(root);
    SafeNames(root, true);
    SafeNames(root, false);
  }

  // ----- the flattening, entry by entry -----

  /** What the manifest should say of a listed item. */
  function EntryFor(path: Path, item: Item): Entry
    requires !item.LinkItem?
  {
    match item
    case FileItem(_, data, mtime, readonly) => Entry(RelPath(path), |data|, mtime, false, readonly)
    case DirItem(_, mtime, _) => Entry(RelPath(path), 0, mtime, true, false)
  }

  /** This entry stands for what the listing shows at this path. */
  ghost predicate StandsFor(e: Entry, root: seq<Item>, p: Path) {
    exists item :: ListedAt(root, p, item) && !item.LinkItem? && e == EntryFor(p, item)
  }

  ghost predicate AllListed(root: seq<Item>, es: seq<Entry>) {
    forall p, item :: ListedAt(root, p, item) && !item.LinkItem? ==> EntryFor(p, item) in es
  }

  ghost predicate OnlyListed(root: seq<Item>, vs: seq<Visit>, es: seq<Entry>)
    requires |es| == |vs|
  {
    forall i :: 0 <= i < |es| ==> StandsFor(es[i], root, vs[i].path)
  }

  lemma EntryOfVisit(p: Path, item: Item)
    requires !item.LinkItem?
    ensures EntryOf(VisitOf(p, item)) == EntryFor(p, item)
  {
  }

  lemma EntriesIffListed(root: seq<Item>)
    requires Sized(Visits(root))
    ensures AllListed(root, EntriesOf(Visits(root)))
    ensures OnlyListed(root, Visits(root), EntriesOf(Visits(root)))
  {
    hide ListedAt, Visits, RelPath, EntryOf, EntryFor, VisitOf;
    var vs := Visits(root);
    VisitedIffListed(root);
    forall p, item | ListedAt(root, p, item) && !item.LinkItem? ensures EntryFor(p, item) in EntriesOf(vs) {
      var i :| 0 <= i < |vs| && vs[i] == VisitOf(p, item);
      EntryOfVisit(p, item);
      assert EntriesOf(vs)[i] == EntryFor(p, item);
    }
    forall i | 0 <= i < |vs| ensures StandsFor(EntriesOf(vs)[i], root, vs[i].path) {
      assert vs[i] in vs;
      var item :| ListedAt(root, vs[i].path, item) && !item.LinkItem? && vs[i] == VisitOf(vs[i].path, item);
      EntryOfVisit(vs[i].path, item);
    }
  }

  predicate PathsDiffer(es: seq<Entry>) {
    forall i, j :: 0 <= i < j < |es| ==> es[i].relPath != es[j].relPath
  }

  predicate DirsFirst(es: seq<Entry>) {
    forall i, j :: 0 <= i < |es| && 0 <= j < |es| && es[i].isDir && !es[j].isDir ==> i < j
  }

  /** Whatever lies below a visited path is visited later. */
  predicate Downwards(vs: seq<Visit>) {
    forall i, j :: 0 <= i < |vs| && 0 <= j < |vs| && vs[j].path < vs[i].path ==> j < i
  }

  lemma OrderlyEntries(vs: seq<Visit>)
    requires Orderly(vs) && Sized(vs)
    ensures PathsDiffer(EntriesOf(vs)) && Downwards(vs)
  {
    hide RelPath, AllFileNames, Closed;
    forall i, j | 0 <= i < j < |vs| ensures EntriesOf(vs)[i].relPath != EntriesOf(vs)[j].relPath {
      PathsTellApart(vs, i, j);
    }
    forall i, j | 0 <= i < |vs| && 0 <= j < |vs| && vs[j].path < vs[i].path ensures j < i {
      AncestorsFirst(vs, j, i);
    }
  }

  lemma EntriesByKind(root: seq<Item>)
    requires Sized(Visits(root))
    ensures DirsFirst(EntriesOf(Visits(root))) && SizeSum(EntriesOf(Visits(root))) == TotalBytes(root)
  {
    hide RelPath, TotalBytes, VisitAll;
    var d, f := VisitAll([], root, true), VisitAll([], root, false);
    SizesAddUp([], root);
    EntriesConcat(d, f);
    SizeSumConcat(EntriesOf(d), EntriesOf(f));
    VisitKinds([], root, true);
    VisitKinds([], root, false);
    forall i | 0 <= i < |d + f| ensures EntriesOf(d + f)[i].isDir <==> i < |d| {
      assert (d + f)[i] == if i < |d| then d[i] else f[i - |d|];
    }
  }

  /** One entry for every node the listing shows, with that node's data, and no other entry; no two
      alike, directories first and before what they hold, and the sizes add up to the folder's bytes. */
  lemma ScanIsLossless(root: seq<Item>)
    requires WellFormed(root)
    ensures Sized(Visits(root)) && Distinct(Visits(root))
    ensures var vs, es := Visits(root), EntriesOf(Visits(root));
            && AllListed(root, es) && OnlyListed(root, vs, es)
            && PathsDiffer(es) && DirsFirst(es) && Downwards(vs)
            && SizeSum(es) == TotalBytes(root)
  {
    hide TotalBytes, AllListed, OnlyListed, PathsDiffer, DirsFirst, Downwards, Closed, AllFileNames, VisitAll;
    VisitsSized([], root, true);
    VisitsSized([], root, false);
    ScanIsOrderly(root);
    OrderlyEntries(Visits(root));
    EntriesByKind(root);
    EntriesIffListed(root);
  }
}
