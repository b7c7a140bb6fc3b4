/** The folder scan of walk.rs: a tree flattened into manifest entries. */
module Walk {
  import opened Bytes
  import opened Entries
  import opened Paths
  import opened Container
  import opened Lockout

  type FileData = d: bytes | |d| <= U64_MAX witness []

  /** What a directory listing shows, in the order the file system returns it. */
  datatype Item =
    | FileItem(name: string, data: FileData, mtime: u64, readonly: bool)
    | DirItem(name: string, mtime: u64, kids: seq<Item>)
    | LinkItem(name: string)

  /** The listing shows this item at this path: its names are looked up one after the other. */
  ghost predicate ListedAt(items: seq<Item>, path: Path, item: Item)
    decreases |path|, 1
  {
    path != [] && exists i :: 0 <= i < |items| && Leads(items[i], path, item)
  }

  /** The path starts with this item's name and leads from there to the other item. */
  ghost predicate Leads(first: Item, path: Path, item: Item)
    requires path != []
    decreases |path|, 0
  {
    && first.name == path[0]
    && if |path| == 1 then first == item else first.DirItem? && ListedAt(first.kids, path[1..], item)
  }

  function NodeOf(item: Item): Node
    requires !item.LinkItem?
  {
    match item
    case FileItem(_, data, _, readonly) => FileNode(data, readonly)
    case DirItem(_, _, _) => DirNode
  }

  /** The tree holds what the listing shows, all of it and nothing else. */
  ghost predicate Shows(items: seq<Item>, t: FileTree) {
    && (forall p, item :: ListedAt(items, p, item) && !item.LinkItem? ==> p in t && t[p] == NodeOf(item))
    && (forall p :: p in t ==> exists item :: ListedAt(items, p, item) && !item.LinkItem?)
  }

  /** One visited node: its path below the root and what is there. */
  datatype Visit = Visit(path: Path, node: Node, mtime: u64)

  /** The directories, or the files, of one item in walk order. */
  function VisitItem(prefix: Path, item: Item, dirs: bool): seq<Visit>
    decreases item, 0
  {
    match item
    case FileItem(name, data, mtime, readonly) =>
      if dirs then [] else [Visit(prefix + [name], FileNode(data, readonly), mtime)]
    case DirItem(name, mtime, kids) =>
      (if dirs then [Visit(prefix + [name], DirNode, mtime)] else []) + VisitAll(prefix + [name], kids, dirs)
    case LinkItem(_) => []
  }

  function VisitAll(prefix: Path, items: seq<Item>, dirs: bool): seq<Visit>
    decreases items, 1
  {
    if items == [] then []
    else VisitAll(prefix, items[..|items| - 1], dirs) + VisitItem(prefix, items[|items| - 1], dirs)
  }

  predicate HasLink(items: seq<Item>)
    decreases items
  {
    items != []
    && var last := items[|items| - 1];
       HasLink(items[..|items| - 1]) || last.LinkItem? || (last.DirItem? && HasLink(last.kids))
  }

  /** The bytes in all files. */
  function TotalBytes(items: seq<Item>): nat
    decreases items, 1
  {
    if items == [] then 0 else TotalBytes(items[..|items| - 1]) + ItemBytes(items[|items| - 1])
  }

  function ItemBytes(item: Item): nat
    decreases item, 0
  {
    match item
    case FileItem(_, data, _, _) => |data|
    case DirItem(_, _, kids) => TotalBytes(kids)
    case LinkItem(_) => 0
  }

  function EntryOf(v: Visit): Entry
    requires v.node.FileNode? ==> |v.node.data| <= U64_MAX
  {
    match v.node
    case DirNode => Entry(RelPath(v.path), 0, v.mtime, true, false)
    case FileNode(data, readonly) => Entry(RelPath(v.path), |data|, v.mtime, false, readonly)
  }

  predicate Sized(vs: seq<Visit>) {
    forall i :: 0 <= i < |vs| ==> vs[i].node.FileNode? ==> |vs[i].node.data| <= U64_MAX
  }

  function EntriesOf(vs: seq<Visit>): (r: seq<Entry>)
    requires Sized(vs)
    ensures |r| == |vs|
  {
    seq(|vs|, i requires 0 <= i < |vs| => EntryOf(vs[i]))
  }

  lemma {:induction false} VisitsSized(prefix: Path, items: seq<Item>, dirs: bool)
    ensures Sized(VisitAll(prefix, items, dirs))
    decreases items
  {
    if items == [] {
    } else {
      VisitsSized(prefix, items[..|items| - 1], dirs);
      var last := items[|items| - 1];
      if last.DirItem? {
        VisitsSized(prefix + [last.name], last.kids, dirs);
      }
    }
  }

  datatype FolderScan = FolderScan(entries: seq<Entry>, totalBytes: u64)

  /** The walk itself, over the vectors and the counter it appends to. */
  class Walker {
    var dirs: seq<Entry>
    var files: seq<Entry>
    var total: u64

    constructor ()
      ensures dirs == [] && files == [] && total == 0
    {
      dirs, files, total := [], [], 0;
    }

    /** The vectors and the counter, given what they were and what has been visited since. */
    ghost predicate Holds(d0: seq<Entry>, f0: seq<Entry>, t0: u64, d: seq<Visit>, f: seq<Visit>, n: nat)
      reads this
    {
      && Sized(d) && Sized(f)
      && dirs == d0 + EntriesOf(d) && files == f0 + EntriesOf(f) && total == WrapU64(t0 + n)
    }

    /** The body of the walk's loop. */
    method WalkItem(prefix: Path, item: Item) returns (r: Result<()>)
      modifies this
      decreases item, 0
      ensures r == if HasLink([item]) then Err(Unsupported) else Ok(())
      ensures r.Ok? ==> Holds(old(dirs), old(files), old(total),
                              VisitItem(prefix, item, true), VisitItem(prefix, item, false), ItemBytes(item))
    {
      hide VisitAll, TotalBytes, RelPath;
      OneItem(item);
      ghost var d0, f0, t0 := dirs, files, total;
      match item {
        case LinkItem(_) =>
          r := Err(Unsupported);
        case FileItem(name, data, mtime, readonly) =>
          total := WrapU64(total + |data|);
          files := files + [Entry(RelPath(prefix + [name]), |data|, mtime, false, readonly)];
          assert dirs == d0 + [];
          r := Ok(());
        case DirItem(name, mtime, kids) =>
          dirs := dirs + [Entry(RelPath(prefix + [name]), 0, mtime, true, false)];
          r := WalkInto(prefix + [name], kids);
          if r.Ok? {
            ghost var here := [Visit(prefix + [name], DirNode, mtime)];
            ghost var below := VisitAll(prefix + [name], kids, true);
            EntriesConcat(here, below);
            assert dirs == d0 + EntriesOf(here) + EntriesOf(below);
          }
      }
    }

    method WalkInto(prefix: Path, items: seq<Item>) returns (r: Result<()>)
      modifies this
      decreases items, 1
      ensures r == if HasLink(items) then Err(Unsupported) else Ok(())
      ensures r.Ok? ==> Holds(old(dirs), old(files), old(total),
                              VisitAll(prefix, items, true), VisitAll(prefix, items, false), TotalBytes(items))
    {
      hide VisitItem, VisitAll, RelPath, ItemBytes, TotalBytes, HasLink, EntriesOf, Sized, WrapU64;
      var i := 0;
      NothingVisited(prefix, items[..0], total);
      assert dirs == dirs + [] && files == files + [];
      while i < |items|
        invariant 0 <= i <= |items|
        invariant !HasLink(items[..i])
        invariant Holds(old(dirs), old(files), old(total),
                        VisitAll(prefix, items[..i], true), VisitAll(prefix, items[..i], false), TotalBytes(items[..i]))
      {
        ghost var d1, f1, t1 := dirs, files, total;
        r := WalkItem(prefix, items[i]);
        OneMoreItem(prefix, items, i);
        if r.Err? {
          LinkInPrefix(items, i + 1);
          return;
        }
        AppendTwice(old(dirs), d1, dirs, VisitAll(prefix, items[..i], true), VisitItem(prefix, items[i], true));
        AppendTwice(old(files), f1, files, VisitAll(prefix, items[..i], false), VisitItem(prefix, items[i], false));
        AddTwice(old(total), TotalBytes(items[..i]), ItemBytes(items[i]));
        i := i + 1;
      }
      assert items[..i] == items;
      r := Ok(());
    }

    method Scan(root: seq<Item>) returns (r: Result<FolderScan>)
      requires dirs == [] && files == [] && total == 0
      modifies this
      ensures r.Ok? <==> !HasLink(root)
      ensures r.Err? ==> r.error == Unsupported
      ensures Sized(Visits(root))
      ensures r.Ok? ==> r.value.entries == EntriesOf(Visits(root))
      ensures r.Ok? ==> r.value.totalBytes == WrapU64(TotalBytes(root))
    {
      VisitsSized([], root, true);
      VisitsSized([], root, false);
      var w := WalkInto([], root);
      if w.Err? {
        return Err(w.error);
      }
      EntriesConcat(VisitAll([], root, true), VisitAll([], root, false));
      assert dirs == EntriesOf(VisitAll([], root, true)) && files == EntriesOf(VisitAll([], root, false));
      r := Ok(FolderScan(dirs + files, total));
    }
  }

  lemma NothingVisited(prefix: Path, none: seq<Item>, total: u64)
    requires none == []
    ensures VisitAll(prefix, none, true) == [] && VisitAll(prefix, none, false) == []
    ensures Sized([]) && EntriesOf([]) == [] && !HasLink(none) && WrapU64(total + TotalBytes(none)) == total
  {
  }

  lemma SizedParts(a: seq<Visit>, b: seq<Visit>)
    requires Sized(a + b)
    ensures Sized(a) && Sized(b)
  {
    assert a == (a + b)[..|a|] && b == (a + b)[|a|..];
  }

  lemma EntriesConcat(a: seq<Visit>, b: seq<Visit>)
    requires Sized(a) && Sized(b)
    ensures Sized(a + b) && EntriesOf(a + b) == EntriesOf(a) + EntriesOf(b)
  {
  }

  lemma AppendTwice(e0: seq<Entry>, e1: seq<Entry>, e2: seq<Entry>, a: seq<Visit>, b: seq<Visit>)
    requires Sized(a) && Sized(b) && e1 == e0 + EntriesOf(a) && e2 == e1 + EntriesOf(b)
    ensures Sized(a + b) && e2 == e0 + EntriesOf(a + b)
  {
  }

  lemma AddTwice(t: u64, m: nat, n: nat)
    ensures WrapU64(WrapU64(t + m) + n) == WrapU64(t + (m + n))
  {
  }

  lemma OneItem(item: Item)
    ensures HasLink([item]) == (item.LinkItem? || (item.DirItem? && HasLink(item.kids)))
  {
  }

  /** One more item extends the walk's results by that item's. */
  lemma OneMoreItem(prefix: Path, items: seq<Item>, i: nat)
    requires i < |items|
    ensures forall dirs :: VisitAll(prefix, items[..i + 1], dirs)
                           == VisitAll(prefix, items[..i], dirs) + VisitItem(prefix, items[i], dirs)
    ensures TotalBytes(items[..i + 1]) == TotalBytes(items[..i]) + ItemBytes(items[i])
    ensures HasLink(items[..i + 1]) == (HasLink(items[..i]) || HasLink([items[i]]))
  {
    assert items[..i + 1][..i] == items[..i];
    assert [items[i]][..0] == [];
  }

  lemma {:induction false} LinkInPrefix(items: seq<Item>, n: nat)
    requires n <= |items| && HasLink(items[..n])
    ensures HasLink(items)
    decreases |items|
  {
    if n < |items| {
      assert items[..|items| - 1][..n] == items[..n];
      LinkInPrefix(items[..|items| - 1], n);
    } else {
      assert items[..n] == items;
    }
  }

  /** All nodes in manifest order: directories first. */
  function Visits(root: seq<Item>): seq<Visit> {
    VisitAll([], root, true) + VisitAll([], root, false)
  }

  /** The tree itself. */
  function TreeOf(vs: seq<Visit>): FileTree {
    if vs == [] then map[] else TreeOf(vs[..|vs| - 1])[vs[|vs| - 1].path := vs[|vs| - 1].node]
  }

  function Contents(root: seq<Item>): FileTree {
    TreeOf(Visits(root))
  }
}
