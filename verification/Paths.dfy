/**
 * Relative paths: how walk.rs prints them and how format.rs joins them back onto a root.
 * A path is the list of its component names below some drive or mount point, and the text form
 * is read as on Windows, where both slashes separate.
 */
module Paths {
  import opened Bytes

  type Path = seq<string>

  predicate IsSeparator(c: char) { c == '/' || c == '\\' }

  /** Splitting goes on in the last piece. */
  function Grow(pieces: seq<string>, c: char): (r: seq<string>)
    requires |pieces| > 0
    ensures |r| > 0
  {
    if IsSeparator(c) then pieces + [""] else pieces[..|pieces| - 1] + [pieces[|pieces| - 1] + [c]]
  }

  /** The pieces between separators, empty ones included. */
  function Split(s: string): (r: seq<string>)
    ensures |r| > 0
  {
    if s == "" then [""]
    else
      Grow(Split(s[..|s| - 1]), s[|s| - 1])
  }

  datatype Component = Normal(name: string) | CurDir | ParentDir | RootDir | Prefix

  predicate IsAsciiLetter(c: char) { 'a' <= c <= 'z' || 'A' <= c <= 'Z' }

  /** `Path::components`: empty pieces and inner dots vanish, a leading dot stays. What follows a
      root or a drive prefix is cut off, since nothing reads on past one. */
  function Components(s: string): seq<Component> {
    if s == "" then []
    else if IsSeparator(s[0]) then [RootDir]
    else if |s| >= 2 && IsAsciiLetter(s[0]) && s[1] == ':' then [Prefix]
    else
      var pieces := Split(s);
      (if pieces[0] == "." then [CurDir] else []) + Kept(pieces)
  }

  function Kept(pieces: seq<string>): seq<Component> {
    if pieces == [] then []
    else
      var front, p := Kept(pieces[..|pieces| - 1]), pieces[|pieces| - 1];
      if p == "" || p == "." then front
      else front + [if p == ".." then ParentDir else Normal(p)]
  }

  const RESERVED_NAMES: seq<string> := [
    "CON", "PRN", "AUX", "NUL", "COM1", "COM2", "COM3", "COM4", "COM5", "COM6", "COM7", "COM8",
    "COM9", "LPT1", "LPT2", "LPT3", "LPT4", "LPT5", "LPT6", "LPT7", "LPT8", "LPT9"
  ]

  function AsciiUpper(s: string): string {
    seq(|s|, i requires 0 <= i < |s| => if 'a' <= s[i] <= 'z' then (s[i] as int - 32) as char else s[i])
  }

  /** The part before the first dot. */
  function Stem(s: string): string {
    if s == "" || s[0] == '.' then "" else [s[0]] + Stem(s[1..])
  }

  predicate IsReserved(stem: string) {
    exists i :: 0 <= i < |RESERVED_NAMES| && RESERVED_NAMES[i] == stem
  }

  predicate Forbidden(c: char) {
    c in ":\\/<>\"|?*" || c as int < 0x20
  }

  /** May this name be created on disk? */
  predicate IsSafeComponent(name: string) {
    && name != "" && name != "." && name != ".."
    && (forall i :: 0 <= i < |name| ==> !Forbidden(name[i]))
    && !IsReserved(AsciiUpper(Stem(name)))
    && name[|name| - 1] != ' ' && name[|name| - 1] != '.'
  }

  predicate AllSafe(p: Path) {
    forall i :: 0 <= i < |p| ==> IsSafeComponent(p[i])
  }

  /** Is every component a plain safe name? */
  predicate Joinable(comps: seq<Component>) {
    forall i :: 0 <= i < |comps| ==> comps[i].Normal? && IsSafeComponent(comps[i].name)
  }

  function Names(comps: seq<Component>): (r: Path)
    requires Joinable(comps)
    ensures |r| == |comps|
  {
    seq(|comps|, i requires 0 <= i < |comps| => comps[i].name)
  }

  /** The path a manifest entry may create below the root, if any. */
  function Joined(root: Path, rel: string): Result<Path> {
    if rel != "" && Joinable(Components(rel)) then Ok(root + Names(Components(rel))) else Err(Tampered)
  }

  lemma NamesSnoc(comps: seq<Component>, i: nat)
    requires i < |comps| && Joinable(comps[..i]) && comps[i].Normal? && IsSafeComponent(comps[i].name)
    ensures Joinable(comps[..i + 1])
    ensures Names(comps[..i + 1]) == Names(comps[..i]) + [comps[i].name]
  {
    hide IsSafeComponent;
    var a, b := comps[..i], comps[..i + 1];
    forall k | 0 <= k < |b| ensures b[k].Normal? && IsSafeComponent(b[k].name) {
      assert k < i ==> b[k] == a[k];
    }
    forall k | 0 <= k < |b| ensures Names(b)[k] == (Names(a) + [comps[i].name])[k] {
      assert k < i ==> b[k] == a[k];
    }
  }

  method SafeJoin(root: Path, rel: string) returns (r: Result<Path>)
    ensures r == Joined(root, rel)
  {
    hide Components, IsSafeComponent;
    if rel == "" {
      return Err(Tampered);
    }
    var out := root;
    var comps := Components(rel);
    var i := 0;
    while i < |comps|
      invariant 0 <= i <= |comps| && Joinable(comps[..i])
      invariant out == root + Names(comps[..i])
    {
      if !comps[i].Normal? || !IsSafeComponent(comps[i].name) {
        return Err(Tampered);
      }
      NamesSnoc(comps, i);
      out := out + [comps[i].name];
      i := i + 1;
    }
    assert comps[..i] == comps;
    return Ok(out);
  }

  lemma GrowConcat(f: seq<string>, g: seq<string>, c: char)
    requires |g| > 0
    ensures Grow(f + g, c) == f + Grow(g, c)
  {
  }

  lemma SplitSnoc(s: string, t: string, c: char)
    requires t == s + [c]
    ensures Split(t) == Grow(Split(s), c)
  {
  }

  lemma Unsnoc(pre: string, b: string)
    requires b != ""
    ensures b == b[..|b| - 1] + [b[|b| - 1]]
    ensures pre + b == pre + b[..|b| - 1] + [b[|b| - 1]]
  {
  }

  lemma {:induction false} SplitAtSeparator(a: string, c: char, b: string)
    requires IsSeparator(c)
    ensures Split(a + [c] + b) == Split(a) + Split(b)
  {
    var pre := a + [c];
    SplitSnoc(a, pre, c);
    if b == "" {
      assert pre + b == pre;
    } else {
      var b', x := b[..|b| - 1], b[|b| - 1];
      SplitAtSeparator(a, c, b');
      Unsnoc(pre, b);
      SplitSnoc(pre + b', pre + b, x);
      SplitSnoc(b', b, x);
      GrowConcat(Split(a), Split(b'), x);
    }
  }

  /** A name a directory listing can return. */
  predicate IsFileName(name: string) {
    && name != "" && name != "." && name != ".."
    && forall i :: 0 <= i < |name| ==> !IsSeparator(name[i])
  }

  predicate AllFileNames(p: Path) {
    forall i :: 0 <= i < |p| ==> IsFileName(p[i])
  }

  lemma {:induction false} SplitName(name: string)
    requires forall i :: 0 <= i < |name| ==> !IsSeparator(name[i])
    ensures Split(name) == [name]
  {
    if name == "" {
    } else {
      SplitName(name[..|name| - 1]);
      assert name == name[..|name| - 1] + [name[|name| - 1]];
    }
  }

  /** `rel_path`: the names below the root, joined by slashes. */
  function RelPath(p: Path): string {
    if p == [] then "" else if |p| == 1 then p[0] else RelPath(p[..|p| - 1]) + "/" + p[|p| - 1]
  }

  lemma {:induction false} SplitRelPath(p: Path)
    requires p != [] && AllFileNames(p)
    ensures Split(RelPath(p)) == p
  {
    var last := p[|p| - 1];
    SplitName(last);
    if |p| > 1 {
      SplitRelPath(p[..|p| - 1]);
      SplitAtSeparator(RelPath(p[..|p| - 1]), '/', last);
      assert p == p[..|p| - 1] + [last];
    } else {
      assert p == [last];
    }
  }

  /** Names are joined by slashes. */
  lemma {:induction false} NoBackslash(p: Path)
    requires AllFileNames(p)
    ensures '\\' !in RelPath(p)
  {
    if p == [] {
    } else if |p| == 1 {
      assert IsFileName(p[0]);
    } else {
      NoBackslash(p[..|p| - 1]);
      assert IsFileName(p[|p| - 1]);
    }
  }

  /** Different paths print differently. */
  lemma RelPathInjective(p: Path, q: Path)
    requires p != [] && q != [] && AllFileNames(p) && AllFileNames(q) && RelPath(p) == RelPath(q)
    ensures p == q
  {
    SplitRelPath(p);
    SplitRelPath(q);
  }

  lemma {:induction false} KeptNames(p: Path)
    requires AllFileNames(p)
    ensures |Kept(p)| == |p| && forall i :: 0 <= i < |p| ==> Kept(p)[i] == Normal(p[i])
  {
    if p == [] {
    } else {
      KeptNames(p[..|p| - 1]);
    }
  }

  /** The text starts with the first name, and a slash follows it if anything does. */
  lemma {:induction false} RelPathHead(p: Path)
    requires p != [] && AllFileNames(p)
    ensures exists rest :: RelPath(p) == p[0] + rest && (rest == "" || rest[0] == '/')
  {
    if |p| > 1 {
      RelPathHead(p[..|p| - 1]);
      var front := RelPath(p[..|p| - 1]);
      var rest :| front == p[0] + rest && (rest == "" || rest[0] == '/');
      var rest' := rest + "/" + p[|p| - 1];
      assert RelPath(p) == p[0] + rest';
      assert rest'[0] == '/';
    } else {
      assert RelPath(p) == p[0] + "";
    }
  }

  lemma ComponentsOfPieces(s: string, p: Path, rest: string)
    requires p != [] && AllFileNames(p) && Split(s) == p
    requires s == p[0] + rest && (rest == "" || rest[0] == '/')
    ensures Components(s) == Kept(p)
            || (Components(s) == [Prefix] && |p[0]| >= 2 && p[0][1] == ':')
  {
  }

  lemma ComponentsOfRelPath(p: Path)
    requires p != [] && AllFileNames(p)
    ensures RelPath(p) != ""
    ensures Components(RelPath(p)) == Kept(p)
            || (Components(RelPath(p)) == [Prefix] && |p[0]| >= 2 && p[0][1] == ':')
  {
    RelPathHead(p);
    var rest :| RelPath(p) == p[0] + rest && (rest == "" || rest[0] == '/');
    SplitRelPath(p);
    ComponentsOfPieces(RelPath(p), p, rest);
  }

  lemma JoinableKept(p: Path)
    requires AllFileNames(p)
    ensures Joinable(Kept(p)) <==> AllSafe(p)
    ensures AllSafe(p) ==> Names(Kept(p)) == p
  {
    KeptNames(p);
  }

  /** A printed path joins back to the path it came from exactly when all its names are safe. */
  lemma JoinInvertsRelPath(root: Path, p: Path)
    requires p != [] && AllFileNames(p)
    ensures Joined(root, RelPath(p)) == if AllSafe(p) then Ok(root + p) else Err(Tampered)
  {
    ComponentsOfRelPath(p);
    JoinableKept(p);
    if Components(RelPath(p)) != Kept(p) {
      ColonIsUnsafe(p[0], 1);
    }
  }

  lemma ColonIsUnsafe(name: string, i: nat)
    requires i < |name| && name[i] == ':'
    ensures !IsSafeComponent(name)
  {
  }

  lemma {:induction false} KeptNonEmpty(pieces: seq<string>, i: nat)
    requires i < |pieces| && pieces[i] != "" && pieces[i] != "."
    ensures Kept(pieces) != []
  {
    if i >= |pieces| - 1 {
    } else {
      KeptNonEmpty(pieces[..|pieces| - 1], i);
    }
  }

  lemma {:induction false} SplitHead(s: string)
    requires s != "" && !IsSeparator(s[0])
    ensures Split(s)[0] != "" && Split(s)[0][0] == s[0]
  {
    if |s| > 1 {
      SplitHead(s[..|s| - 1]);
    } else {
      assert s[..0] == "";
    }
  }

  /** Whatever the manifest says, a path that is accepted lies strictly below the root. */
  lemma JoinStaysBelowRoot(root: Path, rel: string)
    ensures Joined(root, rel).Ok? ==>
              exists q: Path :: q != [] && AllSafe(q) && Joined(root, rel).value == root + q
  {
    if Joined(root, rel).Ok? {
      var comps := Components(rel);
      if !IsSeparator(rel[0]) {
        SplitHead(rel);
        var pieces := Split(rel);
        if pieces[0] != "." {
          KeptNonEmpty(pieces, 0);
        }
      }
      assert AllSafe(Names(comps));
    }
  }
}
