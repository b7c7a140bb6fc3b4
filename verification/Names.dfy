/** Which names and paths are accepted, told by their characters. */
module Names {
  import opened Bytes
  import opened Paths

  /** The word in any ASCII case. */
  predicate Spells(s: string, word: string) {
    |s| == |word|
    && forall i :: 0 <= i < |s| ==> s[i] == word[i] || ('A' <= word[i] <= 'Z' && s[i] as int == word[i] as int + 32)
  }

  /** One of the 22 device names of Windows. */
  predicate IsDevice(s: string) {
    || Spells(s, "CON") || Spells(s, "PRN") || Spells(s, "AUX") || Spells(s, "NUL")
    || (|s| == 4 && (Spells(s[..3], "COM") || Spells(s[..3], "LPT")) && '1' <= s[3] <= '9')
  }

  /** Is what comes before the first dot a device? */
  predicate NamesDevice(name: string) {
    exists n :: 0 <= n <= |name| && IsDevice(name[..n]) && (n == |name| || name[n] == '.')
  }

  /** The names that may be created: nothing Windows refuses, reads as something else, or strips. */
  predicate Plain(name: string) {
    && name != ""
    && (forall i :: 0 <= i < |name| ==>
         name[i] as int >= 32 && name[i] !in {':', '\\', '/', '<', '>', '"', '|', '?', '*'})
    && name[|name| - 1] != '.' && name[|name| - 1] != ' '
    && !NamesDevice(name)
  }

  // ----- devices -----

  lemma SpellsUpper(s: string, word: string)
    requires forall i :: 0 <= i < |word| ==> 'A' <= word[i] <= 'Z' || '1' <= word[i] <= '9'
    ensures Spells(s, word) <==> AsciiUpper(s) == word
  {
    if AsciiUpper(s) == word {
      forall i | 0 <= i < |s| ensures s[i] == word[i] || ('A' <= word[i] <= 'Z' && s[i] as int == word[i] as int + 32) {
        assert AsciiUpper(s)[i] == word[i];
      }
    }
    if Spells(s, word) {
      forall i | 0 <= i < |s| ensures AsciiUpper(s)[i] == word[i] {
      }
    }
  }

  lemma NumberedDevice(s: string, stem: string, digit: string)
    requires stem == "COM" || stem == "LPT"
    requires |digit| == 1 && '1' <= digit[0] <= '9'
    ensures AsciiUpper(s) == stem + digit <==> |s| == 4 && Spells(s[..3], stem) && s[3] == digit[0]
  {
    SpellsUpper(s, stem + digit);
    if Spells(s, stem + digit) {
      assert s[3] == (stem + digit)[3];
      forall i | 0 <= i < 3 ensures (stem + digit)[i] == stem[i] {
      }
    }
    if |s| == 4 && Spells(s[..3], stem) && s[3] == digit[0] {
      forall i | 0 <= i < 4
        ensures var w := (stem + digit)[i]; s[i] == w || ('A' <= w <= 'Z' && s[i] as int == w as int + 32)
      {
        assert i < 3 ==> s[i] == s[..3][i] && (stem + digit)[i] == stem[i];
      }
    }
  }

  /** The table, entry by entry. */
  lemma ReservedNames(stem: string)
    ensures IsReserved(stem) <==>
              || stem in {"CON", "PRN", "AUX", "NUL"}
              || stem in {"COM1", "COM2", "COM3", "COM4", "COM5", "COM6", "COM7", "COM8", "COM9"}
              || stem in {"LPT1", "LPT2", "LPT3", "LPT4", "LPT5", "LPT6", "LPT7", "LPT8", "LPT9"}
  {
    var t := RESERVED_NAMES;
    assert |t| == 22;
    assert t[0] == "CON" && t[1] == "PRN" && t[2] == "AUX" && t[3] == "NUL";
    assert t[4] == "COM1" && t[5] == "COM2" && t[6] == "COM3" && t[7] == "COM4" && t[8] == "COM5";
    assert t[9] == "COM6" && t[10] == "COM7" && t[11] == "COM8" && t[12] == "COM9";
    assert t[13] == "LPT1" && t[14] == "LPT2" && t[15] == "LPT3" && t[16] == "LPT4" && t[17] == "LPT5";
    assert t[18] == "LPT6" && t[19] == "LPT7" && t[20] == "LPT8" && t[21] == "LPT9";
  }

  lemma Numbered(s: string, stem: string)
    requires stem == "COM" || stem == "LPT"
    ensures (|s| == 4 && Spells(s[..3], stem) && '1' <= s[3] <= '9')
            <==> AsciiUpper(s) in {stem + "1", stem + "2", stem + "3", stem + "4", stem + "5", stem + "6", stem + "7",
                                   stem + "8", stem + "9"}
  {
    hide Spells, AsciiUpper;
    NumberedDevice(s, stem, "1");
    NumberedDevice(s, stem, "2");
    NumberedDevice(s, stem, "3");
    NumberedDevice(s, stem, "4");
    NumberedDevice(s, stem, "5");
    NumberedDevice(s, stem, "6");
    NumberedDevice(s, stem, "7");
    NumberedDevice(s, stem, "8");
    NumberedDevice(s, stem, "9");
  }

  lemma ReservedIsDevice(s: string)
    ensures IsReserved(AsciiUpper(s)) <==> IsDevice(s)
  {
    hide Spells, AsciiUpper, IsReserved;
    ReservedNames(AsciiUpper(s));
    SpellsUpper(s, "CON");
    SpellsUpper(s, "PRN");
    SpellsUpper(s, "AUX");
    SpellsUpper(s, "NUL");
    Numbered(s, "COM");
    Numbered(s, "LPT");
    assert "COM" + "1" == "COM1" && "COM" + "2" == "COM2" && "COM" + "3" == "COM3" && "COM" + "4" == "COM4";
    assert "COM" + "5" == "COM5" && "COM" + "6" == "COM6" && "COM" + "7" == "COM7" && "COM" + "8" == "COM8";
    assert "LPT" + "1" == "LPT1" && "LPT" + "2" == "LPT2" && "LPT" + "3" == "LPT3" && "LPT" + "4" == "LPT4";
    assert "LPT" + "5" == "LPT5" && "LPT" + "6" == "LPT6" && "LPT" + "7" == "LPT7" && "LPT" + "8" == "LPT8";
    assert "COM" + "9" == "COM9" && "LPT" + "9" == "LPT9";
  }

  lemma {:induction false} StemAt(name: string)
    ensures var n := |Stem(name)|;
            && n <= |name| && Stem(name) == name[..n] && (n == |name| || name[n] == '.')
            && forall i :: 0 <= i < n ==> name[i] != '.'
  {
    if name == "" || name[0] == '.' {
    } else {
      StemAt(name[1..]);
      var n := |Stem(name[1..])|;
      assert name[..n + 1] == [name[0]] + name[1..][..n];
    }
  }

  lemma DottedIsNoDevice(name: string, k: nat, n: nat)
    requires k < n <= |name| && name[k] == '.'
    ensures !IsDevice(name[..n])
  {
    assert name[..n][k] == '.';
    if n == 4 && k < 3 {
      assert name[..n][..3][k] == '.';
    }
  }

  /** The device test looks at what comes before the first dot. */
  lemma StemIsDevice(name: string)
    ensures IsReserved(AsciiUpper(Stem(name))) <==> NamesDevice(name)
  {
    hide IsReserved, AsciiUpper, IsDevice, Stem;
    ReservedIsDevice(Stem(name));
    StemAt(name);
    var m := |Stem(name)|;
    forall n | 0 <= n <= |name| && n != m && (n == |name| || name[n] == '.') ensures !IsDevice(name[..n]) {
      if m < n {
        DottedIsNoDevice(name, m, n);
      }
    }
  }

  /** A component passes exactly when it is a plain name. */
  lemma SafeIsPlain(name: string)
    ensures IsSafeComponent(name) <==> Plain(name)
  {
    hide NamesDevice, IsReserved, AsciiUpper, Stem;
    StemIsDevice(name);
    forall i | 0 <= i < |name|
      ensures Forbidden(name[i]) <==> name[i] as int < 32 || name[i] in {':', '\\', '/', '<', '>', '"', '|', '?', '*'}
    {
    }
  }

  // ----- single names -----

  /** A text without separators is accepted, as itself, exactly when it is a plain name. */
  lemma NameAccepted(root: Path, name: string)
    requires '/' !in name && '\\' !in name
    ensures Joined(root, name) == if Plain(name) then Ok(root + [name]) else Err(Tampered)
  {
    hide IsSafeComponent, NamesDevice;
    SafeIsPlain(name);
    if IsFileName(name) {
      JoinInvertsRelPath(root, [name]);
      assert RelPath([name]) == name && AllFileNames([name]);
      assert AllSafe([name]) <==> IsSafeComponent(name) by {
        assert [name][0] == name;
      }
    } else {
      NotAFileName(name);
    }
  }

  lemma NotAFileName(name: string)
    requires name == "" || name == "." || name == ".."
    ensures Joined([], name) == Err(Tampered) && forall root :: Joined(root, name) == Err(Tampered)
  {
    if name != "" {
      SplitName(name);
      assert Split(name) == [name] && [name][..0] == [];
      assert Kept([name]) == Kept([]) + if name == "." then [] else [ParentDir];
      assert Components(name)[0] == if name == "." then CurDir else ParentDir;
    }
  }

  // ----- paths -----

  /** Pieces with separators between them. */
  function Woven(pieces: seq<string>, seps: seq<char>): string
    requires |pieces| == |seps| + 1
  {
    if seps == [] then pieces[0]
    else
      var n := |seps| - 1;
      Woven(pieces[..n + 1], seps[..n]) + [seps[n]] + pieces[n + 1]
  }

  predicate Unbroken(pieces: seq<string>) {
    forall i :: 0 <= i < |pieces| ==> '/' !in pieces[i] && '\\' !in pieces[i]
  }

  predicate AllSeparate(seps: seq<char>) {
    forall i :: 0 <= i < |seps| ==> seps[i] == '/' || seps[i] == '\\'
  }

  lemma {:induction false} SplitWoven(pieces: seq<string>, seps: seq<char>)
    requires |pieces| == |seps| + 1 && Unbroken(pieces) && AllSeparate(seps)
    ensures Split(Woven(pieces, seps)) == pieces
  {
    var n := |pieces| - 1;
    SplitName(pieces[n]);
    if seps == [] {
      assert pieces == [pieces[0]];
    } else {
      SplitWoven(pieces[..n], seps[..n - 1]);
      SplitAtSeparator(Woven(pieces[..n], seps[..n - 1]), seps[n - 1], pieces[n]);
      assert pieces == pieces[..n] + [pieces[n]];
    }
  }

  /** Every text is woven of pieces. */
  lemma {:induction false} EveryTextIsWoven(s: string) returns (pieces: seq<string>, seps: seq<char>)
    ensures |pieces| == |seps| + 1 && Unbroken(pieces) && AllSeparate(seps) && Woven(pieces, seps) == s
  {
    if s == "" {
      pieces, seps := [""], [];
    } else {
      var front, c := s[..|s| - 1], s[|s| - 1];
      var ps, ss := EveryTextIsWoven(front);
      if IsSeparator(c) {
        pieces, seps := ps + [""], ss + [c];
        assert pieces[..|ss| + 1] == ps && seps[..|ss|] == ss;
        assert Woven(pieces, seps) == front + [c] + "";
      } else {
        var n := |ps| - 1;
        pieces, seps := ps[..n] + [ps[n] + [c]], ss;
        if ss != [] {
          assert pieces[..n] == ps[..n];
          assert Woven(pieces, seps) == Woven(ps[..n], ss[..n - 1]) + [ss[n - 1]] + (ps[n] + [c]);
          assert Woven(pieces, seps) == front + [c];
        }
      }
      assert s == front + [c];
    }
  }

  /** Empty pieces and single dots mean nothing. */
  predicate Idle(piece: string) { piece == "" || piece == "." }

  function Solid(pieces: seq<string>): Path {
    if pieces == [] then []
    else
      var n := |pieces| - 1;
      Solid(pieces[..n]) + if Idle(pieces[n]) then [] else [pieces[n]]
  }

  lemma {:induction false} KeptSolid(pieces: seq<string>)
    ensures |Kept(pieces)| == |Solid(pieces)|
    ensures forall i :: 0 <= i < |Solid(pieces)| ==>
              Kept(pieces)[i] == if Solid(pieces)[i] == ".." then ParentDir else Normal(Solid(pieces)[i])
  {
    if pieces == [] {
    } else {
      KeptSolid(pieces[..|pieces| - 1]);
    }
  }

  lemma {:induction false} SolidMembers(pieces: seq<string>, x: string)
    ensures x in Solid(pieces) <==> x in pieces && !Idle(x)
  {
    if pieces == [] {
    } else {
      var n := |pieces| - 1;
      SolidMembers(pieces[..n], x);
      assert pieces == pieces[..n] + [pieces[n]];
    }
  }

  lemma {:induction false} WovenHead(pieces: seq<string>, seps: seq<char>)
    requires |pieces| == |seps| + 1
    ensures var s := Woven(pieces, seps);
            && |pieces[0]| <= |s| && s[..|pieces[0]|] == pieces[0]
            && (if seps == [] then |s| == |pieces[0]| else |s| > |pieces[0]| && s[|pieces[0]|] == seps[0])
    decreases |seps|
  {
    if seps == [] {
    } else {
      var n := |seps| - 1;
      WovenHead(pieces[..n + 1], seps[..n]);
    }
  }

  /** A path is accepted exactly when it starts with a plain name and everything else in it is one too
      or means nothing; and then it is the path of those names. */
  lemma PathAccepted(root: Path, pieces: seq<string>, seps: seq<char>)
    requires |pieces| == |seps| + 1 && Unbroken(pieces) && AllSeparate(seps)
    ensures Joined(root, Woven(pieces, seps))
            == if Plain(pieces[0]) && (forall i :: 0 < i < |pieces| ==> Idle(pieces[i]) || Plain(pieces[i]))
               then Ok(root + Solid(pieces)) else Err(Tampered)
  {
    hide Plain, Woven, Split, Kept, Solid, IsSafeComponent;
    var rel := Woven(pieces, seps);
    SplitWoven(pieces, seps);
    WovenHead(pieces, seps);
    IdleIsNotPlain();
    if Idle(pieces[0]) {
      IdleStart(root, rel, pieces);
    } else {
      SolidJoin(root, rel, pieces);
    }
  }

  lemma IdleIsNotPlain()
    ensures !Plain("") && !Plain(".")
  {
  }

  lemma IdleStart(root: Path, rel: string, pieces: seq<string>)
    requires Split(rel) == pieces && Idle(pieces[0])
    requires |pieces[0]| <= |rel| && rel[..|pieces[0]|] == pieces[0]
    requires if |pieces| == 1 then |rel| == |pieces[0]| else |rel| > |pieces[0]| && IsSeparator(rel[|pieces[0]|])
    ensures Joined(root, rel) == Err(Tampered)
  {
    hide Split, Kept, IsSafeComponent;
    if rel != "" && pieces[0] == "." {
      assert rel[0] == rel[..1][0] == '.';
      CurDirFirst(rel);
    }
  }

  lemma CurDirFirst(rel: string)
    requires rel != "" && rel[0] == '.' && Split(rel)[0] == "."
    requires |rel| >= 2 ==> IsSeparator(rel[1])
    ensures Joined([], rel) == Err(Tampered) && forall root :: Joined(root, rel) == Err(Tampered)
  {
    hide Split, Kept, IsSafeComponent;
    assert Components(rel)[0] == CurDir;
  }

  lemma SolidJoin(root: Path, rel: string, pieces: seq<string>)
    requires Split(rel) == pieces && !Idle(pieces[0]) && Unbroken(pieces)
    requires |pieces[0]| <= |rel| && rel[..|pieces[0]|] == pieces[0]
    requires if |pieces| == 1 then |rel| == |pieces[0]| else |rel| > |pieces[0]| && IsSeparator(rel[|pieces[0]|])
    ensures Joined(root, rel)
            == if (forall i :: 0 <= i < |pieces| ==> Idle(pieces[i]) || Plain(pieces[i]))
               then Ok(root + Solid(pieces)) else Err(Tampered)
  {
    hide Split, Kept, Solid, IsSafeComponent, Plain, Components, Joined, AllSafe;
    var head := pieces[0];
    assert rel[0] == rel[..|head|][0] == head[0];
    KeptSolid(pieces);
    SolidIsPlain(pieces);
    if |rel| >= 2 && IsAsciiLetter(rel[0]) && rel[1] == ':' {
      SecondInHead(rel, head);
      ColonIsNotPlain(head);
      DriveRefused(root, rel);
      assert !Plain(pieces[0]) && !Idle(pieces[0]);
    } else {
      PlainComponents(rel);
      JoinKept(root, rel, Solid(pieces));
    }
  }

  lemma DriveRefused(root: Path, rel: string)
    requires |rel| >= 2 && IsAsciiLetter(rel[0]) && rel[1] == ':'
    ensures Joined(root, rel) == Err(Tampered)
  {
    hide Split, Kept, IsSafeComponent;
    assert Components(rel) == [Prefix] && !Components(rel)[0].Normal?;
  }

  lemma SecondInHead(rel: string, head: string)
    requires |rel| >= 2 && !IsSeparator(rel[1]) && 0 < |head| <= |rel| && rel[..|head|] == head
    requires |head| < |rel| ==> IsSeparator(rel[|head|])
    ensures |head| >= 2 && head[1] == rel[1]
  {
    assert |head| >= 2 ==> rel[..|head|][1] == rel[1];
  }

  lemma PlainComponents(rel: string)
    requires rel != "" && !IsSeparator(rel[0]) && Split(rel)[0] != "."
    requires !(|rel| >= 2 && IsAsciiLetter(rel[0]) && rel[1] == ':')
    ensures Components(rel) == Kept(Split(rel))
  {
    hide Split, Kept;
    assert [] + Kept(Split(rel)) == Kept(Split(rel));
  }

  lemma ColonIsNotPlain(name: string)
    requires |name| >= 2 && name[1] == ':'
    ensures !Plain(name)
  {
  }

  /** All pieces that mean something are plain exactly when the path's names are safe. */
  lemma SolidIsPlain(pieces: seq<string>)
    ensures (forall i :: 0 <= i < |pieces| ==> Idle(pieces[i]) || Plain(pieces[i]))
            <==> AllSafe(Solid(pieces)) && ".." !in Solid(pieces)
  {
    hide Plain, IsSafeComponent, Solid;
    forall x ensures x in Solid(pieces) <==> x in pieces && !Idle(x) {
      SolidMembers(pieces, x);
    }
    forall x ensures IsSafeComponent(x) <==> Plain(x) {
      SafeIsPlain(x);
    }
    DotsAreNotPlain();
    if forall i :: 0 <= i < |pieces| ==> Idle(pieces[i]) || Plain(pieces[i]) {
      forall i | 0 <= i < |Solid(pieces)| ensures IsSafeComponent(Solid(pieces)[i]) {
        var x := Solid(pieces)[i];
        assert x in pieces;
        var k :| 0 <= k < |pieces| && pieces[k] == x;
      }
    }
    if AllSafe(Solid(pieces)) {
      forall i | 0 <= i < |pieces| && !Idle(pieces[i]) ensures Plain(pieces[i]) {
        assert pieces[i] in Solid(pieces);
        var k :| 0 <= k < |Solid(pieces)| && Solid(pieces)[k] == pieces[i];
      }
    }
  }

  lemma DotsAreNotPlain()
    ensures !Plain("..")
  {
  }

  lemma JoinKept(root: Path, rel: string, names: Path)
    requires rel != "" && |Components(rel)| == |names|
    requires forall i :: 0 <= i < |names| ==> Components(rel)[i] == if names[i] == ".." then ParentDir else Normal(names[i])
    ensures Joined(root, rel) == if AllSafe(names) && ".." !in names then Ok(root + names) else Err(Tampered)
  {
    hide Components, IsSafeComponent;
    if AllSafe(names) && ".." !in names {
      assert Joinable(Components(rel));
      assert Names(Components(rel)) == names;
    } else if ".." in names {
      var k :| 0 <= k < |names| && names[k] == "..";
      assert !Components(rel)[k].Normal?;
    }
  }

  /** The examples of the crate's own test that must pass, and one of each kind that must not. */
  lemma JoinExamples(root: Path)
    ensures Joined(root, "a.txt") == Ok(root + ["a.txt"])
    ensures Joined(root, "NUL.txt") == Joined(root, "name.") == Joined(root, "a<b") == Err(Tampered)
  {
    hide Joined;
    NameAccepted(root, "a.txt");
    NameAccepted(root, "NUL.txt");
    NameAccepted(root, "name.");
    NameAccepted(root, "a<b");
    assert Plain("a.txt") by {
      EarlyDotIsNoDevice("a.txt", 1);
    }
    assert !Plain("NUL.txt") by {
      assert "NUL.txt"[..3] == "NUL";
      assert IsDevice("NUL.txt"[..3]) && "NUL.txt"[3] == '.';
    }
    assert "name."[4] == '.' && "a<b"[1] == '<';
  }

  lemma EarlyDotIsNoDevice(name: string, k: nat)
    requires k < |name| && k < 3 && name[k] == '.'
    ensures !NamesDevice(name)
  {
    forall n | 0 <= n <= |name| ensures !IsDevice(name[..n]) {
      if k < n {
        DottedIsNoDevice(name, k, n);
      }
    }
  }
}
