/** A directory as lists of records, one list per block, and what linking and unlinking do to the names
    in it (kernel/src/ext2fs/inode.c, e2_inode_lookup, e2_inode_link, e2_inode_unlink). */
module Ext2Names {
  import opened Options
  import opened BlockDevice
  import opened Ext2Dirent

  type Name = seq<Byte>

  // ----- Looking up

  /** The first record in use with this name. */
  function FindIndex(rs: seq<Record>, name: Name): (r: Option<nat>)
    ensures r.Some? ==> r.value < |rs| && rs[r.value].Used? && rs[r.value].name == name
    ensures r.Some? ==> forall i :: 0 <= i < r.value && rs[i].Used? ==> rs[i].name != name
    ensures r.None? ==> forall i :: 0 <= i < |rs| && rs[i].Used? ==> rs[i].name != name
  {
    if rs == [] then None
    else if rs[0].Used? && rs[0].name == name then Some(0)
    else
      match FindIndex(rs[1..], name)
      case None => None
      case Some(i) => Some(i + 1)
  }

  function Find(rs: seq<Record>, name: Name): Option<nat>
  {
    match FindIndex(rs, name)
    case None => None
    case Some(i) => Some(rs[i].ino)
  }

  /** The inode number a name has in the directory. */
  function FindAll(rss: seq<seq<Record>>, name: Name): Option<nat>
  {
    if rss == [] then None
    else if Find(rss[0], name).Some? then Find(rss[0], name)
    else FindAll(rss[1..], name)
  }

  lemma {:induction false} FindConcat(a: seq<Record>, b: seq<Record>, name: Name)
    ensures Find(a + b, name) == if Find(a, name).Some? then Find(a, name) else Find(b, name)
  {
    if a == [] {
      assert a + b == b;
    } else {
      FindConcat(a[1..], b, name);
      assert (a + b)[1..] == a[1..] + b;
    }
  }

  // ----- Names occur once

  ghost predicate Unique(rs: seq<Record>)
  {
    && (forall i :: 0 <= i < |rs| && rs[i].Used? ==> rs[i].ino > 0)
    && forall i, j :: 0 <= i < j < |rs| && rs[i].Used? && rs[j].Used? ==> rs[i].name != rs[j].name
  }

  function Flat(rss: seq<seq<Record>>): seq<Record>
  {
    if rss == [] then [] else rss[0] + Flat(rss[1..])
  }

  lemma {:induction false} FindFlat(rss: seq<seq<Record>>, name: Name)
    ensures FindAll(rss, name) == Find(Flat(rss), name)
  {
    if rss != [] {
      FindFlat(rss[1..], name);
      FindConcat(rss[0], Flat(rss[1..]), name);
    }
  }

  // ----- Linking

  /** The bytes a record for a name of `n` bytes takes, rounded up to a multiple of four. */
  function Needed(n: nat): (r: nat)
    ensures HEAD + n <= r < HEAD + n + 4 && r % 4 == 0
  {
    if (HEAD + n) % 4 == 0 then HEAD + n else (HEAD + n) - (HEAD + n) % 4 + 4
  }

  function FirstFit(rs: seq<Record>, n: nat): (r: Option<nat>)
    ensures r.Some? ==> r.value < |rs| && rs[r.value].Free? && rs[r.value].size >= HEAD + n
  {
    if rs == [] then None
    else if rs[0].Free? && rs[0].size >= HEAD + n then Some(0)
    else
      match FirstFit(rs[1..], n)
      case None => None
      case Some(i) => Some(i + 1)
  }

  /** What becomes of a free record of `size` bytes: it is split if more than a header would be left. */
  function Placed(size: nat, ino: nat, name: Name): seq<Record>
    requires size >= HEAD + |name|
  {
    if size > Needed(|name|) + HEAD then [Used(Needed(|name|), ino, name), Free(size - Needed(|name|))]
    else [Used(size, ino, name)]
  }

  /** The terminator strcpy writes falls on the first byte of the next record. */
  ghost predicate Exact(size: nat, name: Name) { size == HEAD + |name| }

  /** A record whose first byte, the low byte of its inode number, has been set to zero. */
  function Smudge(r: Record): Record
  {
    if r.Free? then r
    else if r.ino - r.ino % 256 == 0 then Free(r.size)
    else r.(ino := r.ino - r.ino % 256)
  }

  /** Linking in record `k` of one block. */
  ghost function LinkAt(rs: seq<Record>, k: nat, ino: nat, name: Name): seq<Record>
    requires k < |rs| && rs[k].Free? && rs[k].size >= HEAD + |name|
  {
    var rest := rs[k + 1..];
    rs[..k] + Placed(rs[k].size, ino, name)
    + (if Exact(rs[k].size, name) && rest != [] then [Smudge(rest[0])] + rest[1..] else rest)
  }

  /** Exactly when linking in record `k` damages its neighbour. */
  ghost predicate Damages(rs: seq<Record>, k: nat, name: Name)
    requires k < |rs|
  {
    Exact(rs[k].size, name) && k + 1 < |rs| && rs[k + 1].Used? && rs[k + 1].ino % 256 != 0
  }

  /** Exactly when the terminator falls past the end of the block. */
  ghost predicate Overruns(rs: seq<Record>, k: nat, name: Name)
    requires k < |rs|
  {
    Exact(rs[k].size, name) && k + 1 == |rs|
  }

  /** Linking a fresh name: it is found with its inode, and every other name keeps its inode exactly when
      the terminator does not fall on the low byte of a neighbour's inode number. */
  lemma LinkFinds(rs: seq<Record>, k: nat, ino: nat, name: Name)
    requires Unique(rs) && Find(rs, name) == None && ino > 0
    requires k < |rs| && rs[k].Free? && rs[k].size >= HEAD + |name|
    ensures Find(LinkAt(rs, k, ino, name), name) == Some(ino)
    ensures !Damages(rs, k, name) ==> forall m :: m != name ==> Find(LinkAt(rs, k, ino, name), m) == Find(rs, m)
    ensures Damages(rs, k, name) ==> Find(LinkAt(rs, k, ino, name), rs[k + 1].name) != Find(rs, rs[k + 1].name)
  {
    var a, b, c := rs[..k], Placed(rs[k].size, ino, name), rs[k + 1..];
    var c' := if Exact(rs[k].size, name) && c != [] then [Smudge(c[0])] + c[1..] else c;
    assert rs == a + ([rs[k]] + c);
    assert LinkAt(rs, k, ino, name) == a + (b + c');
    forall m ensures Find(rs, m) == if Find(a, m).Some? then Find(a, m) else Find(c, m)
             ensures Find(a + (b + c'), m) ==
                     if Find(a, m).Some? then Find(a, m) else if m == name then Some(ino) else Find(c', m)
    {
      LinkParts(a, rs[k], b, c, c', ino, name, m);
    }
    if Damages(rs, k, name) { DamageShows(rs, k, name); } else { assert c' == c; }
  }

  lemma LinkParts(a: seq<Record>, free: Record, b: seq<Record>, c: seq<Record>, c': seq<Record>, ino: nat, name: Name, m: Name)
    requires free.Free? && free.size >= HEAD + |name| && b == Placed(free.size, ino, name)
    ensures Find(a + ([free] + c), m) == if Find(a, m).Some? then Find(a, m) else Find(c, m)
    ensures Find(a + (b + c'), m) ==
            if Find(a, m).Some? then Find(a, m) else if m == name then Some(ino) else Find(c', m)
  {
    PlacedFind(free.size, ino, name);
    hide Find;
    FindConcat(a, [free] + c, m);
    FindConcat([free], c, m);
    FindNotFree(free, m);
    FindConcat(a, b + c', m);
    FindConcat(b, c', m);
  }

  lemma FindNotFree(free: Record, m: Name)
    requires free.Free?
    ensures Find([free], m) == None
  {
  }

  lemma PlacedFind(size: nat, ino: nat, name: Name)
    requires size >= HEAD + |name|
    ensures forall m :: Find(Placed(size, ino, name), m) == if m == name then Some(ino) else None
  {
    var p := Placed(size, ino, name);
    forall m ensures Find(p, m) == if m == name then Some(ino) else None {
      if m != name && |p| == 2 { assert p[1..] == [p[1]]; }
    }
  }

  lemma DamageShows(rs: seq<Record>, k: nat, name: Name)
    requires Unique(rs) && k < |rs| && rs[k].Free? && Damages(rs, k, name)
    ensures var v, c := rs[k + 1], rs[k + 1..];
            && Find(rs[..k], v.name) == None && Find(c, v.name) == Some(v.ino)
            && Find([Smudge(c[0])] + c[1..], v.name) != Some(v.ino)
  {
    var v, c := rs[k + 1], rs[k + 1..];
    var c' := [Smudge(c[0])] + c[1..];
    assert c'[1..] == c[1..];
    assert forall i :: 0 < i < |c'| ==> c'[i] == rs[k + 1 + i];
  }

  /** Linking a name nobody has keeps names unique. */
  lemma LinkUnique(rs: seq<Record>, k: nat, ino: nat, name: Name)
    requires Unique(rs) && Find(rs, name) == None && ino > 0
    requires k < |rs| && rs[k].Free? && rs[k].size >= HEAD + |name|
    ensures Unique(LinkAt(rs, k, ino, name))
  {
    var t := LinkAt(rs, k, ino, name);
    var p := Placed(rs[k].size, ino, name);
    var d := |p| - 1;
    forall i | 0 <= i < |t| && t[i].Used?
      ensures t[i].ino > 0
      ensures i == k || (i != k && 0 <= Back(i, k, d) < |rs| && rs[Back(i, k, d)].Used? && rs[Back(i, k, d)].name == t[i].name)
    {
      if i > k + d { assert t[i] == rs[i - d] || t[i] == Smudge(rs[i - d]); }
    }
  }

  /** Where a record of the new list came from. */
  function Back(i: nat, k: nat, d: int): int { if i <= k then i else i - d }

  // ----- Unlinking

  /** Unlinking clears the inode number of the first record with the name. */
  function UnlinkAt(rs: seq<Record>, k: nat): seq<Record>
    requires k < |rs|
  {
    rs[k := Free(rs[k].size)]
  }

  /** Where names are unique, unlinking removes exactly that name. */
  lemma UnlinkFinds(rs: seq<Record>, name: Name)
    requires Unique(rs) && FindIndex(rs, name).Some?
    ensures var t := UnlinkAt(rs, FindIndex(rs, name).value);
            && Unique(t) && Find(t, name) == None
            && forall m :: m != name ==> Find(t, m) == Find(rs, m)
  {
    var k := FindIndex(rs, name).value;
    forall m | m != name ensures Find(UnlinkAt(rs, k), m) == Find(rs, m) {
      UnlinkOthers(rs, k, m);
    }
  }

  lemma UnlinkOthers(rs: seq<Record>, k: nat, m: Name)
    requires k < |rs| && rs[k].Used? && rs[k].name != m
    ensures Find(UnlinkAt(rs, k), m) == Find(rs, m)
  {
    var t := UnlinkAt(rs, k);
    var a, c := rs[..k], rs[k + 1..];
    assert rs == a + ([rs[k]] + c) && t == a + ([t[k]] + c);
    assert Find([rs[k]], m) == None && Find([t[k]], m) == None;
    hide Find;
    FindConcat(a, [rs[k]] + c, m);
    FindConcat([rs[k]], c, m);
    FindConcat(a, [t[k]] + c, m);
    FindConcat([t[k]], c, m);
  }

  // ----- The whole directory

  lemma {:induction false} FlatSplit(rss: seq<seq<Record>>, j: nat)
    requires j < |rss|
    ensures Flat(rss) == Flat(rss[..j]) + rss[j] + Flat(rss[j + 1..])
  {
    if j > 0 {
      FlatSplit(rss[1..], j - 1);
      assert rss[1..][..j - 1] == rss[..j][1..] && rss[1..][j..] == rss[j + 1..];
    } else {
      assert rss[..0] == [];
    }
  }

  /** A name is looked for in the blocks before `j`, in block `j`, and in the blocks after it. */
  lemma FindAllSplit(rss: seq<seq<Record>>, j: nat, m: Name)
    requires j < |rss|
    ensures FindAll(rss, m) == (if Find(Flat(rss[..j]), m).Some? then Find(Flat(rss[..j]), m)
                                else if Find(rss[j], m).Some? then Find(rss[j], m)
                                else Find(Flat(rss[j + 1..]), m))
  {
    hide Find;
    FlatSplit(rss, j);
    FindFlat(rss, m);
    FindConcat(Flat(rss[..j]) + rss[j], Flat(rss[j + 1..]), m);
    FindConcat(Flat(rss[..j]), rss[j], m);
  }

  lemma UniqueParts(a: seq<Record>, b: seq<Record>, c: seq<Record>)
    requires Unique(a + b + c)
    ensures Unique(b)
    ensures forall i, m :: 0 <= i < |b| && b[i].Used? && b[i].name == m ==> Find(a, m) == None && Find(c, m) == None
  {
    var s := a + b + c;
    forall i, j | 0 <= i < j < |b| && b[i].Used? && b[j].Used? ensures b[i].name != b[j].name {
      assert s[|a| + i] == b[i] && s[|a| + j] == b[j];
    }
    forall i | 0 <= i < |b| && b[i].Used? ensures b[i].ino > 0 && Find(a, b[i].name) == None && Find(c, b[i].name) == None {
      assert s[|a| + i] == b[i];
      assert forall x :: 0 <= x < |a| ==> s[x] == a[x];
      assert forall x :: 0 <= x < |c| ==> s[|a| + |b| + x] == c[x];
    }
  }

  ghost function LinkIn(rss: seq<seq<Record>>, j: nat, k: nat, ino: nat, name: Name): seq<seq<Record>>
    requires j < |rss| && k < |rss[j]| && rss[j][k].Free? && rss[j][k].size >= HEAD + |name|
  {
    rss[j := LinkAt(rss[j], k, ino, name)]
  }

  /** Linking a fresh name into the directory: it is found, and the other names keep their inodes exactly
      when no neighbour is damaged. */
  lemma DirectoryLink(rss: seq<seq<Record>>, j: nat, k: nat, ino: nat, name: Name)
    requires Unique(Flat(rss)) && FindAll(rss, name) == None && ino > 0
    requires j < |rss| && k < |rss[j]| && rss[j][k].Free? && rss[j][k].size >= HEAD + |name|
    ensures var t := LinkIn(rss, j, k, ino, name);
            && FindAll(t, name) == Some(ino)
            && ((forall m :: m != name ==> FindAll(t, m) == FindAll(rss, m)) <==> !Damages(rss[j], k, name))
  {
    var t := LinkIn(rss, j, k, ino, name);
    var a, c := Flat(rss[..j]), Flat(rss[j + 1..]);
    assert t[..j] == rss[..j] && t[j + 1..] == rss[j + 1..];
    FlatSplit(rss, j);
    UniqueParts(a, rss[j], c);
    FindAllSplit(rss, j, name);
    FindAllSplit(t, j, name);
    LinkFinds(rss[j], k, ino, name);
    hide Find;
    if Damages(rss[j], k, name) {
      var v := rss[j][k + 1].name;
      FindAllSplit(rss, j, v);
      FindAllSplit(t, j, v);
      VictimBefore(rss[j], k, name);
    } else {
      forall m | m != name ensures FindAll(t, m) == FindAll(rss, m) {
        FindAllSplit(rss, j, m);
        FindAllSplit(t, j, m);
      }
    }
  }

  lemma VictimBefore(rs: seq<Record>, k: nat, name: Name)
    requires Unique(rs) && k < |rs| && rs[k].Free? && Damages(rs, k, name)
    ensures Find(rs, rs[k + 1].name) == Some(rs[k + 1].ino)
  {
  }

  /** Unlinking a name removes it from the directory and leaves every other name. */
  lemma DirectoryUnlink(rss: seq<seq<Record>>, j: nat, name: Name)
    requires Unique(Flat(rss)) && j < |rss| && FindIndex(rss[j], name).Some?
    ensures var t := rss[j := UnlinkAt(rss[j], FindIndex(rss[j], name).value)];
            && FindAll(t, name) == None
            && forall m :: m != name ==> FindAll(t, m) == FindAll(rss, m)
  {
    var t := rss[j := UnlinkAt(rss[j], FindIndex(rss[j], name).value)];
    assert t[..j] == rss[..j] && t[j + 1..] == rss[j + 1..];
    FlatSplit(rss, j);
    UniqueParts(Flat(rss[..j]), rss[j], Flat(rss[j + 1..]));
    UnlinkFinds(rss[j], name);
    hide Find;
    forall m ensures m == name ==> FindAll(t, m) == None
             ensures m != name ==> FindAll(t, m) == FindAll(rss, m)
    {
      FindAllSplit(rss, j, m);
      FindAllSplit(t, j, m);
    }
  }

  ghost predicate NoSharedName(a: seq<Record>, b: seq<Record>)
  {
    forall i, j :: 0 <= i < |a| && 0 <= j < |b| && a[i].Used? && b[j].Used? ==> a[i].name != b[j].name
  }

  lemma UniqueConcat(a: seq<Record>, b: seq<Record>)
    ensures Unique(a + b) <==> Unique(a) && Unique(b) && NoSharedName(a, b)
  {
    var s := a + b;
    assert forall i :: 0 <= i < |a| ==> s[i] == a[i];
    assert forall j :: 0 <= j < |b| ==> s[|a| + j] == b[j];
    assert forall k :: |a| <= k < |s| ==> s[k] == b[k - |a|];
  }

  /** Replacing one block by one with the same names, or one new name besides, keeps names unique. */
  lemma UniqueReplace(a: seq<Record>, b: seq<Record>, b': seq<Record>, c: seq<Record>, name: Name)
    requires Unique(a + b + c) && Unique(b') && Find(a, name) == None && Find(c, name) == None
    requires forall i :: 0 <= i < |b'| && b'[i].Used? && b'[i].name != name ==> Find(b, b'[i].name).Some?
    ensures Unique(a + b' + c)
  {
    UniqueConcat(a + b, c);
    UniqueConcat(a, b);
    forall i | 0 <= i < |b'| && b'[i].Used? ensures Find(a, b'[i].name) == None && Find(c, b'[i].name) == None {
      if b'[i].name != name {
        var y := FindIndex(b, b'[i].name).value;
        assert (a + b)[|a| + y] == b[y];
      }
    }
    assert NoSharedName(a, b');
    assert NoSharedName(a + b', c) by { SharedConcat(a, b, b', c); }
    UniqueConcat(a, b');
    UniqueConcat(a + b', c);
  }

  lemma SharedConcat(a: seq<Record>, b: seq<Record>, b': seq<Record>, c: seq<Record>)
    requires NoSharedName(a + b, c)
    requires forall i :: 0 <= i < |b'| && b'[i].Used? ==> Find(c, b'[i].name) == None
    ensures NoSharedName(a + b', c)
  {
    forall i, j | 0 <= i < |a + b'| && 0 <= j < |c| && (a + b')[i].Used? && c[j].Used?
      ensures (a + b')[i].name != c[j].name
    {
      if i < |a| { assert (a + b)[i] == a[i]; } else { assert (a + b')[i] == b'[i - |a|]; }
    }
  }

  lemma DirectoryLinkUnique(rss: seq<seq<Record>>, j: nat, k: nat, ino: nat, name: Name)
    requires Unique(Flat(rss)) && FindAll(rss, name) == None && ino > 0
    requires j < |rss| && k < |rss[j]| && rss[j][k].Free? && rss[j][k].size >= HEAD + |name|
    ensures Unique(Flat(LinkIn(rss, j, k, ino, name)))
  {
    var t := LinkIn(rss, j, k, ino, name);
    var a, c := Flat(rss[..j]), Flat(rss[j + 1..]);
    assert t[..j] == rss[..j] && t[j + 1..] == rss[j + 1..];
    FlatSplit(rss, j);
    FlatSplit(t, j);
    UniqueParts(a, rss[j], c);
    FindAllSplit(rss, j, name);
    LinkUnique(rss[j], k, ino, name);
    LinkNames(rss[j], k, ino, name);
    UniqueReplace(a, rss[j], t[j], c, name);
  }

  lemma LinkNames(rs: seq<Record>, k: nat, ino: nat, name: Name)
    requires k < |rs| && rs[k].Free? && rs[k].size >= HEAD + |name|
    ensures var t := LinkAt(rs, k, ino, name);
            forall i :: 0 <= i < |t| && t[i].Used? && t[i].name != name ==> Find(rs, t[i].name).Some?
  {
    var t := LinkAt(rs, k, ino, name);
    var d := |Placed(rs[k].size, ino, name)| - 1;
    forall i | 0 <= i < |t| && t[i].Used? && t[i].name != name ensures Find(rs, t[i].name).Some? {
      if i > k + d { assert t[i] == rs[i - d] || t[i] == Smudge(rs[i - d]); } else { assert t[i] == rs[i]; }
    }
  }

  lemma DirectoryUnlinkUnique(rss: seq<seq<Record>>, j: nat, name: Name)
    requires Unique(Flat(rss)) && j < |rss| && FindIndex(rss[j], name).Some?
    ensures Unique(Flat(rss[j := UnlinkAt(rss[j], FindIndex(rss[j], name).value)]))
  {
    var t := rss[j := UnlinkAt(rss[j], FindIndex(rss[j], name).value)];
    var a, c := Flat(rss[..j]), Flat(rss[j + 1..]);
    assert t[..j] == rss[..j] && t[j + 1..] == rss[j + 1..];
    FlatSplit(rss, j);
    FlatSplit(t, j);
    UniqueParts(a, rss[j], c);
    UnlinkFinds(rss[j], name);
    forall i | 0 <= i < |t[j]| && t[j][i].Used? ensures Find(rss[j], t[j][i].name).Some? { assert t[j][i] == rss[j][i]; }
    UniqueReplace(a, rss[j], t[j], c, name);
  }

  // ----- Runs

  /** The block and record e2_inode_link chooses: the first free record with room. */
  function FitAll(rss: seq<seq<Record>>, n: nat): (r: Option<(nat, nat)>)
    ensures r.Some? ==>
              && r.value.0 < |rss| && r.value.1 < |rss[r.value.0]|
              && rss[r.value.0][r.value.1].Free? && rss[r.value.0][r.value.1].size >= HEAD + n
  {
    if rss == [] then None
    else if FirstFit(rss[0], n).Some? then Some((0, FirstFit(rss[0], n).value))
    else
      match FitAll(rss[1..], n)
      case None => None
      case Some(p) => Some((p.0 + 1, p.1))
  }

  /** The block that holds a name. */
  function HolderOf(rss: seq<seq<Record>>, name: Name): (r: Option<nat>)
    ensures r.Some? ==> r.value < |rss| && FindIndex(rss[r.value], name).Some?
  {
    if rss == [] then None
    else if FindIndex(rss[0], name).Some? then Some(0)
    else
      match HolderOf(rss[1..], name)
      case None => None
      case Some(j) => Some(j + 1)
  }

  lemma {:induction false} HolderFinds(rss: seq<seq<Record>>, name: Name)
    ensures HolderOf(rss, name).Some? <==> FindAll(rss, name).Some?
  {
    if rss != [] { HolderFinds(rss[1..], name); }
  }

  /** The directory after a link: into the chosen record, else into a fresh block, else (no block could be
      allocated) unchanged. */
  ghost function Linked(rss: seq<seq<Record>>, bs: nat, ino: nat, name: Name, grown: bool): seq<seq<Record>>
    requires bs >= HEAD + |name|
  {
    match FitAll(rss, |name|)
    case Some(p) => LinkIn(rss, p.0, p.1, ino, name)
    case None => if grown then rss + [Placed(bs, ino, name)] else rss
  }

  /** Where e2_inode_link waits for a lock it holds: a directory is linked into itself, or its map has to be written
      and is longer than the direct blocks. */
  predicate LinkHangs(rss: seq<seq<Record>>, n: nat, grown: bool, self: bool)
  {
    self || (FitAll(rss, n).None? && (if grown then |rss| + 1 else |rss|) > 12)
  }

  /** Twelve blocks of names, and one name more. */
  lemma {:induction false} ThirteenthBlock(rss: seq<seq<Record>>, n: nat)
    requires |rss| == 12 && forall i, k :: 0 <= i < |rss| && 0 <= k < |rss[i]| ==> rss[i][k].Used?
    ensures LinkHangs(rss, n, true, false) && !LinkHangs(rss, n, false, false) && !LinkHangs(rss[1..], n, true, false)
  {
    NoRoom(rss, n);
  }

  lemma {:induction false} NoRoom(rss: seq<seq<Record>>, n: nat)
    requires forall i, k :: 0 <= i < |rss| && 0 <= k < |rss[i]| ==> rss[i][k].Used?
    ensures FitAll(rss, n) == None
  {
    if rss != [] {
      NoRoom(rss[1..], n);
    }
  }

  ghost function Unlinked(rss: seq<seq<Record>>, name: Name): seq<seq<Record>>
  {
    match HolderOf(rss, name)
    case None => rss
    case Some(j) => rss[j := UnlinkAt(rss[j], FindIndex(rss[j], name).value)]
  }

  /** Exactly when a link of a fresh name has the effect it reports. */
  ghost predicate LinkSound(rss: seq<seq<Record>>, name: Name, grown: bool)
  {
    match FitAll(rss, |name|)
    case Some(p) => !Damages(rss[p.0], p.1, name)
    case None => grown
  }

  ghost predicate Agrees(rss: seq<seq<Record>>, names: map<Name, nat>)
  {
    && Unique(Flat(rss))
    && forall m :: FindAll(rss, m) == if m in names then Some(names[m]) else None
  }

  lemma AppendFinds(rss: seq<seq<Record>>, b: seq<Record>, m: Name)
    ensures FindAll(rss + [b], m) == if FindAll(rss, m).Some? then FindAll(rss, m) else Find(b, m)
    ensures Flat(rss + [b]) == Flat(rss) + b
  {
    hide Find;
    hide FindAll;
    FlatSplit(rss + [b], |rss|);
    assert (rss + [b])[..|rss|] == rss && (rss + [b])[|rss| + 1..] == [];
    assert Flat(rss) + b + Flat([]) == Flat(rss) + b;
    FindFlat(rss + [b], m);
    FindFlat(rss, m);
    FindConcat(Flat(rss), b, m);
  }

  /** A link makes the directory the old one with the name added exactly when it is sound. */
  lemma LinkedAgrees(rss: seq<seq<Record>>, names: map<Name, nat>, bs: nat, ino: nat, name: Name, grown: bool)
    requires Agrees(rss, names) && name !in names && ino > 0 && bs >= HEAD + |name|
    ensures Agrees(Linked(rss, bs, ino, name, grown), names[name := ino]) <==> LinkSound(rss, name, grown)
  {
    assert FindAll(rss, name) == None;
    match FitAll(rss, |name|)
    case Some(p) => LinkInAgrees(rss, names, p.0, p.1, ino, name);
    case None => if grown { AppendedAgrees(rss, names, bs, ino, name); }
  }

  /** A free record just as long as a name needs, before a record in use: after the link the other name is gone or
      has another inode. */
  lemma NeighbourDamaged(name: Name, ino: nat, other: Record, bs: nat)
    requires ino > 0 && other.Used? && other.name != name && other.ino % 256 != 0 && bs >= HEAD + |name|
    ensures var rss, names := [[Free(HEAD + |name|), other]], map[other.name := other.ino];
            && Agrees(rss, names) && Damages(rss[0], 0, name)
            && !Agrees(Linked(rss, bs, ino, name, true), names[name := ino])
  {
    var rs := [Free(HEAD + |name|), other];
    var rss, names := [rs], map[other.name := other.ino];
    assert rss[1..] == [] && rs[1..] == [other] && [other][1..] == [];
    assert Flat(rss) == rs;
    forall m ensures FindAll(rss, m) == if m in names then Some(names[m]) else None {
      FindFlat(rss, m);
      assert FindIndex([other], m) == if m == other.name then Some(0) else None;
    }
    assert FirstFit(rs, |name|) == Some(0) && FitAll(rss, |name|) == Some((0, 0));
    LinkedAgrees(rss, names, bs, ino, name, true);
  }

  /** A full device: the link of a first name reports success and the name is not there. */
  lemma LinkLost(name: Name, ino: nat, bs: nat)
    requires ino > 0 && bs >= HEAD + |name|
    ensures Agrees([], map[]) && !Agrees(Linked([], bs, ino, name, false), map[name := ino])
  {
    assert Agrees([], map[]);
    LinkedAgrees([], map[], bs, ino, name, false);
    assert map[][name := ino] == map[name := ino];
  }

  lemma LinkInAgrees(rss: seq<seq<Record>>, names: map<Name, nat>, j: nat, k: nat, ino: nat, name: Name)
    requires Agrees(rss, names) && name !in names && ino > 0
    requires j < |rss| && k < |rss[j]| && rss[j][k].Free? && rss[j][k].size >= HEAD + |name|
    ensures Agrees(LinkIn(rss, j, k, ino, name), names[name := ino]) <==> !Damages(rss[j], k, name)
  {
    assert FindAll(rss, name) == None;
    hide FindAll;
    hide Flat;
    hide Unique;
    hide LinkIn;
    hide Damages;
    DirectoryLink(rss, j, k, ino, name);
    DirectoryLinkUnique(rss, j, k, ino, name);
    var t := LinkIn(rss, j, k, ino, name);
    if Damages(rss[j], k, name) {
      var m :| m != name && FindAll(t, m) != FindAll(rss, m);
      assert FindAll(rss, m) == if m in names[name := ino] then Some(names[name := ino][m]) else None;
    } else {
      forall m ensures FindAll(t, m) == if m in names[name := ino] then Some(names[name := ino][m]) else None {
        assert m != name ==> FindAll(t, m) == FindAll(rss, m);
      }
    }
  }

  lemma AppendedAgrees(rss: seq<seq<Record>>, names: map<Name, nat>, bs: nat, ino: nat, name: Name)
    requires Agrees(rss, names) && name !in names && ino > 0 && bs >= HEAD + |name|
    ensures Agrees(rss + [Placed(bs, ino, name)], names[name := ino])
  {
    var b := Placed(bs, ino, name);
    var t := rss + [b];
    PlacedFind(bs, ino, name);
    forall m ensures FindAll(t, m) == if m == name then Some(ino) else FindAll(rss, m) { AppendFinds(rss, b, m); }
    assert Unique(Flat(t)) by {
      AppendFinds(rss, b, name);
      FindFlat(rss, name);
      UniqueConcat(Flat(rss), b);
    }
  }

  lemma UnlinkedAgrees(rss: seq<seq<Record>>, names: map<Name, nat>, name: Name)
    requires Agrees(rss, names)
    ensures Agrees(Unlinked(rss, name), names - {name})
  {
    HolderFinds(rss, name);
    match HolderOf(rss, name)
    case None => assert names - {name} == names;
    case Some(j) =>
      DirectoryUnlink(rss, j, name);
      DirectoryUnlinkUnique(rss, j, name);
  }

  datatype Op = Link(name: Name, ino: nat, grown: bool) | Unlink(name: Name)

  ghost function Step(rss: seq<seq<Record>>, bs: nat, op: Op): seq<seq<Record>>
    requires op.Link? ==> bs >= HEAD + |op.name|
  {
    if op.Link? then Linked(rss, bs, op.ino, op.name, op.grown) else Unlinked(rss, op.name)
  }

  function StepNames(names: map<Name, nat>, op: Op): map<Name, nat>
  {
    if op.Link? then names[op.name := op.ino] else names - {op.name}
  }

  /** Every link in the run is of a name not there, with an inode, and sound when it is made. */
  ghost predicate SoundRun(rss: seq<seq<Record>>, names: map<Name, nat>, bs: nat, ops: seq<Op>)
    decreases |ops|
  {
    ops == [] ||
    var op := ops[0];
    && (op.Link? ==> bs >= HEAD + |op.name| && op.name !in names && op.ino > 0 && LinkSound(rss, op.name, op.grown))
    && SoundRun(Step(rss, bs, op), StepNames(names, op), bs, ops[1..])
  }

  ghost function Run(rss: seq<seq<Record>>, bs: nat, ops: seq<Op>): seq<seq<Record>>
    requires forall i :: 0 <= i < |ops| && ops[i].Link? ==> bs >= HEAD + |ops[i].name|
    decreases |ops|
  {
    if ops == [] then rss else Run(Step(rss, bs, ops[0]), bs, ops[1..])
  }

  function RunNames(names: map<Name, nat>, ops: seq<Op>): map<Name, nat>
    decreases |ops|
  {
    if ops == [] then names else RunNames(StepNames(names, ops[0]), ops[1..])
  }

  /** Over every sound run the directory is the map its links and unlinks describe. */
  lemma {:induction false} RunAgrees(rss: seq<seq<Record>>, names: map<Name, nat>, bs: nat, ops: seq<Op>)
    requires Agrees(rss, names) && SoundRun(rss, names, bs, ops)
    requires forall i :: 0 <= i < |ops| && ops[i].Link? ==> bs >= HEAD + |ops[i].name|
    ensures Agrees(Run(rss, bs, ops), RunNames(names, ops))
    decreases |ops|
  {
    hide Agrees;
    if ops != [] {
      var op := ops[0];
      if op.Link? {
        LinkedAgrees(rss, names, bs, op.ino, op.name, op.grown);
      } else {
        UnlinkedAgrees(rss, names, op.name);
      }
      RunAgrees(Step(rss, bs, op), StepNames(names, op), bs, ops[1..]);
    }
  }
}
