/** Reading a directory from its start to its end (f_opendir, then f_readdir until nothing is left),
    and what the entries delivered have to do with the map that the table stands for. */
module Listing {
  import opened Bytes
  import opened Layout
  import opened DiskIo
  import opened Window
  import opened Chains
  import opened Allocator
  import opened Files
  import opened DirTable
  import opened DirWalk
  import opened Directory

  // ---------------------------------------------------------------- attributes

  /** Files and directories have attribute bit 3 clear; a volume label has it set, alone or with
      the archive bit; an entry of a long name has the low four bits set. */
  ghost predicate IsFileOrDir(e: seq<Byte>) requires |e| == 32 { var a: int := e[11]; a / 8 % 2 == 0 }
  ghost predicate IsLabel(e: seq<Byte>) requires |e| == 32 { e[11] % 64 == 0x08 || e[11] % 64 == 0x28 }
  ghost predicate IsNamePart(e: seq<Byte>) requires |e| == 32 { e[11] % 64 == 0x0F }

  /** Entry `i` is in front of the end mark and not deleted. */
  ghost predicate InUse(t: seq<Byte>, i: nat)
  {
    i < Count(t) && Ent(t, i)[0] != 0xE5 && forall j :: 0 <= j <= i ==> Ent(t, j)[0] != 0
  }

  /** Every entry in use is a file, a directory, a label or part of a long name. */
  ghost predicate Usual(t: seq<Byte>)
  {
    forall i: nat :: InUse(t, i) ==> IsFileOrDir(Ent(t, i)) || IsLabel(Ent(t, i)) || IsNamePart(Ent(t, i))
  }

  /** What is to be listed: files and directories, or labels, other than the dot entries. */
  ghost predicate Wanted(t: seq<Byte>, i: nat, vol: bool)
  {
    InUse(t, i) && Ent(t, i)[0] != 0x2E && if vol then IsLabel(Ent(t, i)) else IsFileOrDir(Ent(t, i))
  }

  /** `es` are the wanted entries among the first `q`, in order; `ix` are their places. */
  ghost predicate Lists(t: seq<Byte>, q: nat, vol: bool, es: seq<seq<Byte>>, ix: seq<nat>)
  {
    && |es| == |ix|
    && (forall k :: 0 <= k < |ix| ==> ix[k] < q && Wanted(t, ix[k], vol) && es[k] == Ent(t, ix[k]))
    && (forall j, k :: 0 <= j < k < |ix| ==> ix[j] < ix[k])
    && (forall i: nat :: i < q && Wanted(t, i, vol) ==> i in ix)
  }

  /** dir_read's test on an entry of a usual table. */
  lemma HitIsWanted(t: seq<Byte>, i: nat, vol: bool)
    requires InUse(t, i) && Usual(t)
    ensures Hits(Any(vol), Ent(t, i)) <==> Wanted(t, i, vol)
  {
  }

  /** An entry that is not in use although no end mark came before is a deleted one. */
  lemma MissIsUnwanted(t: seq<Byte>, i: nat, vol: bool)
    requires i < Count(t) && Usual(t) && (forall j :: 0 <= j <= i ==> Ent(t, j)[0] != 0)
    ensures Hits(Any(vol), Ent(t, i)) <==> Wanted(t, i, vol)
  {
    if Ent(t, i)[0] != 0xE5 { HitIsWanted(t, i, vol); }
  }

  // ------------------------------------------------------------------- reading

  /** Entries `0`, ..., `q - 1` have been read. */
  ghost predicate ReadTo(t: seq<Byte>, q: nat, vol: bool, es: seq<seq<Byte>>, ix: seq<nat>)
  {
    && q <= Count(t)
    && forall k :: UnfoldList(k) ==>
         (forall j :: 0 <= j < q ==> Ent(t, j)[0] != 0) && (Usual(t) ==> Lists(t, q, vol, es, ix))
  }

  /** On a usual table, all entries wanted have been read. */
  ghost predicate Complete(t: seq<Byte>, vol: bool, es: seq<seq<Byte>>, ix: seq<nat>)
  {
    forall k :: UnfoldList(k) ==> (Usual(t) ==> Lists(t, Count(t), vol, es, ix))
  }

  ghost predicate UnfoldList(k: int) { true }

  /** Entries that are passed over change nothing. */
  lemma {:induction false} PassOver(t: seq<Byte>, q: nat, m: nat, vol: bool, es: seq<seq<Byte>>, ix: seq<nat>)
    requires ReadTo(t, q, vol, es, ix) && q <= m <= Count(t) && PassedEntries(t, q, m, Any(vol))
    ensures ReadTo(t, m, vol, es, ix)
    decreases m - q
  {
    if q < m {
      assert UnfoldList(0);
      assert Ent(t, q)[0] != 0 && !Hits(Any(vol), Ent(t, q));
      if Usual(t) { MissIsUnwanted(t, q, vol); }
      PassOver(t, q + 1, m, vol, es, ix);
    }
  }

  lemma Deliver(t: seq<Byte>, q: nat, vol: bool, es: seq<seq<Byte>>, ix: seq<nat>)
    requires ReadTo(t, q, vol, es, ix) && q < Count(t) && Ent(t, q)[0] != 0 && Hits(Any(vol), Ent(t, q))
    ensures ReadTo(t, q + 1, vol, es + [Ent(t, q)], ix + [q])
  {
    assert UnfoldList(0);
    if Usual(t) {
      MissIsUnwanted(t, q, vol);
      var ix' := ix + [q];
      forall i: nat | i < q + 1 && Wanted(t, i, vol) ensures i in ix' {
        if i == q { assert ix'[|ix|] == q; } else { var k :| 0 <= k < |ix| && ix[k] == i; assert ix'[k] == i; }
      }
    }
  }

  /** Nothing is wanted behind an end mark. */
  lemma AtEnd(t: seq<Byte>, q: nat, vol: bool, es: seq<seq<Byte>>, ix: seq<nat>)
    requires ReadTo(t, q, vol, es, ix) && (q == Count(t) || Ent(t, q)[0] == 0)
    ensures Complete(t, vol, es, ix)
  {
    assert UnfoldList(0);
  }

  /** One dir_read from entry `q` of a sound table: it delivers entry `m`, or nothing is left. */
  lemma Scanned(g: Geometry, v: seq<Byte>, ch: seq<Dword>, q: nat, vol: bool, m: nat, d: Cursor, res: FResult,
                es: seq<seq<Byte>>, ix: seq<nat>)
    requires g.Valid(|v| / SS) && q <= m && ScannedTable(g, v, ch, q * SZDIRE, Any(vol), m - q, d, res)
    requires ReadTo(Seen(g, v, ch), q, vol, es, ix)
    ensures m < Count(Seen(g, v, ch)) && 0 <= d.dptr == m * SZDIRE && AtPos(g, ch, d.dptr, d.clust, d.sect)
    ensures res == OK ==> ReadTo(Seen(g, v, ch), m + 1, vol, es + [Ent(Seen(g, v, ch), m)], ix + [m])
    ensures res != OK ==> res == NO_FILE && Complete(Seen(g, v, ch), vol, es, ix)
  {
    ScanSays(g, v, ch, q, vol, m, d, res);
    ScannedOn(Seen(g, v, ch), q, vol, m, res, es, ix);
  }

  lemma ScannedOn(t: seq<Byte>, q: nat, vol: bool, m: nat, res: FResult, es: seq<seq<Byte>>, ix: seq<nat>)
    requires q <= m < Count(t) && PassedEntries(t, q, m, Any(vol)) && ReadTo(t, q, vol, es, ix)
    requires if Ent(t, m)[0] == 0 then res == NO_FILE
             else if Hits(Any(vol), Ent(t, m)) then res == OK
             else res == NO_FILE && m + 1 == Count(t)
    ensures res == OK ==> ReadTo(t, m + 1, vol, es + [Ent(t, m)], ix + [m])
    ensures res != OK ==> Complete(t, vol, es, ix)
  {
    PassOver(t, q, m, vol, es, ix);
    if res == OK {
      Deliver(t, m, vol, es, ix);
    } else if Ent(t, m)[0] == 0 {
      AtEnd(t, m, vol, es, ix);
    } else {
      PassOver(t, m, m + 1, vol, es, ix);
      AtEnd(t, m + 1, vol, es, ix);
    }
  }

  lemma ScanSays(g: Geometry, v: seq<Byte>, ch: seq<Dword>, q: nat, vol: bool, m: nat, d: Cursor, res: FResult)
    requires g.Valid(|v| / SS) && q <= m && ScannedTable(g, v, ch, q * SZDIRE, Any(vol), m - q, d, res)
    ensures var t := Seen(g, v, ch);
            && m < Count(t) && PassedEntries(t, q, m, Any(vol))
            && if Ent(t, m)[0] == 0 then res == NO_FILE
               else if Hits(Any(vol), Ent(t, m)) then res == OK
               else res == NO_FILE && m + 1 == Count(t)
    ensures 0 <= d.dptr == m * SZDIRE && AtPos(g, ch, d.dptr, d.clust, d.sect)
  {
    assert UnfoldFrame(0);
    assert q * SZDIRE / SZDIRE == q;
  }

  /** The place of the cursor while a directory is read: at entry `q`, or behind the last one. */
  ghost predicate Reading(fs: Volume, dp: Dir, q: nat)
    reads fs, fs.win, fs.disk.data, fs.ledger, dp
  {
    && Sound(fs) && dp.Inv(fs.geo, fs.fat) && Aligned(dp.Cur())
    && if dp.sect == 0 then q == Count(T(fs, dp)) else dp.dptr == q * SZDIRE && dp.At(fs.geo)
  }

  /** f_readdir (with `vol`, the same for volume labels): the next entry wanted, if there is one. */
  method ReadDir(fs: Volume, dp: Dir, vol: bool, ghost q: nat, ghost es: seq<seq<Byte>>, ghost ix: seq<nat>)
    returns (found: bool, e: seq<Byte>, ghost k: nat)
    requires Reading(fs, dp, q) && ReadTo(T(fs, dp), q, vol, es, ix)
    modifies fs, fs.win, fs.disk.data, dp`dptr, dp`clust, dp`sect, dp`chain
    ensures Sound(fs) && fs.view == old(fs.view) && fs.fat == old(fs.fat) && dp.chain == old(dp.chain)
    ensures found ==>
              && q <= k < Count(T(fs, dp)) && Reading(fs, dp, k + 1)
              && e == Ent(T(fs, dp), k) && ReadTo(T(fs, dp), k + 1, vol, es + [e], ix + [k])
    ensures !found ==> Complete(T(fs, dp), vol, es, ix)
  {
    found, e := false, [];
    var res;
    res, k := ReadWanted(fs, dp, vol, q, es, ix);
    if res == OK {
      found := true;
      e := TakeEntry(fs, dp, k);
    }
  }

  /** Its dir_read. */
  method ReadWanted(fs: Volume, dp: Dir, vol: bool, ghost q: nat, ghost es: seq<seq<Byte>>, ghost ix: seq<nat>)
    returns (res: FResult, ghost m: nat)
    requires Reading(fs, dp, q) && ReadTo(T(fs, dp), q, vol, es, ix)
    modifies fs, fs.win, fs.disk.data, dp`dptr, dp`clust, dp`sect
    ensures Sound(fs) && fs.view == old(fs.view) && fs.fat == old(fs.fat) && dp.Inv(fs.geo, fs.fat)
    ensures res == OK ==>
              && q <= m < Count(T(fs, dp)) && dp.dptr == m * SZDIRE && dp.At(fs.geo)
              && ReadTo(T(fs, dp), m + 1, vol, es + [Ent(T(fs, dp), m)], ix + [m])
    ensures res != OK ==> Complete(T(fs, dp), vol, es, ix)
  {
    ghost var sect, n, d, t := dp.sect, 0, dp.Cur(), T(fs, dp);
    res, n, d := ReadSound(fs, dp, vol);
    assert T(fs, dp) == t;
    m := q + n;
    if sect == 0 {
      AtEnd(t, q, vol, es, ix);
    } else {
      Scanned(fs.geo, fs.view, dp.chain, q, vol, m, d, res, es, ix);
    }
  }

  /** dir_read on a sound table. */
  method ReadSound(fs: Volume, dp: Dir, vol: bool) returns (res: FResult, ghost n: nat, ghost d: Cursor)
    requires Sound(fs) && dp.Inv(fs.geo, fs.fat) && Aligned(dp.Cur()) && (dp.sect == 0 || dp.At(fs.geo))
    modifies fs, fs.win, fs.disk.data, dp`dptr, dp`clust, dp`sect
    ensures Sound(fs) && fs.view == old(fs.view) && fs.fat == old(fs.fat)
    ensures old(dp.sect) == 0 ==> res == NO_FILE
    ensures old(dp.sect) != 0 ==>
              && ScannedTable(fs.geo, fs.view, dp.chain, old(dp.dptr), Any(vol), n, d, res)
              && (res == OK ==> dp.Cur() == d)
  {
    if dp.sect != 0 { PosOnVolume(fs.geo, fs.disk.sectors, fs.fat, dp.chain, dp.dptr, dp.clust, dp.sect); }
    res, n, d := DirRead(fs, dp, vol);
  }

  /** The entry under the cursor, and the step behind it. */
  method TakeEntry(fs: Volume, dp: Dir, ghost k: nat) returns (e: seq<Byte>)
    requires Sound(fs) && dp.Inv(fs.geo, fs.fat) && dp.At(fs.geo) && dp.dptr == k * SZDIRE
    requires k < Count(T(fs, dp))
    modifies fs, fs.win, fs.disk.data, dp`dptr, dp`clust, dp`sect, dp`chain
    ensures Reading(fs, dp, k + 1) && fs.view == old(fs.view) && fs.fat == old(fs.fat) && dp.chain == old(dp.chain)
    ensures e == Ent(T(fs, dp), k)
  {
    var res;
    ghost var c, ch, f, v := dp.Cur(), dp.chain, fs.fat, fs.view;
    PosOnVolume(fs.geo, fs.disk.sectors, f, ch, dp.dptr, dp.clust, dp.sect);
    res, e := LoadAt(fs, dp);
    LoadedAt(fs.geo, f, v, ch, c, k, e);
    res := DirNext(fs, dp, false);
    if res == OK { PosOnVolume(fs.geo, fs.disk.sectors, fs.fat, dp.chain, dp.dptr, dp.clust, dp.sect); }
    Stepped(fs.geo, f, v, ch, c, res, dp.chain, dp.Cur(), k);
  }

  lemma LoadedAt(g: Geometry, f: FatMap, v: seq<Byte>, ch: seq<Dword>, c: Cursor, k: nat, e: seq<Byte>)
    requires g.Valid(|v| / SS) && |f| == g.nFatent && IsChain(f, ch) && (ch == [] ==> g.fsType != FAT32)
    requires 0 <= c.dptr == k * SZDIRE && AtPos(g, ch, c.dptr, c.clust, c.sect) && Shown(v, c) && e == EntOf(v, c)
    ensures k < Count(Seen(g, v, ch)) && e == Ent(Seen(g, v, ch), k)
  {
    LoadedEnt(g, f, v, ch, c.dptr, c.clust, c.sect);
    assert c.dptr / SZDIRE == k;
  }

  lemma Stepped(g: Geometry, f: FatMap, v: seq<Byte>, ch: seq<Dword>, c: Cursor, res: FResult,
                ch': seq<Dword>, c': Cursor, k: nat)
    requires g.Valid(|v| / SS) && 0 <= c.dptr == k * SZDIRE && AtPos(g, ch, c.dptr, c.clust, c.sect)
    requires NextOnTable(g, f, v, ch, c.dptr, false, res, f, v, ch', c')
    ensures ch' == ch && (res == OK ==> c'.dptr == (k + 1) * SZDIRE)
    ensures res != OK ==> res == NO_FILE && k + 1 == Count(Seen(g, v, ch))
  {
    assert UnfoldFrame(0) && UnfoldPos(0);
    LastEntry(g, ch, c.dptr);
  }

  /** The end of f_opendir. */
  method Rewind(fs: Volume, dp: Dir)
    requires Sound(fs) && dp.Inv(fs.geo, fs.fat)
    modifies fs`wflag, fs`winsect, fs.win, fs.disk.data, dp`dptr, dp`clust, dp`sect
    ensures Reading(fs, dp, 0)
  {
    HasFirst(fs.geo, fs.disk.sectors, dp.chain);
    var res := DirSdi(fs, dp, 0);
    PosOnVolume(fs.geo, fs.disk.sectors, fs.fat, dp.chain, dp.dptr, dp.clust, dp.sect);
  }

  /** A directory read from its start to its end, on a sound table whose attributes are usual: the
      entries wanted, each of them once, in the order of the table, and nothing else. */
  method ListDir(fs: Volume, dp: Dir, vol: bool) returns (es: seq<seq<Byte>>, ghost ix: seq<nat>)
    requires Sound(fs) && dp.Inv(fs.geo, fs.fat)
    modifies fs, fs.win, fs.disk.data, dp`dptr, dp`clust, dp`sect, dp`chain
    ensures Sound(fs) && fs.view == old(fs.view) && fs.fat == old(fs.fat) && dp.chain == old(dp.chain)
    ensures Usual(T(fs, dp)) ==> Lists(T(fs, dp), Count(T(fs, dp)), vol, es, ix)
  {
    es, ix := [], [];
    Rewind(fs, dp);
    ghost var q, t := 0, T(fs, dp);
    assert ReadTo(t, 0, vol, es, ix);
    var more := true;
    while more
      invariant Sound(fs) && fs.view == old(fs.view) && fs.fat == old(fs.fat) && dp.chain == old(dp.chain)
      invariant q <= Count(t) && T(fs, dp) == t
      invariant more ==> Reading(fs, dp, q) && ReadTo(t, q, vol, es, ix)
      invariant !more ==> Complete(t, vol, es, ix)
      decreases more, Count(t) - q
    {
      var e;
      ghost var k;
      more, e, k := ReadDir(fs, dp, vol, q, es, ix);
      if more { es, ix, q := es + [e], ix + [k], k + 1; }
    }
    assert UnfoldList(0);
  }

  // ------------------------------------------------------------------- the map

  ghost predicate IsDot(fn: seq<Byte>) { |fn| > 0 && fn[0] == 0x2E }

  /** A listing of files and directories is the map, without the dot entries: what it holds is
      bound, every binding is in it, and no name comes twice. */
  lemma ListingIsMap(t: seq<Byte>, es: seq<seq<Byte>>, ix: seq<nat>)
    requires WellFormed(t) && Lists(t, Count(t), false, es, ix)
    ensures forall k :: 0 <= k < |es| ==>
              |es[k]| == 32 && es[k][0] != 0x2E && es[k][..11] in DirMap(t) && DirMap(t)[es[k][..11]] == es[k]
    ensures forall fn :: fn in DirMap(t) && !IsDot(fn) ==> DirMap(t)[fn] in es
    ensures forall j, k :: 0 <= j < k < |es| ==> es[j][..11] != es[k][..11]
  {
    forall k | 0 <= k < |es|
      ensures |es[k]| == 32 && es[k][0] != 0x2E && es[k][..11] in DirMap(t) && DirMap(t)[es[k][..11]] == es[k]
    {
      ListedIsBound(t, ix[k]);
    }
    forall fn | fn in DirMap(t) && !IsDot(fn) ensures DirMap(t)[fn] in es {
      var i := BoundIsListed(t, fn);
      var k :| 0 <= k < |ix| && ix[k] == i;
      assert es[k] == DirMap(t)[fn];
    }
    forall j, k | 0 <= j < k < |es| ensures es[j][..11] != es[k][..11] {
      ListedIsBound(t, ix[j]);
      ListedIsBound(t, ix[k]);
    }
  }

  lemma ListedIsBound(t: seq<Byte>, i: nat)
    requires WellFormed(t) && Wanted(t, i, false)
    ensures IsObject(Ent(t, i)) && Ent(t, i)[..11] in DirMap(t) && DirMap(t)[Ent(t, i)[..11]] == Ent(t, i)
  {
    MapToHas(t, Count(t), i);
  }

  lemma BoundIsListed(t: seq<Byte>, fn: seq<Byte>) returns (i: nat)
    requires WellFormed(t) && fn in DirMap(t) && !IsDot(fn)
    ensures Wanted(t, i, false) && Ent(t, i) == DirMap(t)[fn]
  {
    i := MapToFrom(t, Count(t), fn);
  }
}
