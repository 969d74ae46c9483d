/** The directory cursor on arbitrary disk content: dir_sdi, dir_next, dir_clear and the scans of
    dir_find and dir_read.  Nothing here relies on the table's chain being sound: it may be
    cyclic, cross-linked, freed or end in an error mark. */
module DirWalk {
  import opened Bytes
  import opened Layout
  import opened DiskIo
  import opened FatBits
  import opened Window
  import opened FatCodec
  import opened Chains
  import opened Allocator
  import opened FileData
  import opened DataWindow
  import opened Files
  import opened DirTable

  const MAX_DIR := 0x200000   // maximum size of a directory table [byte]

  /** Size in bytes of a table: the static root table (no chain), or a chain of clusters. */
  ghost function TableSize(g: Geometry, ch: seq<Dword>): nat
  {
    if ch == [] then g.nRootdir * SZDIRE else |ch| * g.Bcs()
  }

  /** Cluster `c` and sector `s` are those of the entry at offset `p`. */
  ghost predicate AtPos(g: Geometry, ch: seq<Dword>, p: nat, c: Dword, s: int)
    requires g.csize > 0
  {
    && p % SZDIRE == 0 && p < MAX_DIR
    && forall k :: UnfoldPos(k) ==>
         && p < TableSize(g, ch)
         && c == (if ch == [] then 0 else Nth(ch, p / g.Bcs()))
         && s == if ch == [] then g.dirbase + p / SS else SectorAt(g, ch, p)
  }

  /** The table that starts at `sclust` is the static one, or a proper chain of clusters. */
  ghost predicate TableOf(g: Geometry, f: FatMap, sclust: Dword, ch: seq<Dword>)
  {
    && |f| == g.nFatent
    && if sclust == 0 && g.fsType != FAT32 then ch == []
       else IsChain(f, ch) && ch != [] && ch[0] == if sclust == 0 then g.dirbase else sclust
  }

  /** Mentioning this lets the prover look at how the position is computed. */
  ghost predicate UnfoldPos(k: int) { true }

  class Dir {
    var sclust: Dword    // table start cluster (0: root directory)
    var dptr: Dword      // current read/write offset
    var clust: Dword     // current cluster
    var sect: Dword      // current sector (0: no more entries to read)
    var fn: seq<Byte>    // short name, 11 bytes
    ghost var chain: seq<Dword>   // the clusters of the table; empty for the static one

    /** A directory and a name to look up in it. */
    constructor (sclust: Dword, fn: seq<Byte>, ghost chain: seq<Dword>)
      ensures this.sclust == sclust && this.fn == fn && this.chain == chain
    {
      this.sclust, this.fn, this.chain := sclust, fn, chain;
      dptr, clust, sect := 0, 0, 0;
    }

    ghost function Cur(): Cursor
      reads this
    {
      Cursor(dptr, clust, sect)
    }

    /** The table is the static one, or a proper chain of clusters. */
    ghost predicate Inv(g: Geometry, f: FatMap)
      reads this
    {
      |fn| == NAME && TableOf(g, f, sclust, chain)
    }

    /** The cursor is at entry offset `dptr` of the table. */
    ghost predicate At(g: Geometry)
      requires g.csize > 0
      reads this
    {
      AtPos(g, chain, dptr, clust, sect)
    }
  }

  // ------------------------------------------------------------------ cursors

  datatype Cursor = Cursor(dptr: int, clust: Dword, sect: int)

  /** A cursor as dir_sdi and dir_next leave it: in the static table, or in some cluster, at the
      sector that `dptr` selects there. */
  ghost predicate Placed(g: Geometry, c: Cursor)
    requires g.csize > 0
  {
    && Aligned(c)
    && forall k :: UnfoldPos(k) ==>
         if c.clust == 0 then c.dptr / SZDIRE < g.nRootdir && c.sect == g.dirbase + c.dptr / SS
         else 2 <= c.clust < g.nFatent && c.sect == Clst2Sect(g, c.clust) + SectorInCluster(g, c.dptr)
  }

  /** All that dir_next keeps whatever goes wrong: after an error the sector can be any. */
  ghost predicate Aligned(c: Cursor) { 0 <= c.dptr < MAX_DIR && c.dptr % SZDIRE == 0 }

  /** A placed cursor's sector is on the disk, behind the FAT. */
  lemma PlacedOnDisk(g: Geometry, sectors: nat, c: Cursor)
    requires g.Valid(sectors) && Placed(g, c)
    ensures 0 < g.FatEnd() <= c.sect < sectors && c.dptr % SS + SZDIRE <= SS
  {
    assert UnfoldPos(0);
    EntryInSector(c.dptr);
    if c.clust != 0 {
      ClusterInside(g, sectors, c.clust);
      SplitPosition(g, c.dptr);
    }
  }

  /** The entry under a cursor. */
  ghost function EntOf(v: seq<Byte>, c: Cursor): (e: seq<Byte>)
    requires 0 <= c.sect && (c.sect + 1) * SS <= |v| && c.dptr % SS + SZDIRE <= SS
    ensures |e| == SZDIRE
  {
    Sector(v, c.sect)[c.dptr % SS..c.dptr % SS + SZDIRE]
  }

  /** What get_fat answers. */
  ghost function LinkOf(f: FatMap, c: Dword): Dword { if 2 <= c < |f| then f[c] else 1 }

  /** The cluster `k` links behind `c`, if there are so many. */
  ghost function Hop(f: FatMap, c: Dword, k: nat): Option<Dword>
  {
    if k == 0 then Some(c) else Onward(f, Hop(f, c, k - 1))
  }

  ghost function Onward(f: FatMap, o: Option<Dword>): Option<Dword>
  {
    match o
    case None => None
    case Some(d) => if 2 <= LinkOf(f, d) < |f| then Some(LinkOf(f, d)) else None
  }

  lemma {:induction false} HopNone(f: FatMap, c: Dword, j: nat, k: nat)
    requires j <= k && Hop(f, c, j) == None
    ensures Hop(f, c, k) == None
  {
    if j < k { HopNone(f, c, j, k - 1); }
  }

  /** Where dir_sdi goes. */
  ghost function SdiOf(g: Geometry, f: FatMap, sclust: Dword, ofs: nat): Option<Cursor>
    requires g.csize > 0 && g.dirbase < TWO32
  {
    var start: Dword := if sclust == 0 && g.fsType == FAT32 then g.dirbase else sclust;
    if ofs >= MAX_DIR || ofs % SZDIRE != 0 then None
    else if start == 0 then
      if ofs / SZDIRE < g.nRootdir then Some(Cursor(ofs, 0, g.dirbase + ofs / SS)) else None
    else
      IndexNat(g, ofs);
      match Hop(f, start, ofs / g.Bcs())
      case None => None
      case Some(c) =>
        if 2 <= c < g.nFatent then Some(Cursor(ofs, c, Clst2Sect(g, c) + SectorInCluster(g, ofs))) else None
  }

  lemma SdiPlaced(g: Geometry, f: FatMap, sclust: Dword, ofs: nat)
    requires g.csize > 0 && g.dirbase < TWO32 && SdiOf(g, f, sclust, ofs).Some?
    ensures Placed(g, SdiOf(g, f, sclust, ofs).value)
  {
  }

  // ------------------------------------------------------------------ dir_sdi

  /** Follows the links from `start` to the cluster that holds offset `ofs0`. */
  method FollowTable(fs: Volume, start: Dword, ofs0: Dword) returns (res: FResult, clst: Dword, ofs: Dword)
    requires fs.Ready()
    modifies fs`wflag, fs`winsect, fs.win, fs.disk.data
    ensures fs.Ready() && (res == OK || res == INT_ERR) && 0 <= ofs0 / fs.geo.Bcs()
    ensures Hop(fs.fat, start, ofs0 / fs.geo.Bcs()) == if res == OK then Some(clst) else None
    ensures res == OK ==> ofs / SS == SectorInCluster(fs.geo, ofs0)
  {
    res := OK;
    clst, ofs := start, ofs0;
    var csz := fs.geo.csize * SS;
    ghost var i := 0;
    IndexNat(fs.geo, ofs0);
    while ofs >= csz
      invariant fs.Ready() && res == OK
      invariant 0 <= i && Hop(fs.fat, start, i) == Some(clst) && ofs0 == i * csz + ofs
      decreases ofs
    {
      NextBase(i, csz);
      FarEnough(fs.geo, ofs0, i + 1, ofs - csz);
      clst := GetFat(fs, clst);
      if clst == 0xFFFF_FFFF { res := DISK_ERR; }
      if clst < 2 || clst >= fs.geo.nFatent {
        HopNone(fs.fat, start, i + 1, ofs0 / fs.geo.Bcs());
        return INT_ERR, clst, ofs;
      }
      ofs := ofs - csz;
      i := i + 1;
    }
    WithinUnique(fs.geo, ofs0, i, ofs);
    RestSector(fs.geo, ofs0, i, ofs);
  }

  lemma FarEnough(g: Geometry, p: nat, i: nat, r: nat)
    requires g.csize > 0 && p == i * g.Bcs() + r
    ensures i <= p / g.Bcs()
  {
    Covered(g, p, i);
  }

  lemma RestSector(g: Geometry, p: nat, i: nat, r: nat)
    requires g.csize > 0 && IsPow2(g.csize) && Within(g, p, i, r)
    ensures r / SS == SectorInCluster(g, p)
  {
    SplitPosition(g, p);
    WithinUnique(g, p, i, r);
    var cs := SectorInCluster(g, p);
    WithinUnique(g, p, p / g.Bcs(), cs * SS + p % SS);
    DivModUnique(r, SS, cs, p % SS);
  }

  /** dir_sdi on any FAT content: sets the cursor to offset `ofs0`, if links lead there. */
  method SetIndex(fs: Volume, dp: Dir, ofs0: Dword) returns (res: FResult)
    requires fs.Ready()
    modifies fs`wflag, fs`winsect, fs.win, fs.disk.data, dp`dptr, dp`clust, dp`sect
    ensures fs.Ready() && (res == OK || res == INT_ERR)
    ensures SdiOf(fs.geo, fs.fat, dp.sclust, ofs0) == if res == OK then Some(dp.Cur()) else None
  {
    if ofs0 >= MAX_DIR || ofs0 % SZDIRE != 0 { return INT_ERR; }
    dp.dptr := ofs0;
    var clst, sect, ofs;
    res, clst, sect, ofs := FindSector(fs, dp.sclust, ofs0);
    if res != OK { return; }
    dp.sect := sect;
    dp.clust := clst;
    if dp.sect == 0 { return INT_ERR; }
    dp.sect := dp.sect + ofs / SS;
  }

  /** The cluster that holds offset `ofs0`, its first sector (0 if there is none), and the offset in it. */
  method FindSector(fs: Volume, sclust: Dword, ofs0: Dword) returns (res: FResult, clst: Dword, sect: Dword, ofs: Dword)
    requires fs.Ready() && ofs0 < MAX_DIR && ofs0 % SZDIRE == 0
    modifies fs`wflag, fs`winsect, fs.win, fs.disk.data
    ensures fs.Ready() && (res == OK || res == INT_ERR)
    ensures res == OK && sect != 0 ==> sect + ofs / SS < TWO32
    ensures SdiOf(fs.geo, fs.fat, sclust, ofs0) ==
              if res == OK && sect != 0 then Some(Cursor(ofs0, clst, sect + ofs / SS)) else None
  {
    res, clst, sect, ofs := OK, sclust, 0, ofs0;
    if clst == 0 && fs.geo.fsType == FAT32 { clst := fs.geo.dirbase; }
    if clst == 0 {
      if ofs / SZDIRE >= fs.geo.nRootdir { return INT_ERR, clst, sect, ofs; }
      sect := fs.geo.dirbase;
    } else {
      res, clst, ofs := FollowTable(fs, clst, ofs);
      if res != OK { return; }
      SectorThere(fs.geo, fs.disk.sectors, clst, ofs0);
      sect := Clst2Sect(fs.geo, clst);
    }
  }

  lemma SectorThere(g: Geometry, sectors: nat, clst: Dword, ofs: nat)
    requires g.Valid(sectors)
    ensures Clst2Sect(g, clst) != 0 <==> 2 <= clst < g.nFatent
    ensures Clst2Sect(g, clst) != 0 ==> Clst2Sect(g, clst) + SectorInCluster(g, ofs) < TWO32
  {
    ClusterInside(g, sectors, clst);
    SplitPosition(g, ofs);
  }

  // --------------------------------------------------------------- dir_clear

  function Zeros(n: nat): (z: seq<Byte>)
    ensures |z| == n && forall i :: 0 <= i < n ==> z[i] == 0
  {
    seq(n, i => 0)
  }

  /** dir_clear: fills a cluster with zeros, leaving the window on its first sector. */
  method DirClear(fs: Volume, clst: Dword) returns (res: FResult)
    requires fs.Ready() && 2 <= clst < fs.geo.nFatent
    modifies fs`wflag, fs`winsect, fs`view, fs`fat, fs.win, fs.disk.data
    ensures fs.Ready() && res == OK && fs.fat == old(fs.fat) && fs.winsect == Clst2Sect(fs.geo, clst)
    ensures FatsAgree(fs.geo, old(fs.view)) ==> FatsAgree(fs.geo, fs.view)
    ensures Stored(old(fs.view), fs.view, fs.geo.ClusterBase(clst), Zeros(fs.geo.Bcs()), fs.geo.Bcs())
  {
    res := SyncWindow(fs);
    if res != OK { return; }
    ClusterInside(fs.geo, fs.disk.sectors, clst);
    var sect := Clst2Sect(fs.geo, clst);
    ghost var v, z := fs.view, Zeros(fs.geo.Bcs());
    assert UnfoldFat(0);
    DataStore(fs.geo, v, sect * SS, z);
    OverlayStored(v, sect * SS, z);
    res := ClearSectors(fs, sect);
  }

  /** Zeros in the window and in every sector of a cluster behind the FAT. */
  method ClearSectors(fs: Volume, sect: Dword) returns (res: FResult)
    requires fs.Valid() && !fs.wflag && fs.disk.data[..] == fs.view && sect + fs.geo.csize <= fs.disk.sectors
    requires Fat(fs.geo, Overlay(fs.view, sect * SS, Zeros(fs.geo.Bcs()))) == fs.fat
    modifies fs`winsect, fs`view, fs.win, fs.disk.data
    ensures fs.Ready() && res == OK && fs.winsect == sect
    ensures fs.view == Overlay(old(fs.view), sect * SS, Zeros(fs.geo.Bcs()))
  {
    FirstSector(fs.view, sect * SS, fs.geo.Bcs());
    fs.winsect := sect;
    MemCpy(fs.win, 0, Zeros(SS));
    res := FillZeros(fs, sect);
    fs.view := Overlay(fs.view, sect * SS, Zeros(fs.geo.Bcs()));
  }

  lemma FirstSector(v: seq<Byte>, a: nat, n: nat)
    requires SS <= n && a + n <= |v|
    ensures Overlay(v, a, Zeros(n))[a..a + SS] == Zeros(SS)
  {
  }

  /** The loop of dir_clear: writes the zeroed window to every sector of the cluster. */
  method FillZeros(fs: Volume, sect: Dword) returns (res: FResult)
    requires fs.disk.Valid() && fs.win.Length == SS && fs.win != fs.disk.data && fs.win[..] == Zeros(SS)
    requires fs.geo.csize <= 128 && sect + fs.geo.csize <= fs.disk.sectors < TWO32
    modifies fs.disk.data
    ensures res == OK
    ensures fs.disk.data[..] == Overlay(old(fs.disk.data[..]), sect * SS, Zeros(fs.geo.Bcs()))
  {
    ghost var d := fs.disk.data[..];
    var n := 0;
    assert Overlay(d, sect * SS, Zeros(0)) == d;
    while n < fs.geo.csize
      invariant 0 <= n <= fs.geo.csize
      invariant fs.disk.data[..] == Overlay(d, sect * SS, Zeros(n * SS))
    {
      var r := fs.disk.Write(fs.win[..], sect + n, 1);
      if r != RES_OK { break; }
      MoreZeros(d, sect * SS, n * SS);
      n := n + 1;
    }
    res := if n == fs.geo.csize then OK else DISK_ERR;
  }

  lemma MoreZeros(d: seq<Byte>, a: nat, n: nat)
    requires a + n + SS <= |d|
    ensures Overlay(Overlay(d, a, Zeros(n)), a + n, Zeros(SS)) == Overlay(d, a, Zeros(n + SS))
  {
  }

  // ----------------------------------------------------------------- dir_next

  /** What lies behind a cursor: the next entry, the end of the table, a broken link, or the end
      of the chain, where the table can grow. */
  datatype Move = To(c: Cursor) | End | Broken | Grow

  ghost function NextOf(g: Geometry, f: FatMap, c: Cursor): Move
    requires g.csize > 0 && 0 <= c.dptr && 2 <= |f|
  {
    var ofs := c.dptr + SZDIRE;
    if ofs >= MAX_DIR then End
    else if ofs % SS != 0 then To(c.(dptr := ofs))
    else if c.clust == 0 then
      if ofs / SZDIRE >= g.nRootdir then End else To(Cursor(ofs, 0, Wrap32(c.sect + 1)))
    else if SectorInCluster(g, ofs) != 0 then To(Cursor(ofs, c.clust, Wrap32(c.sect + 1)))
    else
      var n := LinkOf(f, c.clust);
      if n <= 1 then Broken else if n >= |f| then Grow
      else To(Cursor(ofs, n, Clst2Sect(g, n)))
  }

  lemma NextPlaced(g: Geometry, sectors: nat, f: FatMap, c: Cursor)
    requires g.Valid(sectors) && |f| == g.nFatent && Placed(g, c) && NextOf(g, f, c).To?
    ensures Placed(g, NextOf(g, f, c).c) && NextOf(g, f, c).c.dptr == c.dptr + SZDIRE
  {
    assert UnfoldPos(0);
    PlacedOnDisk(g, sectors, c);
    Wrap32Id(c.sect + 1);
    NextAligned(c.dptr);
    if c.clust == 0 { NextPlacedStatic(g, f, c); } else { NextSectorIs(g, c.dptr); }
  }

  lemma NextAligned(p: nat)
    requires p % SZDIRE == 0
    ensures (p + SZDIRE) % SZDIRE == 0 && p % SS + SZDIRE <= SS
    ensures (p + SZDIRE) / SS == if (p + SZDIRE) % SS == 0 then p / SS + 1 else p / SS
  {
    EntryInSector(p);
  }

  lemma NextPlacedStatic(g: Geometry, f: FatMap, c: Cursor)
    requires g.csize > 0 && 2 <= |f| && g.nRootdir % 16 == 0 && Placed(g, c) && c.clust == 0 && NextOf(g, f, c).To?
    requires Plain(c)
    ensures Placed(g, NextOf(g, f, c).c)
  {
    assert UnfoldPos(0);
    NextAligned(c.dptr);
  }

  /** The sector number within the cluster steps with the offset. */
  lemma NextSectorIs(g: Geometry, p: nat)
    requires g.csize > 0 && IsPow2(g.csize) && p % SZDIRE == 0
    ensures var p' := p + SZDIRE;
            && (p' % SS != 0 ==> SectorInCluster(g, p') == SectorInCluster(g, p))
            && (p' % SS == 0 && SectorInCluster(g, p') != 0 ==> SectorInCluster(g, p') == SectorInCluster(g, p) + 1)
  {
    NextAligned(p);
    MaskIsMod(p / SS, g.csize);
    MaskIsMod((p + SZDIRE) / SS, g.csize);
    ModStep(p / SS, g.csize);
  }

  lemma ModStep(x: nat, n: nat)
    requires n > 0
    ensures (x + 1) % n == if x % n + 1 == n then 0 else x % n + 1
  {
    var q, r := x / n, x % n;
    if r + 1 == n { DivModUnique(x + 1, n, q + 1, 0); } else { DivModUnique(x + 1, n, q, r + 1); }
  }

  /** Taking a cluster for the table and clearing it: `n` was free and is linked behind `clust`;
      `v1` is the volume after the FAT has been updated. */
  ghost predicate GrownBy(g: Geometry, f: FatMap, v: seq<Byte>, f': FatMap, v1: seq<Byte>, v': seq<Byte>,
                          clust: Dword, n: Dword)
  {
    && 2 <= clust < |f| && 2 <= n < |f|
    && forall k :: UnfoldPos(k) ==>
         && f[n] == 0 && f[clust] >= |f| && f' == Stretched(f, clust, n, Eoc(g))
         && FatUpdated(g, v, v1) && Stored(v1, v', g.ClusterBase(n), Zeros(g.Bcs()), g.Bcs())
         && (FatsAgree(g, v1) ==> FatsAgree(g, v'))
  }

  /** Stretches the table behind the end of its chain, as dir_next does. */
  method Stretch(fs: Volume, clust: Dword) returns (res: FResult, n: Dword, ghost v1: seq<Byte>)
    requires fs.Ready() && 2 <= clust < fs.geo.nFatent && fs.fat[clust] >= fs.geo.nFatent
    modifies fs, fs.win, fs.disk.data
    ensures fs.Ready()
    ensures FreeExact(old(fs.fat), old(fs.freeClst)) ==> FreeExact(fs.fat, fs.freeClst)
    ensures old(Booked(fs)) ==> Booked(fs)
    ensures NoErrorMarks(old(fs.fat)) ==> NoErrorMarks(fs.fat)
    ensures res == OK ==> GrownBy(fs.geo, old(fs.fat), old(fs.view), fs.fat, v1, fs.view, clust, n)
    ensures res != OK ==> fs.view == old(fs.view) && fs.fat == old(fs.fat)
    ensures res != OK ==>
              || (res == DENIED && (Free(fs.fat) == {} || old(fs.freeClst) == 0))
              || (res == INT_ERR && !NoErrorMarks(fs.fat))
  {
    n := CreateChain(fs, clust);
    v1 := fs.view;
    if n == 0 { return DENIED, n, v1; }
    if n == 1 { return INT_ERR, n, v1; }
    if n == 0xFFFF_FFFF { return DISK_ERR, n, v1; }
    res := DirClear(fs, n);
    if res != OK { res := DISK_ERR; }
  }

  ghost predicate UnfoldNext(k: int) { true }

  /** The outcome of dir_next from a cursor `c` that has not been disabled (to be looked at through
      `UnfoldNext`). */
  ghost predicate NextResult(g: Geometry, f: FatMap, v: seq<Byte>, free: Dword, c: Cursor, stretch: bool,
                             res: FResult, f': FatMap, v1: seq<Byte>, v': seq<Byte>, c': Cursor)
    requires g.csize > 0 && 0 <= c.dptr && 2 <= |f|
  {
    forall k :: UnfoldNext(k) ==>
      match NextOf(g, f, c)
      case To(d) => res == OK && c' == d && f' == f && v' == v
      case End => res == NO_FILE && c'.sect == 0 && c'.dptr == c.dptr && f' == f && v' == v
      case Broken => res == INT_ERR && c'.dptr == c.dptr && f' == f && v' == v
      case Grow =>
        if !stretch then res == NO_FILE && c'.sect == 0 && c'.dptr == c.dptr && f' == f && v' == v
        else if res == OK then
          && GrownBy(g, f, v, f', v1, v', c.clust, c'.clust)
          && c' == Cursor(c.dptr + SZDIRE, c'.clust, Clst2Sect(g, c'.clust))
        else
          && f' == f && v' == v && c'.dptr == c.dptr
          && ((res == DENIED && (Free(f) == {} || free == 0)) || (res == INT_ERR && !NoErrorMarks(f)))
  }

  /** dir_next on any FAT content, with any cluster and sector in the cursor. */
  method NextEntry(fs: Volume, dp: Dir, stretch: bool) returns (res: FResult, ghost v1: seq<Byte>)
    requires fs.Ready() && Aligned(dp.Cur())
    modifies fs, fs.win, fs.disk.data, dp`dptr, dp`clust, dp`sect
    ensures fs.Ready() && Aligned(dp.Cur())
    ensures old(dp.sect) == 0 ==> res == NO_FILE && fs.view == old(fs.view) && fs.fat == old(fs.fat) && dp.sect == 0
    ensures old(dp.sect) != 0 ==>
              NextResult(fs.geo, old(fs.fat), old(fs.view), old(fs.freeClst), old(dp.Cur()), stretch,
                         res, fs.fat, v1, fs.view, dp.Cur())
    ensures FreeExact(old(fs.fat), old(fs.freeClst)) ==> FreeExact(fs.fat, fs.freeClst)
    ensures old(Booked(fs)) ==> Booked(fs)
    ensures NoErrorMarks(old(fs.fat)) ==> NoErrorMarks(fs.fat)
    ensures !stretch ==> fs.freeClst == old(fs.freeClst) && fs.fsiDirty == old(fs.fsiDirty)
    ensures !stretch && old(fs.winsect) < fs.disk.sectors ==> fs.winsect < fs.disk.sectors
  {
    v1 := fs.view;
    if dp.sect == 0 { return NO_FILE, v1; }
    NextAligned(dp.dptr);
    var ofs := dp.dptr + SZDIRE;
    if ofs >= MAX_DIR { dp.sect := 0; }
    if dp.sect == 0 { return NO_FILE, v1; }
    res := OK;
    if ofs % SS == 0 {
      res, v1 := NextSector(fs, dp, stretch, ofs);
      if res != OK { return; }
    }
    dp.dptr := ofs;
  }

  /** The part of dir_next where the sector changes. */
  method NextSector(fs: Volume, dp: Dir, stretch: bool, ofs: Dword) returns (res: FResult, ghost v1: seq<Byte>)
    requires fs.Ready() && Aligned(dp.Cur())
    requires ofs == dp.dptr + SZDIRE < MAX_DIR && ofs % SS == 0
    modifies fs, fs.win, fs.disk.data, dp`clust, dp`sect
    ensures fs.Ready()
    ensures NextResult(fs.geo, old(fs.fat), old(fs.view), old(fs.freeClst), old(dp.Cur()), stretch,
                       res, fs.fat, v1, fs.view,
                       if res == OK then dp.Cur().(dptr := ofs) else dp.Cur())
    ensures FreeExact(old(fs.fat), old(fs.freeClst)) ==> FreeExact(fs.fat, fs.freeClst)
    ensures old(Booked(fs)) ==> Booked(fs)
    ensures NoErrorMarks(old(fs.fat)) ==> NoErrorMarks(fs.fat)
    ensures !stretch ==> fs.freeClst == old(fs.freeClst) && fs.fsiDirty == old(fs.fsiDirty)
    ensures !stretch && old(fs.winsect) < fs.disk.sectors ==> fs.winsect < fs.disk.sectors
  {
    res, v1 := OK, fs.view;
    dp.sect := Wrap32(dp.sect + 1);
    if dp.clust == 0 {
      if ofs / SZDIRE >= fs.geo.nRootdir {
        dp.sect := 0;
        res := NO_FILE;
      }
    } else if BitAnd(ofs / SS, fs.geo.csize - 1) == 0 {
      res, v1 := NextCluster(fs, dp, stretch);
    }
  }

  /** The part of dir_next where the cluster changes. */
  method NextCluster(fs: Volume, dp: Dir, stretch: bool) returns (res: FResult, ghost v1: seq<Byte>)
    requires fs.Ready() && dp.clust != 0
    modifies fs, fs.win, fs.disk.data, dp`clust, dp`sect
    ensures fs.Ready()
    ensures var n := LinkOf(old(fs.fat), old(dp.clust));
            if n <= 1 then res == INT_ERR && fs.fat == old(fs.fat) && fs.view == old(fs.view)
            else if n < fs.geo.nFatent then
              && res == OK && fs.fat == old(fs.fat) && fs.view == old(fs.view)
              && dp.clust == n && dp.sect == Clst2Sect(fs.geo, n)
            else if !stretch then res == NO_FILE && dp.sect == 0 && fs.fat == old(fs.fat) && fs.view == old(fs.view)
            else if res == OK then
              && GrownBy(fs.geo, old(fs.fat), old(fs.view), fs.fat, v1, fs.view, old(dp.clust), dp.clust)
              && dp.sect == Clst2Sect(fs.geo, dp.clust)
            else
              && fs.fat == old(fs.fat) && fs.view == old(fs.view)
              && ((res == DENIED && (Free(fs.fat) == {} || old(fs.freeClst) == 0)) ||
                  (res == INT_ERR && !NoErrorMarks(fs.fat)))
    ensures FreeExact(old(fs.fat), old(fs.freeClst)) ==> FreeExact(fs.fat, fs.freeClst)
    ensures old(Booked(fs)) ==> Booked(fs)
    ensures NoErrorMarks(old(fs.fat)) ==> NoErrorMarks(fs.fat)
    ensures !stretch ==> fs.freeClst == old(fs.freeClst) && fs.fsiDirty == old(fs.fsiDirty)
    ensures !stretch && old(fs.winsect) < fs.disk.sectors ==> fs.winsect < fs.disk.sectors
  {
    res, v1 := OK, fs.view;
    var clst := GetFat(fs, dp.clust);
    if clst <= 1 { return INT_ERR, v1; }
    if clst == 0xFFFF_FFFF { res := DISK_ERR; }
    if clst >= fs.geo.nFatent {
      if !stretch {
        dp.sect := 0;
        return NO_FILE, v1;
      }
      res, clst, v1 := Stretch(fs, dp.clust);
      if res != OK { return; }
    }
    dp.clust := clst;
    dp.sect := Clst2Sect(fs.geo, clst);
  }

  // -------------------------------------------------------------------- scans

  /** The cursor `n` steps on, if the links go so far. */
  ghost function Path(g: Geometry, f: FatMap, c: Cursor, n: nat): Option<Cursor>
    requires g.csize > 0 && 2 <= |f|
  {
    if n == 0 then Some(c)
    else match Path(g, f, c, n - 1)
         case None => None
         case Some(d) => if 0 <= d.dptr && NextOf(g, f, d).To? then Some(NextOf(g, f, d).c) else None
  }

  lemma {:induction false} PathPlaced(g: Geometry, sectors: nat, f: FatMap, c: Cursor, n: nat)
    requires g.Valid(sectors) && |f| == g.nFatent && Placed(g, c) && Path(g, f, c, n).Some?
    ensures Placed(g, Path(g, f, c, n).value) && Path(g, f, c, n).value.dptr == c.dptr + n * SZDIRE
  {
    if n > 0 {
      PathPlaced(g, sectors, f, c, n - 1);
      NextPlaced(g, sectors, f, Path(g, f, c, n - 1).value);
    }
  }

  /** dir_sdi and dir_next agree on every FAT content: offset 32 n is where n steps from offset
      0 lead, and it is refused exactly if they do not lead anywhere. */
  lemma {:induction false} SdiIsSteps(g: Geometry, sectors: nat, f: FatMap, sclust: Dword, n: nat)
    requires g.Valid(sectors) && |f| == g.nFatent
    ensures SdiOf(g, f, sclust, n * SZDIRE) ==
              match SdiOf(g, f, sclust, 0) case None => None case Some(c) => Path(g, f, c, n)
  {
    if n > 0 {
      var p := (n - 1) * SZDIRE;
      SdiIsSteps(g, sectors, f, sclust, n - 1);
      SdiStep(g, sectors, f, sclust, p);
      if SdiOf(g, f, sclust, p).Some? { SdiOffset(g, f, sclust, p); }
      assert n * SZDIRE == p + SZDIRE;
    }
  }

  lemma SdiOffset(g: Geometry, f: FatMap, sclust: Dword, p: nat)
    requires g.csize > 0 && g.dirbase < TWO32 && SdiOf(g, f, sclust, p).Some?
    ensures SdiOf(g, f, sclust, p).value.dptr == p < MAX_DIR && p % SZDIRE == 0
  {
  }

  /** The sector number does not wrap in the next step. */
  ghost predicate Plain(c: Cursor) { Wrap32(c.sect + 1) == c.sect + 1 }

  /** Where dir_next goes from where dir_sdi went. */
  ghost function StepFrom(g: Geometry, f: FatMap, o: Option<Cursor>): Option<Cursor>
    requires g.csize > 0 && 2 <= |f|
  {
    match o
    case None => None
    case Some(c) => if 0 <= c.dptr && NextOf(g, f, c).To? then Some(NextOf(g, f, c).c) else None
  }

  lemma SdiStep(g: Geometry, sectors: nat, f: FatMap, sclust: Dword, p: nat)
    requires g.Valid(sectors) && |f| == g.nFatent && p % SZDIRE == 0
    ensures SdiOf(g, f, sclust, p + SZDIRE) == StepFrom(g, f, SdiOf(g, f, sclust, p))
  {
    if SdiOf(g, f, sclust, p).Some? { SdiPlain(g, sectors, f, sclust, p); }
    var start: Dword := if sclust == 0 && g.fsType == FAT32 then g.dirbase else sclust;
    if p + SZDIRE >= MAX_DIR {
      SdiStepLast(g, f, sclust, p);
    } else if start == 0 {
      SdiStepStatic(g, f, sclust, p);
    } else {
      StepIndex(g, p);
      if (p + SZDIRE) % SS == 0 && SectorInCluster(g, p + SZDIRE) == 0 {
        SdiStepOver(g, f, sclust, start, p);
      } else {
        SdiStepInside(g, f, sclust, start, p);
      }
    }
  }

  lemma SdiStepLast(g: Geometry, f: FatMap, sclust: Dword, p: nat)
    requires g.csize > 0 && g.dirbase < TWO32 && |f| >= 2 && p + SZDIRE >= MAX_DIR
    ensures SdiOf(g, f, sclust, p + SZDIRE) == StepFrom(g, f, SdiOf(g, f, sclust, p))
  {
    if SdiOf(g, f, sclust, p).Some? { SdiOffset(g, f, sclust, p); }
  }

  lemma SdiStepStatic(g: Geometry, f: FatMap, sclust: Dword, p: nat)
    requires g.csize > 0 && g.dirbase < TWO32 && |f| >= 2 && g.nRootdir % 16 == 0
    requires sclust == 0 && (g.fsType == FAT32 ==> g.dirbase == 0) && p % SZDIRE == 0 && p + SZDIRE < MAX_DIR
    requires SdiOf(g, f, sclust, p).Some? ==> Plain(SdiOf(g, f, sclust, p).value)
    ensures SdiOf(g, f, sclust, p + SZDIRE) == StepFrom(g, f, SdiOf(g, f, sclust, p))
  {
    NextAligned(p);
    StaticEdge(p, g.nRootdir);
  }

  /** The static table ends on a sector boundary. */
  lemma StaticEdge(p: nat, n: nat)
    requires p % SZDIRE == 0 && n % 16 == 0
    ensures (p + SZDIRE) % SZDIRE == 0 && (p + SZDIRE) / SZDIRE == p / SZDIRE + 1
    ensures p / SZDIRE < n && (p + SZDIRE) % SS != 0 ==> (p + SZDIRE) / SZDIRE < n
  {
  }

  lemma SdiPlain(g: Geometry, sectors: nat, f: FatMap, sclust: Dword, p: nat)
    requires g.Valid(sectors) && SdiOf(g, f, sclust, p).Some?
    ensures Plain(SdiOf(g, f, sclust, p).value)
  {
    SdiPlaced(g, f, sclust, p);
    PlacedOnDisk(g, sectors, SdiOf(g, f, sclust, p).value);
    Wrap32Id(SdiOf(g, f, sclust, p).value.sect + 1);
  }

  /** A chained table, and a step that stays in the cluster. */
  lemma SdiStepInside(g: Geometry, f: FatMap, sclust: Dword, start: Dword, p: nat)
    requires g.csize > 0 && IsPow2(g.csize) && g.dirbase < TWO32 && |f| == g.nFatent >= 2
    requires p % SZDIRE == 0 && p + SZDIRE < MAX_DIR && 0 <= p / g.Bcs() == (p + SZDIRE) / g.Bcs()
    requires !((p + SZDIRE) % SS == 0 && SectorInCluster(g, p + SZDIRE) == 0)
    requires start == (if sclust == 0 && g.fsType == FAT32 then g.dirbase else sclust) && start != 0
    requires SdiOf(g, f, sclust, p).Some? ==> Plain(SdiOf(g, f, sclust, p).value)
    ensures SdiOf(g, f, sclust, p + SZDIRE) == StepFrom(g, f, SdiOf(g, f, sclust, p))
  {
    NextAligned(p);
    NextSectorIs(g, p);
  }

  /** ... and one into the next cluster. */
  lemma SdiStepOver(g: Geometry, f: FatMap, sclust: Dword, start: Dword, p: nat)
    requires g.csize > 0 && IsPow2(g.csize) && g.dirbase < TWO32 && |f| == g.nFatent >= 2
    requires p % SZDIRE == 0 && p + SZDIRE < MAX_DIR && 0 <= p / g.Bcs() && (p + SZDIRE) / g.Bcs() == p / g.Bcs() + 1
    requires (p + SZDIRE) % SS == 0 && SectorInCluster(g, p + SZDIRE) == 0
    requires start == (if sclust == 0 && g.fsType == FAT32 then g.dirbase else sclust) && start != 0
    ensures SdiOf(g, f, sclust, p + SZDIRE) == StepFrom(g, f, SdiOf(g, f, sclust, p))
  {
    NextAligned(p);
    var k := p / g.Bcs();
    assert Hop(f, start, k + 1) == Onward(f, Hop(f, start, k));
  }

  /** The cluster index steps exactly where the sector number within the cluster becomes 0. */
  lemma StepIndex(g: Geometry, p: nat)
    requires g.csize > 0 && IsPow2(g.csize) && p % SZDIRE == 0
    ensures var p' := p + SZDIRE;
            var over := p' % SS == 0 && SectorInCluster(g, p') == 0;
            0 <= p / g.Bcs() && p' / g.Bcs() == p / g.Bcs() + if over then 1 else 0
  {
    var p' := p + SZDIRE;
    EntryInSector(p);
    StepPosition(g, p, SZDIRE);
    SplitPosition(g, p);
    SplitPosition(g, p');
    IndexNat(g, p);
  }

  /** What a scan looks for: a name (dir_find), or any object or volume label (dir_read). */
  datatype Goal = Named(fn: seq<Byte>) | Any(vol: bool)

  predicate Hits(goal: Goal, e: seq<Byte>)
    requires |e| == SZDIRE
  {
    match goal
    case Named(fn) => Matches(e, fn)
    case Any(vol) =>
      var attr := e[ATTR] % 64;
      e[0] != DDEM && e[0] != 0x2E && attr != 0x0F && ((attr == 0x08 || attr == 0x28) <==> vol)
  }

  /** The first `n` entries on the path of `c` neither end the table nor are hits. */
  ghost predicate PassedOver(g: Geometry, f: FatMap, v: seq<Byte>, c: Cursor, goal: Goal, n: nat)
    requires g.csize > 0 && 2 <= |f|
  {
    forall k: nat :: k < n ==> SkippedAt(g, f, v, c, goal, k)
  }

  ghost predicate SkippedAt(g: Geometry, f: FatMap, v: seq<Byte>, c: Cursor, goal: Goal, k: nat)
    requires g.csize > 0 && 2 <= |f|
  {
    Path(g, f, c, k).Some? && Shown(v, Path(g, f, c, k).value)
    && var e := EntOf(v, Path(g, f, c, k).value); e[0] != 0 && !Hits(goal, e)
  }

  ghost predicate Shown(v: seq<Byte>, c: Cursor)
  {
    0 <= c.sect && (c.sect + 1) * SS <= |v| && c.dptr % SS + SZDIRE <= SS
  }

  /** Mentioning this lets the prover look into the outcome of a scan. */
  ghost predicate UnfoldScan(k: int) { true }

  /** A scan from `c` ends with `res` at the cursor `d`, `n` steps on: at the first hit, at an end
      mark, where the table or its links end, or behind the end of the disk. */
  ghost predicate ScanEnds(g: Geometry, f: FatMap, v: seq<Byte>, c: Cursor, goal: Goal, n: nat, d: Cursor, res: FResult)
    requires g.csize > 0 && 2 <= |f|
  {
    forall u :: UnfoldScan(u) ==>
      && Path(g, f, c, n) == Some(d) && 0 <= d.dptr < MAX_DIR && PassedOver(g, f, v, c, goal, n)
      && if !Shown(v, d) then res == DISK_ERR else
         var e := EntOf(v, d);
         if e[0] == 0 then res == NO_FILE
         else if Hits(goal, e) then res == OK
         else !NextOf(g, f, d).To? && res == if NextOf(g, f, d) == Broken then INT_ERR else NO_FILE
  }

  /** The sector under the cursor is on the disk, or at least the window does not claim to show it. */
  ghost predicate Loads(fs: Volume, dp: Dir)
    reads fs, dp
  {
    dp.sect < fs.disk.sectors || dp.sect != fs.winsect
  }

  /** Loads the entry under the cursor, if the sector is on the disk. */
  method LoadAt(fs: Volume, dp: Dir) returns (res: FResult, e: seq<Byte>)
    requires fs.Ready() && Aligned(dp.Cur())
    modifies fs`wflag, fs`winsect, fs.win, fs.disk.data
    ensures fs.Ready() && |e| == SZDIRE && (res == OK || res == DISK_ERR)
    ensures dp.sect < fs.disk.sectors ==>
              res == OK && fs.winsect == dp.sect && Shown(fs.view, dp.Cur()) && e == EntOf(fs.view, dp.Cur())
    ensures dp.sect >= fs.disk.sectors ==> !Shown(fs.view, dp.Cur()) && (old(Loads(fs, dp)) ==> res == DISK_ERR)
  {
    EntryInSector(dp.dptr);
    res := MoveWindow(fs, dp.sect);
    var o := dp.dptr % SS;
    e := fs.win[..][o..o + SZDIRE];
  }

  /** The loop of dir_read, which is also that of dir_find, where the cursor is placed and never
      disabled.  On any disk content and from any cursor it changes nothing and makes at most as
      many steps as there are entries below MAX_DIR, and the outcome is exact. */
  method Scan(fs: Volume, dp: Dir, goal: Goal) returns (res: FResult, ghost n: nat, ghost d: Cursor)
    requires fs.Ready() && Aligned(dp.Cur())
    modifies fs, fs.win, fs.disk.data, dp`dptr, dp`clust, dp`sect
    ensures fs.Ready() && fs.view == old(fs.view) && fs.fat == old(fs.fat)
    ensures fs.freeClst == old(fs.freeClst) && fs.fsiDirty == old(fs.fsiDirty)
    ensures Aligned(dp.Cur()) && old(dp.dptr) + n * SZDIRE < MAX_DIR
    ensures res == OK || res == NO_FILE || res == INT_ERR || res == DISK_ERR
    ensures old(dp.sect) == 0 ==> res == NO_FILE
    ensures old(dp.sect) != 0 && old(Loads(fs, dp)) ==>
              && ScanEnds(fs.geo, fs.fat, fs.view, old(dp.Cur()), goal, n, d, res)
              && 0 <= d.dptr == old(dp.dptr) + n * SZDIRE && (res == OK ==> dp.Cur() == d)
  {
    ghost var c, clear := dp.Cur(), dp.sect != 0 && Loads(fs, dp);
    res, n, d := NO_FILE, 0, c;
    var stop := false;
    while !stop && dp.sect != 0
      invariant fs.Ready() && fs.view == old(fs.view) && fs.fat == old(fs.fat)
      invariant fs.freeClst == old(fs.freeClst) && fs.fsiDirty == old(fs.fsiDirty)
      invariant Aligned(dp.Cur()) && c.dptr + n * SZDIRE < MAX_DIR && (!stop ==> dp.dptr == c.dptr + n * SZDIRE)
      invariant res == OK || res == NO_FILE || res == INT_ERR || res == DISK_ERR
      invariant c.sect == 0 ==> dp.sect == 0 && res == NO_FILE
      invariant clear && !stop ==>
        dp.sect != 0 && Loads(fs, dp) && Scanning(fs.geo, fs.fat, fs.view, c, goal, n, dp.Cur())
      invariant clear && stop ==>
        && ScanEnds(fs.geo, fs.fat, fs.view, c, goal, n, d, res) && d.dptr == c.dptr + n * SZDIRE
        && (res == OK ==> dp.Cur() == d)
      decreases !stop, MAX_DIR - dp.dptr
    {
      res, stop, d := ScanRound(fs, dp, goal, c, n, clear);
      if !stop { n := n + 1; }
    }
  }

  /** A scan from a placed cursor stays on the disk. */
  lemma ScanPlaced(g: Geometry, sectors: nat, f: FatMap, v: seq<Byte>, c: Cursor, goal: Goal, n: nat, d: Cursor,
                   res: FResult)
    requires g.Valid(sectors) && |f| == g.nFatent && |v| == sectors * SS && Placed(g, c)
    requires ScanEnds(g, f, v, c, goal, n, d, res)
    ensures Placed(g, d) && Shown(v, d) && res != DISK_ERR
  {
    assert UnfoldScan(0);
    PathPlaced(g, sectors, f, c, n);
    PlacedOnDisk(g, sectors, d);
  }

  /** The scan from `c` has come to `d` without stopping. */
  ghost predicate Scanning(g: Geometry, f: FatMap, v: seq<Byte>, c: Cursor, goal: Goal, n: nat, d: Cursor)
    requires g.csize > 0 && 2 <= |f|
  {
    Path(g, f, c, n) == Some(d) && PassedOver(g, f, v, c, goal, n)
  }

  /** One round: stops at the entry under the cursor, or goes on to the next one. */
  method ScanRound(fs: Volume, dp: Dir, goal: Goal, ghost c: Cursor, ghost n: nat, ghost clear: bool)
    returns (res: FResult, stop: bool, ghost d: Cursor)
    requires fs.Ready() && Aligned(dp.Cur()) && dp.sect != 0
    requires clear ==> Loads(fs, dp) && Scanning(fs.geo, fs.fat, fs.view, c, goal, n, dp.Cur())
    modifies fs, fs.win, fs.disk.data, dp`dptr, dp`clust, dp`sect
    ensures fs.Ready() && fs.view == old(fs.view) && fs.fat == old(fs.fat)
    ensures fs.freeClst == old(fs.freeClst) && fs.fsiDirty == old(fs.fsiDirty)
    ensures Aligned(dp.Cur()) && (res == OK || res == NO_FILE || res == INT_ERR || res == DISK_ERR)
    ensures d == old(dp.Cur()) && (!stop ==> dp.dptr == d.dptr + SZDIRE)
    ensures clear && stop ==>
              ScanEnds(fs.geo, fs.fat, fs.view, c, goal, n, d, res) && (res == OK ==> dp.Cur() == d)
    ensures clear && !stop ==>
              dp.sect != 0 && Loads(fs, dp) && Scanning(fs.geo, fs.fat, fs.view, c, goal, n + 1, dp.Cur())
  {
    d := dp.Cur();
    var e;
    res, e := LoadAt(fs, dp);
    stop := true;
    if res != OK { return; }
    stop := e[0] == 0 || Hits(goal, e);
    if stop {
      if e[0] == 0 { res := NO_FILE; }
    } else {
      ghost var v1;
      res, v1 := NextEntry(fs, dp, false);
      assert UnfoldNext(0);
      stop := res != OK;
    }
    if clear {
      if stop {
        ScanStops(fs.geo, fs.fat, fs.view, c, goal, n, d, res);
      } else {
        ScanOn(fs.geo, fs.disk.sectors, fs.fat, fs.view, c, goal, n, d);
      }
    }
  }

  lemma ScanStops(g: Geometry, f: FatMap, v: seq<Byte>, c: Cursor, goal: Goal, n: nat, d: Cursor, res: FResult)
    requires g.csize > 0 && 2 <= |f| && 0 <= d.dptr < MAX_DIR && Shown(v, d) && Scanning(g, f, v, c, goal, n, d)
    requires var e := EntOf(v, d);
             if e[0] == 0 then res == NO_FILE
             else if Hits(goal, e) then res == OK
             else !NextOf(g, f, d).To? && res == if NextOf(g, f, d) == Broken then INT_ERR else NO_FILE
    ensures ScanEnds(g, f, v, c, goal, n, d, res)
  {
  }

  lemma ScanOn(g: Geometry, sectors: nat, f: FatMap, v: seq<Byte>, c: Cursor, goal: Goal, n: nat, d: Cursor)
    requires g.Valid(sectors) && |f| == g.nFatent && Scanning(g, f, v, c, goal, n, d)
    requires 0 <= d.dptr && 0 < d.sect < sectors && NextOf(g, f, d).To?
    requires Shown(v, d) && EntOf(v, d)[0] != 0 && !Hits(goal, EntOf(v, d))
    ensures NextOf(g, f, d).c.sect != 0 && Scanning(g, f, v, c, goal, n + 1, NextOf(g, f, d).c)
  {
    NextNotZero(g, sectors, f, d);
    assert SkippedAt(g, f, v, c, goal, n);
  }

  /** A step from a sector on the disk does not disable the cursor. */
  lemma NextNotZero(g: Geometry, sectors: nat, f: FatMap, d: Cursor)
    requires g.Valid(sectors) && |f| == g.nFatent && 0 <= d.dptr && 0 < d.sect < sectors && NextOf(g, f, d).To?
    ensures NextOf(g, f, d).c.sect != 0 && NextOf(g, f, d).c.dptr == d.dptr + SZDIRE
  {
    Wrap32Id(d.sect + 1);
    ClusterInside(g, sectors, LinkOf(f, d.clust));
  }
}
