/** f_sync, and what it is for: after it, mounting the disk again and opening the file by its name
    gives the same bytes. */
module Durable {
  import opened Bytes
  import opened Layout
  import opened DiskIo
  import opened FatBits
  import opened Window
  import opened Chains
  import opened Allocator
  import opened FileData
  import opened Files
  import opened DirTable
  import opened DirWalk
  import opened Directory
  import opened Runs
  import opened VolumeRuns
  import Mount
  import opened BootRules
  import opened Mkfs
  import opened Sync
  import opened Remount

  // ------------------------------------------------------- the directory entry

  /** Entry `e'` is `e` with the archive bit set, the access date cleared, and this time, start
      cluster and size; the high half of the cluster is there on FAT32 only. */
  ghost predicate Refreshed(e: seq<Byte>, e': seq<Byte>, is32: bool, clust: Dword, size: Dword, tm: Dword)
  {
    && |e| == |e'| == 32 && e'[..11] == e[..11]
    && (e'[11] as int == if e[11] as int / 32 % 2 == 1 then e[11] as int else e[11] as int + 32)
    && e'[12..18] == e[12..18] && e'[18] == 0 && e'[19] == 0
    && (if is32 then Num2(e', 20) == clust / 0x1_0000 else e'[20..22] == e[20..22])
    && Num4(e', 22) == tm && Num2(e', 26) == clust % 0x1_0000 && Num4(e', 28) == size
  }

  /** The start cluster, as ld_clust reads it. */
  function StartOf(e: seq<Byte>, is32: bool): Dword
    requires |e| == 32
  {
    var lo: int, hi: int := LdWord(e, 26), LdWord(e, 20);
    if is32 then lo + 0x1_0000 * hi else lo
  }

  function Refresh(e: seq<Byte>, is32: bool, clust: Dword, size: Dword, tm: Dword): (r: seq<Byte>)
    requires |e| == 32
    ensures |r| == 32
  {
    var attr: int := e[11];
    e[..11] + [if attr / 32 % 2 == 1 then attr else attr + 32] + e[12..18] + [0, 0]
      + (if is32 then WordBytes(clust / 0x1_0000) else e[20..22])
      + DwordBytes(tm) + WordBytes(clust) + DwordBytes(size)
  }

  lemma RefreshIs(e: seq<Byte>, is32: bool, clust: Dword, size: Dword, tm: Dword)
    requires |e| == 32
    ensures Refreshed(e, Refresh(e, is32, clust, size, tm), is32, clust, size, tm)
  {
    var r := Refresh(e, is32, clust, size, tm);
    assert r[22..26] == DwordBytes(tm) && r[28..32] == DwordBytes(size);
    DwordBack(r, 22, tm);
    DwordBack(r, 28, size);
    WordDigits(clust);
    WordDigits(clust / 0x1_0000);
    assert r[..11] == e[..11] && r[12..18] == e[12..18];
    assert !is32 ==> r[20..22] == e[20..22];
  }

  /** What ld_clust and f_open read back. */
  lemma RefreshedReads(e: seq<Byte>, e': seq<Byte>, is32: bool, clust: Dword, size: Dword, tm: Dword)
    requires Refreshed(e, e', is32, clust, size, tm) && (is32 || clust < 0x1_0000)
    ensures StartOf(e', is32) == clust && LdDword(e', 28) == size
    ensures IsObject(e) ==> IsObject(e') && NameOf(e') == NameOf(e)
  {
    assert e[0] == e[..11][0] && e'[0] == e'[..11][0];
    assert clust == clust / 0x1_0000 * 0x1_0000 + clust % 0x1_0000;
  }

  // ------------------------------------------------------------------- f_sync

  /** In table `t'` entry `k` of `t` has been refreshed, and nothing else (to be looked at through
      `UnfoldMap`). */
  ghost predicate Rewritten(t: seq<Byte>, t': seq<Byte>, k: nat, is32: bool, clust: Dword, size: Dword, tm: Dword)
  {
    forall u :: UnfoldMap(u) ==>
      DiffersAt(t, t', k) && Refreshed(Ent(t, k), Ent(t', k), is32, clust, size, tm)
  }

  /** Writes start, size and time of the file into its directory entry, in the window. */
  method PutEntry(fs: Volume, fp: File, dp: Dir, tm: Dword) returns (res: FResult)
    requires Sound(fs) && dp.Inv(fs.geo, fs.fat) && dp.At(fs.geo)
    modifies fs`wflag, fs`winsect, fs`view, fs`fat, fs.win, fs.disk.data
    ensures Sound(fs) && res == OK && fs.fat == old(fs.fat)
    ensures DirFrame(fs.geo, fs.fat, old(fs.view), dp.chain, fs.fat, fs.view, dp.chain)
    ensures Rewritten(old(T(fs, dp)), T(fs, dp), dp.dptr / SZDIRE, fs.geo.fsType == FAT32, fp.sclust, fp.objsize, tm)
  {
    ghost var t := T(fs, dp);
    var e;
    res, e := LoadEnt(fs, dp);
    if res != OK { return; }
    var e' := Refresh(e, fs.geo.fsType == FAT32, fp.sclust, fp.objsize, tm);
    RefreshIs(e, fs.geo.fsType == FAT32, fp.sclust, fp.objsize, tm);
    StoreEnt(fs, dp, 0, e');
    assert UnfoldFrame(0);
    ReplacedEnt(t, T(fs, dp), dp.dptr, e');
  }

  /** f_sync of a file whose directory entry is under the cursor `dp`.  `v1` is the logical disk with
      the entry written and the FSInfo record not yet. */
  method FSync(fs: Volume, fp: File, dp: Dir, tm: Dword) returns (res: FResult, ghost v1: seq<Byte>)
    requires Sound(fs) && dp.Inv(fs.geo, fs.fat) && dp.At(fs.geo) && (fs.fsInfo ==> fs.geo.volbase + 1 < fs.geo.fatbase)
    modifies fs`wflag, fs`winsect, fs`fsiDirty, fs`view, fs`fat, fs.win, fs.disk.data, fs.ledger, fp`modified
    ensures Sound(fs) && res == OK && !fp.modified && fs.fat == old(fs.fat)
    ensures !old(fp.modified) ==>
              fs.view == v1 == old(fs.view) && fs.fsiDirty == old(fs.fsiDirty) && fs.ledger.free == old(fs.ledger.free)
    ensures old(fp.modified) ==>
              && !fs.wflag && fs.disk.data[..] == fs.view && !Outdated(fs) && |v1| == |old(fs.view)|
              && DirFrame(fs.geo, fs.fat, old(fs.view), dp.chain, fs.fat, v1, dp.chain)
              && Rewritten(Seen(fs.geo, old(fs.view), dp.chain), Seen(fs.geo, v1, dp.chain), dp.dptr / SZDIRE,
                           fs.geo.fsType == FAT32, fp.sclust, fp.objsize, tm)
              && Settling(fs.geo, v1, fs.view, old(Outdated(fs)), fs.freeClst, fs.lastClst,
                          old(fs.ledger.free), fs.ledger.free)
  {
    res, v1 := OK, fs.view;
    if fp.modified {
      res := PutEntry(fs, fp, dp, tm);
      if res == OK {
        v1 := fs.view;
        res := SyncFs(fs);
        fp.modified := false;
      }
    }
  }

  /** From `v` to `v'` the record has been written if it was outdated. */
  ghost predicate Settling(g: Geometry, v: seq<Byte>, v': seq<Byte>, outdated: bool, free: Dword, last: Dword,
                           was: Dword, now: Dword)
  {
    if outdated then RecordedAt(v, v', g.volbase + 1, free, last) && now == free else v' == v && now == was
  }

  // ------------------------------------------------------ f_sync with files open

  /** The record is no part of any chain ... */
  lemma SettledContent(g: Geometry, f: FatMap, v: seq<Byte>, v': seq<Byte>, ch: seq<Dword>, n: nat,
                       outdated: bool, free: Dword, last: Dword, was: Dword, now: Dword)
    requires g.Valid(|v| / SS) && |f| == g.nFatent && IsChain(f, ch) && (outdated ==> g.volbase + 1 < g.fatbase)
    requires Settling(g, v, v', outdated, free, last, was, now)
    ensures Content(g, v', ch, n) == Content(g, v, ch, n)
  {
    assert UnfoldRecord(0);
    forall p: nat | p < n ensures ByteAt(g, v', ch, p) == ByteAt(g, v, ch, p) {
      IndexNat(g, p);
      if p / g.Bcs() < |ch| { ClusterWithin(g, ch[p / g.Bcs()]); }
    }
  }

  /** ... and of no directory table. */
  lemma SettledTable(g: Geometry, f: FatMap, v: seq<Byte>, v': seq<Byte>, ch: seq<Dword>,
                     outdated: bool, free: Dword, last: Dword, was: Dword, now: Dword)
    requires g.Valid(|v| / SS) && |v'| == |v| && |f| == g.nFatent && IsChain(f, ch)
    requires outdated ==> g.volbase + 1 < g.fatbase
    requires Settling(g, v, v', outdated, free, last, was, now)
    ensures Seen(g, v', ch) == Seen(g, v, ch)
  {
    if ch == [] {
      assert UnfoldRecord(0);
      assert Table(g, v', ch) == Table(g, v, ch);
    } else {
      SettledContent(g, f, v, v', ch, |ch| * g.Bcs(), outdated, free, last, was, now);
    }
  }

  lemma SettledSystem(g: Geometry, f: FatMap, v: seq<Byte>, v': seq<Byte>, xs: seq<Fil>, rest: seq<seq<Dword>>,
                      outdated: bool, free: Dword, last: Dword, was: Dword, now: Dword)
    requires g.Valid(|v| / SS) && |f| == g.nFatent && Consistent(g, f, v, xs, rest)
    requires Settling(g, v, v', outdated, free, last, was, now)
    requires outdated ==> g.fsType == FAT32 && g.volbase + 1 < g.fatbase
    ensures Consistent(g, f, v', xs, rest) && RestKept(g, v, v', rest)
    ensures AbsState(g, f, v', xs, []).files == AbsState(g, f, v, xs, []).files
  {
    if outdated { RecordAndFat(g, v, v', free, last); }
    forall j | 0 <= j < |xs| ensures AbsOf(g, v', xs[j]) == AbsOf(g, v, xs[j]) {
      assert IsChain(f, Live(xs, rest)[j]);
      SettledContent(g, f, v, v', xs[j].chain, xs[j].objsize, outdated, free, last, was, now);
    }
    forall r, n: nat | 0 <= r < |rest| ensures Content(g, v', rest[r], n) == Content(g, v, rest[r], n) {
      RestChain(f, xs, rest, r);
      SettledContent(g, f, v, v', rest[r], n, outdated, free, last, was, now);
    }
  }

  lemma OthersThenRest(g: Geometry, v: seq<Byte>, v1: seq<Byte>, v': seq<Byte>, rest: seq<seq<Dword>>, r: nat)
    requires g.csize > 0 && OthersKept(g, v, v1, rest, r) && RestKept(g, v1, v', rest)
    ensures OthersKept(g, v, v', rest, r)
  {
    forall q, n: nat | 0 <= q < |rest| && q != r ensures Content(g, v', rest[q], n) == Content(g, v, rest[q], n) {
      assert Content(g, v', rest[q], n) == Content(g, v1, rest[q], n);
    }
  }

  lemma SettledStands(g: Geometry, v: seq<Byte>, v1: seq<Byte>, v': seq<Byte>, root: bool, info: bool,
                      outdated: bool, free: Dword, last: Dword, was: Dword, now: Dword)
    requires Stands(v, g, info, was) && g.Valid(|v| / SS) && |v1| == |v| && AreaKept(g, v, v1, root)
    requires Settling(g, v1, v', outdated, free, last, was, now) && (outdated ==> info)
    requires info ==> g.volbase + 1 < g.fatbase
    ensures Stands(v', g, info, now)
  {
    StandsKept(g, v, v1, root, info, was);
    if outdated { StandsRecorded(g, v1, v', was, free, last); }
  }

  /** The whole step from `v` over `v1` to `v'`: the entry, then the record. */
  lemma SyncStep(g: Geometry, f: FatMap, v: seq<Byte>, v1: seq<Byte>, v': seq<Byte>, xs: seq<Fil>,
                 rest: seq<seq<Dword>>, r: nat,
                 info: bool, outdated: bool, free: Dword, last: Dword, was: Dword, now: Dword)
    requires g.Valid(|v| / SS) && |v1| == |v| && |f| == g.nFatent && r < |rest| && Consistent(g, f, v, xs, rest)
    requires DirFrame(g, f, v, rest[r], f, v1, rest[r]) && Settling(g, v1, v', outdated, free, last, was, now)
    requires outdated ==> info && g.fsType == FAT32
    requires info ==> g.volbase + 1 < g.fatbase
    ensures Consistent(g, f, v', xs, rest) && OthersKept(g, v, v', rest, r) && |v'| == |v|
    ensures AbsState(g, f, v', xs, []).files == AbsState(g, f, v, xs, []).files
    ensures Seen(g, v', rest[r]) == Seen(g, v1, rest[r])
    ensures Stands(v, g, info, was) ==> Stands(v', g, info, now)
  {
    RestChain(f, xs, rest, r);
    DirStep(g, f, v, xs, rest, r, f, v1, rest[r]);
    assert rest[r := rest[r]] == rest;
    SettledSystem(g, f, v1, v', xs, rest, outdated, free, last, was, now);
    OthersThenRest(g, v, v1, v', rest, r);
    SettledTable(g, f, v1, v', rest[r], outdated, free, last, was, now);
    DirArea(g, f, v, rest[r], f, v1, rest[r]);
    if Stands(v, g, info, was) { SettledStands(g, v, v1, v', rest[r] != [], info, outdated, free, last, was, now); }
  }

  lemma SameBytes(g: Geometry, f: FatMap, v: seq<Byte>, v': seq<Byte>, xs: seq<Fil>, j: nat)
    requires g.csize > 0 && j < |xs| && AbsState(g, f, v', xs, []).files == AbsState(g, f, v, xs, []).files
    ensures xs[j].Bytes(g, v') == xs[j].Bytes(g, v)
  {
    assert AbsState(g, f, v', xs, []).files[j] == AbsState(g, f, v, xs, []).files[j];
  }

  /** f_sync with files open: nothing changes but the entry of the file and the record. */
  method SyncFile(fs: Volume, ghost files: seq<File>, fp: File, dp: Dir, tm: Dword, ghost rest: seq<seq<Dword>>,
                  ghost r: nat)
    returns (res: FResult)
    requires System(fs, files, rest) && fp in files
    requires dp.Inv(fs.geo, fs.fat) && dp.At(fs.geo) && r < |rest| && rest[r] == dp.chain
    requires fs.fsInfo ==> fs.geo.volbase + 1 < fs.geo.fatbase
    modifies fs`wflag, fs`winsect, fs`fsiDirty, fs`view, fs`fat, fs.win, fs.disk.data, fs.ledger, fp`modified
    ensures System(fs, files, rest) && AbsFiles(fs, files) == old(AbsFiles(fs, files))
    ensures Vals(files) == old(Vals(files)) && fp.Bytes(fs.geo, fs.view) == old(fp.Bytes(fs.geo, fs.view))
    ensures res == OK && !fp.modified && fs.fat == old(fs.fat) && OthersKept(fs.geo, old(fs.view), fs.view, rest, r)
    ensures old(Stands(fs.view, fs.geo, fs.fsInfo, fs.ledger.free)) ==>
              Stands(fs.view, fs.geo, fs.fsInfo, fs.ledger.free)
    ensures !old(fp.modified) ==> fs.view == old(fs.view)
    ensures old(fp.modified) ==>
              && !fs.wflag && fs.disk.data[..] == fs.view && !Outdated(fs)
              && Rewritten(old(T(fs, dp)), T(fs, dp), dp.dptr / SZDIRE, fs.geo.fsType == FAT32, fp.sclust,
                           fp.objsize, tm)
  {
    ghost var g, f, v, xs := fs.geo, fs.fat, fs.view, Vals(files);
    ghost var outdated, was := Outdated(fs), fs.ledger.free;
    var modified := fp.modified;
    ghost var v1;
    res, v1 := FSync(fs, fp, dp, tm);
    assert Vals(files) == xs;
    if modified {
      SyncStep(g, f, v, v1, fs.view, xs, rest, r, fs.fsInfo, outdated, fs.freeClst, fs.lastClst, was, fs.ledger.free);
      ghost var j :| 0 <= j < |files| && files[j] == fp;
      SameBytes(g, f, v, fs.view, xs, j);
    }
  }

  // --------------------------------------------------------- mounting it again

  /** A free count that was exact, or is not on the disk, is exact or unknown after mounting. */
  lemma CountIsExact(g: Geometry, f: FatMap, v: seq<Byte>, info: bool, dirty: bool, free: Dword, noted: Dword)
    requires |f| == g.nFatent >= 2 && g.nFatent <= 0xFFFF_FFFF && Stands(v, g, info, noted) && FreeExact(f, free)
    requires dirty || free == noted || noted > g.nFatent - 2
    requires !(dirty && info) && |v| >= SS
    ensures FreeExact(f, noted)
  {
    assert UnfoldStands(0);
    Mount.UnusedIsUnknown(v);
  }

  /** mount_volume on the disk of a volume that has been synced: the same layout, the same bytes, the
      same FAT, and a free count that is right or unknown. */
  method MountAgain(fs: Volume, win: array<Byte>) returns (fs': Volume)
    requires Sound(fs) && !fs.wflag && fs.disk.data[..] == fs.view && !Outdated(fs)
    requires Stands(fs.view, fs.geo, fs.fsInfo, fs.ledger.free)
    requires win.Length == SS && win != fs.disk.data
    modifies win
    ensures fresh(fs') && fresh(fs'.ledger) && fs'.disk == fs.disk && fs'.win == win && fs'.geo == fs.geo
    ensures Sound(fs') && !fs'.wflag && fs'.view == fs.view && fs'.fat == fs.fat && fs'.fsInfo == fs.fsInfo
    ensures Stands(fs'.view, fs'.geo, fs'.fsInfo, fs'.ledger.free)
  {
    assert UnfoldStands(0) && UnfoldFat(0);
    CountIsExact(fs.geo, fs.fat, fs.view, fs.fsInfo, fs.fsiDirty, fs.freeClst, fs.ledger.free);
    var r, winsect := Mount.MountVolume(fs.disk, win);
    fs' := new Volume(fs.disk, r.m.geo, win, winsect, r.m.freeClst, r.m.lastClst, r.m.fsiFlag == 0);
  }

  /** On a freshly mounted volume every chain belongs to the rest. */
  lemma NothingOpen(g: Geometry, f: FatMap, v: seq<Byte>, xs: seq<Fil>, rest: seq<seq<Dword>>)
    requires Consistent(g, f, v, xs, rest)
    ensures Consistent(g, f, v, [], Live(xs, rest))
  {
    assert Live([], Live(xs, rest)) == Live(xs, rest);
  }

  /** Entry `k` of a well-formed table is an object with the name `fn` (to be looked at through
      `UnfoldMap`). */
  ghost predicate IsEntryOf(t: seq<Byte>, k: nat, fn: seq<Byte>)
  {
    forall u :: UnfoldMap(u) ==>
      k < Count(t) && WellFormed(t) && IsObject(Ent(t, k)) && NameOf(Ent(t, k)) == fn
  }

  /** The name is bound to an entry with this start and size (to be looked at through `UnfoldMap`). */
  ghost predicate Names(t: seq<Byte>, fn: seq<Byte>, is32: bool, clust: Dword, size: Dword)
  {
    forall u :: UnfoldMap(u) ==>
      && WellFormed(t) && ProperName(fn) && fn in DirMap(t) && |DirMap(t)[fn]| == 32
      && StartOf(DirMap(t)[fn], is32) == clust && LdDword(DirMap(t)[fn], 28) == size
  }

  /** f_sync rebinds the name to its refreshed entry, which holds start and size of the file, and
      keeps all other bindings. */
  lemma BoundAgain(t: seq<Byte>, t': seq<Byte>, k: nat, fn: seq<Byte>, is32: bool, clust: Dword, size: Dword, tm: Dword)
    requires Rewritten(t, t', k, is32, clust, size, tm) && (is32 || clust < 0x1_0000) && IsEntryOf(t, k, fn)
    ensures Names(t', fn, is32, clust, size) && fn in DirMap(t) && fn in DirMap(t')
    ensures DirMap(t') == DirMap(t)[fn := DirMap(t')[fn]]
    ensures Refreshed(DirMap(t)[fn], DirMap(t')[fn], is32, clust, size, tm)
  {
    assert UnfoldMap(0);
    RefreshedReads(Ent(t, k), Ent(t', k), is32, clust, size, tm);
    UpdateEntry(t, t', k);
    MapToHas(t, Count(t), k);
  }

  /** ... so that the synced file can be found. */
  lemma NamedAgain(t: seq<Byte>, t': seq<Byte>, k: nat, fn: seq<Byte>, is32: bool, clust: Dword, size: Dword, tm: Dword)
    requires Rewritten(t, t', k, is32, clust, size, tm) && (is32 || clust < 0x1_0000) && IsEntryOf(t, k, fn)
    ensures Names(t', fn, is32, clust, size)
  {
    BoundAgain(t, t', k, fn, is32, clust, size, tm);
  }

  /** Looks a name up in a directory and loads its entry. */
  method Lookup(fs: Volume, sclust: Dword, fn: seq<Byte>, ghost ch: seq<Dword>, ghost clust: Dword, ghost size: Dword)
    returns (e: seq<Byte>)
    requires Sound(fs) && TableOf(fs.geo, fs.fat, sclust, ch)
    requires Names(Seen(fs.geo, fs.view, ch), fn, fs.geo.fsType == FAT32, clust, size)
    modifies fs, fs.win, fs.disk.data
    ensures Sound(fs) && fs.view == old(fs.view) && fs.fat == old(fs.fat)
    ensures |e| == 32 && StartOf(e, fs.geo.fsType == FAT32) == clust && LdDword(e, 28) == size
  {
    NamedProperly(Seen(fs.geo, fs.view, ch), fn, fs.geo.fsType == FAT32, clust, size);
    var dp := new Dir(sclust, fn, ch);
    var res;
    ghost var n, d;
    res, n, d := DirFind(fs, dp);
    FoundNamed(fs.geo, fs.view, ch, fn, d, res, clust, size);
    res, e := LoadEnt(fs, dp);
  }

  lemma NamedProperly(t: seq<Byte>, fn: seq<Byte>, is32: bool, clust: Dword, size: Dword)
    requires Names(t, fn, is32, clust, size)
    ensures |fn| == NAME
  {
    assert UnfoldMap(0);
  }

  lemma FoundNamed(g: Geometry, v: seq<Byte>, ch: seq<Dword>, fn: seq<Byte>, d: Cursor, res: FResult,
                   clust: Dword, size: Dword)
    requires g.Valid(|v| / SS) && LookedUp(g, v, ch, fn, d, res)
    requires Names(Seen(g, v, ch), fn, g.fsType == FAT32, clust, size)
    ensures res == OK && 0 <= d.dptr && AtPos(g, ch, d.dptr, d.clust, d.sect)
    ensures d.dptr / SZDIRE < Count(Seen(g, v, ch))
    ensures var e := Ent(Seen(g, v, ch), d.dptr / SZDIRE);
            StartOf(e, g.fsType == FAT32) == clust && LdDword(e, 28) == size
  {
    assert UnfoldMap(0) && UnfoldFrame(0);
  }

  lemma SmallCluster(g: Geometry, sectors: nat, f: FatMap, x: Fil)
    requires g.Valid(sectors) && |f| == g.nFatent && x.Inv(g, f)
    ensures g.fsType == FAT32 || x.sclust < 0x1_0000
    ensures x.sclust == Nth(x.chain, 0) && x.objsize <= |x.chain| * g.Bcs()
  {
    assert UnfoldFil(0);
  }

  /** With nothing but the disk of a synced volume: mount, look the name up and open what is found. */
  method Reopen(fs: Volume, ghost xs: seq<Fil>, ghost i: nat, sclust: Dword, fn: seq<Byte>, ghost ch: seq<Dword>,
                ghost rest: seq<seq<Dword>>, win: array<Byte>)
    returns (fs': Volume, fp': File)
    requires Sound(fs) && !fs.wflag && fs.disk.data[..] == fs.view && !Outdated(fs)
    requires Stands(fs.view, fs.geo, fs.fsInfo, fs.ledger.free)
    requires i < |xs| && Consistent(fs.geo, fs.fat, fs.view, xs, rest)
    requires TableOf(fs.geo, fs.fat, sclust, ch)
    requires Names(Seen(fs.geo, fs.view, ch), fn, fs.geo.fsType == FAT32, xs[i].sclust, xs[i].objsize)
    requires win.Length == SS && win != fs.disk.data
    modifies fs.disk.data, win
    ensures fresh(fs') && fresh(fs'.ledger) && fresh(fp')
    ensures fs'.disk == fs.disk && fs'.geo == fs.geo && fs'.fat == fs.fat && fs'.view == fs.view
    ensures fs'.fsInfo == fs.fsInfo
    ensures System(fs', [fp'], Without(Live(xs, rest), i))
    ensures AbsFiles(fs', [fp']) == [AbsFile(Content(fs.geo, fs.view, xs[i].chain, xs[i].objsize), 0, true, true)]
    ensures Stands(fs'.view, fs'.geo, fs'.fsInfo, fs'.ledger.free)
  {
    SmallCluster(fs.geo, fs.disk.sectors, fs.fat, xs[i]);
    NothingOpen(fs.geo, fs.fat, fs.view, xs, rest);
    fs' := MountAgain(fs, win);
    var e := Lookup(fs', sclust, fn, ch, xs[i].sclust, xs[i].objsize);
    assert Vals([]) == [];
    var res;
    res, fp' := OpenFile(fs', [], StartOf(e, fs'.geo.fsType == FAT32), LdDword(e, 28), true, true, false,
                         Live(xs, rest), i);
    assert [] + [fp'] == [fp'];
  }

  /** f_sync of a file that was written to, and then only the disk is left: the file that is opened
      by its name has the same bytes, and every other chain is still there. */
  method SyncAndReopen(fs: Volume, ghost files: seq<File>, fp: File, ghost i: nat, dp: Dir, tm: Dword,
                       ghost rest: seq<seq<Dword>>, ghost r: nat, win: array<Byte>)
    returns (fs': Volume, fp': File)
    requires System(fs, files, rest) && i < |files| && files[i] == fp && fp.modified
    requires dp.Inv(fs.geo, fs.fat) && dp.At(fs.geo) && r < |rest| && rest[r] == dp.chain
    requires IsEntryOf(T(fs, dp), dp.dptr / SZDIRE, dp.fn)
    requires Standing(fs)
    requires win.Length == SS && win != fs.disk.data
    modifies fs`wflag, fs`winsect, fs`fsiDirty, fs`view, fs`fat, fs.win, fs.disk.data, fs.ledger, fp`modified, win
    ensures fresh(fs') && fresh(fp') && fs'.disk == fs.disk && fs'.geo == fs.geo && fs'.fat == old(fs.fat)
    ensures System(fs', [fp'], Without(Live(old(Vals(files)), rest), i))
    ensures AbsFiles(fs', [fp']) == [AbsFile(old(fp.Bytes(fs.geo, fs.view)), 0, true, true)]
    ensures OthersKept(fs.geo, old(fs.view), fs'.view, rest, r)
    ensures Standing(fs')
  {
    ghost var t, xs := T(fs, dp), Vals(files);
    SmallCluster(fs.geo, fs.disk.sectors, fs.fat, xs[i]);
    var _ := SyncFile(fs, files, fp, dp, tm, rest, r);
    NamedAgain(t, T(fs, dp), dp.dptr / SZDIRE, dp.fn, fs.geo.fsType == FAT32, xs[i].sclust, xs[i].objsize, tm);
    fs', fp' := Reopen(fs, xs, i, dp.sclust, dp.fn, dp.chain, rest, win);
  }

  // ------------------------------------------------------------ the whole story

  /** File operations do not touch a directory that is not among the open files. */
  lemma TableStill(g: Geometry, v: seq<Byte>, v': seq<Byte>, rest: seq<seq<Dword>>, r: nat)
    requires g.Valid(|v| / SS) && |v'| == |v| && r < |rest| && RestKept(g, v, v', rest) && AreaKept(g, v, v', true)
    ensures Seen(g, v', rest[r]) == Seen(g, v, rest[r])
  {
    if rest[r] == [] {
      assert UnfoldArea(0);
      var lo := g.FatEnd() * SS;
      assert g.nRootdir * SZDIRE == g.nRootdir / 16 * SS;
      assert forall a :: lo <= a < lo + g.nRootdir * SZDIRE ==> OffLimits(g, a, true);
      assert Table(g, v', []) == Table(g, v, []);
    } else {
      assert Content(g, v', rest[r], |rest[r]| * g.Bcs()) == Content(g, v, rest[r], |rest[r]| * g.Bcs());
    }
  }

  /** Any run of operations, then f_sync of one file, and then only the disk is left: the file that is
      opened by its name holds what the abstract machine says it holds.  There is nothing to sync only
      if the file has not been written to. */
  method RunAndReopen(fs: Volume, files: seq<File>, ops: seq<Op>, fp: File, ghost i: nat, dp: Dir, tm: Dword,
                      ghost rest: seq<seq<Dword>>, ghost r: nat, win: array<Byte>)
    returns (outs: seq<seq<Byte>>, ghost trace: seq<Abs>, fs': Volume?, fp': File?, ghost rest': seq<seq<Dword>>)
    requires System(fs, files, rest) && i < |files| && files[i] == fp
    requires forall k :: 0 <= k < |ops| && ops[k].Write? ==> |ops[k].data| < TWO32
    requires dp.Inv(fs.geo, fs.fat) && dp.At(fs.geo) && r < |rest| && rest[r] == dp.chain
    requires IsEntryOf(T(fs, dp), dp.dptr / SZDIRE, dp.fn)
    requires Standing(fs)
    requires win.Length == SS && win != fs.disk.data && win != fs.win
    modifies fs, fs.win, fs.disk.data, fs.ledger, files, win
    ensures IsRun(trace, ops) && trace[0] == old(AbsState(fs.geo, fs.fat, fs.view, Vals(files), []))
    ensures |outs| == |ops| && forall k :: 0 <= k < |ops| ==> outs[k] == trace[k + 1].out
    ensures i < |trace[|ops|].files|
    ensures fs' == null <==> fp' == null
    ensures old(fp.modified) ==> fs' != null
    ensures old(fp.writable) && (exists k :: 0 <= k < |ops| && ops[k].Write? && ops[k].file == i) ==> fs' != null
    ensures fs' != null && fp' != null ==>
              && fresh(fs') && fresh(fp') && fs'.disk == fs.disk && fs'.geo == fs.geo
              && System(fs', [fp'], rest')
              && AbsFiles(fs', [fp']) == [AbsFile(trace[|ops|].files[i].bytes, 0, true, true)]
              && Standing(fs')
  {
    ghost var v, t := fs.view, T(fs, dp);
    assert fs.geo.Valid(|v| / SS);
    outs, trace := Run(fs, files, ops, rest);
    StandsKept(fs.geo, v, fs.view, true, fs.fsInfo, fs.ledger.free);
    TableStill(fs.geo, v, fs.view, rest, r);
    RestChain(fs.fat, Vals(files), rest, r);
    fs', fp', rest' := null, null, Without(Live(Vals(files), rest), i);
    if fp.modified {
      fs', fp' := SyncAndReopen(fs, files, fp, i, dp, tm, rest, r, win);
    }
  }
}
