/** create_chain, remove_chain and the free-cluster count (f_getfree). */
module Allocator {
  import opened Bytes
  import opened Layout
  import opened DiskIo
  import opened Window
  import opened FatBits
  import opened FatCodec
  import opened Chains

  /** End-of-chain mark as it reads back. */
  ghost function Eoc(g: Geometry): Dword { Mask(g.fsType, 0xFFFF_FFFF) }

  /** It can be taken neither for a cluster number nor for an error code. */
  lemma EocIsEnd(g: Geometry, sectors: nat)
    requires g.Valid(sectors)
    ensures g.nFatent <= Eoc(g) < 0xFFFF_FFFF
    ensures forall c: Dword :: c < g.nFatent ==> Mask(g.fsType, c) == c
  {
  }

  /** The cluster number that reports an error. */
  function ErrorCode(res: FResult): Dword { if res == DISK_ERR then 0xFFFF_FFFF else 1 }

  /** Circular search for a free cluster, starting behind `scl`. */
  method FindFree(fs: Volume, scl: Dword) returns (ncl: Dword)
    requires fs.Ready() && 1 <= scl < fs.geo.nFatent
    modifies fs`wflag, fs`winsect, fs.win, fs.disk.data
    ensures fs.Ready() && Hunted(fs.fat, scl, ncl)
  {
    ghost var f := fs.fat;
    var n := fs.geo.nFatent;
    ncl := scl;
    ghost var wrapped := false;
    while true
      invariant fs.Ready() && fs.fat == f
      invariant if wrapped then 2 <= ncl < scl else scl <= ncl < n
      invariant forall c :: 2 <= c < n && Passed(scl, ncl, wrapped, c) ==> f[c] > 1
      decreases !wrapped, n - ncl
    {
      ncl := ncl + 1;
      if ncl >= n {
        ncl := 2;
        wrapped := true;
        if ncl > scl { return 0; }
      }
      var cs := GetFat(fs, ncl);
      if cs == 0 { return; }
      if cs == 1 || cs == 0xFFFF_FFFF {
        assert First(f, scl, ncl, 1);
        return cs;
      }
      if ncl == scl { return 0; }
    }
  }

  /** The clusters the search has looked at so far. */
  ghost predicate Passed(scl: int, ncl: int, wrapped: bool, c: int)
  {
    if wrapped then c > scl || c <= ncl else scl < c <= ncl
  }

  /** Going round the clusters from the one behind `scl` to `scl` itself, `c` comes before `d`. */
  ghost predicate Before(scl: int, c: int, d: int)
  {
    if d > scl then scl < c < d else c > scl || c < d
  }

  /** On that way, `c` is the first cluster whose entry is 0 or 1, and its entry is `val`. */
  ghost predicate First(f: FatMap, scl: int, c: int, val: Dword)
  {
    2 <= c < |f| && f[c] == val && forall d :: 2 <= d < |f| && Before(scl, d, c) ==> f[d] > 1
  }

  /** The answer of the search: the first free cluster behind `scl`; 1 if an error mark comes
      first; 0 if there is neither. */
  ghost predicate Hunted(f: FatMap, scl: int, ncl: Dword)
  {
    if ncl == 0 then forall c :: 2 <= c < |f| ==> f[c] > 1
    else if ncl == 1 then exists c :: First(f, scl, c, 1)
    else First(f, scl, ncl, 0)
  }

  /** Which cluster create_chain takes.  A new chain starts behind the cluster taken last.  A chain
      goes on right behind its end if that cluster is free, else behind the cluster taken last, if
      that is known, else behind its end. */
  ghost predicate Picked(f: FatMap, clst: Dword, last: Dword, ncl: Dword)
    requires |f| >= 3 && clst < |f|
  {
    if clst == 0 then Hunted(f, if 1 <= last < |f| then last else 1, ncl)
    else
      var next := if clst + 1 < |f| then clst + 1 else 2;
      if f[next] <= 1 then ncl == if f[next] == 0 then next else 1
      else Hunted(f, if 2 <= last < |f| then last else clst, ncl)
  }

  lemma PickedIsFree(f: FatMap, clst: Dword, last: Dword, ncl: Dword)
    requires |f| >= 3 && clst < |f| && Picked(f, clst, last, ncl)
    ensures ncl == 0 ==> Free(f) == {}
    ensures ncl == 1 ==> !NoErrorMarks(f)
    ensures ncl >= 2 ==> ncl < |f| && f[ncl] == 0
  {
  }

  /** Where create_chain puts the new cluster when stretching: right behind `clst`
      if that is free, else behind the last allocated cluster. */
  method PickCluster(fs: Volume, clst: Dword, start: Dword) returns (ncl: Dword)
    requires fs.Ready() && Starts(fs.geo.nFatent, clst, fs.lastClst, start)
    modifies fs`wflag, fs`winsect, fs.win, fs.disk.data
    ensures fs.Ready() && Picked(fs.fat, clst, fs.lastClst, ncl)
  {
    var scl := start;
    ncl := 0;
    if scl == clst {
      ncl := scl + 1;
      if ncl >= fs.geo.nFatent { ncl := 2; }
      var cs := GetFat(fs, ncl);
      if cs == 1 || cs == 0xFFFF_FFFF { return cs; }
      if cs != 0 {
        cs := fs.lastClst;
        if cs >= 2 && cs < fs.geo.nFatent { scl := cs; }
        ncl := 0;
      }
    }
    if ncl == 0 {
      ncl := FindFree(fs, scl);
    }
  }

  /** Where the search starts. */
  ghost predicate Starts(n: nat, clst: Dword, last: Dword, scl: Dword)
  {
    && 1 <= scl < n
    && if clst == 0 then scl == if 1 <= last < n then last else 1 else clst == scl >= 2
  }

  /** A chain can be stretched behind `clst`, or begun. */
  ghost predicate Ends(f: FatMap, clst: Dword)
  {
    clst == 0 || (2 <= clst < |f| && f[clst] >= |f|)
  }

  /** What create_chain may answer, in terms of the FAT before (`f`) and after (`f'`). */
  ghost predicate Created(f: FatMap, f': FatMap, clst: Dword, eoc: Dword, ncl: Dword)
    requires |f'| == |f|
  {
    if ncl < 2 then f' == f
    else if clst != 0 && clst < |f| && 2 <= f[clst] < |f| then ncl == f[clst] && f' == f
    else && ncl < |f| && f[ncl] == 0 && Ends(f, clst)
         && f' == Stretched(f, clst, ncl, eoc)
  }

  /** create_chain: 0 no free cluster, 1 internal error, >= 2 the next cluster. */
  method CreateChain(fs: Volume, clst: Dword) returns (ncl: Dword)
    requires fs.Ready()
    modifies fs, fs.win, fs.disk.data
    ensures fs.Ready() && FatUpdated(fs.geo, old(fs.view), fs.view)
    ensures ncl < 2 ==> fs.view == old(fs.view)
    ensures Created(old(fs.fat), fs.fat, clst, Eoc(fs.geo), ncl)
    ensures ncl == 0 ==> Free(fs.fat) == {} || old(fs.freeClst) == 0
    ensures ncl == 0 && clst != 0 ==> 2 <= clst < fs.geo.nFatent && fs.fat[clst] >= fs.geo.nFatent
    ensures ncl == 1 ==> !NoErrorMarks(fs.fat)
                         || (clst != 0 && (clst < 2 || clst >= fs.geo.nFatent || fs.fat[clst] == 0))
    ensures FreeExact(old(fs.fat), old(fs.freeClst)) ==> FreeExact(fs.fat, fs.freeClst)
    ensures NoErrorMarks(old(fs.fat)) ==> NoErrorMarks(fs.fat)
    ensures Ends(old(fs.fat), clst) && old(fs.freeClst) != 0 ==>
              Picked(old(fs.fat), clst, old(fs.lastClst), ncl)
    ensures fs.lastClst == if ncl >= 2 && Ends(old(fs.fat), clst) then ncl else old(fs.lastClst)
    ensures fs.fsiDirty == (old(fs.fsiDirty) || fs.freeClst != old(fs.freeClst))
  {
    EocIsEnd(fs.geo, fs.disk.sectors);
    var scl;
    if clst == 0 {
      scl := fs.lastClst;
      if scl == 0 || scl >= fs.geo.nFatent { scl := 1; }
    } else {
      var cs := GetFat(fs, clst);
      if cs < 2 { return 1; }
      if cs == 0xFFFF_FFFF { return cs; }
      if cs < fs.geo.nFatent { return cs; }
      scl := clst;
    }
    if fs.freeClst == 0 { return 0; }
    ncl := Allocate(fs, clst, scl);
  }

  /** The second half of create_chain: take a free cluster, link it, account for it. */
  method Allocate(fs: Volume, clst: Dword, scl: Dword) returns (ncl: Dword)
    requires fs.Ready() && Starts(fs.geo.nFatent, clst, fs.lastClst, scl)
    requires Ends(fs.fat, clst) && fs.freeClst > 0
    modifies fs, fs.win, fs.disk.data
    ensures fs.Ready() && FatUpdated(fs.geo, old(fs.view), fs.view)
    ensures ncl < 2 ==> fs.view == old(fs.view) && fs.fat == old(fs.fat) && fs.freeClst == old(fs.freeClst)
    ensures Picked(old(fs.fat), clst, old(fs.lastClst), ncl)
    ensures ncl == 0 ==> Free(fs.fat) == {}
    ensures ncl == 1 ==> !NoErrorMarks(fs.fat)
    ensures fs.lastClst == if ncl >= 2 then ncl else old(fs.lastClst)
    ensures fs.fsiDirty == (old(fs.fsiDirty) || fs.freeClst != old(fs.freeClst))
    ensures ncl >= 2 ==> ncl < fs.geo.nFatent && old(fs.fat)[ncl] == 0
                         && fs.fat == Stretched(old(fs.fat), clst, ncl, Eoc(fs.geo))
    ensures FreeExact(old(fs.fat), old(fs.freeClst)) ==> FreeExact(fs.fat, fs.freeClst)
  {
    ncl := PickCluster(fs, clst, scl);
    PickedIsFree(fs.fat, clst, fs.lastClst, ncl);
    if ncl < 2 { return; }
    var res := Link(fs, clst, ncl);
    if res == OK {
      Account(fs, ncl);
    } else {
      ncl := ErrorCode(res);
    }
  }

  /** Updates the allocation information for a newly taken cluster. */
  method Account(fs: Volume, ncl: Dword)
    modifies fs`lastClst, fs`freeClst, fs`fsiDirty
    ensures fs.lastClst == ncl
    ensures fs.freeClst == if 0 < old(fs.freeClst) <= fs.geo.nFatent - 2
                           then old(fs.freeClst) - 1 else old(fs.freeClst)
    ensures fs.fsiDirty == (old(fs.fsiDirty) || fs.freeClst != old(fs.freeClst))
  {
    fs.lastClst := ncl;
    if fs.freeClst > 0 && fs.freeClst <= fs.geo.nFatent - 2 {
      fs.freeClst := fs.freeClst - 1;
      fs.fsiDirty := true;
    }
  }

  /** Marks the new cluster EOC, then links it from the previous one. */
  method Link(fs: Volume, clst: Dword, ncl: Dword) returns (res: FResult)
    requires fs.Ready() && 2 <= ncl < fs.geo.nFatent && clst != ncl
    requires clst == 0 || 2 <= clst < fs.geo.nFatent
    requires fs.fat[ncl] == 0 && (clst != 0 ==> fs.fat[clst] != 0)
    modifies fs`wflag, fs`winsect, fs`view, fs`fat, fs.win, fs.disk.data
    ensures fs.Ready() && FatUpdated(fs.geo, old(fs.view), fs.view) && res == OK
    ensures fs.fat == Stretched(old(fs.fat), clst, ncl, Eoc(fs.geo))
    ensures |Free(fs.fat)| == |Free(old(fs.fat))| - 1
  {
    EocIsEnd(fs.geo, fs.disk.sectors);
    ghost var f := fs.fat;
    ghost var v := fs.view;
    FreeUpdate(f, ncl, Eoc(fs.geo));
    res := PutFat(fs, ncl, 0xFFFF_FFFF);
    if res == OK && clst != 0 {
      ghost var v1 := fs.view;
      FreeUpdate(fs.fat, clst, ncl);
      res := PutFat(fs, clst, ncl);
      FatUpdatedTrans(fs.geo, v, v1, fs.view);
    }
  }

  // ------------------------------------------------------------ remove_chain

  /** Freeing only counts up, notes that for the FSInfo record, and keeps the search start. */
  ghost predicate Noted(a: Info, b: Info)
  {
    a.free <= b.free && b.last == a.last && b.dirty == (a.dirty || b.free != a.free)
  }

  /** The allocation information that goes into the FSInfo record. */
  datatype Info = Info(free: Dword, last: Dword, dirty: bool)

  ghost function InfoOf(fs: Volume): Info
    reads fs`freeClst, fs`lastClst, fs`fsiDirty
  {
    Info(fs.freeClst, fs.lastClst, fs.fsiDirty)
  }

  /** Marks cluster `clst` free and counts it. */
  method Release(fs: Volume, clst: Dword) returns (res: FResult)
    requires fs.Ready() && 2 <= clst < fs.geo.nFatent && fs.fat[clst] != 0
    modifies fs, fs.win, fs.disk.data
    ensures fs.Ready() && FatUpdated(fs.geo, old(fs.view), fs.view) && res == OK
    ensures fs.fat == old(fs.fat)[clst := 0]
    ensures |Free(fs.fat)| == |Free(old(fs.fat))| + 1
    ensures FreeExact(old(fs.fat), old(fs.freeClst)) ==> FreeExact(fs.fat, fs.freeClst)
    ensures Noted(old(InfoOf(fs)), InfoOf(fs))
  {
    FreeUpdate(fs.fat, clst, 0);
    FreeBound(fs.fat);
    EocIsEnd(fs.geo, fs.disk.sectors);
    res := PutFat(fs, clst, 0);
    if res != OK { return; }
    CountFreed(fs);
  }

  method CountFreed(fs: Volume)
    requires 2 <= fs.geo.nFatent < TWO32
    modifies fs`freeClst, fs`fsiDirty
    ensures fs.freeClst == if old(fs.freeClst) < fs.geo.nFatent - 2
                           then old(fs.freeClst) + 1 else old(fs.freeClst)
    ensures fs.fsiDirty == (old(fs.fsiDirty) || fs.freeClst != old(fs.freeClst))
  {
    if fs.freeClst < fs.geo.nFatent - 2 {
      fs.freeClst := fs.freeClst + 1;
      fs.fsiDirty := true;
    }
  }

  /** One round of the loop of remove_chain: frees `clst` unless it is free already, or an error
      mark.  `nxt` is what its entry held. */
  method ReleaseOne(fs: Volume, clst: Dword) returns (res: FResult, nxt: Dword)
    requires fs.Ready() && 2 <= clst < fs.geo.nFatent
    modifies fs, fs.win, fs.disk.data
    ensures fs.Ready() && FatUpdated(fs.geo, old(fs.view), fs.view)
    ensures nxt == old(fs.fat)[clst] && res == if nxt == 1 then INT_ERR else OK
    ensures nxt < 2 ==> fs.fat == old(fs.fat) && InfoOf(fs) == old(InfoOf(fs))
    ensures nxt >= 2 ==> fs.fat == old(fs.fat)[clst := 0] && |Free(old(fs.fat))| < |Free(fs.fat)| <= fs.geo.nFatent - 2
    ensures FreeExact(old(fs.fat), old(fs.freeClst)) ==> FreeExact(fs.fat, fs.freeClst)
    ensures Noted(old(InfoOf(fs)), InfoOf(fs))
  {
    res := OK;
    nxt := GetFat(fs, clst);
    if nxt == 0 { return; }
    if nxt == 1 { return INT_ERR, nxt; }
    if nxt == 0xFFFF_FFFF { return DISK_ERR, nxt; }
    res := Release(fs, clst);
    FreeBound(fs.fat);
  }

  /** The loop of remove_chain.  It terminates on any FAT, since every round turns a
      used entry into a free one; on a proper chain `ch` it frees exactly `ch`. */
  method ReleaseAll(fs: Volume, first: Dword, ghost ch: seq<Dword>) returns (res: FResult)
    requires fs.Ready() && 2 <= first < fs.geo.nFatent
    modifies fs, fs.win, fs.disk.data
    ensures fs.Ready() && FatUpdated(fs.geo, old(fs.view), fs.view)
    ensures res == OK || res == INT_ERR
    ensures FreeExact(old(fs.fat), old(fs.freeClst)) ==> FreeExact(fs.fat, fs.freeClst)
    ensures NoErrorMarks(old(fs.fat)) ==> NoErrorMarks(fs.fat) && res == OK
    ensures Noted(old(InfoOf(fs)), InfoOf(fs))
    ensures IsChain(old(fs.fat), ch) && ch != [] && ch[0] == first ==>
              res == OK && fs.fat == Released(old(fs.fat), ch)
  {
    ghost var f, info := fs.fat, InfoOf(fs);
    ghost var proper := IsChain(f, ch) && ch != [] && ch[0] == first;
    ghost var k := 0;
    var clst := first;
    res := OK;
    FreeBound(f);
    assert proper ==> Released(f, ch[..0]) == f;
    while true
      invariant fs.Ready() && FatUpdated(fs.geo, old(fs.view), fs.view)
      invariant 2 <= clst < fs.geo.nFatent && res == OK
      invariant FreeExact(f, old(fs.freeClst)) ==> FreeExact(fs.fat, fs.freeClst)
      invariant proper ==> 0 <= k < |ch| && clst == ch[k] && fs.fat == Released(f, ch[..k])
      invariant NoErrorMarks(f) ==> NoErrorMarks(fs.fat)
      invariant Noted(info, InfoOf(fs))
      invariant |Free(fs.fat)| <= fs.geo.nFatent - 2
      decreases fs.geo.nFatent - |Free(fs.fat)|
    {
      ghost var v0 := fs.view;
      if proper { NextReleased(f, ch, k); }
      var nxt;
      res, nxt := ReleaseOne(fs, clst);
      if res != OK || nxt == 0 { return; }
      FatUpdatedTrans(fs.geo, old(fs.view), v0, fs.view);
      k := k + 1;
      clst := nxt;
      if clst >= fs.geo.nFatent { break; }
    }
  }

  /** One round: cluster `k` still links on, and freeing it extends the freed prefix. */
  lemma NextReleased(f: FatMap, ch: seq<Dword>, k: nat)
    requires IsChain(f, ch) && k < |ch|
    ensures var f' := Released(f, ch[..k]);
            && f'[ch[k]] == f[ch[k]] >= 2 && Linked(f, ch, k)
            && f'[ch[k] := 0] == Released(f, ch[..k + 1])
    ensures k + 1 == |ch| ==> ch[..k + 1] == ch
  {
    assert Linked(f, ch, k);
    forall i | 0 <= i < k ensures ch[i] != ch[k] {
      ChainDistinct(f, ch, i, k);
    }
    assert ch[..k + 1] == ch[..k] + [ch[k]];
  }

  /** `clst` is cluster `k` of the proper chain `ch`, and `pclst` the one before it. */
  ghost predicate Splits(f: FatMap, ch: seq<Dword>, k: nat, clst: Dword, pclst: Dword)
  {
    && IsChain(f, ch) && k < |ch| && clst == ch[k]
    && pclst == if k == 0 then 0 else ch[k - 1]
  }

  /** remove_chain: frees the chain from `clst` on and ends it at `pclst` (0: no
      predecessor).  Frees exactly the suffix of a proper chain, and keeps the free
      count exact on any FAT. */
  method RemoveChain(fs: Volume, clst: Dword, pclst: Dword, ghost ch: seq<Dword>, ghost k: nat)
    returns (res: FResult)
    requires fs.Ready()
    modifies fs, fs.win, fs.disk.data
    ensures fs.Ready() && FatUpdated(fs.geo, old(fs.view), fs.view)
    ensures res == OK || res == INT_ERR
    ensures !(2 <= clst < fs.geo.nFatent) || !(pclst == 0 || 2 <= pclst < fs.geo.nFatent) ==>
              res == INT_ERR && fs.view == old(fs.view) && fs.fat == old(fs.fat)
    ensures FreeExact(old(fs.fat), old(fs.freeClst)) && !(2 <= pclst < |fs.fat| && old(fs.fat)[pclst] == 0)
            ==> FreeExact(fs.fat, fs.freeClst)
    ensures NoErrorMarks(old(fs.fat)) ==> NoErrorMarks(fs.fat)
    ensures Noted(old(InfoOf(fs)), InfoOf(fs))
    ensures Splits(old(fs.fat), ch, k, clst, pclst) ==>
              res == OK && fs.fat == Cut(old(fs.fat), ch, k, Eoc(fs.geo))
  {
    if clst < 2 || clst >= fs.geo.nFatent { return INT_ERR; }
    ghost var f, v := fs.fat, fs.view;
    EocIsEnd(fs.geo, fs.disk.sectors);
    if pclst != 0 {
      if 2 <= pclst < fs.geo.nFatent { FreeUpdate(f, pclst, Eoc(fs.geo)); }
      res := PutFat(fs, pclst, 0xFFFF_FFFF);
      if res != OK { return; }
    }
    ghost var f1, v1 := fs.fat, fs.view;
    if Splits(f, ch, k, clst, pclst) { SuffixAfterMark(f, ch, k, Eoc(fs.geo)); }
    res := ReleaseAll(fs, clst, if k <= |ch| then ch[k..] else []);
    FatUpdatedTrans(fs.geo, v, v1, fs.view);
  }

  lemma SuffixAfterMark(f: FatMap, ch: seq<Dword>, k: nat, eoc: Dword)
    requires IsChain(f, ch) && k < |ch|
    ensures IsChain(if k == 0 then f else f[ch[k - 1] := eoc], ch[k..])
  {
    Suffix(f, ch, k);
    if k > 0 {
      forall j | k <= j < |ch| ensures ch[j] != ch[k - 1] {
        ChainDistinct(f, ch, k - 1, j);
      }
      ChainFrame(f, f[ch[k - 1] := eoc], ch[k..]);
    }
  }

  // --------------------------------------------------------------- f_getfree

  /** The FAT12 scan of f_getfree: entries 2.. through get_fat. */
  method ScanFat12(fs: Volume) returns (res: FResult, nfree: Dword)
    requires fs.Ready()
    modifies fs`wflag, fs`winsect, fs.win, fs.disk.data
    ensures fs.Ready()
    ensures res == OK ==> nfree == |Free(fs.fat)|
    ensures res != OK ==> res == INT_ERR && !NoErrorMarks(fs.fat)
  {
    nfree, res := 0, OK;
    var clst := 2;
    assert FreeBelow(fs.fat, 2) == {};
    while clst < fs.geo.nFatent
      invariant fs.Ready() && 2 <= clst <= fs.geo.nFatent && res == OK
      invariant nfree == |FreeBelow(fs.fat, clst)| && nfree <= clst
    {
      var stat := GetFat(fs, clst);
      if stat == 0xFFFF_FFFF { res := DISK_ERR; break; }
      if stat == 1 { res := INT_ERR; break; }
      FreeBelowStep(fs.fat, clst);
      if stat == 0 { nfree := nfree + 1; }
      clst := clst + 1;
    }
  }

  lemma FreeBelowStep(f: FatMap, n: nat)
    requires 2 <= n < |f|
    ensures |FreeBelow(f, n + 1)| == |FreeBelow(f, n)| + (if f[n] == 0 then 1 else 0)
  {
    if f[n] == 0 {
      assert FreeBelow(f, n + 1) == FreeBelow(f, n) + {n};
    } else {
      assert FreeBelow(f, n + 1) == FreeBelow(f, n);
    }
  }

  /** Zero entries among the first `n`, the reserved ones included. */
  ghost function ZeroBelow(f: FatMap, n: nat): set<int>
    requires n <= |f|
  {
    set c | 0 <= c < n && f[c] == 0
  }

  lemma ZeroBelowStep(f: FatMap, n: nat)
    requires n < |f|
    ensures |ZeroBelow(f, n + 1)| == |ZeroBelow(f, n)| + (if f[n] == 0 then 1 else 0)
  {
    if f[n] == 0 {
      assert ZeroBelow(f, n + 1) == ZeroBelow(f, n) + {n};
    } else {
      assert ZeroBelow(f, n + 1) == ZeroBelow(f, n);
    }
  }

  /** The raw scan counts the free clusters plus the reserved entries that are zero. */
  lemma ZeroIsFree(f: FatMap)
    requires |f| >= 2
    ensures |ZeroBelow(f, |f|)| == |Free(f)| + (if f[0] == 0 then 1 else 0) + (if f[1] == 0 then 1 else 0)
  {
    var r0: set<int> := if f[0] == 0 then {0} else {};
    var r1: set<int> := if f[1] == 0 then {1} else {};
    assert ZeroBelow(f, |f|) == Free(f) + r0 + r1;
    assert |Free(f) + r0| == |Free(f)| + |r0|;
    assert |Free(f) + r0 + r1| == |Free(f) + r0| + |r1|;
  }

  /** Size of one entry of a byte-aligned FAT, and the offset of entry `e`. */
  function EntrySize(t: FatType): nat { if t == FAT16 then 2 else 4 }
  ghost function Pos(t: FatType, e: nat): nat { if t == FAT16 then e * 2 else e * 4 }

  lemma PosStep(t: FatType, e: nat)
    ensures (Pos(t, e) % SS + EntrySize(t)) % SS == Pos(t, e + 1) % SS
    ensures Pos(t, e + 1) / SS == Pos(t, e) / SS + if Pos(t, e + 1) % SS == 0 then 1 else 0
  {
    var p, w := Pos(t, e), EntrySize(t);
    var n := if t == FAT16 then 256 else 128;
    var q, r := e / n, e % n * w;
    DivModUnique(p, SS, q, r);
    StepOffset(q, r, w);
  }

  lemma StepOffset(q: nat, r: nat, w: nat)
    requires r < SS && r + w <= SS && w > 0
    ensures (q * SS + r + w) % SS == (r + w) % SS
    ensures (q * SS + r + w) / SS == q + if (r + w) % SS == 0 then 1 else 0
  {
  }

  /** The entry at offset `i` of the FAT sector in the window. */
  method LoadEntry(fs: Volume, ghost e: Dword, i: nat) returns (val: Dword)
    requires fs.Ready() && fs.geo.fsType != FAT12 && e < fs.geo.nFatent
    requires var p := Pos(fs.geo.fsType, e); i == p % SS && fs.winsect == fs.geo.fatbase + p / SS
    ensures val == fs.fat[e]
  {
    if fs.geo.fsType == FAT16 {
      ShownWord(fs, e);
      val := LdWord(fs.win[..], i);
    } else {
      ShownDword(fs, e);
      var d: int := LdDword(fs.win[..], i);
      val := d % 0x1000_0000;
    }
  }

  lemma ShownWord(fs: Volume, e: Dword)
    requires fs.Ready() && fs.geo.fsType == FAT16 && e < fs.geo.nFatent
    requires fs.winsect == fs.geo.fatbase + e * 2 / SS
    ensures e * 2 % SS + 2 <= SS && LdWord(fs.win[..], e * 2 % SS) == fs.fat[e]
  {
    assert UnfoldFat(0);
    WindowIsFatSector(fs, e * 2 / SS);
    WordInSector(FatImage(fs.geo, fs.view), e * 2);
  }

  lemma ShownDword(fs: Volume, e: Dword)
    requires fs.Ready() && fs.geo.fsType == FAT32 && e < fs.geo.nFatent
    requires fs.winsect == fs.geo.fatbase + e * 4 / SS
    ensures e * 4 % SS + 4 <= SS && (LdDword(fs.win[..], e * 4 % SS) as int) % 0x1000_0000 == fs.fat[e]
  {
    assert UnfoldFat(0);
    WindowIsFatSector(fs, e * 4 / SS);
    DwordInSector(FatImage(fs.geo, fs.view), e * 4);
  }

  /** The FAT16/32 scan of f_getfree: entries 0.. straight from the window. */
  method ScanFatAligned(fs: Volume) returns (res: FResult, nfree: Dword)
    requires fs.Ready() && fs.geo.fsType != FAT12
    modifies fs`wflag, fs`winsect, fs.win, fs.disk.data
    ensures fs.Ready() && res == OK
    ensures nfree == |ZeroBelow(fs.fat, fs.geo.nFatent)|
  {
    var w := EntrySize(fs.geo.fsType);
    nfree, res := 0, OK;
    var clst, sect, i := fs.geo.nFatent, fs.geo.fatbase, 0;
    ghost var e := 0;
    assert ZeroBelow(fs.fat, 0) == {};
    while clst > 0
      invariant fs.Ready() && res == OK && 0 <= clst <= fs.geo.nFatent && e == fs.geo.nFatent - clst
      invariant i == Pos(fs.geo.fsType, e) % SS
      invariant if i == 0 then sect == fs.geo.fatbase + Pos(fs.geo.fsType, e) / SS
                else fs.winsect == fs.geo.fatbase + Pos(fs.geo.fsType, e) / SS && sect == fs.winsect + 1
      invariant nfree == |ZeroBelow(fs.fat, e)| && nfree <= e
    {
      if i == 0 {
        res := MoveWindow(fs, sect);
        sect := sect + 1;
        if res != OK { break; }
      }
      ZeroBelowStep(fs.fat, e);
      PosStep(fs.geo.fsType, e);
      var val := LoadEntry(fs, e, i);
      if val == 0 { nfree := nfree + 1; }
      i := (i + w) % SS;
      clst := clst - 1;
      e := e + 1;
    }
  }

  /** f_getfree.  A known count is answered from the cache; otherwise the FAT is
      scanned and the count becomes known. */
  method GetFree(fs: Volume) returns (res: FResult, nclst: Dword)
    requires fs.Ready()
    modifies fs, fs.win, fs.disk.data
    ensures fs.Ready() && fs.view == old(fs.view) && fs.fat == old(fs.fat)
    ensures fs.lastClst == old(fs.lastClst)
    ensures res == OK && FreeExact(fs.fat, old(fs.freeClst))
              && (fs.geo.fsType != FAT12 ==> fs.fat[0] != 0 && fs.fat[1] != 0)
            ==> nclst == fs.freeClst == |Free(fs.fat)|
    ensures res != OK ==> fs.geo.fsType == FAT12 && !NoErrorMarks(fs.fat) && fs.freeClst == old(fs.freeClst)
    ensures fs.fsiDirty == (old(fs.fsiDirty) || (res == OK && old(fs.freeClst) > fs.geo.nFatent - 2))
  {
    res, nclst := OK, 0;
    if fs.freeClst <= fs.geo.nFatent - 2 {
      nclst := fs.freeClst;
    } else {
      var nfree;
      if fs.geo.fsType == FAT12 {
        res, nfree := ScanFat12(fs);
      } else {
        res, nfree := ScanFatAligned(fs);
        ZeroIsFree(fs.fat);
      }
      if res == OK {
        nclst := nfree;
        fs.freeClst := nfree;
        fs.fsiDirty := true;
      }
    }
  }

  /** The FSInfo record holds the cached free count or no count, or is marked as outdated. */
  ghost predicate Booked(fs: Volume)
    reads fs`freeClst, fs`fsiDirty, fs.ledger
  {
    fs.fsiDirty || fs.freeClst == fs.ledger.free || fs.ledger.free > fs.geo.nFatent - 2
  }

  /** A mounted volume whose FAT holds no error marks and whose cached free count, if
      known, is right. */
  ghost predicate Sound(fs: Volume)
    reads fs, fs.win, fs.disk.data, fs.ledger
  {
    fs.Ready() && NoErrorMarks(fs.fat) && FreeExact(fs.fat, fs.freeClst) && Booked(fs)
  }
}
