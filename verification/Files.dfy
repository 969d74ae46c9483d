/** The file layer in the tiny configuration: f_read, f_write, f_lseek, f_truncate
    on a FIL that shares the volume's window.  A file refines a byte sequence with a
    cursor. */
module Files {
  import opened Bytes
  import opened Layout
  import opened DiskIo
  import opened FatBits
  import opened Window
  import opened FatCodec
  import opened Chains
  import opened Allocator
  import opened FileData
  import opened DataWindow

  ghost function Nth(ch: seq<Dword>, k: int): Dword
  {
    if 0 <= k < |ch| then ch[k] else 0
  }

  /** The sector that holds byte `p` of the file. */
  ghost function SectorAt(g: Geometry, ch: seq<Dword>, p: nat): int
    requires g.csize > 0
  {
    Clst2Sect(g, Nth(ch, p / g.Bcs())) + p % g.Bcs() / SS
  }

  /** Mentioning this lets the prover look into the invariant of a file. */
  ghost predicate UnfoldFil(k: int) { true }

  /** The fields of a file object as a value. */
  datatype Fil = Fil(sclust: Dword, objsize: Dword, fptr: Dword, clust: Dword, sect: Dword,
                     readable: bool, writable: bool, err: FResult, chain: seq<Dword>)
  {
    /** The chain starts at `sclust` and is long enough for the file. */
    ghost predicate Chained(g: Geometry, f: FatMap)
    {
      && IsChain(f, chain) && |f| == g.nFatent
      && sclust == Nth(chain, 0)
      && fptr <= objsize <= |chain| * g.Bcs()
    }

    /** `clust` is the cluster of the byte before the cursor. */
    ghost predicate AtCluster(g: Geometry)
      requires g.csize > 0
    {
      fptr > 0 ==> clust == Nth(chain, (fptr - 1) / g.Bcs())
    }

    /** Inside a sector, `sect` is the sector of the cursor. */
    ghost predicate AtSector(g: Geometry)
      requires g.csize > 0
    {
      fptr % SS != 0 ==> sect == SectorAt(g, chain, fptr)
    }

    ghost predicate Inv(g: Geometry, f: FatMap)
    {
      && g.csize > 0 && fptr <= objsize && |f| == g.nFatent
      && forall k :: UnfoldFil(k) ==> Chained(g, f) && AtCluster(g) && AtSector(g)
    }

    ghost function Bytes(g: Geometry, v: seq<Byte>): seq<Byte>
      requires g.csize > 0
    {
      Content(g, v, chain, objsize)
    }
  }

  class File {
    var sclust: Dword     // start cluster (0: no cluster)
    var objsize: Dword    // file size
    var fptr: Dword       // read/write pointer
    var clust: Dword      // current cluster (invalid when fptr is 0)
    var sect: Dword       // current data sector
    var readable: bool    // FA_READ
    var writable: bool    // FA_WRITE
    var modified: bool    // FA_MODIFIED
    var err: FResult      // abort flag
    ghost var chain: seq<Dword>   // the clusters of the file

    /** A file object as f_open fills it in, the cursor at the start. */
    constructor (sclust: Dword, objsize: Dword, readable: bool, writable: bool, ghost chain: seq<Dword>)
      ensures Val() == Fil(sclust, objsize, 0, 0, 0, readable, writable, OK, chain)
    {
      this.sclust, this.objsize, this.readable, this.writable, this.chain := sclust, objsize, readable, writable, chain;
      fptr, clust, sect, modified, err := 0, 0, 0, false, OK;
    }

    ghost function Val(): Fil
      reads this
    {
      Fil(sclust, objsize, fptr, clust, sect, readable, writable, err, chain)
    }

    ghost predicate Chained(g: Geometry, f: FatMap)
      reads this
    {
      Val().Chained(g, f)
    }

    ghost predicate AtCluster(g: Geometry)
      requires g.csize > 0
      reads this
    {
      Val().AtCluster(g)
    }

    ghost predicate Inv(g: Geometry, f: FatMap)
      reads this
    {
      Val().Inv(g, f)
    }

    /** The abstract value: the file's bytes (the cursor is `fptr`). */
    ghost function Bytes(g: Geometry, v: seq<Byte>): seq<Byte>
      requires g.csize > 0
      reads this
    {
      Val().Bytes(g, v)
    }
  }

  // -------------------------------------------------- cursor and cluster index

  /** On a cluster boundary behind the start, the byte before the cursor is in the
      previous cluster. */
  lemma BoundaryIndex(g: Geometry, p: nat, k: nat, m: nat)
    requires g.csize > 0 && p > 0 && p == k * g.Bcs() && p <= m * g.Bcs()
    ensures 1 <= k <= m && (p - 1) / g.Bcs() == k - 1
  {
    var b := g.Bcs();
    if k == 0 { assert false; }
    assert p - 1 == (k - 1) * b + (b - 1);
    DivModUnique(p - 1, b, k - 1, b - 1);
    Covered(g, p - 1, m);
  }

  /** What create_chain's answer means for the chain `ch` it was asked to follow behind
      its first `k` clusters. */
  lemma Followed(f: FatMap, f': FatMap, ch: seq<Dword>, k: nat, cur: Dword, eoc: Dword, ncl: Dword)
    returns (ch': seq<Dword>)
    requires IsChain(f, ch) && k <= |ch| && (k == 0 ==> ch == []) && eoc >= |f| && |f'| == |f|
    requires cur == (if k == 0 then 0 else ch[k - 1]) && ncl >= 2 && Created(f, f', cur, eoc, ncl)
    ensures Extends(f, ch, f', ch') && IsChain(f', ch')
    ensures k < |ch'| && ncl == ch'[k] && |ch'| == Max(|ch|, k + 1)
  {
    if k > 0 { assert Linked(f, ch, k - 1); }
    if k < |ch| {
      ch' := ch;
    } else {
      StretchChain(f, ch, ncl, eoc);
      ch' := ch + [ncl];
      assert cur in ch' || cur == 0;
    }
  }

  /** Follows the chain `ch` behind its first `k` clusters, stretching it if it ends
      there.  With `k == 0` there is no chain yet and one is created. */
  method Follow(fs: Volume, cur: Dword, ghost ch: seq<Dword>, ghost k: nat)
    returns (clst: Dword, ghost ch': seq<Dword>)
    requires Sound(fs) && IsChain(fs.fat, ch) && k <= |ch| && (k == 0 ==> ch == [])
    requires cur == if k == 0 then 0 else ch[k - 1]
    modifies fs, fs.win, fs.disk.data
    ensures Sound(fs) && FatUpdated(fs.geo, old(fs.view), fs.view)
    ensures Extends(old(fs.fat), ch, fs.fat, ch') && IsChain(fs.fat, ch')
    ensures clst == 0 ==> Free(fs.fat) == {} && fs.view == old(fs.view) && ch' == ch && k == |ch|
    ensures clst != 0 ==> k < |ch'| && clst == ch'[k] && |ch'| == Max(|ch|, k + 1)
  {
    EocIsEnd(fs.geo, fs.disk.sectors);
    if k > 0 { assert Linked(fs.fat, ch, k - 1); }
    clst := CreateChain(fs, cur);
    if clst >= 2 {
      ch' := Followed(old(fs.fat), fs.fat, ch, k, cur, Eoc(fs.geo), clst);
    } else {
      ch' := ch;
    }
  }

  // ------------------------------------------------------------------ f_write

  /** How one step of a write on file `fp` may change the volume. */
  ghost predicate WriteFrame(g: Geometry, f: FatMap, v: seq<Byte>, ch: seq<Dword>,
                             f': FatMap, v': seq<Byte>, ch': seq<Dword>)
  {
    forall k :: UnfoldFrame(k) ==>
      && Extends(f, ch, f', ch') && SameElsewhere(g, ch', v, v')
      && (FatsAgree(g, v) ==> FatsAgree(g, v'))
  }

  /** Mentioning `UnfoldFrame` lets the prover look into the frame predicates. */
  ghost predicate UnfoldFrame(k: int) { true }

  lemma WriteFrameTrans(g: Geometry, f: FatMap, v: seq<Byte>, ch: seq<Dword>,
                        f': FatMap, v': seq<Byte>, ch': seq<Dword>, f'': FatMap, v'': seq<Byte>, ch'': seq<Dword>)
    requires WriteFrame(g, f, v, ch, f', v', ch') && WriteFrame(g, f', v', ch', f'', v'', ch'')
    requires IsChain(f', ch')
    ensures WriteFrame(g, f, v, ch, f'', v'', ch'')
  {
    assert UnfoldFrame(0);
    ExtendsTrans(f, ch, f', ch', f'', ch'');
    ElsewhereTrans(g, ch', ch'', v, v', v'');
  }

  /** At a cluster boundary (start of cluster `k`): makes cluster `k` current, taking a
      new one if the file ends there.  False when the volume is full. */
  method EnterCluster(fs: Volume, fp: File, ghost k: nat) returns (ok: bool)
    requires Sound(fs) && fp.Inv(fs.geo, fs.fat) && fp.fptr == k * fs.geo.Bcs()
    modifies fs, fs.win, fs.disk.data, fp`chain, fp`clust, fp`sclust
    ensures Sound(fs) && fp.Chained(fs.geo, fs.fat)
    ensures WriteFrame(fs.geo, old(fs.fat), old(fs.view), old(fp.chain), fs.fat, fs.view, fp.chain)
    ensures fp.Bytes(fs.geo, fs.view) == old(fp.Bytes(fs.geo, fs.view))
    ensures !ok ==> Free(fs.fat) == {} && fp.chain == old(fp.chain) && fp.Inv(fs.geo, fs.fat) && k == |fp.chain|
    ensures ok ==> k < |fp.chain| && fp.clust == fp.chain[k]
  {
    ghost var f, v, ch := fs.fat, fs.view, fp.chain;
    var clst;
    ghost var x := fp.Val();
    assert UnfoldFil(0);
    clst, fp.chain := ClusterAt(fs, fp, k);
    GrownKeeps(fs.geo, f, v, ch, fs.fat, fs.view, fp.chain, fp.objsize);
    EnteredChain(x, fs.geo, f, fs.fat, fp.chain, k, clst);
    ok := clst != 0;
    if ok {
      fp.clust := clst;
      if fp.sclust == 0 { fp.sclust := clst; }
    }
  }

  lemma EnteredChain(x: Fil, g: Geometry, f: FatMap, f': FatMap, ch': seq<Dword>, k: nat, clst: Dword)
    requires x.Inv(g, f) && x.fptr == k * g.Bcs() && Extends(f, x.chain, f', ch') && IsChain(f', ch') && |f'| == |f|
    requires x.objsize <= |ch'| * g.Bcs()
    requires if clst == 0 then ch' == x.chain else k < |ch'| && clst == ch'[k]
    ensures x.(chain := ch', sclust := if x.sclust == 0 then clst else x.sclust).Chained(g, f')
  {
    assert UnfoldFil(0);
    if x.chain == [] {
      assert |x.chain| * g.Bcs() == 0;
      ZeroIndex(g, k);
    } else {
      assert x.chain[0] == ch'[0];
    }
  }

  /** Finds or takes the cluster at the cursor. */
  method ClusterAt(fs: Volume, fp: File, ghost k: nat) returns (clst: Dword, ghost ch': seq<Dword>)
    requires Sound(fs) && fp.Inv(fs.geo, fs.fat) && fp.fptr == k * fs.geo.Bcs()
    modifies fs, fs.win, fs.disk.data
    ensures Sound(fs) && FatUpdated(fs.geo, old(fs.view), fs.view)
    ensures Extends(old(fs.fat), fp.chain, fs.fat, ch') && IsChain(fs.fat, ch')
    ensures clst == 0 ==> Free(fs.fat) == {} && ch' == fp.chain && k == |fp.chain|
    ensures clst != 0 ==> k < |ch'| && clst == ch'[k]
  {
    assert UnfoldFil(0);
    ch' := fp.chain;
    if fp.fptr == 0 {
      ZeroIndex(fs.geo, k);
      clst := fp.sclust;
      if clst == 0 {
        clst, ch' := Follow(fs, 0, [], 0);
      }
    } else {
      BoundaryIndex(fs.geo, fp.fptr, k, |fp.chain|);
      clst, ch' := Follow(fs, fp.clust, fp.chain, k);
    }
  }

  lemma ZeroIndex(g: Geometry, k: nat)
    requires g.csize > 0 && k * g.Bcs() == 0
    ensures k == 0
  {
  }

  /** Growing the chain changes neither the file's bytes nor anything elsewhere. */
  lemma GrownKeeps(g: Geometry, f: FatMap, v: seq<Byte>, ch: seq<Dword>,
                   f': FatMap, v': seq<Byte>, ch': seq<Dword>, size: nat)
    requires g.Valid(|v| / SS) && |f| == g.nFatent && IsChain(f, ch) && size <= |ch| * g.Bcs()
    requires FatUpdated(g, v, v') && Extends(f, ch, f', ch')
    ensures WriteFrame(g, f, v, ch, f', v', ch')
    ensures Content(g, v', ch', size) == Content(g, v, ch, size)
    ensures size <= |ch'| * g.Bcs()
  {
    FatChangeKeepsContent(g, f, v, v', ch, size);
    PrefixContent(g, v', ch, ch', size);
    FatChangeElsewhere(g, v, v', ch');
  }

  /** A store at the cursor, inside its cluster, is a splice and a legal frame. */
  lemma WriteStep(g: Geometry, f: FatMap, v: seq<Byte>, v': seq<Byte>, ch: seq<Dword>,
                  size: nat, p: nat, k: nat, r: nat, d: seq<Byte>, len: nat)
    requires IsChain(f, ch) && g.csize > 0 && size <= |ch| * g.Bcs()
    requires Within(g, p, k, r) && k < |ch| && r + len <= g.Bcs() && 0 < |d|
    requires Stored(v, v', g.ClusterBase(ch[k]) + r, d, len)
    requires FatsAgree(g, v) ==> FatsAgree(g, v')
    requires p <= size && (len == |d| || p == size)
    ensures Content(g, v', ch, Max(size, p + |d|)) == Splice(Content(g, v, ch, size), p, d)
    ensures Max(size, p + |d|) <= |ch| * g.Bcs()
    ensures WriteFrame(g, f, v, ch, f, v', ch)
    ensures (p + |d| - 1) / g.Bcs() == k
  {
    WriteEffect(g, f, v, v', ch, size, p, k, r, d, len);
    StoredInside(g, v, v', ch, k, r, d, len);
    Arrive(g, p, k, r, |d|);
  }

  /** Writes up to `|buf|` bytes in whole sectors to cluster `clst` from sector `csect`. */
  method PutSectors(fs: Volume, clst: Dword, buf: seq<Byte>, csect: nat) returns (res: FResult, cnt: Dword)
    requires fs.Ready() && 2 <= clst < fs.geo.nFatent && csect < fs.geo.csize
    requires SS <= |buf| < TWO32
    modifies fs`wflag, fs`view, fs`fat, fs.win, fs.disk.data
    ensures fs.Ready() && res == OK && fs.fat == old(fs.fat)
    ensures FatsAgree(fs.geo, old(fs.view)) ==> FatsAgree(fs.geo, fs.view)
    ensures 0 < cnt <= |buf| && cnt % SS == 0 && csect * SS + cnt <= fs.geo.Bcs()
    ensures Stored(old(fs.view), fs.view, fs.geo.ClusterBase(clst) + csect * SS, buf[..cnt], cnt)
  {
    res, cnt := OK, 0;
    ClusterInside(fs.geo, fs.disk.sectors, clst);
    var sect := Clst2Sect(fs.geo, clst);
    if sect == 0 { return INT_ERR, cnt; }
    sect := sect + csect;
    var cc := ClipSectors(fs.geo, |buf|, csect);
    cnt := cc * SS;
    ghost var v := fs.view;
    res := WriteThrough(fs, buf[..cnt], sect, cc);
    OverlayStored(v, sect * SS, buf[..cnt]);
  }

  lemma OverlayStored(v: seq<Byte>, a: nat, d: seq<Byte>)
    requires a + |d| <= |v|
    ensures Stored(v, Overlay(v, a, d), a, d, |d|)
  {
  }

  /** Whole sectors left to transfer, clipped at the cluster boundary. */
  function ClipSectors(g: Geometry, len: Dword, csect: nat): (cc: Dword)
    requires csect < g.csize <= 128
    ensures cc * SS <= len && csect + cc <= g.csize && cc * SS % SS == 0
    ensures SS <= len ==> cc > 0
  {
    if csect + len / SS > g.csize then g.csize - csect else len / SS
  }

  /** Moves the cursor behind written bytes; the file grows with it. */
  method Advance(fp: File, cnt: Dword)
    requires fp.fptr + cnt < TWO32
    modifies fp`fptr, fp`objsize
    ensures fp.fptr == old(fp.fptr) + cnt && fp.objsize == Max(old(fp.objsize), fp.fptr)
  {
    fp.fptr := fp.fptr + cnt;
    if fp.fptr > fp.objsize { fp.objsize := fp.fptr; }
  }

  /** Moving on inside a sector keeps the invariant. */
  lemma AdvancedInSector(x: Fil, g: Geometry, f: FatMap, k: nat, cs: nat, cnt: nat)
    requires x.Chained(g, f) && k < |x.chain| && x.clust == x.chain[k] && cs < g.csize
    requires Within(g, x.fptr, k, cs * SS + x.fptr % SS) && x.sect == Clst2Sect(g, x.clust) + cs
    requires 0 < cnt <= SS - x.fptr % SS && x.fptr + cnt < TWO32
    ensures x.(fptr := x.fptr + cnt, objsize := Max(x.objsize, x.fptr + cnt)).Inv(g, f)
    ensures x.fptr + cnt <= x.objsize ==> x.(fptr := x.fptr + cnt).Inv(g, f)
  {
    var r := cs * SS + x.fptr % SS;
    ArriveInSector(g, x.fptr, k, cs, cnt);
    Arrive(g, x.fptr, k, r, cnt);
    RunCovered(g, |x.chain|, x.fptr, k, r, cnt);
  }

  ghost predicate UnfoldSpot(k: int) { true }

  /** The cursor is in sector `cs` of the current cluster, number `k` of the file. */
  ghost predicate Spot(x: Fil, g: Geometry, f: FatMap, k: nat, cs: nat)
  {
    && cs < g.csize && 2 <= x.clust < g.nFatent && x.fptr <= x.objsize
    && forall i :: UnfoldSpot(i) ==>
         && x.Chained(g, f) && k < |x.chain| && x.clust == x.chain[k]
         && Within(g, x.fptr, k, cs * SS + x.fptr % SS)
  }

  lemma SpotFor(x: Fil, g: Geometry, f: FatMap, k: nat, cs: nat)
    requires x.Chained(g, f) && k < |x.chain| && x.clust == x.chain[k] && cs < g.csize
    requires Within(g, x.fptr, k, cs * SS + x.fptr % SS)
    ensures Spot(x, g, f, k, cs)
  {
  }

  lemma SpotSect(x: Fil, g: Geometry, f: FatMap, k: nat, cs: nat, s: Dword)
    requires Spot(x, g, f, k, cs)
    ensures Spot(x.(sect := s), g, f, k, cs)
  {
    assert UnfoldSpot(0);
  }

  /** The file with `n` bytes written at the cursor. */
  function Advanced(x: Fil, n: nat): Fil
    requires x.fptr + n < TWO32
  {
    x.(fptr := x.fptr + n, objsize := Max(x.objsize, x.fptr + n))
  }

  /** Whole sectors, written directly from the caller's buffer, at a sector boundary. */
  method WriteWhole(fs: Volume, fp: File, buf: seq<Byte>, csect: nat, ghost k: nat)
    returns (res: FResult, cnt: Dword)
    requires Sound(fs) && Spot(fp.Val(), fs.geo, fs.fat, k, csect) && fp.fptr % SS == 0
    requires SS <= |buf| && fp.fptr + |buf| < TWO32
    modifies fs`wflag, fs`view, fs`fat, fs.win, fs.disk.data, fp`fptr, fp`objsize
    ensures Sound(fs) && fp.Inv(fs.geo, fs.fat) && res == OK
    ensures WriteFrame(fs.geo, old(fs.fat), old(fs.view), fp.chain, fs.fat, fs.view, fp.chain)
    ensures 0 < cnt <= |buf| && fp.fptr == old(fp.fptr) + cnt
    ensures fp.Bytes(fs.geo, fs.view) == Splice(old(fp.Bytes(fs.geo, fs.view)), old(fp.fptr), buf[..cnt])
  {
    ghost var v, x := fs.view, fp.Val();
    res, cnt := PutSectors(fs, fp.clust, buf, csect);
    if res != OK { return; }
    WholeWritten(x, fs.geo, fs.fat, v, fs.view, k, csect, buf[..cnt]);
    Advance(fp, cnt);
    assert fp.Val() == Advanced(x, cnt);
  }

  /** Whole sectors stored at the cursor: the file with the cursor moved on. */
  lemma WholeWritten(x: Fil, g: Geometry, f: FatMap, v: seq<Byte>, v': seq<Byte>, k: nat, cs: nat, d: seq<Byte>)
    requires Spot(x, g, f, k, cs) && x.fptr % SS == 0 && x.fptr + |d| < TWO32
    requires 0 < |d| && |d| % SS == 0 && cs * SS + |d| <= g.Bcs()
    requires Stored(v, v', g.ClusterBase(x.clust) + cs * SS, d, |d|) && (FatsAgree(g, v) ==> FatsAgree(g, v'))
    ensures Advanced(x, |d|).Inv(g, f) && Advanced(x, |d|).Bytes(g, v') == Splice(x.Bytes(g, v), x.fptr, d)
    ensures WriteFrame(g, f, v, x.chain, f, v', x.chain)
  {
    assert UnfoldSpot(0);
    WriteStep(g, f, v, v', x.chain, x.objsize, x.fptr, k, cs * SS, d, |d|);
    WholeSectors(x.fptr, |d| / SS);
  }

  /** Part of a sector through the window, which may be stale only at the growing edge of the
      file. */
  method WritePart(fs: Volume, fp: File, buf: seq<Byte>, ghost k: nat, ghost cs: nat)
    returns (res: FResult, cnt: Dword)
    requires fs.Valid() && NoErrorMarks(fs.fat) && FreeExact(fs.fat, fs.freeClst) && Booked(fs)
    requires Spot(fp.Val(), fs.geo, fs.fat, k, cs) && fp.sect == Clst2Sect(fs.geo, fp.clust) + cs
    requires fs.Coherent() || (fp.fptr % SS == 0 && fp.fptr == fp.objsize)
    requires 0 < |buf| && fp.fptr + |buf| < TWO32
    modifies fs`wflag, fs`winsect, fs`view, fs`fat, fs.win, fs.disk.data, fp`fptr, fp`objsize
    ensures Sound(fs) && fp.Inv(fs.geo, fs.fat) && res == OK
    ensures WriteFrame(fs.geo, old(fs.fat), old(fs.view), fp.chain, fs.fat, fs.view, fp.chain)
    ensures 0 < cnt <= |buf| && fp.fptr == old(fp.fptr) + cnt
    ensures fp.Bytes(fs.geo, fs.view) == Splice(old(fp.Bytes(fs.geo, fs.view)), old(fp.fptr), buf[..cnt])
  {
    var ofs := fp.fptr % SS;
    cnt := SS - ofs;
    if cnt > |buf| { cnt := |buf|; }
    ghost var x, v := fp.Val(), fs.view;
    res := PutPart(fs, fp, ofs, buf[..cnt], cs);
    if res != OK { return; }
    PartWritten(x, fs.geo, fs.fat, v, fs.view, k, cs, buf[..cnt]);
    Advance(fp, cnt);
    assert fp.Val() == Advanced(x, cnt);
  }

  /** Bytes stored at the cursor, up to the end of its sector: the file with the cursor moved on. */
  lemma PartWritten(x: Fil, g: Geometry, f: FatMap, v: seq<Byte>, v': seq<Byte>, k: nat, cs: nat, d: seq<Byte>)
    requires Spot(x, g, f, k, cs) && x.sect == Clst2Sect(g, x.clust) + cs
    requires 0 < |d| <= SS - x.fptr % SS && x.fptr + |d| < TWO32
    requires var a := g.ClusterBase(x.clust) + (cs * SS + x.fptr % SS);
             || Stored(v, v', a, d, |d|)
             || (x.fptr % SS == 0 && x.fptr == x.objsize && Stored(v, v', a, d, SS))
    requires FatsAgree(g, v) ==> FatsAgree(g, v')
    ensures Advanced(x, |d|).Inv(g, f) && Advanced(x, |d|).Bytes(g, v') == Splice(x.Bytes(g, v), x.fptr, d)
    ensures WriteFrame(g, f, v, x.chain, f, v', x.chain)
  {
    assert UnfoldSpot(0);
    var r := cs * SS + x.fptr % SS;
    var len := if Stored(v, v', g.ClusterBase(x.clust) + r, d, |d|) then |d| else SS;
    ArriveInSector(g, x.fptr, k, cs, |d|);
    WriteStep(g, f, v, v', x.chain, x.objsize, x.fptr, k, r, d, len);
    AdvancedInSector(x, g, f, k, cs, |d|);
  }

  method PutPart(fs: Volume, fp: File, ofs: nat, bytes: seq<Byte>, ghost cs: nat) returns (res: FResult)
    requires fs.Valid() && 2 <= fp.clust < fs.geo.nFatent && cs < fs.geo.csize
    requires fp.sect == Clst2Sect(fs.geo, fp.clust) + cs && ofs + |bytes| <= SS
    requires fs.Coherent() || ofs == 0
    modifies fs`wflag, fs`winsect, fs`view, fs`fat, fs.win, fs.disk.data
    ensures fs.Ready() && res == OK && fs.fat == old(fs.fat)
    ensures FatsAgree(fs.geo, old(fs.view)) ==> FatsAgree(fs.geo, fs.view)
    ensures var a := fs.geo.ClusterBase(fp.clust) + (cs * SS + ofs);
            && (old(fs.Coherent()) ==> Stored(old(fs.view), fs.view, a, bytes, |bytes|))
            && (ofs == 0 ==> Stored(old(fs.view), fs.view, a, bytes, SS))
  {
    ClusterInside(fs.geo, fs.disk.sectors, fp.clust);
    res := MoveWindow(fs, fp.sect);
    if res != OK { return; }
    assert fs.winsect * SS + ofs == fs.geo.ClusterBase(fp.clust) + (cs * SS + ofs);
    StoreData(fs, ofs, bytes);
  }

  /** At a sector boundary inside the current cluster: directly if a whole sector is
      left to write, else through the window. */
  method WriteAtBoundary(fs: Volume, fp: File, buf: seq<Byte>, csect: nat, ghost k: nat)
    returns (res: FResult, cnt: Dword)
    requires Sound(fs) && fp.fptr % SS == 0 && Spot(fp.Val(), fs.geo, fs.fat, k, csect)
    requires 0 < |buf| && fp.fptr + |buf| < TWO32
    modifies fs`wflag, fs`winsect, fs`view, fs`fat, fs.win, fs.disk.data, fp`fptr, fp`objsize, fp`sect
    ensures Sound(fs) && fp.Inv(fs.geo, fs.fat) && res == OK
    ensures WriteFrame(fs.geo, old(fs.fat), old(fs.view), fp.chain, fs.fat, fs.view, fp.chain)
    ensures 0 < cnt <= |buf| && fp.fptr == old(fp.fptr) + cnt
    ensures fp.Bytes(fs.geo, fs.view) == Splice(old(fp.Bytes(fs.geo, fs.view)), old(fp.fptr), buf[..cnt])
  {
    res, cnt := OK, 0;
    if fs.winsect == fp.sect {
      res := SyncWindow(fs);
      if res != OK { return; }
    }
    ClusterInside(fs.geo, fs.disk.sectors, fp.clust);
    var sect := Clst2Sect(fs.geo, fp.clust);
    if sect == 0 { return INT_ERR, cnt; }
    sect := sect + csect;
    if |buf| / SS > 0 {
      res, cnt := WriteWhole(fs, fp, buf, csect, k);
    } else {
      res, cnt := WriteShort(fs, fp, buf, sect, k, csect);
    }
  }

  /** Less than a sector, from the start of sector `sect` on, which is not read if it is new. */
  method WriteShort(fs: Volume, fp: File, buf: seq<Byte>, sect: Dword, ghost k: nat, ghost cs: nat)
    returns (res: FResult, cnt: Dword)
    requires Sound(fs) && fp.fptr % SS == 0 && Spot(fp.Val(), fs.geo, fs.fat, k, cs)
    requires sect == Clst2Sect(fs.geo, fp.clust) + cs && 0 < |buf| && fp.fptr + |buf| < TWO32
    modifies fs`wflag, fs`winsect, fs`view, fs`fat, fs.win, fs.disk.data, fp`fptr, fp`objsize, fp`sect
    ensures Sound(fs) && fp.Inv(fs.geo, fs.fat) && res == OK
    ensures WriteFrame(fs.geo, old(fs.fat), old(fs.view), fp.chain, fs.fat, fs.view, fp.chain)
    ensures 0 < cnt <= |buf| && fp.fptr == old(fp.fptr) + cnt
    ensures fp.Bytes(fs.geo, fs.view) == Splice(old(fp.Bytes(fs.geo, fs.view)), old(fp.fptr), buf[..cnt])
  {
    cnt := 0;
    if fp.fptr >= fp.objsize {
      res := Retarget(fs, sect);
      if res != OK { return; }
    }
    SpotSect(fp.Val(), fs.geo, fs.fat, k, cs, sect);
    fp.sect := sect;
    res, cnt := WritePart(fs, fp, buf, k, cs);
  }

  /** One round of f_write's loop.  `cnt == 0` when no cluster could be taken. */
  method WriteChunk(fs: Volume, fp: File, buf: seq<Byte>) returns (res: FResult, cnt: Dword)
    requires Sound(fs) && fp.Inv(fs.geo, fs.fat)
    requires 0 < |buf| && fp.fptr + |buf| < TWO32
    modifies fs, fs.win, fs.disk.data, fp`fptr, fp`objsize, fp`sect, fp`clust, fp`sclust, fp`chain
    ensures Sound(fs) && fp.Inv(fs.geo, fs.fat) && res == OK
    ensures WriteFrame(fs.geo, old(fs.fat), old(fs.view), old(fp.chain), fs.fat, fs.view, fp.chain)
    ensures cnt <= |buf| && fp.fptr == old(fp.fptr) + cnt
    ensures cnt == 0 ==> Free(fs.fat) == {} && fp.fptr == |fp.chain| * fs.geo.Bcs()
    ensures fp.Bytes(fs.geo, fs.view) == Splice(old(fp.Bytes(fs.geo, fs.view)), old(fp.fptr), buf[..cnt])
  {
    ghost var k;
    var csect := SectorInCluster(fs.geo, fp.fptr);
    if fp.fptr % SS == 0 {
      ghost var f, v, ch := fs.fat, fs.view, fp.chain;
      var ok;
      ok, k := ReachCluster(fs, fp, csect);
      if !ok {
        SpliceNothing(fp.Bytes(fs.geo, fs.view), fp.fptr);
        return OK, 0;
      }
      ghost var f1, v1, ch1 := fs.fat, fs.view, fp.chain;
      res, cnt := WriteAtBoundary(fs, fp, buf, csect, k);
      WriteFrameTrans(fs.geo, f, v, ch, f1, v1, ch1, fs.fat, fs.view, fp.chain);
    } else {
      k := SpotInside(fp.Val(), fs.geo, fs.fat, csect);
      res, cnt := WritePart(fs, fp, buf, k, csect);
    }
  }

  /** At a sector boundary: makes the cluster of the cursor current.  False when there is none
      and the volume is full. */
  method ReachCluster(fs: Volume, fp: File, csect: nat) returns (ok: bool, ghost k: nat)
    requires Sound(fs) && fp.Inv(fs.geo, fs.fat) && fp.fptr % SS == 0 && csect == SectorInCluster(fs.geo, fp.fptr)
    modifies fs, fs.win, fs.disk.data, fp`chain, fp`clust, fp`sclust
    ensures Sound(fs) && IsChain(fs.fat, fp.chain)
    ensures WriteFrame(fs.geo, old(fs.fat), old(fs.view), old(fp.chain), fs.fat, fs.view, fp.chain)
    ensures fp.Bytes(fs.geo, fs.view) == old(fp.Bytes(fs.geo, fs.view))
    ensures ok ==> Spot(fp.Val(), fs.geo, fs.fat, k, csect)
    ensures !ok ==> fp.Inv(fs.geo, fs.fat) && Free(fs.fat) == {} && fp.fptr == |fp.chain| * fs.geo.Bcs()
  {
    ok := true;
    if csect == 0 {
      k := StartOf(fs.geo, fp.fptr);
      ok := EnterCluster(fs, fp, k);
      if ok { SpotFor(fp.Val(), fs.geo, fs.fat, k, 0); }
    } else {
      k := SpotInside(fp.Val(), fs.geo, fs.fat, csect);
      InvChain(fp.Val(), fs.geo, fs.fat);
      SameFrame(fs.geo, fs.fat, fs.view, fp.chain);
    }
  }

  lemma InvChain(x: Fil, g: Geometry, f: FatMap)
    requires x.Inv(g, f)
    ensures IsChain(f, x.chain) && x.sclust == Nth(x.chain, 0) && x.objsize <= |x.chain| * g.Bcs()
  {
    assert UnfoldFil(0);
  }

  lemma StartOf(g: Geometry, p: nat) returns (k: nat)
    requires g.csize > 0 && IsPow2(g.csize) && p % SS == 0 && SectorInCluster(g, p) == 0
    ensures p == k * g.Bcs() && Within(g, p, k, 0)
  {
    SplitPosition(g, p);
    IndexNat(g, p);
    k := p / g.Bcs();
  }

  /** Behind the start of a cluster the invariant gives the place of the cursor. */
  lemma SpotInside(x: Fil, g: Geometry, f: FatMap, cs: nat) returns (k: nat)
    requires x.Inv(g, f) && IsPow2(g.csize) && cs == SectorInCluster(g, x.fptr) && (cs != 0 || x.fptr % SS != 0)
    ensures Spot(x, g, f, k, cs) && (x.fptr % SS != 0 ==> x.sect == Clst2Sect(g, x.clust) + cs)
  {
    assert UnfoldFil(0);
    SplitPosition(g, x.fptr);
    IndexNat(g, x.fptr);
    k := x.fptr / g.Bcs();
    InsideCluster(g, x.fptr, k, cs * SS + x.fptr % SS, |x.chain|);
    InsideSector(g, x.fptr, k, cs);
    SpotFor(x, g, f, k, cs);
  }

  lemma SameFrame(g: Geometry, f: FatMap, v: seq<Byte>, ch: seq<Dword>)
    ensures WriteFrame(g, f, v, ch, f, v, ch)
  {
  }

  /** Not on a cluster boundary, the byte before the cursor is in the cursor's cluster. */
  lemma InsideCluster(g: Geometry, p: nat, k: int, r: int, m: nat)
    requires g.csize > 0 && Within(g, p, k, r) && r > 0 && p <= m * g.Bcs()
    ensures p > 0 && 0 <= k < m && (p - 1) / g.Bcs() == k && p / g.Bcs() == k && p % g.Bcs() == r
  {
    WithinUnique(g, p, k, r);
    IndexNat(g, p);
    assert k * g.Bcs() >= 0;
    WithinUnique(g, p - 1, k, r - 1);
    Covered(g, p - 1, m);
  }

  lemma InsideSector(g: Geometry, p: nat, k: int, cs: nat)
    requires g.csize > 0 && Within(g, p, k, cs * SS + p % SS)
    ensures p % g.Bcs() / SS == cs
  {
    WithinUnique(g, p, k, cs * SS + p % SS);
    DivModUnique(cs * SS + p % SS, SS, cs, p % SS);
  }

  /** Neither the volume nor the chain has changed. */
  ghost predicate Untouched(v: seq<Byte>, f: FatMap, ch: seq<Dword>, v': seq<Byte>, f': FatMap, ch': seq<Dword>)
  {
    v' == v && f' == f && ch' == ch
  }

  /** f_write.  Splices exactly the first `bw` bytes of the buffer into the file at the
      cursor.  It falls short only at the end of the file's last cluster with no free cluster
      left, or where the file would reach 4 GiB. */
  method FWrite(fs: Volume, fp: File, buff: seq<Byte>) returns (res: FResult, bw: Dword)
    requires Sound(fs) && fp.Inv(fs.geo, fs.fat) && |buff| < TWO32
    modifies fs, fs.win, fs.disk.data, fp
    ensures Sound(fs) && fp.Inv(fs.geo, fs.fat)
    ensures res == if old(fp.err) != OK then old(fp.err) else if old(fp.writable) then OK else DENIED
    ensures fp.err == old(fp.err) && fp.readable == old(fp.readable) && fp.writable == old(fp.writable)
    ensures WriteFrame(fs.geo, old(fs.fat), old(fs.view), old(fp.chain), fs.fat, fs.view, fp.chain)
    ensures bw <= |buff| && fp.fptr == old(fp.fptr) + bw
    ensures fp.Bytes(fs.geo, fs.view) == Splice(old(fp.Bytes(fs.geo, fs.view)), old(fp.fptr), buff[..bw])
    ensures fp.modified == (old(fp.modified) || res == OK)
    ensures res != OK ==> bw == 0 && Untouched(old(fs.view), old(fs.fat), old(fp.chain), fs.view, fs.fat, fp.chain)
    ensures res == OK && bw < |buff| ==>
              || (Free(fs.fat) == {} && fp.fptr == |fp.chain| * fs.geo.Bcs())
              || (old(fp.fptr) + |buff| >= TWO32 && bw == 0xFFFF_FFFF - old(fp.fptr))
  {
    bw := 0;
    if fp.err != OK || !fp.writable {
      SameFrame(fs.geo, fs.fat, fs.view, fp.chain);
      SpliceNothing(fp.Bytes(fs.geo, fs.view), fp.fptr);
      res := if fp.err != OK then fp.err else DENIED;
    } else {
      var btw := ClipWrite(fp.fptr, |buff|);
      res, bw := WriteAll(fs, fp, buff[..btw]);
      assert buff[..btw][..bw] == buff[..bw];
      fp.modified := true;
    }
  }

  /** The file pointer must not wrap: a file cannot reach 4 GiB. */
  function ClipWrite(fptr: Dword, btw: Dword): (n: Dword)
    ensures n <= btw && fptr + n < TWO32
    ensures n == if fptr + btw < TWO32 then btw else 0xFFFF_FFFF - fptr
  {
    if Wrap32(fptr + btw) < fptr then 0xFFFF_FFFF - fptr else btw
  }

  /** The loop of f_write. */
  method WriteAll(fs: Volume, fp: File, buf: seq<Byte>) returns (res: FResult, bw: Dword)
    requires Sound(fs) && fp.Inv(fs.geo, fs.fat) && fp.fptr + |buf| < TWO32
    modifies fs, fs.win, fs.disk.data, fp`fptr, fp`objsize, fp`sect, fp`clust, fp`sclust, fp`chain
    ensures Sound(fs) && fp.Inv(fs.geo, fs.fat) && res == OK
    ensures WriteFrame(fs.geo, old(fs.fat), old(fs.view), old(fp.chain), fs.fat, fs.view, fp.chain)
    ensures bw <= |buf| && fp.fptr == old(fp.fptr) + bw
    ensures fp.Bytes(fs.geo, fs.view) == Splice(old(fp.Bytes(fs.geo, fs.view)), old(fp.fptr), buf[..bw])
    ensures bw < |buf| ==> Free(fs.fat) == {} && fp.fptr == |fp.chain| * fs.geo.Bcs()
  {
    res, bw := OK, 0;
    SameFrame(fs.geo, fs.fat, fs.view, fp.chain);
    SpliceNothing(fp.Bytes(fs.geo, fs.view), fp.fptr);
    ghost var p, s := fp.fptr, fp.Bytes(fs.geo, fs.view);
    while bw < |buf|
      invariant Sound(fs) && fp.Inv(fs.geo, fs.fat) && res == OK
      invariant bw <= |buf| && fp.fptr == p + bw
      invariant WriteFrame(fs.geo, old(fs.fat), old(fs.view), old(fp.chain), fs.fat, fs.view, fp.chain)
      invariant fp.Bytes(fs.geo, fs.view) == Splice(s, p, buf[..bw])
    {
      ghost var f1, v1, ch1 := fs.fat, fs.view, fp.chain;
      InvChain(fp.Val(), fs.geo, fs.fat);
      var cnt;
      res, cnt := WriteChunk(fs, fp, buf[bw..]);
      WriteFrameTrans(fs.geo, old(fs.fat), old(fs.view), old(fp.chain), f1, v1, ch1, fs.fat, fs.view, fp.chain);
      SpliceMore(s, p, buf, bw, cnt);
      if res != OK || cnt == 0 { break; }
      bw := bw + cnt;
    }
  }

  lemma SpliceMore(s: seq<Byte>, p: nat, buf: seq<Byte>, bw: nat, cnt: nat)
    requires p <= |s| && bw + cnt <= |buf|
    ensures Splice(Splice(s, p, buf[..bw]), p + bw, buf[bw..][..cnt]) == Splice(s, p, buf[..bw + cnt])
  {
    SpliceAppend(s, p, buf[..bw], buf[bw..][..cnt]);
    assert buf[..bw] + buf[bw..][..cnt] == buf[..bw + cnt];
  }

  // ------------------------------------------------------------------- f_read

  /** The read buffer is none of the volume's own. */
  ghost predicate Outside(fs: Volume, buff: array<Byte>)
  {
    buff != fs.win && buff != fs.disk.data
  }

  /** At a cluster boundary (start of cluster `k`) before the end of the file: makes
      cluster `k` current. */
  method EnterForRead(fs: Volume, fp: File, ghost k: nat) returns (res: FResult)
    requires fs.Ready() && fp.Inv(fs.geo, fs.fat) && fp.fptr == k * fs.geo.Bcs() && fp.fptr < fp.objsize
    requires fp.fptr % SS == 0
    modifies fs`wflag, fs`winsect, fs.win, fs.disk.data, fp`clust
    ensures fs.Ready() && res == OK && Spot(fp.Val(), fs.geo, fs.fat, k, 0)
  {
    assert UnfoldFil(0);
    res := OK;
    var clst;
    WithinUnique(fs.geo, fp.fptr, k, 0);
    Covered(fs.geo, fp.fptr, |fp.chain|);
    if fp.fptr == 0 {
      ZeroIndex(fs.geo, k);
      clst := fp.sclust;
    } else {
      BoundaryIndex(fs.geo, fp.fptr, k, |fp.chain|);
      assert Linked(fs.fat, fp.chain, k - 1);
      clst := GetFat(fs, fp.clust);
    }
    if clst < 2 { return INT_ERR; }
    if clst == 0xFFFF_FFFF { return DISK_ERR; }
    fp.clust := clst;
    SpotFor(fp.Val(), fs.geo, fs.fat, k, 0);
  }

  /** Whole sectors, read directly into the caller's buffer at `ofs`. */
  method ReadWhole(fs: Volume, fp: File, buff: array<Byte>, ofs: nat, btr: Dword, csect: nat, ghost k: nat)
    returns (res: FResult, cnt: Dword)
    requires fs.Ready() && Spot(fp.Val(), fs.geo, fs.fat, k, csect) && fp.fptr % SS == 0 && Outside(fs, buff)
    requires SS <= btr && fp.fptr + btr <= fp.objsize && ofs + btr <= buff.Length
    modifies buff, fp`fptr
    ensures fp.Inv(fs.geo, fs.fat) && res == OK
    ensures 0 < cnt <= btr && fp.fptr == old(fp.fptr) + cnt
    ensures buff[..] == Overlay(old(buff[..]), ofs, fp.Bytes(fs.geo, fs.view)[old(fp.fptr)..fp.fptr])
  {
    ghost var x := fp.Val();
    res, cnt := FetchSectors(fs, fp.clust, buff, ofs, btr, csect);
    if res != OK { return; }
    WholeRead(x, fs.geo, fs.fat, fs.view, k, csect, cnt);
    fp.fptr := fp.fptr + cnt;
    assert fp.Val() == x.(fptr := x.fptr + cnt);
  }

  /** The bytes at the cursor, in whole sectors. */
  lemma WholeRead(x: Fil, g: Geometry, f: FatMap, v: seq<Byte>, k: nat, cs: nat, cnt: nat)
    requires g.Valid(|v| / SS) && Spot(x, g, f, k, cs) && x.fptr % SS == 0
    requires 0 < cnt && cnt % SS == 0 && cs * SS + cnt <= g.Bcs() && x.fptr + cnt <= x.objsize
    ensures x.(fptr := x.fptr + cnt).Inv(g, f)
    ensures var a := g.ClusterBase(x.clust) + cs * SS;
            0 <= a && a + cnt <= |v| && v[a..a + cnt] == x.Bytes(g, v)[x.fptr..x.fptr + cnt]
  {
    assert UnfoldSpot(0);
    ReadStep(g, f, v, x.chain, x.objsize, x.fptr, k, cs * SS, cnt);
    WholeSectors(x.fptr, cnt / SS);
  }

  lemma ReadStep(g: Geometry, f: FatMap, v: seq<Byte>, ch: seq<Dword>, size: nat,
                 p: nat, k: nat, r: nat, cnt: nat)
    requires g.Valid(|v| / SS) && |f| == g.nFatent && IsChain(f, ch) && size <= |ch| * g.Bcs()
    requires Within(g, p, k, r) && k < |ch| && 0 < cnt && r + cnt <= g.Bcs() && p + cnt <= size
    ensures var a := g.ClusterBase(ch[k]) + r;
            0 <= a && a + cnt <= |v| && v[a..a + cnt] == Content(g, v, ch, size)[p..p + cnt]
    ensures (p + cnt - 1) / g.Bcs() == k
  {
    ClusterInside(g, |v| / SS, ch[k]);
    ReadEffect(g, f, v, ch, size, p, k, r, cnt);
    Arrive(g, p, k, r, cnt);
  }

  method FetchSectors(fs: Volume, clst: Dword, buff: array<Byte>, ofs: nat, btr: Dword, csect: nat)
    returns (res: FResult, cnt: Dword)
    requires fs.Ready() && 2 <= clst < fs.geo.nFatent && csect < fs.geo.csize && Outside(fs, buff)
    requires SS <= btr && ofs + btr <= buff.Length
    modifies buff
    ensures res == OK && 0 < cnt <= btr && cnt % SS == 0 && csect * SS + cnt <= fs.geo.Bcs()
    ensures var a := fs.geo.ClusterBase(clst) + csect * SS;
            0 <= a && a + cnt <= |fs.view| && buff[..] == Overlay(old(buff[..]), ofs, fs.view[a..a + cnt])
  {
    res, cnt := OK, 0;
    ClusterInside(fs.geo, fs.disk.sectors, clst);
    var sect := Clst2Sect(fs.geo, clst);
    if sect == 0 { return INT_ERR, cnt; }
    sect := sect + csect;
    var cc := ClipSectors(fs.geo, btr, csect);
    res := ReadThrough(fs, buff, ofs, sect, cc);
    cnt := cc * SS;
  }

  /** Part of a sector, copied out of the window. */
  method ReadPart(fs: Volume, fp: File, buff: array<Byte>, ofs: nat, btr: Dword, ghost k: nat, ghost cs: nat)
    returns (res: FResult, cnt: Dword)
    requires fs.Ready() && Spot(fp.Val(), fs.geo, fs.fat, k, cs) && Outside(fs, buff)
    requires fp.sect == Clst2Sect(fs.geo, fp.clust) + cs
    requires 0 < btr && fp.fptr + btr <= fp.objsize && ofs + btr <= buff.Length
    modifies fs`wflag, fs`winsect, fs.win, fs.disk.data, buff, fp`fptr
    ensures fs.Ready() && fp.Inv(fs.geo, fs.fat) && res == OK
    ensures 0 < cnt <= btr && fp.fptr == old(fp.fptr) + cnt
    ensures buff[..] == Overlay(old(buff[..]), ofs, fp.Bytes(fs.geo, fs.view)[old(fp.fptr)..fp.fptr])
  {
    var o := fp.fptr % SS;
    cnt := SS - o;
    if cnt > btr { cnt := btr; }
    ghost var x := fp.Val();
    res := FetchPart(fs, fp, buff, ofs, o, cnt, cs);
    if res != OK { return; }
    PartRead(x, fs.geo, fs.fat, fs.view, k, cs, cnt);
    assert buff[..] == Overlay(old(buff[..]), ofs, x.Bytes(fs.geo, fs.view)[x.fptr..x.fptr + cnt]);
    fp.fptr := fp.fptr + cnt;
    assert fp.Val() == x.(fptr := x.fptr + cnt);
  }

  /** The bytes at the cursor, up to the end of its sector. */
  lemma PartRead(x: Fil, g: Geometry, f: FatMap, v: seq<Byte>, k: nat, cs: nat, cnt: nat)
    requires g.Valid(|v| / SS) && Spot(x, g, f, k, cs) && x.sect == Clst2Sect(g, x.clust) + cs
    requires 0 < cnt <= SS - x.fptr % SS && x.fptr + cnt <= x.objsize
    ensures x.(fptr := x.fptr + cnt).Inv(g, f)
    ensures var a := g.ClusterBase(x.clust) + (cs * SS + x.fptr % SS);
            0 <= a && a + cnt <= |v| && v[a..a + cnt] == x.Bytes(g, v)[x.fptr..x.fptr + cnt]
  {
    assert UnfoldSpot(0);
    ArriveInSector(g, x.fptr, k, cs, cnt);
    ReadStep(g, f, v, x.chain, x.objsize, x.fptr, k, cs * SS + x.fptr % SS, cnt);
    AdvancedInSector(x, g, f, k, cs, cnt);
  }

  method FetchPart(fs: Volume, fp: File, buff: array<Byte>, ofs: nat, o: nat, cnt: nat, ghost cs: nat)
    returns (res: FResult)
    requires fs.Ready() && 2 <= fp.clust < fs.geo.nFatent && cs < fs.geo.csize && Outside(fs, buff)
    requires fp.sect == Clst2Sect(fs.geo, fp.clust) + cs && o + cnt <= SS && ofs + cnt <= buff.Length
    modifies fs`wflag, fs`winsect, fs.win, fs.disk.data, buff
    ensures fs.Ready() && res == OK
    ensures var a := fs.geo.ClusterBase(fp.clust) + (cs * SS + o);
            0 <= a && a + cnt <= |fs.view| && buff[..] == Overlay(old(buff[..]), ofs, fs.view[a..a + cnt])
  {
    ClusterInside(fs.geo, fs.disk.sectors, fp.clust);
    res := MoveWindow(fs, fp.sect);
    if res != OK { return; }
    SliceSlice(fs.view, fp.sect * SS, (fp.sect + 1) * SS, o, cnt);
    MemCpy(buff, ofs, fs.win[..][o..o + cnt]);
  }

  /** One round of f_read's loop, for a read that stays inside the file. */
  method ReadChunk(fs: Volume, fp: File, buff: array<Byte>, ofs: nat, btr: Dword) returns (res: FResult, cnt: Dword)
    requires fs.Ready() && fp.Inv(fs.geo, fs.fat) && Outside(fs, buff)
    requires 0 < btr && fp.fptr + btr <= fp.objsize && ofs + btr <= buff.Length
    modifies fs`wflag, fs`winsect, fs.win, fs.disk.data, buff, fp`fptr, fp`clust, fp`sect
    ensures fs.Ready() && fp.Inv(fs.geo, fs.fat) && res == OK
    ensures 0 < cnt <= btr && fp.fptr == old(fp.fptr) + cnt
    ensures buff[..] == Overlay(old(buff[..]), ofs, fp.Bytes(fs.geo, fs.view)[old(fp.fptr)..fp.fptr])
  {
    res, cnt := OK, 0;
    ghost var k;
    var csect := SectorInCluster(fs.geo, fp.fptr);
    if fp.fptr % SS == 0 {
      if csect == 0 {
        k := StartOf(fs.geo, fp.fptr);
        res := EnterForRead(fs, fp, k);
        if res != OK { return; }
      } else {
        k := SpotInside(fp.Val(), fs.geo, fs.fat, csect);
      }
      res, cnt := ReadAtBoundary(fs, fp, buff, ofs, btr, csect, k);
    } else {
      k := SpotInside(fp.Val(), fs.geo, fs.fat, csect);
      res, cnt := ReadPart(fs, fp, buff, ofs, btr, k, csect);
    }
  }

  /** At a sector boundary inside the current cluster: directly if a whole sector is
      left to read, else through the window. */
  method ReadAtBoundary(fs: Volume, fp: File, buff: array<Byte>, ofs: nat, btr: Dword, csect: nat, ghost k: nat)
    returns (res: FResult, cnt: Dword)
    requires fs.Ready() && Spot(fp.Val(), fs.geo, fs.fat, k, csect) && fp.fptr % SS == 0 && Outside(fs, buff)
    requires 0 < btr && fp.fptr + btr <= fp.objsize && ofs + btr <= buff.Length
    modifies fs`wflag, fs`winsect, fs.win, fs.disk.data, buff, fp`fptr, fp`sect
    ensures fs.Ready() && fp.Inv(fs.geo, fs.fat) && res == OK
    ensures 0 < cnt <= btr && fp.fptr == old(fp.fptr) + cnt
    ensures buff[..] == Overlay(old(buff[..]), ofs, fp.Bytes(fs.geo, fs.view)[old(fp.fptr)..fp.fptr])
  {
    res, cnt := OK, 0;
    ClusterInside(fs.geo, fs.disk.sectors, fp.clust);
    var sect := Clst2Sect(fs.geo, fp.clust);
    if sect == 0 { return INT_ERR, cnt; }
    if btr / SS > 0 {
      res, cnt := ReadWhole(fs, fp, buff, ofs, btr, csect, k);
    } else {
      SpotSect(fp.Val(), fs.geo, fs.fat, k, csect, sect + csect);
      fp.sect := sect + csect;
      res, cnt := ReadPart(fs, fp, buff, ofs, btr, k, csect);
    }
  }

  /** f_read.  Returns exactly the bytes of the file from the cursor on, clipped at its
      end, and changes nothing on the volume. */
  method FRead(fs: Volume, fp: File, buff: array<Byte>, btr: Dword) returns (res: FResult, br: Dword)
    requires fs.Ready() && fp.Inv(fs.geo, fs.fat) && Outside(fs, buff) && btr <= buff.Length
    modifies fs`wflag, fs`winsect, fs.win, fs.disk.data, buff, fp`fptr, fp`clust, fp`sect
    ensures fs.Ready() && fp.Inv(fs.geo, fs.fat)
    ensures res == if fp.err != OK then fp.err else if fp.readable then OK else DENIED
    ensures br == if res == OK then Min(btr, fp.objsize - old(fp.fptr)) else 0
    ensures fp.fptr == old(fp.fptr) + br
    ensures buff[..br] == fp.Bytes(fs.geo, fs.view)[old(fp.fptr)..fp.fptr]
    ensures buff[br..] == old(buff[br..])
  {
    br := 0;
    if fp.err != OK { return fp.err, br; }
    if !fp.readable { return DENIED, br; }
    br := Min(btr, fp.objsize - fp.fptr);
    ghost var b, d := buff[..], fp.Bytes(fs.geo, fs.view)[fp.fptr..fp.fptr + br];
    res := ReadAll(fs, fp, buff, br);
    OverlayFront(b, d);
  }

  /** The loop of f_read, for a read that stays inside the file. */
  method ReadAll(fs: Volume, fp: File, buff: array<Byte>, btr: Dword) returns (res: FResult)
    requires fs.Ready() && fp.Inv(fs.geo, fs.fat) && Outside(fs, buff) && btr <= buff.Length
    requires fp.fptr + btr <= fp.objsize
    modifies fs`wflag, fs`winsect, fs.win, fs.disk.data, buff, fp`fptr, fp`clust, fp`sect
    ensures fs.Ready() && fp.Inv(fs.geo, fs.fat) && res == OK && fp.fptr == old(fp.fptr) + btr
    ensures buff[..] == Overlay(old(buff[..]), 0, fp.Bytes(fs.geo, fs.view)[old(fp.fptr)..fp.fptr])
  {
    res := OK;
    var br := 0;
    ghost var p, s, b := fp.fptr, fp.Bytes(fs.geo, fs.view), buff[..];
    assert Filled(b, b, s, p, 0);
    while br < btr
      invariant fs.Ready() && fp.Inv(fs.geo, fs.fat) && res == OK
      invariant 0 <= br <= btr && fp.fptr == p + br
      invariant Filled(b, buff[..], s, p, br)
    {
      var cnt;
      ghost var b1 := buff[..];
      res, cnt := ReadChunk(fs, fp, buff, br, btr - br);
      if res != OK { return; }
      FilledNext(b, b1, buff[..], s, p, br, cnt);
      br := br + cnt;
    }
  }

  /** The front of buffer `b` was filled with `n` bytes of `s`, from `p` on. */
  ghost predicate Filled(b: seq<Byte>, b': seq<Byte>, s: seq<Byte>, p: nat, n: nat)
  {
    p + n <= |s| && n <= |b| && b' == Overlay(b, 0, s[p..p + n])
  }

  lemma OverlayFront(b: seq<Byte>, d: seq<Byte>)
    requires |d| <= |b|
    ensures Overlay(b, 0, d)[..|d|] == d && Overlay(b, 0, d)[|d|..] == b[|d|..]
  {
  }

  lemma FilledNext(b: seq<Byte>, b1: seq<Byte>, b2: seq<Byte>, s: seq<Byte>, p: nat, br: nat, cnt: nat)
    requires Filled(b, b1, s, p, br) && p + br + cnt <= |s| && br + cnt <= |b|
    requires b2 == Overlay(b1, br, s[p + br..p + br + cnt])
    ensures Filled(b, b2, s, p, br + cnt)
  {
  }

  // ------------------------------------------------------------------ f_lseek

  /** The cluster-following loop of f_lseek.  Starts in cluster `j` of the file with
      `ofs0` bytes to go and ends in cluster `i` with at most one cluster to go, or
      behind the last cluster (`clst == 0`) if the volume is full. */
  method Walk(fs: Volume, fp: File, start: Dword, ofs0: Dword, ghost j: nat)
    returns (clst: Dword, ofs: Dword, ghost i: nat)
    requires Sound(fs) && IsChain(fs.fat, fp.chain) && j < |fp.chain|
    requires start == fp.clust == fp.chain[j] && fp.fptr == j * fs.geo.Bcs()
    requires 0 < ofs0 && fp.fptr + ofs0 < TWO32
    requires !fp.writable ==> fp.fptr + ofs0 <= |fp.chain| * fs.geo.Bcs()
    modifies fs, fs.win, fs.disk.data, fp`fptr, fp`clust, fp`chain
    ensures Sound(fs) && IsChain(fs.fat, fp.chain)
    ensures Grown(fs.geo, old(fs.fat), old(fs.view), old(fp.chain), fs.fat, fs.view, fp.chain)
    ensures old(fp.chain) <= fp.chain
    ensures i < |fp.chain| && fp.clust == fp.chain[i]
    ensures clst != 0 ==> clst == fp.clust && fp.fptr == i * fs.geo.Bcs() && 0 < ofs <= fs.geo.Bcs()
                          && fp.fptr + ofs == old(fp.fptr) + ofs0
    ensures clst == 0 ==> ofs == 0 && i + 1 == |fp.chain| && fp.fptr == |fp.chain| * fs.geo.Bcs()
                          && fp.fptr < old(fp.fptr) + ofs0 && Free(fs.fat) == {}
  {
    var bcs := fs.geo.csize * SS;
    clst, ofs, i := start, ofs0, j;
    GrownRefl(fs.geo, fs.fat, fs.view, fp.chain);
    while ofs > bcs
      invariant Sound(fs) && IsChain(fs.fat, fp.chain)
      invariant Grown(fs.geo, old(fs.fat), old(fs.view), old(fp.chain), fs.fat, fs.view, fp.chain)
      invariant i < |fp.chain| && clst == fp.clust == fp.chain[i]
      invariant fp.fptr == i * bcs && 0 < ofs && fp.fptr + ofs == old(fp.fptr) + ofs0
      invariant !fp.writable ==> fp.fptr + ofs <= |fp.chain| * bcs
      invariant old(fp.chain) <= fp.chain
      decreases ofs
    {
      ghost var f1, v1, ch1 := fs.fat, fs.view, fp.chain;
      ofs := ofs - bcs;
      NextBase(i, bcs);
      fp.fptr := fp.fptr + bcs;
      if !fp.writable { NotLast(bcs, i, |fp.chain|, ofs); }
      clst := WalkStep(fs, fp, clst, i);
      GrownTrans(fs.geo, old(fs.fat), old(fs.view), old(fp.chain), f1, v1, ch1, fs.fat, fs.view, fp.chain);
      if clst == 0 {
        ofs := 0;
        break;
      }
      fp.clust := clst;
      i := i + 1;
    }
  }

  /** From cluster `i` of the file to the next one: stretching in write mode, else along
      the FAT. */
  method WalkStep(fs: Volume, fp: File, cur: Dword, ghost i: nat) returns (clst: Dword)
    requires Sound(fs) && IsChain(fs.fat, fp.chain) && i < |fp.chain| && cur == fp.chain[i]
    requires !fp.writable ==> i + 1 < |fp.chain|
    modifies fs, fs.win, fs.disk.data, fp`chain
    ensures Sound(fs) && IsChain(fs.fat, fp.chain)
    ensures Grown(fs.geo, old(fs.fat), old(fs.view), old(fp.chain), fs.fat, fs.view, fp.chain)
    ensures old(fp.chain) <= fp.chain && (!fp.writable ==> fp.chain == old(fp.chain))
    ensures clst == 0 ==> Free(fs.fat) == {} && i + 1 == |fp.chain|
    ensures clst != 0 ==> i + 1 < |fp.chain| && clst == fp.chain[i + 1]
  {
    if fp.writable {
      clst, fp.chain := Follow(fs, cur, fp.chain, i + 1);
    } else {
      GrownRefl(fs.geo, fs.fat, fs.view, fp.chain);
      assert Linked(fs.fat, fp.chain, i);
      clst := GetFat(fs, cur);
    }
  }

  /** The chain may have grown; apart from the FAT nothing changed. */
  ghost predicate Grown(g: Geometry, f: FatMap, v: seq<Byte>, ch: seq<Dword>,
                        f': FatMap, v': seq<Byte>, ch': seq<Dword>)
  {
    forall k :: UnfoldFrame(k) ==> FatUpdated(g, v, v') && Extends(f, ch, f', ch')
  }

  lemma GrownRefl(g: Geometry, f: FatMap, v: seq<Byte>, ch: seq<Dword>)
    ensures Grown(g, f, v, ch, f, v, ch)
  {
  }

  lemma GrownTrans(g: Geometry, f: FatMap, v: seq<Byte>, ch: seq<Dword>,
                   f': FatMap, v': seq<Byte>, ch': seq<Dword>, f'': FatMap, v'': seq<Byte>, ch'': seq<Dword>)
    requires Grown(g, f, v, ch, f', v', ch') && Grown(g, f', v', ch', f'', v'', ch'') && IsChain(f', ch')
    ensures Grown(g, f, v, ch, f'', v'', ch'')
  {
    assert UnfoldFrame(0);
    ExtendsTrans(f, ch, f', ch', f'', ch'');
    FatUpdatedTrans(g, v, v', v'');
  }

  lemma NextBase(i: nat, b: nat)
    ensures (i + 1) * b == i * b + b
  {
  }

  /** With bytes to go behind cluster `i`, it is not the last one. */
  lemma NotLast(b: nat, i: nat, m: nat, ofs: nat)
    requires i < m && 0 < ofs && (i + 1) * b + ofs <= m * b
    ensures i + 1 < m
  {
  }

  /** Where f_lseek starts following: at the current cluster if the target is in it or
      behind it, else at the first cluster, creating one if the file has none. */
  method SeekStart(fs: Volume, fp: File, ofs: Dword) returns (clst: Dword, rest: Dword, ghost j: nat)
    requires Sound(fs) && fp.Inv(fs.geo, fs.fat) && ofs > 0
    requires !fp.writable ==> ofs <= fp.objsize
    modifies fs, fs.win, fs.disk.data, fp`fptr, fp`clust, fp`sclust, fp`chain
    ensures Sound(fs) && IsChain(fs.fat, fp.chain) && fp.sclust == Nth(fp.chain, 0)
    ensures Grown(fs.geo, old(fs.fat), old(fs.view), old(fp.chain), fs.fat, fs.view, fp.chain)
    ensures fp.chain != old(fp.chain) ==> old(fp.chain) == []
    ensures clst != 0 ==> j < |fp.chain| && clst == fp.clust == fp.chain[j]
                          && fp.fptr == j * fs.geo.Bcs() && 0 < rest && fp.fptr + rest == ofs
    ensures clst == 0 ==> fp.chain == [] && fp.fptr == 0 && Free(fs.fat) == {}
  {
    assert UnfoldFil(0);
    var ifptr := fp.fptr;
    var bcs := fs.geo.csize * SS;
    rest, j := ofs, 0;
    GrownRefl(fs.geo, fs.fat, fs.view, fp.chain);
    fp.fptr := 0;
    if ifptr > 0 && (ofs - 1) / bcs >= (ifptr - 1) / bcs {
      ClusterTopIs(fs.geo, ifptr - 1);
      Covered(fs.geo, ifptr - 1, |fp.chain|);
      NotBefore(bcs, ofs - 1, ifptr - 1);
      j := (ifptr - 1) / fs.geo.Bcs();
      fp.fptr := ClusterTop(fs.geo, ifptr - 1);
      rest := ofs - fp.fptr;
      clst := fp.clust;
    } else {
      clst := fp.sclust;
      if clst == 0 {
        clst, fp.chain := Follow(fs, 0, [], 0);
        fp.sclust := clst;
      }
      fp.clust := clst;
    }
  }

  lemma NotBefore(b: nat, x: nat, y: nat)
    requires b > 0 && x / b >= y / b
    ensures x >= y / b * b
  {
    assert x == x / b * b + x % b;
    assert x / b * b == y / b * b + (x / b - y / b) * b;
    assert (x / b - y / b) * b >= 0;
  }

  /** Follows the chain to position `ofs` and returns the sector of the cursor if it is
      inside one.  `full`: the volume had no cluster left on the way. */
  method SeekTo(fs: Volume, fp: File, ofs: Dword) returns (nsect: Dword, ghost full: bool)
    requires Sound(fs) && fp.Inv(fs.geo, fs.fat) && ofs > 0
    requires !fp.writable ==> ofs <= fp.objsize
    modifies fs, fs.win, fs.disk.data, fp`fptr, fp`clust, fp`sclust, fp`chain
    ensures Sound(fs) && IsChain(fs.fat, fp.chain) && fp.sclust == Nth(fp.chain, 0)
    ensures Grown(fs.geo, old(fs.fat), old(fs.view), old(fp.chain), fs.fat, fs.view, fp.chain)
    ensures Settled(fs.geo, fp.chain, fp.clust, fp.fptr, nsect)
    ensures !full ==> fp.fptr == ofs
    ensures full ==> fp.fptr == |fp.chain| * fs.geo.Bcs() < ofs && Free(fs.fat) == {}
  {
    nsect, full := 0, true;
    ghost var j;
    InvChain(fp.Val(), fs.geo, fs.fat);
    SettledStart(fs.geo, fp.chain, fp.clust, nsect);
    var clst, rest;
    clst, rest, j := SeekStart(fs, fp, ofs);
    SettledStart(fs.geo, fp.chain, fp.clust, nsect);
    if clst != 0 {
      ghost var f1, v1, ch1 := fs.fat, fs.view, fp.chain;
      if !fp.writable { CoversFile(fs.geo, old(fp.chain), fp.chain, fp.objsize); }
      clst, rest, j := Walk(fs, fp, clst, rest, j);
      GrownTrans(fs.geo, old(fs.fat), old(fs.view), old(fp.chain), f1, v1, ch1, fs.fat, fs.view, fp.chain);
      full := clst == 0;
      nsect := Land(fs, fp, clst, rest, j);
    }
  }

  /** The end of the walk in cluster `j`: the cursor moves on and the sector follows. */
  method Land(fs: Volume, fp: File, clst: Dword, rest: Dword, ghost j: nat) returns (nsect: Dword)
    requires fs.geo.Valid(fs.disk.sectors) && j < |fp.chain| && fp.clust == fp.chain[j] < fs.geo.nFatent
    requires 2 <= fp.clust
    requires rest <= fs.geo.Bcs() && (rest > 0 ==> clst == fp.clust) && fp.fptr + rest < TWO32
    requires fp.fptr == if rest > 0 then j * fs.geo.Bcs() else (j + 1) * fs.geo.Bcs()
    modifies fp`fptr
    ensures fp.fptr == old(fp.fptr) + rest && Settled(fs.geo, fp.chain, fp.clust, fp.fptr, nsect)
  {
    nsect := 0;
    if rest % SS != 0 {
      ClusterInside(fs.geo, fs.disk.sectors, fp.clust);
      SectorsInside(fs.geo, rest);
      nsect := Clst2Sect(fs.geo, clst);
      nsect := nsect + rest / SS;
    }
    SettledAt(fs.geo, fp.chain, fp.fptr, j, rest, nsect);
    fp.fptr := fp.fptr + rest;
  }

  /** The clauses of the invariant that the cursor `p` needs; `nsect` is its sector if it is inside
      one. */
  ghost predicate Settled(g: Geometry, ch: seq<Dword>, clust: Dword, p: nat, nsect: Dword)
    requires g.csize > 0
  {
    forall k :: UnfoldSpot(k) ==>
      && p <= |ch| * g.Bcs() && (p > 0 ==> clust == Nth(ch, (p - 1) / g.Bcs()))
      && (p % SS != 0 ==> nsect == SectorAt(g, ch, p))
  }

  lemma SettledStart(g: Geometry, ch: seq<Dword>, clust: Dword, nsect: Dword)
    requires g.csize > 0
    ensures Settled(g, ch, clust, 0, nsect)
  {
  }

  lemma SectorsInside(g: Geometry, rest: nat)
    requires rest <= g.Bcs() && rest % SS != 0
    ensures rest / SS < g.csize
  {
  }

  lemma SettledAt(g: Geometry, ch: seq<Dword>, base: nat, i: nat, rest: nat, nsect: Dword)
    requires g.csize > 0 && i < |ch| && rest <= g.Bcs()
    requires base == if rest > 0 then i * g.Bcs() else (i + 1) * g.Bcs()
    requires rest % SS != 0 ==> nsect == Clst2Sect(g, ch[i]) + rest / SS
    ensures Settled(g, ch, ch[i], base + rest, nsect)
  {
    LandedAt(g, ch, base, i, rest);
  }

  /** The invariant's clauses at the place where a walk ends. */
  lemma LandedAt(g: Geometry, ch: seq<Dword>, base: nat, i: nat, rest: nat)
    requires g.csize > 0 && i < |ch| && rest <= g.Bcs()
    requires base == if rest > 0 then i * g.Bcs() else (i + 1) * g.Bcs()
    ensures base + rest > 0 && base + rest <= |ch| * g.Bcs() && ch[i] == Nth(ch, (base + rest - 1) / g.Bcs())
    ensures (base + rest) % SS == rest % SS
    ensures rest % SS != 0 ==> rest / SS < g.csize && Clst2Sect(g, ch[i]) + rest / SS == SectorAt(g, ch, base + rest)
  {
    Landed(g, base, i, rest, |ch|);
  }

  lemma CoversFile(g: Geometry, ch: seq<Dword>, ch': seq<Dword>, size: nat)
    requires size <= |ch| * g.Bcs() && ch <= ch'
    ensures size <= |ch'| * g.Bcs()
  {
    LongerCovers(g.Bcs(), |ch|, |ch'|);
  }

  /** The cursor after the walk: `rest` bytes into cluster `i`, or at the end of it. */
  lemma Landed(g: Geometry, base: nat, i: nat, rest: nat, m: nat)
    requires g.csize > 0 && i < m && rest <= g.Bcs()
    requires base == if rest > 0 then i * g.Bcs() else (i + 1) * g.Bcs()
    ensures base + rest > 0 && (base + rest - 1) / g.Bcs() == i && base + rest <= m * g.Bcs()
    ensures (base + rest) % SS == rest % SS
    ensures rest % SS != 0 ==> (base + rest) / g.Bcs() == i && (base + rest) % g.Bcs() == rest
    ensures rest % SS != 0 ==> rest / SS < g.csize
  {
    NextBase(i, g.Bcs());
    LandedIndex(g.Bcs(), base, i, rest, m);
    ClusterSectors(g, if rest > 0 then i else i + 1);
    AddSectors(base, rest);
    if rest % SS != 0 {
      assert rest < g.Bcs();
      DivModUnique(base + rest, g.Bcs(), i, rest);
    }
  }

  lemma AddSectors(base: nat, rest: nat)
    requires base % SS == 0
    ensures (base + rest) % SS == rest % SS
  {
  }

  lemma LandedIndex(b: nat, base: nat, i: nat, rest: nat, m: nat)
    requires b > 0 && i < m && rest <= b && base == if rest > 0 then i * b else i * b + b
    ensures base + rest > 0 && (base + rest - 1) / b == i && base + rest <= m * b
  {
    MulLe(b, i + 1, m);
    NextBase(i, b);
    assert i * b >= 0;
    DivModUnique(base + rest - 1, b, i, if rest > 0 then rest - 1 else b - 1);
  }

  lemma ClusterSectors(g: Geometry, i: nat)
    ensures i * g.Bcs() % SS == 0 && g.Bcs() % SS == 0
  {
    assert i * g.Bcs() == i * g.csize * SS;
  }

  /** f_lseek (normal seek).  Moves the cursor to `ofs0`, clipped at the end of a file
      not open for writing; in write mode the file is extended, as far as clusters can
      be had.  Existing bytes do not change. */
  method FLseek(fs: Volume, fp: File, ofs0: Dword) returns (res: FResult)
    requires Sound(fs) && fp.Inv(fs.geo, fs.fat)
    modifies fs, fs.win, fs.disk.data, fp
    ensures Sound(fs) && fp.Inv(fs.geo, fs.fat)
    ensures res == old(fp.err) && fp.err == old(fp.err)
    ensures fp.readable == old(fp.readable) && fp.writable == old(fp.writable)
    ensures Grown(fs.geo, old(fs.fat), old(fs.view), old(fp.chain), fs.fat, fs.view, fp.chain)
    ensures fp.objsize == Max(old(fp.objsize), fp.fptr)
    ensures fp.modified == (old(fp.modified) || fp.objsize > old(fp.objsize))
    ensures fp.Bytes(fs.geo, fs.view)[..old(fp.objsize)] == old(fp.Bytes(fs.geo, fs.view))
    ensures res != OK ==>
              && fp.fptr == old(fp.fptr)
              && Untouched(old(fs.view), old(fs.fat), old(fp.chain), fs.view, fs.fat, fp.chain)
    ensures res == OK ==>
              var target := if old(fp.writable) then ofs0 else Min(ofs0, old(fp.objsize));
              && (fp.fptr == target || (fp.fptr == |fp.chain| * fs.geo.Bcs() < target && Free(fs.fat) == {}))
              && (target == 0 ==> fp.chain == old(fp.chain))
  {
    res := fp.err;
    if fp.err != OK {
      GrownRefl(fs.geo, fs.fat, fs.view, fp.chain);
    } else {
      var ofs := ofs0;
      if ofs > fp.objsize && !fp.writable { ofs := fp.objsize; }
      MoveCursor(fs, fp, ofs);
    }
  }

  /** f_lseek behind its checks. */
  method MoveCursor(fs: Volume, fp: File, ofs: Dword)
    requires Sound(fs) && fp.Inv(fs.geo, fs.fat)
    requires !fp.writable ==> ofs <= fp.objsize
    modifies fs, fs.win, fs.disk.data, fp`fptr, fp`clust, fp`sclust, fp`chain, fp`objsize, fp`sect, fp`modified
    ensures Sound(fs) && fp.Inv(fs.geo, fs.fat)
    ensures Grown(fs.geo, old(fs.fat), old(fs.view), old(fp.chain), fs.fat, fs.view, fp.chain)
    ensures fp.objsize == Max(old(fp.objsize), fp.fptr)
    ensures fp.modified == (old(fp.modified) || fp.objsize > old(fp.objsize))
    ensures fp.Bytes(fs.geo, fs.view)[..old(fp.objsize)] == old(fp.Bytes(fs.geo, fs.view))
    ensures fp.fptr == ofs || (fp.fptr == |fp.chain| * fs.geo.Bcs() < ofs && Free(fs.fat) == {})
    ensures ofs == 0 ==> fp.chain == old(fp.chain)
  {
    var nsect := 0;
    InvChain(fp.Val(), fs.geo, fs.fat);
    if ofs > 0 {
      ghost var full;
      nsect, full := SeekTo(fs, fp, ofs);
    } else {
      GrownRefl(fs.geo, fs.fat, fs.view, fp.chain);
      fp.fptr := 0;
      SettledStart(fs.geo, fp.chain, fp.clust, nsect);
    }
    GrownBytes(fs.geo, old(fs.fat), old(fs.view), old(fp.chain), fs.fat, fs.view, fp.chain, fp.objsize,
               Max(fp.objsize, fp.fptr));
    SettleCursor(fs, fp, nsect);
  }

  /** The end of f_lseek: the file grows up to the cursor, and `sect` follows it. */
  method SettleCursor(fs: Volume, fp: File, nsect: Dword)
    requires fs.geo.csize > 0 && IsChain(fs.fat, fp.chain) && |fs.fat| == fs.geo.nFatent
    requires fp.sclust == Nth(fp.chain, 0) && fp.objsize <= |fp.chain| * fs.geo.Bcs()
    requires Settled(fs.geo, fp.chain, fp.clust, fp.fptr, nsect)
    modifies fp`objsize, fp`sect, fp`modified
    ensures fp.Inv(fs.geo, fs.fat) && fp.objsize == Max(old(fp.objsize), fp.fptr)
    ensures fp.modified == (old(fp.modified) || fp.objsize > old(fp.objsize))
  {
    assert UnfoldSpot(0);
    if fp.fptr > fp.objsize {
      fp.objsize := fp.fptr;
      fp.modified := true;
    }
    if fp.fptr % SS != 0 && nsect != fp.sect { fp.sect := nsect; }
  }

  /** Growing the chain keeps the bytes the file had. */
  lemma GrownBytes(g: Geometry, f: FatMap, v: seq<Byte>, ch: seq<Dword>,
                   f': FatMap, v': seq<Byte>, ch': seq<Dword>, size: nat, size': nat)
    requires g.Valid(|v| / SS) && |f| == g.nFatent && IsChain(f, ch) && size <= |ch| * g.Bcs()
    requires Grown(g, f, v, ch, f', v', ch') && size <= size'
    ensures Content(g, v', ch', size')[..size] == Content(g, v, ch, size)
    ensures size <= |ch'| * g.Bcs()
  {
    assert UnfoldFrame(0);
    GrownKeeps(g, f, v, ch, f', v', ch', size);
    assert Content(g, v', ch', size')[..size] == Content(g, v', ch', size);
  }

  // ------------------------------------------------- f_open with FA_OPEN_APPEND

  /** The seek to the end of a non-empty file that f_open does in append mode. */
  method SeekToEnd(fs: Volume, fp: File) returns (res: FResult)
    requires fs.Ready() && fp.Inv(fs.geo, fs.fat) && fp.fptr == 0 && fp.objsize > 0
    modifies fs`wflag, fs`winsect, fs.win, fs.disk.data, fp`fptr, fp`clust, fp`sect
    ensures fs.Ready() && res == OK
    ensures fp.Inv(fs.geo, fs.fat) && fp.fptr == fp.objsize
  {
    ghost var i;
    assert UnfoldFil(0);
    var clst, ofs;
    res, clst, ofs, i := FollowToEnd(fs, fp);
    Landed(fs.geo, fp.objsize - ofs, i, ofs, |fp.chain|);
    fp.fptr := fp.objsize;
    fp.clust := clst;
    if res == OK && ofs % SS != 0 {
      ClusterInside(fs.geo, fs.disk.sectors, clst);
      var sc := Clst2Sect(fs.geo, clst);
      if sc == 0 {
        res := INT_ERR;
      } else {
        fp.sect := sc + ofs / SS;
      }
    }
  }

  /** Its loop: cluster `i`, the last one the file needs, and the bytes used in it. */
  method FollowToEnd(fs: Volume, fp: File) returns (res: FResult, clst: Dword, ofs: Dword, ghost i: nat)
    requires fs.Ready() && fp.Chained(fs.geo, fs.fat) && fp.objsize > 0
    modifies fs`wflag, fs`winsect, fs.win, fs.disk.data
    ensures fs.Ready() && res == OK
    ensures i < |fp.chain| && clst == fp.chain[i]
    ensures 0 < ofs <= fs.geo.Bcs() && fp.objsize == i * fs.geo.Bcs() + ofs
  {
    var bcs := fs.geo.csize * SS;
    res, clst, ofs, i := OK, fp.sclust, fp.objsize, 0;
    while res == OK && ofs > bcs
      invariant fs.Ready() && res == OK
      invariant i < |fp.chain| && clst == fp.chain[i] && 0 < ofs && fp.objsize == i * bcs + ofs
      decreases ofs
    {
      NextBase(i, bcs);
      NotLast(bcs, i, |fp.chain|, ofs - bcs);
      assert Linked(fs.fat, fp.chain, i);
      clst := GetFat(fs, clst);
      if clst <= 1 { res := INT_ERR; }
      if clst == 0xFFFF_FFFF { res := DISK_ERR; }
      i := i + 1;
      ofs := ofs - bcs;
    }
  }

  /** The end of f_open, for an object with the chain `ch`. */
  method OpenObject(fs: Volume, sclust: Dword, size: Dword, readable: bool, writable: bool, append: bool,
                    ghost ch: seq<Dword>) returns (res: FResult, fp: File)
    requires fs.Ready() && IsChain(fs.fat, ch) && sclust == Nth(ch, 0) && size <= |ch| * fs.geo.Bcs()
    modifies fs`wflag, fs`winsect, fs.win, fs.disk.data
    ensures fs.Ready() && res == OK && fresh(fp) && fp.Inv(fs.geo, fs.fat)
    ensures fp.chain == ch && fp.objsize == size && fp.fptr == (if append then size else 0)
    ensures fp.readable == readable && fp.writable == writable && fp.err == OK
  {
    fp := new File(sclust, size, readable, writable, ch);
    res := OK;
    if append && fp.objsize > 0 { res := SeekToEnd(fs, fp); }
  }

  // --------------------------------------------------------------- f_truncate

  /** The chain has been cut to a prefix; apart from the FAT nothing changed, and in it
      only entries of the old chain. */
  ghost predicate Trimmed(g: Geometry, f: FatMap, v: seq<Byte>, ch: seq<Dword>,
                          f': FatMap, v': seq<Byte>, ch': seq<Dword>)
  {
    forall k :: UnfoldFrame(k) ==>
      && FatUpdated(g, v, v') && |f'| == |f| && ch' <= ch
      && (forall c :: 0 <= c < |f| && c !in ch ==> f'[c] == f[c])
      && (forall i :: |ch'| <= i < |ch| && ch[i] < |f| ==> f'[ch[i]] == 0)
  }

  /** Clusters needed for `n` bytes. */
  function ClustersFor(g: Geometry, n: nat): int
    requires g.csize > 0
  {
    (n + g.Bcs() - 1) / g.Bcs()
  }

  lemma ClustersForIs(g: Geometry, n: nat)
    requires g.csize > 0
    ensures ClustersFor(g, n) == if n == 0 then 0 else (n - 1) / g.Bcs() + 1
    ensures n <= ClustersFor(g, n) * g.Bcs()
  {
    var b := g.Bcs();
    if n == 0 {
      DivModUnique(b - 1, b, 0, b - 1);
    } else {
      DivModExact(n - 1, b);
      var q, r := (n - 1) / b, (n - 1) % b;
      NextBase(q, b);
      DivModUnique(n + b - 1, b, q + 1, r);
    }
  }

  lemma CutTrims(g: Geometry, f: FatMap, v: seq<Byte>, ch: seq<Dword>, m: nat, eoc: Dword, v': seq<Byte>)
    requires IsChain(f, ch) && m <= |ch| && eoc >= |f| && FatUpdated(g, v, v')
    ensures Trimmed(g, f, v, ch, Cut(f, ch, m, eoc), v', ch[..m])
    ensures IsChain(Cut(f, ch, m, eoc), ch[..m])
  {
    CutChain(f, ch, m, eoc);
    var f' := Cut(f, ch, m, eoc);
    forall i | m <= i < |ch| ensures f'[ch[i]] == 0 {
      assert ch[i] == ch[m..][i - m];
    }
  }

  /** remove_chain on the tail of a proper chain, from its cluster `m` on. */
  method RemoveTail(fs: Volume, clst: Dword, pclst: Dword, ghost ch: seq<Dword>, ghost m: nat) returns (res: FResult)
    requires Sound(fs) && Splits(fs.fat, ch, m, clst, pclst)
    modifies fs, fs.win, fs.disk.data
    ensures Sound(fs) && res == OK && IsChain(fs.fat, ch[..m])
    ensures Trimmed(fs.geo, old(fs.fat), old(fs.view), ch, fs.fat, fs.view, ch[..m])
  {
    ghost var f, v := fs.fat, fs.view;
    EocIsEnd(fs.geo, fs.disk.sectors);
    if m > 0 { assert Linked(f, ch, m - 1); }
    res := RemoveChain(fs, clst, pclst, ch, m);
    CutTrims(fs.geo, f, v, ch, m, Eoc(fs.geo), fs.view);
  }

  /** Releases the clusters behind the cursor. */
  method TrimChain(fs: Volume, fp: File) returns (res: FResult)
    requires Sound(fs) && fp.Inv(fs.geo, fs.fat) && fp.fptr < fp.objsize
    modifies fs, fs.win, fs.disk.data, fp`sclust, fp`chain
    ensures Sound(fs) && IsChain(fs.fat, fp.chain) && fp.sclust == Nth(fp.chain, 0) && res == OK
    ensures Trimmed(fs.geo, old(fs.fat), old(fs.view), old(fp.chain), fs.fat, fs.view, fp.chain)
    ensures |fp.chain| == ClustersFor(fs.geo, fp.fptr)
  {
    assert UnfoldFil(0);
    ClustersForIs(fs.geo, fp.fptr);
    if fp.fptr == 0 {
      res := RemoveTail(fs, fp.sclust, 0, fp.chain, 0);
      fp.sclust := 0;
      fp.chain := fp.chain[..0];
    } else {
      ghost var k := (fp.fptr - 1) / fs.geo.Bcs();
      CursorCluster(fs.geo, fs.fat, fp.chain, fp.fptr);
      res := TrimBehind(fs, fp, k);
    }
  }

  /** Releases the clusters behind the current one, which is number `k`. */
  method TrimBehind(fs: Volume, fp: File, ghost k: nat) returns (res: FResult)
    requires Sound(fs) && IsChain(fs.fat, fp.chain) && k < |fp.chain| && fp.clust == fp.chain[k]
    modifies fs, fs.win, fs.disk.data, fp`chain
    ensures Sound(fs) && IsChain(fs.fat, fp.chain) && res == OK && fp.chain == old(fp.chain)[..k + 1]
    ensures Trimmed(fs.geo, old(fs.fat), old(fs.view), old(fp.chain), fs.fat, fs.view, fp.chain)
  {
    assert Linked(fs.fat, fp.chain, k);
    var ncl := GetFat(fs, fp.clust);
    res := OK;
    if ncl == 0xFFFF_FFFF { res := DISK_ERR; }
    if ncl == 1 { res := INT_ERR; }
    if res == OK && ncl < fs.geo.nFatent {
      res := RemoveTail(fs, ncl, fp.clust, fp.chain, k + 1);
      fp.chain := fp.chain[..k + 1];
    } else {
      TrimmedRefl(fs.geo, fs.fat, fs.view, fp.chain);
    }
  }

  /** The cluster before the cursor exists, and its FAT entry is the next one or EOC. */
  lemma CursorCluster(g: Geometry, f: FatMap, ch: seq<Dword>, p: nat)
    requires g.csize > 0 && IsChain(f, ch) && 0 < p <= |ch| * g.Bcs()
    ensures 0 <= (p - 1) / g.Bcs() < |ch| && Linked(f, ch, (p - 1) / g.Bcs())
  {
    IndexNat(g, p - 1);
    Covered(g, p - 1, |ch|);
  }

  lemma TrimmedRefl(g: Geometry, f: FatMap, v: seq<Byte>, ch: seq<Dword>)
    ensures Trimmed(g, f, v, ch, f, v, ch)
  {
  }

  /** f_truncate.  Cuts the file at the cursor and keeps exactly the clusters that the
      remaining bytes need. */
  method FTruncate(fs: Volume, fp: File) returns (res: FResult)
    requires Sound(fs) && fp.Inv(fs.geo, fs.fat)
    modifies fs, fs.win, fs.disk.data, fp
    ensures Sound(fs) && fp.Inv(fs.geo, fs.fat)
    ensures res == if old(fp.err) != OK then old(fp.err) else if old(fp.writable) then OK else DENIED
    ensures fp.err == old(fp.err) && fp.readable == old(fp.readable) && fp.writable == old(fp.writable)
    ensures fp.fptr == old(fp.fptr)
    ensures Trimmed(fs.geo, old(fs.fat), old(fs.view), old(fp.chain), fs.fat, fs.view, fp.chain)
    ensures res == OK ==> fp.Bytes(fs.geo, fs.view) == old(fp.Bytes(fs.geo, fs.view))[..fp.fptr]
    ensures res == OK && fp.fptr < old(fp.objsize) ==> |fp.chain| == ClustersFor(fs.geo, fp.fptr)
    ensures res != OK ==> fp.Bytes(fs.geo, fs.view) == old(fp.Bytes(fs.geo, fs.view))
    ensures fp.modified == (old(fp.modified) || (res == OK && fp.fptr < old(fp.objsize)))
    ensures res != OK || old(fp.fptr) == old(fp.objsize) ==>
              Untouched(old(fs.view), old(fs.fat), old(fp.chain), fs.view, fs.fat, fp.chain)
  {
    if fp.err != OK { return fp.err; }
    if !fp.writable { return DENIED; }
    res := OK;
    if fp.fptr < fp.objsize {
      assert UnfoldFil(0);
      res := TrimChain(fs, fp);
      TrimmedBytes(fs.geo, old(fs.fat), old(fs.view), old(fp.chain), fs.fat, fs.view, fp.chain, fp.objsize, fp.fptr);
      fp.objsize := fp.fptr;
      fp.modified := true;
    }
  }

  lemma TrimmedBytes(g: Geometry, f: FatMap, v: seq<Byte>, ch: seq<Dword>,
                     f': FatMap, v': seq<Byte>, ch': seq<Dword>, size: nat, p: nat)
    requires g.Valid(|v| / SS) && |f| == g.nFatent && IsChain(f, ch) && p <= size
    requires Trimmed(g, f, v, ch, f', v', ch') && |ch'| == ClustersFor(g, p)
    ensures Content(g, v', ch', p) == Content(g, v, ch, size)[..p]
    ensures p <= |ch'| * g.Bcs()
    ensures p > 0 ==> Nth(ch', (p - 1) / g.Bcs()) == Nth(ch, (p - 1) / g.Bcs())
    ensures p % SS != 0 ==> SectorAt(g, ch', p) == SectorAt(g, ch, p)
  {
    assert UnfoldFrame(0);
    ClustersForIs(g, p);
    FatChangeKeepsContent(g, f, v, v', ch, p);
    PrefixContent(g, v', ch', ch, p);
    assert Content(g, v, ch, size)[..p] == Content(g, v, ch, p);
    if p > 0 {
      IndexNat(g, p - 1);
      if p % SS != 0 { SameIndex(g, p); }
    }
  }

  /** Inside a sector, a position and the one before it are in the same cluster. */
  lemma SameIndex(g: Geometry, p: nat)
    requires g.csize > 0 && p > 0 && p % SS != 0
    ensures (p - 1) / g.Bcs() == p / g.Bcs()
  {
    DivModExact(p, g.Bcs());
    var k, r := p / g.Bcs(), p % g.Bcs();
    if r == 0 {
      assert p == (k * g.csize) * SS;
      WholeSectors(0, k * g.csize);
    } else {
      DivModUnique(p - 1, g.Bcs(), k, r - 1);
    }
  }

  /** Truncating a file leaves every other file as it was. */
  lemma OthersAfterTrim(g: Geometry, f: FatMap, v: seq<Byte>, ch: seq<Dword>,
                        f': FatMap, v': seq<Byte>, ch': seq<Dword>, other: seq<Dword>, size: nat)
    requires g.Valid(|v| / SS) && |f| == g.nFatent
    requires IsChain(f, other) && Disjoint(other, ch) && Trimmed(g, f, v, ch, f', v', ch')
    ensures IsChain(f', other) && Disjoint(other, ch')
    ensures Content(g, v', other, size) == Content(g, v, other, size)
  {
    assert UnfoldFrame(0);
    ChainFrame(f, f', other);
    FatChangeKeepsContent(g, f, v, v', other, size);
  }
}
