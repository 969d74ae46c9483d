/** The directory layer without long names: dir_sdi, dir_next, dir_find, dir_read, dir_alloc,
    dir_register and dir_remove.  On arbitrary disk content they terminate and do what DirWalk
    says; on a sound table they refine a finite map from names to entries. */
module Directory {
  import opened Bytes
  import opened Layout
  import opened DiskIo
  import opened FatBits
  import opened Window
  import opened FatCodec
  import opened Chains
  import opened Allocator
  import opened FileData
  import opened DataWindow
  import opened Files
  import opened DirTable
  import opened DirWalk

  // --------------------------------------------------- tables on the volume

  ghost function Table(g: Geometry, v: seq<Byte>, ch: seq<Dword>): (t: seq<Byte>)
    requires g.Valid(|v| / SS)
    ensures |t| == TableSize(g, ch)
  {
    if ch == [] then v[g.FatEnd() * SS..g.FatEnd() * SS + g.nRootdir * SZDIRE]
    else Content(g, v, ch, |ch| * g.Bcs())
  }

  // ----------------------------------------------------------------- dir_sdi

  /** dir_sdi: sets the cursor to offset `ofs0`, if links lead there; on a sound table, if the
      table has an entry there. */
  method DirSdi(fs: Volume, dp: Dir, ofs0: Dword) returns (res: FResult)
    requires fs.Ready()
    modifies fs`wflag, fs`winsect, fs.win, fs.disk.data, dp`dptr, dp`clust, dp`sect
    ensures fs.Ready()
    ensures match SdiOf(fs.geo, fs.fat, dp.sclust, ofs0)
            case None => res == INT_ERR
            case Some(c) => res == OK && dp.Cur() == c && Placed(fs.geo, c)
    ensures dp.Inv(fs.geo, fs.fat) ==>
              && (res == OK <==> ofs0 < MAX_DIR && ofs0 % SZDIRE == 0 && ofs0 < TableSize(fs.geo, dp.chain))
              && (res == OK ==> dp.dptr == ofs0 && dp.At(fs.geo))
  {
    res := SetIndex(fs, dp, ofs0);
    if res == OK { SdiPlaced(fs.geo, fs.fat, dp.sclust, ofs0); }
    if dp.Inv(fs.geo, fs.fat) { SdiOnTable(fs.geo, fs.disk.sectors, fs.fat, dp.sclust, dp.chain, ofs0); }
  }

  lemma SdiOnTable(g: Geometry, sectors: nat, f: FatMap, sclust: Dword, ch: seq<Dword>, p: nat)
    requires g.Valid(sectors) && |f| == g.nFatent && IsChain(f, ch)
    requires if sclust == 0 && g.fsType != FAT32 then ch == []
             else ch != [] && ch[0] == if sclust == 0 then g.dirbase else sclust
    ensures SdiOf(g, f, sclust, p).Some? <==> p < MAX_DIR && p % SZDIRE == 0 && p < TableSize(g, ch)
    ensures SdiOf(g, f, sclust, p).Some? ==>
              var c := SdiOf(g, f, sclust, p).value; c.dptr == p && AtPos(g, ch, p, c.clust, c.sect)
  {
    if ch != [] && p < MAX_DIR && p % SZDIRE == 0 {
      IndexNat(g, p);
      Covered(g, p, |ch|);
      HopChain(f, ch, p / g.Bcs());
      SectorOfPosition(g, p);
    }
  }

  lemma {:induction false} HopChain(f: FatMap, ch: seq<Dword>, k: nat)
    requires IsChain(f, ch) && ch != []
    ensures Hop(f, ch[0], k) == if k < |ch| then Some(ch[k]) else None
  {
    if k > 0 {
      HopChain(f, ch, k - 1);
      if k <= |ch| { assert Linked(f, ch, k - 1); }
    }
  }

  lemma SectorOfPosition(g: Geometry, p: nat)
    requires g.csize > 0 && IsPow2(g.csize)
    ensures 0 <= p / g.Bcs() && p % g.Bcs() / SS == SectorInCluster(g, p)
  {
    IndexNat(g, p);
    SplitPosition(g, p);
    InsideSector(g, p, p / g.Bcs(), SectorInCluster(g, p));
  }

  // ---------------------------------------------------------------- dir_next

  /** How a directory operation may change the volume: the table, the FAT where the table
      has grown, and nothing else. */
  ghost predicate DirFrame(g: Geometry, f: FatMap, v: seq<Byte>, ch: seq<Dword>,
                           f': FatMap, v': seq<Byte>, ch': seq<Dword>)
  {
    forall k :: UnfoldFrame(k) ==>
      && Extends(f, ch, f', ch') && |v'| == |v|
      && (forall a :: 0 <= a < |v| && !InFatArea(g, a) && !InTable(g, ch', a) ==> v'[a] == v[a])
      && (FatsAgree(g, v) ==> FatsAgree(g, v'))
  }

  ghost predicate InTable(g: Geometry, ch: seq<Dword>, a: int)
  {
    if ch == [] then g.FatEnd() * SS <= a < g.database * SS else Owned(g, ch, a)
  }

  lemma DirFrameRefl(g: Geometry, f: FatMap, v: seq<Byte>, ch: seq<Dword>)
    ensures DirFrame(g, f, v, ch, f, v, ch)
  {
  }

  /** For a chained table it is the frame of a file write. */
  lemma DirFrameOfWrite(g: Geometry, f: FatMap, v: seq<Byte>, ch: seq<Dword>, f': FatMap, v': seq<Byte>,
                        ch': seq<Dword>)
    requires ch' != [] && WriteFrame(g, f, v, ch, f', v', ch')
    ensures DirFrame(g, f, v, ch, f', v', ch')
  {
    assert UnfoldFrame(0);
  }

  /** A zeroed cluster behind the table appends zeros to it. */
  lemma StretchedTable(g: Geometry, f: FatMap, v: seq<Byte>, ch: seq<Dword>,
                       f': FatMap, v1: seq<Byte>, v': seq<Byte>, ch': seq<Dword>)
    requires g.csize > 0 && IsChain(f', ch') && |ch'| == |ch| + 1 && ch <= ch'
    requires WriteFrame(g, f, v, ch, f', v1, ch')
    requires Content(g, v1, ch', |ch| * g.Bcs()) == Content(g, v, ch, |ch| * g.Bcs())
    requires Stored(v1, v', g.ClusterBase(ch'[|ch|]), Zeros(g.Bcs()), g.Bcs())
    requires FatsAgree(g, v1) ==> FatsAgree(g, v')
    ensures DirFrame(g, f, v, ch, f', v', ch')
    ensures Content(g, v', ch', |ch'| * g.Bcs()) == Content(g, v, ch, |ch| * g.Bcs()) + Zeros(g.Bcs())
  {
    var n, z := |ch| * g.Bcs(), Zeros(g.Bcs());
    NextBase(|ch|, g.Bcs());
    WriteStep(g, f', v1, v', ch', n, n, |ch|, 0, z, g.Bcs());
    WriteFrameTrans(g, f, v, ch, f', v1, ch', f', v', ch');
    DirFrameOfWrite(g, f, v, ch, f', v', ch');
    SpliceAtEnd(Content(g, v, ch, n), z);
  }

  lemma SpliceAtEnd(s: seq<Byte>, d: seq<Byte>)
    ensures Splice(s, |s|, d) == s + d
  {
  }

  /** The table is the same, or has grown by a cleared cluster. */
  ghost predicate Grew(g: Geometry, v: seq<Byte>, ch: seq<Dword>, v': seq<Byte>, ch': seq<Dword>)
  {
    |v'| == |v| && forall k :: UnfoldFrame(k) ==>
      if ch' == ch then v' == v
      else g.Valid(|v| / SS) && Table(g, v', ch') == Table(g, v, ch) + Zeros(g.Bcs())
  }

  /** Whatever the FAT holds, only clusters that were free get new content or new links, and
      links that were there stay (to be looked at through `UnfoldFrame`). */
  ghost predicate OnlyFreeTouched(g: Geometry, f: FatMap, v: seq<Byte>, f': FatMap, v': seq<Byte>)
  {
    forall k :: UnfoldFrame(k) ==>
      && |f'| == |f| && |v'| == |v|
      && (forall c :: 0 <= c < |f| && f[c] != 0 ==> f'[c] != 0 && (f[c] < |f| ==> f'[c] == f[c]))
      && (forall a :: 0 <= a < |v| && !InFatArea(g, a) && v'[a] != v[a] ==> InFree(g, f, a))
      && (FatsAgree(g, v) ==> FatsAgree(g, v'))
  }

  /** Address `a` is in a free cluster. */
  ghost predicate InFree(g: Geometry, f: FatMap, a: int)
  {
    exists c: Dword :: FreeAt(g, f, a, c)
  }

  ghost predicate FreeAt(g: Geometry, f: FatMap, a: int, c: Dword)
  {
    2 <= c < |f| && f[c] == 0 && InCluster(g, c, a)
  }

  lemma TouchedRefl(g: Geometry, f: FatMap, v: seq<Byte>)
    ensures OnlyFreeTouched(g, f, v, f, v)
  {
  }

  lemma TouchedTrans(g: Geometry, f: FatMap, v: seq<Byte>, f': FatMap, v': seq<Byte>, f'': FatMap, v'': seq<Byte>)
    requires OnlyFreeTouched(g, f, v, f', v') && OnlyFreeTouched(g, f', v', f'', v'')
    ensures OnlyFreeTouched(g, f, v, f'', v'')
  {
    assert UnfoldFrame(0);
    forall a | 0 <= a < |v| && !InFatArea(g, a) && v''[a] != v[a] ensures InFree(g, f, a) {
      if v'[a] == v[a] {
        var c: Dword :| FreeAt(g, f', a, c);
        assert FreeAt(g, f, a, c);
      }
    }
  }

  lemma GrownTouches(g: Geometry, f: FatMap, v: seq<Byte>, f': FatMap, v1: seq<Byte>, v': seq<Byte>, clust: Dword,
                     n: Dword)
    requires GrownBy(g, f, v, f', v1, v', clust, n) && Eoc(g) != 0
    ensures OnlyFreeTouched(g, f, v, f', v')
  {
    assert UnfoldPos(0);
    forall a | 0 <= a < |v| && !InFatArea(g, a) && v'[a] != v[a] ensures InFree(g, f, a) {
      assert FreeAt(g, f, a, n);
    }
  }

  /** The cursor is on a sound table. */
  ghost predicate OnTable(fs: Volume, dp: Dir)
    reads fs, fs.win, fs.disk.data, fs.ledger, dp
  {
    Sound(fs) && dp.Inv(fs.geo, fs.fat) && dp.At(fs.geo)
  }

  /** dir_next: moves the cursor to the next entry, stretching the table if allowed.  On any disk
      content and from any cursor it touches free clusters only; on a sound table it is NO_FILE at the end of the
      table, DENIED if it could not be stretched. */
  method DirNext(fs: Volume, dp: Dir, stretch: bool) returns (res: FResult)
    requires fs.Ready() && Aligned(dp.Cur())
    modifies fs, fs.win, fs.disk.data, dp`dptr, dp`clust, dp`sect, dp`chain
    ensures fs.Ready() && OnlyFreeTouched(fs.geo, old(fs.fat), old(fs.view), fs.fat, fs.view)
    ensures Aligned(dp.Cur()) && (res == OK || res == NO_FILE || res == DENIED || res == INT_ERR)
    ensures res == NO_FILE ==> dp.sect == 0
    ensures res == OK ==>
              && dp.dptr == old(dp.dptr) + SZDIRE
              && (old(Placed(fs.geo, dp.Cur())) ==> Placed(fs.geo, dp.Cur()))
    ensures res != OK || !stretch ==> fs.view == old(fs.view) && fs.fat == old(fs.fat)
    ensures FreeExact(old(fs.fat), old(fs.freeClst)) ==> FreeExact(fs.fat, fs.freeClst)
    ensures old(Booked(fs)) ==> Booked(fs)
    ensures NoErrorMarks(old(fs.fat)) ==> NoErrorMarks(fs.fat)
    ensures old(OnTable(fs, dp)) ==>
              NextOnTable(fs.geo, old(fs.fat), old(fs.view), old(dp.chain), old(dp.dptr), stretch,
                          res, fs.fat, fs.view, dp.chain, dp.Cur())
    ensures old(OnTable(fs, dp)) ==> Sound(fs) && dp.Inv(fs.geo, fs.fat) && (res == OK ==> dp.At(fs.geo))
  {
    ghost var f, v, c, free, ch := fs.fat, fs.view, dp.Cur(), fs.freeClst, dp.chain;
    ghost var good := OnTable(fs, dp);
    ghost var v1;
    if good { PosOnVolume(fs.geo, fs.disk.sectors, f, ch, dp.dptr, dp.clust, dp.sect); }
    res, v1 := NextAnywhere(fs, dp, stretch);
    if good {
      dp.chain := NextGood(fs.geo, f, v, free, ch, c, stretch, res, fs.fat, v1, fs.view, dp.Cur(), dp.sclust);
    }
  }

  /** What dir_next does on any disk content. */
  method NextAnywhere(fs: Volume, dp: Dir, stretch: bool) returns (res: FResult, ghost v1: seq<Byte>)
    requires fs.Ready() && Aligned(dp.Cur())
    modifies fs, fs.win, fs.disk.data, dp`dptr, dp`clust, dp`sect
    ensures fs.Ready() && OnlyFreeTouched(fs.geo, old(fs.fat), old(fs.view), fs.fat, fs.view)
    ensures Aligned(dp.Cur()) && (res == OK || res == NO_FILE || res == DENIED || res == INT_ERR)
    ensures res == NO_FILE ==> dp.sect == 0
    ensures res == OK ==>
              && dp.dptr == old(dp.dptr) + SZDIRE
              && (old(Placed(fs.geo, dp.Cur())) ==> Placed(fs.geo, dp.Cur()))
    ensures res != OK || !stretch ==> fs.view == old(fs.view) && fs.fat == old(fs.fat)
    ensures FreeExact(old(fs.fat), old(fs.freeClst)) ==> FreeExact(fs.fat, fs.freeClst)
    ensures old(Booked(fs)) ==> Booked(fs)
    ensures NoErrorMarks(old(fs.fat)) ==> NoErrorMarks(fs.fat)
    ensures old(dp.sect) != 0 ==>
              NextResult(fs.geo, old(fs.fat), old(fs.view), old(fs.freeClst), old(dp.Cur()), stretch,
                         res, fs.fat, v1, fs.view, dp.Cur())
  {
    ghost var f, v, c, free := fs.fat, fs.view, dp.Cur(), fs.freeClst;
    res, v1 := NextEntry(fs, dp, stretch);
    TouchedRefl(fs.geo, f, v);
    if c.sect != 0 {
      NextTouches(fs.geo, fs.disk.sectors, f, v, free, c, stretch, res, fs.fat, v1, fs.view, dp.Cur());
      if res == OK && Placed(fs.geo, c) {
        NextStaysPlaced(fs.geo, fs.disk.sectors, f, v, free, c, stretch, fs.fat, v1, fs.view, dp.Cur());
      }
    }
  }

  lemma NextTouches(g: Geometry, sectors: nat, f: FatMap, v: seq<Byte>, free: Dword, c: Cursor, stretch: bool,
                    res: FResult, f': FatMap, v1: seq<Byte>, v': seq<Byte>, c': Cursor)
    requires g.Valid(sectors) && |f| == g.nFatent && Aligned(c)
    requires NextResult(g, f, v, free, c, stretch, res, f', v1, v', c')
    ensures OnlyFreeTouched(g, f, v, f', v')
    ensures res == OK || res == NO_FILE || res == DENIED || res == INT_ERR
    ensures (res == OK ==> c'.dptr == c.dptr + SZDIRE) && (res == NO_FILE ==> c'.sect == 0)
    ensures res != OK || !stretch ==> v' == v && f' == f
  {
    assert UnfoldNext(0);
    TouchedRefl(g, f, v);
    if NextOf(g, f, c).Grow? && stretch && res == OK {
      EocIsEnd(g, sectors);
      GrownTouches(g, f, v, f', v1, v', c.clust, c'.clust);
    }
  }

  lemma NextStaysPlaced(g: Geometry, sectors: nat, f: FatMap, v: seq<Byte>, free: Dword, c: Cursor, stretch: bool,
                        f': FatMap, v1: seq<Byte>, v': seq<Byte>, c': Cursor)
    requires g.Valid(sectors) && |f| == g.nFatent && Placed(g, c)
    requires NextResult(g, f, v, free, c, stretch, OK, f', v1, v', c')
    ensures Placed(g, c')
  {
    assert UnfoldNext(0);
    if NextOf(g, f, c).To? { NextPlaced(g, sectors, f, c); } else { NextAligned(c.dptr); }
  }

  /** dir_next from offset `p` of a sound table, on values. */
  ghost predicate NextOnTable(g: Geometry, f: FatMap, v: seq<Byte>, ch: seq<Dword>, p: nat, stretch: bool,
                              res: FResult, f': FatMap, v': seq<Byte>, ch': seq<Dword>, c': Cursor)
  {
    && DirFrame(g, f, v, ch, f', v', ch') && Grew(g, v, ch, v', ch')
    && (res == OK ==> c'.dptr == p + SZDIRE)
    && forall k :: UnfoldFrame(k) ==>
         && (res != OK ==>
               && ch' == ch && v' == v
               && if p + SZDIRE >= MAX_DIR then res == NO_FILE
                  else && p + SZDIRE == TableSize(g, ch)
                       && ((res == NO_FILE && (!stretch || ch == [])) || (res == DENIED && stretch && Free(f') == {})))
         && (ch' != ch ==> stretch && p + SZDIRE == |ch| * g.Bcs())
  }

  lemma NextGood(g: Geometry, f: FatMap, v: seq<Byte>, free: Dword, ch: seq<Dword>, c: Cursor, stretch: bool,
                 res: FResult, f': FatMap, v1: seq<Byte>, v': seq<Byte>, c': Cursor, sclust: Dword)
    returns (ch': seq<Dword>)
    requires g.Valid(|v| / SS) && |f'| == |f| && TableOf(g, f, sclust, ch)
    requires FreeExact(f, free) && NoErrorMarks(f) && 0 <= c.dptr && AtPos(g, ch, c.dptr, c.clust, c.sect)
    requires NextResult(g, f, v, free, c, stretch, res, f', v1, v', c')
    ensures NextOnTable(g, f, v, ch, c.dptr, stretch, res, f', v', ch', c')
    ensures TableOf(g, f', sclust, ch') && (ch' == [] <==> ch == [])
    ensures res == OK ==> AtPos(g, ch', c'.dptr, c'.clust, c'.sect)
  {
    assert UnfoldNext(0);
    PosPlain(g, f, v, ch, c);
    MoveOnTable(g, f, ch, c);
    DirFrameRefl(g, f, v, ch);
    var m := NextOf(g, f, c);
    ch' := ch;
    if m.Grow? && stretch && res == OK {
      GrownOnTable(g, f, v, ch, f', v1, v', c.clust, c'.clust, c'.dptr);
      ch' := ch + [c'.clust];
    }
  }

  lemma PosPlain(g: Geometry, f: FatMap, v: seq<Byte>, ch: seq<Dword>, c: Cursor)
    requires g.Valid(|v| / SS) && |f| == g.nFatent && IsChain(f, ch) && (ch == [] ==> g.fsType != FAT32)
    requires 0 <= c.dptr && AtPos(g, ch, c.dptr, c.clust, c.sect)
    ensures Plain(c)
  {
    PosOnVolume(g, |v| / SS, f, ch, c.dptr, c.clust, c.sect);
    Wrap32Id(c.sect + 1);
  }

  /** What lies behind a cursor on a sound table. */
  lemma MoveOnTable(g: Geometry, f: FatMap, ch: seq<Dword>, c: Cursor)
    requires g.csize > 0 && IsPow2(g.csize) && g.nRootdir % 16 == 0 && |f| == g.nFatent >= 2 && IsChain(f, ch)
    requires 0 <= c.dptr && AtPos(g, ch, c.dptr, c.clust, c.sect) && Plain(c)
    ensures match NextOf(g, f, c)
            case To(d) => d.dptr == c.dptr + SZDIRE && AtPos(g, ch, d.dptr, d.clust, d.sect)
            case End => c.dptr + SZDIRE >= MAX_DIR || (ch == [] && c.dptr + SZDIRE == TableSize(g, ch))
            case Broken => false
            case Grow => && ch != [] && c.clust == ch[|ch| - 1] && c.dptr + SZDIRE == |ch| * g.Bcs() < MAX_DIR
                         && (c.dptr + SZDIRE) % SS == 0
  {
    var p := c.dptr;
    if p + SZDIRE < MAX_DIR {
      if ch == [] {
        StepStatic(g, p, c.clust, c.sect);
        assert c.clust == 0 by { assert UnfoldPos(0); }
      } else {
        StepChained(g, f, ch, p, c.clust, c.sect);
        var k := p / g.Bcs() + 1;
        assert Linked(f, ch, k - 1);
        var p' := p + SZDIRE;
        if k < |ch| && p' % SS == 0 && SectorInCluster(g, p') == 0 { StartOfCluster(g, ch, k, p'); }
      }
    }
  }

  /** Growing behind the last cluster appends a zeroed cluster to the table. */
  lemma GrownOnTable(g: Geometry, f: FatMap, v: seq<Byte>, ch: seq<Dword>, f': FatMap, v1: seq<Byte>, v': seq<Byte>,
                     clust: Dword, n: Dword, p: nat)
    requires g.Valid(|v| / SS) && |f| == g.nFatent && IsChain(f, ch) && ch != [] && clust == ch[|ch| - 1]
    requires GrownBy(g, f, v, f', v1, v', clust, n) && p == |ch| * g.Bcs() && p < MAX_DIR && p % SS == 0
    ensures IsChain(f', ch + [n]) && DirFrame(g, f, v, ch, f', v', ch + [n]) && Grew(g, v, ch, v', ch + [n])
    ensures AtPos(g, ch + [n], p, n, Clst2Sect(g, n))
  {
    assert UnfoldPos(0);
    EocIsEnd(g, |v| / SS);
    var ch' := Followed(f, f', ch, |ch|, clust, Eoc(g), n);
    assert ch' == ch + [n] by { assert ch <= ch'; }
    GrownKeeps(g, f, v, ch, f', v1, ch', |ch| * g.Bcs());
    StretchedTable(g, f, v, ch, f', v1, v', ch');
    StartOfCluster(g, ch', |ch|, p);
  }

  lemma StepStatic(g: Geometry, p: nat, c: Dword, s: int)
    requires g.csize > 0 && g.nRootdir % 16 == 0 && AtPos(g, [], p, c, s) && p + SZDIRE < MAX_DIR
    ensures var p' := p + SZDIRE;
            && (p' % SS != 0 ==> AtPos(g, [], p', c, s))
            && (p' % SS == 0 && p' / SZDIRE < g.nRootdir ==> AtPos(g, [], p', c, s + 1))
            && (p' / SZDIRE >= g.nRootdir ==> p' == TableSize(g, []))
  {
    assert UnfoldPos(0);
  }

  lemma StepChained(g: Geometry, f: FatMap, ch: seq<Dword>, p: nat, c: Dword, s: int)
    requires g.csize > 0 && IsPow2(g.csize) && IsChain(f, ch) && ch != []
    requires AtPos(g, ch, p, c, s) && p + SZDIRE < MAX_DIR
    ensures var p', k := p + SZDIRE, p / g.Bcs() + 1;
            && 0 < k <= |ch| && c == ch[k - 1]
            && (p' % SS != 0 ==> AtPos(g, ch, p', c, s))
            && (p' % SS == 0 && SectorInCluster(g, p') != 0 ==> AtPos(g, ch, p', c, s + 1))
            && (p' % SS == 0 && SectorInCluster(g, p') == 0 ==>
              p' == k * g.Bcs() && (k == |ch| ==> p' == TableSize(g, ch)))
  {
    assert UnfoldPos(0);
    var p' := p + SZDIRE;
    EntryInSector(p);
    StepPosition(g, p, SZDIRE);
    Covered(g, p, |ch|);
    Covered(g, p', |ch|);
  }

  lemma StartOfCluster(g: Geometry, ch: seq<Dword>, k: nat, p: nat)
    requires g.csize > 0 && k < |ch| && p == k * g.Bcs() && p % SS == 0 && p < MAX_DIR
    ensures AtPos(g, ch, p, ch[k], Clst2Sect(g, ch[k]))
  {
    assert UnfoldPos(0);
    DivModUnique(p, SZDIRE, p / SS * 16, 0);
    WithinUnique(g, p, k, 0);
    Covered(g, p, |ch|);
  }

  /** The sector of a table entry is a sector of the disk, behind the FAT. */
  lemma OnVolume(g: Geometry, sectors: nat, f: FatMap, ch: seq<Dword>, p: nat)
    requires g.Valid(sectors) && |f| == g.nFatent && IsChain(f, ch) && p < TableSize(g, ch)
    requires ch == [] ==> g.fsType != FAT32
    ensures var s := if ch == [] then g.dirbase + p / SS else SectorAt(g, ch, p);
            g.FatEnd() <= s < sectors && 0 < s
  {
    if ch != [] {
      Covered(g, p, |ch|);
      IndexNat(g, p);
      ClusterInside(g, sectors, ch[p / g.Bcs()]);
    }
  }

  lemma PosOnVolume(g: Geometry, sectors: nat, f: FatMap, ch: seq<Dword>, p: nat, c: Dword, s: int)
    requires g.Valid(sectors) && |f| == g.nFatent && IsChain(f, ch) && (ch == [] ==> g.fsType != FAT32)
    requires AtPos(g, ch, p, c, s)
    ensures 0 < g.FatEnd() <= s < sectors && (c == 0 <==> ch == []) && Placed(g, Cursor(p, c, s))
  {
    assert UnfoldPos(0);
    OnVolume(g, sectors, f, ch, p);
    if ch != [] {
      IndexNat(g, p);
      Covered(g, p, |ch|);
      SectorOfPosition(g, p);
    }
  }

  // ------------------------------------------------- entries through the window

  /** The part of the table the directory functions can reach. */
  ghost function Seen(g: Geometry, v: seq<Byte>, ch: seq<Dword>): (t: seq<Byte>)
    requires g.Valid(|v| / SS)
    ensures |t| == Min(TableSize(g, ch), MAX_DIR)
  {
    Table(g, v, ch)[..Min(TableSize(g, ch), MAX_DIR)]
  }

  lemma SeenEntries(g: Geometry, ch: seq<Dword>, p: nat)
    requires g.csize > 0 && p % SZDIRE == 0 && p < TableSize(g, ch) && p < MAX_DIR
    ensures (p / SZDIRE + 1) * SZDIRE <= Min(TableSize(g, ch), MAX_DIR)
    ensures Min(TableSize(g, ch), MAX_DIR) % SZDIRE == 0
  {
    SizeAligned(g, ch);
  }

  lemma SizeAligned(g: Geometry, ch: seq<Dword>)
    ensures TableSize(g, ch) % SZDIRE == 0
  {
    if ch != [] {
      assert |ch| * g.Bcs() == (|ch| * g.csize * 16) * SZDIRE;
    }
  }

  /** Address on the volume of the entry at offset `p`. */
  ghost function EntAddr(s: int, p: nat): int { s * SS + p % SS }

  lemma EntShown(g: Geometry, f: FatMap, v: seq<Byte>, ch: seq<Dword>, p: nat, c: Dword, s: int)
    requires g.Valid(|v| / SS) && |f| == g.nFatent && IsChain(f, ch) && (ch == [] ==> g.fsType != FAT32)
    requires AtPos(g, ch, p, c, s)
    ensures 0 <= EntAddr(s, p) && EntAddr(s, p) + SZDIRE <= |v|
    ensures p / SZDIRE < Count(Seen(g, v, ch))
    ensures Ent(Seen(g, v, ch), p / SZDIRE) == v[EntAddr(s, p)..EntAddr(s, p) + SZDIRE]
  {
    assert UnfoldPos(0);
    SeenEntries(g, ch, p);
    OnVolume(g, |v| / SS, f, ch, p);
    var t, n := Table(g, v, ch), Min(TableSize(g, ch), MAX_DIR);
    SliceSlice(t, 0, n, p, SZDIRE);
    if ch == [] {
      SliceSlice(v, g.FatEnd() * SS, g.FatEnd() * SS + g.nRootdir * SZDIRE, p, SZDIRE);
    } else {
      ChainedEnt(g, f, v, ch, p);
    }
  }

  lemma ChainedEnt(g: Geometry, f: FatMap, v: seq<Byte>, ch: seq<Dword>, p: nat)
    requires g.Valid(|v| / SS) && |f| == g.nFatent && IsChain(f, ch) && ch != []
    requires p % SZDIRE == 0 && p + SZDIRE <= |ch| * g.Bcs()
    ensures var a := EntAddr(SectorAt(g, ch, p), p);
            0 <= a && a + SZDIRE <= |v| && v[a..a + SZDIRE] == Content(g, v, ch, |ch| * g.Bcs())[p..p + SZDIRE]
  {
    var k, cs := EntPlace(g, f, ch, p);
    ClusterInside(g, |v| / SS, ch[k]);
    ReadStep(g, f, v, ch, |ch| * g.Bcs(), p, k, cs * SS + p % SS, SZDIRE);
  }

  /** Cluster index and sector in the cluster of an entry. */
  lemma EntPlace(g: Geometry, f: FatMap, ch: seq<Dword>, p: nat) returns (k: nat, cs: nat)
    requires g.csize > 0 && IsPow2(g.csize) && IsChain(f, ch) && p % SZDIRE == 0 && p < |ch| * g.Bcs()
    ensures k < |ch| && cs < g.csize && Within(g, p, k, cs * SS + p % SS) && p % SS + SZDIRE <= SS
    ensures cs * SS + p % SS + SZDIRE <= g.Bcs() && SectorAt(g, ch, p) == Clst2Sect(g, ch[k]) + cs
  {
    SplitPosition(g, p);
    IndexNat(g, p);
    Covered(g, p, |ch|);
    k, cs := p / g.Bcs(), SectorInCluster(g, p);
    InsideSector(g, p, k, cs);
    EntryInSector(p);
  }

  /** Loads the entry under the cursor. */
  method LoadEnt(fs: Volume, dp: Dir) returns (res: FResult, e: seq<Byte>)
    requires fs.Ready() && dp.Inv(fs.geo, fs.fat) && dp.At(fs.geo)
    modifies fs`wflag, fs`winsect, fs.win, fs.disk.data
    ensures fs.Ready() && res == OK && fs.winsect == dp.sect
    ensures dp.dptr / SZDIRE < Count(Seen(fs.geo, fs.view, dp.chain))
    ensures e == Ent(Seen(fs.geo, fs.view, dp.chain), dp.dptr / SZDIRE)
  {
    LoadedEnt(fs.geo, fs.fat, fs.view, dp.chain, dp.dptr, dp.clust, dp.sect);
    res := MoveWindow(fs, dp.sect);
    var o := dp.dptr % SS;
    e := fs.win[..][o..o + SZDIRE];
  }

  /** The entry at offset `p` of the table, seen in the sector `s` that holds it. */
  lemma LoadedEnt(g: Geometry, f: FatMap, v: seq<Byte>, ch: seq<Dword>, p: nat, c: Dword, s: int)
    requires g.Valid(|v| / SS) && |f| == g.nFatent && IsChain(f, ch) && (ch == [] ==> g.fsType != FAT32)
    requires AtPos(g, ch, p, c, s)
    ensures p % SS + SZDIRE <= SS && 0 <= s && (s + 1) * SS <= |v|
    ensures p / SZDIRE < Count(Seen(g, v, ch))
    ensures v[s * SS..(s + 1) * SS][p % SS..p % SS + SZDIRE] == Ent(Seen(g, v, ch), p / SZDIRE)
  {
    EntShown(g, f, v, ch, p, c, s);
    EntryInSector(p);
    PosOnVolume(g, |v| / SS, f, ch, p, c, s);
    SliceSlice(v, s * SS, (s + 1) * SS, p % SS, SZDIRE);
  }

  lemma StoredIsOverlay(v: seq<Byte>, v': seq<Byte>, a: int, d: seq<Byte>)
    requires Stored(v, v', a, d, |d|)
    ensures v' == Overlay(v, a, d)
  {
  }

  lemma SpliceInside(s: seq<Byte>, p: nat, d: seq<Byte>)
    requires p + |d| <= |s|
    ensures Splice(s, p, d) == Overlay(s, p, d)
  {
  }

  /** Bytes were stored at offset `o` of the entry at `p`, and the table is otherwise the
      same (to be looked at through `UnfoldFrame`). */
  ghost predicate EntWritten(g: Geometry, v: seq<Byte>, v': seq<Byte>, ch: seq<Dword>, p: nat, o: nat, bytes: seq<Byte>)
  {
    forall k :: UnfoldFrame(k) ==>
      && g.Valid(|v| / SS) && |v'| == |v| && p + SZDIRE <= |Seen(g, v, ch)|
      && Overlaid(Seen(g, v, ch), Seen(g, v', ch), p + o, bytes)
  }

  /** Storing bytes at the entry under the cursor changes the table there. */
  lemma EntStored(g: Geometry, f: FatMap, v: seq<Byte>, v': seq<Byte>, ch: seq<Dword>,
                  p: nat, c: Dword, s: int, o: nat, bytes: seq<Byte>)
    requires g.Valid(|v| / SS) && |f| == g.nFatent && IsChain(f, ch) && (ch == [] ==> g.fsType != FAT32)
    requires AtPos(g, ch, p, c, s) && 0 < |bytes| && o + |bytes| <= SZDIRE
    requires Stored(v, v', EntAddr(s, p) + o, bytes, |bytes|) && (FatsAgree(g, v) ==> FatsAgree(g, v'))
    ensures DirFrame(g, f, v, ch, f, v', ch)
    ensures EntWritten(g, v, v', ch, p, o, bytes)
  {
    assert UnfoldPos(0);
    SeenEntries(g, ch, p);
    var n := Min(TableSize(g, ch), MAX_DIR);
    if ch == [] {
      assert EntAddr(s, p) == g.FatEnd() * SS + p;
      StaticStored(g, f, v, v', p, o, bytes);
    } else {
      ChainedStored(g, f, v, v', ch, p, s, o, bytes);
    }
    SliceIn(Table(g, v, ch), 0, n, p + o, bytes);
  }

  lemma StaticStored(g: Geometry, f: FatMap, v: seq<Byte>, v': seq<Byte>, p: nat, o: nat, bytes: seq<Byte>)
    requires g.Valid(|v| / SS) && g.fsType != FAT32 && p + o + |bytes| <= g.nRootdir * SZDIRE
    requires Stored(v, v', g.FatEnd() * SS + p + o, bytes, |bytes|) && (FatsAgree(g, v) ==> FatsAgree(g, v'))
    ensures Table(g, v', []) == Overlay(Table(g, v, []), p + o, bytes)
    ensures DirFrame(g, f, v, [], f, v', [])
  {
    var lo := g.FatEnd() * SS;
    StoredIsOverlay(v, v', lo + p + o, bytes);
    StaticFrame(g, f, v, v', lo + p + o, bytes);
    StaticTable(g, v, v', p + o, bytes);
  }

  lemma StaticTable(g: Geometry, v: seq<Byte>, v': seq<Byte>, p: nat, bytes: seq<Byte>)
    requires g.Valid(|v| / SS) && |v'| == |v| && p + |bytes| <= g.nRootdir * SZDIRE
    requires g.FatEnd() * SS + p + |bytes| <= |v| && v' == Overlay(v, g.FatEnd() * SS + p, bytes)
    ensures Table(g, v', []) == Overlay(Table(g, v, []), p, bytes)
  {
    var lo := g.FatEnd() * SS;
    RegionStored(v, v', lo, lo + g.nRootdir * SZDIRE, p, bytes);
  }

  lemma RegionStored(v: seq<Byte>, v': seq<Byte>, lo: nat, hi: nat, p: nat, bytes: seq<Byte>)
    requires lo + p + |bytes| <= hi <= |v| && v' == Overlay(v, lo + p, bytes)
    ensures v'[lo..hi] == Overlay(v[lo..hi], p, bytes)
  {
    SliceIn(v, lo, hi, lo + p, bytes);
  }

  lemma StaticFrame(g: Geometry, f: FatMap, v: seq<Byte>, v': seq<Byte>, a: nat, bytes: seq<Byte>)
    requires g.FatEnd() * SS <= a && a + |bytes| <= g.database * SS <= |v|
    requires v' == Overlay(v, a, bytes) && (FatsAgree(g, v) ==> FatsAgree(g, v'))
    ensures DirFrame(g, f, v, [], f, v', [])
  {
  }

  lemma ChainedStored(g: Geometry, f: FatMap, v: seq<Byte>, v': seq<Byte>, ch: seq<Dword>, p: nat, s: int, o: nat,
                      bytes: seq<Byte>)
    requires g.Valid(|v| / SS) && |f| == g.nFatent && IsChain(f, ch) && ch != []
    requires p % SZDIRE == 0 && p + SZDIRE <= |ch| * g.Bcs() && s == SectorAt(g, ch, p)
    requires 0 < |bytes| && o + |bytes| <= SZDIRE
    requires Stored(v, v', EntAddr(s, p) + o, bytes, |bytes|) && (FatsAgree(g, v) ==> FatsAgree(g, v'))
    ensures Table(g, v', ch) == Overlay(Table(g, v, ch), p + o, bytes)
    ensures DirFrame(g, f, v, ch, f, v', ch)
  {
    var k, cs := EntPlace(g, f, ch, p);
    ClusterInside(g, |v| / SS, ch[k]);
    var n := |ch| * g.Bcs();
    WriteStep(g, f, v, v', ch, n, p + o, k, cs * SS + p % SS + o, bytes, |bytes|);
    SpliceInside(Content(g, v, ch, n), p + o, bytes);
    DirFrameOfWrite(g, f, v, ch, f, v', ch);
  }

  /** Stores bytes into the entry under the cursor, which is in the window. */
  method StoreEnt(fs: Volume, dp: Dir, o: nat, bytes: seq<Byte>)
    requires Sound(fs) && dp.Inv(fs.geo, fs.fat) && dp.At(fs.geo) && fs.winsect == dp.sect
    requires 0 < |bytes| && o + |bytes| <= SZDIRE
    modifies fs`wflag, fs`view, fs`fat, fs.win
    ensures Sound(fs) && fs.fat == old(fs.fat)
    ensures DirFrame(fs.geo, fs.fat, old(fs.view), dp.chain, fs.fat, fs.view, dp.chain)
    ensures EntWritten(fs.geo, old(fs.view), fs.view, dp.chain, dp.dptr, o, bytes)
  {
    ghost var v, ch := fs.view, dp.chain;
    PosOnVolume(fs.geo, fs.disk.sectors, fs.fat, ch, dp.dptr, dp.clust, dp.sect);
    EntryInSector(dp.dptr);
    StoreData(fs, dp.dptr % SS + o, bytes);
    assert fs.winsect * SS + (dp.dptr % SS + o) == EntAddr(dp.sect, dp.dptr) + o;
    assert dp.chain == ch;
    EntStored(fs.geo, fs.fat, v, fs.view, ch, dp.dptr, dp.clust, dp.sect, o, bytes);
  }

  // ---------------------------------------------------------------- dir_find

  /** The table as the operations on this directory see it. */
  ghost function T(fs: Volume, dp: Dir): seq<Byte>
    requires fs.Valid()
    reads fs, fs.win, fs.disk.data, fs.ledger, dp
  {
    Seen(fs.geo, fs.view, dp.chain)
  }

  /** dir_find, on any disk content: ends at the first entry on its path that matches `fn`, at an
      end mark, or where the table or its links end, after less than MAX_DIR bytes of entries.
      On a sound, well-formed table it is a lookup in the map. */
  method DirFind(fs: Volume, dp: Dir) returns (res: FResult, ghost n: nat, ghost d: Cursor)
    requires fs.Ready() && |dp.fn| == NAME
    modifies fs, fs.win, fs.disk.data, dp`dptr, dp`clust, dp`sect
    ensures fs.Ready() && fs.view == old(fs.view) && fs.fat == old(fs.fat)
    ensures fs.freeClst == old(fs.freeClst) && fs.fsiDirty == old(fs.fsiDirty)
    ensures match SdiOf(fs.geo, fs.fat, dp.sclust, 0)
            case None => res == INT_ERR
            case Some(c) => && ScanEnds(fs.geo, fs.fat, fs.view, c, Named(dp.fn), n, d, res) && n * SZDIRE < MAX_DIR
                            && (res == OK || res == NO_FILE || res == INT_ERR)
    ensures res == OK ==> dp.Cur() == d
    ensures dp.Inv(fs.geo, fs.fat) ==>
              && (res == OK || res == NO_FILE)
              && LookedUp(fs.geo, fs.view, dp.chain, dp.fn, d, res)
  {
    n, d := 0, Cursor(0, 0, 0);
    res := DirSdi(fs, dp, 0);
    if dp.Inv(fs.geo, fs.fat) { HasFirst(fs.geo, fs.disk.sectors, dp.chain); }
    if res == OK { res, n, d := FindFrom(fs, dp); }
  }

  /** dir_find behind its dir_sdi. */
  method FindFrom(fs: Volume, dp: Dir) returns (res: FResult, ghost n: nat, ghost d: Cursor)
    requires fs.Ready() && |dp.fn| == NAME && dp.dptr == 0 && Placed(fs.geo, dp.Cur())
    requires dp.Inv(fs.geo, fs.fat) ==> dp.At(fs.geo)
    modifies fs, fs.win, fs.disk.data, dp`dptr, dp`clust, dp`sect
    ensures fs.Ready() && fs.view == old(fs.view) && fs.fat == old(fs.fat)
    ensures fs.freeClst == old(fs.freeClst) && fs.fsiDirty == old(fs.fsiDirty)
    ensures ScanEnds(fs.geo, fs.fat, fs.view, old(dp.Cur()), Named(dp.fn), n, d, res) && n * SZDIRE < MAX_DIR
    ensures (res == OK || res == NO_FILE || res == INT_ERR) && (res == OK ==> dp.Cur() == d)
    ensures dp.Inv(fs.geo, fs.fat) ==>
              && (res == OK || res == NO_FILE)
              && LookedUp(fs.geo, fs.view, dp.chain, dp.fn, d, res)
  {
    ghost var c := dp.Cur();
    PlacedOnDisk(fs.geo, fs.disk.sectors, c);
    res, n, d := Scan(fs, dp, Named(dp.fn));
    ScanPlaced(fs.geo, fs.disk.sectors, fs.fat, fs.view, c, Named(dp.fn), n, d, res);
    if dp.Inv(fs.geo, fs.fat) { FoundOnTable(fs.geo, fs.fat, fs.view, dp.chain, c, dp.fn, n, d, res); }
  }

  /** The outcome of dir_find on a sound table: the entry at `d` matches if it succeeds, and if the
      table is well formed and the name proper, it is the one the map binds to the name. */
  ghost predicate LookedUp(g: Geometry, v: seq<Byte>, ch: seq<Dword>, fn: seq<Byte>, d: Cursor, res: FResult)
  {
    forall k :: UnfoldFrame(k) ==>
      && g.Valid(|v| / SS) && 0 <= d.dptr && AtPos(g, ch, d.dptr, d.clust, d.sect)
      && var t, n := Seen(g, v, ch), d.dptr / SZDIRE;
         && n < Count(t) && (res == OK ==> Matches(Ent(t, n), fn))
         && (WellFormed(t) && ProperName(fn) ==>
           (res == OK <==> fn in DirMap(t)) && (res == OK ==> DirMap(t)[fn] == Ent(t, n)))
  }

  /** dir_read: the next object (or volume label) on the path of the cursor.  On any disk content
      and from any cursor it ends after less than MAX_DIR bytes of entries and changes nothing. */
  method DirRead(fs: Volume, dp: Dir, vol: bool) returns (res: FResult, ghost n: nat, ghost d: Cursor)
    requires fs.Ready() && Aligned(dp.Cur())
    modifies fs, fs.win, fs.disk.data, dp`dptr, dp`clust, dp`sect
    ensures fs.Ready() && fs.view == old(fs.view) && fs.fat == old(fs.fat)
    ensures fs.freeClst == old(fs.freeClst) && fs.fsiDirty == old(fs.fsiDirty)
    ensures Aligned(dp.Cur()) && old(dp.dptr) + n * SZDIRE < MAX_DIR
    ensures res == OK || ((res == NO_FILE || res == INT_ERR || res == DISK_ERR) && dp.sect == 0)
    ensures old(dp.sect) == 0 ==> res == NO_FILE
    ensures old(dp.sect) != 0 && old(Loads(fs, dp)) ==>
              ScanEnds(fs.geo, fs.fat, fs.view, old(dp.Cur()), Any(vol), n, d, res) && (res == OK ==> dp.Cur() == d)
    ensures old(Placed(fs.geo, dp.Cur())) ==> Placed(fs.geo, d) && res != DISK_ERR
    ensures dp.Inv(fs.geo, fs.fat) && old(dp.At(fs.geo)) ==>
              ScannedTable(fs.geo, fs.view, dp.chain, old(dp.dptr), Any(vol), n, d, res)
  {
    ghost var c, good := dp.Cur(), dp.Inv(fs.geo, fs.fat) && dp.At(fs.geo);
    ghost var placed := good || Placed(fs.geo, c);
    if placed { OnDiskThere(fs.geo, fs.disk.sectors, fs.fat, dp.chain, c, good); }
    res, n, d := Scan(fs, dp, Any(vol));
    if placed { ReadOnTable(fs.geo, fs.disk.sectors, fs.fat, fs.view, dp.chain, c, Any(vol), n, d, res, good); }
    if res != OK { dp.sect := 0; }
  }

  lemma OnDiskThere(g: Geometry, sectors: nat, f: FatMap, ch: seq<Dword>, c: Cursor, good: bool)
    requires g.Valid(sectors) && |f| == g.nFatent && 0 <= c.dptr
    requires if good then IsChain(f, ch) && (ch == [] ==> g.fsType != FAT32) && AtPos(g, ch, c.dptr, c.clust, c.sect)
             else Placed(g, c)
    ensures Placed(g, c) && 0 < c.sect < sectors
  {
    if good { PosOnVolume(g, sectors, f, ch, c.dptr, c.clust, c.sect); }
    PlacedOnDisk(g, sectors, c);
  }

  lemma ReadOnTable(g: Geometry, sectors: nat, f: FatMap, v: seq<Byte>, ch: seq<Dword>, c: Cursor, goal: Goal,
                    n: nat, d: Cursor, res: FResult, good: bool)
    requires g.Valid(sectors) && |f| == g.nFatent && |v| == sectors * SS && 0 <= c.dptr && Placed(g, c)
    requires good ==> IsChain(f, ch) && (ch == [] ==> g.fsType != FAT32) && AtPos(g, ch, c.dptr, c.clust, c.sect)
    requires ScanEnds(g, f, v, c, goal, n, d, res)
    ensures Placed(g, d) && res != DISK_ERR && (good ==> ScannedTable(g, v, ch, c.dptr, goal, n, d, res))
  {
    ScanPlaced(g, sectors, f, v, c, goal, n, d, res);
    if good { ScanOnTable(g, f, v, ch, c, goal, n, d, res); }
  }

  /** A scan of a sound table from offset `p` on: entries `p / 32`, ... are passed over, the one
      `n` further on is a hit, or ends the table, or is the last one in reach. */
  ghost predicate ScannedTable(g: Geometry, v: seq<Byte>, ch: seq<Dword>, p: nat, goal: Goal, n: nat, d: Cursor,
                               res: FResult)
  {
    forall u :: UnfoldFrame(u) ==>
      && g.Valid(|v| / SS) && 0 <= d.dptr && AtPos(g, ch, d.dptr, d.clust, d.sect)
      && var t, i := Seen(g, v, ch), p / SZDIRE;
         && d.dptr / SZDIRE == i + n < Count(t) && PassedEntries(t, i, i + n, goal)
         && if Ent(t, i + n)[0] == 0 then res == NO_FILE
            else if Hits(goal, Ent(t, i + n)) then res == OK
            else res == NO_FILE && i + n + 1 == Count(t)
  }

  /** Entries `i`, ..., `j - 1` neither end the table nor are hits. */
  ghost predicate PassedEntries(t: seq<Byte>, i: nat, j: nat, goal: Goal)
    requires j <= Count(t)
  {
    forall k :: i <= k < j ==> Ent(t, k)[0] != 0 && !Hits(goal, Ent(t, k))
  }

  lemma ScanOnTable(g: Geometry, f: FatMap, v: seq<Byte>, ch: seq<Dword>, c: Cursor, goal: Goal, n: nat, d: Cursor,
                    res: FResult)
    requires g.Valid(|v| / SS) && |f| == g.nFatent && IsChain(f, ch) && (ch == [] ==> g.fsType != FAT32)
    requires 0 <= c.dptr && AtPos(g, ch, c.dptr, c.clust, c.sect) && ScanEnds(g, f, v, c, goal, n, d, res)
    ensures ScannedTable(g, v, ch, c.dptr, goal, n, d, res)
  {
    assert Path(g, f, c, n) == Some(d) && PassedOver(g, f, v, c, goal, n) by { assert UnfoldScan(0); }
    PathOnTable(g, f, v, ch, c, n);
    PassedOnTable(g, f, v, ch, c, goal, n);
    StoppedOnTable(g, f, v, ch, c, goal, n, d, res);
  }

  lemma StoppedOnTable(g: Geometry, f: FatMap, v: seq<Byte>, ch: seq<Dword>, c: Cursor, goal: Goal, n: nat, d: Cursor,
                       res: FResult)
    requires g.Valid(|v| / SS) && |f| == g.nFatent && IsChain(f, ch) && (ch == [] ==> g.fsType != FAT32)
    requires 0 <= c.dptr && 0 <= d.dptr && AtPos(g, ch, d.dptr, d.clust, d.sect)
    requires ScanEnds(g, f, v, c, goal, n, d, res)
    requires d.dptr / SZDIRE == c.dptr / SZDIRE + n < Count(Seen(g, v, ch))
    requires Shown(v, d) && EntOf(v, d) == Ent(Seen(g, v, ch), d.dptr / SZDIRE)
    requires PassedEntries(Seen(g, v, ch), c.dptr / SZDIRE, c.dptr / SZDIRE + n, goal)
    ensures ScannedTable(g, v, ch, c.dptr, goal, n, d, res)
  {
    assert UnfoldScan(0);
    EndOnTable(g, f, v, ch, d);
  }

  /** Where dir_next finds nothing, the entry is the last one in reach. */
  lemma EndOnTable(g: Geometry, f: FatMap, v: seq<Byte>, ch: seq<Dword>, d: Cursor)
    requires g.Valid(|v| / SS) && |f| == g.nFatent && IsChain(f, ch) && (ch == [] ==> g.fsType != FAT32)
    requires 0 <= d.dptr && AtPos(g, ch, d.dptr, d.clust, d.sect)
    ensures NextOf(g, f, d) != Broken && (!NextOf(g, f, d).To? ==> d.dptr / SZDIRE + 1 == Count(Seen(g, v, ch)))
  {
    assert UnfoldPos(0);
    PosPlain(g, f, v, ch, d);
    MoveOnTable(g, f, ch, d);
    LastEntry(g, ch, d.dptr);
  }

  lemma PassedOnTable(g: Geometry, f: FatMap, v: seq<Byte>, ch: seq<Dword>, c: Cursor, goal: Goal, n: nat)
    requires g.Valid(|v| / SS) && |f| == g.nFatent && IsChain(f, ch) && (ch == [] ==> g.fsType != FAT32)
    requires 0 <= c.dptr && AtPos(g, ch, c.dptr, c.clust, c.sect) && PassedOver(g, f, v, c, goal, n)
    requires c.dptr / SZDIRE + n <= Count(Seen(g, v, ch))
    ensures PassedEntries(Seen(g, v, ch), c.dptr / SZDIRE, c.dptr / SZDIRE + n, goal)
  {
    var t, i := Seen(g, v, ch), c.dptr / SZDIRE;
    forall k | i <= k < i + n ensures Ent(t, k)[0] != 0 && !Hits(goal, Ent(t, k)) {
      SkippedOnTable(g, f, v, ch, c, goal, n, k);
    }
  }

  lemma SkippedOnTable(g: Geometry, f: FatMap, v: seq<Byte>, ch: seq<Dword>, c: Cursor, goal: Goal, n: nat, k: nat)
    requires g.Valid(|v| / SS) && |f| == g.nFatent && IsChain(f, ch) && (ch == [] ==> g.fsType != FAT32)
    requires 0 <= c.dptr && AtPos(g, ch, c.dptr, c.clust, c.sect) && PassedOver(g, f, v, c, goal, n)
    requires c.dptr / SZDIRE <= k < c.dptr / SZDIRE + n
    ensures var t := Seen(g, v, ch); k < Count(t) && Ent(t, k)[0] != 0 && !Hits(goal, Ent(t, k))
  {
    var j := k - c.dptr / SZDIRE;
    assert SkippedAt(g, f, v, c, goal, j);
    PathOnTable(g, f, v, ch, c, j);
  }

  lemma {:induction false} PathInTable(g: Geometry, f: FatMap, v: seq<Byte>, ch: seq<Dword>, c: Cursor, n: nat)
    requires g.Valid(|v| / SS) && |f| == g.nFatent && IsChain(f, ch) && (ch == [] ==> g.fsType != FAT32)
    requires 0 <= c.dptr && AtPos(g, ch, c.dptr, c.clust, c.sect) && Path(g, f, c, n).Some?
    ensures var d := Path(g, f, c, n).value; d.dptr == c.dptr + n * SZDIRE && AtPos(g, ch, d.dptr, d.clust, d.sect)
  {
    if n > 0 {
      PathInTable(g, f, v, ch, c, n - 1);
      PosPlain(g, f, v, ch, Path(g, f, c, n - 1).value);
      MoveOnTable(g, f, ch, Path(g, f, c, n - 1).value);
    }
  }

  /** On a sound table the path of a cursor runs through the table. */
  lemma PathOnTable(g: Geometry, f: FatMap, v: seq<Byte>, ch: seq<Dword>, c: Cursor, n: nat)
    requires g.Valid(|v| / SS) && |f| == g.nFatent && IsChain(f, ch) && (ch == [] ==> g.fsType != FAT32)
    requires 0 <= c.dptr && AtPos(g, ch, c.dptr, c.clust, c.sect) && Path(g, f, c, n).Some?
    ensures var d := Path(g, f, c, n).value;
            && d.dptr == c.dptr + n * SZDIRE && AtPos(g, ch, d.dptr, d.clust, d.sect) && d.dptr < TableSize(g, ch)
            && d.dptr / SZDIRE == c.dptr / SZDIRE + n < Count(Seen(g, v, ch))
            && Shown(v, d) && EntOf(v, d) == Ent(Seen(g, v, ch), d.dptr / SZDIRE)
  {
    PathInTable(g, f, v, ch, c, n);
    var d := Path(g, f, c, n).value;
    assert UnfoldPos(0);
    LoadedEnt(g, f, v, ch, d.dptr, d.clust, d.sect);
  }

  lemma FoundOnTable(g: Geometry, f: FatMap, v: seq<Byte>, ch: seq<Dword>, c: Cursor, fn: seq<Byte>, n: nat,
                     d: Cursor, res: FResult)
    requires g.Valid(|v| / SS) && |f| == g.nFatent && IsChain(f, ch) && (ch == [] ==> g.fsType != FAT32)
    requires c.dptr == 0 && AtPos(g, ch, 0, c.clust, c.sect) && ScanEnds(g, f, v, c, Named(fn), n, d, res)
    ensures (res == OK || res == NO_FILE) && LookedUp(g, v, ch, fn, d, res)
  {
    var t := Seen(g, v, ch);
    ScanOnTable(g, f, v, ch, c, Named(fn), n, d, res);
    assert UnfoldFrame(0);
    LookupEnds(t, fn, n, res);
  }

  lemma LookupEnds(t: seq<Byte>, fn: seq<Byte>, n: nat, res: FResult)
    requires n < Count(t) && PassedEntries(t, 0, n, Named(fn))
    requires if Ent(t, n)[0] == 0 then res == NO_FILE
             else if Matches(Ent(t, n), fn) then res == OK
             else res == NO_FILE && n + 1 == Count(t)
    ensures WellFormed(t) && ProperName(fn) ==>
              (res == OK <==> fn in DirMap(t)) && (res == OK ==> DirMap(t)[fn] == Ent(t, n))
  {
    if WellFormed(t) && ProperName(fn) {
      var m := if res == NO_FILE && Ent(t, n)[0] != 0 then n + 1 else n;
      assert Scanned(t, m, fn);
      FoundIsBinding(t, m, fn);
    }
  }

  /** When no entry can follow the one at `p`, it is the last one in reach. */
  lemma LastEntry(g: Geometry, ch: seq<Dword>, p: nat)
    requires g.csize > 0 && p % SZDIRE == 0 && p < TableSize(g, ch) && p < MAX_DIR
    ensures (p + SZDIRE) / SZDIRE == p / SZDIRE + 1
    ensures p + SZDIRE >= MAX_DIR || p + SZDIRE == TableSize(g, ch) ==>
              p / SZDIRE + 1 == Min(TableSize(g, ch), MAX_DIR) / SZDIRE
  {
    SizeAligned(g, ch);
  }

  lemma HasFirst(g: Geometry, sectors: nat, ch: seq<Dword>)
    requires g.Valid(sectors) && (ch == [] ==> g.fsType != FAT32)
    ensures 0 < TableSize(g, ch)
  {
    if ch != [] { LongerCovers(g.Bcs(), 1, |ch|); }
  }

  // ------------------------------------------------- dir_alloc, dir_register

  /** `t'` is `t` followed by zeroed entries. */
  ghost predicate Padded(t: seq<Byte>, t': seq<Byte>)
  {
    |t| <= |t'| && t'[..|t|] == t && forall a :: |t| <= a < |t'| ==> t'[a] == 0
  }

  lemma GrewSeen(g: Geometry, v: seq<Byte>, ch: seq<Dword>, v': seq<Byte>, ch': seq<Dword>)
    requires g.Valid(|v| / SS) && Grew(g, v, ch, v', ch')
    ensures Padded(Seen(g, v, ch), Seen(g, v', ch'))
    ensures TableSize(g, ch) <= TableSize(g, ch')
  {
    assert UnfoldFrame(0);
    if ch' != ch {
      var t, t' := Table(g, v, ch), Table(g, v', ch');
      var m, m' := Min(|t|, MAX_DIR), Min(|t'|, MAX_DIR);
      assert t'[..m'][..m] == t[..m];
    }
  }

  lemma DirFrameTrans(g: Geometry, f: FatMap, v: seq<Byte>, ch: seq<Dword>, f': FatMap, v': seq<Byte>, ch': seq<Dword>,
                      f'': FatMap, v'': seq<Byte>, ch'': seq<Dword>)
    requires DirFrame(g, f, v, ch, f', v', ch') && DirFrame(g, f', v', ch', f'', v'', ch'')
    requires IsChain(f', ch') && (ch' == [] <==> ch'' == [])
    ensures DirFrame(g, f, v, ch, f'', v'', ch'')
  {
    assert UnfoldFrame(0);
    ExtendsTrans(f, ch, f', ch', f'', ch'');
    forall a | 0 <= a < |v| && !InFatArea(g, a) && !InTable(g, ch'', a) ensures v''[a] == v[a] {
      if ch' != [] && Owned(g, ch', a) { OwnedMore(g, ch', ch'', a); }
    }
  }

  ghost predicate UnfoldCount(k: int) { true }

  /** Entries `i`, ..., `j - 1` are all free. */
  ghost predicate FreeRun(t: seq<Byte>, i: nat, j: nat)
  {
    j <= Count(t) && forall k :: i <= k < j ==> IsFree(Ent(t, k))
  }

  /** The first `q` entries hold no block of `m` free ones.  (A block of none is never found.) */
  ghost predicate NoBlock(t: seq<Byte>, q: nat, m: nat)
  {
    forall k :: UnfoldCount(k) ==>
      (m > 0 ==> forall i: nat, j: nat :: j == i + m && j <= q ==> !FreeRun(t, i, j))
  }

  /** Entry `q` is the last of the first block of `m` free ones. */
  ghost predicate FirstBlock(t: seq<Byte>, q: nat, m: nat)
  {
    0 < m <= q + 1 <= Count(t) && NoBlock(t, q, m) && forall k :: UnfoldCount(k) ==> FreeRun(t, q + 1 - m, q + 1)
  }

  /** The first `n` entries are all in use. */
  ghost predicate AllUsed(t: seq<Byte>, n: nat)
    requires n <= Count(t)
  {
    forall j :: 0 <= j < n ==> !IsFree(Ent(t, j))
  }

  lemma BlockOfOne(t: seq<Byte>, q: nat)
    requires q <= Count(t) && NoBlock(t, q, 1)
    ensures AllUsed(t, q) && (FirstBlock(t, q, 1) ==> q < Count(t) && IsFree(Ent(t, q)))
  {
    assert UnfoldCount(0);
    forall j | 0 <= j < q ensures !IsFree(Ent(t, j)) { assert !FreeRun(t, j, j + 1); }
  }

  /** dir_alloc before entry `q`: it has just passed `n` free entries in a row, and no block. */
  ghost predicate Counted(t: seq<Byte>, q: nat, n: nat, m: nat)
  {
    n <= q <= Count(t) &&
    forall k :: UnfoldCount(k) ==>
      && FreeRun(t, q - n, q) && (n < q ==> !IsFree(Ent(t, q - n - 1))) && (m > 0 ==> n < m) && NoBlock(t, q, m)
  }

  lemma CountedOn(t: seq<Byte>, q: nat, n: nat, m: nat)
    requires q < Count(t) && Counted(t, q, n, m)
    ensures !IsFree(Ent(t, q)) ==> Counted(t, q + 1, 0, m)
    ensures IsFree(Ent(t, q)) && n + 1 != m ==> Counted(t, q + 1, n + 1, m)
    ensures IsFree(Ent(t, q)) && n + 1 == m ==> FirstBlock(t, q, m)
  {
    assert UnfoldCount(0);
    if m > 0 && !(IsFree(Ent(t, q)) && n + 1 == m) {
      forall i: nat, j: nat | j == i + m && j <= q + 1 ensures !FreeRun(t, i, j) {
        if j == q + 1 && IsFree(Ent(t, q)) { assert i <= q - n - 1 < j; }
      }
    }
  }

  lemma CountedEnd(t: seq<Byte>, q: nat, n: nat, m: nat)
    requires Counted(t, q, n, m)
    ensures NoBlock(t, q, m)
  {
    assert UnfoldCount(0);
  }

  lemma SameFront(t: seq<Byte>, t': seq<Byte>, k: nat)
    requires Padded(t, t') && k < Count(t)
    ensures k < Count(t') && Ent(t', k) == Ent(t, k)
  {
    SliceSlice(t', 0, |t|, k * SZDIRE, SZDIRE);
  }

  lemma CountedPadded(t: seq<Byte>, t': seq<Byte>, q: nat, n: nat, m: nat)
    requires Padded(t, t') && Counted(t, q, n, m)
    ensures Counted(t', q, n, m)
  {
    assert UnfoldCount(0);
    forall k | 0 <= k < Count(t) ensures k < Count(t') && Ent(t', k) == Ent(t, k) { SameFront(t, t', k); }
    if m > 0 {
      forall i: nat, j: nat | j == i + m && j <= q ensures !FreeRun(t', i, j) { assert !FreeRun(t, i, j); }
    }
  }

  /** dir_alloc for `nEnt` contiguous entries.  On any disk content it terminates, touches free
      clusters only, and stops at a free entry if it succeeds; on a sound table that is the last
      entry of the first free block, and the table is stretched if there is none. */
  method DirAlloc(fs: Volume, dp: Dir, nEnt: nat) returns (res: FResult)
    requires fs.Ready()
    modifies fs, fs.win, fs.disk.data, dp`dptr, dp`clust, dp`sect, dp`chain
    ensures fs.Ready() && OnlyFreeTouched(fs.geo, old(fs.fat), old(fs.view), fs.fat, fs.view)
    ensures FreeExact(old(fs.fat), old(fs.freeClst)) ==> FreeExact(fs.fat, fs.freeClst)
    ensures old(Booked(fs)) ==> Booked(fs)
    ensures NoErrorMarks(old(fs.fat)) ==> NoErrorMarks(fs.fat)
    ensures res == OK || res == DENIED || res == INT_ERR
    ensures res == OK ==> Placed(fs.geo, dp.Cur()) && Shown(fs.view, dp.Cur()) && IsFree(EntOf(fs.view, dp.Cur()))
    ensures old(Sound(fs) && dp.Inv(fs.geo, fs.fat)) ==>
              && Sound(fs) && dp.Inv(fs.geo, fs.fat)
              && AllocOnTable(fs.geo, old(fs.fat), old(fs.view), old(dp.chain), fs.fat, fs.view, dp.chain,
                              dp.Cur(), nEnt, res)
  {
    ghost var good := Sound(fs) && dp.Inv(fs.geo, fs.fat);
    ghost var f, v, ch := fs.fat, fs.view, dp.chain;
    TouchedRefl(fs.geo, f, v);
    res := DirSdi(fs, dp, 0);
    if good {
      HasFirst(fs.geo, fs.disk.sectors, ch);
      AllocStart(fs.geo, f, v, ch, nEnt);
    }
    if res != OK { return; }
    res := AllocLoop(fs, dp, nEnt, f, v, ch, good);
    if res == NO_FILE { res := DENIED; }
  }

  /** The loop of dir_alloc. */
  method AllocLoop(fs: Volume, dp: Dir, nEnt: nat,
                   ghost f: FatMap, ghost v: seq<Byte>, ghost ch: seq<Dword>, ghost good: bool) returns (res: FResult)
    requires fs.Ready() && Placed(fs.geo, dp.Cur()) && OnlyFreeTouched(fs.geo, f, v, fs.fat, fs.view)
    requires good ==>
               && dp.dptr == 0 && OnTable(fs, dp)
               && AllocatingAt(fs.geo, f, v, ch, fs.fat, fs.view, dp.chain, 0, 0, nEnt)
    modifies fs, fs.win, fs.disk.data, dp`dptr, dp`clust, dp`sect, dp`chain
    ensures fs.Ready() && OnlyFreeTouched(fs.geo, f, v, fs.fat, fs.view)
    ensures FreeExact(old(fs.fat), old(fs.freeClst)) ==> FreeExact(fs.fat, fs.freeClst)
    ensures old(Booked(fs)) ==> Booked(fs)
    ensures NoErrorMarks(old(fs.fat)) ==> NoErrorMarks(fs.fat)
    ensures res == OK || res == NO_FILE || res == DENIED || res == INT_ERR
    ensures res == OK ==> Placed(fs.geo, dp.Cur()) && Shown(fs.view, dp.Cur()) && IsFree(EntOf(fs.view, dp.Cur()))
    ensures good ==>
              && Sound(fs) && dp.Inv(fs.geo, fs.fat) && (res == OK || res == NO_FILE || res == DENIED)
              && AllocOnTable(fs.geo, f, v, ch, fs.fat, fs.view, dp.chain, dp.Cur(), nEnt,
                              if res == OK then OK else DENIED)
  {
    res := OK;
    var n, found := 0, false;
    ghost var q := 0;
    while res == OK
      invariant fs.Ready() && OnlyFreeTouched(fs.geo, f, v, fs.fat, fs.view)
      invariant FreeExact(old(fs.fat), old(fs.freeClst)) ==> FreeExact(fs.fat, fs.freeClst)
      invariant old(Booked(fs)) ==> Booked(fs)
      invariant NoErrorMarks(old(fs.fat)) ==> NoErrorMarks(fs.fat)
      invariant res == OK || res == NO_FILE || res == DENIED || res == INT_ERR
      invariant res == OK ==> Placed(fs.geo, dp.Cur())
      invariant good ==> Sound(fs) && dp.Inv(fs.geo, fs.fat)
      invariant good && res == OK ==>
        && dp.dptr == q * SZDIRE && dp.At(fs.geo)
        && AllocatingAt(fs.geo, f, v, ch, fs.fat, fs.view, dp.chain, q, n, nEnt)
      invariant good && res != OK ==>
        && (res == NO_FILE || res == DENIED)
        && AllocOnTable(fs.geo, f, v, ch, fs.fat, fs.view, dp.chain, dp.Cur(), nEnt, DENIED)
      decreases res == OK, MAX_DIR - dp.dptr
    {
      res, found, n := AllocTest(fs, dp, nEnt, n, f, v, ch, q, good);
      if found { return; }
      q := q + 1;
      res := AllocNext(fs, dp, nEnt, n, f, v, ch, q, good);
    }
  }

  /** Counts the entry under the cursor. */
  method AllocTest(fs: Volume, dp: Dir, nEnt: nat, n0: nat,
                   ghost f: FatMap, ghost v: seq<Byte>, ghost ch: seq<Dword>, ghost q: nat, ghost good: bool)
    returns (res: FResult, found: bool, n: nat)
    requires fs.Ready() && Placed(fs.geo, dp.Cur())
    requires good ==>
               && dp.dptr == q * SZDIRE && OnTable(fs, dp)
               && AllocatingAt(fs.geo, f, v, ch, fs.fat, fs.view, dp.chain, q, n0, nEnt)
    modifies fs`wflag, fs`winsect, fs.win, fs.disk.data
    ensures fs.Ready() && res == OK && (good ==> OnTable(fs, dp))
    ensures found ==> Shown(fs.view, dp.Cur()) && IsFree(EntOf(fs.view, dp.Cur()))
    ensures good && found ==> AllocOnTable(fs.geo, f, v, ch, fs.fat, fs.view, dp.chain, dp.Cur(), nEnt, OK)
    ensures good && !found ==> AllocatingAt(fs.geo, f, v, ch, fs.fat, fs.view, dp.chain, q + 1, n, nEnt)
  {
    var e;
    PlacedOnDisk(fs.geo, fs.disk.sectors, dp.Cur());
    res, e := LoadAt(fs, dp);
    if IsFree(e) {
      n := n0 + 1;
      found := n == nEnt;
    } else {
      n, found := 0, false;
    }
    if good { AllocSeen(fs.geo, f, v, ch, fs.fat, fs.view, dp.chain, dp.Cur(), e, q, n0, n, nEnt); }
  }

  /** The step of dir_alloc to the next entry, which stretches the table if need be. */
  method AllocNext(fs: Volume, dp: Dir, ghost nEnt: nat, ghost n: nat,
                   ghost f: FatMap, ghost v: seq<Byte>, ghost ch: seq<Dword>, ghost q: nat, ghost good: bool)
    returns (res: FResult)
    requires fs.Ready() && Placed(fs.geo, dp.Cur()) && OnlyFreeTouched(fs.geo, f, v, fs.fat, fs.view)
    requires good ==>
               && dp.dptr + SZDIRE == q * SZDIRE && OnTable(fs, dp)
               && AllocatingAt(fs.geo, f, v, ch, fs.fat, fs.view, dp.chain, q, n, nEnt)
    modifies fs, fs.win, fs.disk.data, dp`dptr, dp`clust, dp`sect, dp`chain
    ensures fs.Ready() && OnlyFreeTouched(fs.geo, f, v, fs.fat, fs.view)
    ensures FreeExact(old(fs.fat), old(fs.freeClst)) ==> FreeExact(fs.fat, fs.freeClst)
    ensures old(Booked(fs)) ==> Booked(fs)
    ensures NoErrorMarks(old(fs.fat)) ==> NoErrorMarks(fs.fat)
    ensures res == OK || res == NO_FILE || res == DENIED || res == INT_ERR
    ensures res == OK ==> Placed(fs.geo, dp.Cur()) && dp.dptr == old(dp.dptr) + SZDIRE
    ensures good ==> Sound(fs) && dp.Inv(fs.geo, fs.fat)
    ensures good && res == OK ==>
              dp.At(fs.geo) && AllocatingAt(fs.geo, f, v, ch, fs.fat, fs.view, dp.chain, q, n, nEnt)
    ensures good && res != OK ==>
              && (res == NO_FILE || res == DENIED)
              && AllocOnTable(fs.geo, f, v, ch, fs.fat, fs.view, dp.chain, dp.Cur(), nEnt, DENIED)
  {
    ghost var f1, v1, ch1, c := fs.fat, fs.view, dp.chain, dp.Cur();
    res := DirNext(fs, dp, true);
    TouchedTrans(fs.geo, f, v, f1, v1, fs.fat, fs.view);
    if good { AllocatingOn(fs.geo, f, v, ch, f1, v1, ch1, c, fs.fat, fs.view, dp.chain, dp.Cur(), q, n, nEnt, res); }
  }

  /** dir_alloc has come to entry `q` with `n` free ones before it. */
  ghost predicate AllocatingAt(g: Geometry, f: FatMap, v: seq<Byte>, ch: seq<Dword>,
                               f': FatMap, v': seq<Byte>, ch': seq<Dword>, q: nat, n: nat, m: nat)
  {
    forall k :: UnfoldFrame(k) ==>
      && g.Valid(|v| / SS) && |v'| == |v| && DirFrame(g, f, v, ch, f', v', ch')
      && Padded(Seen(g, v, ch), Seen(g, v', ch')) && Counted(Seen(g, v', ch'), q, n, m)
  }

  lemma AllocStart(g: Geometry, f: FatMap, v: seq<Byte>, ch: seq<Dword>, m: nat)
    requires g.Valid(|v| / SS)
    ensures AllocatingAt(g, f, v, ch, f, v, ch, 0, 0, m)
  {
    DirFrameRefl(g, f, v, ch);
    assert Counted(Seen(g, v, ch), 0, 0, m);
  }

  /** How dir_alloc ends on a sound table. */
  ghost predicate AllocOnTable(g: Geometry, f: FatMap, v: seq<Byte>, ch: seq<Dword>,
                               f': FatMap, v': seq<Byte>, ch': seq<Dword>, c': Cursor, m: nat, res: FResult)
  {
    && (res == OK || res == DENIED)
    && forall k :: UnfoldFrame(k) ==>
         && g.Valid(|v| / SS) && |v'| == |v| && DirFrame(g, f, v, ch, f', v', ch')
         && var t, t' := Seen(g, v, ch), Seen(g, v', ch');
            && Padded(t, t')
            && (res == OK ==>
                  && 0 <= c'.dptr && AtPos(g, ch', c'.dptr, c'.clust, c'.sect)
                  && FirstBlock(t', c'.dptr / SZDIRE, m))
            && (res == DENIED ==>
                  && NoBlock(t', Count(t'), m)
                  && (ch' == [] || Count(t') * SZDIRE >= MAX_DIR || Free(f') == {}))
  }

  /** One round, up to the entry under the cursor. */
  lemma AllocSeen(g: Geometry, f: FatMap, v: seq<Byte>, ch: seq<Dword>,
                  f': FatMap, v': seq<Byte>, ch': seq<Dword>, c: Cursor, e: seq<Byte>, q: nat, n: nat, n': nat, m: nat)
    requires g.Valid(|v'| / SS) && |f'| == g.nFatent && IsChain(f', ch') && (ch' == [] ==> g.fsType != FAT32)
    requires c.dptr == q * SZDIRE && AtPos(g, ch', c.dptr, c.clust, c.sect) && Shown(v', c)
    requires AllocatingAt(g, f, v, ch, f', v', ch', q, n, m)
    requires e == EntOf(v', c) && n' == if IsFree(e) then n + 1 else 0
    ensures if IsFree(e) && n' == m then AllocOnTable(g, f, v, ch, f', v', ch', c, m, OK)
            else AllocatingAt(g, f, v, ch, f', v', ch', q + 1, n', m)
  {
    var t := Seen(g, v', ch');
    assert c.dptr / SZDIRE == q;
    LoadedEnt(g, f', v', ch', c.dptr, c.clust, c.sect);
    CountedSeen(g, f, v, ch, f', v', ch', q, n, m);
    CountedOn(t, q, n, m);
    if IsFree(e) && n' == m {
      AllocFound(g, f, v, ch, f', v', ch', c, q, n, m);
    } else {
      Recounted(g, f, v, ch, f', v', ch', q, n, q + 1, n', m);
    }
  }

  lemma AllocFound(g: Geometry, f: FatMap, v: seq<Byte>, ch: seq<Dword>,
                   f': FatMap, v': seq<Byte>, ch': seq<Dword>, c: Cursor, q: nat, n: nat, m: nat)
    requires g.Valid(|v'| / SS) && c.dptr == q * SZDIRE && AtPos(g, ch', c.dptr, c.clust, c.sect)
    requires AllocatingAt(g, f, v, ch, f', v', ch', q, n, m) && FirstBlock(Seen(g, v', ch'), q, m)
    ensures AllocOnTable(g, f, v, ch, f', v', ch', c, m, OK)
  {
    assert UnfoldFrame(0);
  }

  lemma CountedSeen(g: Geometry, f: FatMap, v: seq<Byte>, ch: seq<Dword>,
                    f': FatMap, v': seq<Byte>, ch': seq<Dword>, q: nat, n: nat, m: nat)
    requires g.Valid(|v'| / SS) && AllocatingAt(g, f, v, ch, f', v', ch', q, n, m)
    ensures Counted(Seen(g, v', ch'), q, n, m)
  {
    assert UnfoldFrame(0);
  }

  lemma Recounted(g: Geometry, f: FatMap, v: seq<Byte>, ch: seq<Dword>,
                  f': FatMap, v': seq<Byte>, ch': seq<Dword>, q: nat, n: nat, q': nat, n': nat, m: nat)
    requires g.Valid(|v'| / SS) && AllocatingAt(g, f, v, ch, f', v', ch', q, n, m)
    requires Counted(Seen(g, v', ch'), q', n', m)
    ensures AllocatingAt(g, f, v, ch, f', v', ch', q', n', m)
  {
    assert UnfoldFrame(0);
  }

  /** ... and behind it, where dir_next was called. */
  lemma AllocatingOn(g: Geometry, f: FatMap, v: seq<Byte>, ch: seq<Dword>, f1: FatMap, v1: seq<Byte>, ch1: seq<Dword>,
                     c: Cursor, f': FatMap, v': seq<Byte>, ch': seq<Dword>, c': Cursor,
                     q: nat, n: nat, m: nat, res: FResult)
    requires g.Valid(|v1| / SS) && |f1| == g.nFatent && IsChain(f1, ch1)
    requires c.dptr + SZDIRE == q * SZDIRE && 0 <= c.dptr && AtPos(g, ch1, c.dptr, c.clust, c.sect)
    requires AllocatingAt(g, f, v, ch, f1, v1, ch1, q, n, m)
    requires NextOnTable(g, f1, v1, ch1, c.dptr, true, res, f', v', ch', c') && (ch' == [] <==> ch1 == [])
    ensures AllocatingAt(g, f, v, ch, f', v', ch', q, n, m)
    ensures res != OK ==> (res == NO_FILE || res == DENIED) && AllocOnTable(g, f, v, ch, f', v', ch', c', m, DENIED)
  {
    AllocatingGrown(g, f, v, ch, f1, v1, ch1, q, f', v', ch', n, m);
    if res != OK { AllocatingEnds(g, f, v, ch, f1, v1, ch1, c, f', v', ch', c', q, n, m, res); }
  }

  lemma AllocatingEnds(g: Geometry, f: FatMap, v: seq<Byte>, ch: seq<Dword>, f1: FatMap, v1: seq<Byte>, ch1: seq<Dword>,
                       c: Cursor, f': FatMap, v': seq<Byte>, ch': seq<Dword>, c': Cursor,
                       q: nat, n: nat, m: nat, res: FResult)
    requires g.Valid(|v1| / SS) && |f1| == g.nFatent && IsChain(f1, ch1) && res != OK
    requires c.dptr + SZDIRE == q * SZDIRE && 0 <= c.dptr && AtPos(g, ch1, c.dptr, c.clust, c.sect)
    requires AllocatingAt(g, f, v, ch, f', v', ch', q, n, m)
    requires NextOnTable(g, f1, v1, ch1, c.dptr, true, res, f', v', ch', c') && (ch' == [] <==> ch1 == [])
    ensures (res == NO_FILE || res == DENIED) && AllocOnTable(g, f, v, ch, f', v', ch', c', m, DENIED)
  {
    assert UnfoldFrame(0) && UnfoldPos(0);
    LastEntry(g, ch1, c.dptr);
    CountedEnd(Seen(g, v', ch'), q, n, m);
  }

  lemma AllocatingGrown(g: Geometry, f: FatMap, v: seq<Byte>, ch: seq<Dword>, f1: FatMap, v1: seq<Byte>,
                        ch1: seq<Dword>, q: nat, f': FatMap, v': seq<Byte>, ch': seq<Dword>, n: nat, m: nat)
    requires AllocatingAt(g, f, v, ch, f1, v1, ch1, q, n, m) && IsChain(f1, ch1) && g.Valid(|v1| / SS)
    requires DirFrame(g, f1, v1, ch1, f', v', ch') && Grew(g, v1, ch1, v', ch') && (ch' == [] <==> ch1 == [])
    ensures AllocatingAt(g, f, v, ch, f', v', ch', q, n, m) && g.Valid(|v'| / SS)
  {
    assert UnfoldFrame(0);
    var t1, t' := Seen(g, v1, ch1), Seen(g, v', ch');
    GrewSeen(g, v1, ch1, v', ch');
    CountedPadded(t1, t', q, n, m);
    PaddedTrans(Seen(g, v, ch), t1, t');
    DirFrameTrans(g, f, v, ch, f1, v1, ch1, f', v', ch');
  }

  lemma PaddedTrans(t: seq<Byte>, t': seq<Byte>, t'': seq<Byte>)
    requires Padded(t, t') && Padded(t', t'')
    ensures Padded(t, t'')
  {
    assert t''[..|t|] == t''[..|t'|][..|t|];
  }

  /** dir_register: adds one binding, of the name in `fn` to a fresh entry, that dir_find
      then finds; every other binding stays, even if the table had to be stretched. */
  method DirRegister(fs: Volume, dp: Dir) returns (res: FResult)
    requires Sound(fs) && dp.Inv(fs.geo, fs.fat)
    modifies fs, fs.win, fs.disk.data, dp`dptr, dp`clust, dp`sect, dp`chain
    ensures Sound(fs) && dp.Inv(fs.geo, fs.fat)
    ensures DirFrame(fs.geo, old(fs.fat), old(fs.view), old(dp.chain), fs.fat, fs.view, dp.chain)
    ensures res == OK || res == DENIED
    ensures res == OK ==> dp.At(fs.geo) && dp.dptr / SZDIRE < Count(T(fs, dp))
                          && IsBlank(Ent(T(fs, dp), dp.dptr / SZDIRE), dp.fn)
    ensures res == OK ==> Bound(old(T(fs, dp)), T(fs, dp), dp.fn)
    ensures res == DENIED ==> AllUsed(T(fs, dp), Count(T(fs, dp)))
                              && (dp.chain == [] || Count(T(fs, dp)) * SZDIRE >= MAX_DIR || Free(fs.fat) == {})
  {
    res := DirAlloc(fs, dp, 1);
    assert UnfoldFrame(0);
    ghost var f1, v1, t1 := fs.fat, fs.view, T(fs, dp);
    BlockOfOne(t1, if res == OK then dp.dptr / SZDIRE else Count(t1));
    if res != OK { return; }
    PutNewEntry(fs, dp);
    DirFrameTrans(fs.geo, old(fs.fat), old(fs.view), old(dp.chain), f1, v1, dp.chain, fs.fat, fs.view, dp.chain);
    if WellFormed(old(T(fs, dp))) && ProperName(dp.fn) && dp.fn !in DirMap(old(T(fs, dp))) {
      SizeAlignedSeen(fs.geo, old(dp.chain));
      StretchTable(old(T(fs, dp)), t1);
      AddEntry(t1, T(fs, dp), dp.dptr / SZDIRE);
    }
  }

  ghost predicate UnfoldMap(k: int) { true }

  /** An entry with the name `fn` and nothing else: no attribute, no cluster, no size, no time. */
  ghost predicate IsBlank(e: seq<Byte>, fn: seq<Byte>)
  {
    |e| == 32 && e[..11] == fn && forall i :: 11 <= i < 32 ==> e[i] == 0
  }

  /** The name `fn`, unused in the table `t`, is bound to a blank entry in `t'`, and all else is as before. */
  ghost predicate Bound(t: seq<Byte>, t': seq<Byte>, fn: seq<Byte>)
  {
    forall k :: UnfoldMap(k) ==>
      (WellFormed(t) && ProperName(fn) && fn !in DirMap(t) ==>
         && WellFormed(t') && fn in DirMap(t') && IsBlank(DirMap(t')[fn], fn)
         && DirMap(t') == DirMap(t)[fn := DirMap(t')[fn]])
  }

  /** The name of entry `n` of `t`, an object, is not bound in `t'`, and all else is as before. */
  ghost predicate Unbound(t: seq<Byte>, t': seq<Byte>, n: nat)
  {
    forall k :: UnfoldMap(k) ==>
      n < Count(t) && (WellFormed(t) && IsObject(Ent(t, n)) ==>
                         WellFormed(t') && DirMap(t') == DirMap(t) - {NameOf(Ent(t, n))})
  }

  lemma SizeAlignedSeen(g: Geometry, ch: seq<Dword>)
    ensures Min(TableSize(g, ch), MAX_DIR) % SZDIRE == 0
  {
    SizeAligned(g, ch);
  }

  /** A cleaned entry with the short name put in. */
  function NewEntry(fn: seq<Byte>): (e: seq<Byte>)
    requires |fn| == NAME
    ensures IsBlank(e, fn) && NameOf(e) == fn && (ProperName(fn) ==> IsObject(e))
  {
    fn + Zeros(SZDIRE - NAME)
  }

  /** Writes the new entry at the cursor. */
  method PutNewEntry(fs: Volume, dp: Dir)
    requires Sound(fs) && dp.Inv(fs.geo, fs.fat) && dp.At(fs.geo)
    modifies fs`wflag, fs`winsect, fs`view, fs`fat, fs.win, fs.disk.data
    ensures Sound(fs) && fs.fat == old(fs.fat)
    ensures DirFrame(fs.geo, fs.fat, old(fs.view), dp.chain, fs.fat, fs.view, dp.chain)
    ensures DiffersAt(old(T(fs, dp)), T(fs, dp), dp.dptr / SZDIRE)
    ensures Ent(T(fs, dp), dp.dptr / SZDIRE) == NewEntry(dp.fn)
  {
    ghost var t, k := T(fs, dp), dp.dptr / SZDIRE;
    var res, _ := LoadEnt(fs, dp);
    var e := NewEntry(dp.fn);
    StoreEnt(fs, dp, 0, e);
    assert UnfoldFrame(0);
    ReplacedEnt(t, T(fs, dp), dp.dptr, e);
  }

  lemma ReplacedEnt(t: seq<Byte>, t': seq<Byte>, p: nat, e: seq<Byte>)
    requires p % SZDIRE == 0 && p / SZDIRE < Count(t) && |e| == SZDIRE && Overlaid(t, t', p, e)
    ensures DiffersAt(t, t', p / SZDIRE) && Ent(t', p / SZDIRE) == e
  {
    SpliceEnt(t, t', p / SZDIRE, 0, e);
    WholeOverlay(Ent(t, p / SZDIRE), e);
  }

  lemma WholeOverlay(d: seq<Byte>, w: seq<Byte>)
    requires |d| == |w|
    ensures Overlay(d, 0, w) == w
  {
  }

  // -------------------------------------------------------------- dir_remove

  /** dir_remove: deletes exactly the binding of the object under the cursor. */
  method DirRemove(fs: Volume, dp: Dir) returns (res: FResult)
    requires Sound(fs) && dp.Inv(fs.geo, fs.fat) && dp.At(fs.geo)
    modifies fs`wflag, fs`winsect, fs`view, fs`fat, fs.win, fs.disk.data
    ensures Sound(fs) && res == OK && fs.fat == old(fs.fat)
    ensures DirFrame(fs.geo, fs.fat, old(fs.view), dp.chain, fs.fat, fs.view, dp.chain)
    ensures DiffersAt(old(T(fs, dp)), T(fs, dp), dp.dptr / SZDIRE)
    ensures Ent(T(fs, dp), dp.dptr / SZDIRE) == Ent(old(T(fs, dp)), dp.dptr / SZDIRE)[0 := DDEM]
    ensures Unbound(old(T(fs, dp)), T(fs, dp), dp.dptr / SZDIRE)
  {
    ghost var t, k := T(fs, dp), dp.dptr / SZDIRE;
    var e;
    res, e := LoadEnt(fs, dp);
    if res != OK { return; }
    StoreEnt(fs, dp, 0, [DDEM]);
    assert UnfoldFrame(0);
    SpliceEnt(t, T(fs, dp), k, 0, [DDEM]);
    assert Overlay(Ent(t, k), 0, [DDEM]) == Ent(t, k)[0 := DDEM];
    if WellFormed(t) && IsObject(Ent(t, k)) { RemoveEntry(t, T(fs, dp), k); }
  }

  // ------------------------------------------------- dir_sdi against dir_next

  /** dir_sdi(0) followed by `n` times dir_next reaches the cursor that dir_sdi(32 n) sets, and
      fails exactly where dir_sdi would refuse, whatever the FAT holds. */
  method StepTo(fs: Volume, dp: Dir, n: nat) returns (res: FResult)
    requires fs.Ready()
    modifies fs, fs.win, fs.disk.data, dp`dptr, dp`clust, dp`sect
    ensures fs.Ready() && fs.view == old(fs.view) && fs.fat == old(fs.fat)
    ensures match SdiOf(fs.geo, fs.fat, dp.sclust, n * SZDIRE)
            case None => res != OK
            case Some(c) => res == OK && dp.Cur() == c
  {
    ghost var g, sectors, f := fs.geo, fs.disk.sectors, fs.fat;
    res := SetIndex(fs, dp, 0);
    SdiIsSteps(g, sectors, f, dp.sclust, n);
    if res != OK { return; }
    SdiPlaced(g, f, dp.sclust, 0);
    res := TakeSteps(fs, dp, n);
  }

  method TakeSteps(fs: Volume, dp: Dir, n: nat) returns (res: FResult)
    requires fs.Ready() && Placed(fs.geo, dp.Cur())
    modifies fs, fs.win, fs.disk.data, dp`dptr, dp`clust, dp`sect
    ensures fs.Ready() && fs.view == old(fs.view) && fs.fat == old(fs.fat)
    ensures Path(fs.geo, fs.fat, old(dp.Cur()), n) == if res == OK then Some(dp.Cur()) else None
  {
    ghost var g, f, c := fs.geo, fs.fat, dp.Cur();
    res := OK;
    var i := 0;
    while i < n
      invariant fs.Ready() && fs.view == old(fs.view) && fs.fat == f && 0 <= i <= n && res == OK
      invariant Path(g, f, c, i) == Some(dp.Cur()) && Placed(g, dp.Cur())
      decreases n - i
    {
      res := TakeStep(fs, dp, c, i);
      i := i + 1;
      if res != OK {
        PathStays(g, f, c, i, n);
        return;
      }
    }
  }

  method TakeStep(fs: Volume, dp: Dir, ghost c: Cursor, ghost i: nat) returns (res: FResult)
    requires fs.Ready() && Placed(fs.geo, dp.Cur()) && Path(fs.geo, fs.fat, c, i) == Some(dp.Cur())
    modifies fs, fs.win, fs.disk.data, dp`dptr, dp`clust, dp`sect
    ensures fs.Ready() && fs.view == old(fs.view) && fs.fat == old(fs.fat)
    ensures Path(fs.geo, fs.fat, c, i + 1) == if res == OK then Some(dp.Cur()) else None
    ensures res == OK ==> Placed(fs.geo, dp.Cur())
  {
    ghost var d, v1 := dp.Cur(), fs.view;
    PlacedOnDisk(fs.geo, fs.disk.sectors, d);
    res, v1 := NextEntry(fs, dp, false);
    assert UnfoldNext(0);
    if res == OK { NextPlaced(fs.geo, fs.disk.sectors, fs.fat, d); }
  }

  lemma {:induction false} PathStays(g: Geometry, f: FatMap, c: Cursor, i: nat, n: nat)
    requires g.csize > 0 && 2 <= |f| && i <= n
    ensures Path(g, f, c, i) == None ==> Path(g, f, c, n) == None
  {
    if i < n { PathStays(g, f, c, i, n - 1); }
  }

  /** A directory operation changes no file or other directory. */
  lemma DirLeavesOthers(g: Geometry, f: FatMap, v: seq<Byte>, ch: seq<Dword>, f': FatMap, v': seq<Byte>,
                        ch': seq<Dword>, other: seq<Dword>, size: nat)
    requires g.Valid(|v| / SS) && |f| == g.nFatent && DirFrame(g, f, v, ch, f', v', ch')
    requires IsChain(f, other) && Disjoint(other, ch)
    ensures IsChain(f', other) && Disjoint(other, ch')
    ensures Content(g, v', other, size) == Content(g, v, other, size)
  {
    assert UnfoldFrame(0);
    StillDisjoint(f, ch, f', ch', other);
    ChainFrame(f, f', other);
    forall k | 0 <= k < |other| ensures SameIn(g, other[k], v, v') {
      DirSameIn(g, f, v, ch, f', v', ch', other[k]);
    }
    ContentFrame(g, v, v', other, size);
  }

  lemma DirSameIn(g: Geometry, f: FatMap, v: seq<Byte>, ch: seq<Dword>, f': FatMap, v': seq<Byte>, ch': seq<Dword>,
                  c: Dword)
    requires g.Valid(|v| / SS) && 2 <= c < g.nFatent && c !in ch' && DirFrame(g, f, v, ch, f', v', ch') && |v'| == |v|
    ensures SameIn(g, c, v, v')
  {
    assert UnfoldFrame(0);
    forall a | 0 <= a < |v| && InCluster(g, c, a) ensures v'[a] == v[a] {
      ClusterBehindFat(g, |v| / SS, c, a - g.ClusterBase(c));
      if ch' != [] { NotOwned(g, ch', c, a - g.ClusterBase(c)); }
    }
  }
}
