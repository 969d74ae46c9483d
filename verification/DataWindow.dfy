/** Transfers of file data: through the shared window for parts of a sector, and
    straight to the disk for whole sectors, past a window that may be dirty. */
module DataWindow {
  import opened Bytes
  import opened Layout
  import opened DiskIo
  import opened FatBits
  import opened Window
  import opened FileData

  /** Overwriting bytes behind the FAT copies leaves the FAT alone. */
  lemma DataStore(g: Geometry, v: seq<Byte>, a: nat, w: seq<Byte>)
    requires g.Valid(|v| / SS) && g.FatEnd() * SS <= a && a + |w| <= |v|
    ensures Fat(g, Overlay(v, a, w)) == Fat(g, v)
    ensures FatsAgree(g, v) ==> FatsAgree(g, Overlay(v, a, w))
  {
    SliceOut(v, g.fatbase * SS, (g.fatbase + g.fsize) * SS, a, w);
    if g.nFats == 2 {
      SliceOut(v, (g.fatbase + g.fsize) * SS, (g.fatbase + g.fsize + g.fsize) * SS, a, w);
    }
  }

  lemma DataPacked(g: Geometry, v: seq<Byte>, f: seq<Dword>, a: nat, w: seq<Byte>)
    requires g.Valid(|v| / SS) && g.FatEnd() * SS <= a && a + |w| <= |v| && Packs(g, v, f)
    ensures Packs(g, Overlay(v, a, w), f) && (FatsAgree(g, v) ==> FatsAgree(g, Overlay(v, a, w)))
  {
    assert UnfoldFat(0);
    DataStore(g, v, a, w);
  }

  /** Copies bytes into the window over a data or directory sector and marks it dirty.  At the
      start of the sector it does not matter what the window held before. */
  method StoreData(fs: Volume, ofs: nat, bytes: seq<Byte>)
    requires fs.Valid() && fs.geo.FatEnd() <= fs.winsect < fs.disk.sectors
    requires ofs + |bytes| <= SS
    modifies fs`wflag, fs`view, fs`fat, fs.win
    ensures fs.Ready() && fs.fat == old(fs.fat)
    ensures FatsAgree(fs.geo, old(fs.view)) ==> FatsAgree(fs.geo, fs.view)
    ensures old(fs.Coherent()) ==> Stored(old(fs.view), fs.view, fs.winsect * SS + ofs, bytes, |bytes|)
    ensures ofs == 0 ==> Stored(old(fs.view), fs.view, fs.winsect * SS, bytes, SS)
  {
    assert UnfoldFat(0);
    ghost var v, w := fs.view, fs.win[..];
    StoreWindow(fs, ofs, bytes);
    DataStore(fs.geo, v, fs.winsect * SS, fs.win[..]);
    StoredInWindow(v, fs.winsect, w, ofs, bytes);
  }

  lemma StoredInWindow(v: seq<Byte>, s: nat, w: seq<Byte>, ofs: nat, bytes: seq<Byte>)
    requires (s + 1) * SS <= |v| && |w| == SS && ofs + |bytes| <= SS
    ensures var v' := Overlay(v, s * SS, Overlay(w, ofs, bytes));
            && (w == v[s * SS..(s + 1) * SS] ==> Stored(v, v', s * SS + ofs, bytes, |bytes|))
            && (ofs == 0 ==> Stored(v, v', s * SS, bytes, SS))
  {
    if w == v[s * SS..(s + 1) * SS] {
      OverlayWithin(v, s * SS, SS, ofs, bytes);
    }
  }

  /** Flushes the window and points it at a sector that is about to be overwritten
      from its start, without reading it. */
  method Retarget(fs: Volume, sect: Dword) returns (res: FResult)
    requires fs.Valid()
    modifies fs`wflag, fs`winsect, fs.disk.data
    ensures fs.Valid() && res == OK && fs.winsect == sect && !fs.wflag
  {
    res := SyncWindow(fs);
    if res != OK { return; }
    assert UnfoldView(0);
    fs.winsect := sect;
  }

  /** Writes whole sectors directly; a window caught in the range is refilled from
      the written data and becomes clean. */
  method WriteThrough(fs: Volume, buff: seq<Byte>, sect: Dword, cc: Dword) returns (res: FResult)
    requires fs.Ready() && fs.geo.database <= sect && sect + cc <= fs.disk.sectors
    requires cc > 0 && |buff| == cc * SS
    modifies fs`wflag, fs`view, fs`fat, fs.win, fs.disk.data
    ensures fs.Ready() && res == OK && fs.fat == old(fs.fat)
    ensures FatsAgree(fs.geo, old(fs.view)) ==> FatsAgree(fs.geo, fs.view)
    ensures fs.view == Overlay(old(fs.view), sect * SS, buff)
  {
    DataPacked(fs.geo, fs.view, fs.fat, sect * SS, buff);
    ghost var v, d, w, wflag := fs.view, fs.disk.data[..], fs.win[..], fs.wflag;
    assert fs.winsect < fs.disk.sectors ==> w == v[fs.winsect * SS..(fs.winsect + 1) * SS];
    res := WriteAround(fs, buff, sect, cc);
    WriteShown(fs.geo, d, wflag, fs.winsect, w, v, sect, cc, buff, fs.wflag, fs.win[..]);
    fs.view := Overlay(v, sect * SS, buff);
  }

  /** The write itself, and the refill of the window. */
  method WriteAround(fs: Volume, buff: seq<Byte>, sect: Dword, cc: Dword) returns (res: FResult)
    requires fs.disk.Valid() && fs.win.Length == SS && fs.win != fs.disk.data
    requires cc > 0 && sect + cc <= fs.disk.sectors < TWO32 && |buff| == cc * SS
    modifies fs`wflag, fs.win, fs.disk.data
    ensures res == OK && fs.disk.data[..] == Overlay(old(fs.disk.data[..]), sect * SS, buff)
    ensures if sect <= fs.winsect < sect + cc
            then !fs.wflag && fs.win[..] == buff[(fs.winsect - sect) * SS..(fs.winsect - sect + 1) * SS]
            else fs.wflag == old(fs.wflag) && fs.win[..] == old(fs.win[..])
  {
    var r := fs.disk.Write(buff, sect, cc);
    if r != RES_OK { return DISK_ERR; }
    Refill(fs, buff, sect, cc);
    res := OK;
  }

  /** Refills the window if the direct write has overwritten its sector. */
  method Refill(fs: Volume, buff: seq<Byte>, sect: Dword, cc: Dword)
    requires fs.win.Length == SS && sect + cc <= TWO32 && |buff| == cc * SS
    modifies fs`wflag, fs.win
    ensures if sect <= fs.winsect < sect + cc
            then !fs.wflag && fs.win[..] == buff[(fs.winsect - sect) * SS..(fs.winsect - sect + 1) * SS]
            else fs.wflag == old(fs.wflag) && fs.win[..] == old(fs.win[..])
  {
    IntervalTest(fs.winsect, sect, cc);
    if Sub32(fs.winsect, sect) < cc {
      var k := Sub32(fs.winsect, sect);
      MemCpy(fs.win, 0, buff[k * SS..(k + 1) * SS]);
      fs.wflag := false;
    }
  }

  /** What a direct write does to the logical disk and to the window's sector. */
  lemma WriteUnder(g: Geometry, d: seq<Byte>, wflag: bool, s: nat, w: seq<Byte>, sect: nat, cc: nat, buff: seq<Byte>)
    requires g.Valid(|d| / SS) && |w| == SS && (wflag ==> (s + 1) * SS <= |d|)
    requires g.database <= sect && (sect + cc) * SS <= |d| && |buff| == cc * SS
    ensures var v, d' := Flush(g, d, wflag, s, w), Overlay(d, sect * SS, buff);
            var v' := Overlay(v, sect * SS, buff);
            if sect <= s < sect + cc then
              v' == d' && v'[s * SS..(s + 1) * SS] == buff[(s - sect) * SS..(s - sect + 1) * SS]
            else
              && v' == Flush(g, d', wflag, s, w)
              && ((s + 1) * SS <= |d| ==> v'[s * SS..(s + 1) * SS] == v[s * SS..(s + 1) * SS])
  {
    var v := Flush(g, d, wflag, s, w);
    if sect <= s < sect + cc {
      if wflag { OverlayOver(d, s * SS, w, sect * SS, buff); }
    } else {
      if wflag { PutAside(g, d, s, w, sect * SS, buff); }
      if (s + 1) * SS <= |d| { SliceOut(v, s * SS, (s + 1) * SS, sect * SS, buff); }
    }
  }

  /** With the window refilled, it and the disk give the overwritten logical disk. */
  lemma WriteShown(g: Geometry, d: seq<Byte>, wflag: bool, s: nat, w: seq<Byte>, v: seq<Byte>,
                   sect: nat, cc: nat, buff: seq<Byte>, wflag': bool, w': seq<Byte>)
    requires g.Valid(|d| / SS) && Lies(g, d, wflag, s, w, v) && |v| == |d|
    requires g.database <= sect && (sect + cc) * SS <= |d| && |buff| == cc * SS
    requires (s + 1) * SS <= |d| ==> w == v[s * SS..(s + 1) * SS]
    requires if sect <= s < sect + cc then !wflag' && w' == buff[(s - sect) * SS..(s - sect + 1) * SS]
             else wflag' == wflag && w' == w
    ensures Lies(g, Overlay(d, sect * SS, buff), wflag', s, w', Overlay(v, sect * SS, buff))
    ensures (s + 1) * SS <= |d| ==> w' == Overlay(v, sect * SS, buff)[s * SS..(s + 1) * SS]
  {
    assert UnfoldView(0);
    WriteUnder(g, d, wflag, s, w, sect, cc, buff);
  }

  lemma OverlayOver(d: seq<Byte>, a: nat, w: seq<Byte>, b: nat, u: seq<Byte>)
    requires b <= a && a + |w| <= b + |u| <= |d|
    ensures Overlay(Overlay(d, a, w), b, u) == Overlay(d, b, u)
  {
  }

  lemma OverlayCommutes(d: seq<Byte>, a: nat, w: seq<Byte>, b: nat, u: seq<Byte>)
    requires a + |w| <= |d| && b + |u| <= |d| && (a + |w| <= b || b + |u| <= a)
    ensures Overlay(Overlay(d, a, w), b, u) == Overlay(Overlay(d, b, u), a, w)
  {
  }

  lemma PutAside(g: Geometry, d: seq<Byte>, s: nat, w: seq<Byte>, b: nat, u: seq<Byte>)
    requires g.Valid(|d| / SS) && |w| == SS && (s + 1) * SS <= |d|
    requires g.database * SS <= b && b + |u| <= |d| && ((s + 1) * SS <= b || b + |u| <= s * SS)
    ensures Overlay(PutSector(g, d, s, w), b, u) == PutSector(g, Overlay(d, b, u), s, w)
  {
    OverlayCommutes(d, s * SS, w, b, u);
    if g.Mirrored(s) {
      OverlayCommutes(Overlay(d, s * SS, w), (s + g.fsize) * SS, w, b, u);
    }
  }

  /** Reads whole sectors directly, then patches in the dirty window if it is one of
      them. */
  method ReadThrough(fs: Volume, rbuff: array<Byte>, ofs: nat, sect: Dword, cc: Dword) returns (res: FResult)
    requires fs.Ready() && fs.geo.database <= sect && sect + cc <= fs.disk.sectors
    requires cc > 0 && ofs + cc * SS <= rbuff.Length && rbuff != fs.win && rbuff != fs.disk.data
    modifies rbuff
    ensures res == OK
    ensures rbuff[..] == Overlay(old(rbuff[..]), ofs, fs.view[sect * SS..(sect + cc) * SS])
  {
    res := OK;
    ghost var b := rbuff[..];
    var r := fs.disk.Read(rbuff, ofs, sect, cc);
    if r != RES_OK { return DISK_ERR; }
    ReadShown(fs.geo, fs.disk.data[..], fs.wflag, fs.winsect, fs.win[..], fs.view, sect, cc, b, ofs);
    IntervalTest(fs.winsect, sect, cc);
    if fs.wflag && Sub32(fs.winsect, sect) < cc {
      MemCpy(rbuff, ofs + Sub32(fs.winsect, sect) * SS, fs.win[..]);
    }
  }

  lemma ReadShown(g: Geometry, d: seq<Byte>, wflag: bool, s: nat, w: seq<Byte>, v: seq<Byte>,
                  sect: nat, cc: nat, b: seq<Byte>, ofs: nat)
    requires g.Valid(|d| / SS) && Lies(g, d, wflag, s, w, v) && |v| == |d|
    requires g.database <= sect && (sect + cc) * SS <= |d| && ofs + cc * SS <= |b|
    ensures wflag ==> |w| == SS && (s + 1) * SS <= |d|
    ensures var u := Overlay(b, ofs, d[sect * SS..(sect + cc) * SS]);
            Overlay(b, ofs, v[sect * SS..(sect + cc) * SS]) ==
            if wflag && sect <= s < sect + cc then Overlay(u, ofs + (s - sect) * SS, w) else u
  {
    assert UnfoldView(0);
    ReadUnder(g, d, wflag, s, w, sect, cc, b, ofs);
  }

  /** What a direct read has to patch to agree with the logical disk. */
  lemma ReadUnder(g: Geometry, d: seq<Byte>, wflag: bool, s: nat, w: seq<Byte>, sect: nat, cc: nat, b: seq<Byte>,
                  ofs: nat)
    requires g.Valid(|d| / SS) && |w| == SS && (wflag ==> (s + 1) * SS <= |d|)
    requires g.database <= sect && (sect + cc) * SS <= |d| && ofs + cc * SS <= |b|
    ensures var u := Overlay(b, ofs, d[sect * SS..(sect + cc) * SS]);
            var want := Overlay(b, ofs, Flush(g, d, wflag, s, w)[sect * SS..(sect + cc) * SS]);
            if wflag && sect <= s < sect + cc then Overlay(u, ofs + (s - sect) * SS, w) == want else u == want
  {
    if wflag && sect <= s < sect + cc {
      SliceIn(d, sect * SS, (sect + cc) * SS, s * SS, w);
      OverlayInner(b, ofs, d[sect * SS..(sect + cc) * SS], (s - sect) * SS, w);
    } else if wflag {
      PutElsewhere(g, d, s, w, sect * SS, (sect + cc) * SS);
    }
  }

  lemma OverlayInner(b: seq<Byte>, a: nat, u: seq<Byte>, o: nat, w: seq<Byte>)
    requires a + |u| <= |b| && o + |w| <= |u|
    ensures Overlay(Overlay(b, a, u), a + o, w) == Overlay(b, a, Overlay(u, o, w))
  {
  }

  lemma PutElsewhere(g: Geometry, d: seq<Byte>, s: nat, w: seq<Byte>, lo: nat, hi: nat)
    requires g.Valid(|d| / SS) && |w| == SS && (s + 1) * SS <= |d|
    requires g.database * SS <= lo <= hi <= |d| && ((s + 1) * SS <= lo || hi <= s * SS)
    ensures PutSector(g, d, s, w)[lo..hi] == d[lo..hi]
  {
    SliceOut(d, lo, hi, s * SS, w);
    if g.Mirrored(s) {
      SliceOut(Overlay(d, s * SS, w), lo, hi, (s + g.fsize) * SS, w);
    }
  }
}
