/** sync_fs: the window and the FSInfo record go to the disk. */
module Sync {
  import opened Bytes
  import opened Layout
  import opened DiskIo
  import opened FatBits
  import opened Window
  import opened Chains
  import opened Allocator
  import opened BootRules
  import opened Mkfs

  /** An FSInfo record with this free count and last cluster, and zeros elsewhere. */
  ghost predicate IsRecord(w: seq<Byte>, free: Dword, last: Dword)
  {
    && |w| == SS && IsInfoRecord(w) && Num4(w, 488) == free && Num4(w, 492) == last
    && forall i :: 4 <= i < 484 || 496 <= i < 498 || 502 <= i < 512 ==> w[i] == 0
  }

  ghost predicate UnfoldRecord(k: int) { true }

  /** The record went to sector `s`, and nothing else changed (to be looked at through `UnfoldRecord`). */
  ghost predicate RecordedAt(v: seq<Byte>, v': seq<Byte>, s: nat, free: Dword, last: Dword)
  {
    && (s + 1) * SS <= |v| == |v'|
    && forall k :: UnfoldRecord(k) ==>
         SameOutside(v, v', s * SS, (s + 1) * SS) && IsRecord(v'[s * SS..(s + 1) * SS], free, last)
  }

  /** sync_fs has a record to write: bit 0 of fsi_flag is set and bit 7 is not. */
  ghost predicate Outdated(fs: Volume)
    reads fs`fsiDirty
  {
    fs.fsiDirty && fs.fsInfo
  }

  method PutRecord(win: array<Byte>, free: Dword, last: Dword)
    requires win.Length == SS
    modifies win
    ensures IsRecord(win[..], free, last)
  {
    ClearSector(win);
    PutDword(win, 0, 0x41615252);
    PutDword(win, 484, 0x61417272);
    PutDword(win, 488, free);
    PutDword(win, 492, last);
    PutDword(win, 498, 0xAA55_0000);
    RecordIs(win[..]);
  }

  /** The FAT survives the record exactly if there is a sector for it: in a volume with a single
      reserved sector the record overwrites the start of the FAT. */
  lemma RecordAndFat(g: Geometry, v: seq<Byte>, v': seq<Byte>, free: Dword, last: Dword)
    requires g.Valid(|v| / SS) && g.fsType == FAT32 && RecordedAt(v, v', g.volbase + 1, free, last)
    ensures |v'| == |v|
    ensures g.volbase + 1 < g.fatbase ==> Fat(g, v') == Fat(g, v) && (FatsAgree(g, v) ==> FatsAgree(g, v'))
    ensures g.volbase + 1 == g.fatbase ==> Fat(g, v')[2] == 0
  {
    assert UnfoldRecord(0);
    if g.volbase + 1 < g.fatbase {
      assert FatImage(g, v') == FatImage(g, v);
      if g.nFats == 2 { assert FatCopy(g, v') == FatCopy(g, v); }
    } else {
      var w, img := v'[g.fatbase * SS..(g.fatbase + 1) * SS], FatImage(g, v');
      assert forall i :: 8 <= i < 12 ==> w[i] == img[i] == 0;
      PackedExactly(img, 2);
    }
  }

  /** The same for the table `f` of the FAT's entries. */
  lemma TableAndFat(g: Geometry, v: seq<Byte>, f: seq<Dword>, v': seq<Byte>, free: Dword, last: Dword)
    requires g.Valid(|v| / SS) && g.fsType == FAT32 && RecordedAt(v, v', g.volbase + 1, free, last) && Packs(g, v, f)
    ensures |v'| == |v| && |Fat(g, v')| == g.nFatent
    ensures g.volbase + 1 < g.fatbase ==> Fat(g, v') == f && (FatsAgree(g, v) ==> FatsAgree(g, v'))
    ensures g.volbase + 1 == g.fatbase ==> Fat(g, v')[2] == 0
  {
    assert UnfoldFat(0);
    RecordAndFat(g, v, v', free, last);
  }

  /** The record goes to the disk through the window, past the FAT mirror. */
  method WriteRecord(fs: Volume)
    requires fs.Ready() && !fs.wflag && fs.disk.data[..] == fs.view && fs.fsInfo
    modifies fs`winsect, fs`view, fs`fat, fs.win, fs.disk.data, fs.ledger
    ensures fs.Ready() && fs.disk.data[..] == fs.view && fs.ledger.free == fs.freeClst
    ensures RecordedAt(old(fs.view), fs.view, fs.geo.volbase + 1, fs.freeClst, fs.lastClst)
    ensures fs.geo.volbase + 1 < fs.geo.fatbase ==>
              fs.fat == old(fs.fat) && (FatsAgree(fs.geo, old(fs.view)) ==> FatsAgree(fs.geo, fs.view))
    ensures fs.geo.volbase + 1 == fs.geo.fatbase ==> fs.fat[2] == 0
  {
    var s := fs.geo.volbase + 1;
    Wrap32Id(s);
    ghost var v, f := fs.view, fs.fat;
    assert fs.geo.Valid(|v| / SS);
    StoreRecord(fs.disk, fs.win, Wrap32(s), fs.freeClst, fs.lastClst);
    TableAndFat(fs.geo, v, f, fs.disk.data[..], fs.freeClst, fs.lastClst);
    CleanWindow(fs.geo, fs.disk.data[..], s, fs.win[..]);
    fs.winsect, fs.view, fs.fat := Wrap32(s), fs.disk.data[..], Fat(fs.geo, fs.disk.data[..]);
    fs.ledger.free := fs.freeClst;
  }

  /** With nothing to flush the logical disk is the disk. */
  lemma CleanWindow(g: Geometry, d: seq<Byte>, s: nat, w: seq<Byte>)
    requires g.Valid(|d| / SS) && |w| == SS
    ensures Lies(g, d, false, s, w, d) && Packs(g, d, Fat(g, d))
  {
  }

  method StoreRecord(disk: Disk, win: array<Byte>, s: Dword, free: Dword, last: Dword)
    requires disk.Valid() && win.Length == SS && win != disk.data && s < disk.sectors
    modifies win, disk.data
    ensures RecordedAt(old(disk.data[..]), disk.data[..], s, free, last)
    ensures disk.data[..][s * SS..(s + 1) * SS] == win[..]
  {
    PutRecord(win, free, last);
    var _ := disk.Write(win[..], s, 1);
    assert disk.data[..][s * SS..(s + 1) * SS] == win[..];
  }

  /** sync_fs.  The disk becomes the logical disk; a changed free count goes into FSInfo. */
  method SyncFs(fs: Volume) returns (res: FResult)
    requires fs.Ready()
    modifies fs`wflag, fs`winsect, fs`fsiDirty, fs`view, fs`fat, fs.win, fs.disk.data, fs.ledger
    ensures fs.Ready() && res == OK && !fs.wflag && fs.disk.data[..] == fs.view
    ensures fs.fsiDirty == (old(fs.fsiDirty) && !fs.fsInfo)
    ensures old(Outdated(fs)) ==>
              && RecordedAt(old(fs.view), fs.view, fs.geo.volbase + 1, fs.freeClst, fs.lastClst)
              && fs.ledger.free == fs.freeClst
              && (fs.geo.volbase + 1 == fs.geo.fatbase ==> fs.fat[2] == 0)
    ensures !old(Outdated(fs)) ==> fs.view == old(fs.view) && fs.ledger.free == old(fs.ledger.free)
    ensures !old(Outdated(fs)) || fs.geo.volbase + 1 < fs.geo.fatbase ==>
              fs.fat == old(fs.fat) && (FatsAgree(fs.geo, old(fs.view)) ==> FatsAgree(fs.geo, fs.view))
    ensures old(Booked(fs)) ==> Booked(fs)
  {
    res := SyncWindow(fs);
    if res == OK {
      if fs.fsiDirty && fs.fsInfo {
        fs.fsiDirty := false;
        if fs.geo.fsType == FAT32 {
          WriteRecord(fs);
        }
      }
    }
  }
}
