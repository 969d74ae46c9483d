/** The one-sector write-back cache (FATFS.win) over the disk, with the mirror of
    the first FAT.  The abstract value of a volume is its `View`: the disk as it
    will look once the window has been flushed. */
module Window {
  import opened Bytes
  import opened Layout
  import opened FatBits
  import opened DiskIo

  /** Mentioning `UnfoldView` (`UnfoldFat`) is what lets the prover look at how the
      ghost fields `view` (`fat`) are computed; higher layers never need to. */
  ghost predicate UnfoldView(k: int) { true }
  ghost predicate UnfoldFat(k: int) { true }

  /** The disk `d` as a flush of the window would leave it. */
  ghost function Flush(g: Geometry, d: seq<Byte>, wflag: bool, s: nat, w: seq<Byte>): seq<Byte>
    requires |w| == SS && (wflag ==> (s + 1) * SS <= |d|)
    requires wflag && g.Mirrored(s) ==> (s + g.fsize + 1) * SS <= |d|
  {
    if wflag then PutSector(g, d, s, w) else d
  }

  /** `v` is the disk `d` with the window laid over it (to be looked at through `UnfoldView`). */
  ghost predicate Lies(g: Geometry, d: seq<Byte>, wflag: bool, s: nat, w: seq<Byte>, v: seq<Byte>)
  {
    forall k :: UnfoldView(k) ==>
      && |w| == SS && (wflag ==> (s + 1) * SS <= |d|) && (wflag && g.Mirrored(s) ==> (s + g.fsize + 1) * SS <= |d|)
      && v == Flush(g, d, wflag, s, w)
  }

  /** `f` holds the entries of the first FAT of `v` (to be looked at through `UnfoldFat`). */
  ghost predicate Packs(g: Geometry, v: seq<Byte>, f: seq<Dword>)
  {
    forall k :: UnfoldFat(k) ==> g.Valid(|v| / SS) && f == Fat(g, v)
  }

  /** The free count that the FSInfo record on the disk holds. */
  class Ledger {
    ghost var free: Dword

    constructor (ghost free: Dword)
      ensures this.free == free
    {
      this.free := free;
    }
  }

  class Volume {
    const disk: Disk
    const geo: Geometry
    const win: array<Byte>
    const fsInfo: bool       // bit 7 of fsi_flag is 0: the FSInfo record is in use
    const ledger: Ledger
    var winsect: Dword
    var wflag: bool
    var freeClst: Dword      // number of free clusters (unknown if > nFatent-2)
    var lastClst: Dword      // last allocated cluster (unknown if >= nFatent)
    var fsiDirty: bool       // bit 0 of fsi_flag
    ghost var view: seq<Byte>  // the logical disk
    ghost var fat: seq<Dword>  // the entries of its first FAT

    ghost predicate Valid()
      reads `winsect, `wflag, `view, `fat, win, disk.data
    {
      && disk.Valid() && win.Length == SS && win != disk.data
      && geo.Valid(disk.sectors) && (fsInfo ==> geo.fsType == FAT32)
      && (wflag ==> winsect < disk.sectors)
      && |view| == disk.sectors * SS && |fat| == geo.nFatent
      && Lies(geo, disk.data[..], wflag, winsect, win[..], view)
      && Packs(geo, view, fat)
    }

    /** The window shows the sector it claims to show. */
    ghost predicate Coherent()
      requires Valid()
      reads `winsect, `wflag, `view, `fat, win, disk.data
    {
      winsect < disk.sectors ==> win[..] == view[winsect * SS..(winsect + 1) * SS]
    }

    ghost predicate Ready()
      reads `winsect, `wflag, `view, `fat, win, disk.data
    {
      Valid() && Coherent()
    }

    /** A volume just mounted: `win` still shows the sector mount_volume read last. */
    constructor (disk: Disk, geo: Geometry, win: array<Byte>, winsect: Dword, freeClst: Dword, lastClst: Dword,
                 fsInfo: bool)
      requires disk.Valid() && geo.Valid(disk.sectors) && win.Length == SS && win != disk.data
      requires fsInfo ==> geo.fsType == FAT32
      requires winsect < disk.sectors ==> win[..] == disk.data[winsect * SS..(winsect + 1) * SS]
      ensures Ready() && !wflag
      ensures this.disk == disk && this.geo == geo && this.win == win && this.winsect == winsect
      ensures this.freeClst == freeClst && this.lastClst == lastClst && this.fsInfo == fsInfo && !fsiDirty
      ensures fresh(ledger) && ledger.free == freeClst
      ensures view == disk.data[..] && fat == Fat(geo, view)
    {
      this.disk, this.geo, this.win, this.winsect := disk, geo, win, winsect;
      this.freeClst, this.lastClst := freeClst, lastClst;
      this.fsInfo := fsInfo;
      this.ledger := new Ledger(freeClst);
      wflag, fsiDirty := false, false;
      view := disk.data[..];
      fat := Fat(geo, disk.data[..]);
    }
  }

  /** sync_window: the flush makes the physical disk equal to the logical one. */
  method SyncWindow(fs: Volume) returns (res: FResult)
    requires fs.Valid()
    modifies fs`wflag, fs.disk.data
    ensures fs.Valid() && res == OK && !fs.wflag
    ensures fs.disk.data[..] == fs.view
    ensures old(fs.Coherent()) ==> fs.Coherent()
  {
    assert UnfoldView(0);
    res := OK;
    if fs.wflag {
      var r := fs.disk.Write(fs.win[..], fs.winsect, 1);
      if r == RES_OK {
        fs.wflag := false;
        IntervalTest(fs.winsect, fs.geo.fatbase, fs.geo.fsize);
        if Sub32(fs.winsect, fs.geo.fatbase) < fs.geo.fsize {
          if fs.geo.nFats == 2 {
            var _ := fs.disk.Write(fs.win[..], fs.winsect + fs.geo.fsize, 1);
          }
        }
      } else {
        res := DISK_ERR;
      }
    }
  }

  /** move_window: brings sector `sect` into the window without changing the
      logical disk.  A sector off the disk invalidates the window instead. */
  method MoveWindow(fs: Volume, sect: Dword) returns (res: FResult)
    requires fs.Valid()
    modifies fs`wflag, fs`winsect, fs.win, fs.disk.data
    ensures fs.Valid()
    ensures res == OK <==> sect == old(fs.winsect) || sect < fs.disk.sectors
    ensures res == OK ==> fs.winsect == sect
    ensures sect == old(fs.winsect) ==> fs.wflag == old(fs.wflag) && fs.win[..] == old(fs.win[..])
    ensures old(fs.Coherent()) || sect != old(fs.winsect) ==> fs.Coherent()
    ensures res != OK ==> res == DISK_ERR && fs.winsect == 0xFFFF_FFFF
  {
    res := OK;
    if sect != fs.winsect {
      res := SyncWindow(fs);
      if res == OK {
        var s := sect;
        var r := fs.disk.Read(fs.win, 0, sect, 1);
        if r != RES_OK {
          s := 0xFFFF_FFFF;
          res := DISK_ERR;
        }
        fs.winsect := s;
      }
    }
  }

  /** A new window content lies over the logical disk as a flush would store it. */
  lemma StoredOver(g: Geometry, d: seq<Byte>, wflag: bool, s: nat, w: seq<Byte>, w': seq<Byte>)
    requires |w| == |w'| == SS && (s + 1) * SS <= |d| && (g.Mirrored(s) ==> (s + g.fsize + 1) * SS <= |d|)
    ensures var v' := PutSector(g, Flush(g, d, wflag, s, w), s, w');
            v' == Flush(g, d, true, s, w') && v'[s * SS..(s + 1) * SS] == w'
  {
    PutTwice(g, d, s, w, w');
    PutTwice(g, d, s, w', w');
  }

  /** Storing bytes into the window and marking it dirty. */
  method StoreWindow(fs: Volume, ofs: nat, bytes: seq<Byte>)
    requires fs.Valid() && fs.winsect < fs.disk.sectors
    requires ofs + |bytes| <= SS
    modifies fs`wflag, fs`view, fs`fat, fs.win
    ensures fs.Valid() && fs.wflag && fs.Coherent()
    ensures fs.win[..] == Overlay(old(fs.win[..]), ofs, bytes)
    ensures fs.view == PutSector(fs.geo, old(fs.view), fs.winsect, fs.win[..])
  {
    assert UnfoldView(0);
    ghost var wflag, w := fs.wflag, fs.win[..];
    MemCpy(fs.win, ofs, bytes);
    fs.wflag := true;
    StoredOver(fs.geo, fs.disk.data[..], wflag, fs.winsect, w, fs.win[..]);
    fs.view := PutSector(fs.geo, fs.view, fs.winsect, fs.win[..]);
    fs.fat := Fat(fs.geo, fs.view);
  }
}
