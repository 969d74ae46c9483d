/** get_fat and put_fat: FAT entries read and written through the window.  They
    refine a sequence of entry values. */
module FatCodec {
  import opened Bytes
  import opened Layout
  import opened DiskIo
  import opened FatBits
  import opened Window

  /** get_fat: the value of an entry, 1 for a cluster number out of range. */
  method GetFat(fs: Volume, clst: Dword) returns (val: Dword)
    requires fs.Ready()
    modifies fs`wflag, fs`winsect, fs.win, fs.disk.data
    ensures fs.Ready()
    ensures val == if 2 <= clst < fs.geo.nFatent then fs.fat[clst] else 1
    ensures val < 0x1000_0000
    ensures 2 <= clst < fs.geo.nFatent || old(fs.winsect) < fs.disk.sectors ==> fs.winsect < fs.disk.sectors
  {
    if clst < 2 || clst >= fs.geo.nFatent {
      return 1;
    }
    FatBytesMono(fs.geo.fsType, clst + 1, fs.geo.nFatent);
    match fs.geo.fsType
    case FAT12 => val := GetFat12(fs, clst);
    case FAT16 => val := GetFat16(fs, clst);
    case FAT32 => val := GetFat32(fs, clst);
  }

  /** Loads the sector holding byte `bc` of the FAT. */
  method FatWindow(fs: Volume, bc: nat) returns (res: FResult)
    requires fs.Ready() && bc < fs.geo.fsize * SS
    modifies fs`wflag, fs`winsect, fs.win, fs.disk.data
    ensures fs.Ready()
    ensures res == OK && fs.winsect == fs.geo.fatbase + bc / SS < fs.disk.sectors
    ensures fs.win[..] == Sector(FatImage(fs.geo, fs.view), bc / SS)
  {
    res := MoveWindow(fs, fs.geo.fatbase + bc / SS);
    FatSectorIn(fs.view, fs.geo.fatbase, fs.geo.fsize, bc / SS);
  }

  method FatByte(fs: Volume, bc: nat) returns (res: FResult, b: Byte)
    requires fs.Ready() && bc < fs.geo.fsize * SS
    modifies fs`wflag, fs`winsect, fs.win, fs.disk.data
    ensures fs.Ready()
    ensures res == OK && fs.winsect == fs.geo.fatbase + bc / SS < fs.disk.sectors
    ensures b == FatImage(fs.geo, fs.view)[bc]
  {
    res := FatWindow(fs, bc);
    b := fs.win[..][bc % SS];
  }

  method GetFat12(fs: Volume, clst: Dword) returns (val: Dword)
    requires fs.Ready() && fs.geo.fsType == FAT12 && clst < fs.geo.nFatent
    modifies fs`wflag, fs`winsect, fs.win, fs.disk.data
    ensures fs.Ready()
    ensures val == fs.fat[clst] && val < 0x1000_0000 && fs.winsect < fs.disk.sectors
  {
    val := 0xFFFF_FFFF;        // disk error, unless replaced
    var bc := clst + clst / 2;
    EntryAt12(fs.geo, fs.view, fs.fat, clst);
    var res, lo := FatByte(fs, bc);
    if res != OK { return; }
    bc := bc + 1;
    var res', hi := FatByte(fs, bc);
    if res' != OK { return; }
    var wc: int := LdWord([lo, hi], 0);
    val := if clst % 2 == 1 then wc / 16 else wc % 0x1000;
  }

  method GetFat16(fs: Volume, clst: Dword) returns (val: Dword)
    requires fs.Ready() && fs.geo.fsType == FAT16 && clst < fs.geo.nFatent
    modifies fs`wflag, fs`winsect, fs.win, fs.disk.data
    ensures fs.Ready()
    ensures val == fs.fat[clst] && val < 0x1000_0000 && fs.winsect < fs.disk.sectors
  {
    val := 0xFFFF_FFFF;
    EntryAt16(fs.geo, fs.view, fs.fat, clst);
    var res := FatWindow(fs, clst * 2);
    if res != OK { return; }
    val := LdWord(fs.win[..], clst * 2 % SS);
  }

  method GetFat32(fs: Volume, clst: Dword) returns (val: Dword)
    requires fs.Ready() && fs.geo.fsType == FAT32 && clst < fs.geo.nFatent
    modifies fs`wflag, fs`winsect, fs.win, fs.disk.data
    ensures fs.Ready()
    ensures val == fs.fat[clst] && val < 0x1000_0000 && fs.winsect < fs.disk.sectors
  {
    val := 0xFFFF_FFFF;
    EntryAt32(fs.geo, fs.view, fs.fat, clst);
    var res := FatWindow(fs, clst * 4);
    if res != OK { return; }
    var d: int := LdDword(fs.win[..], clst * 4 % SS);
    val := d % 0x1000_0000;
  }

  /** Where the sector of an entry holds its value. */
  lemma EntryAt16(g: Geometry, v: seq<Byte>, f: seq<Dword>, c: nat)
    requires g.Valid(|v| / SS) && g.fsType == FAT16 && c < g.nFatent == |f| && Packs(g, v, f)
    ensures c * 2 < g.fsize * SS && c * 2 % SS + 2 <= SS
    ensures LdWord(Sector(FatImage(g, v), c * 2 / SS), c * 2 % SS) == f[c]
  {
    assert UnfoldFat(0);
    WordInSector(FatImage(g, v), c * 2);
  }

  lemma EntryAt32(g: Geometry, v: seq<Byte>, f: seq<Dword>, c: nat)
    requires g.Valid(|v| / SS) && g.fsType == FAT32 && c < g.nFatent == |f| && Packs(g, v, f)
    ensures c * 4 < g.fsize * SS && c * 4 % SS + 4 <= SS
    ensures var d: int := LdDword(Sector(FatImage(g, v), c * 4 / SS), c * 4 % SS); d % 0x1000_0000 == f[c]
  {
    assert UnfoldFat(0);
    DwordInSector(FatImage(g, v), c * 4);
  }

  lemma EntryAt12(g: Geometry, v: seq<Byte>, f: seq<Dword>, c: nat)
    requires g.Valid(|v| / SS) && g.fsType == FAT12 && c < g.nFatent == |f| && Packs(g, v, f)
    ensures c + c / 2 + 1 < g.fsize * SS
    ensures var img := FatImage(g, v);
            var w: int := LdWord([img[c + c / 2], img[c + c / 2 + 1]], 0);
            f[c] == if c % 2 == 1 then w / 16 else w % 0x1000
  {
    assert UnfoldFat(0);
    Fat12Offset(c, g.nFatent);
  }

  lemma FatStoreBoth(g: Geometry, v: seq<Byte>, s: nat, q: nat, o: nat, bytes: seq<Byte>,
                     w: seq<Byte>, v': seq<Byte>)
    requires (g.fatbase + g.FatArea()) * SS <= |v| && q < g.fsize && s == g.fatbase + q
    requires o + |bytes| <= SS
    requires w == v[s * SS..(s + 1) * SS] && v' == PutSector(g, v, s, Overlay(w, o, bytes))
    ensures FatImage(g, v') == Overlay(FatImage(g, v), q * SS + o, bytes)
    ensures FatUpdated(g, v, v')
  {
    FatStore(g, v, q, o, bytes, v');
    FatStoreUpdates(g, v, q, o, bytes, v');
  }

  /** Stores bytes in sector `q` of the FAT, which FatWindow has loaded. */
  method FatPokeAt(fs: Volume, q: nat, o: nat, bytes: seq<Byte>)
    requires fs.Ready() && q < fs.geo.fsize && o + |bytes| <= SS
    requires fs.winsect == fs.geo.fatbase + q < fs.disk.sectors
    modifies fs`wflag, fs`view, fs`fat, fs.win
    ensures fs.Ready()
    ensures FatImage(fs.geo, fs.view) == Overlay(old(FatImage(fs.geo, fs.view)), q * SS + o, bytes)
    ensures FatUpdated(fs.geo, old(fs.view), fs.view)
  {
    ghost var v, w := fs.view, fs.win[..];
    StoreWindow(fs, o, bytes);
    FatStoreBoth(fs.geo, v, fs.winsect, q, o, bytes, w, fs.view);
  }

  method FatPoke(fs: Volume, bc: nat, bytes: seq<Byte>)
    requires fs.Ready() && bc < fs.geo.fsize * SS && bc % SS + |bytes| <= SS
    requires fs.winsect == fs.geo.fatbase + bc / SS < fs.disk.sectors
    modifies fs`wflag, fs`view, fs`fat, fs.win
    ensures fs.Ready()
    ensures FatImage(fs.geo, fs.view) == Overlay(old(FatImage(fs.geo, fs.view)), bc, bytes)
    ensures FatUpdated(fs.geo, old(fs.view), fs.view)
  {
    FatPokeAt(fs, bc / SS, bc % SS, bytes);
  }

  /** One byte of a FAT12 entry: load its sector, combine, store. */
  method FatPokeByte(fs: Volume, bc: nat, b: Byte)
    requires fs.Ready() && bc < fs.geo.fsize * SS
    requires fs.winsect == fs.geo.fatbase + bc / SS < fs.disk.sectors
    modifies fs`wflag, fs`view, fs`fat, fs.win
    ensures fs.Ready()
    ensures FatImage(fs.geo, fs.view) == old(FatImage(fs.geo, fs.view))[bc := b]
    ensures FatUpdated(fs.geo, old(fs.view), fs.view)
  {
    FatPoke(fs, bc, [b]);
  }

  method PutFat12(fs: Volume, clst: Dword, val: Dword) returns (res: FResult)
    requires fs.Ready() && fs.geo.fsType == FAT12 && clst < fs.geo.nFatent
    modifies fs`wflag, fs`winsect, fs`view, fs`fat, fs.win, fs.disk.data
    ensures fs.Ready() && res == OK
    ensures FatUpdated(fs.geo, old(fs.view), fs.view)
    ensures fs.fat == old(fs.fat)[clst := Mask(FAT12, val)]
  {
    assert UnfoldFat(0);
    Fat12Offset(clst, fs.geo.nFatent);
    var bc := clst + clst / 2;
    ghost var img := FatImage(fs.geo, fs.view);
    var p;
    res, p := FatByte(fs, bc);
    if res != OK { return; }
    FatPokeByte(fs, bc, Low12(clst, val, p));
    ghost var v1 := fs.view;
    bc := bc + 1;
    res, p := FatByte(fs, bc);
    if res != OK { return; }
    FatPokeByte(fs, bc, High12(clst, val, p));
    FatUpdatedTrans(fs.geo, old(fs.view), v1, fs.view);
    Put12(img, fs.geo.nFatent, clst, val, FatImage(fs.geo, fs.view));
  }

  method PutFat16(fs: Volume, clst: Dword, val: Dword) returns (res: FResult)
    requires fs.Ready() && fs.geo.fsType == FAT16 && clst < fs.geo.nFatent
    modifies fs`wflag, fs`winsect, fs`view, fs`fat, fs.win, fs.disk.data
    ensures fs.Ready() && res == OK
    ensures FatUpdated(fs.geo, old(fs.view), fs.view)
    ensures fs.fat == old(fs.fat)[clst := Mask(FAT16, val)]
  {
    assert UnfoldFat(0);
    res := FatWindow(fs, clst * 2);
    if res != OK { return; }
    FatPoke(fs, clst * 2, WordBytes(val));
    Put16(old(FatImage(fs.geo, fs.view)), fs.geo.nFatent, clst, val);
  }

  method PutFat32(fs: Volume, clst: Dword, val: Dword) returns (res: FResult)
    requires fs.Ready() && fs.geo.fsType == FAT32 && clst < fs.geo.nFatent
    modifies fs`wflag, fs`winsect, fs`view, fs`fat, fs.win, fs.disk.data
    ensures fs.Ready() && res == OK
    ensures FatUpdated(fs.geo, old(fs.view), fs.view)
    ensures fs.fat == old(fs.fat)[clst := Mask(FAT32, val)]
    ensures Reserved(fs.geo, fs.view) == old(Reserved(fs.geo, fs.view))
  {
    assert UnfoldFat(0);
    ghost var img := FatImage(fs.geo, fs.view);
    res := FatWindow(fs, clst * 4);
    if res != OK { return; }
    FatMerge32(fs, clst, val);
    Put32(img, fs.geo.nFatent, clst, val);
  }

  /** The read-modify-write of a FAT32 entry in the window. */
  method FatMerge32(fs: Volume, clst: Dword, val: Dword)
    requires fs.Ready() && fs.geo.fsType == FAT32 && clst < fs.geo.nFatent
    requires fs.winsect == fs.geo.fatbase + clst * 4 / SS < fs.disk.sectors
    modifies fs`wflag, fs`view, fs`fat, fs.win
    ensures fs.Ready() && FatUpdated(fs.geo, old(fs.view), fs.view)
    ensures var img := old(FatImage(fs.geo, fs.view));
            FatImage(fs.geo, fs.view) == Overlay(img, clst * 4, DwordBytes(Merge32(val, LdDword(img, clst * 4))))
  {
    ghost var img := FatImage(fs.geo, fs.view);
    DwordInSector(img, clst * 4);
    WindowIsFatSector(fs, clst * 4 / SS);
    var was := LdDword(fs.win[..], clst * 4 % SS);
    FatPoke(fs, clst * 4, DwordBytes(Merge32(val, was)));
  }

  lemma WindowIsFatSector(fs: Volume, q: nat)
    requires fs.Ready() && q < fs.geo.fsize && fs.winsect == fs.geo.fatbase + q
    ensures fs.win[..] == Sector(FatImage(fs.geo, fs.view), q)
  {
    FatSectorIn(fs.view, fs.geo.fatbase, fs.geo.fsize, q);
  }

  /** put_fat: array update of the FAT, every byte outside the FAT area untouched. */
  method PutFat(fs: Volume, clst: Dword, val: Dword) returns (res: FResult)
    requires fs.Ready()
    modifies fs`wflag, fs`winsect, fs`view, fs`fat, fs.win, fs.disk.data
    ensures fs.Ready()
    ensures res == if 2 <= clst < fs.geo.nFatent then OK else INT_ERR
    ensures res != OK ==> fs.view == old(fs.view) && fs.fat == old(fs.fat)
    ensures FatUpdated(fs.geo, old(fs.view), fs.view)
    ensures res == OK ==>
              fs.fat == old(fs.fat)[clst := Mask(fs.geo.fsType, val)]
    ensures res == OK && fs.geo.fsType == FAT32 ==>
              Reserved(fs.geo, fs.view) == old(Reserved(fs.geo, fs.view))
  {
    res := INT_ERR;
    if clst >= 2 && clst < fs.geo.nFatent {
      match fs.geo.fsType
      case FAT12 => res := PutFat12(fs, clst, val);
      case FAT16 => res := PutFat16(fs, clst, val);
      case FAT32 => res := PutFat32(fs, clst, val);
    }
  }
}
