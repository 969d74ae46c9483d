/** Finding a FAT volume on a disk and taking its layout from the BIOS parameter block
    (check_fs, find_volume, mount_volume). */
module Mount {
  import opened Bytes
  import opened Layout
  import opened DiskIo
  import opened Window

  const BS_SIGN: Word := 0xAA55
  const MBR_TABLE := 446
  const SZ_PTE := 16
  const PTE_LBA := 8
  const UNKNOWN: Dword := 0xFFFF_FFFF

  /** The 8 bytes "FAT32   ". */
  const FAT32_SIGN: seq<Byte> := [0x46, 0x41, 0x54, 0x33, 0x32, 0x20, 0x20, 0x20]

  /** The fields of the parameter block that mount_volume looks at. */
  datatype Bpb = Bpb(
    bytsPerSec: Word, csize: Byte, nrsv: Word, nFats: Byte, nRoot: Word,
    tot16: Word, tot32: Dword, fatSz16: Word, fatSz32: Dword,
    fsVer: Word, rootClus: Dword, fsInfo: Word)
  {
    /** Sectors per FAT and sectors of the volume: the 16-bit field unless it is 0. */
    function Fsize(): Dword { if fatSz16 != 0 then fatSz16 else fatSz32 }
    function Tsect(): Dword { if tot16 != 0 then tot16 else tot32 }

    /** Sectors of all FATs; there are one or two when this is used. */
    function FatArea(): nat { if nFats == 2 then Fsize() + Fsize() else Fsize() }

    /** Reserved sectors, FATs and root table, without wrap-around. */
    function System(): nat { nrsv + FatArea() + nRoot / 16 }

    /** The same in the 32-bit arithmetic of the code. */
    function Sysect(): Dword { Wrap32(nrsv + Wrap32(FatArea()) + nRoot / 16) }

    /** Clusters behind the system area. */
    function Clusters(): nat
      requires csize != 0 && Tsect() >= Sysect()
    {
      (Tsect() - Sysect()) / csize
    }
  }

  function ReadBpb(w: seq<Byte>): Bpb
    requires |w| == SS
  {
    Bpb(LdWord(w, 11), w[13], LdWord(w, 14), w[16], LdWord(w, 17), LdWord(w, 19), LdDword(w, 32),
        LdWord(w, 22), LdDword(w, 36), LdWord(w, 42), LdDword(w, 44), LdWord(w, 48))
  }

  // --------------------------------------------------------- looking for a volume

  /** The heuristics of check_fs for boot sectors that lack a type string. */
  predicate LooksLikeFat(b: Bpb)
  {
    && b.bytsPerSec == SS
    && b.csize != 0 && BitAnd(b.csize, b.csize - 1) == 0
    && b.nrsv != 0 && (b.nFats == 1 || b.nFats == 2) && b.nRoot != 0
    && (b.tot16 >= 128 || b.tot32 >= 0x10000)
    && b.fatSz16 != 0
  }

  /** check_fs on a sector: 0 FAT boot sector, 2 other boot sector, 3 no boot sector. */
  function BootKind(w: seq<Byte>): nat
    requires |w| == SS
  {
    var sign := LdWord(w, 510);
    if (w[0] == 0xEB || w[0] == 0xE9 || w[0] == 0xE8)
       && ((sign == BS_SIGN && w[82..90] == FAT32_SIGN) || LooksLikeFat(ReadBpb(w))) then 0
    else if sign == BS_SIGN then 2 else 3
  }

  /** check_fs on a disk; 4 if the sector cannot be read. */
  function Kind(d: seq<Byte>, s: nat): (k: nat)
    ensures k < 2 ==> k == 0 && (s + 1) * SS <= |d|
  {
    if (s + 1) * SS <= |d| then BootKind(Sector(d, s)) else 4
  }

  /** Start sector in entry `i` of a partition table. */
  function PartStart(w: seq<Byte>, i: nat): Dword
    requires |w| == SS && i < 4
  {
    LdDword(w, MBR_TABLE + i * SZ_PTE + PTE_LBA)
  }

  function PartStarts(w: seq<Byte>): (pt: seq<Dword>)
    requires |w| == SS
    ensures |pt| == 4
  {
    [PartStart(w, 0), PartStart(w, 1), PartStart(w, 2), PartStart(w, 3)]
  }

  /** What the scan of the partitions `pt` ends with: a kind and its boot sector. */
  function ScanParts(d: seq<Byte>, pt: seq<Dword>): (r: (nat, Dword))
    requires pt != []
    ensures r.0 < 2 ==> r.0 == 0 && (r.1 + 1) * SS <= |d|
  {
    var fmt := if pt[0] != 0 then Kind(d, pt[0]) else 3;
    if fmt < 2 || |pt| == 1 then (fmt, pt[0]) else ScanParts(d, pt[1..])
  }

  /** find_volume without a forced partition: kind of the volume and its boot sector. */
  function FindBoot(d: seq<Byte>): (r: (nat, Dword))
    ensures r.0 < 2 ==> r.0 == 0 && (r.1 + 1) * SS <= |d|
  {
    var fmt := Kind(d, 0);
    if fmt != 2 then (fmt, 0) else ScanParts(d, PartStarts(Sector(d, 0)))
  }

  method CheckFs(disk: Disk, win: array<Byte>, sect: Dword) returns (fmt: nat, winsect: Dword)
    requires disk.Valid() && win.Length == SS && win != disk.data
    modifies win
    ensures fmt == Kind(disk.data[..], sect)
    ensures winsect == if fmt == 4 then UNKNOWN else sect
    ensures fmt != 4 ==> sect < disk.sectors && win[..] == Sector(disk.data[..], sect)
  {
    var r := disk.Read(win, 0, sect, 1);
    if r != RES_OK { return 4, UNKNOWN; }
    assert win[..] == Sector(disk.data[..], sect);
    winsect := sect;
    var sign := LdWord(win[..], 510);
    if win[0] == 0xEB || win[0] == 0xE9 || win[0] == 0xE8 {
      if sign == BS_SIGN && win[82..90] == FAT32_SIGN { fmt := 0; return; }
      if LooksLikeFat(ReadBpb(win[..])) { fmt := 0; return; }
    }
    fmt := if sign == BS_SIGN then 2 else 3;
  }

  method FindVolume(disk: Disk, win: array<Byte>) returns (fmt: nat, winsect: Dword)
    requires disk.Valid() && win.Length == SS && win != disk.data
    modifies win
    ensures fmt == FindBoot(disk.data[..]).0
    ensures fmt == 0 ==> winsect == FindBoot(disk.data[..]).1 && Shows(win[..], winsect, disk.data[..])
  {
    fmt, winsect := CheckFs(disk, win, 0);
    if fmt == 2 {
      fmt, winsect := FindPartition(disk, win);
    }
  }

  /** The window shows sector `s`. */
  ghost predicate Shows(w: seq<Byte>, s: Dword, d: seq<Byte>)
  {
    (s + 1) * SS <= |d| && w == Sector(d, s)
  }

  method FindPartition(disk: Disk, win: array<Byte>) returns (fmt: nat, winsect: Dword)
    requires disk.Valid() && win.Length == SS && win != disk.data
    modifies win
    ensures var (f, p) := ScanParts(disk.data[..], PartStarts(old(win[..])));
            fmt == f && (fmt == 0 ==> winsect == p && Shows(win[..], winsect, disk.data[..]))
  {
    var pt := PartStarts(win[..]);
    ghost var d := disk.data[..];
    var i := 0;
    winsect := UNKNOWN;
    while true
      invariant 0 <= i < 4 && disk.data[..] == d
      invariant ScanParts(d, pt) == ScanParts(d, pt[i..])
      decreases 4 - i
    {
      fmt := 3;
      if pt[i] != 0 { fmt, winsect := CheckFs(disk, win, pt[i]); }
      if fmt < 2 || i == 3 { return; }
      i := i + 1;
    }
  }

  // -------------------------------------------------------------- the layout

  /** FAT type by number of clusters. */
  function TypeOf(nclst: nat): Option<FatType>
  {
    if nclst <= MAX_FAT12 then Some(FAT12) else if nclst <= MAX_FAT16 then Some(FAT16)
    else if nclst <= MAX_FAT32 then Some(FAT32) else None
  }

  /** The parameter blocks mount_volume accepts. */
  predicate Acceptable(b: Bpb)
  {
    && b.bytsPerSec == SS
    && (b.nFats == 1 || b.nFats == 2)
    && b.csize != 0 && BitAnd(b.csize, b.csize - 1) == 0
    && b.nRoot % 16 == 0
    && b.nrsv != 0
    && b.Tsect() >= b.Sysect() && b.Clusters() != 0
    && var t := TypeOf(b.Clusters());
       && t.Some?
       && (if t.value == FAT32 then b.fsVer == 0 && b.nRoot == 0 else b.nRoot != 0)
       && b.Fsize() >= (FatBytes(t.value, b.Clusters() + 2) + SS - 1) / SS
  }

  /** The layout of a volume of type `t` with `n` clusters at sector `bsect`. */
  function Place(b: Bpb, bsect: Dword, t: FatType, n: nat): Geometry
  {
    var fatbase := Wrap32(bsect + b.nrsv);
    Geometry(t, b.nFats, b.csize, b.nRoot, n + 2, b.Fsize(), bsect, fatbase,
             if t == FAT32 then b.rootClus else Wrap32(fatbase + Wrap32(b.FatArea())),
             Wrap32(bsect + b.Sysect()))
  }

  function Accept(b: Bpb, bsect: Dword): Option<Geometry>
  {
    if Acceptable(b) then Some(Place(b, bsect, TypeOf(b.Clusters()).value, b.Clusters())) else None
  }

  /** What an accepted block says about the sizes. */
  ghost predicate Sized(b: Bpb, t: FatType, n: nat)
  {
    && 1 <= b.nFats <= 2 && b.nrsv != 0
    && 1 <= b.csize <= 128 && IsPow2(b.csize)
    && 1 <= n <= MaxClusters(t) && FatBytes(t, n + 2) <= b.Fsize() * SS
    && b.nRoot % 16 == 0 && (t == FAT32 <==> b.nRoot == 0)
  }

  lemma AcceptedIsSized(b: Bpb)
    requires Acceptable(b)
    ensures Sized(b, TypeOf(b.Clusters()).value, b.Clusters())
  {
    Pow2Test(b.csize);
    Pow2Below(b.csize, 128);
  }

  /** An accepted parameter block describes a valid volume of a disk exactly if its areas,
      taken without wrap-around, end on that disk.  This includes the order and
      disjointness of FATs, root table and data area. */
  lemma AcceptedIsValid(b: Bpb, bsect: Dword, sectors: nat)
    requires Accept(b, bsect).Some?
    ensures Accept(b, bsect).value.Valid(sectors) <==>
              bsect + b.System() + b.csize * b.Clusters() <= sectors < TWO32
  {
    AcceptedIsSized(b);
    PlacedIsValid(b, bsect, TypeOf(b.Clusters()).value, b.Clusters(), sectors);
  }

  lemma PlacedIsValid(b: Bpb, bsect: Dword, t: FatType, n: nat, sectors: nat)
    requires Sized(b, t, n)
    ensures Place(b, bsect, t, n).Valid(sectors) <==> bsect + b.System() + b.csize * n <= sectors < TWO32
  {
    if bsect + b.System() + b.csize * n <= sectors < TWO32 {
      PlacedInside(b, bsect, t, n, sectors);
    }
    if Place(b, bsect, t, n).Valid(sectors) {
      InsidePlaced(b, bsect, t, n, sectors);
    }
  }

  lemma PlacedInside(b: Bpb, bsect: Dword, t: FatType, n: nat, sectors: nat)
    requires Sized(b, t, n) && bsect + b.System() + b.csize * n <= sectors < TWO32
    ensures Place(b, bsect, t, n).Valid(sectors)
  {
    MulLe(n, 1, b.csize);
    LaidOut(b, bsect, t, n);
    ClustersFit(Place(b, bsect, t, n), sectors);
  }

  lemma InsidePlaced(b: Bpb, bsect: Dword, t: FatType, n: nat, sectors: nat)
    requires Sized(b, t, n) && Place(b, bsect, t, n).Valid(sectors)
    ensures bsect + b.System() + b.csize * n <= sectors < TWO32
  {
    var g := Place(b, bsect, t, n);
    assert g.ClusterOnDisk(g.nFatent - 1, sectors);
    Unwrapped(b, bsect, t, n);
    assert b.csize * n == b.csize * (n - 1) + b.csize;
  }

  lemma LaidOut(b: Bpb, bsect: Dword, t: FatType, n: nat)
    requires bsect + b.System() < TWO32
    ensures var g := Place(b, bsect, t, n);
            g.fatbase == bsect + b.nrsv && g.database == g.fatbase + g.FatArea() + g.nRootdir / 16
            && (t != FAT32 ==> g.dirbase == g.fatbase + g.FatArea())
  {
    Wrap32Id(b.FatArea());
    Wrap32Id(b.System());
    Wrap32Id(bsect + b.nrsv);
    Wrap32Id(bsect + b.System());
    Wrap32Id(bsect + b.nrsv + b.FatArea());
  }

  lemma Unwrapped(b: Bpb, bsect: Dword, t: FatType, n: nat)
    requires var g := Place(b, bsect, t, n);
             bsect < g.fatbase && g.database == g.fatbase + g.FatArea() + g.nRootdir / 16
    ensures Place(b, bsect, t, n).database == bsect + b.System()
  {
  }

  lemma ClustersFit(g: Geometry, sectors: nat)
    requires g.nFatent >= 2 && g.database + g.csize * (g.nFatent - 2) <= sectors
    ensures forall c :: 2 <= c < g.nFatent ==> g.ClusterOnDisk(c, sectors)
  {
    forall c | 2 <= c < g.nFatent ensures g.ClusterOnDisk(c, sectors) {
      MulStep(g.csize, c - 2, g.nFatent - 2);
    }
  }

  /** A caller's check: the sums do not wrap and the volume ends on the disk. */
  lemma InsideIsValid(b: Bpb, bsect: Dword, sectors: nat)
    requires Accept(b, bsect).Some? && b.System() < TWO32 && bsect + b.Tsect() <= sectors < TWO32
    ensures Accept(b, bsect).value.Valid(sectors)
  {
    Wrap32Id(b.FatArea());
    Wrap32Id(b.System());
    WholeClusters(b);
    AcceptedIsValid(b, bsect, sectors);
  }

  lemma WholeClusters(b: Bpb)
    requires b.csize != 0 && b.Tsect() >= b.Sysect()
    ensures b.csize * b.Clusters() <= b.Tsect() - b.Sysect()
  {
  }

  // ------------------------------------------------------------- mount_volume

  datatype Mounted = Mounted(geo: Geometry, freeClst: Dword, lastClst: Dword, fsiFlag: Byte)

  /** The FSInfo record, as the code looks for it: its trailing signature at offset 498. */
  predicate IsFsInfo(w: seq<Byte>)
    requires |w| == SS
  {
    LdDword(w, 0) == 0x41615252 && LdDword(w, 484) == 0x61417272 && LdDword(w, 498) == 0xAA55_0000
  }

  /** The mounted volume with the allocation hints of its FSInfo record, if it has one. */
  function WithHints(g: Geometry, b: Bpb, bsect: Dword, d: seq<Byte>): Mounted
  {
    if g.fsType == FAT32 && b.fsInfo == 1 && (Wrap32(bsect + 1) + 1) * SS <= |d| then
      var w := Sector(d, Wrap32(bsect + 1));
      if IsFsInfo(w) then Mounted(g, LdDword(w, 488), LdDword(w, 492), 0)
      else Mounted(g, UNKNOWN, UNKNOWN, 0)
    else Mounted(g, UNKNOWN, UNKNOWN, 0x80)
  }

  datatype MountResult = Mount(m: Mounted) | Refuse(res: FResult)

  function MountOf(d: seq<Byte>): MountResult
  {
    var boot := FindBoot(d);
    if boot.0 == 4 then Refuse(DISK_ERR)
    else if boot.0 >= 2 then Refuse(NO_FILESYSTEM)
    else MountAt(d, boot.1)
  }

  /** Mounting the volume whose boot sector is `bsect`. */
  function MountAt(d: seq<Byte>, bsect: Dword): MountResult
    requires (bsect + 1) * SS <= |d|
  {
    var b := ReadBpb(Sector(d, bsect));
    match Accept(b, bsect)
    case None => Refuse(NO_FILESYSTEM)
    case Some(g) => Mount(WithHints(g, b, bsect, d))
  }

  /** Without the record there are no hints. */
  lemma UnusedIsUnknown(d: seq<Byte>)
    ensures MountOf(d).Mount? && MountOf(d).m.fsiFlag != 0 ==> MountOf(d).m.freeClst == UNKNOWN
    ensures MountOf(d).Mount? && MountOf(d).m.fsiFlag == 0 ==> MountOf(d).m.geo.fsType == FAT32
  {
  }

  /** Without that check the code can be led astray: a boot sector with two FATs of 2^31
      sectors, whose sum wraps to an empty FAT area. */
  function WrappingSector(): (w: seq<Byte>)
    ensures |w| == SS
  {
    seq(SS, i =>
      if i == 0 then 0xEB else if i == 12 then 2 else if i == 13 then 1 else if i == 14 then 1
      else if i == 16 then 2 else if i == 17 then 16 else if i == 19 then 0xE8 else if i == 20 then 3
      else if i == 39 then 0x80 else if 82 <= i < 90 then FAT32_SIGN[i - 82]
      else if i == 510 then 0x55 else if i == 511 then 0xAA else 0)
  }

  /** A disk that starts with it is mounted, and no disk holds the volume it describes. */
  lemma WrappingBpb(d: seq<Byte>, sectors: nat)
    requires |d| >= SS && d[..SS] == WrappingSector()
    ensures MountOf(d).Mount? && !MountOf(d).m.geo.Valid(sectors)
  {
    var w := Sector(d, 0);
    assert w == WrappingSector();
    WrappingFields(w);
    var b := ReadBpb(w);
    assert b.Sysect() == 2 && b.Clusters() == 998;
    assert Kind(d, 0) == 0;
    AcceptedIsValid(b, 0, sectors);
  }

  lemma WrappingFields(w: seq<Byte>)
    requires w == WrappingSector()
    ensures |w| == SS && ReadBpb(w) == Bpb(SS, 1, 1, 2, 16, 1000, 0, 0, 0x8000_0000, 0, 0, 0) && BootKind(w) == 0
  {
    assert w[82..90] == FAT32_SIGN;
  }

  /** mount_volume on any disk content.  `win` is left showing sector `winsect`. */
  method MountVolume(disk: Disk, win: array<Byte>) returns (r: MountResult, winsect: Dword)
    requires disk.Valid() && win.Length == SS && win != disk.data
    modifies win
    ensures r == MountOf(disk.data[..])
    ensures r.Mount? && winsect < disk.sectors ==> Shows(win[..], winsect, disk.data[..])
  {
    var fmt;
    fmt, winsect := FindVolume(disk, win);
    if fmt == 4 { return Refuse(DISK_ERR), winsect; }
    if fmt >= 2 { return Refuse(NO_FILESYSTEM), winsect; }
    var b := ReadBpb(win[..]);
    var g := Accept(b, winsect);
    assert MountOf(disk.data[..]) == MountAt(disk.data[..], winsect);
    if g.None? { return Refuse(NO_FILESYSTEM), winsect; }
    var m;
    m, winsect := ReadHints(g.value, b, winsect, disk, win);
    r := Mount(m);
  }

  method ReadHints(g: Geometry, b: Bpb, bsect: Dword, disk: Disk, win: array<Byte>) returns (m: Mounted, winsect: Dword)
    requires disk.Valid() && win.Length == SS && win != disk.data
    requires Shows(win[..], bsect, disk.data[..])
    modifies win
    ensures m == WithHints(g, b, bsect, disk.data[..])
    ensures winsect < disk.sectors ==> Shows(win[..], winsect, disk.data[..])
  {
    m, winsect := Mounted(g, UNKNOWN, UNKNOWN, 0x80), bsect;
    if g.fsType == FAT32 && b.fsInfo == 1 {
      var bs: int := bsect;
      winsect := Wrap32(bs + 1);
      var ok := disk.Read(win, 0, winsect, 1);
      if ok == RES_OK {
        assert win[..] == Sector(disk.data[..], winsect);
        m := m.(fsiFlag := 0);
        if IsFsInfo(win[..]) {
          m := m.(freeClst := LdDword(win[..], 488), lastClst := LdDword(win[..], 492));
        }
      } else {
        winsect := UNKNOWN;
      }
    }
  }
}
