/** Formatting and mounting are inverse: what f_mkfs writes, mount_volume reads back. */
module FormatMount {
  import opened Bytes
  import opened Layout
  import opened DiskIo
  import FatBits
  import Win = Window
  import Chains
  import opened Mount
  import opened MkfsPlan
  import opened Partition
  import opened Mkfs
  import Allocator
  import Remount
  import Runs

  /** The layout f_mkfs had in mind. */
  function GeoOf(p: Params, d: Plan): Geometry
  {
    Geometry(d.ty, p.nFat, d.pau, if d.ty == FAT32 then 0 else p.nRoot, d.nClst + 2, d.szFat,
             p.bVol, FatBase(p, d), if d.ty == FAT32 then 2 else RootBase(p, d), p.bVol + System(p, d))
  }

  // ------------------------------------------------------- finding the volume

  lemma VbrKind(w: seq<Byte>, p: Params, d: Plan, vsn: Dword)
    requires p.Valid() && Good(p, d) && IsVbr(w, p, d, vsn)
    ensures BootKind(w) == 0
  {
    assert UnfoldLabel(0);
    if d.ty != FAT32 {
      Pow2Test(d.pau);
      assert LooksLikeFat(ReadBpb(w));
    }
  }

  lemma MbrKind(w: seq<Byte>, ps: seq<Part>, sys: Byte, drv: nat)
    requires IsMbr(w, ps, sys, drv) && |ps| > 0
    ensures BootKind(w) == 2 && PartStarts(w)[0] == ps[0].start
  {
    assert Listed(w, 0, ps[0], sys);
  }

  /** The new volume is found, as the whole drive or behind a partition table. */
  lemma VolumeFound(d: seq<Byte>, p: Params, plan: Plan, vsn: Dword)
    requires p.Valid() && Good(p, plan) && Formatted(d, p, plan, vsn)
    ensures FindBoot(d) == (0, p.bVol)
  {
    BootThere(d, p, plan, vsn);
    if p.bVol > 0 { TableOfNew(d, p, plan, vsn); }
  }

  lemma TableOfNew(d: seq<Byte>, p: Params, plan: Plan, vsn: Dword)
    requires p.bVol > 0 && Formatted(d, p, plan, vsn)
    ensures |d| >= SS && Kind(d, 0) == 2 && PartStarts(Sector(d, 0))[0] == p.bVol
  {
    TableThere(d, Part(p.bVol, p.szVol), d[450], p.bVol + p.szVol);
  }

  lemma BootThere(d: seq<Byte>, p: Params, plan: Plan, vsn: Dword)
    requires p.Valid() && Good(p, plan) && BootWritten(d, p, plan, vsn)
    ensures Kind(d, p.bVol) == 0
  {
    VbrKind(Slice(d, p.bVol, 1), p, plan, vsn);
  }

  lemma TableThere(d: seq<Byte>, p: Part, sys: Byte, drv: nat)
    requires |d| >= SS && IsMbr(Slice(d, 0, 1), [p], sys, drv)
    ensures Kind(d, 0) == 2 && PartStarts(Sector(d, 0))[0] == p.start
  {
    MbrKind(Slice(d, 0, 1), [p], sys, drv);
  }

  // ----------------------------------------------------------- reading the BPB

  lemma DescribedSizes(b: Bpb, p: Params, d: Plan)
    requires p.Valid() && Good(p, d) && Describes(b, p, d)
    ensures b.Fsize() == d.szFat && b.Tsect() == p.szVol && b.FatArea() == p.Fats(d.szFat)
    ensures b.System() == System(p, d) == b.Sysect() && b.Clusters() == d.nClst
  {
    Wrap32Id(b.FatArea());
    Wrap32Id(b.System());
  }

  lemma TypeIsKept(p: Params, d: Plan)
    requires Good(p, d)
    ensures TypeOf(d.nClst) == Some(d.ty)
  {
  }

  /** mount_volume accepts the block exactly if the volume has a cluster, with the same
      type, cluster size, FAT size and number of clusters. */
  lemma BpbAccepted(b: Bpb, p: Params, d: Plan)
    requires p.Valid() && Good(p, d) && Describes(b, p, d)
    ensures Accept(b, p.bVol) == if d.nClst >= 1 then Some(GeoOf(p, d)) else None
  {
    DescribedSizes(b, p, d);
    TypeIsKept(p, d);
    Pow2Test(d.pau);
    if d.nClst >= 1 {
      assert Acceptable(b);
      LaidOut(b, p.bVol, d.ty, d.nClst);
    }
  }

  /** A new volume gives no allocation hints: the code looks for the trailing signature of
      FSInfo at offset 498, where f_mkfs leaves zeros. */
  function NewMount(p: Params, d: Plan): Mounted
  {
    Mounted(GeoOf(p, d), UNKNOWN, UNKNOWN, if d.ty == FAT32 then 0 else 0x80)
  }

  lemma NoHints(b: Bpb, d: seq<Byte>, p: Params, plan: Plan, vsn: Dword)
    requires p.Valid() && BootWritten(d, p, plan, vsn) && Describes(b, p, plan)
    ensures WithHints(GeoOf(p, plan), b, p.bVol, d) == NewMount(p, plan)
  {
    Wrap32Id(p.bVol + 1);
    if plan.ty == FAT32 {
      var w := Sector(d, p.bVol + 1);
      assert w == Slice(d, p.bVol + 1, 1) && LdDword(w, 498) == 0;
    }
  }

  lemma NewVolumeMounts(d: seq<Byte>, p: Params, plan: Plan, vsn: Dword)
    requires p.Valid() && Good(p, plan) && BootWritten(d, p, plan, vsn)
    ensures MountAt(d, p.bVol) == if plan.nClst >= 1 then Mount.Mount(NewMount(p, plan)) else Refuse(NO_FILESYSTEM)
  {
    var w := Sector(d, p.bVol);
    assert w == Slice(d, p.bVol, 1);
    BpbAccepted(ReadBpb(w), p, plan);
    NoHints(ReadBpb(w), d, p, plan, vsn);
  }

  /** What mount_volume makes of a formatted disk: the layout that was planned, unless it has
      no cluster at all. */
  lemma FormattedMounts(d: seq<Byte>, p: Params, plan: Plan, vsn: Dword)
    requires p.Valid() && Good(p, plan) && Formatted(d, p, plan, vsn)
    ensures MountOf(d) == if plan.nClst >= 1 then Mount.Mount(NewMount(p, plan)) else Refuse(NO_FILESYSTEM)
  {
    VolumeFound(d, p, plan, vsn);
    NewVolumeMounts(d, p, plan, vsn);
  }

  /** ... and however it is used, it will be mounted again. */
  lemma NewStands(d: seq<Byte>, p: Params, plan: Plan, vsn: Dword)
    requires p.Valid() && Good(p, plan) && Formatted(d, p, plan, vsn) && plan.nClst >= 1
    ensures Remount.Stands(d, GeoOf(p, plan), plan.ty == FAT32, UNKNOWN)
    ensures plan.ty == FAT32 ==> GeoOf(p, plan).volbase + 1 < GeoOf(p, plan).fatbase
  {
    FormattedMounts(d, p, plan, vsn);
    NewIsApart(d, p, plan, vsn);
  }

  lemma NewIsApart(d: seq<Byte>, p: Params, plan: Plan, vsn: Dword)
    requires p.Valid() && Good(p, plan) && Formatted(d, p, plan, vsn)
    ensures |d| >= SS && Remount.Apart(d, GeoOf(p, plan))
  {
    BootThere(d, p, plan, vsn);
    if p.bVol > 0 { TableOfNew(d, p, plan, vsn); }
    Remount.FirstIsApart(d, GeoOf(p, plan), p.bVol);
  }

  lemma GeoIsValid(p: Params, d: Plan, sectors: nat)
    requires OnDisk(p, d, sectors) && d.nClst >= 1
    ensures GeoOf(p, d).Valid(sectors)
  {
    DivBounds(p.szVol - System(p, d), d.pau, d.nClst);
    ClustersFit(GeoOf(p, d), sectors);
    MulLe(d.nClst, 1, d.pau);
  }

  // ------------------------------------------------------------- the new FAT

  /** Entry `c` of a new FAT: media and clean-shutdown marks, the root chain on FAT32. */
  function NewEntry(t: FatType, c: nat): Dword
  {
    if c == 0 then FatBits.Mask(t, 0xFFFF_FFF8)
    else if c == 1 || (c == 2 && t == FAT32) then FatBits.Mask(t, 0xFFFF_FFFF)
    else 0
  }

  lemma NewFatEntry(t: FatType, n: nat, c: nat)
    requires 12 <= n && FatBytes(t, c + 1) <= n
    ensures FatBits.Entry(t, Headed(FatHead(t), n), c) == NewEntry(t, c)
  {
    var img := Headed(FatHead(t), n);
    match t
    case FAT12 => NewEntry12(img, c);
    case FAT16 => assert c >= 2 ==> LdWord(img, c * 2) == 0;
    case FAT32 => assert c >= 3 ==> LdDword(img, c * 4) == 0;
  }

  lemma NewEntry12(img: seq<Byte>, c: nat)
    requires FatBytes(FAT12, c + 1) <= |img| && 12 <= |img| && img == Headed(FatHead(FAT12), |img|)
    ensures FatBits.Entry(FAT12, img, c) == NewEntry(FAT12, c)
  {
    assert img[0] == 0xF8 && img[1] == 0xFF && img[2] == 0xFF && img[3] == 0;
    if c == 0 {
      assert LdWord(img, 0) == 0xFFF8;
    } else if c == 1 {
      assert LdWord(img, 1) == 0xFFFF;
    } else {
      NewZero12(img, c);
    }
  }

  lemma NewZero12(img: seq<Byte>, c: nat)
    requires 2 <= c && FatBytes(FAT12, c + 1) <= |img| && img == Headed(FatHead(FAT12), |img|)
    ensures FatBits.Entry(FAT12, img, c) == 0
  {
    var i := c + c / 2;
    assert i >= 3 && img[i] == 0 && img[i + 1] == 0;
    assert LdWord(img, i) == 0;
  }

  function NewFatMap(t: FatType, n: nat): (f: seq<Dword>)
    ensures |f| == n && forall c :: 0 <= c < n ==> f[c] == NewEntry(t, c)
  {
    seq(n, c requires 0 <= c < n => NewEntry(t, c))
  }

  lemma NewDecode(t: FatType, img: seq<Byte>, n: nat)
    requires 12 <= |img| && FatBytes(t, n) <= |img| && img == Headed(FatHead(t), |img|)
    ensures FatBits.Decode(t, img, n) == NewFatMap(t, n)
  {
    forall c | 0 <= c < n ensures FatBits.Decode(t, img, n)[c] == NewEntry(t, c) {
      FatBits.FatBytesMono(t, c + 1, n);
      NewFatEntry(t, |img|, c);
    }
  }

  /** Every cluster is free except the root directory of FAT32, and the FATs agree. */
  lemma NewFat(d: seq<Byte>, p: Params, plan: Plan, sectors: nat)
    requires OnDisk(p, plan, sectors) && plan.nClst >= 1 && FatsWritten(d, p, plan) && |d| == sectors * SS
    ensures var g := GeoOf(p, plan);
            g.Valid(sectors) && FatBits.FatsAgree(g, d) && FatBits.Fat(g, d) == NewFatMap(g.fsType, g.nFatent)
  {
    var g := GeoOf(p, plan);
    GeoIsValid(p, plan, sectors);
    assert FatBits.FatImage(g, d) == Headed(FatHead(plan.ty), plan.szFat * SS);
    NewDecode(plan.ty, FatBits.FatImage(g, d), g.nFatent);
  }

  /** The chains on a new volume. */
  function NewChains(g: Geometry): seq<seq<Dword>> { if g.fsType == FAT32 then [[2]] else [] }

  /** The new FAT satisfies the invariant of every run, with no file open. */
  lemma NewIsConsistent(g: Geometry, d: seq<Byte>, f: seq<Dword>)
    requires 3 <= g.nFatent <= MaxClusters(g.fsType) + 2 && FatBits.FatsAgree(g, d)
    requires g.fsType == FAT32 ==> g.nFatent > 3
    requires f == NewFatMap(g.fsType, g.nFatent)
    ensures Chains.NoErrorMarks(f) && Chains.FreeExact(f, UNKNOWN)
    ensures Runs.Consistent(g, f, d, [], NewChains(g))
  {
    var live := Runs.Live([], NewChains(g));
    if g.fsType == FAT32 {
      assert live[0] == [2] && f[2] == 0x0FFF_FFFF;
      assert Chains.Linked(f, [2], 0);
    }
  }

  /** mount_volume on a formatted disk. */
  method MountFormatted(disk: Disk, win: array<Byte>, ghost p: Params, ghost plan: Plan, ghost vsn: Dword)
    returns (res: FResult, fs: Win.Volume?)
    requires disk.Valid() && win != disk.data && win.Length == SS
    requires OnDisk(p, plan, disk.sectors) && Formatted(disk.data[..], p, plan, vsn)
    modifies win
    ensures if plan.nClst == 0 then res == NO_FILESYSTEM && fs == null
            else res == OK && fs != null && fs.geo == GeoOf(p, plan) && fresh(fs)
                 && fs.Ready() && fs.freeClst == UNKNOWN && fs.view == disk.data[..] && fs.lastClst == UNKNOWN
                 && fresh(fs.ledger) && Allocator.Booked(fs) && Remount.Standing(fs)
                 && fs.fat == NewFatMap(fs.geo.fsType, fs.geo.nFatent) && FatBits.FatsAgree(fs.geo, fs.view)
  {
    FormattedMounts(disk.data[..], p, plan, vsn);
    var r, winsect := MountVolume(disk, win);
    if r.Refuse? { return r.res, null; }
    NewFat(disk.data[..], p, plan, disk.sectors);
    NewStands(disk.data[..], p, plan, vsn);
    fs := new Win.Volume(disk, r.m.geo, win, winsect, r.m.freeClst, r.m.lastClst, r.m.fsiFlag == 0);
    res := OK;
  }

  /** Format and mount: the new volume starts out in the invariant of every run, with all
      clusters free but the root directory of FAT32. */
  method FormatAndMount(disk: Disk, opt: Opts, blk: Dword, buf: array<Byte>, szBuf: nat, vsn: Dword, win: array<Byte>)
    returns (res: FResult, fs: Win.Volume?)
    requires disk.Valid() && disk.sectors < TWO32 && buf != disk.data && win != disk.data && win != buf
    requires szBuf < TWO32 && buf.Length == szBuf * SS && win.Length == SS
    modifies buf, disk.data, win
    ensures match Decide(opt, disk.sectors, blk, szBuf)
            case Reject(r) => res == r && fs == null
            case Format(p, plan) =>
              if plan.nClst == 0 then res == NO_FILESYSTEM && fs == null
              else res == OK && fs != null && fs.geo == GeoOf(p, plan)
                   && Runs.System(fs, [], NewChains(fs.geo)) && Remount.Standing(fs)
                   && fs.fat == NewFatMap(fs.geo.fsType, fs.geo.nFatent)
  {
    fs := null;
    res := FMkfs(disk, opt, blk, buf, szBuf, vsn);
    ghost var dec := Decide(opt, disk.sectors, blk, szBuf);
    if res != OK { return; }
    res, fs := MountFormatted(disk, win, dec.p, dec.plan, vsn);
    if fs != null {
      NewIsConsistent(fs.geo, fs.view, fs.fat);
    }
  }

  /** When the new volume has a cluster, and so can be mounted.  With erase blocks of up to 16
      sectors it always does; with larger ones exactly if a cluster of the chosen size fits behind
      the system area of the chosen type and the gap to the next block.  A volume without
      clusters is always a FAT12 one. */
  lemma MountableExactly(opt: Opts, drv: Dword, blk: Dword, szBuf: nat)
    requires Decide(opt, drv, blk, szBuf).Format?
    ensures var dec := Decide(opt, drv, blk, szBuf);
            && HasRoom(dec.p, dec.plan) && dec.p.szBlk == opt.SzBlk(blk)
            && (opt.SzBlk(blk) <= 16 ==> dec.plan.nClst >= 1)
            && (dec.plan.nClst == 0 ==> dec.plan.ty == FAT12)
  {
    ParamsValid(opt, drv, blk);
    var p, fsty := opt.ParamsFor(drv, blk), if opt.Fat() then FAT16 else FAT32;
    ChosenHasRoom(p, fsty, opt.SzAu());
    ChosenIsGood(p, fsty, opt.SzAu());
  }

  /** f_mkfs can succeed with a volume that has no cluster: it checks the size against the
      unaligned start of the data area.  On a drive of 128 sectors with erase blocks of 128 sectors the
      FAT grows over the rest of the volume, and mount_volume refuses the result. */
  lemma AlignedAway()
    ensures var opt := Opts(0x09, 1, 128, 512, 0);
            Decide(opt, 128, 1, 1) == Format(Params(0, 128, 1, 512, 128, false), Plan(FAT12, 1, 1, 95, 32, 0))
  {
    var opt, p := Opts(0x09, 1, 128, 512, 0), Params(0, 128, 1, 512, 128, false);
    SampleParams(opt, p);
    ParamsValid(opt, 128, 1);
    SamplePass(p);
  }

  lemma SampleParams(opt: Opts, p: Params)
    requires opt == Opts(0x09, 1, 128, 512, 0) && p == Params(0, 128, 1, 512, 128, false)
    ensures opt.ParamsFor(128, 1) == p && opt.SzAu() == 0 && p.Valid()
  {
    assert IsPow2(128);
    Pow2Test(128);
  }

  lemma SampleDraft(p: Params)
    requires p == Params(0, 128, 1, 512, 128, false) && p.Valid()
    ensures Draft(p, FAT12, 1) == Plan(FAT12, 1, 1, 95, 32, 0)
  {
    assert p.Units(1) == 128;
    assert FatSectors(FAT12, 128) == 1;
    MaskIsMod(161, 128);
    assert Gap(34, 128) == 94;
    assert Aligned(p, FAT12, 1, 1, 94) == Plan(FAT12, 1, 1, 95, 32, 0);
  }

  lemma SamplePass(p: Params)
    requires p == Params(0, 128, 1, 512, 128, false) && p.Valid()
    ensures Choose(p, FAT16, 0) == Done(Plan(FAT12, 1, 1, 95, 32, 0))
  {
    SampleDraft(p);
    SampleSizes(p);
    FirstPassDone(p, 0, 1, Draft(p, FAT12, 1));
  }

  lemma SampleSizes(p: Params)
    requires p == Params(0, 128, 1, 512, 128, false)
    ensures p.Units(1) == 128 && PassAu(p, FAT16, 0) == 1 && BaseSystem(p, FAT12, FatSectors(FAT12, 128)) == 34
  {
    assert FatSectors(FAT12, 128) == 1;
  }

  lemma FirstPassDone(p: Params, szAu: nat, pau: nat, d: Plan)
    requires p.Valid() && pau == PassAu(p, FAT16, szAu) > 0 && p.Units(pau) <= MAX_FAT12
    requires p.szVol >= BaseSystem(p, FAT12, FatSectors(FAT12, p.Units(pau))) + pau * 16
    requires d == Draft(p, FAT12, pau) && d.nClst <= MAX_FAT12
    ensures Choose(p, FAT16, szAu) == Done(d)
  {
  }
}
