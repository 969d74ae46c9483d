/** Mounting a volume again after it has been in use: the boot sectors decide, and no file can reach
    them, unless the partition table says otherwise. */
module Remount {
  import opened Bytes
  import opened Layout
  import opened FatBits
  import opened Window
  import opened Chains
  import opened Allocator
  import opened FileData
  import opened Files
  import opened Mount
  import opened BootRules
  import opened Mkfs
  import opened Sync
  import opened Runs

  /** In use, a volume changes only between the start of its FATs and its last cluster, and in the
      sector of its FSInfo record. */
  ghost predicate UsedOnly(g: Geometry, v: seq<Byte>, v': seq<Byte>)
  {
    |v'| == |v| && forall a :: 0 <= a < |v| && OffLimits(g, a, false) && !InRecord(g, a) ==> v'[a] == v[a]
  }

  ghost predicate InRecord(g: Geometry, a: int) { (g.volbase + 1) * SS <= a < (g.volbase + 2) * SS }

  /** Sector `s`, where a partition starts, is none of those. */
  ghost predicate Aside(g: Geometry, s: nat, size: nat)
  {
    || s == 0 || (s + 1) * SS > size || (s < g.fatbase && s != g.volbase + 1)
    || s >= g.database + g.csize * (g.nFatent - 2)
  }

  ghost predicate UnfoldApart(k: int) { true }

  /** No partition listed before that of the volume starts inside it (to be looked at through
      `UnfoldApart`). */
  ghost predicate Apart(v: seq<Byte>, g: Geometry)
    requires |v| >= SS
  {
    forall u :: UnfoldApart(u) ==>
      var w := Sector(v, 0);
      IsFatBoot(w) || exists k: nat :: k < 4 && FirstVolume(v, w, k) && AsideBelow(g, w, k, |v|)
  }

  ghost predicate AsideBelow(g: Geometry, w: seq<Byte>, k: nat, size: nat)
    requires |w| == SS && k <= 4
  {
    forall i: nat :: i < k ==> Aside(g, Num4(w, 454 + 16 * i), size)
  }

  /** A volume in the first partition, or without partitions, needs no more. */
  lemma FirstIsApart(v: seq<Byte>, g: Geometry, b: nat)
    requires |v| >= SS && (b + 1) * SS <= |v| && Kind(v, b) == 0 && (b != 0 ==> PartStarts(Sector(v, 0))[0] == b)
    ensures Apart(v, g)
  {
    KindExactly(Sector(v, b));
    if b != 0 {
      var w := Sector(v, 0);
      StartIs(v, w, 0);
      assert FirstVolume(v, w, 0) && AsideBelow(g, w, 0, |v|);
    }
  }

  lemma SectorKept(g: Geometry, v: seq<Byte>, v': seq<Byte>, s: nat)
    requires UsedOnly(g, v, v') && s != g.volbase + 1 && (s + 1) * SS <= |v|
    requires s < g.fatbase || s >= g.database + g.csize * (g.nFatent - 2)
    ensures Sector(v', s) == Sector(v, s)
  {
  }

  lemma FirstAgain(g: Geometry, v: seq<Byte>, v': seq<Byte>, w: seq<Byte>, k: nat)
    requires |w| == SS && k < 4 && UsedOnly(g, v, v') && FirstVolume(v, w, k) && AsideBelow(g, w, k, |v|)
    requires Num4(w, 454 + 16 * k) == g.volbase < g.fatbase && g.volbase + 1 < g.database + g.csize * (g.nFatent - 2)
    ensures FirstVolume(v', w, k)
  {
    SectorKept(g, v, v', g.volbase);
    forall i: nat | i < k ensures !HasVolume(v', w, i) {
      var s := Num4(w, 454 + 16 * i);
      assert Aside(g, s, |v|) && !HasVolume(v, w, i);
      if s != 0 && (s + 1) * SS <= |v| { SectorKept(g, v, v', s); }
    }
  }

  /** The least entry is unique. */
  lemma FirstUnique(v: seq<Byte>, w: seq<Byte>, i: nat, k: nat)
    requires |w| == SS && i < 4 && k < 4 && FirstVolume(v, w, i) && FirstVolume(v, w, k)
    ensures i == k
  {
  }

  /** What find_volume finds behind a partition table. */
  lemma FoundFirst(v: seq<Byte>, k: nat)
    requires |v| >= SS && k < 4 && !IsFatBoot(Sector(v, 0)) && FirstVolume(v, Sector(v, 0), k)
    requires Sector(v, 0)[510] == 0x55 && Sector(v, 0)[511] == 0xAA
    ensures FindBoot(v).0 == 0 && FindBoot(v).1 == Num4(Sector(v, 0), 454 + 16 * k)
  {
    KindExactly(Sector(v, 0));
    assert Kind(v, 0) == 2;
    ScannedFirst(v, Sector(v, 0), k);
  }

  lemma ScannedFirst(v: seq<Byte>, w: seq<Byte>, k: nat)
    requires |w| == SS && k < 4 && FirstVolume(v, w, k)
    ensures ScanParts(v, PartStarts(w)).0 == 0 && ScanParts(v, PartStarts(w)).1 == Num4(w, 454 + 16 * k)
  {
    var pt := PartStarts(w);
    assert pt[0..] == pt;
    ScanExactly(v, w, pt, 0);
    assert HasVolume(v, w, k);
    var i: nat :| i < 4 && FirstVolume(v, w, i) && ScanParts(v, pt).1 == Num4(w, 454 + 16 * i);
    FirstUnique(v, w, i, k);
  }

  /** The volume is found again. */
  lemma FoundAgain(g: Geometry, v: seq<Byte>, v': seq<Byte>)
    requires |v| >= SS && UsedOnly(g, v, v') && g.Valid(|v| / SS)
    requires FindBoot(v).0 == 0 && FindBoot(v).1 == g.volbase && Apart(v, g)
    ensures FindBoot(v') == FindBoot(v) && Apart(v', g)
  {
    assert UnfoldApart(0);
    SectorKept(g, v, v', 0);
    if IsFatBoot(Sector(v, 0)) {
      FoundInFront(v);
      FoundInFront(v');
    } else {
      TableSigned(v);
      var k: nat :| k < 4 && FirstVolume(v, Sector(v, 0), k) && AsideBelow(g, Sector(v, 0), k, |v|);
      PartitionAgain(g, v, v', k);
    }
  }

  lemma FoundInFront(v: seq<Byte>)
    requires |v| >= SS && IsFatBoot(Sector(v, 0))
    ensures FindBoot(v) == (0, 0)
  {
    KindExactly(Sector(v, 0));
  }

  lemma PartitionAgain(g: Geometry, v: seq<Byte>, v': seq<Byte>, k: nat)
    requires |v| >= SS && UsedOnly(g, v, v') && g.Valid(|v| / SS) && Sector(v', 0) == Sector(v, 0) && k < 4
    requires Sector(v, 0)[510] == 0x55 && Sector(v, 0)[511] == 0xAA && !IsFatBoot(Sector(v, 0))
    requires FindBoot(v).1 == g.volbase && FirstVolume(v, Sector(v, 0), k) && AsideBelow(g, Sector(v, 0), k, |v|)
    ensures FindBoot(v') == FindBoot(v) && FirstVolume(v', Sector(v, 0), k)
  {
    FoundFirst(v, k);
    MulLe(g.csize, 1, g.nFatent - 2);
    FirstAgain(g, v, v', Sector(v, 0), k);
    FoundFirst(v', k);
  }

  lemma TableSigned(v: seq<Byte>)
    requires |v| >= SS && FindBoot(v).0 == 0 && !IsFatBoot(Sector(v, 0))
    ensures Sector(v, 0)[510] == 0x55 && Sector(v, 0)[511] == 0xAA
  {
    FoundExactly(v);
  }

  /** A partition listed before and starting inside the volume gets its boot sector from a file. */
  lemma Redirected(g: Geometry, v: seq<Byte>) returns (v': seq<Byte>)
    requires |v| >= SS && g.Valid(|v| / SS) && FindBoot(v).0 == 0 && FindBoot(v).1 == g.volbase && !Apart(v, g)
    ensures UsedOnly(g, v, v') && FindBoot(v') != FindBoot(v)
  {
    assert UnfoldApart(0);
    var w := Sector(v, 0);
    TableSigned(v);
    FoundExactly(v);
    var k: nat :| k < 4 && FirstVolume(v, w, k) && FindBoot(v).1 == Num4(w, 454 + 16 * k);
    var i: nat :| i < k && !Aside(g, Num4(w, 454 + 16 * i), |v|);
    var s := Num4(w, 454 + 16 * i);
    v' := Overlay(v, s * SS, WrappingSector());
    SectorKept(g, v, v', 0);
    SectorKept(g, v, v', g.volbase);
    Planted(v, v', w, s, i);
    NotThere(v, v', w, k, i, g.volbase);
  }

  lemma Planted(v: seq<Byte>, v': seq<Byte>, w: seq<Byte>, s: nat, i: nat)
    requires |w| == SS && i < 4 && s == Num4(w, 454 + 16 * i) != 0 && (s + 1) * SS <= |v|
    requires v' == Overlay(v, s * SS, WrappingSector())
    ensures HasVolume(v', w, i)
  {
    assert Sector(v', s) == WrappingSector();
    WrappingFields(WrappingSector());
    KindExactly(WrappingSector());
  }

  lemma NotThere(v: seq<Byte>, v': seq<Byte>, w: seq<Byte>, k: nat, i: nat, b: nat)
    requires |v| == |v'| >= SS && w == Sector(v, 0) == Sector(v', 0) && i < k < 4 && !IsFatBoot(w)
    requires w[510] == 0x55 && w[511] == 0xAA
    requires FirstVolume(v, w, k) && HasVolume(v', w, i)
    requires Num4(w, 454 + 16 * k) == b && Sector(v', b) == Sector(v, b)
    ensures FindBoot(v').1 != b
  {
    FoundExactly(v');
    var j: nat :| j < 4 && FirstVolume(v', w, j) && FindBoot(v').1 == Num4(w, 454 + 16 * j);
    assert j <= i && !HasVolume(v, w, j);
  }

  /** However a volume is used, find_volume finds it again, if and only if no partition listed
      before it starts inside it. */
  lemma FoundAgainExactly(g: Geometry, v: seq<Byte>)
    requires |v| >= SS && g.Valid(|v| / SS) && FindBoot(v).0 == 0 && FindBoot(v).1 == g.volbase
    ensures Apart(v, g) <==> forall v' :: UsedOnly(g, v, v') ==> FindBoot(v') == FindBoot(v)
  {
    if Apart(v, g) {
      forall v' | UsedOnly(g, v, v') ensures FindBoot(v') == FindBoot(v) { FoundAgain(g, v, v'); }
    } else {
      var v' := Redirected(g, v);
    }
  }

  // ------------------------------------------------------------ mounting again

  ghost predicate UnfoldStands(k: int) { true }

  /** Mounting the disk `v` gives the layout `g`, with the FSInfo record in use or not, and this free
      count; and it stays so in use (to be looked at through `UnfoldStands`). */
  ghost predicate Stands(v: seq<Byte>, g: Geometry, info: bool, free: Dword)
  {
    forall k :: UnfoldStands(k) ==>
      && |v| >= SS && Apart(v, g) && MountOf(v).Mount?
      && MountOf(v).m.geo == g && MountOf(v).m.freeClst == free && (MountOf(v).m.fsiFlag == 0 <==> info)
  }

  /** Whatever happens to the volume, it can be mounted again, and its FSInfo record is in front of
      its FATs. */
  ghost predicate Standing(fs: Volume)
    reads fs, fs.ledger
  {
    Stands(fs.view, fs.geo, fs.fsInfo, fs.ledger.free) && (fs.fsInfo ==> fs.geo.volbase + 1 < fs.geo.fatbase)
  }

  lemma MountedThere(v: seq<Byte>)
    requires MountOf(v).Mount?
    ensures FindBoot(v).0 == 0 && FindBoot(v).1 == MountOf(v).m.geo.volbase
    ensures MountOf(v) == MountAt(v, FindBoot(v).1)
  {
  }

  /** The hints of the record behind the boot sector. */
  ghost function RecordHints(g: Geometry, v: seq<Byte>): Mounted
    requires (g.volbase + 2) * SS <= |v|
  {
    var w := Sector(v, g.volbase + 1);
    if IsFsInfo(w) then Mounted(g, LdDword(w, 488), LdDword(w, 492), 0) else Mounted(g, UNKNOWN, UNKNOWN, 0)
  }

  /** What is mounted from boot sector `g.volbase`, with the hints of the record if it is in use. */
  ghost predicate MountsThere(g: Geometry, v: seq<Byte>, info: bool)
    requires (g.volbase + 2) * SS <= |v| && g.volbase < TWO32
  {
    forall k :: UnfoldStands(k) ==>
      MountAt(v, g.volbase) == Mount.Mount(if info then RecordHints(g, v) else Mounted(g, UNKNOWN, UNKNOWN, 0x80))
  }

  /** Which of the two it is, the boot sector says. */
  lemma MountsAs(g: Geometry, v: seq<Byte>, info: bool)
    requires (g.volbase + 2) * SS <= |v| && g.volbase + 2 < TWO32 && MountAt(v, g.volbase).Mount?
    requires MountAt(v, g.volbase).m.geo == g && (MountAt(v, g.volbase).m.fsiFlag == 0 <==> info)
    ensures MountsThere(g, v, info)
  {
    Wrap32Id(g.volbase + 1);
  }

  lemma SameBoot(g: Geometry, v: seq<Byte>, v': seq<Byte>, info: bool)
    requires (g.volbase + 2) * SS <= |v| == |v'| && g.volbase + 2 < TWO32
    requires Sector(v', g.volbase) == Sector(v, g.volbase)
    requires MountsThere(g, v, info)
    ensures MountsThere(g, v', info)
  {
    assert UnfoldStands(0);
    Wrap32Id(g.volbase + 1);
  }

  /** Layout and use of FSInfo are kept in use; the hints are those of the record. */
  lemma MountedAgain(g: Geometry, v: seq<Byte>, v': seq<Byte>, info: bool, free: Dword)
    requires Stands(v, g, info, free) && g.Valid(|v| / SS) && UsedOnly(g, v, v')
    ensures |v'| == |v| >= SS && Apart(v', g) && FindBoot(v').0 == 0 && FindBoot(v').1 == g.volbase
    ensures MountsThere(g, v, info) && MountsThere(g, v', info)
    ensures free == if info then RecordHints(g, v).freeClst else UNKNOWN
  {
    StoodThere(g, v, info, free);
    FoundAgain(g, v, v');
    SectorKept(g, v, v', g.volbase);
    SameBoot(g, v, v', info);
  }

  lemma StoodThere(g: Geometry, v: seq<Byte>, info: bool, free: Dword)
    requires Stands(v, g, info, free) && g.Valid(|v| / SS)
    ensures |v| >= SS && (g.volbase + 2) * SS <= |v| && Apart(v, g)
    ensures FindBoot(v).0 == 0 && FindBoot(v).1 == g.volbase && MountsThere(g, v, info)
    ensures free == if info then RecordHints(g, v).freeClst else UNKNOWN
  {
    assert UnfoldStands(0);
    MountedThere(v);
    MountsAs(g, v, info);
  }

  lemma StandsIf(g: Geometry, v: seq<Byte>, info: bool, free: Dword)
    requires |v| >= SS && Apart(v, g) && FindBoot(v).0 == 0 && FindBoot(v).1 == g.volbase
    requires (g.volbase + 2) * SS <= |v| && MountsThere(g, v, info)
    requires free == if info then RecordHints(g, v).freeClst else UNKNOWN
    ensures Stands(v, g, info, free) && (info ==> MountOf(v).Mount? && MountOf(v).m == RecordHints(g, v))
  {
    assert UnfoldStands(0);
    assert MountOf(v) == MountAt(v, g.volbase);
  }

  /** File and directory operations keep all that, if the record is in front of the FATs. */
  lemma StandsKept(g: Geometry, v: seq<Byte>, v': seq<Byte>, root: bool, info: bool, free: Dword)
    requires Stands(v, g, info, free) && g.Valid(|v| / SS) && AreaKept(g, v, v', root)
    requires info ==> g.volbase + 1 < g.fatbase
    ensures Stands(v', g, info, free)
  {
    AreaWeaker(g, v, v', root);
    AreaIsUse(g, v, v');
    MountedAgain(g, v, v', info, free);
    StandsIf(g, v', info, free);
  }

  lemma AreaIsUse(g: Geometry, v: seq<Byte>, v': seq<Byte>)
    requires AreaKept(g, v, v', false)
    ensures UsedOnly(g, v, v')
    ensures g.volbase + 1 < g.fatbase && (g.volbase + 2) * SS <= |v| ==> RecordHints(g, v') == RecordHints(g, v)
  {
    assert UnfoldArea(0);
    if g.volbase + 1 < g.fatbase && (g.volbase + 2) * SS <= |v| {
      assert Sector(v', g.volbase + 1) == Sector(v, g.volbase + 1);
    }
  }

  /** After sync_fs has written the record, its free count is the one that mounting finds. */
  lemma StandsRecorded(g: Geometry, v: seq<Byte>, v': seq<Byte>, was: Dword, free: Dword, last: Dword)
    requires Stands(v, g, true, was) && g.Valid(|v| / SS) && RecordedAt(v, v', g.volbase + 1, free, last)
    ensures Stands(v', g, true, free) && MountOf(v').Mount? && MountOf(v').m.lastClst == last
  {
    assert UnfoldRecord(0);
    MountedAgain(g, v, v', true, was);
    var w := Sector(v', g.volbase + 1);
    assert w == v'[(g.volbase + 1) * SS..(g.volbase + 2) * SS];
    RecordIs(w);
    StandsIf(g, v', true, free);
  }
}
