/** What check_fs, find_volume and mount_volume look for on a disk, byte by byte. */
module BootRules {
  import opened Bytes
  import opened Layout
  import opened Mount

  /** Numbers in a sector, low byte first. */
  ghost function Num2(w: seq<Byte>, p: nat): nat
    requires p + 2 <= |w|
  {
    (w[p] as int) + 0x100 * (w[p + 1] as int)
  }

  ghost function Num4(w: seq<Byte>, p: nat): nat
    requires p + 4 <= |w|
  {
    Num2(w, p) + 0x1_0000 * Num2(w, p + 2)
  }

  // ------------------------------------------------------------------ check_fs

  /** A boot sector starts with a jump; a FAT32 one carries its name and the signature 55 AA, any
      other has a parameter block that makes sense. */
  ghost predicate IsFatBoot(w: seq<Byte>)
    requires |w| == SS
  {
    && (w[0] == 0xEB || w[0] == 0xE9 || w[0] == 0xE8)
    && (|| (w[510] == 0x55 && w[511] == 0xAA && w[82..90] == [0x46, 0x41, 0x54, 0x33, 0x32, 0x20, 0x20, 0x20])
        || (&& w[11] == 0 && w[12] == 2 && IsPow2(w[13])
            && Num2(w, 14) != 0 && (w[16] == 1 || w[16] == 2) && Num2(w, 17) != 0
            && (Num2(w, 19) >= 128 || Num4(w, 32) >= 0x1_0000) && Num2(w, 22) != 0))
  }

  lemma KindExactly(w: seq<Byte>)
    requires |w| == SS
    ensures BootKind(w) == if IsFatBoot(w) then 0 else if w[510] == 0x55 && w[511] == 0xAA then 2 else 3
  {
    if w[13] != 0 { Pow2Test(w[13]); }
  }

  // --------------------------------------------------------------- find_volume

  /** Entry `i` of the partition table in `w` leads to a FAT boot sector on the disk. */
  ghost predicate HasVolume(d: seq<Byte>, w: seq<Byte>, i: nat)
    requires |w| == SS && i < 4
  {
    var s := Num4(w, 454 + 16 * i);
    s != 0 && (s + 1) * SS <= |d| && IsFatBoot(Sector(d, s))
  }

  /** The first of the entries `i`, ..., 3 that has a volume. */
  ghost predicate FirstVolume(d: seq<Byte>, w: seq<Byte>, k: nat)
    requires |w| == SS && k < 4
  {
    HasVolume(d, w, k) && forall j: nat :: j < k ==> !HasVolume(d, w, j)
  }

  /** The last partition starts behind the end of the disk. */
  ghost predicate Unreadable(d: seq<Byte>, w: seq<Byte>)
    requires |w| == SS
  {
    Num4(w, 502) != 0 && (Num4(w, 502) + 1) * SS > |d|
  }

  /** Where the volume is: in sector 0 if that is a FAT boot sector; else, if it has the signature,
      in the first of its four partitions that starts with one; else nowhere. */
  lemma FoundExactly(d: seq<Byte>)
    requires |d| >= SS
    ensures var w := Sector(d, 0);
            && (IsFatBoot(w) ==> FindBoot(d) == (0, 0))
            && (!IsFatBoot(w) ==>
                  && (FindBoot(d).0 == 0 <==>
                        w[510] == 0x55 && w[511] == 0xAA && exists i: nat :: i < 4 && HasVolume(d, w, i))
                  && (FindBoot(d).0 == 0 ==>
                        exists i: nat :: i < 4 && FirstVolume(d, w, i) && FindBoot(d).1 == Num4(w, 454 + 16 * i)))
            && (FindBoot(d).0 == 4 <==> FindBoot(d).0 != 0 && w[510] == 0x55 && w[511] == 0xAA && Unreadable(d, w))
  {
    var w := Sector(d, 0);
    KindExactly(w);
    if Kind(d, 0) == 2 {
      var pt := PartStarts(w);
      assert pt[0..] == pt;
      ScanExactly(d, w, pt, 0);
    }
  }

  /** The scan from partition `k` on. */
  lemma {:induction false} ScanExactly(d: seq<Byte>, w: seq<Byte>, pt: seq<Dword>, k: nat)
    requires |w| == SS && pt == PartStarts(w) && k < 4
    requires forall j: nat :: j < k ==> !HasVolume(d, w, j)
    ensures var r := ScanParts(d, pt[k..]);
            && (r.0 == 0 <==> exists i: nat :: k <= i < 4 && HasVolume(d, w, i))
            && (r.0 == 0 ==> exists i: nat :: i < 4 && FirstVolume(d, w, i) && r.1 == Num4(w, 454 + 16 * i))
            && (r.0 == 4 ==> Unreadable(d, w)) && (r.0 != 0 && Unreadable(d, w) ==> r.0 == 4)
    decreases 4 - k
  {
    StartIs(d, w, k);
    assert pt[k] == PartStart(w, k);
    if HasVolume(d, w, k) {
      assert FirstVolume(d, w, k);
    } else if k < 3 {
      assert pt[k..][1..] == pt[k + 1..];
      ScanExactly(d, w, pt, k + 1);
    }
  }

  lemma StartIs(d: seq<Byte>, w: seq<Byte>, k: nat)
    requires |w| == SS && k < 4
    ensures PartStart(w, k) == Num4(w, 454 + 16 * k)
    ensures HasVolume(d, w, k) <==> PartStart(w, k) != 0 && Kind(d, PartStart(w, k)) == 0
  {
    if (PartStart(w, k) + 1) * SS <= |d| { KindExactly(Sector(d, PartStart(w, k))); }
  }

  // -------------------------------------------------------------- mount_volume

  /** The numbers in a parameter block. */
  ghost function Reserved(w: seq<Byte>): nat requires |w| == SS { Num2(w, 14) }
  ghost function RootEntries(w: seq<Byte>): nat requires |w| == SS { Num2(w, 17) }

  ghost function FatSectors(w: seq<Byte>): nat
    requires |w| == SS
  {
    if Num2(w, 22) != 0 then Num2(w, 22) else Num4(w, 36)
  }

  ghost function VolSectors(w: seq<Byte>): nat
    requires |w| == SS
  {
    if Num2(w, 19) != 0 then Num2(w, 19) else Num4(w, 32)
  }

  /** All FATs, and the whole system area, in 32 bits as the code adds them up. */
  ghost function AllFats(w: seq<Byte>): nat requires |w| == SS { FatSectors(w) * w[16] % TWO32 }

  ghost function SystemArea(w: seq<Byte>): nat
    requires |w| == SS
  {
    (Reserved(w) + AllFats(w) + RootEntries(w) / 16) % TWO32
  }

  /** What mount_volume demands of the block: sectors of 512 bytes, one or two FATs, a cluster size
      that is a power of two, whole sectors of root entries, and a number of clusters `n` that the
      FAT has room for and whose type suits the root directory. */
  ghost predicate SoundBlock(w: seq<Byte>, n: nat)
    requires |w| == SS
  {
    && Num2(w, 11) == 512 && (w[16] == 1 || w[16] == 2) && IsPow2(w[13])
    && RootEntries(w) % 16 == 0 && Reserved(w) != 0
    && 1 <= n <= 0x0FFF_FFF5
    && SystemArea(w) + n * w[13] <= VolSectors(w) < SystemArea(w) + (n + 1) * w[13]
    && if n > 0xFFF5 then Num2(w, 42) == 0 && RootEntries(w) == 0 && (n + 2) * 4 <= FatSectors(w) * 512
       else if n > 0xFF5 then RootEntries(w) != 0 && (n + 2) * 2 <= FatSectors(w) * 512
       else RootEntries(w) != 0 && (n + 2) * 3 <= FatSectors(w) * 1024
  }

  /** The layout it stands for, in a volume that starts at sector `b`. */
  ghost function LayoutOf(w: seq<Byte>, n: nat, b: Dword): Geometry
    requires |w| == SS
  {
    var ty := if n > 0xFFF5 then FAT32 else if n > 0xFF5 then FAT16 else FAT12;
    var fat: Dword := (b + Reserved(w)) % TWO32;
    Geometry(ty, w[16], w[13], RootEntries(w), n + 2, FatSectors(w), b, fat,
             if ty == FAT32 then Num4(w, 44) else (fat + AllFats(w)) % TWO32, (b + SystemArea(w)) % TWO32)
  }

  lemma AcceptedExactly(w: seq<Byte>, b: Dword)
    requires |w| == SS
    ensures match Accept(ReadBpb(w), b)
            case None => forall n: nat :: !SoundBlock(w, n)
            case Some(g) => g.nFatent >= 2 && SoundBlock(w, g.nFatent - 2) && g == LayoutOf(w, g.nFatent - 2, b)
  {
    var a := ReadBpb(w);
    if Acceptable(a) {
      AcceptedSound(w, a, a.Clusters());
      AreaIs(w, a);
    } else {
      forall n: nat ensures !SoundBlock(w, n) {
        if SoundBlock(w, n) { SoundAccepted(w, a, n); }
      }
    }
  }

  // ----------------------------------------------------------- the whole mount

  /** Sector `v` is an FSInfo record, by its three signatures. */
  ghost predicate IsInfoRecord(v: seq<Byte>)
    requires |v| == SS
  {
    && v[0..4] == [0x52, 0x52, 0x61, 0x41]
    && v[484..488] == [0x72, 0x72, 0x41, 0x61]
    && v[498..502] == [0, 0, 0x55, 0xAA]
  }

  /** What mounting the volume behind boot sector `w` at sector `b` gives: the layout of its block
      and the hints of its FSInfo record. */
  ghost predicate MountedAs(m: Mounted, d: seq<Byte>, w: seq<Byte>, b: Dword)
    requires |w| == SS
  {
    && m.geo.nFatent >= 2 && SoundBlock(w, m.geo.nFatent - 2) && m.geo == LayoutOf(w, m.geo.nFatent - 2, b)
    && HintsOf(m, d, w, b)
  }

  /** The hints are the free count and the last cluster of the record in the next sector, if the
      volume is FAT32, `w` points there, the disk has that sector and a record is in it. */
  ghost predicate HintsOf(m: Mounted, d: seq<Byte>, w: seq<Byte>, b: Dword)
    requires |w| == SS
  {
    var k := (b + 1) % TWO32;
    if m.geo.fsType == FAT32 && w[48] == 1 && w[49] == 0 && (k + 1) * SS <= |d| then
      && m.fsiFlag == 0
      && var v := Sector(d, k);
      if IsInfoRecord(v) then m.freeClst == Num4(v, 488) && m.lastClst == Num4(v, 492)
      else m.freeClst == 0xFFFF_FFFF && m.lastClst == 0xFFFF_FFFF
    else m.fsiFlag == 0x80 && m.freeClst == 0xFFFF_FFFF && m.lastClst == 0xFFFF_FFFF
  }

  /** mount_volume mounts a disk if and only if a volume is found on it whose block is sound for
      some number of clusters, and then as that block says. */
  lemma MountedExactly(d: seq<Byte>)
    requires |d| >= SS
    ensures var (k, b) := FindBoot(d);
            && (MountOf(d).Mount? <==>
                  k == 0 && (b + 1) * SS <= |d| && exists n: nat :: SoundBlock(Sector(d, b), n))
            && (MountOf(d).Mount? ==> MountedAs(MountOf(d).m, d, Sector(d, b), b))
            && (MountOf(d).Refuse? ==> MountOf(d).res == if k == 4 then DISK_ERR else NO_FILESYSTEM)
  {
    var (k, b) := FindBoot(d);
    if k == 0 { MountedAtExactly(d, b, Sector(d, b)); }
  }

  lemma MountedAtExactly(d: seq<Byte>, b: Dword, w: seq<Byte>)
    requires (b + 1) * SS <= |d| && w == Sector(d, b)
    ensures MountAt(d, b).Mount? <==> exists n: nat :: SoundBlock(w, n)
    ensures MountAt(d, b).Mount? ==> MountedAs(MountAt(d, b).m, d, w, b)
    ensures MountAt(d, b).Refuse? ==> MountAt(d, b).res == NO_FILESYSTEM
  {
    AcceptedExactly(w, b);
    var g := Accept(ReadBpb(w), b);
    if g.Some? { HintsExactly(g.value, w, b, d); }
  }

  lemma HintsExactly(g: Geometry, w: seq<Byte>, b: Dword, d: seq<Byte>)
    requires |w| == SS
    ensures HintsOf(WithHints(g, ReadBpb(w), b, d), d, w, b) && WithHints(g, ReadBpb(w), b, d).geo == g
  {
    var next := Wrap32(b + 1);
    if (next + 1) * SS <= |d| { RecordIs(Sector(d, next)); }
  }

  lemma RecordIs(v: seq<Byte>)
    requires |v| == SS
    ensures IsFsInfo(v) <==> IsInfoRecord(v)
    ensures LdDword(v, 488) == Num4(v, 488) && LdDword(v, 492) == Num4(v, 492)
  {
  }

  lemma AcceptedSound(w: seq<Byte>, a: Bpb, n: nat)
    requires |w| == SS && a == ReadBpb(w) && Acceptable(a) && n == a.Clusters()
    ensures SoundBlock(w, n)
  {
    Pow2Test(w[13]);
    AreaIs(w, a);
    DivBounds(a.Tsect() - a.Sysect(), a.csize, n);
    FatRoom(n, a.Fsize());
  }

  lemma SoundAccepted(w: seq<Byte>, a: Bpb, n: nat)
    requires |w| == SS && a == ReadBpb(w) && SoundBlock(w, n)
    ensures Acceptable(a)
  {
    Pow2Test(w[13]);
    SoundClusters(w, a, n);
    AreaIs(w, a);
    FatRoom(n, a.Fsize());
  }

  lemma SoundClusters(w: seq<Byte>, a: Bpb, n: nat)
    requires |w| == SS && a == ReadBpb(w) && SoundBlock(w, n)
    ensures a.csize != 0 && a.Tsect() >= a.Sysect() && a.Clusters() == n
  {
    AreaIs(w, a);
    var vol, sys, c := VolSectors(w), SystemArea(w), w[13];
    CountIs(vol, sys, c, n);
    assert a.Tsect() == vol && a.Sysect() == sys && a.csize == c;
  }

  lemma CountIs(vol: nat, sys: nat, c: nat, n: nat)
    requires c > 0 && sys + n * c <= vol < sys + (n + 1) * c
    ensures vol >= sys && (vol - sys) / c == n
  {
    assert (n + 1) * c == n * c + c;
    assert 0 <= n * c;
    DivModUnique(vol - sys, c, n, vol - sys - n * c);
  }

  lemma AreaIs(w: seq<Byte>, a: Bpb)
    requires |w| == SS && a == ReadBpb(w)
    ensures a.Fsize() == FatSectors(w) && a.Tsect() == VolSectors(w)
    ensures (w[16] == 1 || w[16] == 2) ==> Wrap32(a.FatArea()) == AllFats(w) && a.Sysect() == SystemArea(w)
  {
  }

  lemma FatRoom(n: nat, f: nat)
    ensures f >= (FatBytes(FAT12, n + 2) + SS - 1) / SS <==> (n + 2) * 3 <= f * 1024
    ensures f >= (FatBytes(FAT16, n + 2) + SS - 1) / SS <==> (n + 2) * 2 <= f * 512
    ensures f >= (FatBytes(FAT32, n + 2) + SS - 1) / SS <==> (n + 2) * 4 <= f * 512
  {
  }
}
