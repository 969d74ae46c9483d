/** Where the parts of a mounted FAT volume lie on the disk: the fields of FATFS
    that mount_volume computes and nothing changes afterwards. */
module Layout {
  import opened Bytes

  const MAX_FAT12 := 0xFF5
  const MAX_FAT16 := 0xFFF5
  const MAX_FAT32 := 0x0FFFFFF5
  const SZDIRE := 32

  datatype FatType = FAT12 | FAT16 | FAT32

  datatype Geometry = Geometry(
    fsType: FatType,
    nFats: nat,      // number of FATs (1 or 2)
    csize: nat,      // cluster size [sector]
    nRootdir: nat,   // number of root directory entries (0 on FAT32)
    nFatent: nat,    // number of FAT entries (number of clusters + 2)
    fsize: nat,      // sectors per FAT
    volbase: nat,    // volume base sector
    fatbase: nat,    // FAT base sector
    dirbase: nat,    // root directory base sector, or its cluster on FAT32
    database: nat    // data base sector
  )
  {
    /** Bytes per cluster. */
    function Bcs(): nat { csize * SS }

    /** Sectors occupied by all FAT copies. */
    function FatArea(): nat { if nFats == 2 then fsize + fsize else fsize }

    /** First sector behind the FAT copies. */
    function FatEnd(): nat { fatbase + FatArea() }

    /** Sector `s` lies in the first FAT and has a copy in the second. */
    predicate Mirrored(s: int) { nFats == 2 && fatbase <= s < fatbase + fsize }

    /** First byte of the data area of cluster `c`. */
    function ClusterBase(c: int): int { (database + csize * (c - 2)) * SS }

    /** Everything mount_volume establishes for a volume that lies on the disk. */
    predicate Valid(sectors: nat)
    {
      && 1 <= nFats <= 2
      && 1 <= csize <= 128 && IsPow2(csize)
      && 3 <= nFatent <= MaxClusters(fsType) + 2
      && FatBytes(fsType, nFatent) <= fsize * SS
      && volbase < fatbase
      && nRootdir % 16 == 0
      && (fsType == FAT32 <==> nRootdir == 0)
      && (fsType != FAT32 ==> dirbase == fatbase + FatArea())
      && database == fatbase + FatArea() + nRootdir / 16
      && database < sectors < TWO32 && dirbase < TWO32
      && forall c :: 2 <= c < nFatent ==> ClusterOnDisk(c, sectors)
    }

    predicate ClusterOnDisk(c: int, sectors: nat)
    {
      database + csize * (c - 2) + csize <= sectors
    }
  }

  function MaxClusters(t: FatType): nat
  {
    match t
    case FAT12 => MAX_FAT12
    case FAT16 => MAX_FAT16
    case FAT32 => MAX_FAT32
  }

  /** Bytes needed for `n` packed FAT entries, as mount_volume computes it. */
  function FatBytes(t: FatType, n: nat): nat
  {
    match t
    case FAT12 => n * 3 / 2 + n % 2
    case FAT16 => n * 2
    case FAT32 => n * 4
  }

  /** clst2sect: start sector of a cluster, 0 for an invalid cluster number. */
  function Clst2Sect(g: Geometry, clst: Dword): Dword
  {
    var c := Sub32(clst, 2);
    if c >= Wrap32(g.nFatent - 2) then 0
    else Wrap32(g.database + g.csize * c)
  }

  /** Cluster ranges of a valid volume are non-zero, inside the disk, and disjoint. */
  lemma ClusterInside(g: Geometry, sectors: nat, c: Dword)
    requires g.Valid(sectors)
    ensures Clst2Sect(g, c) != 0 <==> 2 <= c < g.nFatent
    ensures 2 <= c < g.nFatent ==>
              && Clst2Sect(g, c) * SS == g.ClusterBase(c)
              && g.database <= Clst2Sect(g, c)
              && Clst2Sect(g, c) + g.csize <= sectors
              && g.ClusterBase(c) + g.Bcs() <= sectors * SS
  {
    Wrap32Id(g.nFatent - 2);
    IntervalTest(c, 2, g.nFatent - 2);
    if 2 <= c < g.nFatent {
      assert g.ClusterOnDisk(c, sectors);
      var n := g.csize * (c - 2);
      assert 0 <= n;
      Wrap32Id(c - 2);
      Wrap32Id(g.database + n);
    }
  }

  lemma ClustersDisjoint(g: Geometry, c: int, d: int)
    requires c < d
    ensures g.ClusterBase(c) + g.Bcs() <= g.ClusterBase(d)
  {
    MulStep(g.csize, c - 2, d - 2);
  }

  lemma MulStep(k: nat, a: int, b: int)
    requires a < b
    ensures k * a + k <= k * b
  {
    var n := b - a - 1;
    assert 0 <= k * n;
    assert b == a + 1 + n;
  }
}
