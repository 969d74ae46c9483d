/** What f_mkfs makes of a request: its options taken at their word, and the outcome for every
    drive, in terms of MkfsSizes. */
module Requests {
  import opened Bytes
  import opened Layout
  import opened DiskIo
  import opened MkfsPlan
  import opened MkfsSizes
  import opened Mkfs

  /** The volume asked for: behind the first track unless the drive is to be one volume; two FATs
      only if asked for; 512 root entries and no alignment where the option makes no sense. */
  ghost function Asked(opt: Opts, drv: Dword, blk: Dword): Params
  {
    var first := if opt.fmt / 8 % 2 == 0 && drv > 63 then 63 else 0;
    var block: nat := if opt.align != 0 then opt.align else blk;
    Params(first, drv - first,
           if opt.nFat == 2 then 2 else 1,
           if 0 < opt.nRoot <= 32768 && opt.nRoot % 16 == 0 then opt.nRoot else 512,
           if IsPow2(block) && block <= 0x8000 then block else 1,
           opt.fmt / 2 % 2 == 1)
  }

  /** The cluster size asked for, in sectors: a power of two of bytes, at most 128 sectors. */
  ghost function AuAsked(opt: Opts): nat
  {
    var au: nat := opt.auSize;
    if IsPow2(au) && au <= 0x100_0000 then Min(au / 512, 128) else 0
  }

  lemma AskedIs(opt: Opts, drv: Dword, blk: Dword)
    ensures opt.ParamsFor(drv, blk) == Asked(opt, drv, blk) && opt.SzAu() == AuAsked(opt)
  {
    var block: nat := if opt.align != 0 then opt.align else blk;
    if block > 0 { Pow2Test(block); }
    if opt.auSize > 0 { Pow2Test(opt.auSize); }
  }

  /** The exact answer to every request. */
  lemma DecideExactly(opt: Opts, drv: Dword, blk: Dword, szBuf: nat)
    ensures var p, fat, fat32 := Asked(opt, drv, blk), opt.fmt % 2 == 1, opt.fmt / 2 % 2 == 1;
            && (p.szVol >= 128 ==> p.Valid())
            && Decide(opt, drv, blk, szBuf) ==
                 if szBuf == 0 then Reject(NOT_ENOUGH_CORE)
                 else if p.szVol < 128 then Reject(MKFS_ABORTED)
                 else if !fat && !fat32 then Reject(INVALID_PARAMETER)
                 else if Outcomes(p, fat, AuAsked(opt)).Done? then Format(p, Outcomes(p, fat, AuAsked(opt)).plan)
                 else Reject(MKFS_ABORTED)
  {
    AskedIs(opt, drv, blk);
    if Asked(opt, drv, blk).szVol >= 128 {
      ParamsValid(opt, drv, blk);
      if opt.Fat() || opt.Fat32() { ChosenExactly(Asked(opt, drv, blk), opt.Fat(), AuAsked(opt)); }
    }
  }

  /** Without a cluster size asked for, the size of the drive decides. */
  lemma DrivesBySize(opt: Opts, drv: Dword, blk: Dword, szBuf: nat)
    requires opt.auSize == 0 && szBuf > 0
    ensures var d, fat, fat32 := Decide(opt, drv, blk, szBuf), opt.fmt % 2 == 1, opt.fmt / 2 % 2 == 1;
            && (fat && fat32 && drv >= 0x41_0040 ==> d.Format? && d.plan.ty == FAT32)
            && (fat && 0x4_0040 <= drv < 65526 * 64 ==> d.Format? && d.plan.ty == FAT16)
            && (fat && d.Format? && drv <= 4085 ==> d.plan.ty == FAT12)
            && (fat && !fat32 && drv >= 0x82_0040 ==> d == Reject(MKFS_ABORTED))
            && (!fat && fat32 && drv >= 0x2_0040 ==> d.Format? && d.plan.ty == FAT32)
            && (!fat && fat32 && drv < 65558 ==> d == Reject(MKFS_ABORTED))
  {
    AskedIs(opt, drv, blk);
    var p := Asked(opt, drv, blk);
    if p.szVol >= 128 {
      ParamsValid(opt, drv, blk);
      if opt.Fat() { AutoFatBySize(p); } else { Auto32BySize(p); }
    }
  }
}
