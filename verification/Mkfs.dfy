/** Writing a new FAT volume (f_mkfs), given the layout chosen by MkfsPlan. */
module Mkfs {
  import opened Bytes
  import opened Layout
  import opened DiskIo
  import opened Mount
  import opened MkfsPlan
  import opened Partition

  // ------------------------------------------------------------------ options

  /** MKFS_PARM. */
  datatype Opts = Opts(fmt: Byte, nFat: Byte, align: Dword, nRoot: Dword, auSize: Dword)
  {
    predicate Fat() { fmt % 2 == 1 }           // FM_FAT
    predicate Fat32() { fmt / 2 % 2 == 1 }     // FM_FAT32
    predicate Sfd() { fmt / 8 % 2 == 1 }       // FM_SFD

    /** Requested cluster size in sectors, 0 for none. */
    function SzAu(): nat
    {
      if auSize == 0 || auSize > 0x1000000 || BitAnd(auSize, auSize - 1) != 0 then 0
      else Min(auSize / SS, 128)
    }

    /** Erase block size in sectors; `blk` is what the drive reports. */
    function SzBlk(blk: Dword): nat
    {
      var b := if align == 0 then blk else align;
      if b == 0 || b > 0x8000 || BitAnd(b, b - 1) != 0 then 1 else b
    }

    function ParamsFor(drv: Dword, blk: Dword): Params
    {
      var bVol := if !Sfd() && drv > N_SEC_TRACK then N_SEC_TRACK else 0;
      Params(bVol, drv - bVol, if 1 <= nFat <= 2 then nFat else 1,
                    if 1 <= nRoot <= 32768 && nRoot % 16 == 0 then nRoot else 512, SzBlk(blk), Fat32())
    }
  }

  datatype Decision = Reject(res: FResult) | Format(p: Params, plan: Plan)

  /** What f_mkfs does on a drive of `drv` sectors with a buffer of `szBuf` sectors. */
  ghost function Decide(opt: Opts, drv: Dword, blk: Dword, szBuf: nat): Decision
  {
    var p := opt.ParamsFor(drv, blk);
    if szBuf == 0 then Reject(NOT_ENOUGH_CORE)
    else if p.szVol < 128 then Reject(MKFS_ABORTED)
    else if !opt.Fat() && !opt.Fat32() then Reject(INVALID_PARAMETER)
    else
      ParamsValid(opt, drv, blk);
      match Choose(p, if opt.Fat() then FAT16 else FAT32, opt.SzAu())
      case Done(d) => Format(p, d)
      case _ => Reject(MKFS_ABORTED)
  }

  lemma ParamsValid(opt: Opts, drv: Dword, blk: Dword)
    requires opt.ParamsFor(drv, blk).szVol >= 128
    ensures opt.ParamsFor(drv, blk).Valid() && ProperAu(opt.SzAu())
  {
    BlockIsPow2(opt, blk);
    AuIsPow2(opt);
  }

  lemma BlockIsPow2(opt: Opts, blk: Dword)
    ensures IsPow2(opt.SzBlk(blk)) && opt.SzBlk(blk) <= 0x8000
  {
    var b := if opt.align == 0 then blk else opt.align;
    if b > 0 { Pow2Test(b); }
  }

  lemma AuIsPow2(opt: Opts)
    ensures ProperAu(opt.SzAu())
  {
    if opt.auSize > 0 {
      Pow2Test(opt.auSize);
      if IsPow2(opt.auSize) && opt.auSize >= SS { Pow2Over512(opt.auSize); }
      assert IsPow2(128);
    }
  }

  lemma Pow2Over512(n: nat)
    requires IsPow2(n) && n >= SS
    ensures IsPow2(n / SS)
  {
    var a := Pow2Eighth(n);
    var b := Pow2Eighth(a);
    var c := Pow2Eighth(b);
    assert n == 512 * c;
  }

  lemma Pow2Eighth(n: nat) returns (m: nat)
    requires IsPow2(n) && n >= 8
    ensures IsPow2(m) && n == 8 * m
  {
    m := n / 8;
    assert IsPow2(n / 2) && IsPow2(n / 2 / 2) && IsPow2(n / 2 / 2 / 2);
  }

  // -------------------------------------------------------------- boot sectors

  /** The parameter block of the layout `d`. */
  predicate Describes(b: Bpb, p: Params, d: Plan)
  {
    && b.bytsPerSec == SS && b.csize == d.pau && b.nrsv == d.szRsv && b.nFats == p.nFat
    && b.nRoot == (if d.ty == FAT32 then 0 else p.nRoot)
    && (if p.szVol < 0x10000 then b.tot16 == p.szVol else b.tot16 == 0 && b.tot32 == p.szVol)
    && if d.ty == FAT32 then
         b.fatSz16 == 0 && b.fatSz32 == d.szFat && b.fsVer == 0 && b.rootClus == 2 && b.fsInfo == 1
       else b.fatSz16 == d.szFat
  }

  ghost predicate IsVbr(w: seq<Byte>, p: Params, d: Plan, vsn: Dword)
  {
    && |w| == SS && w[0] == 0xEB && LdWord(w, 510) == BS_SIGN && Describes(ReadBpb(w), p, d)
    && Labelled(w, p.bVol, d.ty == FAT32, vsn)
  }

  /** The fields of a boot sector that say nothing about the layout: jump and "MSDOS5.0", media,
      geometry and offset of the volume, the block from the drive number to the name of the file
      system, and zeros (to be looked at through `UnfoldLabel`). */
  ghost predicate Labelled(w: seq<Byte>, bVol: int, is32: bool, vsn: Dword)
    requires |w| >= SS
  {
    forall k :: UnfoldLabel(k) ==>
      && w[0..11] == [0xEB, 0xFE, 0x90, 0x4D, 0x53, 0x44, 0x4F, 0x53, 0x35, 0x2E, 0x30]
      && w[21] == 0xF8 && w[24..28] == [63, 0, 255, 0] && LdDword(w, 28) == bVol
      && (is32 ==> w[40..44] == [0, 0, 0, 0] && w[50] == 6 && forall i :: 51 <= i < 64 ==> w[i] == 0)
      && IsExtension(w, if is32 then 64 else 36, is32, vsn)
  }

  ghost predicate UnfoldLabel(k: int) { true }

  /** "NO NAME    FAT32   " and "NO NAME    FAT     " behind the serial number. */
  ghost predicate IsExtension(w: seq<Byte>, o: nat, is32: bool, vsn: Dword)
    requires |w| >= SS && o <= 64
  {
    && w[o] == 0x80 && w[o + 1] == 0 && w[o + 2] == 0x29 && LdDword(w, o + 3) == vsn
    && w[o + 7..o + 18] == [0x4E, 0x4F, 0x20, 0x4E, 0x41, 0x4D, 0x45, 0x20, 0x20, 0x20, 0x20]
    && w[o + 18..o + 26] == (if is32 then [0x46, 0x41, 0x54, 0x33, 0x32, 0x20, 0x20, 0x20]
                             else [0x46, 0x41, 0x54, 0x20, 0x20, 0x20, 0x20, 0x20])
    && forall i :: o + 26 <= i < 510 ==> w[i] == 0
  }

  /** The FSInfo record written for `n` free clusters: nothing at offset 498. */
  ghost predicate IsNewFsInfo(w: seq<Byte>, n: int)
  {
    && |w| == SS && LdDword(w, 0) == 0x41615252 && LdDword(w, 484) == 0x61417272
    && LdDword(w, 488) == n && LdDword(w, 492) == 2 && LdWord(w, 510) == BS_SIGN
    && LdDword(w, 498) == 0 && forall i :: 4 <= i < 484 || 496 <= i < 510 ==> w[i] == 0
  }

  /** Bytes outside [lo, hi) are as they were. */
  ghost predicate SameOutside(a: seq<Byte>, b: seq<Byte>, lo: int, hi: int)
  {
    |a| == |b| && forall i :: 0 <= i < |a| && !(lo <= i < hi) ==> a[i] == b[i]
  }

  /** st_word and st_dword into a buffer. */
  method PutWord(buf: array<Byte>, o: nat, v: Word)
    requires o + 2 <= buf.Length
    modifies buf
    ensures buf[o] as int + 256 * buf[o + 1] as int == v
    ensures SameOutside(old(buf[..]), buf[..], o, o + 2)
  {
    buf[o], buf[o + 1] := v % 256, v / 256;
  }

  method PutDword(buf: array<Byte>, o: nat, v: Dword)
    requires o + 4 <= buf.Length
    modifies buf
    ensures LdDword(buf[..], o) == v
    ensures SameOutside(old(buf[..]), buf[..], o, o + 4)
  {
    MemCpy(buf, o, DwordBytes(v));
    assert buf[..][o..o + 4] == DwordBytes(v);
    DwordBack(buf[..], o, v);
  }

  method ClearSector(buf: array<Byte>)
    requires buf.Length >= SS
    modifies buf
    ensures forall i :: 0 <= i < SS ==> buf[i] == 0
    ensures SameOutside(old(buf[..]), buf[..], 0, SS)
  {
    forall i | 0 <= i < SS { buf[i] := 0; }
  }

  /** Fields 0..35, which all types share; FATSz16 is left 0. */
  ghost predicate CommonFields(w: seq<Byte>, p: Params, d: Plan)
  {
    && |w| >= SS && w[0] == 0xEB && LdWord(w, 11) == SS && w[13] as int == d.pau && LdWord(w, 14) == d.szRsv
    && w[16] as int == p.nFat && LdWord(w, 17) == (if d.ty == FAT32 then 0 else p.nRoot)
    && (if p.szVol < 0x10000 then LdWord(w, 19) == p.szVol else LdWord(w, 19) == 0 && LdDword(w, 32) == p.szVol)
  }

  ghost predicate IsHead(w: seq<Byte>, bVol: int)
  {
    && |w| >= SS && w[0..11] == [0xEB, 0xFE, 0x90, 0x4D, 0x53, 0x44, 0x4F, 0x53, 0x35, 0x2E, 0x30]
    && w[21] == 0xF8 && w[24..28] == [63, 0, 255, 0] && LdDword(w, 28) == bVol
  }

  method PutCommon(buf: array<Byte>, p: Params, d: Plan)
    requires buf.Length >= SS && p.Valid() && Good(p, d) && forall i :: 0 <= i < 36 ==> buf[i] == 0
    modifies buf
    ensures CommonFields(buf[..], p, d) && LdWord(buf[..], 22) == 0
    ensures IsHead(buf[..], p.bVol)
    ensures SameOutside(old(buf[..]), buf[..], 0, 36)
  {
    PutMedia(buf, p.bVol);
    PutSizes(buf, d.pau, d.szRsv, p.nFat, if d.ty == FAT32 then 0 else p.nRoot);
    if p.szVol < 0x10000 { PutWord(buf, 19, p.szVol); } else { PutDword(buf, 32, p.szVol); }
  }

  method PutSizes(buf: array<Byte>, pau: Byte, rsv: Word, nFat: Byte, nRoot: Word)
    requires buf.Length >= SS
    modifies buf
    ensures buf[0] == 0xEB && LdWord(buf[..], 11) == SS && buf[13] == pau && LdWord(buf[..], 14) == rsv
    ensures buf[16] == nFat && LdWord(buf[..], 17) == nRoot
    ensures buf[0..11] == [0xEB, 0xFE, 0x90, 0x4D, 0x53, 0x44, 0x4F, 0x53, 0x35, 0x2E, 0x30]
    ensures SameOutside(old(buf[..]), buf[..], 0, 19)
  {
    MemCpy(buf, 0, [0xEB, 0xFE, 0x90, 0x4D, 0x53, 0x44, 0x4F, 0x53, 0x35, 0x2E, 0x30]);
    PutWord(buf, 11, SS);
    buf[13] := pau;
    PutWord(buf, 14, rsv);
    buf[16] := nFat;
    PutWord(buf, 17, nRoot);
  }

  method PutMedia(buf: array<Byte>, bVol: Dword)
    requires buf.Length >= SS
    modifies buf
    ensures buf[21] == 0xF8 && buf[24..28] == [63, 0, 255, 0] && LdDword(buf[..], 28) == bVol
    ensures forall i :: 0 <= i < buf.Length && i != 21 && !(24 <= i < 32) ==> buf[i] == old(buf[i])
  {
    buf[21] := 0xF8;
    PutWord(buf, 24, 63);
    PutWord(buf, 26, 255);
    PutDword(buf, 28, bVol);
  }

  /** Fields behind 35 on FAT32 and on FAT12/16, and FATSz16. */
  ghost predicate OtherFields(w: seq<Byte>, szFat: int, is32: bool, vsn: Dword)
    requires |w| >= SS
  {
    && IsExtension(w, if is32 then 64 else 36, is32, vsn)
    && if is32 then
         && LdWord(w, 22) == 0 && LdDword(w, 36) == szFat && LdDword(w, 44) == 2 && LdWord(w, 48) == 1
         && w[40..44] == [0, 0, 0, 0] && w[50] == 6 && forall i :: 51 <= i < 64 ==> w[i] == 0
       else LdWord(w, 22) == szFat
  }

  method PutExt32(buf: array<Byte>, szFat: Dword, vsn: Dword)
    requires buf.Length >= SS && forall i :: 36 <= i < SS ==> buf[i] == 0
    modifies buf
    ensures LdWord(old(buf[..]), 22) == 0 ==> OtherFields(buf[..], szFat, true, vsn)
    ensures SameOutside(old(buf[..]), buf[..], 36, 90)
  {
    PutExtension(buf, 64, vsn, true);
    PutDword(buf, 36, szFat);
    PutDword(buf, 44, 2);
    PutWord(buf, 48, 1);
    PutWord(buf, 50, 6);
  }

  /** "NO NAME    " and "FAT     ". */
  const NO_NAME: seq<Byte> := [0x4E, 0x4F, 0x20, 0x4E, 0x41, 0x4D, 0x45, 0x20, 0x20, 0x20, 0x20]
  const FAT_SIGN: seq<Byte> := [0x46, 0x41, 0x54, 0x20, 0x20, 0x20, 0x20, 0x20]

  /** The last fields, which both kinds have. */
  method PutExtension(buf: array<Byte>, o: nat, vsn: Dword, is32: bool)
    requires buf.Length >= SS && o <= 64 && forall i :: o <= i < SS ==> buf[i] == 0
    modifies buf
    ensures IsExtension(buf[..], o, is32, vsn)
    ensures SameOutside(old(buf[..]), buf[..], o, o + 26)
  {
    PutNames(buf, o + 7, is32);
    PutDword(buf, o + 3, vsn);
    buf[o] := 0x80;
    buf[o + 2] := 0x29;
    ExtensionIs(buf[..], o, is32, vsn);
  }

  method PutNames(buf: array<Byte>, o: nat, is32: bool)
    requires o + 19 <= buf.Length
    modifies buf
    ensures buf[o..o + 19] == NO_NAME + if is32 then FAT32_SIGN else FAT_SIGN
    ensures SameOutside(old(buf[..]), buf[..], o, o + 19)
  {
    MemCpy(buf, o, NO_NAME + if is32 then FAT32_SIGN else FAT_SIGN);
  }

  lemma ExtensionIs(w: seq<Byte>, o: nat, is32: bool, vsn: Dword)
    requires |w| >= SS && o <= 64
    requires w[o] == 0x80 && w[o + 1] == 0 && w[o + 2] == 0x29 && LdDword(w, o + 3) == vsn
    requires w[o + 7..o + 26] == NO_NAME + if is32 then FAT32_SIGN else FAT_SIGN
    requires forall i :: o + 26 <= i < 510 ==> w[i] == 0
    ensures IsExtension(w, o, is32, vsn)
  {
    var n := w[o + 7..o + 26];
    assert w[o + 7..o + 18] == n[..11] && w[o + 18..o + 26] == n[11..];
  }

  method PutExt16(buf: array<Byte>, szFat: Word, vsn: Dword)
    requires buf.Length >= SS && forall i :: 36 <= i < SS ==> buf[i] == 0
    modifies buf
    ensures OtherFields(buf[..], szFat, false, vsn)
    ensures forall i :: 0 <= i < buf.Length && !(22 <= i < 24) && !(36 <= i < 62) ==> buf[i] == old(buf[i])
  {
    PutExtension(buf, 36, vsn, false);
    PutWord(buf, 22, szFat);
  }

  method PutOthers(buf: array<Byte>, szFat: Dword, is32: bool, vsn: Dword)
    requires buf.Length >= SS && LdWord(buf[..], 22) == 0 && (forall i :: 36 <= i < SS ==> buf[i] == 0)
    requires !is32 ==> szFat < 0x1_0000
    modifies buf
    ensures OtherFields(buf[..], szFat, is32, vsn)
    ensures forall i :: 0 <= i < buf.Length && !(22 <= i < 24) && !(36 <= i < SS) ==> buf[i] == old(buf[i])
  {
    if is32 { PutExt32(buf, szFat, vsn); } else { PutExt16(buf, szFat, vsn); }
  }

  method PutVbr(buf: array<Byte>, p: Params, d: Plan, vsn: Dword)
    requires buf.Length >= SS && p.Valid() && Good(p, d)
    modifies buf
    ensures IsVbr(buf[..SS], p, d, vsn)
    ensures SameOutside(old(buf[..]), buf[..], 0, SS)
  {
    ClearSector(buf);
    PutCommon(buf, p, d);
    ghost var c := buf[..];
    PutOthers(buf, d.szFat, d.ty == FAT32, vsn);
    ghost var e := buf[..];
    PutWord(buf, 510, BS_SIGN);
    VbrFields(c, e, buf[..], p, d, vsn);
  }

  /** `c` has the common fields, `e` the others as well, and `w` the signature too. */
  lemma VbrFields(c: seq<Byte>, e: seq<Byte>, w: seq<Byte>, p: Params, d: Plan, vsn: Dword)
    requires CommonFields(c, p, d) && IsHead(c, p.bVol) && |c| == |e| == |w|
    requires forall i :: 0 <= i < 36 && !(22 <= i < 24) ==> e[i] == c[i]
    requires OtherFields(e, d.szFat, d.ty == FAT32, vsn)
    requires SameOutside(e, w, 510, 512) && w[510] == 0x55 && w[511] == 0xAA
    ensures IsVbr(w[..SS], p, d, vsn)
  {
    CommonKept(c, w[..SS], p, d);
    FieldsKept(e, w[..SS], d.szFat, d.ty == FAT32, vsn);
  }

  lemma CommonKept(a: seq<Byte>, b: seq<Byte>, p: Params, d: Plan)
    requires CommonFields(a, p, d) && IsHead(a, p.bVol) && |a| >= |b| >= SS
    requires forall i :: 0 <= i < 36 && !(22 <= i < 24) ==> a[i] == b[i]
    ensures CommonFields(b, p, d) && IsHead(b, p.bVol)
  {
    assert a[0..11] == b[0..11] && a[24..28] == b[24..28];
  }

  lemma FieldsKept(a: seq<Byte>, b: seq<Byte>, szFat: int, is32: bool, vsn: Dword)
    requires |a| >= |b| >= SS && OtherFields(a, szFat, is32, vsn)
    requires forall i :: 0 <= i < 510 ==> a[i] == b[i]
    ensures OtherFields(b, szFat, is32, vsn)
  {
    var o := if is32 then 64 else 36;
    assert a[40..44] == b[40..44];
    assert a[o + 7..o + 18] == b[o + 7..o + 18] && a[o + 18..o + 26] == b[o + 18..o + 26];
  }

  method PutFsInfo(buf: array<Byte>, n: Dword)
    requires buf.Length >= SS
    modifies buf
    ensures IsNewFsInfo(buf[..SS], n)
    ensures SameOutside(old(buf[..]), buf[..], 0, SS)
  {
    ClearSector(buf);
    PutDword(buf, 0, 0x41615252);
    PutDword(buf, 484, 0x61417272);
    PutDword(buf, 488, n);
    PutDword(buf, 492, 2);
    PutWord(buf, 510, BS_SIGN);
  }

  // ----------------------------------------------------------- filling areas

  /** The first entries of a new FAT, packed. */
  function FatHead(ty: FatType): (h: seq<Byte>)
    ensures |h| <= 12
  {
    match ty
    case FAT12 => [0xF8, 0xFF, 0xFF, 0x00]
    case FAT16 => [0xF8, 0xFF, 0xFF, 0xFF]
    case FAT32 => [0xF8, 0xFF, 0xFF, 0xFF, 0xFF, 0xFF, 0xFF, 0xFF, 0xFF, 0xFF, 0xFF, 0x0F]
  }

  /** `n` bytes: `head`, then zeros. */
  function Headed(head: seq<Byte>, n: nat): (r: seq<Byte>)
    ensures |r| == n && forall i :: 0 <= i < n ==> r[i] == if i < |head| then head[i] else 0
  {
    seq(n, i requires 0 <= i < n => if i < |head| then head[i] else 0)
  }

  /** Writes `nsect` sectors from `sect` on, `head` and then zeros, a buffer at a time.  Only
      the first sector of the buffer is cleared after a write, which is all that is needed. */
  method FillArea(disk: Disk, buf: array<Byte>, szBuf: nat, sect: nat, nsect: nat, ghost head: seq<Byte>)
    returns (res: FResult)
    requires disk.Valid() && disk.sectors < TWO32 && buf != disk.data && 0 < szBuf < TWO32 && buf.Length == szBuf * SS
    requires 0 < nsect && sect + nsect <= disk.sectors
    requires |head| <= SS && buf[..] == Headed(head, szBuf * SS)
    modifies buf, disk.data
    ensures res == OK && buf[..] == Headed([], szBuf * SS)
    ensures disk.data[..] == Overlay(old(disk.data[..]), sect * SS, Headed(head, nsect * SS))
  {
    var done := 0;
    res := OK;
    ghost var h := head;
    ghost var d := disk.data[..];
    while done < nsect
      invariant 0 <= done <= nsect && res == OK && (done > 0 ==> h == []) && (done == 0 ==> h == head)
      invariant buf[..] == Headed(h, szBuf * SS)
      invariant disk.data[..] == Overlay(d, sect * SS, Headed(head, done * SS))
    {
      var n := if nsect - done > szBuf then szBuf else nsect - done;
      ghost var d1 := disk.data[..];
      res := FillChunk(disk, buf, szBuf, sect + done, n, h);
      NextChunk(d, d1, disk.data[..], sect, done, n, head, h);
      h := [];
      done := done + n;
    }
  }

  /** One write of the loop, and the clearing of the buffer. */
  method FillChunk(disk: Disk, buf: array<Byte>, szBuf: nat, sect: nat, n: nat, ghost h: seq<Byte>)
    returns (res: FResult)
    requires disk.Valid() && disk.sectors < TWO32 && buf != disk.data && buf.Length == szBuf * SS
    requires 0 < n <= szBuf && sect + n <= disk.sectors && |h| <= SS && buf[..] == Headed(h, szBuf * SS)
    modifies buf, disk.data
    ensures res == OK && buf[..] == Headed([], szBuf * SS)
    ensures disk.data[..] == Overlay(old(disk.data[..]), sect * SS, Headed(h, n * SS))
  {
    assert buf[..n * SS] == Headed(h, n * SS);
    var r := disk.Write(buf[..n * SS], sect, n);
    res := if r == RES_OK then OK else DISK_ERR;
    ClearSector(buf);
    assert buf[..] == Headed([], szBuf * SS);
  }

  lemma NextChunk(d: seq<Byte>, d1: seq<Byte>, d2: seq<Byte>, sect: nat, done: nat, n: nat, head: seq<Byte>,
                  h: seq<Byte>)
    requires (sect + done + n) * SS <= |d| && |head| <= SS
    requires (done > 0 ==> h == []) && (done == 0 ==> h == head)
    requires d1 == Overlay(d, sect * SS, Headed(head, done * SS))
    requires d2 == Overlay(d1, (sect + done) * SS, Headed(h, n * SS))
    ensures d2 == Overlay(d, sect * SS, Headed(head, (done + n) * SS))
  {
  }

  // -------------------------------------------------------------------- f_mkfs

  /** The sectors `s`, ..., `s + n - 1`. */
  function Slice(d: seq<Byte>, s: nat, n: nat): seq<Byte>
    requires (s + n) * SS <= |d|
  {
    d[s * SS..(s + n) * SS]
  }

  ghost predicate SameSectorsOutside(a: seq<Byte>, b: seq<Byte>, s: nat, n: nat)
  {
    SameOutside(a, b, s * SS, (s + n) * SS)
  }

  lemma SliceKept(a: seq<Byte>, b: seq<Byte>, s: nat, n: nat, lo: nat, m: nat)
    requires SameSectorsOutside(a, b, s, n) && (lo + m) * SS <= |a| && (lo + m <= s || s + n <= lo)
    ensures Slice(b, lo, m) == Slice(a, lo, m)
  {
  }

  /** Where the parts of the new volume lie. */
  function FatBase(p: Params, d: Plan): nat { p.bVol + d.szRsv }
  function RootBase(p: Params, d: Plan): nat { FatBase(p, d) + p.Fats(d.szFat) }
  function RootSize(d: Plan): nat { if d.ty == FAT32 then d.pau else d.szDir }

  ghost predicate OnDisk(p: Params, d: Plan, sectors: nat)
  {
    && p.Valid() && Good(p, d) && p.bVol + p.szVol <= sectors < TWO32
    && RootBase(p, d) + RootSize(d) <= sectors && RootSize(d) > 0
  }

  lemma GoodOnDisk(p: Params, d: Plan, sectors: nat)
    requires p.Valid() && Good(p, d) && p.bVol + p.szVol <= sectors < TWO32
    ensures OnDisk(p, d, sectors)
  {
    if d.ty == FAT32 {
      DivBounds(p.szVol - System(p, d), d.pau, d.nClst);
      MulLe(d.pau, 1, d.nClst);
    }
  }

  ghost predicate BootWritten(d: seq<Byte>, p: Params, plan: Plan, vsn: Dword)
  {
    && (p.bVol + 2) * SS <= |d| && IsVbr(Slice(d, p.bVol, 1), p, plan, vsn)
    && (plan.ty == FAT32 ==>
          && (p.bVol + 8) * SS <= |d| && IsNewFsInfo(Slice(d, p.bVol + 1, 1), plan.nClst - 1)
          && Slice(d, p.bVol + 6, 1) == Slice(d, p.bVol, 1) && Slice(d, p.bVol + 7, 1) == Slice(d, p.bVol + 1, 1))
  }

  ghost predicate FatsWritten(d: seq<Byte>, p: Params, plan: Plan)
  {
    FatsAt(d, FatBase(p, plan), plan.szFat, p.nFat == 2, Headed(FatHead(plan.ty), plan.szFat * SS))
  }

  /** One or two copies of `img`, `n` sectors each, from sector `s` on. */
  ghost predicate FatsAt(d: seq<Byte>, s: nat, n: nat, two: bool, img: seq<Byte>)
  {
    && (s + n + if two then n else 0) * SS <= |d|
    && Slice(d, s, n) == img
    && (two ==> Slice(d, s + n, n) == img)
  }

  ghost predicate RootWritten(d: seq<Byte>, p: Params, plan: Plan)
  {
    && (RootBase(p, plan) + RootSize(plan)) * SS <= |d|
    && Slice(d, RootBase(p, plan), RootSize(plan)) == Headed([], RootSize(plan) * SS)
  }

  method WriteBoot(disk: Disk, buf: array<Byte>, p: Params, plan: Plan, vsn: Dword) returns (res: FResult)
    requires disk.Valid() && OnDisk(p, plan, disk.sectors) && buf.Length >= SS && buf != disk.data
    modifies buf, disk.data
    ensures res == OK && BootWritten(disk.data[..], p, plan, vsn)
    ensures SameSectorsOutside(old(disk.data[..]), disk.data[..], p.bVol, plan.szRsv)
    ensures SameOutside(old(buf[..]), buf[..], 0, SS)
  {
    PutVbr(buf, p, plan, vsn);
    ghost var vbr := buf[..SS];
    res := StoreBoot(disk, buf, p.bVol, plan.szRsv, plan.ty == FAT32, if plan.ty == FAT32 then plan.nClst - 1 else 0);
    BootIs(disk.data[..], p, plan, vsn, vbr, buf[..SS]);
  }

  /** Writes the boot sector that is in the buffer and, on FAT32, its backup and FSInfo. */
  method StoreBoot(disk: Disk, buf: array<Byte>, b: nat, ghost rsv: nat, is32: bool, nFree: Dword)
    returns (res: FResult)
    requires disk.Valid() && b + rsv <= disk.sectors < TWO32 && buf.Length >= SS && buf != disk.data
    requires rsv >= if is32 then 32 else 1
    modifies buf, disk.data
    ensures res == OK && Slice(disk.data[..], b, 1) == old(buf[..SS])
    ensures is32 ==>
              && IsNewFsInfo(buf[..SS], nFree) && Slice(disk.data[..], b + 6, 1) == old(buf[..SS])
              && Slice(disk.data[..], b + 1, 1) == Slice(disk.data[..], b + 7, 1) == buf[..SS]
    ensures SameSectorsOutside(old(disk.data[..]), disk.data[..], b, rsv)
    ensures SameOutside(old(buf[..]), buf[..], 0, SS)
  {
    ghost var d, vbr := disk.data[..], buf[..SS];
    var r := disk.Write(buf[..SS], b, 1);
    res := if r == RES_OK then OK else DISK_ERR;
    BootStored(d, b, vbr);
    if is32 {
      WriteBackups(disk, buf, b, nFree);
      BootStored32(d, b, vbr, buf[..SS]);
    }
  }

  lemma BootIs(d: seq<Byte>, p: Params, plan: Plan, vsn: Dword, vbr: seq<Byte>, fsi: seq<Byte>)
    requires (p.bVol + 2) * SS <= |d| && Slice(d, p.bVol, 1) == vbr && IsVbr(vbr, p, plan, vsn)
    requires plan.ty == FAT32 ==>
               && (p.bVol + 8) * SS <= |d| && IsNewFsInfo(fsi, plan.nClst - 1)
               && Slice(d, p.bVol + 1, 1) == Slice(d, p.bVol + 7, 1) == fsi && Slice(d, p.bVol + 6, 1) == vbr
    ensures BootWritten(d, p, plan, vsn)
  {
  }

  /** The backup of the boot sector in the buffer, and FSInfo with its backup. */
  method WriteBackups(disk: Disk, buf: array<Byte>, b: nat, nFree: Dword)
    requires disk.Valid() && b + 8 <= disk.sectors < TWO32 && buf.Length >= SS && buf != disk.data
    modifies buf, disk.data
    ensures IsNewFsInfo(buf[..SS], nFree)
    ensures disk.data[..] == Overlay(Overlay(Overlay(old(disk.data[..]), (b + 6) * SS, old(buf[..SS])),
                                             (b + 7) * SS, buf[..SS]), (b + 1) * SS, buf[..SS])
    ensures SameOutside(old(buf[..]), buf[..], 0, SS)
  {
    var r := disk.Write(buf[..SS], b + 6, 1);
    PutFsInfo(buf, nFree);
    r := disk.Write(buf[..SS], b + 7, 1);
    r := disk.Write(buf[..SS], b + 1, 1);
  }

  lemma BootStored(d: seq<Byte>, b: nat, vbr: seq<Byte>)
    requires (b + 1) * SS <= |d| && |vbr| == SS
    ensures var r := Overlay(d, b * SS, vbr); Slice(r, b, 1) == vbr && SameSectorsOutside(d, r, b, 1)
  {
  }

  /** The boot sector and FSInfo with their backups. */
  lemma BootStored32(d: seq<Byte>, b: nat, vbr: seq<Byte>, fsi: seq<Byte>)
    requires (b + 8) * SS <= |d| && |vbr| == |fsi| == SS
    ensures var d1 := Overlay(d, b * SS, vbr);
            var d2 := Overlay(d1, (b + 6) * SS, vbr);
            var d3 := Overlay(d2, (b + 7) * SS, fsi);
            var r := Overlay(d3, (b + 1) * SS, fsi);
            && Slice(r, b, 1) == Slice(r, b + 6, 1) == vbr
            && Slice(r, b + 1, 1) == Slice(r, b + 7, 1) == fsi && SameSectorsOutside(d, r, b, 8)
  {
  }

  /** A new FAT at sector `sect`: the buffer, all zeros, gets the head of the FAT first. */
  method WriteFat(disk: Disk, buf: array<Byte>, szBuf: nat, ty: FatType, sect: nat, szFat: nat) returns (res: FResult)
    requires disk.Valid() && disk.sectors < TWO32 && buf != disk.data && 0 < szBuf < TWO32 && buf.Length == szBuf * SS
    requires 0 < szFat && sect + szFat <= disk.sectors && buf[..] == Headed([], szBuf * SS)
    modifies buf, disk.data
    ensures res == OK && buf[..] == Headed([], szBuf * SS)
    ensures disk.data[..] == Overlay(old(disk.data[..]), sect * SS, Headed(FatHead(ty), szFat * SS))
  {
    MemCpy(buf, 0, FatHead(ty));
    assert buf[..] == Headed(FatHead(ty), szBuf * SS);
    res := FillArea(disk, buf, szBuf, sect, szFat, FatHead(ty));
  }

  method WriteFats(disk: Disk, buf: array<Byte>, szBuf: nat, ty: FatType, sect: nat, szFat: nat, two: bool)
    returns (res: FResult)
    requires disk.Valid() && disk.sectors < TWO32 && buf != disk.data && 0 < szBuf < TWO32 && buf.Length == szBuf * SS
    requires 0 < szFat && sect + szFat + (if two then szFat else 0) <= disk.sectors
    modifies buf, disk.data
    ensures res == OK && buf[..] == Headed([], szBuf * SS)
    ensures FatsAt(disk.data[..], sect, szFat, two, Headed(FatHead(ty), szFat * SS))
    ensures SameSectorsOutside(old(disk.data[..]), disk.data[..], sect, szFat + if two then szFat else 0)
  {
    forall i | 0 <= i < buf.Length { buf[i] := 0; }
    assert buf[..] == Headed([], szBuf * SS);
    ghost var d, img := disk.data[..], Headed(FatHead(ty), szFat * SS);
    res := WriteFat(disk, buf, szBuf, ty, sect, szFat);
    ghost var d1 := disk.data[..];
    if two {
      var r := WriteFat(disk, buf, szBuf, ty, sect + szFat, szFat);
      if r != OK { res := r; }
    }
    TwoFats(d, d1, disk.data[..], sect, szFat, two, img);
  }

  lemma TwoFats(d: seq<Byte>, d1: seq<Byte>, d2: seq<Byte>, s: nat, n: nat, two: bool, img: seq<Byte>)
    requires |img| == n * SS && (s + n + if two then n else 0) * SS <= |d|
    requires d1 == Overlay(d, s * SS, img) && d2 == if two then Overlay(d1, (s + n) * SS, img) else d1
    ensures FatsAt(d2, s, n, two, img) && SameSectorsOutside(d, d2, s, n + if two then n else 0)
  {
    assert Slice(d1, s, n) == img;
    if two {
      SliceOut(d1, s * SS, (s + n) * SS, (s + n) * SS, img);
      assert Slice(Overlay(d1, (s + n) * SS, img), s + n, n) == img;
    }
  }

  /** A freshly formatted disk. */
  ghost predicate Formatted(d: seq<Byte>, p: Params, plan: Plan, vsn: Dword)
  {
    && VolumeWritten(d, p, plan, vsn)
    && (p.bVol > 0 ==>
          && IsMbr(Slice(d, 0, 1), [Part(p.bVol, p.szVol)], d[450], p.bVol + p.szVol)
          && d[450] == if plan.ty == FAT32 then 0x0C else if p.szVol >= 65536 then 0x06
                       else if plan.ty == FAT16 then 0x04 else 0x01)
  }

  method WriteVolume(disk: Disk, buf: array<Byte>, szBuf: nat, p: Params, plan: Plan, vsn: Dword) returns (res: FResult)
    requires disk.Valid() && OnDisk(p, plan, disk.sectors) && buf != disk.data
    requires 0 < szBuf < TWO32 && buf.Length == szBuf * SS
    modifies buf, disk.data
    ensures res == OK && VolumeWritten(disk.data[..], p, plan, vsn)
    ensures SameSectorsOutside(old(disk.data[..]), disk.data[..], 0, RootBase(p, plan) + RootSize(plan))
  {
    ghost var d0 := disk.data[..];
    res := WriteBoot(disk, buf, p, plan, vsn);
    ghost var d1 := disk.data[..];
    var r := WriteFats(disk, buf, szBuf, plan.ty, FatBase(p, plan), plan.szFat, p.nFat == 2);
    if r != OK { res := r; }
    ghost var d2 := disk.data[..];
    var sect, nsect := RootBase(p, plan), RootSize(plan);
    RootFilled(d2, sect, nsect);
    r := FillArea(disk, buf, szBuf, sect, nsect, []);
    if r != OK { res := r; }
    VolumeSteps(d0, d1, d2, disk.data[..], p, plan, vsn);
  }

  ghost predicate VolumeWritten(d: seq<Byte>, p: Params, plan: Plan, vsn: Dword)
  {
    BootWritten(d, p, plan, vsn) && FatsWritten(d, p, plan) && RootWritten(d, p, plan)
  }

  lemma RootFilled(d: seq<Byte>, s: nat, n: nat)
    requires (s + n) * SS <= |d|
    ensures var r := Overlay(d, s * SS, Headed([], n * SS));
            Slice(r, s, n) == Headed([], n * SS) && SameSectorsOutside(d, r, s, n)
  {
  }

  /** Boot area, FATs and root directory are written in this order and do not overlap. */
  lemma VolumeSteps(d0: seq<Byte>, d1: seq<Byte>, d2: seq<Byte>, d3: seq<Byte>, p: Params, plan: Plan, vsn: Dword)
    requires Good(p, plan) && BootWritten(d1, p, plan, vsn) && FatsWritten(d2, p, plan) && RootWritten(d3, p, plan)
    requires SameSectorsOutside(d0, d1, p.bVol, plan.szRsv)
    requires SameSectorsOutside(d1, d2, FatBase(p, plan), p.Fats(plan.szFat))
    requires SameSectorsOutside(d2, d3, RootBase(p, plan), RootSize(plan))
    ensures VolumeWritten(d3, p, plan, vsn)
    ensures SameSectorsOutside(d0, d3, 0, RootBase(p, plan) + RootSize(plan))
  {
    BootKept(d1, d2, p, plan, vsn, FatBase(p, plan), p.Fats(plan.szFat));
    BootKept(d2, d3, p, plan, vsn, RootBase(p, plan), RootSize(plan));
    FatsKept(d2, d3, p, plan, RootBase(p, plan), RootSize(plan));
  }

  lemma BootKept(a: seq<Byte>, b: seq<Byte>, p: Params, plan: Plan, vsn: Dword, s: nat, n: nat)
    requires BootWritten(a, p, plan, vsn) && SameSectorsOutside(a, b, s, n)
    requires p.bVol + (if plan.ty == FAT32 then 8 else 1) <= s || s + n <= p.bVol
    ensures BootWritten(b, p, plan, vsn)
  {
    SliceKept(a, b, s, n, p.bVol, 1);
    if plan.ty == FAT32 {
      SliceKept(a, b, s, n, p.bVol + 1, 1);
      SliceKept(a, b, s, n, p.bVol + 6, 1);
      SliceKept(a, b, s, n, p.bVol + 7, 1);
    }
  }

  lemma FatsKept(a: seq<Byte>, b: seq<Byte>, p: Params, plan: Plan, s: nat, n: nat)
    requires FatsWritten(a, p, plan) && SameSectorsOutside(a, b, s, n)
    requires RootBase(p, plan) <= s || s + n <= FatBase(p, plan)
    ensures FatsWritten(b, p, plan)
  {
    SliceKept(a, b, s, n, FatBase(p, plan), plan.szFat);
    if p.nFat == 2 { SliceKept(a, b, s, n, FatBase(p, plan) + plan.szFat, plan.szFat); }
  }

  /** System ID of the partition. */
  function SysId(p: Params, d: Plan): Byte
  {
    if d.ty == FAT32 then 0x0C else if p.szVol >= 0x10000 then 0x06 else if d.ty == FAT16 then 0x04 else 0x01
  }

  /** f_mkfs on a drive that reports erase blocks of `blk` sectors; `vsn` is the serial
      number made from the clock.  The disk is changed only if a layout was found. */
  method FMkfs(disk: Disk, opt: Opts, blk: Dword, buf: array<Byte>, szBuf: nat, vsn: Dword) returns (res: FResult)
    requires disk.Valid() && disk.sectors < TWO32 && buf != disk.data
    requires szBuf < TWO32 && buf.Length == szBuf * SS
    modifies buf, disk.data
    ensures match Decide(opt, disk.sectors, blk, szBuf)
            case Reject(r) => res == r && disk.data[..] == old(disk.data[..])
            case Format(p, plan) =>
              && res == OK && OnDisk(p, plan, disk.sectors) && Formatted(disk.data[..], p, plan, vsn)
              && (p.bVol == 0 <==> opt.Sfd())
              && SameSectorsOutside(old(disk.data[..]), disk.data[..], 0, RootBase(p, plan) + RootSize(plan))
  {
    var p := opt.ParamsFor(disk.sectors, blk);
    if szBuf == 0 { return NOT_ENOUGH_CORE; }
    if p.szVol < 128 { return MKFS_ABORTED; }
    if !opt.Fat() && !opt.Fat32() { return INVALID_PARAMETER; }
    ParamsValid(opt, disk.sectors, blk);
    var fsty := if opt.Fat() then FAT16 else FAT32;
    var o := ChoosePlan(p, fsty, opt.SzAu());
    if o.Abort? { return MKFS_ABORTED; }
    ChosenIsGood(p, fsty, opt.SzAu());
    GoodOnDisk(p, o.plan, disk.sectors);
    res := WriteVolume(disk, buf, szBuf, p, o.plan, vsn);
    if !opt.Sfd() {
      var r := WriteMbr(disk, buf, p, o.plan, vsn);
      if r != OK { res := r; }
    }
  }

  /** The partition table of a drive that holds just this volume. */
  method WriteMbr(disk: Disk, buf: array<Byte>, p: Params, plan: Plan, ghost vsn: Dword) returns (res: FResult)
    requires disk.Valid() && OnDisk(p, plan, disk.sectors) && buf.Length >= SS && buf != disk.data
    requires p.bVol == N_SEC_TRACK && p.bVol + p.szVol == disk.sectors
    requires VolumeWritten(disk.data[..], p, plan, vsn)
    modifies buf, disk.data
    ensures res == OK && Formatted(disk.data[..], p, plan, vsn)
    ensures SameSectorsOutside(old(disk.data[..]), disk.data[..], 0, 1)
  {
    ghost var d := disk.data[..];
    ghost var ps;
    res, ps := CreatePartition(disk, [p.szVol, 0], SysId(p, plan), buf);
    OnePartition(p.szVol, ps, disk.sectors);
    MbrWritten(d, disk.data[..], buf[..SS], p, plan, vsn);
  }

  lemma MbrWritten(a: seq<Byte>, b: seq<Byte>, w: seq<Byte>, p: Params, plan: Plan, vsn: Dword)
    requires VolumeWritten(a, p, plan, vsn) && |a| >= SS && |w| == SS && b == Overlay(a, 0, w) && p.bVol >= 1
    requires IsMbr(w, [Part(p.bVol, p.szVol)], SysId(p, plan), p.bVol + p.szVol)
    ensures Formatted(b, p, plan, vsn) && SameSectorsOutside(a, b, 0, 1)
  {
    var ps := [Part(p.bVol, p.szVol)];
    assert Slice(b, 0, 1) == w;
    assert Listed(w, 0, ps[0], SysId(p, plan));
    assert b[450] == w[450];
    VolumeKept(a, b, p, plan, vsn);
  }

  /** A volume behind the first sector does not mind its being written. */
  lemma VolumeKept(a: seq<Byte>, b: seq<Byte>, p: Params, plan: Plan, vsn: Dword)
    requires VolumeWritten(a, p, plan, vsn) && SameSectorsOutside(a, b, 0, 1) && p.bVol >= 1
    ensures VolumeWritten(b, p, plan, vsn)
  {
    BootKept(a, b, p, plan, vsn, 0, 1);
    FatsKept(a, b, p, plan, 0, 1);
    SliceKept(a, b, 0, 1, RootBase(p, plan), RootSize(plan));
  }

  lemma OnePartition(n: Dword, ps: seq<Part>, drv: Dword)
    requires 100 < n && N_SEC_TRACK + n == drv && Consecutive([n, 0], ps, drv)
    ensures ps == [Part(N_SEC_TRACK, n)]
  {
    assert PartSize(n, N_SEC_TRACK, drv) == n;
    assert |ps| >= 1 ==> FollowsAt([n, 0], ps, drv, 0);
    assert |ps| >= 2 ==> FollowsAt([n, 0], ps, drv, 1);
  }
}
