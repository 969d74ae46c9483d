/** Choosing the layout of a new FAT volume: the sizing loop of f_mkfs. */
module MkfsPlan {
  import opened Bytes
  import opened Layout

  /** Cluster size boundaries, in units of 4K and of 128K sectors. */
  const CST: seq<nat> := [1, 4, 16, 64, 256, 512, 0]
  const CST32: seq<nat> := [1, 2, 4, 8, 16, 32, 0]

  /** Where and from what the volume is made. */
  datatype Params = Params(bVol: nat, szVol: nat, nFat: nat, nRoot: nat, szBlk: nat, fat32: bool)
  {
    predicate Valid()
    {
      && 128 <= szVol && bVol <= 63 && bVol + szVol < TWO32
      && 1 <= nFat <= 2
      && 16 <= nRoot <= 32768 && nRoot % 16 == 0
      && szBlk <= 0x8000 && IsPow2(szBlk)
    }

    /** The volume in clusters of `pau` sectors. */
    function Units(pau: nat): nat
      requires pau > 0
    {
      szVol / pau
    }

    /** Sectors of all FATs of size `fat`. */
    function Fats(fat: nat): nat { if nFat == 2 then fat + fat else fat }

    /** `n` divided among the FATs, and what is left over. */
    function PerFat(n: nat): nat { if nFat == 2 then n / 2 else n }
    function Odd(n: nat): nat { if nFat == 2 then n % 2 else 0 }
  }

  datatype Plan = Plan(ty: FatType, pau: nat, szRsv: nat, szFat: nat, szDir: nat, nClst: nat)

  // ------------------------------------------------------------------ one pass

  /** A table of ascending boundaries, ended by 0. */
  ghost predicate IsTable(t: seq<nat>)
  {
    && t != [] && t[|t| - 1] == 0 && (forall i :: 0 <= i < |t| - 1 ==> t[i] > 0)
    && forall i, j :: 0 <= i < j < |t| - 1 ==> t[i] < t[j]
  }

  /** The boundaries that `n` has reached. */
  ghost function Reached(t: seq<nat>, n: nat): set<int>
  {
    set i | 0 <= i < |t| && 0 < t[i] <= n
  }

  function Exp2(k: nat): nat { if k == 0 then 1 else 2 * Exp2(k - 1) }

  /** Automatic cluster size: doubled for every boundary reached. */
  ghost function AutoAu(t: seq<nat>, n: nat): nat { Exp2(|Reached(t, n)|) }

  /** The loop over the table stops at the first boundary that is not reached. */
  method SelectAu(t: seq<nat>, n: nat) returns (pau: nat)
    requires IsTable(t)
    ensures pau == AutoAu(t, n)
  {
    var i := 0;
    pau := 1;
    while t[i] != 0 && t[i] <= n
      invariant 0 <= i < |t| && pau == Exp2(i) && forall j :: 0 <= j < i ==> 0 < t[j] <= n
      decreases |t| - i
    {
      i, pau := i + 1, pau * 2;
    }
    ReachedIsPrefix(t, n, i);
  }

  lemma ReachedIsPrefix(t: seq<nat>, n: nat, k: nat)
    requires IsTable(t) && k < |t| && (forall j :: 0 <= j < k ==> 0 < t[j] <= n) && (t[k] == 0 || t[k] > n)
    ensures |Reached(t, n)| == k
  {
    forall i | i in Reached(t, n) ensures i in FirstN(k) {
      if i > k { assert k < |t| - 1 && i < |t| - 1 ==> t[k] < t[i]; }
    }
    assert Reached(t, n) == FirstN(k);
    FirstNCard(k);
  }

  ghost function FirstN(k: nat): (r: set<int>)
    ensures forall i :: i in r <==> 0 <= i < k
  {
    if k == 0 then {} else FirstN(k - 1) + {k - 1}
  }

  lemma {:induction false} FirstNCard(k: nat)
    ensures |FirstN(k)| == k
  {
    if k > 0 { FirstNCard(k - 1); }
  }

  /** Bytes of FAT the formatter asks for, by an upper bound on the number of clusters. */
  function WantedBytes(ty: FatType, n: nat): nat
  {
    match ty
    case FAT12 => (n * 3 + 1) / 2 + 3
    case FAT16 => n * 2 + 4
    case FAT32 => n * 4 + 8
  }

  function FatSectors(ty: FatType, n: nat): nat { Wrap32(WantedBytes(ty, n) + SS - 1) / SS }

  function BaseRsv(ty: FatType): nat { if ty == FAT32 then 32 else 1 }
  function DirSectors(p: Params, ty: FatType): nat { if ty == FAT32 then 0 else p.nRoot * SZDIRE / SS }

  /** System area before it is aligned. */
  function BaseSystem(p: Params, ty: FatType, fat: nat): nat
  {
    BaseRsv(ty) + p.Fats(fat) + DirSectors(p, ty)
  }

  /** Sectors from `x` to the next erase block boundary. */
  function Gap(x: nat, blk: nat): (n: nat)
    requires IsPow2(blk)
    ensures n < blk
  {
    MaskIsMod(x + blk - 1, blk);
    x + blk - 1 - BitAnd(x + blk - 1, blk - 1) - x
  }

  /** The data area of a draft starts on an erase block boundary. */
  lemma DataIsAligned(p: Params, ty: FatType, pau: nat)
    requires IsPow2(p.szBlk) && pau > 0
    ensures (p.bVol + System(p, Draft(p, ty, pau))) % p.szBlk == 0
  {
    var fat := FatSectors(ty, p.Units(pau));
    var x := p.bVol + BaseSystem(p, ty, fat);
    AlignedSystem(p, ty, pau, fat, Gap(x, p.szBlk));
    var y := x + p.szBlk - 1;
    MaskIsMod(y, p.szBlk);
    DownToMultiple(y, p.szBlk);
  }

  lemma DownToMultiple(y: nat, b: nat)
    requires b > 0
    ensures (y - y % b) % b == 0
  {
    DivModUnique(y - y % b, b, y / b, 0);
  }

  /** The layout for cluster size `pau`.  Aligning moves the FAT on FAT32 and enlarges it
      otherwise; the number of clusters is computed in 32 bits. */
  function Draft(p: Params, ty: FatType, pau: nat): Plan
    requires IsPow2(p.szBlk) && pau > 0
  {
    var fat := FatSectors(ty, p.Units(pau));
    var n := Gap(p.bVol + BaseSystem(p, ty, fat), p.szBlk);
    Aligned(p, ty, pau, fat, n)
  }

  function Aligned(p: Params, ty: FatType, pau: nat, fat: nat, n: nat): Plan
    requires pau > 0
  {
    var rsv := BaseRsv(ty) + if ty == FAT32 then n else p.Odd(n);
    var fat' := fat + if ty == FAT32 then 0 else p.PerFat(n);
    Plan(ty, pau, rsv, fat', DirSectors(p, ty), Wrap32(p.szVol - rsv - p.Fats(fat') - DirSectors(p, ty)) / pau)
  }

  datatype Outcome = Done(plan: Plan) | Retry(fsty: FatType, szAu: nat) | Abort

  /** One pass of the loop, for type `fsty` and requested cluster size `szAu` (0: any). */
  ghost function Pass(p: Params, fsty: FatType, szAu: nat): Outcome
    requires p.Valid()
  {
    PassWith(p, fsty, szAu, PassAu(p, fsty, szAu))
  }

  /** ... and cluster size `pau`. */
  function PassWith(p: Params, fsty: FatType, szAu: nat, pau: nat): Outcome
    requires p.Valid()
  {
    if pau == 0 then Abort else
    var n := p.Units(pau);
    if fsty == FAT32 && (n <= MAX_FAT16 || n > MAX_FAT32) then Abort else
    var ty := if fsty != FAT32 && n <= MAX_FAT12 then FAT12 else fsty;
    if p.szVol < BaseSystem(p, ty, FatSectors(ty, n)) + pau * 16 then Abort
    else Judge(p, Draft(p, ty, pau), szAu)
  }

  ghost function PassAu(p: Params, fsty: FatType, szAu: nat): nat
  {
    if szAu != 0 then szAu
    else if fsty == FAT32 then AutoAu(CST32, p.szVol / 0x20000) else AutoAu(CST, p.szVol / 0x1000)
  }

  /** Whether the number of clusters suits the type, and what to try instead. */
  function Judge(p: Params, d: Plan, szAu: nat): Outcome
  {
    match d.ty
    case FAT32 =>
      if d.nClst > MAX_FAT16 then Done(d)
      else if szAu == 0 && d.pau / 2 != 0 then Retry(FAT32, d.pau / 2) else Abort
    case FAT16 =>
      if d.nClst > MAX_FAT16 then
        if szAu == 0 && d.pau * 2 <= 64 then Retry(FAT16, d.pau * 2)
        else if p.fat32 then Retry(FAT32, szAu)
        else if szAu == 0 && d.pau * 2 <= 128 then Retry(FAT16, d.pau * 2)
        else Abort
      else if d.nClst <= MAX_FAT12 then
        if szAu == 0 && d.pau * 2 <= 128 then Retry(FAT16, d.pau * 2) else Abort
      else Done(d)
    case FAT12 =>
      if d.nClst > MAX_FAT12 then Abort else Done(d)
  }

  // ------------------------------------------------------------------ the loop

  /** Every retry fixes the cluster size or gives up FAT16 for good. */
  function Tries(fsty: FatType, szAu: nat): nat
  {
    (if szAu == 0 then 2 else 0) + if fsty == FAT16 then 1 else 0
  }

  ghost function Choose(p: Params, fsty: FatType, szAu: nat): Outcome
    requires p.Valid()
    decreases Tries(fsty, szAu)
  {
    match Pass(p, fsty, szAu)
    case Retry(fsty', szAu') => Choose(p, fsty', szAu')
    case o => o
  }

  method PickAu(p: Params, fsty: FatType, szAu: nat) returns (pau: nat)
    ensures pau == PassAu(p, fsty, szAu)
  {
    pau := szAu;
    if pau == 0 {
      if fsty == FAT32 { pau := SelectAu(CST32, p.szVol / 0x20000); } else { pau := SelectAu(CST, p.szVol / 0x1000); }
    }
  }

  /** The sizing loop of f_mkfs. */
  method ChoosePlan(p: Params, fsty0: FatType, szAu0: nat) returns (o: Outcome)
    requires p.Valid()
    ensures o == Choose(p, fsty0, szAu0) && !o.Retry?
  {
    var fsty, szAu := fsty0, szAu0;
    while true
      invariant Choose(p, fsty, szAu) == Choose(p, fsty0, szAu0)
      decreases Tries(fsty, szAu)
    {
      var pau := PickAu(p, fsty, szAu);
      o := PassWith(p, fsty, szAu, pau);
      if !o.Retry? { return; }
      fsty, szAu := o.fsty, o.szAu;
    }
  }

  // ------------------------------------------------------- what is chosen is good

  /** Cluster sizes the loop works with. */
  predicate ProperAu(au: nat) { au == 0 || (au <= 128 && IsPow2(au)) }

  /** Sectors in front of the data area. */
  function System(p: Params, d: Plan): nat { d.szRsv + p.Fats(d.szFat) + d.szDir }

  /** A layout that mount_volume will agree with, if it has a cluster at all. */
  ghost predicate Good(p: Params, d: Plan)
  {
    && 1 <= d.pau <= 128 && IsPow2(d.pau)
    && BaseRsv(d.ty) <= d.szRsv < 0x10000
    && d.szFat > 0 && (d.ty != FAT32 ==> d.szFat < 0x10000)
    && d.szDir == (if d.ty == FAT32 then 0 else p.nRoot / 16)
    && System(p, d) <= p.szVol && d.nClst == (p.szVol - System(p, d)) / d.pau
    && FatBytes(d.ty, d.nClst + 2) <= d.szFat * SS
    && match d.ty
       case FAT12 => d.nClst <= MAX_FAT12
       case FAT16 => MAX_FAT12 < d.nClst <= MAX_FAT16
       case FAT32 => MAX_FAT16 < d.nClst <= MAX_FAT32
  }

  lemma {:induction false} Exp2IsPow2(k: nat)
    ensures IsPow2(Exp2(k))
  {
    if k > 0 {
      Exp2IsPow2(k - 1);
      Pow2Twice(Exp2(k - 1));
    }
  }

  lemma {:induction false} Exp2Mono(j: nat, k: nat)
    requires j <= k
    ensures Exp2(j) <= Exp2(k)
  {
    if j < k { Exp2Mono(j, k - 1); }
  }

  lemma AutoIsPow2(t: seq<nat>, n: nat)
    requires IsTable(t)
    ensures IsPow2(AutoAu(t, n)) && AutoAu(t, n) <= Exp2(|t| - 1)
  {
    Exp2IsPow2(|Reached(t, n)|);
    ReachedBound(t, n);
    Exp2Mono(|Reached(t, n)|, |t| - 1);
  }

  lemma ReachedBound(t: seq<nat>, n: nat)
    requires IsTable(t)
    ensures |Reached(t, n)| <= |t| - 1
  {
    FirstNCard(|t| - 1);
    CardMono(Reached(t, n), FirstN(|t| - 1));
  }

  lemma CardMono(a: set<int>, b: set<int>)
    requires a <= b
    ensures |a| <= |b|
  {
    assert b == a + (b - a);
  }

  lemma AuIsProper(p: Params, fsty: FatType, szAu: nat)
    requires ProperAu(szAu)
    ensures var pau := PassAu(p, fsty, szAu); 1 <= pau <= 128 && IsPow2(pau) && (szAu == 0 ==> pau <= 64)
  {
    AutoIsPow2(CST, p.szVol / 0x1000);
    AutoIsPow2(CST32, p.szVol / 0x20000);
    assert Exp2(6) == 64;
  }

  /** Aligning adds the gap to the system area, and nothing else. */
  lemma AlignedSystem(p: Params, ty: FatType, pau: nat, fat: nat, n: nat)
    requires pau > 0
    ensures System(p, Aligned(p, ty, pau, fat, n)) == BaseSystem(p, ty, fat) + n
  {
  }

  lemma FatSectorsBound(ty: FatType, n: nat)
    ensures FatSectors(ty, n) < 0x80_0000
  {
    Wrap32Bound(WantedBytes(ty, n) + SS - 1);
  }

  lemma Wrap32Bound(x: int)
    ensures Wrap32(x) < TWO32
  {
  }

  lemma WantedCovers(ty: FatType, m: nat, n: nat)
    requires m <= n
    ensures FatBytes(ty, m + 2) <= WantedBytes(ty, n)
  {
  }

  lemma CeilCovers(b: nat)
    requires b + SS <= TWO32
    ensures b <= Wrap32(b + SS - 1) / SS * SS
    ensures Wrap32(b + SS - 1) / SS <= b / SS + 1
  {
    Wrap32Id(b + SS - 1);
  }

  /** The FAT drafted for `n` clusters holds `m <= n`, if its size did not wrap. */
  lemma FatCovers(ty: FatType, m: nat, n: nat)
    requires m <= n && WantedBytes(ty, n) + SS <= TWO32
    ensures FatBytes(ty, m + 2) <= FatSectors(ty, n) * SS && FatSectors(ty, n) <= WantedBytes(ty, n) / SS + 1
  {
    WantedCovers(ty, m, n);
    CeilCovers(WantedBytes(ty, n));
  }

  /** A difference that wrapped gives far too many clusters for FAT12/16. */
  lemma NoUnderflow(vol: nat, sys: nat, pau: nat)
    requires vol < TWO32 && sys < 0x200_0000 && 1 <= pau <= 128
    requires Wrap32(vol - sys) / pau <= MAX_FAT16
    ensures sys <= vol < sys + 0x80_0000 && Wrap32(vol - sys) == vol - sys
  {
    QuotientRange(Wrap32(vol - sys), pau);
  }

  lemma QuotientRange(x: nat, pau: nat)
    requires 1 <= pau <= 128 && x / pau <= MAX_FAT16
    ensures x < 0x80_0000
  {
    var q := x / pau;
    DivBounds(x, pau, q);
    MulLe(q + 1, pau, 128);
  }

  /** FAT12/16: a number of clusters in range rules out every wrap-around on the way. */
  lemma FatIsSmall(p: Params, d: Plan, fat: nat, n: nat)
    requires p.Valid() && d.ty != FAT32 && 1 <= d.pau <= 128
    requires fat < 0x80_0000 && n < 0x8000 && d == Aligned(p, d.ty, d.pau, fat, n)
    requires d.nClst <= MAX_FAT16
    ensures System(p, d) <= p.szVol < System(p, d) + 0x80_0000 && d.nClst == (p.szVol - System(p, d)) / d.pau
  {
    AlignedSystem(p, d.ty, d.pau, fat, n);
    assert p.szVol - d.szRsv - p.Fats(d.szFat) - d.szDir == p.szVol - System(p, d);
    NoUnderflow(p.szVol, System(p, d), d.pau);
  }

  /** ... and keeps the FAT size in 16 bits. */
  lemma FatFits16(p: Params, d: Plan, fat: nat, n: nat)
    requires p.Valid() && d.ty != FAT32 && 1 <= d.pau <= 128
    requires fat == FatSectors(d.ty, p.Units(d.pau)) && n < 0x8000 && d == Aligned(p, d.ty, d.pau, fat, n)
    requires d.nClst <= MAX_FAT16
    ensures d.szFat < 0x10000 && FatBytes(d.ty, d.nClst + 2) <= d.szFat * SS
  {
    var n0, sys := p.Units(d.pau), System(p, d);
    FatSectorsBound(d.ty, n0);
    FatIsSmall(p, d, fat, n);
    AlignedSystem(p, d.ty, d.pau, fat, n);
    QuotientMono(p.szVol - sys, sys, d.pau);
    FatCovers(d.ty, d.nClst, n0);
    assert sys <= 2 * fat + 0x9000;
    assert fat <= (2 * n0 + 4) / SS + 1;
    assert n0 <= MAX_FAT16 + sys + 1;
  }

  lemma QuotientMono(x: nat, y: nat, pau: nat)
    requires pau > 0
    ensures x / pau <= (x + y) / pau <= x / pau + y + 1
  {
    var q, r := x / pau, (x + y) / pau;
    DivBounds(x, pau, q);
    DivBounds(x + y, pau, r);
    if r < q { MulLe(pau, r + 1, q); }
    if r > q + y + 1 {
      MulLe(pau, q + 1 + (y + 1), r);
      MulSum(pau, q + 1, y + 1);
    }
  }

  lemma MulSum(b: nat, p: nat, q: nat)
    requires b > 0
    ensures b * (p + q) >= b * p + q
  {
    MulLe(q, 1, b);
  }

  /** FAT32: enough clusters before alignment leave room for the system area. */
  lemma Fat32HasRoom(p: Params, d: Plan, fat: nat, n: nat)
    requires p.Valid() && d.ty == FAT32 && 1 <= d.pau <= 128 && MAX_FAT16 < p.Units(d.pau) <= MAX_FAT32
    requires fat == FatSectors(FAT32, p.Units(d.pau)) && n < 0x8000 && d == Aligned(p, FAT32, d.pau, fat, n)
    ensures System(p, d) <= p.szVol && d.nClst == (p.szVol - System(p, d)) / d.pau
    ensures d.nClst <= MAX_FAT32 && FatBytes(FAT32, d.nClst + 2) <= d.szFat * SS
  {
    var n0, sys := p.Units(d.pau), System(p, d);
    AlignedSystem(p, FAT32, d.pau, fat, n);
    FatCovers(FAT32, n0, n0);
    DivBounds(p.szVol, d.pau, n0);
    MulLe(n0, 1, d.pau);
    assert sys <= p.szVol;
    Wrap32Id(p.szVol - sys);
    QuotientMono(p.szVol - sys, sys, d.pau);
    FatCovers(FAT32, d.nClst, n0);
  }

  /** What one pass settles on is good. */
  lemma DraftIsGood(p: Params, ty: FatType, pau: nat, szAu: nat)
    requires p.Valid() && 1 <= pau <= 128 && IsPow2(pau)
    requires ty == FAT32 ==> MAX_FAT16 < p.Units(pau) <= MAX_FAT32
    requires var d := Draft(p, ty, pau); Judge(p, d, szAu) == Done(d)
    ensures Good(p, Draft(p, ty, pau))
  {
    var fat := FatSectors(ty, p.Units(pau));
    var n := Gap(p.bVol + BaseSystem(p, ty, fat), p.szBlk);
    AlignedIsGood(p, Draft(p, ty, pau), szAu, fat, n);
  }

  lemma AlignedIsGood(p: Params, d: Plan, szAu: nat, fat: nat, n: nat)
    requires p.Valid() && 1 <= d.pau <= 128 && IsPow2(d.pau)
    requires d.ty == FAT32 ==> MAX_FAT16 < p.Units(d.pau) <= MAX_FAT32
    requires fat == FatSectors(d.ty, p.Units(d.pau)) && n < 0x8000 && d == Aligned(p, d.ty, d.pau, fat, n)
    requires Judge(p, d, szAu) == Done(d)
    ensures Good(p, d)
  {
    if d.ty == FAT32 {
      Fat32HasRoom(p, d, fat, n);
    } else {
      FatSectorsBound(d.ty, p.Units(d.pau));
      FatIsSmall(p, d, fat, n);
      FatFits16(p, d, fat, n);
    }
  }

  /** One pass keeps the loop's invariant; a requested cluster size is kept. */
  lemma PassIsGood(p: Params, fsty: FatType, szAu: nat)
    requires p.Valid() && ProperAu(szAu) && fsty != FAT12
    ensures match Pass(p, fsty, szAu)
            case Done(d) => Good(p, d) && (szAu != 0 ==> d.pau == szAu) && (d.ty == FAT32 <==> fsty == FAT32)
            case Retry(fsty', szAu') =>
              ProperAu(szAu') && fsty' != FAT12 && (szAu != 0 ==> szAu' == szAu)
              && (fsty' != fsty ==> fsty' == FAT32 && p.fat32)
            case Abort => true
  {
    AuIsProper(p, fsty, szAu);
    var o, pau := Pass(p, fsty, szAu), PassAu(p, fsty, szAu);
    if o.Done? {
      DraftIsGood(p, o.plan.ty, pau, szAu);
    } else if o.Retry? {
      Pow2Twice(pau);
    }
  }

  /** Whatever the loop settles on is a layout mount_volume agrees with, of a type that was
      allowed, with the cluster size that was asked for. */
  lemma {:induction false} ChosenIsGood(p: Params, fsty: FatType, szAu: nat)
    requires p.Valid() && ProperAu(szAu) && fsty != FAT12
    ensures match Choose(p, fsty, szAu)
            case Done(d) => Good(p, d) && (szAu != 0 ==> d.pau == szAu)
              && (if fsty == FAT32 then d.ty == FAT32 else d.ty == FAT32 ==> p.fat32)
            case o => o == Abort
    decreases Tries(fsty, szAu)
  {
    PassIsGood(p, fsty, szAu);
    var o := Pass(p, fsty, szAu);
    if o.Retry? { ChosenIsGood(p, o.fsty, o.szAu); }
  }

  // ---------------------------------------------------- is there a cluster at all

  /** The gap that aligning leaves in front of the data area. */
  function GapOf(p: Params, ty: FatType, pau: nat): nat
    requires IsPow2(p.szBlk) && pau > 0
  {
    Gap(p.bVol + UnalignedSystem(p, ty, pau), p.szBlk)
  }

  function UnalignedSystem(p: Params, ty: FatType, pau: nat): nat
    requires pau > 0
  {
    BaseSystem(p, ty, FatSectors(ty, p.Units(pau)))
  }

  /** A plan has a cluster exactly if one fits behind the unaligned system area and the gap;
      with erase blocks of up to 16 sectors, it always does. */
  ghost predicate HasRoom(p: Params, d: Plan)
  {
    && IsPow2(p.szBlk) && d.pau > 0
    && (d.nClst >= 1 <==> p.szVol >= UnalignedSystem(p, d.ty, d.pau) + GapOf(p, d.ty, d.pau) + d.pau)
    && (p.szBlk <= 16 ==> d.nClst >= 1)
  }

  lemma PassHasRoom(p: Params, fsty: FatType, szAu: nat)
    requires p.Valid() && ProperAu(szAu) && fsty != FAT12 && Pass(p, fsty, szAu).Done?
    ensures HasRoom(p, Pass(p, fsty, szAu).plan)
  {
    AuIsProper(p, fsty, szAu);
    PassIsGood(p, fsty, szAu);
    var d := Pass(p, fsty, szAu).plan;
    DraftHasRoom(p, d.ty, d.pau);
  }

  lemma DraftHasRoom(p: Params, ty: FatType, pau: nat)
    requires p.Valid() && pau > 0 && Good(p, Draft(p, ty, pau)) && p.szVol >= UnalignedSystem(p, ty, pau) + pau * 16
    ensures HasRoom(p, Draft(p, ty, pau))
  {
    var d := Draft(p, ty, pau);
    AlignedSystem(p, ty, pau, FatSectors(ty, p.Units(pau)), GapOf(p, ty, pau));
    RoomForOne(p.szVol, System(p, d), pau, d.nClst);
  }

  lemma RoomForOne(vol: nat, sys: nat, pau: nat, n: nat)
    requires pau > 0 && sys <= vol && n == (vol - sys) / pau
    ensures n >= 1 <==> vol >= sys + pau
  {
    DivBounds(vol - sys, pau, n);
    if n >= 1 { MulLe(pau, 1, n); }
  }

  /** The same for whatever the loop settles on. */
  lemma {:induction false} ChosenHasRoom(p: Params, fsty: FatType, szAu: nat)
    requires p.Valid() && ProperAu(szAu) && fsty != FAT12 && Choose(p, fsty, szAu).Done?
    ensures HasRoom(p, Choose(p, fsty, szAu).plan)
    decreases Tries(fsty, szAu)
  {
    PassIsGood(p, fsty, szAu);
    var o := Pass(p, fsty, szAu);
    if o.Retry? { ChosenHasRoom(p, o.fsty, o.szAu); } else { PassHasRoom(p, fsty, szAu); }
  }
}
