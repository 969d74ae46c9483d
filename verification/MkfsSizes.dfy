/** Which requests f_mkfs can meet, from the request alone: for every volume size and every
    option, whether there is a layout, of which type and cluster size, and with what numbers.
    Nothing here is said in terms of the sizing loop. */
module MkfsSizes {
  import opened Bytes
  import opened Layout
  import opened MkfsPlan

  // -------------------------------------------------------------- closed forms

  /** Sectors of one FAT for `n` clusters, as it is first laid out. */
  ghost function FatSize(ty: FatType, n: nat): nat
  {
    match ty
    case FAT12 => ((n * 3 + 1) / 2 + 3 + 511) / 512
    case FAT16 => (n * 2 + 4 + 511) / 512
    case FAT32 => (n * 4 + 8 + 511) / 512
  }

  /** Reserved sectors, FATs and root directory, for clusters of `a` sectors. */
  ghost function Base(p: Params, ty: FatType, a: nat): nat
    requires a > 0
  {
    var fat := FatSize(ty, p.szVol / a);
    (if ty == FAT32 then 32 else 1 + p.nRoot / 16) + if p.nFat == 2 then 2 * fat else fat
  }

  /** From the end of that to the next erase block. */
  ghost function ToBlock(p: Params, ty: FatType, a: nat): nat
    requires a > 0 && p.szBlk > 0
  {
    Missing(p.bVol + Base(p, ty, a), p.szBlk)
  }

  /** What is missing from `x` to a multiple of `b`. */
  ghost function Missing(x: nat, b: nat): nat
    requires b > 0
  {
    if x % b == 0 then 0 else b - x % b
  }

  /** Sectors in front of the data area. */
  ghost function Needed(p: Params, ty: FatType, a: nat): nat
    requires a > 0 && p.szBlk > 0
  {
    Base(p, ty, a) + ToBlock(p, ty, a)
  }

  /** A volume of type `ty` with clusters of `a` sectors can be made. */
  ghost predicate Possible(p: Params, ty: FatType, a: nat)
    requires a > 0 && p.szBlk > 0
  {
    var n := p.szVol / a;
    match ty
    case FAT12 => n <= 4085 && Base(p, FAT12, a) + 16 * a <= p.szVol && Needed(p, FAT12, a) <= p.szVol
    case FAT16 => n > 4085 && 4086 * a + Needed(p, FAT16, a) <= p.szVol < 65526 * a + Needed(p, FAT16, a)
    case FAT32 => 65525 < n <= 0x0FFF_FFF5 && 65526 * a + Needed(p, FAT32, a) <= p.szVol
  }

  lemma DivNat(x: nat, a: nat)
    requires a > 0
    ensures x / a >= 0
  {
  }

  /** Its layout.  Aligning moves the FATs on FAT32 and enlarges them otherwise. */
  ghost function PlanFor(p: Params, ty: FatType, a: nat): Plan
    requires a > 0 && p.szBlk > 0 && Needed(p, ty, a) <= p.szVol
  {
    DivNat(p.szVol, a);
    var fat, gap := FatSize(ty, p.szVol / a), ToBlock(p, ty, a);
    DivNat(p.szVol - Needed(p, ty, a), a);
    var n := (p.szVol - Needed(p, ty, a)) / a;
    if ty == FAT32 then Plan(FAT32, a, 32 + gap, fat, 0, n)
    else if p.nFat == 2 then Plan(ty, a, 1 + gap % 2, fat + gap / 2, p.nRoot / 16, n)
    else Plan(ty, a, 1, fat + gap, p.nRoot / 16, n)
  }

  /** Automatic cluster sizes: by volume size, for FAT12/16 and for FAT32. */
  ghost function Au16(vol: nat): nat
  {
    if vol < 0x1000 then 1 else if vol < 0x4000 then 2 else if vol < 0x1_0000 then 4 else if vol < 0x4_0000 then 8
    else if vol < 0x10_0000 then 16 else if vol < 0x20_0000 then 32 else 64
  }

  ghost function Au32(vol: nat): nat
  {
    if vol < 0x2_0000 then 1 else if vol < 0x4_0000 then 2 else if vol < 0x8_0000 then 4 else if vol < 0x10_0000 then 8
    else if vol < 0x20_0000 then 16 else if vol < 0x40_0000 then 32 else 64
  }

  lemma AutoIs(vol: nat)
    ensures AutoAu(CST, vol / 0x1000) == Au16(vol) && AutoAu(CST32, vol / 0x20000) == Au32(vol)
  {
    var n, m := vol / 0x1000, vol / 0x20000;
    ReachedIsPrefix(CST, n, if n < 1 then 0 else if n < 4 then 1 else if n < 16 then 2 else if n < 64 then 3
                            else if n < 256 then 4 else if n < 512 then 5 else 6);
    ReachedIsPrefix(CST32, m, if m < 1 then 0 else if m < 2 then 1 else if m < 4 then 2 else if m < 8 then 3
                              else if m < 16 then 4 else if m < 32 then 5 else 6);
    Powers();
  }

  lemma Powers()
    ensures Exp2(0) == 1 && Exp2(1) == 2 && Exp2(2) == 4 && Exp2(3) == 8
    ensures Exp2(4) == 16 && Exp2(5) == 32 && Exp2(6) == 64
  {
  }

  // ------------------------------------------------------- drafts in closed form

  lemma GapIs(x: nat, b: nat)
    requires IsPow2(b) && b > 0
    ensures Gap(x, b) == Missing(x, b)
  {
    var y, r := x + b - 1, x % b;
    MaskIsMod(y, b);
    RoundUp(x, b, r);
  }

  lemma RoundUp(x: nat, b: nat, r: nat)
    requires b > 0 && r == x % b
    ensures (x + b - 1) % b == if r == 0 then b - 1 else r - 1
  {
    var q := x / b;
    NextMultiple(q, b);
    if r == 0 { DivModUnique(x + b - 1, b, q, b - 1); } else { DivModUnique(x + b - 1, b, q + 1, r - 1); }
  }

  lemma NextMultiple(q: int, b: nat)
    ensures (q + 1) * b == q * b + b
  {
  }

  /** Small enough for the FAT size to be computed without wrap-around. */
  ghost predicate Narrow(ty: FatType, n: nat)
  {
    match ty
    case FAT12 => n <= 4085
    case FAT16 => n <= 0x1000_0000
    case FAT32 => n <= 0x0FFF_FFF5
  }

  lemma FatSizeIs(ty: FatType, n: nat)
    requires Narrow(ty, n)
    ensures FatSectors(ty, n) == FatSize(ty, n) < 0x40_0000
  {
    Wrap32Id(WantedBytes(ty, n) + SS - 1);
  }

  lemma BaseIs(p: Params, ty: FatType, a: nat)
    requires p.Valid() && a > 0 && Narrow(ty, p.szVol / a)
    ensures BaseSystem(p, ty, FatSectors(ty, p.Units(a))) == Base(p, ty, a)
    ensures ToBlock(p, ty, a) < 0x8000 && Gap(p.bVol + Base(p, ty, a), p.szBlk) == ToBlock(p, ty, a)
  {
    FatSizeIs(ty, p.szVol / a);
    GapIs(p.bVol + Base(p, ty, a), p.szBlk);
    MissingBound(p.bVol + Base(p, ty, a), p.szBlk);
  }

  lemma MissingBound(x: nat, b: nat)
    requires b > 0
    ensures Missing(x, b) < b
  {
  }

  /** The draft of a pass in closed form; if the system area does not fit, the number of clusters
      wraps and is too large for FAT12/16. */
  lemma DraftIs(p: Params, ty: FatType, a: nat)
    requires p.Valid() && 1 <= a <= 128 && Narrow(ty, p.szVol / a)
    ensures Needed(p, ty, a) <= p.szVol ==> Draft(p, ty, a) == PlanFor(p, ty, a)
    ensures Needed(p, ty, a) > p.szVol && ty != FAT32 ==> Draft(p, ty, a).nClst > MAX_FAT16
  {
    BaseIs(p, ty, a);
    FatSizeIs(ty, p.szVol / a);
    AlignedIs(p, ty, a, FatSize(ty, p.szVol / a), ToBlock(p, ty, a));
  }

  lemma AlignedIs(p: Params, ty: FatType, a: nat, fat: nat, gap: nat)
    requires p.Valid() && 1 <= a <= 128 && fat < 0x40_0000 && gap < 0x8000
    requires fat == FatSize(ty, p.szVol / a) && gap == ToBlock(p, ty, a)
    ensures Needed(p, ty, a) <= p.szVol ==> Aligned(p, ty, a, fat, gap) == PlanFor(p, ty, a)
    ensures Needed(p, ty, a) > p.szVol && ty != FAT32 ==> Aligned(p, ty, a, fat, gap).nClst > MAX_FAT16
  {
    var d := Aligned(p, ty, a, fat, gap);
    AlignedSystem(p, ty, a, fat, gap);
    assert p.szVol - d.szRsv - p.Fats(d.szFat) - d.szDir == p.szVol - Needed(p, ty, a);
    if Needed(p, ty, a) <= p.szVol {
      Wrap32Id(p.szVol - Needed(p, ty, a));
    } else if d.nClst <= MAX_FAT16 {
      NoUnderflow(p.szVol, Needed(p, ty, a), a);
    }
  }

  // -------------------------------------------------------------------- bounds

  /** The system area is small against the volume. */
  lemma NeededBound(p: Params, ty: FatType, a: nat, n: nat)
    requires p.Valid() && a > 0 && n == p.szVol / a
    ensures Base(p, ty, a) <= Needed(p, ty, a) < Base(p, ty, a) + 0x8000
    ensures ty != FAT32 ==> Base(p, ty, a) <= 2054 + n / 128
    ensures ty == FAT32 ==> Base(p, ty, a) <= 37 + n / 64
  {
    MissingBound(p.bVol + Base(p, ty, a), p.szBlk);
  }

  lemma VolumeBound(vol: nat, a: nat, n: nat, k: nat)
    requires a > 0 && n == vol / a
    ensures a * n <= vol < a * n + a && n <= a * n
    ensures n >= k ==> a * k <= vol
    ensures n < k ==> vol < a * k
  {
    DivBounds(vol, a, n);
    MulLe(n, 1, a);
    if n >= k { MulLe(a, k, n); } else { MulLe(a, n + 1, k); }
  }

  /** More than a FAT12 volume always has room for the FAT16 system area and 16 clusters. */
  lemma Roomy16(p: Params, a: nat, n: nat)
    requires p.Valid() && 1 <= a <= 128 && n == p.szVol / a && n > 4085
    ensures Base(p, FAT16, a) + 16 * a <= p.szVol
  {
    NeededBound(p, FAT16, a, n);
    VolumeBound(p.szVol, a, n, 4086);
  }

  lemma Roomy32(p: Params, a: nat, n: nat)
    requires p.Valid() && 1 <= a <= 128 && n == p.szVol / a && n > 65525
    ensures Needed(p, FAT32, a) + 16 * a <= p.szVol
  {
    NeededBound(p, FAT32, a, n);
    VolumeBound(p.szVol, a, n, 65526);
  }

  /** The system area does not fit behind FAT16, or leaves too many clusters. */
  ghost predicate Many(p: Params, a: nat)
    requires a > 0 && p.szBlk > 0
  {
    Needed(p, FAT16, a) > p.szVol || 65526 * a + Needed(p, FAT16, a) <= p.szVol
  }

  /** With so many clusters that FAT32 comes into question, FAT16 has too many or just enough. */
  lemma NotFew(p: Params, a: nat, n: nat)
    requires p.Valid() && 1 <= a <= 128 && n == p.szVol / a && n > 65525
    ensures 4086 * a + Needed(p, FAT16, a) <= p.szVol
  {
    NeededBound(p, FAT16, a, n);
    VolumeBound(p.szVol, a, n, 65526);
  }

  // -------------------------------------------------------------- the passes

  lemma CountIs(x: nat, a: nat, k: nat)
    requires a > 0
    ensures x / a > k <==> (k + 1) * a <= x
  {
    VolumeBound(x, a, x / a, k + 1);
  }

  /** A FAT12/16 pass with small clusters: FAT12 or nothing. */
  lemma Pass12(p: Params, a: nat, szAu: nat)
    requires p.Valid() && 1 <= a <= 128 && p.szVol / a <= 4085
    ensures PassWith(p, FAT16, szAu, a) ==
              if Possible(p, FAT12, a) then Done(PlanFor(p, FAT12, a)) else Abort
  {
    BaseIs(p, FAT12, a);
    DraftIs(p, FAT12, a);
    if Needed(p, FAT12, a) <= p.szVol { FewerLeft(p.szVol, Needed(p, FAT12, a), a); }
  }

  lemma FewerLeft(x: nat, y: nat, a: nat)
    requires y <= x && a > 0
    ensures (x - y) / a <= x / a
  {
    CountIs(x - y, a, x / a);
    VolumeBound(x, a, x / a, 0);
    NextMultiple(x / a, a);
  }

  /** What a pass does that finds too many or too few clusters for FAT16. */
  ghost function AfterMany(p: Params, a: nat, szAu: nat): Outcome
  {
    if szAu == 0 && a * 2 <= 64 then Retry(FAT16, a * 2)
    else if p.fat32 then Retry(FAT32, szAu)
    else if szAu == 0 && a * 2 <= 128 then Retry(FAT16, a * 2) else Abort
  }

  ghost function AfterFew(a: nat, szAu: nat): Outcome
  {
    if szAu == 0 && a * 2 <= 128 then Retry(FAT16, a * 2) else Abort
  }

  lemma Pass16(p: Params, a: nat, szAu: nat)
    requires p.Valid() && 1 <= a <= 128 && p.szVol / a > 4085
    ensures PassWith(p, FAT16, szAu, a) ==
              if Possible(p, FAT16, a) then Done(PlanFor(p, FAT16, a))
              else if Many(p, a) then AfterMany(p, a, szAu) else AfterFew(a, szAu)
  {
    var n := p.szVol / a;
    if n > 0x1000_0000 { Huge16(p, a, n); } else { Draft16(p, a, n); }
  }

  /** A FAT16 draft has room, and its number of clusters says whether it is possible. */
  lemma Draft16(p: Params, a: nat, n: nat)
    requires p.Valid() && 1 <= a <= 128 && n == p.szVol / a && 4085 < n <= 0x1000_0000
    ensures p.szVol >= BaseSystem(p, FAT16, FatSectors(FAT16, n)) + a * 16
    ensures var d := Draft(p, FAT16, a);
            && d.ty == FAT16 && d.pau == a
            && (d.nClst > 65525 <==> Many(p, a))
            && (d.nClst <= 4085 <==> !Many(p, a) && !Possible(p, FAT16, a))
            && (Possible(p, FAT16, a) ==> d == PlanFor(p, FAT16, a))
  {
    Roomy16(p, a, n);
    BaseIs(p, FAT16, a);
    DraftIs(p, FAT16, a);
    var need := Needed(p, FAT16, a);
    Counted16(p.szVol, need, a);
    assert Possible(p, FAT16, a) <==> 4086 * a + need <= p.szVol < 65526 * a + need;
    assert need <= p.szVol ==> Draft(p, FAT16, a).nClst == (p.szVol - need) / a;
  }

  /** The bounds that `Many` and `Possible` set, as numbers of clusters. */
  lemma Counted16(vol: nat, need: nat, a: nat)
    requires a > 0
    ensures need <= vol ==>
              && ((vol - need) / a > 4085 <==> 4086 * a + need <= vol)
              && ((vol - need) / a > 65525 <==> 65526 * a + need <= vol)
    ensures 65526 * a + need <= vol ==> 4086 * a + need <= vol
  {
    if need <= vol {
      CountIs(vol - need, a, 4085);
      CountIs(vol - need, a, 65525);
    }
  }

  /** The FAT size of a huge volume wraps, but there are far too many clusters either way. */
  lemma Huge16(p: Params, a: nat, n: nat)
    requires p.Valid() && 1 <= a <= 128 && n == p.szVol / a && n > 0x1000_0000
    ensures Many(p, a) && !Possible(p, FAT16, a)
    ensures Draft(p, FAT16, a).nClst > MAX_FAT16
    ensures p.szVol >= BaseSystem(p, FAT16, FatSectors(FAT16, n)) + a * 16
  {
    NeededBound(p, FAT16, a, n);
    VolumeBound(p.szVol, a, n, 0x1000_0001);
    var fat := FatSectors(FAT16, n);
    FatSectorsBound(FAT16, n);
    HugeDraft(p, a, fat, Gap(p.bVol + BaseSystem(p, FAT16, fat), p.szBlk));
  }

  lemma HugeDraft(p: Params, a: nat, fat: nat, gap: nat)
    requires p.Valid() && 1 <= a <= 128 && fat < 0x80_0000 && gap < 0x8000 && a * 0x1000_0001 <= p.szVol
    ensures Aligned(p, FAT16, a, fat, gap).nClst > MAX_FAT16
  {
    var d, sys := Aligned(p, FAT16, a, fat, gap), BaseSystem(p, FAT16, fat) + gap;
    AlignedSystem(p, FAT16, a, fat, gap);
    assert p.szVol - d.szRsv - p.Fats(d.szFat) - d.szDir == p.szVol - sys;
    Wrap32Id(p.szVol - sys);
    CountIs(p.szVol - sys, a, 65525);
  }

  lemma Pass32(p: Params, a: nat, szAu: nat)
    requires p.Valid() && 1 <= a <= 128
    ensures PassWith(p, FAT32, szAu, a) ==
              if Possible(p, FAT32, a) then Done(PlanFor(p, FAT32, a))
              else if 65525 < p.szVol / a <= 0x0FFF_FFF5 && szAu == 0 && a / 2 != 0 then Retry(FAT32, a / 2)
              else Abort
  {
    if 65525 < p.szVol / a <= 0x0FFF_FFF5 {
      Roomy32(p, a, p.szVol / a);
      BaseIs(p, FAT32, a);
      NeededBound(p, FAT32, a, p.szVol / a);
      DraftIs(p, FAT32, a);
      CountIs(p.szVol - Needed(p, FAT32, a), a, 65525);
    }
  }

  // -------------------------------------------------------------- the outcomes

  /** A requested cluster size: f_mkfs succeeds exactly if some type that was asked for is
      possible with it, and prefers FAT12/16. */
  lemma FixedExactly(p: Params, fat: bool, a: nat)
    requires p.Valid() && 1 <= a <= 128 && (fat || p.fat32)
    ensures Choose(p, if fat then FAT16 else FAT32, a) ==
              if fat && Possible(p, FAT12, a) then Done(PlanFor(p, FAT12, a))
              else if fat && Possible(p, FAT16, a) then Done(PlanFor(p, FAT16, a))
              else if p.fat32 && Possible(p, FAT32, a) then Done(PlanFor(p, FAT32, a))
              else Abort
  {
    Pass32(p, a, a);
    if fat {
      if p.szVol / a <= 4085 { Pass12(p, a, a); } else { Pass16(p, a, a); }
      if p.szVol / a > 65525 { NotFew(p, a, p.szVol / a); }
    }
  }

  /** FAT32 with automatic cluster size: possible on every volume from 2^17 sectors on, and below
      exactly if 65526 clusters of one sector fit. */
  lemma Auto32Exactly(p: Params)
    requires p.Valid()
    ensures Choose(p, FAT32, 0) == Fat32Auto(p)
  {
    var a := Au32(p.szVol);
    AutoIs(p.szVol);
    Pass32(p, a, 0);
    if p.szVol >= 0x2_0000 {
      Au32Units(p.szVol, a);
      Pass32(p, a / 2, a / 2);
      LargeHas32(p);
    }
  }

  ghost function Fat32Auto(p: Params): Outcome
    requires p.Valid()
  {
    var a := Au32(p.szVol);
    if Possible(p, FAT32, a) then Done(PlanFor(p, FAT32, a))
    else if p.szVol >= 0x2_0000 then
      LargeHas32(p);
      Done(PlanFor(p, FAT32, a / 2))
    else Abort
  }

  lemma LargeHas32(p: Params)
    requires p.Valid() && p.szVol >= 0x2_0000
    ensures Au32(p.szVol) >= 2 && Possible(p, FAT32, Au32(p.szVol) / 2)
  {
    var a := Au32(p.szVol);
    Au32Units(p.szVol, a);
    HalfIsPossible(p, a / 2, p.szVol / (a / 2));
  }

  lemma Au32Units(vol: nat, a: nat)
    requires 0x2_0000 <= vol < TWO32 && a == Au32(vol)
    ensures 2 <= a <= 64 && 65536 <= vol / a <= 0x0FFF_FFF5 && 131072 <= vol / (a / 2) <= 0x0FFF_FFF5
  {
  }

  lemma HalfIsPossible(p: Params, a: nat, n: nat)
    requires p.Valid() && 1 <= a <= 128 && n == p.szVol / a && 131072 <= n <= 0x0FFF_FFF5
    ensures Possible(p, FAT32, a)
  {
    NeededBound(p, FAT32, a, n);
    VolumeBound(p.szVol, a, n, 131072);
  }

  /** A FAT12/16 volume with clusters of `a` sectors, if there can be one. */
  ghost function FatWith(p: Params, a: nat): Outcome
    requires p.Valid() && a > 0
  {
    if Possible(p, FAT12, a) then Done(PlanFor(p, FAT12, a))
    else if Possible(p, FAT16, a) then Done(PlanFor(p, FAT16, a)) else Abort
  }

  /** FAT12/16 allowed, automatic cluster size.  Below 2^21 sectors the automatic size is tried,
      and once the double of it if there was more than a FAT12 volume; from there on clusters of
      64 sectors, then FAT32 if it is allowed, else clusters of 128 sectors. */
  lemma AutoFatExactly(p: Params)
    requires p.Valid()
    ensures var a := Au16(p.szVol);
            Choose(p, FAT16, 0) ==
              if FatWith(p, a).Done? then FatWith(p, a)
              else if p.szVol >= 0x20_0000 then if p.fat32 then Fat32Auto(p) else FatWith(p, 128)
              else if p.szVol / a > 4085 then FatWith(p, a * 2)
              else Abort
  {
    var a := Au16(p.szVol);
    Au16Units(p.szVol, a);
    if p.szVol / a <= 4085 { AutoFew(p, a); } else { AutoMany(p, a); }
  }

  lemma AutoFew(p: Params, a: nat)
    requires p.Valid() && a == Au16(p.szVol) && 1 <= a <= 64 && p.szVol / a <= 4085
    ensures Choose(p, FAT16, 0) == FatWith(p, a)
  {
    AutoIs(p.szVol);
    Pass12(p, a, 0);
  }

  lemma AutoMany(p: Params, a: nat)
    requires p.Valid() && a == Au16(p.szVol) && p.szVol / a > 4085
    ensures Choose(p, FAT16, 0) ==
              if FatWith(p, a).Done? then FatWith(p, a)
              else if p.szVol >= 0x20_0000 then if p.fat32 then Fat32Auto(p) else FatWith(p, 128)
              else FatWith(p, a * 2)
  {
    AutoIs(p.szVol);
    Auto32Exactly(p);
    Pass16(p, a, 0);
    Second16(p, a);
  }

  lemma Au16Units(vol: nat, a: nat)
    requires vol < TWO32 && a == Au16(vol)
    ensures 1 <= a <= 64 && (a == 64 <==> vol >= 0x20_0000)
    ensures if a == 64 then vol / a >= 32768 else vol / a <= 65535 && vol / (a * 2) <= 32767
  {
  }

  /** The second try with the size doubled. */
  lemma Second16(p: Params, a: nat)
    requires p.Valid() && a == Au16(p.szVol) && p.szVol / a > 4085
    ensures Choose(p, FAT16, a * 2) == if a == 64 && p.fat32 then Choose(p, FAT16, a * 2) else FatWith(p, a * 2)
    ensures a == 64 && !Possible(p, FAT16, a) ==> Many(p, a)
    ensures 1 <= a <= 64 && (a == 64 <==> p.szVol >= 0x20_0000)
  {
    Au16Units(p.szVol, a);
    var b := a * 2;
    if p.szVol / b <= 4085 { Pass12(p, b, b); } else { Pass16(p, b, b); }
    if a == 64 {
      NeededBound(p, FAT16, a, p.szVol / a);
    } else {
      Pass32(p, b, b);
    }
  }

  /** What f_mkfs makes of a volume, by the types allowed and the cluster size asked for (0: any). */
  ghost function Outcomes(p: Params, fat: bool, a: nat): Outcome
    requires p.Valid()
  {
    if a != 0 then
      if fat && FatWith(p, a).Done? then FatWith(p, a)
      else if p.fat32 && Possible(p, FAT32, a) then Done(PlanFor(p, FAT32, a)) else Abort
    else if !fat then Fat32Auto(p)
    else
      var b := Au16(p.szVol);
      if FatWith(p, b).Done? then FatWith(p, b)
      else if p.szVol >= 0x20_0000 then if p.fat32 then Fat32Auto(p) else FatWith(p, 128)
      else if p.szVol / b > 4085 then FatWith(p, b * 2)
      else Abort
  }

  lemma ChosenExactly(p: Params, fat: bool, a: nat)
    requires p.Valid() && a <= 128 && (fat || p.fat32)
    ensures Choose(p, if fat then FAT16 else FAT32, a) == Outcomes(p, fat, a)
  {
    if a != 0 { FixedExactly(p, fat, a); } else if fat { AutoFatExactly(p); } else { Auto32Exactly(p); }
  }

  // ------------------------------------------------------------ by size alone

  /** FAT12/16 allowed, automatic cluster size, whatever the other options:
      up to 4085 sectors FAT12 or nothing; from 2^18 sectors to 65526 clusters of 64 sectors FAT16;
      from 0x410000 sectors (2080 MiB) FAT32 if it is allowed; without it nothing from 0x820000 sectors on. */
  lemma AutoFatBySize(p: Params)
    requires p.Valid()
    ensures var o := Choose(p, FAT16, 0);
            && (p.szVol <= 4085 ==> o == Abort || (o.Done? && o.plan.ty == FAT12 && o.plan.pau == 1))
            && (0x4_0000 <= p.szVol < 65526 * 64 ==> o.Done? && o.plan.ty == FAT16)
            && (0x41_0000 <= p.szVol && p.fat32 ==> o.Done? && o.plan.ty == FAT32)
            && (0x82_0000 <= p.szVol && !p.fat32 ==> o == Abort)
  {
    AutoFatExactly(p);
    var a := Au16(p.szVol);
    if 0x4_0000 <= p.szVol < 0x20_0000 {
      Middle(p, a);
    } else if p.szVol >= 0x20_0000 {
      NeededBound(p, FAT16, 64, p.szVol / 64);
      NeededBound(p, FAT16, 128, p.szVol / 128);
    }
  }

  /** From 2^18 to 2^21 sectors one of the two cluster sizes tried suits FAT16. */
  lemma Middle(p: Params, a: nat)
    requires p.Valid() && 0x4_0000 <= p.szVol < 0x20_0000 && a == Au16(p.szVol)
    ensures a == 16 || a == 32
    ensures p.szVol / a > 4085 && p.szVol / (a * 2) > 4085
    ensures Possible(p, FAT16, a) || Possible(p, FAT16, a * 2)
  {
    var n, m := p.szVol / a, p.szVol / (a * 2);
    NeededBound(p, FAT16, a, n);
    NeededBound(p, FAT16, a * 2, m);
    assert Needed(p, FAT16, a) <= 2054 + n / 128 + 0x8000 && Needed(p, FAT16, a * 2) <= 2054 + m / 128 + 0x8000;
    MiddleFits(p.szVol, a, Needed(p, FAT16, a), Needed(p, FAT16, a * 2));
  }

  /** Volumes of 2^18 to 2^21 sectors with clusters of 16 or 32. */
  lemma MiddleFits(vol: nat, a: nat, x: nat, y: nat)
    requires 0x4_0000 <= vol < 0x20_0000 && a == (if vol < 0x10_0000 then 16 else 32)
    requires x <= 2054 + vol / a / 128 + 0x8000 && y <= 2054 + vol / (a * 2) / 128 + 0x8000
    ensures vol / a > 4085 && vol / (a * 2) > 4085
    ensures 4086 * a + x <= vol < 65526 * a + x || 4086 * (a * 2) + y <= vol < 65526 * (a * 2) + y
  {
  }

  /** FAT32 alone, automatic cluster size: from 2^17 sectors on always, below 65558 sectors never. */
  lemma Auto32BySize(p: Params)
    requires p.Valid()
    ensures var o := Choose(p, FAT32, 0);
            && (p.szVol >= 0x2_0000 ==> o.Done? && o.plan.ty == FAT32)
            && (p.szVol < 65558 ==> o == Abort)
            && (o.Done? <==> p.szVol >= 0x2_0000 || Possible(p, FAT32, 1))
  {
    Auto32Exactly(p);
  }
}
