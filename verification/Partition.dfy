/** Partitioning a drive in MBR format (create_partition). */
module Partition {
  import opened Bytes
  import opened Layout
  import opened DiskIo
  import opened Mount

  const N_SEC_TRACK := 63

  datatype Part = Part(start: int, size: int)

  /** `pct` hundredths of the drive. */
  function Percent(drv: Dword, pct: nat): (n: nat)
    requires pct <= 100
    ensures n <= drv && (pct == 0 ==> n == 0)
  {
    var q := drv / 100;
    assert q * pct <= q * 100;
    q * pct
  }

  /** Size of a partition: a percentage up to 100, else sectors; clipped at the drive. */
  function PartSize(req: Dword, nxt: Dword, drv: Dword): (n: nat)
    requires nxt < drv
    ensures nxt + n <= drv && (req == 0 ==> n == 0)
  {
    var want := if req > 100 then req else if req == 100 then drv else Percent(drv, req);
    if Wrap32(nxt + want) > drv || Wrap32(nxt + want) < nxt then drv - nxt else want
  }

  /** The rule: `req` sectors; or if it is at most 100, so many hundredths of the drive, where a
      hundredth is a whole number of sectors, and 100 is all of it; but no more than are left. */
  lemma SizeExactly(req: Dword, nxt: Dword, drv: Dword, hundredth: nat)
    requires nxt < drv && 100 * hundredth <= drv < 100 * hundredth + 100
    ensures PartSize(req, nxt, drv)
         == Min(if req < 100 then req * hundredth else if req == 100 then drv else req, drv - nxt)
  {
    if req < 100 { PercentIs(drv, req, hundredth); }
  }

  lemma PercentIs(drv: Dword, pct: nat, hundredth: nat)
    requires pct < 100 && 100 * hundredth <= drv < 100 * hundredth + 100
    ensures Percent(drv, pct) == pct * hundredth <= drv
  {
    assert drv / 100 == hundredth;
  }

  /** First sector behind the first `k` partitions. */
  function NextFree(ps: seq<Part>, k: nat): int
    requires k <= |ps|
  {
    if k == 0 then N_SEC_TRACK else ps[k - 1].start + ps[k - 1].size
  }

  ghost predicate FollowsAt(plst: seq<Dword>, ps: seq<Part>, drv: Dword, k: nat)
    requires k < |ps| <= |plst|
  {
    var nxt := NextFree(ps, k);
    0 <= nxt < drv && ps[k] == Part(nxt, PartSize(plst[k], nxt, drv)) && ps[k].size > 0
  }

  /** `ps` are the requested partitions one after the other from the second track on, up to
      the first that gets no sectors or the end of the drive. */
  ghost predicate Consecutive(plst: seq<Dword>, ps: seq<Part>, drv: Dword)
  {
    && |ps| <= 4 && |ps| <= |plst|
    && (forall k :: 0 <= k < |ps| ==> FollowsAt(plst, ps, drv, k))
    && (|ps| == 4 || NextFree(ps, |ps|) >= drv
        || (|ps| < |plst| && NextFree(ps, |ps|) >= 0 && PartSize(plst[|ps|], NextFree(ps, |ps|), drv) == 0))
  }

  /** Partitions lie on the drive behind its first track and do not overlap. */
  lemma {:induction false} PartsDisjoint(plst: seq<Dword>, ps: seq<Part>, drv: Dword, j: nat, k: nat)
    requires Consecutive(plst, ps, drv) && j < k < |ps|
    ensures N_SEC_TRACK <= ps[j].start < ps[j].start + ps[j].size <= ps[k].start < ps[k].start + ps[k].size <= drv
  {
    assert FollowsAt(plst, ps, drv, k) && FollowsAt(plst, ps, drv, k - 1);
    if j < k - 1 {
      PartsDisjoint(plst, ps, drv, j, k - 1);
    } else if j > 0 {
      PartsDisjoint(plst, ps, drv, j - 1, j);
    }
  }

  /** Head, sector and cylinder bytes of a sector number for `hds` heads. */
  function Chs(lba: nat, hds: nat): (b: seq<Byte>)
    requires 0 < hds <= 255
    ensures |b| == 3
  {
    var cy: nat := lba / N_SEC_TRACK / hds;
    [lba / N_SEC_TRACK % hds, cy / 256 % 4 * 64 + lba % N_SEC_TRACK + 1, cy % 256]
  }

  /** The bytes name sector `lba` of a drive with `hds` heads and 63 sectors per track; of the
      cylinder number they hold ten bits. */
  ghost predicate IsChs(b: seq<Byte>, lba: nat, hds: nat)
    requires |b| == 3 && hds > 0
  {
    var head, sec, cyl := b[0] as int, b[1] as int % 64, b[1] as int / 64 * 256 + b[2] as int;
    head < hds && 1 <= sec <= 63 && lba % (1024 * (hds * 63)) == cyl * (hds * 63) + head * 63 + sec - 1
  }

  lemma ChsExactly(lba: nat, hds: nat)
    requires 0 < hds <= 255
    ensures IsChs(Chs(lba, hds), lba, hds)
  {
    var track, sec := lba / 63, lba % 63;
    var cy, head := track / hds, track % hds;
    var n := hds * 63;
    TrackSplit(lba, hds, cy, head, sec);
    TenBits(cy, sec + 1);
    Folded(lba, cy, n, head * 63 + sec);
  }

  lemma TenBits(cy: nat, sec: nat)
    requires 1 <= sec <= 63
    ensures var b := cy / 256 % 4 * 64 + sec; b / 64 * 256 + cy % 256 == cy % 1024 && b % 64 == sec
  {
  }

  lemma TrackSplit(lba: nat, hds: nat, cy: nat, head: nat, sec: nat)
    requires 0 < hds <= 255 && cy == lba / 63 / hds && head == lba / 63 % hds && sec == lba % 63
    ensures lba == cy * (hds * 63) + head * 63 + sec && head * 63 + sec < hds * 63
  {
    var track := lba / 63;
    assert track == cy * hds + head;
    assert cy * hds * 63 == cy * (hds * 63);
  }

  lemma Folded(x: nat, cy: nat, n: nat, r: nat)
    requires x == cy * n + r && r < n
    ensures x % (1024 * n) == cy % 1024 * n + r
  {
    var q, c := cy / 1024, cy % 1024;
    assert cy * n == q * 1024 * n + c * n;
    assert q * 1024 * n == q * (1024 * n);
    MulLe(n, c + 1, 1024);
    DivModUnique(x, 1024 * n, q, c * n + r);
  }

  predicate Proper(p: Part) { 0 <= p.start && 0 < p.size && p.start + p.size < TWO32 }

  /** A partition table entry. */
  function Pte(p: Part, sys: Byte, hds: nat): (b: seq<Byte>)
    requires 0 < hds <= 255 && Proper(p)
    ensures |b| == SZ_PTE
  {
    PteOf(Chs(p.start, hds), sys, Chs(p.start + p.size - 1, hds), p.start, p.size)
  }

  function PteOf(first: seq<Byte>, sys: Byte, last: seq<Byte>, start: Dword, size: Dword): (b: seq<Byte>)
    requires |first| == |last| == 3
    ensures |b| == SZ_PTE
  {
    [0] + first + [sys] + last + DwordBytes(start) + DwordBytes(size)
  }

  lemma PteFields(first: seq<Byte>, sys: Byte, last: seq<Byte>, start: Dword, size: Dword)
    requires |first| == |last| == 3
    ensures var b := PteOf(first, sys, last, start, size);
            && b[0] == 0 && b[1..4] == first && b[4] == sys && b[5..8] == last
            && LdDword(b, 8) == start && LdDword(b, 12) == size
  {
    var b := PteOf(first, sys, last, start, size);
    assert b[1..4] == first && b[5..8] == last;
    assert b[8..12] == DwordBytes(start);
    assert |b| == 16 && b[12..] == DwordBytes(size) && b[12..16] == b[12..];
    DwordBack(b, 8, start);
    DwordBack(b, 12, size);
  }

  /** Byte offset of entry `k`. */
  function PteOfs(k: int): int { MBR_TABLE + k * SZ_PTE }

  /** A master boot record that lists exactly `ps`, partitions of a drive with `drv` sectors. */
  ghost predicate IsMbr(w: seq<Byte>, ps: seq<Part>, sys: Byte, drv: nat)
  {
    && |w| == SS && |ps| <= 4 && LdWord(w, 510) == BS_SIGN
    && (forall a :: 0 <= a < 446 || 446 + 16 * |ps| <= a < 510 ==> w[a] == 0)
    && (forall u :: UnfoldTable(u) ==>
          exists hds: nat :: IsHeads(drv, hds) && forall k :: 0 <= k < |ps| ==> Located(w, k, ps[k], hds))
    && (forall k :: 0 <= k < |ps| ==> Listed(w, k, ps[k], sys))
    && (forall k :: |ps| <= k < 4 ==> PartStart(w, k) == 0)
  }

  ghost predicate Listed(w: seq<Byte>, k: nat, p: Part, sys: Byte)
    requires |w| == SS && k < 4
  {
    w[PteOfs(k) + 4] == sys && PartStart(w, k) == p.start && LdDword(w, PteOfs(k) + 12) == p.size
  }

  /** Entry `k` is not marked as bootable, and its first and last sectors are those of `p`. */
  ghost predicate Located(w: seq<Byte>, k: nat, p: Part, hds: nat)
    requires |w| == SS && k < 4
  {
    && hds > 0 && 0 <= p.start && 0 < p.size && w[PteOfs(k)] == 0
    && IsChs(w[PteOfs(k) + 1..PteOfs(k) + 4], p.start, hds)
    && IsChs(w[PteOfs(k) + 5..PteOfs(k) + 8], p.start + p.size - 1, hds)
  }

  /** The least of 8, 16, ..., 128 heads with which a drive of `drv` sectors does not have more than
      1024 cylinders; 255 if there is none. */
  ghost predicate IsHeads(drv: nat, n: nat)
  {
    && n in {8, 16, 32, 64, 128, 255}
    && (n != 255 ==> drv < 1025 * 63 * n)
    && (n != 8 ==> drv >= 1025 * 63 * if n == 255 then 128 else n / 2)
  }

  method Heads(drv: Dword) returns (n: nat)
    ensures IsHeads(drv, n)
  {
    n := 8;
    while n != 0 && drv / n / N_SEC_TRACK > 1024
      invariant n in [0, 8, 16, 32, 64, 128]
      invariant n != 8 ==> drv >= 1025 * 63 * if n == 0 then 128 else n / 2
      decreases if n == 0 then 0 else 256 - n
    {
      Cylinders(drv, n);
      n := n * 2 % 256;
    }
    if n == 0 { n := 255; } else { Cylinders(drv, n); }
  }

  lemma Cylinders(drv: Dword, n: nat)
    requires n in [8, 16, 32, 64, 128]
    ensures drv / n / 63 > 1024 <==> drv >= 1025 * 63 * n
  {
  }

  ghost predicate UnfoldTable(k: int) { true }

  /** The table lists `ps`; all else is zero (to be looked at through `UnfoldTable`). */
  ghost predicate IsTable(w: seq<Byte>, ps: seq<Part>, sys: Byte, hds: nat)
  {
    forall u :: UnfoldTable(u) ==>
      && |w| == SS && |ps| <= 4
      && (forall k :: 0 <= k < |ps| ==> Listed(w, k, ps[k], sys))
      && (forall k :: 0 <= k < |ps| ==> Located(w, k, ps[k], hds))
      && (forall a :: 0 <= a < SS && (a < MBR_TABLE || a >= PteOfs(|ps|)) ==> w[a] == 0)
  }

  lemma PteKept(w: seq<Byte>, r: seq<Byte>, k: nat, p: Part, sys: Byte, hds: nat)
    requires |w| == |r| == SS && k < 4 && Listed(w, k, p, sys) && Located(w, k, p, hds)
    requires forall a :: PteOfs(k) <= a < PteOfs(k) + SZ_PTE ==> r[a] == w[a]
    ensures Listed(r, k, p, sys) && Located(r, k, p, hds)
  {
    var o := PteOfs(k);
    assert r[o + 1..o + 4] == w[o + 1..o + 4] && r[o + 5..o + 8] == w[o + 5..o + 8];
  }

  lemma PteStored(r: seq<Byte>, k: nat, p: Part, sys: Byte, hds: nat, e: seq<Byte>)
    requires |r| == SS && k < 4 && |e| == SZ_PTE && r[PteOfs(k)..PteOfs(k) + SZ_PTE] == e
    requires e[0] == 0 && e[4] == sys && LdDword(e, 8) == p.start && LdDword(e, 12) == p.size
    requires hds > 0 && Proper(p) && IsChs(e[1..4], p.start, hds) && IsChs(e[5..8], p.start + p.size - 1, hds)
    ensures Listed(r, k, p, sys) && Located(r, k, p, hds)
  {
    var o := PteOfs(k);
    assert forall j :: 0 <= j < SZ_PTE ==> e[j] == r[o..o + SZ_PTE][j];
    assert r[o + 1..o + 4] == e[1..4] && r[o + 5..o + 8] == e[5..8];
  }

  lemma AddPte(w: seq<Byte>, ps: seq<Part>, sys: Byte, hds: nat, p: Part, e: seq<Byte>)
    requires |w| == SS && IsTable(w, ps, sys, hds) && |ps| < 4 && |e| == SZ_PTE
    requires e[0] == 0 && e[4] == sys && LdDword(e, 8) == p.start && LdDword(e, 12) == p.size
    requires hds > 0 && Proper(p) && IsChs(e[1..4], p.start, hds) && IsChs(e[5..8], p.start + p.size - 1, hds)
    ensures IsTable(Overlay(w, PteOfs(|ps|), e), ps + [p], sys, hds)
  {
    assert UnfoldTable(0);
    var r := Overlay(w, PteOfs(|ps|), e);
    var qs := ps + [p];
    forall k | 0 <= k < |qs| ensures Listed(r, k, qs[k], sys) && Located(r, k, qs[k], hds) {
      if k < |ps| {
        assert qs[k] == ps[k] && PteOfs(k) + SZ_PTE <= PteOfs(|ps|);
        PteKept(w, r, k, ps[k], sys, hds);
      } else {
        PteStored(r, k, p, sys, hds, e);
      }
    }
  }

  /** create_partition: writes a table of disjoint partitions that lie on the drive. */
  method CreatePartition(disk: Disk, plst: seq<Dword>, sys: Byte, buf: array<Byte>)
    returns (res: FResult, ghost ps: seq<Part>)
    requires disk.Valid() && 0 < disk.sectors < TWO32 && buf.Length >= SS && buf != disk.data
    requires |plst| >= 4 || (plst != [] && plst[|plst| - 1] == 0)
    modifies buf, disk.data
    ensures res == OK
    ensures disk.data[..] == Overlay(old(disk.data[..]), 0, buf[..SS])
    ensures Consecutive(plst, ps, disk.sectors) && IsMbr(buf[..SS], ps, sys, disk.sectors)
    ensures forall a :: SS <= a < buf.Length ==> buf[a] == old(buf[a])
  {
    var hds := Heads(disk.sectors);
    forall i | 0 <= i < SS { buf[i] := 0; }
    ps := FillTable(disk.sectors, plst, sys, hds, buf);
    ghost var t := buf[..SS];
    buf[510], buf[511] := 0x55, 0xAA;
    assert forall a :: 0 <= a < 510 ==> buf[..SS][a] == t[a];
    MbrIs(t, buf[..SS], ps, sys, hds, disk.sectors);
    var r := disk.Write(buf[..SS], 0, 1);
    res := if r == RES_OK then OK else DISK_ERR;
  }

  lemma MbrIs(t: seq<Byte>, w: seq<Byte>, ps: seq<Part>, sys: Byte, hds: nat, drv: nat)
    requires IsTable(t, ps, sys, hds) && IsHeads(drv, hds)
    requires |w| == |t| == SS && (forall a :: 0 <= a < 510 ==> w[a] == t[a]) && w[510] == 0x55 && w[511] == 0xAA
    ensures IsMbr(w, ps, sys, drv)
  {
    assert UnfoldTable(0);
    forall k | 0 <= k < |ps| ensures Listed(w, k, ps[k], sys) && Located(w, k, ps[k], hds) {
      PteKept(t, w, k, ps[k], sys, hds);
    }
  }

  method StorePte(ghost ps: seq<Part>, p: Part, sys: Byte, hds: nat, buf: array<Byte>, i: nat)
    requires 0 < hds <= 255 && buf.Length >= SS && Proper(p) && i == |ps| < 4
    requires IsTable(buf[..SS], ps, sys, hds)
    modifies buf
    ensures IsTable(buf[..SS], ps + [p], sys, hds)
    ensures forall a :: SS <= a < buf.Length ==> buf[a] == old(buf[a])
  {
    ghost var w := buf[..SS];
    MemCpy(buf, MBR_TABLE + i * SZ_PTE, Pte(p, sys, hds));
    assert buf[..SS] == Overlay(w, PteOfs(i), Pte(p, sys, hds));
    PteFields(Chs(p.start, hds), sys, Chs(p.start + p.size - 1, hds), p.start, p.size);
    ChsExactly(p.start, hds);
    ChsExactly(p.start + p.size - 1, hds);
    AddPte(w, ps, sys, hds, p, Pte(p, sys, hds));
  }

  /** The loop over the partition list. */
  method FillTable(drv: Dword, plst: seq<Dword>, sys: Byte, hds: nat, buf: array<Byte>) returns (ghost ps: seq<Part>)
    requires 0 < hds <= 255 && buf.Length >= SS && (forall i :: 0 <= i < SS ==> buf[i] == 0)
    requires |plst| >= 4 || (plst != [] && plst[|plst| - 1] == 0)
    modifies buf
    ensures Consecutive(plst, ps, drv) && IsTable(buf[..SS], ps, sys, hds)
    ensures forall a :: SS <= a < buf.Length ==> buf[a] == old(buf[a])
  {
    var i: nat, nxt: int := 0, N_SEC_TRACK;
    ps := [];
    assert IsTable(buf[..SS], ps, sys, hds);
    while i < 4 && nxt != 0 && nxt < drv
      invariant |ps| == i <= 4 && i <= |plst| && nxt == NextFree(ps, i) > 0 && nxt < TWO32
      invariant i == |plst| ==> i == 4
      invariant forall k :: 0 <= k < i ==> FollowsAt(plst, ps, drv, k)
      invariant IsTable(buf[..SS], ps, sys, hds)
      invariant forall a :: SS <= a < buf.Length ==> buf[a] == old(buf[a])
    {
      var m := PartSize(plst[i], nxt, drv);
      if m == 0 { break; }
      assert plst[i] != 0;
      var p := Part(nxt, m);
      StorePte(ps, p, sys, hds, buf, i);
      AddPart(plst, ps, drv, p);
      ps := ps + [p];
      i, nxt := i + 1, nxt + m;
    }
  }

  lemma AddPart(plst: seq<Dword>, ps: seq<Part>, drv: Dword, p: Part)
    requires |ps| < |plst| && (forall k :: 0 <= k < |ps| ==> FollowsAt(plst, ps, drv, k))
    requires var nxt := NextFree(ps, |ps|);
             0 <= nxt < drv && p == Part(nxt, PartSize(plst[|ps|], nxt, drv)) && p.size > 0
    ensures forall k :: 0 <= k <= |ps| ==> FollowsAt(plst, ps + [p], drv, k)
  {
    var qs := ps + [p];
    forall k | 0 <= k <= |ps| ensures FollowsAt(plst, qs, drv, k) {
      assert k < |ps| ==> FollowsAt(plst, ps, drv, k);
      assert NextFree(qs, k) == NextFree(ps, k);
    }
  }
}
