/** The byte-level FAT: packed 12/16/32-bit entries, and what storing into them does
    to the table as a sequence of values. */
module FatBits {
  import opened Bytes
  import opened Layout

  // ---------------------------------------------------------------- the table

  /** Entry `c` of a FAT held in the bytes `img`. */
  function Entry(t: FatType, img: seq<Byte>, c: nat): Dword
    requires FatBytes(t, c + 1) <= |img|
  {
    match t
    case FAT12 =>
      var w: int := LdWord(img, c + c / 2);
      if c % 2 == 1 then w / 16 else w % 0x1000
    case FAT16 => LdWord(img, c * 2)
    case FAT32 => var d: int := LdDword(img, c * 4); d % 0x1000_0000
  }

  /** How the types pack their entries: two in three bytes, one in two, and 28 bits in four, always
      low byte first. */
  lemma PackedExactly(img: seq<Byte>, k: nat)
    ensures 3 * k + 3 <= |img| ==>
              && Entry(FAT12, img, 2 * k) < 0x1000 && Entry(FAT12, img, 2 * k + 1) < 0x1000
              && Entry(FAT12, img, 2 * k) + 0x1000 * Entry(FAT12, img, 2 * k + 1)
                 == (img[3 * k] as int) + 0x100 * (img[3 * k + 1] as int) + 0x1_0000 * (img[3 * k + 2] as int)
    ensures 2 * k + 2 <= |img| ==>
              Entry(FAT16, img, k) == (img[2 * k] as int) + 0x100 * (img[2 * k + 1] as int)
    ensures 4 * k + 4 <= |img| ==>
              Entry(FAT32, img, k) == (img[4 * k] as int) + 0x100 * (img[4 * k + 1] as int)
                + 0x1_0000 * (img[4 * k + 2] as int) + 0x100_0000 * ((img[4 * k + 3] as int) % 16)
  {
    if 3 * k + 3 <= |img| {
      assert 2 * k + 2 * k / 2 == 3 * k && 2 * k + 1 + (2 * k + 1) / 2 == 3 * k + 1;
      var a: int, b: int, c: int := img[3 * k], img[3 * k + 1], img[3 * k + 2];
      Nibbles(a, b, c);
    }
    if 4 * k + 4 <= |img| {
      var lo := LdWord(img, 4 * k) as int + 0x1_0000 * (img[4 * k + 2] as int);
      var top: int := img[4 * k + 3];
      assert LdDword(img, k * 4) == lo + 0x100_0000 * top;
      assert lo + 0x100_0000 * top == lo + 0x100_0000 * (top % 16) + 0x1000_0000 * (top / 16);
    }
  }

  lemma Nibbles(a: int, b: int, c: int)
    requires 0 <= a < 256 && 0 <= b < 256 && 0 <= c < 256
    ensures (a + 256 * b) % 0x1000 + 0x1000 * ((b + 256 * c) / 16) == a + 256 * b + 0x1_0000 * c
    ensures (a + 256 * b) % 0x1000 < 0x1000 && (b + 256 * c) / 16 < 0x1000
  {
    var h, l := b / 16, b % 16;
    assert a + 256 * b == 0x1000 * h + (a + 256 * l);
    assert b + 256 * c == 16 * (h + 16 * c) + l;
  }

  lemma FatBytesMono(t: FatType, m: nat, n: nat)
    requires m <= n
    ensures FatBytes(t, m) <= FatBytes(t, n)
  {
  }

  lemma Fat12Offset(c: nat, n: nat)
    requires c < n
    ensures c + c / 2 + 1 < FatBytes(FAT12, n)
  {
  }

  /** The first `n` entries. */
  ghost function Decode(t: FatType, img: seq<Byte>, n: nat): (f: seq<Dword>)
    requires FatBytes(t, n) <= |img|
    ensures |f| == n
  {
    seq(n, c requires 0 <= c < n => FatBytesMono(t, c + 1, n); Entry(t, img, c))
  }

  /** Bits an entry of this type can hold. */
  function Mask(t: FatType, val: Dword): Dword
  {
    match t
    case FAT12 => val % 0x1000
    case FAT16 => val % 0x1_0000
    case FAT32 => val % 0x1000_0000
  }

  // -------------------------------------------------------- the codec on bytes

  /** First and second byte put_fat leaves for a FAT12 entry. */
  function Low12(c: nat, val: Dword, b: Byte): Byte
  {
    if c % 2 == 1 then b % 16 + val % 16 * 16 else val % 256
  }

  function High12(c: nat, val: Dword, b: Byte): Byte
  {
    if c % 2 == 1 then val / 16 % 256 else b / 16 * 16 + val / 256 % 16
  }

  lemma Put12(img: seq<Byte>, n: nat, c: nat, val: Dword, img': seq<Byte>)
    requires c < n && FatBytes(FAT12, n) <= |img| && c + c / 2 + 1 < |img|
    requires var bc := c + c / 2;
             img' == img[bc := Low12(c, val, img[bc])][bc + 1 := High12(c, val, img[bc + 1])]
    ensures Decode(FAT12, img', n) == Decode(FAT12, img, n)[c := Mask(FAT12, val)]
  {
    forall k | 0 <= k < n
      ensures Decode(FAT12, img', n)[k] == Decode(FAT12, img, n)[c := Mask(FAT12, val)][k]
    {
      FatBytesMono(FAT12, k + 1, n);
      Put12At(img, c, val, img', k);
    }
  }

  lemma Put12At(img: seq<Byte>, c: nat, val: Dword, img': seq<Byte>, k: nat)
    requires c + c / 2 + 1 < |img| && FatBytes(FAT12, k + 1) <= |img|
    requires var bc := c + c / 2;
             img' == img[bc := Low12(c, val, img[bc])][bc + 1 := High12(c, val, img[bc + 1])]
    ensures Entry(FAT12, img', k) == if k == c then Mask(FAT12, val) else Entry(FAT12, img, k)
  {
    var bc, bk := c + c / 2, k + k / 2;
    var l: int, h: int := img[bc], img[bc + 1];
    if k == c {
      if c % 2 == 1 { OddReadsBack(l, val); } else { EvenReadsBack(h, val); }
    } else if k == c + 1 && c % 2 == 0 {
      assert bk == bc + 1;
      OddKept(h, val / 256 % 16, img[bk + 1]);
    } else if k + 1 == c && c % 2 == 1 {
      assert bk + 1 == bc;
      EvenKept(img[bk], l, val % 16);
    } else {
      assert bk + 1 < bc || bk > bc + 1;
    }
  }

  lemma OddReadsBack(l: int, val: Dword)
    requires 0 <= l < 256
    ensures (l % 16 + val % 16 * 16 + 256 * (val / 16 % 256)) / 16 == val % 0x1000
  {
  }

  lemma EvenReadsBack(h: int, val: Dword)
    requires 0 <= h < 256
    ensures (val % 256 + 256 * (h / 16 * 16 + val / 256 % 16)) % 0x1000 == val % 0x1000
  {
    var q, r := val / 256, val % 256;
    var low := r + 256 * (q % 16);
    assert val == 0x1000 * (q / 16) + low;
    assert r + 256 * (h / 16 * 16 + q % 16) == 0x1000 * (h / 16) + low;
  }

  /** The entry after an even one lives in the high nibble of the shared byte. */
  lemma OddKept(h: int, n: int, b: int)
    requires 0 <= h < 256 && 0 <= n < 16 && 0 <= b < 256
    ensures (h / 16 * 16 + n + 256 * b) / 16 == (h + 256 * b) / 16
  {
  }

  /** The entry before an odd one lives in the low nibble of the shared byte. */
  lemma EvenKept(b: int, l: int, n: int)
    requires 0 <= b < 256 && 0 <= l < 256 && 0 <= n < 16
    ensures (b + 256 * (l % 16 + n * 16)) % 0x1000 == (b + 256 * l) % 0x1000
  {
  }

  lemma Put16(img: seq<Byte>, n: nat, c: nat, val: Dword)
    requires c < n && FatBytes(FAT16, n) <= |img|
    ensures Decode(FAT16, Overlay(img, c * 2, WordBytes(val)), n)
         == Decode(FAT16, img, n)[c := Mask(FAT16, val)]
  {
    var img' := StWord(img, c * 2, val);
    forall k | 0 <= k < n && k != c
      ensures LdWord(img', k * 2) == LdWord(img, k * 2)
    {
    }
  }

  /** FAT32 keeps the reserved top four bits of the entry it overwrites. */
  function Merge32(val: Dword, was: Dword): Dword
  {
    val % 0x1000_0000 + was / 0x1000_0000 * 0x1000_0000
  }

  lemma Put32(img: seq<Byte>, n: nat, c: nat, val: Dword)
    requires c < n && FatBytes(FAT32, n) <= |img|
    ensures var img' := Overlay(img, c * 4, DwordBytes(Merge32(val, LdDword(img, c * 4))));
            && Decode(FAT32, img', n) == Decode(FAT32, img, n)[c := Mask(FAT32, val)]
            && forall k :: 0 <= k < n ==>
                 LdDword(img', k * 4) / 0x1000_0000 == LdDword(img, k * 4) / 0x1000_0000
  {
    var m := Merge32(val, LdDword(img, c * 4));
    var img' := StDword(img, c * 4, m);
    forall k | 0 <= k < n && k != c
      ensures LdDword(img', k * 4) == LdDword(img, k * 4)
    {
    }
  }

  // ---------------------------------------------------- sectors of the volume

  /** `v` with sector `s` (and its copy in the second FAT, if any) set to `w`. */
  ghost function PutSector(g: Geometry, v: seq<Byte>, s: nat, w: seq<Byte>): (r: seq<Byte>)
    requires |w| == SS && (s + 1) * SS <= |v|
    requires g.Mirrored(s) ==> (s + g.fsize + 1) * SS <= |v|
    ensures |r| == |v|
  {
    var v1 := Overlay(v, s * SS, w);
    if g.Mirrored(s) then Overlay(v1, (s + g.fsize) * SS, w) else v1
  }

  lemma PutTwice(g: Geometry, v: seq<Byte>, s: nat, w: seq<Byte>, w': seq<Byte>)
    requires |w| == |w'| == SS && (s + 1) * SS <= |v|
    requires g.Mirrored(s) ==> (s + g.fsize + 1) * SS <= |v|
    ensures PutSector(g, PutSector(g, v, s, w), s, w') == PutSector(g, v, s, w')
    ensures PutSector(g, v, s, w)[s * SS..(s + 1) * SS] == w
  {
  }

  // --------------------------------------------- the first FAT inside the view

  ghost function FatImage(g: Geometry, v: seq<Byte>): (img: seq<Byte>)
    requires (g.fatbase + g.fsize) * SS <= |v|
    ensures |img| == g.fsize * SS
  {
    v[g.fatbase * SS..(g.fatbase + g.fsize) * SS]
  }

  /** The abstract FAT of a volume. */
  ghost function Fat(g: Geometry, v: seq<Byte>): (f: seq<Dword>)
    requires g.Valid(|v| / SS)
    ensures |f| == g.nFatent
  {
    Decode(g.fsType, FatImage(g, v), g.nFatent)
  }

  ghost function FatCopy(g: Geometry, v: seq<Byte>): (img: seq<Byte>)
    requires (g.fatbase + g.fsize + g.fsize) * SS <= |v|
  {
    v[(g.fatbase + g.fsize) * SS..(g.fatbase + g.fsize + g.fsize) * SS]
  }

  /** Both FAT copies agree. */
  ghost predicate FatsAgree(g: Geometry, v: seq<Byte>)
  {
    g.nFats == 2 && (g.fatbase + g.fsize + g.fsize) * SS <= |v| ==> FatImage(g, v) == FatCopy(g, v)
  }

  /** Nothing outside the FAT area differs. */
  ghost predicate SameOutsideFat(g: Geometry, v: seq<Byte>, v': seq<Byte>)
  {
    && |v'| == |v|
    && forall a :: 0 <= a < |v| && !(g.fatbase * SS <= a < (g.fatbase + g.FatArea()) * SS)
         ==> v'[a] == v[a]
  }

  /** Storing bytes inside sector `q` of the first FAT, at offset `o`. */
  lemma FatStore(g: Geometry, v: seq<Byte>, q: nat, o: nat, bytes: seq<Byte>, v': seq<Byte>)
    requires (g.fatbase + g.FatArea()) * SS <= |v| && q < g.fsize
    requires o + |bytes| <= SS
    requires var s := g.fatbase + q;
             v' == PutSector(g, v, s, Overlay(v[s * SS..(s + 1) * SS], o, bytes))
    ensures FatImage(g, v') == Overlay(FatImage(g, v), q * SS + o, bytes)
  {
    var s := g.fatbase + q;
    var w := Overlay(v[s * SS..(s + 1) * SS], o, bytes);
    OverlayWithin(v, s * SS, SS, o, bytes);
    SliceIn(v, g.fatbase * SS, (g.fatbase + g.fsize) * SS, s * SS + o, bytes);
    if g.nFats == 2 {
      MirrorStore(g, v, q, w, Overlay(v, s * SS, w));
    }
  }

  /** ... keeps the copies in step and touches nothing else. */
  lemma FatStoreUpdates(g: Geometry, v: seq<Byte>, q: nat, o: nat, bytes: seq<Byte>, v': seq<Byte>)
    requires (g.fatbase + g.FatArea()) * SS <= |v| && q < g.fsize
    requires o + |bytes| <= SS
    requires var s := g.fatbase + q;
             v' == PutSector(g, v, s, Overlay(v[s * SS..(s + 1) * SS], o, bytes))
    requires FatImage(g, v') == Overlay(FatImage(g, v), q * SS + o, bytes)
    ensures FatUpdated(g, v, v')
  {
    var s := g.fatbase + q;
    var w := Overlay(v[s * SS..(s + 1) * SS], o, bytes);
    OutsideStore(g, v, q, w, v');
    if g.nFats == 2 && FatImage(g, v) == FatCopy(g, v) {
      CopyStore(g, v, q, o, bytes, v');
    }
  }

  lemma CopyStore(g: Geometry, v: seq<Byte>, q: nat, o: nat, bytes: seq<Byte>, v': seq<Byte>)
    requires g.nFats == 2 && (g.fatbase + g.fsize + g.fsize) * SS <= |v| && q < g.fsize && o + |bytes| <= SS
    requires FatImage(g, v) == FatCopy(g, v)
    requires var s := g.fatbase + q;
             v' == PutSector(g, v, s, Overlay(v[s * SS..(s + 1) * SS], o, bytes))
    ensures |v'| == |v| && FatCopy(g, v') == Overlay(FatCopy(g, v), q * SS + o, bytes)
  {
    var s := g.fatbase + q;
    var w := Overlay(v[s * SS..(s + 1) * SS], o, bytes);
    MirrorStore(g, v, q, w, Overlay(v, s * SS, w));
    FatSectorIn(v, g.fatbase, g.fsize, q);
    assert FatCopy(g, v)[q * SS..q * SS + SS] == v[s * SS..(s + 1) * SS];
    OverlayWithin(FatCopy(g, v), q * SS, SS, o, bytes);
  }

  lemma MirrorStore(g: Geometry, v: seq<Byte>, q: nat, w: seq<Byte>, v1: seq<Byte>)
    requires (g.fatbase + g.fsize + g.fsize) * SS <= |v| && q < g.fsize && |w| == SS
    requires v1 == Overlay(v, (g.fatbase + q) * SS, w)
    ensures var v' := Overlay(v1, (g.fatbase + q + g.fsize) * SS, w);
            && FatImage(g, v') == FatImage(g, v1)
            && FatCopy(g, v') == Overlay(FatCopy(g, v), q * SS, w)
  {
    var hi, hi2 := (g.fatbase + g.fsize) * SS, (g.fatbase + g.fsize + g.fsize) * SS;
    SliceOut(v1, g.fatbase * SS, hi, (g.fatbase + q + g.fsize) * SS, w);
    SliceOut(v, hi, hi2, (g.fatbase + q) * SS, w);
    SliceIn(v1, hi, hi2, (g.fatbase + q + g.fsize) * SS, w);
  }

  lemma OutsideStore(g: Geometry, v: seq<Byte>, q: nat, w: seq<Byte>, v': seq<Byte>)
    requires (g.fatbase + g.FatArea()) * SS <= |v| && q < g.fsize && |w| == SS
    requires v' == PutSector(g, v, g.fatbase + q, w)
    ensures SameOutsideFat(g, v, v')
  {
  }

  lemma FatSectorIn(v: seq<Byte>, base: nat, size: nat, q: nat)
    requires (base + size) * SS <= |v| && q < size
    ensures Sector(v[base * SS..(base + size) * SS], q) == v[(base + q) * SS..(base + q + 1) * SS]
  {
    SliceSlice(v, base * SS, (base + size) * SS, q * SS, SS);
  }

  /** Byte-aligned entries never straddle two sectors. */
  lemma WordInSector(img: seq<Byte>, p: nat)
    requires p % 2 == 0 && (p / SS + 1) * SS <= |img|
    ensures p % SS + 2 <= SS && LdWord(Sector(img, p / SS), p % SS) == LdWord(img, p)
  {
    assert p / SS * SS + p % SS == p;
  }

  lemma DwordInSector(img: seq<Byte>, p: nat)
    requires p % 4 == 0 && (p / SS + 1) * SS <= |img|
    ensures p % SS + 4 <= SS && LdDword(Sector(img, p / SS), p % SS) == LdDword(img, p)
  {
    assert p / SS * SS + p % SS == p;
  }

  /** What one put_fat may change. */
  ghost predicate FatUpdated(g: Geometry, v: seq<Byte>, v': seq<Byte>)
  {
    && SameOutsideFat(g, v, v')
    && (FatsAgree(g, v) ==> FatsAgree(g, v'))
  }

  lemma FatUpdatedTrans(g: Geometry, v: seq<Byte>, v': seq<Byte>, v'': seq<Byte>)
    requires FatUpdated(g, v, v') && FatUpdated(g, v', v'')
    ensures FatUpdated(g, v, v'')
  {
  }

  /** The reserved top four bits of every FAT32 entry. */
  ghost function Reserved(g: Geometry, v: seq<Byte>): seq<int>
    requires g.Valid(|v| / SS) && g.fsType == FAT32
  {
    seq(g.nFatent, k requires 0 <= k < g.nFatent => LdDword(FatImage(g, v), k * 4) / 0x1000_0000)
  }
}
