/** Fixed-width integers, little-endian words and the unsigned tricks the
    sources rely on.  Machine words are subset types of `int`; every place where
    the C code can wrap says so with `Wrap32` or `Sub32`. */
module Bytes {
  const SS := 512            // sector size [byte], FF_MIN_SS == FF_MAX_SS == 512
  const TWO32 := 0x1_0000_0000

  type Byte = x: int | 0 <= x < 256
  type Word = x: int | 0 <= x < 0x1_0000
  type Dword = x: int | 0 <= x < TWO32

  /** File function return code (FRESULT), the ones this model can produce. */
  datatype FResult =
    | OK | DISK_ERR | INT_ERR | NO_FILE | INVALID_NAME | DENIED | EXIST
    | INVALID_OBJECT | NO_FILESYSTEM | MKFS_ABORTED | LOCKED | NOT_ENOUGH_CORE
    | TOO_MANY_OPEN_FILES | INVALID_PARAMETER

  datatype Option<T> = None | Some(value: T)

  function Min(a: int, b: int): int { if a <= b then a else b }
  function Max(a: int, b: int): int { if a >= b then a else b }

  /** 32-bit unsigned wrap-around. */
  function Wrap32(x: int): Dword { x % TWO32 }
  function Sub32(a: Dword, b: Dword): Dword { Wrap32(a - b) }

  /** The `x - base < n` idiom on unsigned words is a half-open interval test. */
  lemma IntervalTest(x: Dword, base: Dword, n: nat)
    requires base + n <= TWO32
    ensures Sub32(x, base) < n <==> base <= x < base + n
    ensures base <= x ==> Sub32(x, base) == x - base
  {
  }

  lemma Wrap32Id(x: int)
    requires 0 <= x < TWO32
    ensures Wrap32(x) == x
  {
  }

  predicate IsPow2(n: int)
  {
    n == 1 || (n > 1 && n % 2 == 0 && IsPow2(n / 2))
  }

  /** Bitwise conjunction. */
  function BitAnd(x: nat, y: nat): nat
  {
    if x == 0 || y == 0 then 0 else x % 2 * (y % 2) + 2 * BitAnd(x / 2, y / 2)
  }

  /** Masking with `n - 1` is the remainder by a power of two. */
  lemma {:induction false} MaskIsMod(x: nat, n: nat)
    requires IsPow2(n)
    ensures BitAnd(x, n - 1) == x % n
  {
    if n > 1 {
      MaskIsMod(x / 2, n / 2);
      var m := n / 2;
      assert n - 1 == 2 * (m - 1) + 1;
      HalveMod(x, m);
    }
  }

  lemma HalveMod(x: nat, m: nat)
    requires m > 0
    ensures x % (2 * m) == x % 2 + 2 * (x / 2 % m)
  {
    var q, r := x / 2 / m, x / 2 % m;
    assert x / 2 == q * m + r;
    DivModUnique(x, 2 * m, q, 2 * r + x % 2);
  }

  lemma Pow2Sectors(n: nat)
    requires IsPow2(n)
    ensures IsPow2(n * SS)
  {
    Pow2Twice(n); Pow2Twice(n * 2); Pow2Twice(n * 4); Pow2Twice(n * 8); Pow2Twice(n * 16);
    Pow2Twice(n * 32); Pow2Twice(n * 64); Pow2Twice(n * 128); Pow2Twice(n * 256);
  }

  lemma Pow2Twice(n: nat)
    requires IsPow2(n)
    ensures IsPow2(n * 2)
  {
    assert n * 2 / 2 == n;
  }

  lemma DivModUnique(x: int, b: int, q: int, r: int)
    requires b > 0 && x == q * b + r && 0 <= r < b
    ensures x / b == q && x % b == r
  {
    var d := x / b - q;
    assert d * b == r - x % b;
    SmallMultiple(d, b);
  }

  lemma SmallMultiple(d: int, b: int)
    requires b > 0 && -b < d * b < b
    ensures d == 0
  {
  }

  lemma DivBounds(x: nat, b: nat, q: nat)
    requires b > 0 && q == x / b
    ensures b * q <= x < b * (q + 1)
  {
  }

  lemma MulLe(b: nat, p: nat, q: nat)
    requires p <= q
    ensures b * p <= b * q
  {
  }

  /** `n & (n - 1)` is zero exactly for zero and the powers of two. */
  lemma {:induction false} Pow2Test(n: nat)
    requires n > 0
    ensures BitAnd(n, n - 1) == 0 <==> IsPow2(n)
  {
    if n > 1 {
      if n % 2 == 0 {
        Pow2Test(n / 2);
        assert (n - 1) / 2 == n / 2 - 1;
      } else {
        assert (n - 1) / 2 == n / 2;
        AndSelf(n / 2);
      }
    }
  }

  lemma {:induction false} AndSelf(x: nat)
    ensures BitAnd(x, x) == x
  {
    if x > 0 { AndSelf(x / 2); }
  }

  lemma {:induction false} Pow2Below(n: nat, m: nat)
    requires IsPow2(n) && IsPow2(m) && n < 2 * m
    ensures n <= m
  {
    if n > 1 && m > 1 { Pow2Below(n / 2, m / 2); }
  }

  function LdWord(s: seq<Byte>, p: nat): Word
    requires p + 2 <= |s|
  {
    var b0: int, b1: int := s[p], s[p + 1];
    b0 + 256 * b1
  }

  function LdDword(s: seq<Byte>, p: nat): Dword
    requires p + 4 <= |s|
  {
    var b0: int, b1: int, b2: int, b3: int := s[p], s[p + 1], s[p + 2], s[p + 3];
    b0 + 256 * (b1 + 256 * (b2 + 256 * b3))
  }

  function WordBytes(v: Dword): (b: seq<Byte>)
    ensures |b| == 2
  {
    [v % 256, v / 256 % 256]
  }

  function DwordBytes(v: Dword): (b: seq<Byte>)
    ensures |b| == 4
  {
    [v % 256, v / 256 % 256, v / 0x1_0000 % 256, v / 0x100_0000]
  }

  lemma WordDigits(v: Dword)
    ensures LdWord(WordBytes(v), 0) == v % 0x1_0000
  {
    var q, r := v / 256, v % 256;
    assert v == 0x1_0000 * (q / 256) + 256 * (q % 256) + r;
  }

  /** The little-endian digits of a word. */
  lemma DwordDigits(v: Dword)
    ensures LdDword(DwordBytes(v), 0) == v
  {
    var q: int := v / 256;
    assert v / 0x1_0000 == q / 256 && v / 0x100_0000 == q / 256 / 256;
  }

  lemma DwordBack(s: seq<Byte>, p: nat, v: Dword)
    requires p + 4 <= |s| && s[p..p + 4] == DwordBytes(v)
    ensures LdDword(s, p) == v
  {
    var b := s[p..p + 4];
    assert s[p] == b[0] && s[p + 1] == b[1] && s[p + 2] == b[2] && s[p + 3] == b[3];
    DwordDigits(v);
  }

  /** `d` with the bytes at `base` replaced by `w`. */
  function Overlay(d: seq<Byte>, base: nat, w: seq<Byte>): (r: seq<Byte>)
    requires base + |w| <= |d|
    ensures |r| == |d|
    ensures forall a :: 0 <= a < |d| ==> r[a] == if base <= a < base + |w| then w[a - base] else d[a]
  {
    seq(|d|, a requires 0 <= a < |d| => if base <= a < base + |w| then w[a - base] else d[a])
  }

  /** Sector `s` of the bytes `d`. */
  function Sector(d: seq<Byte>, s: nat): (w: seq<Byte>)
    requires (s + 1) * SS <= |d|
    ensures |w| == SS
  {
    d[s * SS..(s + 1) * SS]
  }

  lemma SliceIn(v: seq<Byte>, lo: nat, hi: nat, a: nat, w: seq<Byte>)
    requires lo <= a && a + |w| <= hi <= |v|
    ensures Overlay(v, a, w)[lo..hi] == Overlay(v[lo..hi], a - lo, w)
  {
  }

  lemma SliceOut(v: seq<Byte>, lo: nat, hi: nat, a: nat, w: seq<Byte>)
    requires lo <= hi <= |v| && a + |w| <= |v|
    requires a + |w| <= lo || hi <= a
    ensures Overlay(v, a, w)[lo..hi] == v[lo..hi]
  {
  }

  lemma SliceSlice(v: seq<Byte>, lo: nat, hi: nat, o: nat, n: nat)
    requires lo <= hi <= |v| && o + n <= hi - lo
    ensures v[lo..hi][o..o + n] == v[lo + o..lo + o + n]
  {
    var a, b := v[lo..hi][o..o + n], v[lo + o..lo + o + n];
    forall j | 0 <= j < n ensures a[j] == b[j] {
    }
  }

  lemma OverlayWithin(v: seq<Byte>, a: nat, n: nat, o: nat, w: seq<Byte>)
    requires a + n <= |v| && o + |w| <= n
    ensures Overlay(v, a, Overlay(v[a..a + n], o, w)) == Overlay(v, a + o, w)
  {
  }

  /** memcpy into a buffer. */
  method MemCpy(a: array<Byte>, ofs: nat, bytes: seq<Byte>)
    requires ofs + |bytes| <= a.Length
    modifies a
    ensures a[..] == Overlay(old(a[..]), ofs, bytes)
  {
    forall i | 0 <= i < |bytes| {
      a[ofs + i] := bytes[i];
    }
  }

  function StWord(s: seq<Byte>, p: nat, v: Dword): (r: seq<Byte>)
    requires p + 2 <= |s|
    ensures |r| == |s| && LdWord(r, p) == v % 0x1_0000
  {
    WordDigits(v);
    Overlay(s, p, WordBytes(v))
  }

  function StDword(s: seq<Byte>, p: nat, v: Dword): (r: seq<Byte>)
    requires p + 4 <= |s|
    ensures |r| == |s| && LdDword(r, p) == v
  {
    DwordDigits(v);
    Overlay(s, p, DwordBytes(v))
  }
}
