/** The bytes of a file as the chain of clusters that hold them. */
module FileData {
  import opened Bytes
  import opened Layout
  import opened FatBits
  import opened Chains

  // ---------------------------------------------------------------- positions

  /** Address on the volume of byte `p` of the file stored in `ch`. */
  ghost function Addr(g: Geometry, ch: seq<Dword>, p: nat): int
    requires g.csize > 0 && p / g.Bcs() < |ch|
  {
    g.ClusterBase(ch[p / g.Bcs()]) + p % g.Bcs()
  }

  ghost function ByteAt(g: Geometry, v: seq<Byte>, ch: seq<Dword>, p: nat): Byte
    requires g.csize > 0
  {
    if p / g.Bcs() < |ch| && 0 <= Addr(g, ch, p) < |v| then v[Addr(g, ch, p)] else 0
  }

  /** The contents of a file of `size` bytes. */
  ghost function Content(g: Geometry, v: seq<Byte>, ch: seq<Dword>, size: nat): (s: seq<Byte>)
    requires g.csize > 0
    ensures |s| == size
  {
    seq(size, p requires 0 <= p < size => ByteAt(g, v, ch, p))
  }

  /** The contents of a file whose clusters follow each other from `c` on are one piece of the volume. */
  lemma ContiguousIs(g: Geometry, v: seq<Byte>, ch: seq<Dword>, size: nat, c: nat, a: nat)
    requires g.csize > 0 && c >= 2 && forall i :: 0 <= i < |ch| ==> ch[i] == c + i
    requires a == (g.database + g.csize * (c - 2)) * 512
    requires size <= |ch| * (g.csize * 512) && a + size <= |v|
    ensures Content(g, v, ch, size) == v[a..a + size]
  {
    forall p | 0 <= p < size ensures ByteAt(g, v, ch, p) == v[a + p] {
      ContiguousAt(g, ch, c, a, p);
    }
  }

  lemma ContiguousAt(g: Geometry, ch: seq<Dword>, c: nat, a: nat, p: nat)
    requires g.csize > 0 && c >= 2 && forall i :: 0 <= i < |ch| ==> ch[i] == c + i
    requires a == (g.database + g.csize * (c - 2)) * 512
    requires p < |ch| * (g.csize * 512)
    ensures p / g.Bcs() < |ch| && Addr(g, ch, p) == a + p
  {
    assert g.Bcs() == g.csize * 512;
    Covered(g, p, |ch|);
    WithinExists(g, p);
    IndexNat(g, p);
    ClusterAfter(g, c, p / g.Bcs(), a);
  }

  lemma ClusterAfter(g: Geometry, c: nat, k: nat, a: nat)
    requires c >= 2 && a == (g.database + g.csize * (c - 2)) * 512
    ensures g.ClusterBase(c + k) == a + k * g.Bcs()
  {
    assert g.csize * (c + k - 2) == g.csize * (c - 2) + g.csize * k;
    assert g.csize * k * 512 == k * g.Bcs();
  }

  /** `s` with the bytes from `p` on replaced by `d`, growing if needed. */
  ghost function Splice(s: seq<Byte>, p: nat, d: seq<Byte>): (r: seq<Byte>)
    requires p <= |s|
    ensures |r| == Max(|s|, p + |d|)
    ensures forall i :: 0 <= i < |r| ==> r[i] == if p <= i < p + |d| then d[i - p] else s[i]
  {
    seq(Max(|s|, p + |d|), i requires 0 <= i < Max(|s|, p + |d|) =>
      if p <= i < p + |d| then d[i - p] else s[i])
  }

  lemma SpliceAppend(s: seq<Byte>, p: nat, d: seq<Byte>, e: seq<Byte>)
    requires p <= |s|
    ensures Splice(Splice(s, p, d), p + |d|, e) == Splice(s, p, d + e)
  {
  }

  lemma SpliceNothing(s: seq<Byte>, p: nat)
    requires p <= |s|
    ensures Splice(s, p, []) == s
  {
  }

  /** Position `p` is byte `r` of the file's cluster number `k`. */
  ghost predicate Within(g: Geometry, p: int, k: int, r: int)
  {
    p == k * g.Bcs() + r && 0 <= r < g.Bcs()
  }

  lemma IndexNat(g: Geometry, p: nat)
    requires g.csize > 0
    ensures 0 <= p / g.Bcs() && 0 <= p % g.Bcs() < g.Bcs()
  {
  }

  lemma WithinUnique(g: Geometry, p: int, k: int, r: int)
    requires Within(g, p, k, r)
    ensures p / g.Bcs() == k && p % g.Bcs() == r
  {
    DivModUnique(p, g.Bcs(), k, r);
  }

  lemma WithinExists(g: Geometry, p: int)
    requires g.csize > 0
    ensures Within(g, p, p / g.Bcs(), p % g.Bcs())
  {
  }

  /** A file of `m` clusters covers exactly the positions below `m * Bcs`. */
  lemma Covered(g: Geometry, p: nat, m: nat)
    requires g.csize > 0
    ensures p < m * g.Bcs() <==> p / g.Bcs() < m
  {
    var b := g.Bcs();
    IndexNat(g, p);
    var k := p / b;
    DivBounds(p, b, k);
    if k < m { MulLe(b, k + 1, m); } else { MulLe(b, m, k); }
  }

  // ------------------------------------------------------------------- writes

  /** Address of the run that starts at byte `r` of cluster `c`. */
  ghost function RunBase(g: Geometry, c: Dword, r: int): int { g.ClusterBase(c) + r }

  /** `v'` holds `d` at the run, nothing else changed except, possibly, the rest of
      the `len` bytes from there. */
  ghost predicate Stored(v: seq<Byte>, v': seq<Byte>, a: int, d: seq<Byte>, len: int)
  {
    && |v'| == |v| && 0 <= a && |d| <= len && a + len <= |v|
    && (forall x :: a <= x < a + |d| ==> v'[x] == d[x - a])
    && (forall x :: 0 <= x < |v| && !(a <= x < a + len) ==> v'[x] == v[x])
  }

  /** Positions of the file outside the run are not stored in it. */
  lemma OutsideRun(g: Geometry, f: FatMap, ch: seq<Dword>, p: nat, k: nat, r: nat, len: nat, q: nat)
    requires IsChain(f, ch) && g.csize > 0
    requires Within(g, p, k, r) && k < |ch| && r + len <= g.Bcs()
    requires q / g.Bcs() < |ch|
    ensures q < p || q >= p + len ==>
              !(RunBase(g, ch[k], r) <= Addr(g, ch, q) < RunBase(g, ch[k], r) + len)
    ensures p <= q < p + len ==> Addr(g, ch, q) == RunBase(g, ch[k], r) + (q - p)
  {
    var kq, rq := q / g.Bcs(), q % g.Bcs();
    WithinExists(g, q);
    if p <= q < p + len {
      WithinUnique(g, q, k, r + (q - p));
    } else if kq < k {
      ChainDistinct(f, ch, kq, k);
      OtherCluster(g, ch[kq], rq, ch[k], r, len);
    } else if kq > k {
      ChainDistinct(f, ch, k, kq);
      OtherCluster(g, ch[kq], rq, ch[k], r, len);
    }
  }

  lemma OtherCluster(g: Geometry, c: Dword, rc: int, d: Dword, rd: int, len: int)
    requires c != d && 0 <= rc < g.Bcs() && 0 <= rd && rd + len <= g.Bcs()
    ensures !(RunBase(g, d, rd) <= RunBase(g, c, rc) < RunBase(g, d, rd) + len)
  {
    if c < d { ClustersDisjoint(g, c, d); } else { ClustersDisjoint(g, d, c); }
  }

  /** Storing `d` at position `p` splices it into the file.  A store that also
      scribbles behind `d` is harmless at the end of the file. */
  lemma WriteEffect(g: Geometry, f: FatMap, v: seq<Byte>, v': seq<Byte>, ch: seq<Dword>,
                    size: nat, p: nat, k: nat, r: nat, d: seq<Byte>, len: nat)
    requires IsChain(f, ch) && g.csize > 0 && size <= |ch| * g.Bcs()
    requires Within(g, p, k, r) && k < |ch| && r + len <= g.Bcs()
    requires Stored(v, v', RunBase(g, ch[k], r), d, len)
    requires p <= size && (len == |d| || p == size)
    ensures Content(g, v', ch, Max(size, p + |d|)) == Splice(Content(g, v, ch, size), p, d)
    ensures p + |d| <= |ch| * g.Bcs()
  {
    var n := Max(size, p + |d|);
    RunCovered(g, |ch|, p, k, r, |d|);
    var s, t := Content(g, v, ch, size), Content(g, v', ch, n);
    forall q | 0 <= q < n
      ensures t[q] == Splice(s, p, d)[q]
    {
      Covered(g, q, |ch|);
      OutsideRun(g, f, ch, p, k, r, len, q);
      if p <= q < p + |d| {
        assert t[q] == d[q - p];
      } else {
        assert q < p || q >= p + len;
        assert t[q] == s[q];
      }
    }
  }

  lemma RunCovered(g: Geometry, m: nat, p: int, k: nat, r: int, len: int)
    requires Within(g, p, k, r) && k < m && r + len <= g.Bcs()
    ensures p + len <= m * g.Bcs()
  {
    MulLe(g.Bcs(), k + 1, m);
  }

  // ------------------------------------------------- what a write leaves alone

  /** Address `a` lies in a cluster of `ch`. */
  ghost predicate Owned(g: Geometry, ch: seq<Dword>, a: int)
  {
    exists i :: 0 <= i < |ch| && InCluster(g, ch[i], a)
  }

  ghost predicate InCluster(g: Geometry, c: Dword, a: int)
  {
    g.ClusterBase(c) <= a < g.ClusterBase(c) + g.Bcs()
  }

  ghost predicate InFatArea(g: Geometry, a: int)
  {
    g.fatbase * SS <= a < (g.fatbase + g.FatArea()) * SS
  }

  /** Only the FAT area and the clusters of `ch` may differ. */
  ghost predicate SameElsewhere(g: Geometry, ch: seq<Dword>, v: seq<Byte>, v': seq<Byte>)
  {
    && |v'| == |v|
    && forall a :: 0 <= a < |v| && !InFatArea(g, a) && !Owned(g, ch, a) ==> v'[a] == v[a]
  }

  // ------------------------------------------------- what no file can overwrite

  /** Address `a` is in front of the FATs, behind the last cluster or, with `root`, in the root table
      between FATs and clusters. */
  ghost predicate OffLimits(g: Geometry, a: int, root: bool)
  {
    || a < g.fatbase * SS || (root && g.FatEnd() * SS <= a < g.database * SS)
    || a >= (g.database + g.csize * (g.nFatent - 2)) * SS
  }

  ghost predicate UnfoldArea(k: int) { true }

  /** Nothing has changed there (to be looked at through `UnfoldArea`). */
  ghost predicate AreaKept(g: Geometry, v: seq<Byte>, v': seq<Byte>, root: bool)
  {
    forall k :: UnfoldArea(k) ==>
      |v'| == |v| && forall a :: 0 <= a < |v| && OffLimits(g, a, root) ==> v'[a] == v[a]
  }

  lemma AreaWeaker(g: Geometry, v: seq<Byte>, v': seq<Byte>, root: bool)
    requires AreaKept(g, v, v', root)
    ensures AreaKept(g, v, v', false)
  {
    assert UnfoldArea(0);
  }

  lemma AreaTrans(g: Geometry, v: seq<Byte>, v': seq<Byte>, v'': seq<Byte>, root: bool)
    requires AreaKept(g, v, v', root) && AreaKept(g, v', v'', root)
    ensures AreaKept(g, v, v'', root)
  {
    assert UnfoldArea(0);
  }

  /** The clusters lie between the root table and the end of the volume. */
  lemma ClusterWithin(g: Geometry, c: int)
    requires 2 <= c < g.nFatent
    ensures g.database * SS <= g.ClusterBase(c)
    ensures g.ClusterBase(c) + g.Bcs() <= (g.database + g.csize * (g.nFatent - 2)) * SS
  {
    if c < g.nFatent - 1 { MulStep(g.csize, c - 1, g.nFatent - 2); }
    if 2 < c { MulStep(g.csize, 0, c - 2); }
    assert g.csize * (c - 2) + g.csize == g.csize * (c - 1);
  }

  lemma OutsideAll(g: Geometry, sectors: nat, a: int, root: bool)
    requires g.Valid(sectors) && OffLimits(g, a, root)
    ensures !InFatArea(g, a) && forall c: Dword :: 2 <= c < g.nFatent ==> !InCluster(g, c, a)
  {
    forall c: Dword | 2 <= c < g.nFatent ensures !InCluster(g, c, a) { ClusterWithin(g, c); }
    MulLe(g.csize, 1, g.nFatent - 2);
  }

  /** A write into the clusters of a chain keeps it. */
  lemma ElsewhereKeeps(g: Geometry, sectors: nat, f: FatMap, ch: seq<Dword>, v: seq<Byte>, v': seq<Byte>)
    requires g.Valid(sectors) && |f| == g.nFatent && IsChain(f, ch) && SameElsewhere(g, ch, v, v')
    ensures AreaKept(g, v, v', true)
  {
    forall a | 0 <= a < |v| && OffLimits(g, a, true) ensures v'[a] == v[a] {
      OutsideAll(g, sectors, a, true);
      assert !Owned(g, ch, a);
    }
  }

  /** The chain `ch` of `f` has grown to `ch'` in `f'` by clusters that were free, and
      no entry off the grown chain has changed. */
  ghost predicate Extends(f: FatMap, ch: seq<Dword>, f': FatMap, ch': seq<Dword>)
  {
    && |f'| == |f| && ch <= ch'
    && (forall i :: |ch| <= i < |ch'| ==> 2 <= ch'[i] < |f| && f[ch'[i]] == 0)
    && (forall c :: 0 <= c < |f| && c !in ch' ==> f'[c] == f[c])
  }

  lemma ExtendsTrans(f: FatMap, ch: seq<Dword>, f': FatMap, ch': seq<Dword>, f'': FatMap, ch'': seq<Dword>)
    requires Extends(f, ch, f', ch') && Extends(f', ch', f'', ch'') && IsChain(f', ch')
    ensures Extends(f, ch, f'', ch'')
  {
    forall i | |ch| <= i < |ch''|
      ensures 2 <= ch''[i] < |f| && f[ch''[i]] == 0
    {
      if i < |ch'| {
        assert ch''[i] == ch'[i];
      } else {
        forall j | 0 <= j < |ch'| ensures ch'[j] != ch''[i] {
          assert Linked(f', ch', j);
        }
      }
    }
    forall c | 0 <= c < |f| && c !in ch'' ensures f''[c] == f[c] {
      assert c !in ch';
    }
  }

  lemma OwnedMore(g: Geometry, ch: seq<Dword>, ch': seq<Dword>, a: int)
    requires ch <= ch' && Owned(g, ch, a)
    ensures Owned(g, ch', a)
  {
    var i :| 0 <= i < |ch| && InCluster(g, ch[i], a);
    assert InCluster(g, ch'[i], a);
  }

  lemma ElsewhereTrans(g: Geometry, ch: seq<Dword>, ch': seq<Dword>, v: seq<Byte>, v': seq<Byte>, v'': seq<Byte>)
    requires ch <= ch' && SameElsewhere(g, ch, v, v') && SameElsewhere(g, ch', v', v'')
    ensures SameElsewhere(g, ch', v, v'')
  {
    forall a | 0 <= a < |v| && !InFatArea(g, a) && !Owned(g, ch', a)
      ensures v''[a] == v[a]
    {
      if Owned(g, ch, a) { OwnedMore(g, ch, ch', a); }
    }
  }

  /** Data clusters lie behind the FAT area. */
  lemma ClusterBehindFat(g: Geometry, sectors: nat, c: Dword, r: int)
    requires g.Valid(sectors) && 2 <= c < g.nFatent && 0 <= r < g.Bcs()
    ensures !InFatArea(g, g.ClusterBase(c) + r)
    ensures g.database * SS <= g.ClusterBase(c) + r < sectors * SS
  {
    ClusterInside(g, sectors, c);
  }

  ghost predicate SameIn(g: Geometry, c: Dword, v: seq<Byte>, v': seq<Byte>)
    requires |v'| == |v|
  {
    forall a :: 0 <= a < |v| && InCluster(g, c, a) ==> v'[a] == v[a]
  }

  /** The contents depend only on the bytes of the chain's clusters. */
  lemma ContentFrame(g: Geometry, v: seq<Byte>, v': seq<Byte>, ch: seq<Dword>, size: nat)
    requires g.csize > 0 && |v'| == |v|
    requires forall k :: 0 <= k < |ch| ==> SameIn(g, ch[k], v, v')
    ensures Content(g, v', ch, size) == Content(g, v, ch, size)
  {
    forall p | 0 <= p < size
      ensures ByteAt(g, v', ch, p) == ByteAt(g, v, ch, p)
    {
      ByteFrame(g, v, v', ch, p);
    }
  }

  lemma ByteFrame(g: Geometry, v: seq<Byte>, v': seq<Byte>, ch: seq<Dword>, p: nat)
    requires g.csize > 0 && |v'| == |v|
    requires forall k :: 0 <= k < |ch| ==> SameIn(g, ch[k], v, v')
    ensures ByteAt(g, v', ch, p) == ByteAt(g, v, ch, p)
  {
    IndexNat(g, p);
    if p / g.Bcs() < |ch| {
      AddrInCluster(g, ch, p);
      assert SameIn(g, ch[p / g.Bcs()], v, v');
    }
  }

  lemma AddrInCluster(g: Geometry, ch: seq<Dword>, p: nat)
    requires g.csize > 0 && p / g.Bcs() < |ch|
    ensures InCluster(g, ch[p / g.Bcs()], Addr(g, ch, p))
  {
  }

  lemma FatChangeSameIn(g: Geometry, v: seq<Byte>, v': seq<Byte>, c: Dword)
    requires g.Valid(|v| / SS) && 2 <= c < g.nFatent && SameOutsideFat(g, v, v')
    ensures SameIn(g, c, v, v')
  {
    forall a | 0 <= a < |v| && InCluster(g, c, a) ensures v'[a] == v[a] {
      ClusterBehindFat(g, |v| / SS, c, a - g.ClusterBase(c));
    }
  }

  lemma ElsewhereSameIn(g: Geometry, v: seq<Byte>, v': seq<Byte>, ch: seq<Dword>, c: Dword)
    requires g.Valid(|v| / SS) && 2 <= c < g.nFatent && c !in ch && SameElsewhere(g, ch, v, v')
    ensures SameIn(g, c, v, v')
  {
    forall a | 0 <= a < |v| && InCluster(g, c, a) ensures v'[a] == v[a] {
      ClusterBehindFat(g, |v| / SS, c, a - g.ClusterBase(c));
      NotOwned(g, ch, c, a - g.ClusterBase(c));
    }
  }

  /** A change of the FAT alone changes no file. */
  lemma FatChangeKeepsContent(g: Geometry, f: FatMap, v: seq<Byte>, v': seq<Byte>, ch: seq<Dword>, size: nat)
    requires g.Valid(|v| / SS) && |f| == g.nFatent && IsChain(f, ch) && SameOutsideFat(g, v, v')
    ensures Content(g, v', ch, size) == Content(g, v, ch, size)
  {
    forall k | 0 <= k < |ch| ensures SameIn(g, ch[k], v, v') {
      FatChangeSameIn(g, v, v', ch[k]);
    }
    ContentFrame(g, v, v', ch, size);
  }

  /** No other file notices: its chain, its disjointness and its bytes survive. */
  lemma OthersUnchanged(g: Geometry, f: FatMap, v: seq<Byte>, ch: seq<Dword>,
                        f': FatMap, v': seq<Byte>, ch': seq<Dword>, other: seq<Dword>, size: nat)
    requires g.Valid(|v| / SS) && |f| == g.nFatent
    requires IsChain(f, other) && Disjoint(other, ch)
    requires Extends(f, ch, f', ch') && SameElsewhere(g, ch', v, v')
    ensures IsChain(f', other) && Disjoint(other, ch')
    ensures Content(g, v', other, size) == Content(g, v, other, size)
  {
    StillDisjoint(f, ch, f', ch', other);
    ChainFrame(f, f', other);
    forall k | 0 <= k < |other| ensures SameIn(g, other[k], v, v') {
      ElsewhereSameIn(g, v, v', ch', other[k]);
    }
    ContentFrame(g, v, v', other, size);
  }

  lemma StillDisjoint(f: FatMap, ch: seq<Dword>, f': FatMap, ch': seq<Dword>, other: seq<Dword>)
    requires IsChain(f, other) && Disjoint(other, ch) && Extends(f, ch, f', ch')
    ensures Disjoint(other, ch')
  {
    forall i | 0 <= i < |other| ensures other[i] !in ch' {
      assert Linked(f, other, i);
      forall j | 0 <= j < |ch'| ensures ch'[j] != other[i] {
        if j < |ch| { assert ch'[j] == ch[j]; }
      }
    }
  }

  lemma NotOwned(g: Geometry, ch: seq<Dword>, c: Dword, r: int)
    requires c !in ch && 0 <= r < g.Bcs()
    ensures !Owned(g, ch, g.ClusterBase(c) + r)
  {
    forall i | 0 <= i < |ch| ensures !InCluster(g, ch[i], g.ClusterBase(c) + r) {
      OtherCluster(g, c, r, ch[i], 0, g.Bcs());
    }
  }

  /** A store inside cluster `k` of `ch` changes nothing elsewhere. */
  lemma StoredInside(g: Geometry, v: seq<Byte>, v': seq<Byte>, ch: seq<Dword>, k: nat, r: nat, d: seq<Byte>, len: nat)
    requires k < |ch| && r + len <= g.Bcs()
    requires Stored(v, v', RunBase(g, ch[k], r), d, len)
    ensures SameElsewhere(g, ch, v, v')
  {
    forall a | 0 <= a < |v| && !Owned(g, ch, a) ensures v'[a] == v[a] {
      assert !InCluster(g, ch[k], a);
    }
  }

  /** The bytes of a file do not depend on clusters behind its end. */
  lemma PrefixContent(g: Geometry, v: seq<Byte>, ch: seq<Dword>, ch': seq<Dword>, size: nat)
    requires g.csize > 0 && ch <= ch' && size <= |ch| * g.Bcs()
    ensures Content(g, v, ch', size) == Content(g, v, ch, size)
    ensures size <= |ch'| * g.Bcs()
  {
    forall p | 0 <= p < size ensures ByteAt(g, v, ch', p) == ByteAt(g, v, ch, p) {
      PrefixByte(g, v, ch, ch', p);
    }
    LongerCovers(g.Bcs(), |ch|, |ch'|);
  }

  lemma PrefixByte(g: Geometry, v: seq<Byte>, ch: seq<Dword>, ch': seq<Dword>, p: nat)
    requires g.csize > 0 && ch <= ch' && p < |ch| * g.Bcs()
    ensures ByteAt(g, v, ch', p) == ByteAt(g, v, ch, p)
  {
    Covered(g, p, |ch|);
    assert ch'[p / g.Bcs()] == ch[p / g.Bcs()];
  }

  lemma LongerCovers(b: nat, m: nat, m': nat)
    requires m <= m'
    ensures m * b <= m' * b
  {
  }

  lemma FatChangeElsewhere(g: Geometry, v: seq<Byte>, v': seq<Byte>, ch: seq<Dword>)
    requires SameOutsideFat(g, v, v')
    ensures SameElsewhere(g, ch, v, v')
  {
  }

  // ------------------------------------------------------- sectors and cursors

  /** Sector offset in the cluster, as the sources compute it by masking. */
  function SectorInCluster(g: Geometry, p: nat): nat
    requires g.csize > 0
  {
    BitAnd(p / SS, g.csize - 1)
  }

  /** Splitting a position into cluster index, sector in the cluster and byte. */
  lemma SplitPosition(g: Geometry, p: nat)
    requires g.csize > 0 && IsPow2(g.csize)
    ensures var cs := SectorInCluster(g, p);
            cs < g.csize && Within(g, p, p / g.Bcs(), cs * SS + p % SS)
  {
    var q := p / SS;
    MaskIsMod(q, g.csize);
    DivModExact(q, g.csize);
    JoinPosition(g, p, q, p % SS, q / g.csize, q % g.csize);
    WithinUnique(g, p, q / g.csize, q % g.csize * SS + p % SS);
  }

  lemma DivModExact(q: nat, n: nat)
    requires n > 0
    ensures q == q / n * n + q % n && 0 <= q % n < n && 0 <= q / n
  {
  }

  lemma JoinPosition(g: Geometry, p: nat, q: nat, o: nat, k: nat, cs: nat)
    requires p == q * SS + o && o < SS && q == k * g.csize + cs && cs < g.csize
    ensures Within(g, p, k, cs * SS + o)
  {
    assert q * SS == k * g.csize * SS + cs * SS;
    assert k * g.csize * SS == k * g.Bcs();
  }

  /** Where the cursor is after a transfer of `cnt` bytes that stays in its cluster. */
  lemma Arrive(g: Geometry, p: nat, k: nat, r: nat, cnt: nat)
    requires Within(g, p, k, r) && 0 < cnt && r + cnt <= g.Bcs()
    ensures (p + cnt - 1) / g.Bcs() == k
    ensures r + cnt < g.Bcs() ==> (p + cnt) / g.Bcs() == k && (p + cnt) % g.Bcs() == r + cnt
  {
    WithinUnique(g, p + cnt - 1, k, r + cnt - 1);
    if r + cnt < g.Bcs() {
      WithinUnique(g, p + cnt, k, r + cnt);
    }
  }

  lemma WholeSectors(p: nat, cc: nat)
    requires p % SS == 0
    ensures cc * SS % SS == 0 && (p + cc * SS) % SS == 0
  {
  }

  lemma ByteInSector(g: Geometry, p: nat, k: nat, cs: nat, o: nat)
    requires Within(g, p, k, cs * SS + o) && o < SS
    ensures p % SS == o
  {
    assert p == (k * g.csize + cs) * SS + o;
    DivModUnique(p, SS, k * g.csize + cs, o);
  }

  /** Bytes left in the cursor's sector, and where a transfer of at most that many
      leaves the cursor. */
  lemma ArriveInSector(g: Geometry, p: nat, k: nat, cs: nat, cnt: nat)
    requires cs < g.csize && Within(g, p, k, cs * SS + p % SS)
    requires 0 < cnt <= SS - p % SS
    ensures cs * SS + p % SS + cnt <= g.Bcs()
    ensures (p + cnt) % SS != 0 ==>
              && (p + cnt) / g.Bcs() == k && (p + cnt) % g.Bcs() == cs * SS + p % SS + cnt
              && (p + cnt) % g.Bcs() / SS == cs
  {
    var o := p % SS;
    assert cs * SS + SS <= g.csize * SS;
    if o + cnt == SS {
      assert p + cnt == (p / SS + 1) * SS;
      WholeSectors(0, p / SS + 1);
    } else {
      Arrive(g, p, k, cs * SS + o, cnt);
      DivModUnique(cs * SS + o + cnt, SS, cs, o + cnt);
    }
  }

  // -------------------------------------------------------------------- reads

  /** A run inside one cluster holds consecutive bytes of the file. */
  lemma ReadEffect(g: Geometry, f: FatMap, v: seq<Byte>, ch: seq<Dword>, size: nat,
                   p: nat, k: nat, r: nat, cnt: nat)
    requires IsChain(f, ch) && g.csize > 0 && size <= |ch| * g.Bcs()
    requires Within(g, p, k, r) && k < |ch| && r + cnt <= g.Bcs() && p + cnt <= size
    requires 0 <= g.ClusterBase(ch[k]) && g.ClusterBase(ch[k]) + r + cnt <= |v|
    ensures var a := g.ClusterBase(ch[k]) + r;
            v[a..a + cnt] == Content(g, v, ch, size)[p..p + cnt]
  {
    var a := g.ClusterBase(ch[k]) + r;
    var x, y := v[a..a + cnt], Content(g, v, ch, size)[p..p + cnt];
    forall j | 0 <= j < cnt ensures x[j] == y[j] {
      RunAddr(g, ch, p, k, r, j);
    }
  }

  lemma RunAddr(g: Geometry, ch: seq<Dword>, p: nat, k: nat, r: nat, j: nat)
    requires Within(g, p, k, r) && k < |ch| && r + j < g.Bcs()
    ensures (p + j) / g.Bcs() == k && Addr(g, ch, p + j) == g.ClusterBase(ch[k]) + r + j
  {
    WithinUnique(g, p + j, k, r + j);
  }

  /** The top of the cluster that holds byte `p`, by masking (`p & ~(bcs - 1)`). */
  function ClusterTop(g: Geometry, p: nat): int
    requires g.csize > 0
  {
    p - BitAnd(p, g.Bcs() - 1)
  }

  lemma ClusterTopIs(g: Geometry, p: nat)
    requires g.csize > 0 && IsPow2(g.csize)
    ensures ClusterTop(g, p) == p / g.Bcs() * g.Bcs() && 0 <= p / g.Bcs() && ClusterTop(g, p) <= p
  {
    Pow2Sectors(g.csize);
    MaskIsMod(p, g.Bcs());
    DivModExact(p, g.Bcs());
  }

  /** Stepping over `w` bytes that do not straddle a sector: still in the sector, at the
      start of the next one in the cluster, or at the start of the next cluster. */
  lemma StepPosition(g: Geometry, p: nat, w: nat)
    requires g.csize > 0 && IsPow2(g.csize) && 0 < w && p % SS + w <= SS
    ensures var p' := p + w; var b := g.Bcs();
            && 0 <= p / b && 0 <= p % b
            && (p' % SS != 0 ==> p' / b == p / b && p' % b / SS == p % b / SS)
            && (p' % SS == 0 && SectorInCluster(g, p') != 0 ==> p' / b == p / b && p' % b / SS == p % b / SS + 1)
            && (p' % SS == 0 && SectorInCluster(g, p') == 0 ==>
              p' == (p / b + 1) * b && p' / b == p / b + 1 && p' % b == 0)
  {
    SplitPosition(g, p);
    var k, cs, o := p / g.Bcs(), SectorInCluster(g, p), p % SS;
    IndexNat(g, p);
    WithinUnique(g, p, k, cs * SS + o);
    DivModUnique(cs * SS + o, SS, cs, o);
    if o + w < SS {
      WithinUnique(g, p + w, k, cs * SS + o + w);
      DivModUnique(cs * SS + o + w, SS, cs, o + w);
      ByteInSector(g, p + w, k, cs, o + w);
    } else {
      StepSector(g, p, k, cs, w);
    }
  }

  lemma StepSector(g: Geometry, p: nat, k: nat, cs: nat, w: nat)
    requires g.csize > 0 && IsPow2(g.csize) && cs < g.csize
    requires p % SS + w == SS && Within(g, p, k, cs * SS + p % SS)
    ensures (p + w) % SS == 0
    ensures if cs + 1 < g.csize
            then SectorInCluster(g, p + w) == cs + 1 && (p + w) / g.Bcs() == k && (p + w) % g.Bcs() / SS == cs + 1
            else SectorInCluster(g, p + w) == 0 && p + w == (k + 1) * g.Bcs()
                 && (p + w) / g.Bcs() == k + 1 && (p + w) % g.Bcs() == 0
  {
    var p' := p + w;
    WholeSectors(0, p / SS + 1);
    assert p' == (p / SS + 1) * SS;
    SplitPosition(g, p');
    var k', cs' := p' / g.Bcs(), SectorInCluster(g, p');
    assert p' == k * g.Bcs() + (cs + 1) * SS;
    if cs + 1 < g.csize {
      WithinUnique(g, p', k, (cs + 1) * SS);
      WithinUnique(g, p', k', cs' * SS);
      DivModUnique((cs + 1) * SS, SS, cs + 1, 0);
    } else {
      NextCluster(g, k);
      WithinUnique(g, p', k + 1, 0);
      WithinUnique(g, p', k', cs' * SS);
    }
  }

  lemma NextCluster(g: Geometry, k: nat)
    ensures (k + 1) * g.Bcs() == k * g.Bcs() + g.csize * SS
  {
  }
}
