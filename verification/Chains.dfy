/** Cluster chains and free clusters of an abstract FAT, a sequence of entry
    values indexed by cluster number (entries 0 and 1 are reserved). */
module Chains {
  import opened Bytes

  type FatMap = seq<Dword>

  /** `ch` lists, in order, the clusters of a chain that ends properly.  The empty
      sequence is the chain of an object without clusters. */
  ghost predicate IsChain(f: FatMap, ch: seq<Dword>)
  {
    && (forall i :: 0 <= i < |ch| ==> 2 <= ch[i] < |f|)
    && (forall i :: 0 <= i < |ch| ==> Linked(f, ch, i))
  }

  ghost predicate Linked(f: FatMap, ch: seq<Dword>, i: int)
    requires 0 <= i < |ch| && ch[i] < |f|
  {
    if i + 1 < |ch| then f[ch[i]] == ch[i + 1] else f[ch[i]] >= |f|
  }

  ghost predicate Disjoint(a: seq<Dword>, b: seq<Dword>)
  {
    forall i :: 0 <= i < |a| ==> a[i] !in b
  }

  /** A proper chain visits no cluster twice. */
  lemma {:induction false} ChainDistinct(f: FatMap, ch: seq<Dword>, i: nat, j: nat)
    requires IsChain(f, ch) && i < j < |ch|
    ensures ch[i] != ch[j]
    decreases |ch| - j
  {
    assert Linked(f, ch, i) && Linked(f, ch, j);
    if j + 1 < |ch| {
      ChainDistinct(f, ch, i + 1, j + 1);
    }
  }

  /** A chain is determined by its first cluster. */
  lemma {:induction false} ChainUnique(f: FatMap, a: seq<Dword>, b: seq<Dword>)
    requires IsChain(f, a) && IsChain(f, b)
    requires a != [] && b != [] && a[0] == b[0]
    ensures a == b
    decreases |a|
  {
    assert Linked(f, a, 0) && Linked(f, b, 0);
    if |a| > 1 && |b| > 1 {
      Suffix(f, a, 1);
      Suffix(f, b, 1);
      ChainUnique(f, a[1..], b[1..]);
      assert a == [a[0]] + a[1..] && b == [b[0]] + b[1..];
    }
  }

  lemma Suffix(f: FatMap, ch: seq<Dword>, k: nat)
    requires IsChain(f, ch) && k <= |ch|
    ensures IsChain(f, ch[k..])
  {
    forall i | 0 <= i < |ch| - k ensures Linked(f, ch[k..], i) {
      assert Linked(f, ch, i + k);
    }
  }

  /** A chain does not notice updates of entries it does not visit. */
  lemma ChainFrame(f: FatMap, f': FatMap, ch: seq<Dword>)
    requires IsChain(f, ch) && |f'| == |f|
    requires forall c :: c in ch ==> f'[c] == f[c]
    ensures IsChain(f', ch)
  {
    forall i | 0 <= i < |ch| ensures Linked(f', ch, i) {
      assert Linked(f, ch, i) && ch[i] in ch;
    }
  }

  // ------------------------------------------------------------ free clusters

  ghost function FreeBelow(f: FatMap, n: nat): set<int>
    requires n <= |f|
  {
    set c | 2 <= c < n && f[c] == 0
  }

  ghost function Free(f: FatMap): set<int> { FreeBelow(f, |f|) }

  ghost function Clusters(n: nat): (r: set<int>)
    ensures forall c :: c in r <==> 2 <= c < n
  {
    if n <= 2 then {} else Clusters(n - 1) + {n - 1}
  }

  lemma {:induction false} ClusterCount(n: nat)
    requires n >= 2
    ensures |Clusters(n)| == n - 2
  {
    if n > 2 {
      ClusterCount(n - 1);
    }
  }

  lemma SubsetCard(a: set<int>, b: set<int>)
    requires a <= b
    ensures |a| <= |b| && (a != b ==> |a| < |b|)
  {
    assert b == a + (b - a);
    if a != b {
      assert b - a != {};
    }
  }

  ghost function Elems(ch: seq<Dword>): (r: set<int>)
    ensures forall c :: c in r ==> exists i :: 0 <= i < |ch| && ch[i] == c
    ensures forall i :: 0 <= i < |ch| ==> ch[i] as int in r
  {
    if ch == [] then {} else Elems(ch[..|ch| - 1]) + {ch[|ch| - 1] as int}
  }

  lemma {:induction false} ChainCard(f: FatMap, ch: seq<Dword>, n: nat)
    requires IsChain(f, ch) && n <= |ch|
    ensures |Elems(ch[..n])| == n
  {
    if n > 0 {
      ChainCard(f, ch, n - 1);
      var c: int := ch[n - 1];
      NewInChain(f, ch, n - 1);
      assert ch[..n][..n - 1] == ch[..n - 1];
      assert Elems(ch[..n]) == Elems(ch[..n - 1]) + {c};
    }
  }

  lemma NewInChain(f: FatMap, ch: seq<Dword>, n: nat)
    requires IsChain(f, ch) && n < |ch|
    ensures ch[n] as int !in Elems(ch[..n])
  {
    if ch[n] as int in Elems(ch[..n]) {
      var i :| 0 <= i < n && ch[..n][i] == ch[n];
      ChainDistinct(f, ch, i, n);
    }
  }

  /** A chain is no longer than there are clusters. */
  lemma ChainLength(f: FatMap, ch: seq<Dword>)
    requires |f| >= 2 && IsChain(f, ch)
    ensures |ch| <= |f| - 2
  {
    ChainCard(f, ch, |ch|);
    assert ch[..|ch|] == ch;
    ClusterCount(|f|);
    SubsetCard(Elems(ch), Clusters(|f|));
  }

  lemma FreeBound(f: FatMap)
    requires |f| >= 2
    ensures |Free(f)| <= |f| - 2
    ensures forall c :: 2 <= c < |f| && f[c] != 0 ==> |Free(f)| < |f| - 2
  {
    ClusterCount(|f|);
    SubsetCard(Free(f), Clusters(|f|));
    forall c | 2 <= c < |f| && f[c] != 0 ensures |Free(f)| < |f| - 2 {
      assert c in Clusters(|f|) && c !in Free(f);
    }
  }

  lemma FreeUpdate(f: FatMap, c: int, v: Dword)
    requires 2 <= c < |f|
    ensures f[c] != 0 && v == 0 ==> |Free(f[c := v])| == |Free(f)| + 1
    ensures f[c] == 0 && v != 0 ==> |Free(f[c := v])| == |Free(f)| - 1
    ensures (f[c] == 0) == (v == 0) ==> Free(f[c := v]) == Free(f)
  {
    var f' := f[c := v];
    if f[c] != 0 && v == 0 {
      assert Free(f') == Free(f) + {c};
    } else if f[c] == 0 && v != 0 {
      assert Free(f') == Free(f) - {c};
    } else {
      assert Free(f') == Free(f);
    }
  }

  /** A known free-cluster count is exact. */
  ghost predicate FreeExact(f: FatMap, freeClst: Dword)
    requires |f| >= 2
  {
    freeClst <= |f| - 2 ==> freeClst == |Free(f)|
  }

  /** No entry reads as the internal-error code. */
  ghost predicate NoErrorMarks(f: FatMap)
  {
    forall c :: 2 <= c < |f| ==> f[c] != 1
  }

  // -------------------------------------------------- stretching and freeing

  /** `f` after cluster `n` has been taken and linked behind `clst` (0: nothing). */
  ghost function Stretched(f: FatMap, clst: Dword, n: Dword, eoc: Dword): FatMap
    requires n < |f| && clst < |f|
  {
    if clst == 0 then f[n := eoc] else f[n := eoc][clst := n]
  }

  lemma StretchChain(f: FatMap, ch: seq<Dword>, n: Dword, eoc: Dword)
    requires IsChain(f, ch) && 2 <= n < |f| && f[n] == 0 && eoc >= |f|
    ensures var clst := if ch == [] then 0 else ch[|ch| - 1];
            IsChain(Stretched(f, clst, n, eoc), ch + [n])
    ensures n !in ch
  {
    var ch' := ch + [n];
    var clst := if ch == [] then 0 else ch[|ch| - 1];
    var f' := Stretched(f, clst, n, eoc);
    forall i | 0 <= i < |ch| ensures ch[i] != n {
      assert Linked(f, ch, i);
    }
    forall i | 0 <= i < |ch'| ensures Linked(f', ch', i) {
      if i + 1 < |ch| {
        assert Linked(f, ch, i);
        ChainDistinct(f, ch, i, |ch| - 1);
      }
    }
  }

  /** `f` with every cluster of `ch` marked free. */
  ghost function Released(f: FatMap, ch: seq<Dword>): (f': FatMap)
    ensures |f'| == |f|
    ensures forall c :: 0 <= c < |f| ==> f'[c] == if c in ch then 0 else f[c]
  {
    seq(|f|, c requires 0 <= c < |f| => if c in ch then 0 else f[c])
  }

  /** Cutting a chain after its first `k` clusters. */
  ghost function Cut(f: FatMap, ch: seq<Dword>, k: nat, eoc: Dword): (f': FatMap)
    requires k <= |ch| && (k > 0 ==> ch[k - 1] < |f|)
    ensures |f'| == |f|
  {
    var f1 := if k > 0 then f[ch[k - 1] := eoc] else f;
    Released(f1, ch[k..])
  }

  lemma CutChain(f: FatMap, ch: seq<Dword>, k: nat, eoc: Dword)
    requires IsChain(f, ch) && k <= |ch| && eoc >= |f|
    ensures IsChain(Cut(f, ch, k, eoc), ch[..k])
  {
    var f' := Cut(f, ch, k, eoc);
    forall i | 0 <= i < k ensures Linked(f', ch[..k], i) {
      assert Linked(f, ch, i);
      forall j | k <= j < |ch| ensures ch[j] != ch[i] {
        ChainDistinct(f, ch, i, j);
      }
      assert ch[i] !in ch[k..];
      if i < k - 1 {
        ChainDistinct(f, ch, i, k - 1);
      }
    }
  }
}
