/** The cluster link map of the fast seek feature: its construction by
    f_lseek(CREATE_LINKMAP) and its use by clmt_clust. */
module LinkMap {
  import opened Bytes
  import opened Layout
  import opened DiskIo
  import opened Window
  import opened FatCodec
  import opened Chains
  import opened FileData
  import opened Allocator

  /** A run of consecutive clusters. */
  datatype Frag = Frag(len: Dword, top: Dword)

  /** Length of the run a chain starts with. */
  ghost function RunLen(ch: seq<Dword>): (n: nat)
    requires ch != []
    ensures 1 <= n <= |ch|
  {
    if |ch| > 1 && ch[1] == (ch[0] as int) + 1 then 1 + RunLen(ch[1..]) else 1
  }

  lemma {:induction false} RunIsConsecutive(ch: seq<Dword>, j: nat)
    requires ch != [] && j < RunLen(ch)
    ensures ch[j] == ch[0] + j
  {
    if j > 0 { RunIsConsecutive(ch[1..], j - 1); }
  }

  /** The fragments of a chain: maximal runs, in order. */
  ghost function Frags(ch: seq<Dword>): seq<Frag>
    requires |ch| < TWO32
  {
    if ch == [] then []
    else [Frag(RunLen(ch), ch[0])] + Frags(ch[RunLen(ch)..])
  }

  /** What a link map answers for cluster order `cl`. */
  ghost function Lookup(fr: seq<Frag>, cl: nat): int
  {
    if fr == [] then 0
    else if cl < fr[0].len then fr[0].top + cl
    else Lookup(fr[1..], cl - fr[0].len)
  }

  /** The link map agrees with walking the FAT. */
  lemma {:induction false} LookupIsWalk(ch: seq<Dword>, cl: nat)
    requires |ch| < TWO32
    ensures Lookup(Frags(ch), cl) == if cl < |ch| then ch[cl] else 0
    decreases |ch|
  {
    if ch != [] {
      var n := RunLen(ch);
      if cl < n {
        RunIsConsecutive(ch, cl);
      } else {
        LookupIsWalk(ch[n..], cl - n);
        assert Frags(ch)[1..] == Frags(ch[n..]);
      }
    }
  }

  /** Fragments are proper, disjoint in order, and cover the chain. */
  lemma {:induction false} FragsCover(ch: seq<Dword>)
    requires |ch| < TWO32
    ensures Sum(Frags(ch)) == |ch| && (forall k :: 0 <= k < |Frags(ch)| ==> Frags(ch)[k].len > 0)
    decreases |ch|
  {
    if ch != [] {
      FragsCover(ch[RunLen(ch)..]);
      assert Frags(ch)[1..] == Frags(ch[RunLen(ch)..]);
    }
  }

  ghost function Sum(fr: seq<Frag>): nat
  {
    if fr == [] then 0 else fr[0].len + Sum(fr[1..])
  }

  // -------------------------------------------------------- the table in memory

  /** Items `p..` of the table are the fragments, each as length and top. */
  ghost predicate Stores(tbl: seq<Dword>, p: nat, fr: seq<Frag>)
  {
    && p + 2 * |fr| <= |tbl|
    && forall k :: 0 <= k < |fr| ==> StoresOne(tbl, p, fr, k)
  }

  ghost predicate StoresOne(tbl: seq<Dword>, p: nat, fr: seq<Frag>, k: nat)
    requires k < |fr| && p + 2 * |fr| <= |tbl|
  {
    tbl[p + 2 * k] == fr[k].len && tbl[p + 2 * k + 1] == fr[k].top
  }

  /** A complete link map: the fragments and the terminator. */
  ghost predicate IsMap(tbl: seq<Dword>, fr: seq<Frag>)
  {
    Stores(tbl, 1, fr) && 1 + 2 * |fr| < |tbl| && tbl[1 + 2 * |fr|] == 0
  }

  /** clmt_clust: the cluster of a file offset, 0 behind the end of the chain. */
  method ClmtClust(g: Geometry, cltbl: array<Dword>, ofs: Dword, ghost ch: seq<Dword>) returns (clst: int)
    requires g.csize > 0 && |ch| < TWO32 && IsMap(cltbl[..], Frags(ch))
    ensures clst == if ofs / g.Bcs() < |ch| then ch[ofs / g.Bcs()] else 0
  {
    ghost var fr := Frags(ch);
    var tbl := 1;
    var cl := ofs / SS / g.csize;
    ClusterOrder(g, ofs);
    FragsCover(ch);
    LookupIsWalk(ch, cl);
    ghost var k := 0;
    while true
      invariant 0 <= k <= |fr| && tbl == 1 + 2 * k && 0 <= cl
      invariant Lookup(fr[k..], cl) == Lookup(fr, ofs / g.Bcs())
      decreases |fr| - k
    {
      if k < |fr| { assert StoresOne(cltbl[..], 1, fr, k); }
      var ncl := cltbl[tbl];
      tbl := tbl + 1;
      if ncl == 0 { return 0; }
      if cl < ncl { break; }
      cl := cl - ncl;
      tbl := tbl + 1;
      assert fr[k..][1..] == fr[k + 1..];
      k := k + 1;
    }
    clst := cl + cltbl[tbl];
  }

  lemma ClusterOrder(g: Geometry, ofs: nat)
    requires g.csize > 0
    ensures ofs / SS / g.csize == ofs / g.Bcs() && 0 <= ofs / g.Bcs()
  {
    var q := ofs / SS;
    DivModExact(q, g.csize);
    JoinPosition(g, ofs, q, ofs % SS, q / g.csize, q % g.csize);
    WithinUnique(g, ofs, q / g.csize, q % g.csize * SS + ofs % SS);
  }

  // ------------------------------------------------------------- construction

  /** The chain's end mark is not taken for a cluster that follows its last one. */
  ghost predicate EndsPlainly(f: FatMap, ch: seq<Dword>)
    requires IsChain(f, ch)
  {
    ch != [] ==> f[ch[|ch| - 1]] != (ch[|ch| - 1] as int) + 1
  }

  /** A chain that FatFs itself has ended always does ... */
  lemma EocEndsPlainly(g: Geometry, sectors: nat, f: FatMap, ch: seq<Dword>)
    requires g.Valid(sectors) && |f| == g.nFatent && IsChain(f, ch) && ch != [] && f[ch[|ch| - 1]] == Eoc(g)
    ensures EndsPlainly(f, ch)
  {
    assert ch[|ch| - 1] + 1 < Eoc(g);
  }

  /** ... but others may end a chain with any number from n_fatent on: one cluster, ended by
      the number behind it. */
  lemma EndsLikeCluster()
    ensures var f, ch := [0xFF8, 0xFFF, 3], [2]; IsChain(f, ch) && !EndsPlainly(f, ch)
  {
    var f: FatMap, ch: seq<Dword> := [0xFF8, 0xFFF, 3], [2];
    assert Linked(f, ch, 0);
  }

  /** One fragment: from cluster `i` of the chain to the end of its run. */
  method GetFragment(fs: Volume, first: Dword, ghost ch: seq<Dword>, ghost i: nat)
    returns (res: FResult, ncl: Dword, cl: Dword)
    requires fs.Ready() && IsChain(fs.fat, ch) && i < |ch| < TWO32 && first == ch[i]
    modifies fs`wflag, fs`winsect, fs.win, fs.disk.data
    ensures fs.Ready()
    ensures res == OK || (res == INT_ERR && !EndsPlainly(fs.fat, ch))
    ensures res == OK ==> ncl == RunLen(ch[i..]) && Linked(fs.fat, ch, i + ncl - 1)
                          && cl == fs.fat[ch[i + ncl - 1]] && (i + ncl == |ch| ==> EndsPlainly(fs.fat, ch))
  {
    res, ncl, cl := OK, 0, first;
    while true
      invariant fs.Ready() && res == OK && i + ncl <= |ch|
      invariant i + ncl < |ch| ==> cl == ch[i + ncl] && RunLen(ch[i..]) == ncl + RunLen(ch[i + ncl..])
      invariant i + ncl == |ch| ==> cl >= fs.geo.nFatent && !EndsPlainly(fs.fat, ch)
      decreases |ch| - i - ncl
    {
      var pcl := cl;
      if i + ncl < |ch| {
        assert Linked(fs.fat, ch, i + ncl);
        assert ch[i + ncl..][1..] == ch[i + ncl + 1..];
      }
      cl := GetFat(fs, cl);
      if cl <= 1 { return INT_ERR, ncl, cl; }
      if cl == 0xFFFF_FFFF { return DISK_ERR, ncl, cl; }
      ncl := ncl + 1;
      if cl != pcl + 1 { break; }
    }
  }

  /** f_lseek(CREATE_LINKMAP): builds the link map of the chain from `sclust` in the
      caller's table, whose first item gives its size.  The size needed is reported
      whether or not it fits. */
  method CreateLinkMap(fs: Volume, cltbl: array<Dword>, sclust: Dword, ghost ch: seq<Dword>) returns (res: FResult)
    requires fs.Ready() && IsChain(fs.fat, ch)
    requires sclust == if ch == [] then 0 else ch[0]
    requires 0 < cltbl.Length && cltbl[0] <= cltbl.Length
    modifies fs`wflag, fs`winsect, fs.win, fs.disk.data, cltbl
    ensures fs.Ready() && |ch| < TWO32
    ensures !EndsPlainly(fs.fat, ch) <==> res == INT_ERR
    ensures EndsPlainly(fs.fat, ch) ==>
              && cltbl[0] == 2 + 2 * |Frags(ch)|
              && res == (if cltbl[0] <= old(cltbl[0]) then OK else NOT_ENOUGH_CORE)
              && (res == OK ==> IsMap(cltbl[..], Frags(ch)))
  {
    var tlen, ulen, tp := cltbl[0], 2, 1;
    res := OK;
    ChainLength(fs.fat, ch);
    FragsCount(ch);
    if sclust != 0 {
      res, ulen, tp := StoreFragments(fs, cltbl, tlen, sclust, ch);
      if res != OK { return; }
    }
    res := FinishMap(cltbl, tlen, ulen, tp, Frags(ch));
  }

  /** Reports the size needed, and ends the table if it fits. */
  method FinishMap(cltbl: array<Dword>, tlen: Dword, ulen: Dword, tp: nat, ghost fr: seq<Frag>) returns (res: FResult)
    requires 0 < cltbl.Length && tlen <= cltbl.Length && ulen == 2 + 2 * |fr|
    requires ulen <= tlen ==> tp == 1 + 2 * |fr| && Stores(cltbl[..], 1, fr)
    modifies cltbl
    ensures cltbl[0] == ulen && res == if ulen <= tlen then OK else NOT_ENOUGH_CORE
    ensures res == OK ==> IsMap(cltbl[..], fr)
  {
    res := OK;
    ghost var t := cltbl[..];
    cltbl[0] := ulen;
    if ulen <= tlen {
      cltbl[tp] := 0;
      Terminate(t, cltbl[..], fr, ulen);
    } else {
      res := NOT_ENOUGH_CORE;
    }
  }

  lemma Terminate(t: seq<Dword>, t': seq<Dword>, fr: seq<Frag>, ulen: Dword)
    requires Stores(t, 1, fr) && 1 + 2 * |fr| < |t| && t' == t[0 := ulen][1 + 2 * |fr| := 0]
    ensures IsMap(t', fr)
  {
    forall k | 0 <= k < |fr| ensures StoresOne(t', 1, fr, k) {
      assert StoresOne(t, 1, fr, k);
    }
  }

  /** The loop over the fragments. */
  method StoreFragments(fs: Volume, cltbl: array<Dword>, tlen: Dword, sclust: Dword, ghost ch: seq<Dword>)
    returns (res: FResult, ulen: Dword, tp: nat)
    requires fs.Ready() && IsChain(fs.fat, ch) && ch != [] && 2 * |ch| + 2 < TWO32 && sclust == ch[0]
    requires 0 < tlen <= cltbl.Length || tlen == 0
    modifies fs`wflag, fs`winsect, fs.win, fs.disk.data, cltbl
    ensures fs.Ready()
    ensures res == if EndsPlainly(fs.fat, ch) then OK else INT_ERR
    ensures res == OK ==> ulen == 2 + 2 * |Frags(ch)|
    ensures res == OK && ulen <= tlen ==> tp == 1 + 2 * |Frags(ch)| && Stores(cltbl[..], 1, Frags(ch))
  {
    res, ulen, tp := OK, 2, 1;
    var cl := sclust;
    ghost var i := 0;
    ghost var done: seq<Frag> := [];
    assert ch[0..] == ch;
    while true
      invariant fs.Ready() && res == OK && i < |ch| && cl == ch[i]
      invariant Sofar(ch, i, done) && ulen == 2 + 2 * |done|
      invariant ulen <= tlen ==> tp == 1 + 2 * |done| && Stores(cltbl[..], 1, done)
      decreases |ch| - i
    {
      var tcl, ncl := cl, 0;
      ulen := ulen + 2;
      res, ncl, cl := NextRun(fs, cl, ch, i, done);
      if res != OK { return; }
      tp := AppendFragment(cltbl, tlen, ulen, tp, ncl, tcl, done);
      done := done + [Frag(ncl, tcl)];
      i := i + ncl;
      if cl >= fs.geo.nFatent { break; }
    }
  }

  /** The fragments of the first `i` clusters are `done`. */
  ghost predicate Sofar(ch: seq<Dword>, i: nat, done: seq<Frag>)
    requires |ch| < TWO32
  {
    i <= |ch| && |done| <= i && Frags(ch) == done + Frags(ch[i..]) && (i == |ch| ==> Frags(ch) == done)
  }

  /** The next fragment, and the cluster behind it. */
  method NextRun(fs: Volume, first: Dword, ghost ch: seq<Dword>, ghost i: nat, ghost done: seq<Frag>)
    returns (res: FResult, ncl: Dword, cl: Dword)
    requires fs.Ready() && IsChain(fs.fat, ch) && i < |ch| < TWO32 && first == ch[i] && Sofar(ch, i, done)
    modifies fs`wflag, fs`winsect, fs.win, fs.disk.data
    ensures fs.Ready() && IsChain(fs.fat, ch)
    ensures res == OK || (res == INT_ERR && !EndsPlainly(fs.fat, ch))
    ensures res == OK ==> 0 < ncl <= |ch| - i && Sofar(ch, i + ncl, done + [Frag(ncl, first)])
    ensures res == OK ==> if i + ncl == |ch| then cl >= fs.geo.nFatent && EndsPlainly(fs.fat, ch)
                          else cl == ch[i + ncl] < fs.geo.nFatent
  {
    res, ncl, cl := GetFragment(fs, first, ch, i);
    if res == OK {
      NextFragment(ch, i, ncl, done);
    }
  }

  /** Stores a fragment if the table has room for it. */
  method AppendFragment(cltbl: array<Dword>, tlen: Dword, ulen: Dword, tp0: nat, ncl: Dword, tcl: Dword,
                        ghost done: seq<Frag>)
    returns (tp: nat)
    requires tlen <= cltbl.Length && ulen == 4 + 2 * |done|
    requires ulen <= tlen ==> tp0 == 1 + 2 * |done| && Stores(cltbl[..], 1, done)
    modifies cltbl
    ensures ulen <= tlen ==> tp == 3 + 2 * |done| && Stores(cltbl[..], 1, done + [Frag(ncl, tcl)])
  {
    tp := tp0;
    if ulen <= tlen {
      PutFragment(cltbl, tp, ncl, tcl, done);
      tp := tp + 2;
    }
  }

  method PutFragment(cltbl: array<Dword>, tp: nat, ncl: Dword, tcl: Dword, ghost done: seq<Frag>)
    requires Stores(cltbl[..], 1, done) && tp == 1 + 2 * |done| && tp + 2 <= cltbl.Length
    modifies cltbl
    ensures Stores(cltbl[..], 1, done + [Frag(ncl, tcl)])
  {
    StoreMore(cltbl[..], done, ncl, tcl);
    cltbl[tp] := ncl;
    cltbl[tp + 1] := tcl;
  }

  lemma NextFragment(ch: seq<Dword>, i: nat, ncl: Dword, done: seq<Frag>)
    requires i < |ch| < TWO32 && ncl == RunLen(ch[i..]) && Frags(ch) == done + Frags(ch[i..])
    ensures Frags(ch) == done + [Frag(ncl, ch[i])] + Frags(ch[i + ncl..])
    ensures i + ncl == |ch| ==> Frags(ch) == done + [Frag(ncl, ch[i])]
  {
    FragsUnfold(ch, i, ncl);
    AppendAssoc(done, Frag(ncl, ch[i]), Frags(ch[i + ncl..]));
  }

  lemma FragsUnfold(ch: seq<Dword>, i: nat, ncl: Dword)
    requires i < |ch| < TWO32 && ncl == RunLen(ch[i..])
    ensures Frags(ch[i..]) == [Frag(ncl, ch[i])] + Frags(ch[i + ncl..])
    ensures i + ncl == |ch| ==> Frags(ch[i + ncl..]) == []
  {
    assert ch[i..][ncl..] == ch[i + ncl..];
  }

  lemma AppendAssoc(a: seq<Frag>, x: Frag, b: seq<Frag>)
    ensures a + ([x] + b) == a + [x] + b
    ensures b == [] ==> a + [x] + b == a + [x]
  {
  }

  lemma {:induction false} FragsCount(ch: seq<Dword>)
    requires |ch| < TWO32
    ensures |Frags(ch)| <= |ch|
    decreases |ch|
  {
    if ch != [] { FragsCount(ch[RunLen(ch)..]); }
  }

  lemma StoreMore(tbl: seq<Dword>, done: seq<Frag>, ncl: Dword, tcl: Dword)
    requires Stores(tbl, 1, done) && 3 + 2 * |done| <= |tbl|
    ensures var tp := 1 + 2 * |done|;
            Stores(tbl[tp := ncl][tp + 1 := tcl], 1, done + [Frag(ncl, tcl)])
  {
    var tp, done' := 1 + 2 * |done|, done + [Frag(ncl, tcl)];
    var tbl' := tbl[tp := ncl][tp + 1 := tcl];
    forall k | 0 <= k < |done'| ensures StoresOne(tbl', 1, done', k) {
      if k < |done| { assert StoresOne(tbl, 1, done, k); }
    }
  }
}
