/** Whole runs: any sequence of file operations on any number of open files that share
    one volume and one window.  A run refines a machine whose files are byte sequences
    with cursors, and it keeps the chains of the volume sound. */
module Runs {
  import opened Bytes
  import opened Layout
  import opened DiskIo
  import opened FatBits
  import opened Window
  import opened Chains
  import opened Allocator
  import opened FileData
  import opened Files

  datatype Op =
    | Write(file: nat, data: seq<Byte>)
    | Read(file: nat, count: Dword)
    | Seek(file: nat, ofs: Dword)
    | Truncate(file: nat)

  // --------------------------------------------------------- the abstract machine

  datatype AbsFile = AbsFile(bytes: seq<Byte>, pos: nat, readable: bool, writable: bool)

  /** The open files, the number of free clusters, and what the last step returned. */
  datatype Abs = Abs(files: seq<AbsFile>, free: nat, out: seq<Byte>)

  ghost predicate WriteStepAbs(a: AbsFile, d: seq<Byte>, a': AbsFile, free': nat)
  {
    if !a.writable || a.pos > |a.bytes| then a' == a
    else exists k :: 0 <= k <= |d| && Wrote(a, d, k, a', free')
  }

  /** `k` bytes of `d` went in; fewer than all only at the end of the file on a full volume,
      or at 4 GiB. */
  ghost predicate Wrote(a: AbsFile, d: seq<Byte>, k: nat, a': AbsFile, free': nat)
    requires k <= |d| && a.pos <= |a.bytes|
  {
    && a' == a.(bytes := Splice(a.bytes, a.pos, d[..k]), pos := a.pos + k)
    && (k == |d| || (free' == 0 && a'.pos == |a'.bytes|) || (a.pos + |d| >= TWO32 && k == 0xFFFF_FFFF - a.pos))
  }

  ghost predicate ReadStepAbs(a: AbsFile, n: nat, a': AbsFile, out': seq<Byte>)
  {
    if !a.readable || a.pos > |a.bytes| then a' == a && out' == []
    else
      var k := Min(n, |a.bytes| - a.pos);
      a' == a.(pos := a.pos + k) && out' == a.bytes[a.pos..a.pos + k]
  }

  ghost predicate SeekStepAbs(a: AbsFile, ofs: nat, a': AbsFile, free': nat)
  {
    var target := if a.writable then ofs else Min(ofs, |a.bytes|);
    && a'.readable == a.readable && a'.writable == a.writable
    && |a'.bytes| == Max(|a.bytes|, a'.pos) && a'.bytes[..|a.bytes|] == a.bytes
    && (a'.pos == target || (a'.pos < target && |a.bytes| <= a'.pos && free' == 0))
  }

  ghost predicate TruncateStepAbs(a: AbsFile, a': AbsFile)
  {
    if !a.writable || a.pos > |a.bytes| then a' == a
    else a' == a.(bytes := a.bytes[..a.pos])
  }

  /** One operation: the file it names takes its step, every other file stays as it is. */
  ghost predicate AbsStep(s: Abs, op: Op, s': Abs)
  {
    && |s'.files| == |s.files|
    && (op.file >= |s.files| ==> s'.files == s.files)
    && (forall j :: 0 <= j < |s.files| && j != op.file ==> s'.files[j] == s.files[j])
    && (op.file < |s.files| ==>
          var a, a' := s.files[op.file], s'.files[op.file];
          match op
          case Write(_, d) => WriteStepAbs(a, d, a', s'.free)
          case Read(_, n) => ReadStepAbs(a, n, a', s'.out)
          case Seek(_, ofs) => SeekStepAbs(a, ofs, a', s'.free)
          case Truncate(_) => TruncateStepAbs(a, a'))
  }

  ghost predicate IsRun(trace: seq<Abs>, ops: seq<Op>)
  {
    && |trace| == |ops| + 1
    && forall k :: 0 <= k < |ops| ==> AbsStep(trace[k], ops[k], trace[k + 1])
  }

  /** A file that no operation of a run names is the same at its end. */
  lemma {:induction false} UnnamedFileKept(trace: seq<Abs>, ops: seq<Op>, j: nat)
    requires IsRun(trace, ops) && j < |trace[0].files|
    requires forall k :: 0 <= k < |ops| ==> ops[k].file != j
    ensures |trace[|ops|].files| == |trace[0].files| && trace[|ops|].files[j] == trace[0].files[j]
  {
    if ops != [] {
      var n := |ops| - 1;
      assert IsRun(trace[..n + 1], ops[..n]) by {
        forall k | 0 <= k < n ensures AbsStep(trace[..n + 1][k], ops[..n][k], trace[..n + 1][k + 1]) {
          assert AbsStep(trace[k], ops[k], trace[k + 1]);
        }
      }
      UnnamedFileKept(trace[..n + 1], ops[..n], j);
      assert AbsStep(trace[n], ops[n], trace[n + 1]);
      assert ops[n].file != j;
    }
  }

  // ------------------------------------------------------------ the concrete system

  ghost function AbsOf(g: Geometry, v: seq<Byte>, x: Fil): AbsFile
    requires g.csize > 0
  {
    AbsFile(x.Bytes(g, v), x.fptr, x.readable, x.writable)
  }

  ghost function AbsState(g: Geometry, f: FatMap, v: seq<Byte>, xs: seq<Fil>, out: seq<Byte>): Abs
    requires g.csize > 0
  {
    Abs(seq(|xs|, j requires 0 <= j < |xs| => AbsOf(g, v, xs[j])), |Free(f)|, out)
  }

  ghost function Vals(files: seq<File>): (xs: seq<Fil>)
    reads files
    ensures |xs| == |files|
    ensures forall j :: 0 <= j < |files| ==> xs[j] == files[j].Val()
  {
    seq(|files|, j requires 0 <= j < |files| reads files => files[j].Val())
  }

  /** The chains of the open files, followed by those of everything else on the volume. */
  ghost function Live(xs: seq<Fil>, rest: seq<seq<Dword>>): (l: seq<seq<Dword>>)
    ensures |l| == |xs| + |rest|
    ensures forall j :: 0 <= j < |xs| ==> l[j] == xs[j].chain
    ensures forall j :: |xs| <= j < |l| ==> l[j] == rest[j - |xs|]
  {
    seq(|xs|, j requires 0 <= j < |xs| => xs[j].chain) + rest
  }

  /** Proper chains, pairwise disjoint. */
  ghost predicate LiveSound(f: FatMap, live: seq<seq<Dword>>)
  {
    && (forall j :: 0 <= j < |live| ==> IsChain(f, live[j]))
    && (forall j, l :: 0 <= j < |live| && 0 <= l < |live| && j != l ==> Disjoint(live[j], live[l]))
  }

  /** The invariant of every run, on values ... */
  ghost predicate Consistent(g: Geometry, f: FatMap, v: seq<Byte>, xs: seq<Fil>, rest: seq<seq<Dword>>)
  {
    && FatsAgree(g, v)
    && (forall j :: 0 <= j < |xs| ==> xs[j].Inv(g, f) && xs[j].err == OK)
    && LiveSound(f, Live(xs, rest))
  }

  /** ... and on the objects. */
  ghost predicate System(fs: Volume, files: seq<File>, rest: seq<seq<Dword>>)
    reads fs, fs.win, fs.disk.data, fs.ledger, files
  {
    && Sound(fs)
    && (forall j, l :: 0 <= j < l < |files| ==> files[j] != files[l])
    && Consistent(fs.geo, fs.fat, fs.view, Vals(files), rest)
  }

  /** What the invariant says about clusters: no chain visits one twice, no cluster is in
      two chains, and no free cluster is in any. */
  lemma SystemClusters(f: FatMap, live: seq<seq<Dword>>, j: nat, i: nat, l: nat, k: nat)
    requires |f| >= 2 && LiveSound(f, live)
    requires j < |live| && i < |live[j]| && l < |live| && k < |live[l]|
    ensures live[j][i] == live[l][k] <==> j == l && i == k
    ensures live[j][i] !in Free(f)
  {
    assert Linked(f, live[j], i);
    if j == l {
      if i < k { ChainDistinct(f, live[j], i, k); }
      if k < i { ChainDistinct(f, live[j], k, i); }
    } else {
      assert Disjoint(live[j], live[l]);
    }
  }

  /** Clusters of all chains, counted and collected. */
  ghost function Total(live: seq<seq<Dword>>): nat
  {
    if live == [] then 0 else Total(live[..|live| - 1]) + |live[|live| - 1]|
  }

  ghost function Taken(live: seq<seq<Dword>>): set<int>
  {
    if live == [] then {} else Taken(live[..|live| - 1]) + Elems(live[|live| - 1])
  }

  lemma {:induction false} TakenFrom(live: seq<seq<Dword>>, c: int) returns (j: nat, i: nat)
    requires c in Taken(live)
    ensures j < |live| && i < |live[j]| && live[j][i] == c
  {
    var n := |live| - 1;
    if c in Elems(live[n]) {
      j := n;
      i :| 0 <= i < |live[n]| && live[n][i] == c;
    } else {
      j, i := TakenFrom(live[..n], c);
    }
  }

  lemma {:induction false} TakenCount(f: FatMap, live: seq<seq<Dword>>)
    requires LiveSound(f, live)
    ensures |Taken(live)| == Total(live)
  {
    if live != [] {
      var n := |live| - 1;
      var a, b := Taken(live[..n]), Elems(live[n]);
      TakenCount(f, live[..n]);
      ChainCard(f, live[n], |live[n]|);
      assert live[n][..|live[n]|] == live[n];
      forall c | c in a ensures c !in b {
        var j, i := TakenFrom(live[..n], c);
        assert Disjoint(live[j], live[n]);
      }
      DisjointCard(a, b);
    }
  }

  lemma DisjointCard(a: set<int>, b: set<int>)
    requires a !! b
    ensures |a + b| == |a| + |b|
  {
    assert a * b == {};
  }

  /** Conservation: a cluster is in a chain, or free, or lost, and never two of these. */
  lemma ClustersConserved(f: FatMap, live: seq<seq<Dword>>)
    requires |f| >= 2 && LiveSound(f, live)
    ensures Total(live) + |Free(f)| <= |f| - 2
  {
    TakenCount(f, live);
    forall c | c in Taken(live) ensures c in Clusters(|f|) && c !in Free(f) {
      var j, i := TakenFrom(live, c);
      assert Linked(f, live[j], i);
    }
    DisjointCard(Taken(live), Free(f));
    ClusterCount(|f|);
    SubsetCard(Taken(live) + Free(f), Clusters(|f|));
  }

  /** A step on the file with chain `ch` leaves every chain disjoint from it alone. */
  ghost predicate Leaves(g: Geometry, f: FatMap, v: seq<Byte>, ch: seq<Dword>,
                         f': FatMap, v': seq<Byte>, ch': seq<Dword>)
    requires g.csize > 0
  {
    forall other :: IsChain(f, other) && Disjoint(other, ch) ==> LeavesOne(g, v, f', v', ch', other)
  }

  ghost predicate LeavesOne(g: Geometry, v: seq<Byte>, f': FatMap, v': seq<Byte>, ch': seq<Dword>, other: seq<Dword>)
    requires g.csize > 0
  {
    && IsChain(f', other) && Disjoint(other, ch')
    && forall n: nat :: Content(g, v', other, n) == Content(g, v, other, n)
  }

  /** What f_sync will have to write: the start and the size of every file that is not marked as
      modified are what they were. */
  ghost predicate Marked(x: Fil, m: bool, x': Fil, m': bool)
  {
    (m ==> m') && x'.writable == x.writable && (m' || (x'.sclust == x.sclust && x'.objsize == x.objsize))
  }

  ghost predicate AllMarked(xs: seq<Fil>, ms: seq<bool>, xs': seq<Fil>, ms': seq<bool>)
  {
    && |xs| == |ms| == |xs'| == |ms'|
    && forall j :: 0 <= j < |xs| ==> Marked(xs[j], ms[j], xs'[j], ms'[j])
  }

  /** A write marks its file, if that is open for writing. */
  ghost predicate MarkedBy(ops: seq<Op>, xs: seq<Fil>, ms: seq<bool>)
    requires |xs| == |ms|
  {
    forall k :: 0 <= k < |ops| && ops[k].Write? && ops[k].file < |xs| && xs[ops[k].file].writable ==> ms[ops[k].file]
  }

  lemma MarkedMore(ops: seq<Op>, k: nat, xs: seq<Fil>, ms: seq<bool>, xs1: seq<Fil>, ms1: seq<bool>,
                   xs': seq<Fil>, ms': seq<bool>)
    requires k < |ops| && |xs| == |ms| == |ms1| && AllMarked(xs, ms, xs1, ms1) && AllMarked(xs1, ms1, xs', ms')
    requires MarkedBy(ops[..k], xs, ms1) && MarkedBy([ops[k]], xs1, ms')
    ensures MarkedBy(ops[..k + 1], xs, ms')
  {
    forall j | 0 <= j < k + 1 && ops[j].Write? && ops[j].file < |xs| && xs[ops[j].file].writable
      ensures ms'[ops[j].file]
    {
      var i := ops[j].file;
      assert Marked(xs[i], ms[i], xs1[i], ms1[i]) && Marked(xs1[i], ms1[i], xs'[i], ms'[i]);
      if j < k { assert ops[..k][j] == ops[j]; } else { assert [ops[k]][0] == ops[j]; }
    }
  }

  ghost function Marks(files: seq<File>): (ms: seq<bool>)
    reads files
    ensures |ms| == |files|
    ensures forall j :: 0 <= j < |files| ==> ms[j] == files[j].modified
  {
    seq(|files|, j requires 0 <= j < |files| reads files => files[j].modified)
  }

  lemma MarkedTrans(xs: seq<Fil>, ms: seq<bool>, xs': seq<Fil>, ms': seq<bool>, xs'': seq<Fil>, ms'': seq<bool>)
    requires AllMarked(xs, ms, xs', ms') && AllMarked(xs', ms', xs'', ms'')
    ensures AllMarked(xs, ms, xs'', ms'')
  {
    forall j | 0 <= j < |xs| ensures Marked(xs[j], ms[j], xs''[j], ms''[j]) {
      assert Marked(xs[j], ms[j], xs'[j], ms'[j]) && Marked(xs'[j], ms'[j], xs''[j], ms''[j]);
    }
  }

  lemma OneMarked(xs: seq<Fil>, ms: seq<bool>, i: nat, x': Fil, m': bool)
    requires i < |xs| == |ms| && Marked(xs[i], ms[i], x', m')
    ensures AllMarked(xs, ms, xs[i := x'], ms[i := m'])
  {
  }

  lemma WriteMarks(g: Geometry, f: FatMap, v: seq<Byte>, x: Fil, m: bool, f': FatMap, v': seq<Byte>, x': Fil, m': bool)
    requires x.Inv(g, f) && x'.Inv(g, f') && (m ==> m') && x'.writable == x.writable
    requires m' || (x'.chain == x.chain && x'.Bytes(g, v') == x.Bytes(g, v))
    ensures Marked(x, m, x', m')
  {
    assert UnfoldFil(0);
    assert |x.Bytes(g, v)| == x.objsize && |x'.Bytes(g, v')| == x'.objsize;
  }

  /** A seek that does not lengthen the file leaves its start alone. */
  lemma SeekMarks(g: Geometry, f: FatMap, v: seq<Byte>, x: Fil, f': FatMap, v': seq<Byte>, x': Fil, target: nat)
    requires x.Inv(g, f) && x'.Inv(g, f') && Grown(g, f, v, x.chain, f', v', x'.chain)
    requires x'.objsize == Max(x.objsize, x'.fptr) && (target == 0 ==> x'.chain == x.chain)
    requires x'.fptr == target || x'.fptr == |x'.chain| * g.Bcs()
    ensures x'.objsize > x.objsize || x'.sclust == x.sclust
  {
    assert UnfoldFil(0) && UnfoldFrame(0);
    if x.chain == [] && x'.chain != [] {
      assert |x.chain| * g.Bcs() == 0;
      MulLe(g.Bcs(), 1, |x'.chain|);
    }
  }

  /** The two reserved entries of the FAT, which f_getfree counts on. */
  ghost predicate SameReserved(f: FatMap, f': FatMap)
  {
    |f'| == |f| >= 2 && f'[0] == f[0] && f'[1] == f[1]
  }

  lemma WriteReserved(g: Geometry, f: FatMap, v: seq<Byte>, ch: seq<Dword>, f': FatMap, v': seq<Byte>, ch': seq<Dword>)
    requires |f| >= 2 && IsChain(f', ch') && WriteFrame(g, f, v, ch, f', v', ch')
    ensures SameReserved(f, f')
  {
    assert UnfoldFrame(0);
    assert 0 !in ch' && 1 !in ch';
  }

  lemma TrimReserved(g: Geometry, f: FatMap, v: seq<Byte>, ch: seq<Dword>, f': FatMap, v': seq<Byte>, ch': seq<Dword>)
    requires |f| >= 2 && IsChain(f, ch) && Trimmed(g, f, v, ch, f', v', ch')
    ensures SameReserved(f, f')
  {
    assert UnfoldFrame(0);
    assert 0 !in ch && 1 !in ch;
  }

  lemma WriteArea(g: Geometry, f: FatMap, v: seq<Byte>, ch: seq<Dword>, f': FatMap, v': seq<Byte>, ch': seq<Dword>)
    requires g.Valid(|v| / SS) && |f'| == g.nFatent && IsChain(f', ch')
    requires WriteFrame(g, f, v, ch, f', v', ch')
    ensures AreaKept(g, v, v', true)
  {
    assert UnfoldFrame(0);
    ElsewhereKeeps(g, |v| / SS, f', ch', v, v');
  }

  lemma TrimArea(g: Geometry, f: FatMap, v: seq<Byte>, ch: seq<Dword>, f': FatMap, v': seq<Byte>, ch': seq<Dword>)
    requires g.Valid(|v| / SS) && |f| == g.nFatent && IsChain(f, ch) && Trimmed(g, f, v, ch, f', v', ch')
    ensures AreaKept(g, v, v', true)
  {
    assert UnfoldFrame(0);
    FatChangeElsewhere(g, v, v', ch);
    ElsewhereKeeps(g, |v| / SS, f, ch, v, v');
  }

  lemma WriteLeaves(g: Geometry, f: FatMap, v: seq<Byte>, ch: seq<Dword>, f': FatMap, v': seq<Byte>, ch': seq<Dword>)
    requires g.Valid(|v| / SS) && |f| == g.nFatent && WriteFrame(g, f, v, ch, f', v', ch')
    ensures Leaves(g, f, v, ch, f', v', ch')
  {
    assert UnfoldFrame(0);
    forall other | IsChain(f, other) && Disjoint(other, ch)
      ensures LeavesOne(g, v, f', v', ch', other)
    {
      forall n: nat ensures Content(g, v', other, n) == Content(g, v, other, n) {
        OthersUnchanged(g, f, v, ch, f', v', ch', other, n);
      }
      OthersUnchanged(g, f, v, ch, f', v', ch', other, 0);
    }
  }

  lemma GrownIsWrite(g: Geometry, f: FatMap, v: seq<Byte>, ch: seq<Dword>, f': FatMap, v': seq<Byte>, ch': seq<Dword>)
    requires Grown(g, f, v, ch, f', v', ch')
    ensures WriteFrame(g, f, v, ch, f', v', ch')
  {
    assert UnfoldFrame(0);
    FatChangeElsewhere(g, v, v', ch');
  }

  lemma TrimLeaves(g: Geometry, f: FatMap, v: seq<Byte>, ch: seq<Dword>, f': FatMap, v': seq<Byte>, ch': seq<Dword>)
    requires g.Valid(|v| / SS) && |f| == g.nFatent && Trimmed(g, f, v, ch, f', v', ch')
    ensures Leaves(g, f, v, ch, f', v', ch')
  {
    assert UnfoldFrame(0);
    forall other | IsChain(f, other) && Disjoint(other, ch)
      ensures LeavesOne(g, v, f', v', ch', other)
    {
      forall n: nat ensures Content(g, v', other, n) == Content(g, v, other, n) {
        OthersAfterTrim(g, f, v, ch, f', v', ch', other, n);
      }
      OthersAfterTrim(g, f, v, ch, f', v', ch', other, 0);
    }
  }

  lemma DisjointSym(a: seq<Dword>, b: seq<Dword>)
    requires Disjoint(a, b)
    ensures Disjoint(b, a)
  {
  }

  lemma LiveStep(f: FatMap, live: seq<seq<Dword>>, i: nat, f': FatMap, live': seq<seq<Dword>>)
    requires LiveSound(f, live) && i < |live| == |live'| && IsChain(f', live'[i])
    requires forall j :: 0 <= j < |live| && j != i ==>
               live'[j] == live[j] && IsChain(f', live[j]) && Disjoint(live[j], live'[i])
    ensures LiveSound(f', live')
  {
    forall j, l | 0 <= j < |live'| && 0 <= l < |live'| && j != l
      ensures Disjoint(live'[j], live'[l])
    {
      if j == i { DisjointSym(live[l], live'[i]); }
      else if l != i { assert Disjoint(live[j], live[l]); }
    }
  }

  /** The chains of `rest` hold the same bytes, whatever their sizes. */
  ghost predicate RestKept(g: Geometry, v: seq<Byte>, v': seq<Byte>, rest: seq<seq<Dword>>)
    requires g.csize > 0
  {
    forall r, n: nat :: 0 <= r < |rest| ==> Content(g, v', rest[r], n) == Content(g, v, rest[r], n)
  }

  lemma LiveLeaves(g: Geometry, f: FatMap, v: seq<Byte>, live: seq<seq<Dword>>, i: nat,
                   f': FatMap, v': seq<Byte>, ch': seq<Dword>)
    requires g.csize > 0 && LiveSound(f, live) && i < |live| && IsChain(f', ch')
    requires Leaves(g, f, v, live[i], f', v', ch')
    ensures LiveSound(f', live[i := ch'])
    ensures forall j :: 0 <= j < |live| && j != i ==> LeavesOne(g, v, f', v', ch', live[j])
  {
    forall j | 0 <= j < |live| && j != i ensures LeavesOne(g, v, f', v', ch', live[j]) {
      assert IsChain(f, live[j]) && Disjoint(live[j], live[i]);
    }
    LiveStep(f, live, i, f', live[i := ch']);
  }

  /** A step of file `i` that leaves the other chains alone keeps the invariant and the
      value of every other file. */
  lemma Close(g: Geometry, f: FatMap, v: seq<Byte>, xs: seq<Fil>, rest: seq<seq<Dword>>, i: nat,
              f': FatMap, v': seq<Byte>, x': Fil)
    requires g.csize > 0 && i < |xs| && Consistent(g, f, v, xs, rest) && |f'| == |f|
    requires x'.Inv(g, f') && x'.err == OK && FatsAgree(g, v')
    requires Leaves(g, f, v, xs[i].chain, f', v', x'.chain)
    ensures Consistent(g, f', v', xs[i := x'], rest)
    ensures forall j :: 0 <= j < |xs| && j != i ==> AbsOf(g, v', xs[j]) == AbsOf(g, v, xs[j])
    ensures RestKept(g, v, v', rest)
  {
    var live := Live(xs, rest);
    InvChain(x', g, f');
    LiveLeaves(g, f, v, live, i, f', v', x'.chain);
    LiveUpdate(xs, rest, i, x');
    OthersLeft(g, f, v, xs, live, i, f', v', x'.chain);
    forall r | 0 <= r < |rest| ensures LeavesOne(g, v, f', v', x'.chain, rest[r]) {
      assert live[|xs| + r] == rest[r];
    }
    RestLeft(g, v, f', v', x'.chain, rest);
  }

  lemma OthersLeft(g: Geometry, f: FatMap, v: seq<Byte>, xs: seq<Fil>, live: seq<seq<Dword>>, i: nat,
                   f': FatMap, v': seq<Byte>, ch': seq<Dword>)
    requires g.csize > 0 && |xs| <= |live| && |f'| == |f|
    requires forall j :: 0 <= j < |xs| ==> xs[j].Inv(g, f) && live[j] == xs[j].chain
    requires forall j :: 0 <= j < |live| && j != i ==> LeavesOne(g, v, f', v', ch', live[j])
    ensures forall j :: 0 <= j < |xs| && j != i ==> xs[j].Inv(g, f') && AbsOf(g, v', xs[j]) == AbsOf(g, v, xs[j])
  {
    forall j | 0 <= j < |xs| && j != i
      ensures xs[j].Inv(g, f') && AbsOf(g, v', xs[j]) == AbsOf(g, v, xs[j])
    {
      OneLeft(g, f, v, xs[j], f', v', ch');
    }
  }

  lemma LiveUpdate(xs: seq<Fil>, rest: seq<seq<Dword>>, i: nat, x': Fil)
    requires i < |xs|
    ensures Live(xs[i := x'], rest) == Live(xs, rest)[i := x'.chain]
  {
  }

  lemma OneLeft(g: Geometry, f: FatMap, v: seq<Byte>, x: Fil, f': FatMap, v': seq<Byte>, ch': seq<Dword>)
    requires x.Inv(g, f) && |f'| == |f| && LeavesOne(g, v, f', v', ch', x.chain)
    ensures x.Inv(g, f') && AbsOf(g, v', x) == AbsOf(g, v, x)
  {
  }

  lemma RestLeft(g: Geometry, v: seq<Byte>, f': FatMap, v': seq<Byte>, ch': seq<Dword>, rest: seq<seq<Dword>>)
    requires g.csize > 0 && forall r :: 0 <= r < |rest| ==> LeavesOne(g, v, f', v', ch', rest[r])
    ensures RestKept(g, v, v', rest)
  {
    forall r, n: nat | 0 <= r < |rest|
      ensures Content(g, v', rest[r], n) == Content(g, v, rest[r], n)
    {
      assert LeavesOne(g, v, f', v', ch', rest[r]);
    }
  }

  /** With every other file as before, the abstract states differ in file `i` only. */
  lemma Others(g: Geometry, f: FatMap, v: seq<Byte>, xs: seq<Fil>, i: nat, f': FatMap, v': seq<Byte>, x': Fil,
               out: seq<Byte>)
    requires g.csize > 0 && i < |xs|
    requires forall j :: 0 <= j < |xs| && j != i ==> AbsOf(g, v', xs[j]) == AbsOf(g, v, xs[j])
    ensures var s, s' := AbsState(g, f, v, xs, []), AbsState(g, f', v', xs[i := x'], out);
            s' == Abs(s.files[i := AbsOf(g, v', x')], |Free(f')|, out)
  {
  }

  method PerformWrite(fs: Volume, files: seq<File>, i: nat, data: seq<Byte>, ghost rest: seq<seq<Dword>>)
    requires System(fs, files, rest) && i < |files| && |data| < TWO32
    modifies fs, fs.win, fs.disk.data, files
    ensures System(fs, files, rest) && RestKept(fs.geo, old(fs.view), fs.view, rest)
    ensures SameReserved(old(fs.fat), fs.fat) && AreaKept(fs.geo, old(fs.view), fs.view, true)
    ensures AllMarked(old(Vals(files)), old(Marks(files)), Vals(files), Marks(files))
    ensures files[i].writable ==> files[i].modified
    ensures AbsStep(old(AbsState(fs.geo, fs.fat, fs.view, Vals(files), [])), Write(i, data),
                    AbsState(fs.geo, fs.fat, fs.view, Vals(files), []))
  {
    ghost var g, f, v, xs, ms := fs.geo, fs.fat, fs.view, Vals(files), Marks(files);
    var res, bw := FWrite(fs, files[i], data);
    ghost var x' := files[i].Val();
    assert Vals(files) == xs[i := x'] && Marks(files) == ms[i := files[i].modified];
    FileWritten(g, f, v, xs, rest, i, fs.fat, fs.view, x');
    WriteMarks(g, f, v, xs[i], ms[i], fs.fat, fs.view, x', files[i].modified);
    OneMarked(xs, ms, i, x', files[i].modified);
    WriteIsStep(g, v, xs[i], fs.fat, fs.view, x', data, bw);
  }

  /** A write within its frame keeps the invariant, all other files and the rest of the volume. */
  lemma FileWritten(g: Geometry, f: FatMap, v: seq<Byte>, xs: seq<Fil>, rest: seq<seq<Dword>>, i: nat,
                    f': FatMap, v': seq<Byte>, x': Fil)
    requires g.Valid(|v| / SS) && |f| == |f'| == g.nFatent && i < |xs| && Consistent(g, f, v, xs, rest)
    requires x'.Inv(g, f') && x'.err == OK && WriteFrame(g, f, v, xs[i].chain, f', v', x'.chain)
    ensures Consistent(g, f', v', xs[i := x'], rest) && RestKept(g, v, v', rest)
    ensures SameReserved(f, f') && AreaKept(g, v, v', true)
    ensures AbsState(g, f', v', xs[i := x'], [])
         == Abs(AbsState(g, f, v, xs, []).files[i := AbsOf(g, v', x')], |Free(f')|, [])
  {
    WriteLeaves(g, f, v, xs[i].chain, f', v', x'.chain);
    InvChain(x', g, f');
    WriteReserved(g, f, v, xs[i].chain, f', v', x'.chain);
    WriteArea(g, f, v, xs[i].chain, f', v', x'.chain);
    assert FatsAgree(g, v') by { assert UnfoldFrame(0); }
    Close(g, f, v, xs, rest, i, f', v', x');
    Others(g, f, v, xs, i, f', v', x', []);
  }

  /** The same for a truncation. */
  lemma FileTrimmed(g: Geometry, f: FatMap, v: seq<Byte>, xs: seq<Fil>, rest: seq<seq<Dword>>, i: nat,
                    f': FatMap, v': seq<Byte>, x': Fil)
    requires g.Valid(|v| / SS) && |f| == |f'| == g.nFatent && i < |xs| && Consistent(g, f, v, xs, rest)
    requires x'.Inv(g, f') && x'.err == OK && Trimmed(g, f, v, xs[i].chain, f', v', x'.chain)
    ensures Consistent(g, f', v', xs[i := x'], rest) && RestKept(g, v, v', rest)
    ensures SameReserved(f, f') && AreaKept(g, v, v', true)
    ensures AbsState(g, f', v', xs[i := x'], [])
         == Abs(AbsState(g, f, v, xs, []).files[i := AbsOf(g, v', x')], |Free(f')|, [])
  {
    TrimLeaves(g, f, v, xs[i].chain, f', v', x'.chain);
    InvChain(xs[i], g, f);
    TrimReserved(g, f, v, xs[i].chain, f', v', x'.chain);
    TrimArea(g, f, v, xs[i].chain, f', v', x'.chain);
    assert FatsAgree(g, v') by { assert UnfoldFrame(0); }
    Close(g, f, v, xs, rest, i, f', v', x');
    Others(g, f, v, xs, i, f', v', x', []);
  }

  lemma WriteIsStep(g: Geometry, v: seq<Byte>, x: Fil, f': FatMap, v': seq<Byte>, x': Fil, d: seq<Byte>, bw: nat)
    requires g.csize > 0 && x.fptr <= x.objsize && x'.Inv(g, f')
    requires bw <= |d| && x'.fptr == x.fptr + bw && (!x.writable ==> bw == 0)
    requires x'.readable == x.readable && x'.writable == x.writable
    requires x'.Bytes(g, v') == Splice(x.Bytes(g, v), x.fptr, d[..bw])
    requires x.writable && bw < |d| ==>
               || (Free(f') == {} && x'.fptr == |x'.chain| * g.Bcs())
               || (x.fptr + |d| >= TWO32 && bw == 0xFFFF_FFFF - x.fptr)
    ensures WriteStepAbs(AbsOf(g, v, x), d, AbsOf(g, v', x'), |Free(f')|)
  {
    assert UnfoldFil(0);
    if x.writable {
      assert Wrote(AbsOf(g, v, x), d, bw, AbsOf(g, v', x'), |Free(f')|);
    } else {
      SpliceNothing(x.Bytes(g, v), x.fptr);
    }
  }

  method PerformSeek(fs: Volume, files: seq<File>, i: nat, ofs: Dword, ghost rest: seq<seq<Dword>>)
    requires System(fs, files, rest) && i < |files|
    modifies fs, fs.win, fs.disk.data, files
    ensures System(fs, files, rest) && RestKept(fs.geo, old(fs.view), fs.view, rest)
    ensures SameReserved(old(fs.fat), fs.fat) && AreaKept(fs.geo, old(fs.view), fs.view, true)
    ensures AllMarked(old(Vals(files)), old(Marks(files)), Vals(files), Marks(files))
    ensures AbsStep(old(AbsState(fs.geo, fs.fat, fs.view, Vals(files), [])), Seek(i, ofs),
                    AbsState(fs.geo, fs.fat, fs.view, Vals(files), []))
  {
    ghost var g, f, v, xs, ms := fs.geo, fs.fat, fs.view, Vals(files), Marks(files);
    var res := FLseek(fs, files[i], ofs);
    ghost var x' := files[i].Val();
    assert Vals(files) == xs[i := x'] && Marks(files) == ms[i := files[i].modified];
    GrownIsWrite(g, f, v, xs[i].chain, fs.fat, fs.view, x'.chain);
    FileWritten(g, f, v, xs, rest, i, fs.fat, fs.view, x');
    SeekMarks(g, f, v, xs[i], fs.fat, fs.view, x', if xs[i].writable then ofs else Min(ofs, xs[i].objsize));
    OneMarked(xs, ms, i, x', files[i].modified);
    SeekIsStep(g, f, v, xs[i], fs.fat, fs.view, x', ofs);
  }

  lemma SeekIsStep(g: Geometry, f: FatMap, v: seq<Byte>, x: Fil, f': FatMap, v': seq<Byte>, x': Fil, ofs: nat)
    requires x.Inv(g, f) && x'.Inv(g, f') && WriteFrame(g, f, v, x.chain, f', v', x'.chain)
    requires x'.readable == x.readable && x'.writable == x.writable
    requires x'.objsize == Max(x.objsize, x'.fptr) && x'.Bytes(g, v')[..x.objsize] == x.Bytes(g, v)
    requires var target := if x.writable then ofs else Min(ofs, x.objsize);
             x'.fptr == target || (x'.fptr == |x'.chain| * g.Bcs() < target && Free(f') == {})
    ensures SeekStepAbs(AbsOf(g, v, x), ofs, AbsOf(g, v', x'), |Free(f')|)
  {
    assert UnfoldFil(0) && UnfoldFrame(0);
    MulLe(g.Bcs(), |x.chain|, |x'.chain|);
  }

  method PerformTruncate(fs: Volume, files: seq<File>, i: nat, ghost rest: seq<seq<Dword>>)
    requires System(fs, files, rest) && i < |files|
    modifies fs, fs.win, fs.disk.data, files
    ensures System(fs, files, rest) && RestKept(fs.geo, old(fs.view), fs.view, rest)
    ensures SameReserved(old(fs.fat), fs.fat) && AreaKept(fs.geo, old(fs.view), fs.view, true)
    ensures AllMarked(old(Vals(files)), old(Marks(files)), Vals(files), Marks(files))
    ensures AbsStep(old(AbsState(fs.geo, fs.fat, fs.view, Vals(files), [])), Truncate(i),
                    AbsState(fs.geo, fs.fat, fs.view, Vals(files), []))
  {
    ghost var g, f, v, xs, ms := fs.geo, fs.fat, fs.view, Vals(files), Marks(files);
    var res := FTruncate(fs, files[i]);
    ghost var x' := files[i].Val();
    assert Vals(files) == xs[i := x'] && Marks(files) == ms[i := files[i].modified];
    FileTrimmed(g, f, v, xs, rest, i, fs.fat, fs.view, x');
    WriteMarks(g, f, v, xs[i], ms[i], fs.fat, fs.view, x', files[i].modified);
    OneMarked(xs, ms, i, x', files[i].modified);
    assert TruncateStepAbs(AbsOf(g, v, xs[i]), AbsOf(g, fs.view, x'));
  }

  method PerformRead(fs: Volume, files: seq<File>, i: nat, count: Dword, ghost rest: seq<seq<Dword>>)
    returns (out: seq<Byte>)
    requires System(fs, files, rest) && i < |files|
    modifies fs, fs.win, fs.disk.data, files
    ensures System(fs, files, rest) && RestKept(fs.geo, old(fs.view), fs.view, rest)
    ensures SameReserved(old(fs.fat), fs.fat) && AreaKept(fs.geo, old(fs.view), fs.view, true)
    ensures AllMarked(old(Vals(files)), old(Marks(files)), Vals(files), Marks(files))
    ensures AbsStep(old(AbsState(fs.geo, fs.fat, fs.view, Vals(files), [])), Read(i, count),
                    AbsState(fs.geo, fs.fat, fs.view, Vals(files), out))
  {
    ghost var g, f, v, xs, ms := fs.geo, fs.fat, fs.view, Vals(files), Marks(files);
    out := ReadOut(fs, files[i], count);
    ghost var x' := files[i].Val();
    assert Vals(files) == xs[i := x'] && Marks(files) == ms[i := files[i].modified];
    FileMoved(g, f, v, xs, rest, i, x', count, out);
    OneMarked(xs, ms, i, x', files[i].modified);
  }

  /** A read moves the cursor only. */
  lemma FileMoved(g: Geometry, f: FatMap, v: seq<Byte>, xs: seq<Fil>, rest: seq<seq<Dword>>, i: nat, x': Fil,
                  n: Dword, out: seq<Byte>)
    requires g.csize > 0 && i < |xs| && Consistent(g, f, v, xs, rest) && x'.Inv(g, f)
    requires var x := xs[i];
             && x' == x.(fptr := x'.fptr, clust := x'.clust, sect := x'.sect)
             && |out| == (if x.readable then Min(n, x.objsize - x.fptr) else 0)
             && x.fptr <= x'.fptr == x.fptr + |out| <= x.objsize && out == x'.Bytes(g, v)[x.fptr..x'.fptr]
    ensures Consistent(g, f, v, xs[i := x'], rest)
    ensures AbsStep(AbsState(g, f, v, xs, []), Read(i, n), AbsState(g, f, v, xs[i := x'], out))
  {
    SameLeaves(g, f, v, xs[i].chain);
    Close(g, f, v, xs, rest, i, f, v, x');
    Others(g, f, v, xs, i, f, v, x', out);
    ReadIsStep(g, v, xs[i], x', n, |out|, out);
  }

  /** f_read into a fresh buffer. */
  method ReadOut(fs: Volume, fp: File, count: Dword) returns (out: seq<Byte>)
    requires Sound(fs) && fp.Inv(fs.geo, fs.fat) && fp.err == OK
    modifies fs`wflag, fs`winsect, fs.win, fs.disk.data, fp`fptr, fp`clust, fp`sect
    ensures Sound(fs) && fp.Inv(fs.geo, fs.fat)
    ensures |out| == if fp.readable then Min(count, fp.objsize - old(fp.fptr)) else 0
    ensures fp.fptr == old(fp.fptr) + |out|
    ensures out == fp.Bytes(fs.geo, fs.view)[old(fp.fptr)..fp.fptr]
  {
    var buff := new Byte[count](_ => 0);
    var res, br := FRead(fs, fp, buff, count);
    out := buff[..br];
  }

  lemma ReadIsStep(g: Geometry, v: seq<Byte>, x: Fil, x': Fil, n: Dword, k: nat, out: seq<Byte>)
    requires g.csize > 0 && x.fptr <= x.objsize && x' == x.(fptr := x'.fptr, clust := x'.clust, sect := x'.sect)
    requires k == if x.readable then Min(n, x.objsize - x.fptr) else 0
    requires x'.fptr == x.fptr + k && out == x'.Bytes(g, v)[x.fptr..x'.fptr]
    ensures ReadStepAbs(AbsOf(g, v, x), n, AbsOf(g, v, x'), out)
  {
  }

  lemma SameLeaves(g: Geometry, f: FatMap, v: seq<Byte>, ch: seq<Dword>)
    requires g.csize > 0
    ensures Leaves(g, f, v, ch, f, v, ch)
  {
  }

  /** Performs one operation; an operation on a file that is not open does nothing. */
  method Perform(fs: Volume, files: seq<File>, op: Op, ghost rest: seq<seq<Dword>>) returns (out: seq<Byte>)
    requires System(fs, files, rest) && (op.Write? ==> |op.data| < TWO32)
    modifies fs, fs.win, fs.disk.data, files
    ensures System(fs, files, rest) && RestKept(fs.geo, old(fs.view), fs.view, rest)
    ensures SameReserved(old(fs.fat), fs.fat) && AreaKept(fs.geo, old(fs.view), fs.view, true)
    ensures AllMarked(old(Vals(files)), old(Marks(files)), Vals(files), Marks(files))
    ensures MarkedBy([op], old(Vals(files)), Marks(files))
    ensures AbsStep(old(AbsState(fs.geo, fs.fat, fs.view, Vals(files), [])), op,
                    AbsState(fs.geo, fs.fat, fs.view, Vals(files), out))
  {
    out := [];
    if op.file >= |files| { return; }
    match op
    case Write(i, data) =>
      PerformWrite(fs, files, i, data, rest);
      assert Marked(old(Vals(files))[i], old(Marks(files))[i], Vals(files)[i], Marks(files)[i]);
    case Read(i, count) => out := PerformRead(fs, files, i, count, rest);
    case Seek(i, ofs) => PerformSeek(fs, files, i, ofs, rest);
    case Truncate(i) => PerformTruncate(fs, files, i, rest);
  }

  /** Every run keeps the invariant, refines a run of the abstract machine, returns what that
      run returns, and changes no byte of any file that is not open. */
  method Run(fs: Volume, files: seq<File>, ops: seq<Op>, ghost rest: seq<seq<Dword>>)
    returns (outs: seq<seq<Byte>>, ghost trace: seq<Abs>)
    requires System(fs, files, rest)
    requires forall k :: 0 <= k < |ops| && ops[k].Write? ==> |ops[k].data| < TWO32
    modifies fs, fs.win, fs.disk.data, files
    ensures System(fs, files, rest) && RestKept(fs.geo, old(fs.view), fs.view, rest)
    ensures SameReserved(old(fs.fat), fs.fat) && AreaKept(fs.geo, old(fs.view), fs.view, true)
    ensures AllMarked(old(Vals(files)), old(Marks(files)), Vals(files), Marks(files))
    ensures MarkedBy(ops, old(Vals(files)), Marks(files))
    ensures IsRun(trace, ops)
    ensures trace[0] == old(AbsState(fs.geo, fs.fat, fs.view, Vals(files), []))
    ensures trace[|ops|].files == AbsState(fs.geo, fs.fat, fs.view, Vals(files), []).files
    ensures trace[|ops|].free == |Free(fs.fat)|
    ensures |outs| == |ops| && forall k :: 0 <= k < |ops| ==> outs[k] == trace[k + 1].out
  {
    outs := [];
    trace := [AbsState(fs.geo, fs.fat, fs.view, Vals(files), [])];
    var k := 0;
    while k < |ops|
      invariant 0 <= k <= |ops|
      invariant System(fs, files, rest) && RestKept(fs.geo, old(fs.view), fs.view, rest)
      invariant SameReserved(old(fs.fat), fs.fat) && AreaKept(fs.geo, old(fs.view), fs.view, true)
      invariant AllMarked(old(Vals(files)), old(Marks(files)), Vals(files), Marks(files))
      invariant MarkedBy(ops[..k], old(Vals(files)), Marks(files))
      invariant IsRun(trace, ops[..k]) && trace[0] == old(AbsState(fs.geo, fs.fat, fs.view, Vals(files), []))
      invariant trace[k].files == AbsState(fs.geo, fs.fat, fs.view, Vals(files), []).files
      invariant trace[k].free == |Free(fs.fat)|
      invariant |outs| == k && forall j :: 0 <= j < k ==> outs[j] == trace[j + 1].out
    {
      ghost var v1, xs1, ms1 := fs.view, Vals(files), Marks(files);
      var out := Perform(fs, files, ops[k], rest);
      RestKeptTrans(fs.geo, old(fs.view), v1, fs.view, rest);
      AreaTrans(fs.geo, old(fs.view), v1, fs.view, true);
      MarkedMore(ops, k, old(Vals(files)), old(Marks(files)), xs1, ms1, Vals(files), Marks(files));
      MarkedTrans(old(Vals(files)), old(Marks(files)), xs1, ms1, Vals(files), Marks(files));
      trace := ExtendRun(trace, ops, k, AbsState(fs.geo, fs.fat, fs.view, Vals(files), out));
      outs := outs + [out];
      k := k + 1;
    }
    assert ops[..k] == ops;
  }

  lemma RestKeptTrans(g: Geometry, v: seq<Byte>, v': seq<Byte>, v'': seq<Byte>, rest: seq<seq<Dword>>)
    requires g.csize > 0 && RestKept(g, v, v', rest) && RestKept(g, v', v'', rest)
    ensures RestKept(g, v, v'', rest)
  {
    forall r, n: nat | 0 <= r < |rest| ensures Content(g, v'', rest[r], n) == Content(g, v, rest[r], n) {
      assert Content(g, v'', rest[r], n) == Content(g, v', rest[r], n);
    }
  }

  lemma ExtendRun(trace: seq<Abs>, ops: seq<Op>, k: nat, s: Abs) returns (trace': seq<Abs>)
    requires k < |ops| && IsRun(trace, ops[..k]) && AbsStep(trace[k].(out := []), ops[k], s)
    ensures trace' == trace + [s] && IsRun(trace', ops[..k + 1])
  {
    trace' := trace + [s];
    forall j | 0 <= j < k + 1 ensures AbsStep(trace'[j], ops[..k + 1][j], trace'[j + 1]) {
      if j < k { assert AbsStep(trace[j], ops[..k][j], trace[j + 1]); }
    }
  }
}
