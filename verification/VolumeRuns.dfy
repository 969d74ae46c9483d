/** Directory operations and f_getfree as steps of the whole system: with any files open they keep
    the invariant of every run and change no byte and no cursor of any file. */
module VolumeRuns {
  import opened Bytes
  import opened Layout
  import opened DiskIo
  import opened FatBits
  import opened Window
  import opened Chains
  import opened Allocator
  import opened FileData
  import opened Files
  import opened DirTable
  import opened DirWalk
  import opened Directory
  import opened Runs

  /** The chains of `rest` other than `r` hold the same bytes. */
  ghost predicate OthersKept(g: Geometry, v: seq<Byte>, v': seq<Byte>, rest: seq<seq<Dword>>, r: nat)
    requires g.csize > 0
  {
    forall q, n: nat :: 0 <= q < |rest| && q != r ==> Content(g, v', rest[q], n) == Content(g, v, rest[q], n)
  }

  lemma DirLeaves(g: Geometry, f: FatMap, v: seq<Byte>, ch: seq<Dword>, f': FatMap, v': seq<Byte>, ch': seq<Dword>)
    requires g.Valid(|v| / SS) && |f| == g.nFatent && DirFrame(g, f, v, ch, f', v', ch')
    ensures Leaves(g, f, v, ch, f', v', ch') && |f'| == |f| && (FatsAgree(g, v) ==> FatsAgree(g, v'))
  {
    assert UnfoldFrame(0);
    forall other | IsChain(f, other) && Disjoint(other, ch) ensures LeavesOne(g, v, f', v', ch', other) {
      forall n: nat ensures Content(g, v', other, n) == Content(g, v, other, n) {
        DirLeavesOthers(g, f, v, ch, f', v', ch', other, n);
      }
      DirLeavesOthers(g, f, v, ch, f', v', ch', other, 0);
    }
  }

  lemma DirReserved(g: Geometry, f: FatMap, v: seq<Byte>, ch: seq<Dword>, f': FatMap, v': seq<Byte>, ch': seq<Dword>)
    requires |f| >= 2 && IsChain(f', ch') && DirFrame(g, f, v, ch, f', v', ch')
    ensures SameReserved(f, f')
  {
    assert UnfoldFrame(0);
    assert 0 !in ch' && 1 !in ch';
  }

  /** A directory operation stays off the same parts of the disk as a file operation, but for the
      root table if that is its table. */
  lemma DirArea(g: Geometry, f: FatMap, v: seq<Byte>, ch: seq<Dword>, f': FatMap, v': seq<Byte>, ch': seq<Dword>)
    requires g.Valid(|v| / SS) && |f'| == g.nFatent && IsChain(f', ch') && DirFrame(g, f, v, ch, f', v', ch')
    ensures AreaKept(g, v, v', ch' != [])
  {
    assert UnfoldFrame(0);
    forall a | 0 <= a < |v| && OffLimits(g, a, ch' != []) ensures v'[a] == v[a] {
      OutsideAll(g, |v| / SS, a, ch' != []);
      assert ch' != [] ==> !Owned(g, ch', a);
      RootInside(g, |v| / SS, a, ch' != []);
    }
  }

  lemma RootInside(g: Geometry, sectors: nat, a: int, root: bool)
    requires g.Valid(sectors) && OffLimits(g, a, root)
    ensures !root ==> !(g.FatEnd() * SS <= a < g.database * SS)
  {
    MulLe(g.csize, 1, g.nFatent - 2);
  }

  /** A step on the chain `rest[r]` that leaves the others alone. */
  lemma CloseRest(g: Geometry, f: FatMap, v: seq<Byte>, xs: seq<Fil>, rest: seq<seq<Dword>>, r: nat,
                  f': FatMap, v': seq<Byte>, ch': seq<Dword>)
    requires g.csize > 0 && r < |rest| && Consistent(g, f, v, xs, rest) && |f'| == |f|
    requires IsChain(f', ch') && FatsAgree(g, v') && Leaves(g, f, v, rest[r], f', v', ch')
    ensures Consistent(g, f', v', xs, rest[r := ch'])
    ensures forall j :: 0 <= j < |xs| ==> AbsOf(g, v', xs[j]) == AbsOf(g, v, xs[j])
    ensures OthersKept(g, v, v', rest, r)
  {
    var live, i := Live(xs, rest), |xs| + r;
    assert live[i] == rest[r];
    LiveLeaves(g, f, v, live, i, f', v', ch');
    assert Live(xs, rest[r := ch']) == live[i := ch'];
    OthersLeft(g, f, v, xs, live, i, f', v', ch');
    forall q, n: nat | 0 <= q < |rest| && q != r ensures Content(g, v', rest[q], n) == Content(g, v, rest[q], n) {
      assert live[|xs| + q] == rest[q];
      assert LeavesOne(g, v, f', v', ch', live[|xs| + q]);
    }
  }

  lemma DirStep(g: Geometry, f: FatMap, v: seq<Byte>, xs: seq<Fil>, rest: seq<seq<Dword>>, r: nat,
                f': FatMap, v': seq<Byte>, ch': seq<Dword>)
    requires g.Valid(|v| / SS) && |f| == g.nFatent && r < |rest| && Consistent(g, f, v, xs, rest)
    requires IsChain(f', ch') && DirFrame(g, f, v, rest[r], f', v', ch')
    ensures Consistent(g, f', v', xs, rest[r := ch']) && OthersKept(g, v, v', rest, r)
    ensures AbsState(g, f', v', xs, []).files == AbsState(g, f, v, xs, []).files && SameReserved(f, f')
  {
    DirReserved(g, f, v, rest[r], f', v', ch');
    DirLeaves(g, f, v, rest[r], f', v', ch');
    CloseRest(g, f, v, xs, rest, r, f', v', ch');
  }

  /** The open files as the abstract machine sees them. */
  ghost function AbsFiles(fs: Volume, files: seq<File>): seq<AbsFile>
    requires fs.geo.csize > 0
    reads fs, files
  {
    AbsState(fs.geo, fs.fat, fs.view, Vals(files), []).files
  }

  /** dir_register with files open; the directory's chain is `rest[r]`. */
  method Register(fs: Volume, files: seq<File>, dp: Dir, ghost rest: seq<seq<Dword>>, ghost r: nat)
    returns (res: FResult)
    requires System(fs, files, rest) && dp.Inv(fs.geo, fs.fat) && r < |rest| && rest[r] == dp.chain
    modifies fs, fs.win, fs.disk.data, dp`dptr, dp`clust, dp`sect, dp`chain
    ensures System(fs, files, rest[r := dp.chain]) && dp.Inv(fs.geo, fs.fat)
    ensures AbsFiles(fs, files) == old(AbsFiles(fs, files)) && OthersKept(fs.geo, old(fs.view), fs.view, rest, r)
    ensures SameReserved(old(fs.fat), fs.fat) && AreaKept(fs.geo, old(fs.view), fs.view, dp.chain != [])
    ensures res == OK || res == DENIED
    ensures res == OK ==> Bound(old(T(fs, dp)), T(fs, dp), dp.fn)
  {
    ghost var g, f, v, xs := fs.geo, fs.fat, fs.view, Vals(files);
    res := DirRegister(fs, dp);
    assert Vals(files) == xs;
    DirStep(g, f, v, xs, rest, r, fs.fat, fs.view, dp.chain);
    DirArea(g, f, v, rest[r], fs.fat, fs.view, dp.chain);
  }

  /** dir_remove with files open. */
  method Remove(fs: Volume, files: seq<File>, dp: Dir, ghost rest: seq<seq<Dword>>, ghost r: nat) returns (res: FResult)
    requires System(fs, files, rest) && dp.Inv(fs.geo, fs.fat) && dp.At(fs.geo) && r < |rest| && rest[r] == dp.chain
    modifies fs`wflag, fs`winsect, fs`view, fs`fat, fs.win, fs.disk.data
    ensures System(fs, files, rest) && dp.Inv(fs.geo, fs.fat) && res == OK
    ensures AbsFiles(fs, files) == old(AbsFiles(fs, files)) && OthersKept(fs.geo, old(fs.view), fs.view, rest, r)
    ensures SameReserved(old(fs.fat), fs.fat) && AreaKept(fs.geo, old(fs.view), fs.view, dp.chain != [])
    ensures Unbound(old(T(fs, dp)), T(fs, dp), dp.dptr / SZDIRE)
  {
    ghost var g, f, v, xs, ch := fs.geo, fs.fat, fs.view, Vals(files), dp.chain;
    res := DirRemove(fs, dp);
    assert Vals(files) == xs;
    DirStep(g, f, v, xs, rest, r, fs.fat, fs.view, ch);
    DirArea(g, f, v, ch, fs.fat, fs.view, ch);
    assert rest[r := ch] == rest;
  }

  /** f_getfree with files open: the count is that of the free clusters, as after any run on a
      volume whose reserved FAT entries are not zero. */
  method CountFree(fs: Volume, files: seq<File>, ghost rest: seq<seq<Dword>>) returns (nclst: Dword)
    requires System(fs, files, rest) && fs.fat[0] != 0 && fs.fat[1] != 0
    modifies fs, fs.win, fs.disk.data
    ensures System(fs, files, rest) && fs.view == old(fs.view) && fs.fat == old(fs.fat)
    ensures AbsFiles(fs, files) == old(AbsFiles(fs, files)) && nclst == |Free(fs.fat)|
    ensures Total(Live(Vals(files), rest)) + nclst <= fs.geo.nFatent - 2
  {
    ghost var xs := Vals(files);
    var res;
    res, nclst := GetFree(fs);
    assert Vals(files) == xs;
    ClustersConserved(fs.fat, Live(xs, rest));
  }

  // ----------------------------------------------------- opening and closing

  ghost function Without<T>(s: seq<T>, i: nat): (t: seq<T>)
    requires i < |s|
  {
    s[..i] + s[i + 1..]
  }

  /** Element `i` comes to place `k`. */
  ghost function Moved<T>(s: seq<T>, i: nat, k: nat): (t: seq<T>)
    requires i < |s| && k < |s|
    ensures |t| == |s|
  {
    Without(s, i)[..k] + [s[i]] + Without(s, i)[k..]
  }

  /** Where element `j` comes from. */
  ghost function Source(i: nat, k: nat, j: nat): nat
  {
    var p := if j < k then j else j - 1;
    if j == k then i else if p < i then p else p + 1
  }

  lemma MovedFrom<T>(s: seq<T>, i: nat, k: nat, j: nat)
    requires i < |s| && k < |s| && j < |s|
    ensures Source(i, k, j) < |s| && Moved(s, i, k)[j] == s[Source(i, k, j)]
  {
  }

  /** Soundness does not depend on the order of the chains. */
  lemma MovedSound(f: FatMap, live: seq<seq<Dword>>, i: nat, k: nat, live': seq<seq<Dword>>)
    requires LiveSound(f, live) && i < |live| && k < |live| && live' == Moved(live, i, k)
    ensures LiveSound(f, live')
  {
    forall j | 0 <= j < |live'| ensures IsChain(f, live'[j]) { MovedFrom(live, i, k, j); }
    forall j, l | 0 <= j < |live'| && 0 <= l < |live'| && j != l ensures Disjoint(live'[j], live'[l]) {
      MovedFrom(live, i, k, j);
      MovedFrom(live, i, k, l);
      assert Disjoint(live[Source(i, k, j)], live[Source(i, k, l)]);
    }
  }

  lemma LiveOpened(xs: seq<Fil>, rest: seq<seq<Dword>>, r: nat, x: Fil)
    requires r < |rest| && x.chain == rest[r]
    ensures Live(xs + [x], Without(rest, r)) == Moved(Live(xs, rest), |xs| + r, |xs|)
  {
    var l, n := Live(xs, rest), |xs|;
    assert Without(l, n + r) == l[..n] + Without(rest, r);
    assert Live(xs + [x], Without(rest, r)) == l[..n] + [x.chain] + Without(rest, r);
  }

  lemma LiveClosed(xs: seq<Fil>, rest: seq<seq<Dword>>, i: nat)
    requires i < |xs|
    ensures Live(Without(xs, i), rest + [xs[i].chain]) == Moved(Live(xs, rest), i, |xs| + |rest| - 1)
  {
    var l := Live(xs, rest);
    assert Live(Without(xs, i), rest) == Without(l, i);
    assert Live(Without(xs, i), rest + [xs[i].chain]) == Without(l, i) + [l[i]];
  }

  /** The chain `rest[r]` becomes that of an open file ... */
  lemma ChainOpened(g: Geometry, f: FatMap, v: seq<Byte>, xs: seq<Fil>, rest: seq<seq<Dword>>, r: nat, x: Fil)
    requires Consistent(g, f, v, xs, rest) && r < |rest| && x.Inv(g, f) && x.err == OK && x.chain == rest[r]
    ensures Consistent(g, f, v, xs + [x], Without(rest, r))
  {
    LiveOpened(xs, rest, r, x);
    MovedSound(f, Live(xs, rest), |xs| + r, |xs|, Live(xs + [x], Without(rest, r)));
  }

  /** ... and back: the chain of an open file becomes one of the rest. */
  lemma ChainClosed(g: Geometry, f: FatMap, v: seq<Byte>, xs: seq<Fil>, rest: seq<seq<Dword>>, i: nat)
    requires Consistent(g, f, v, xs, rest) && i < |xs|
    ensures Consistent(g, f, v, Without(xs, i), rest + [xs[i].chain])
  {
    LiveClosed(xs, rest, i);
    MovedSound(f, Live(xs, rest), i, |xs| + |rest| - 1, Live(Without(xs, i), rest + [xs[i].chain]));
  }

  /** An empty object needs no cluster. */
  lemma ObjectCreated(g: Geometry, f: FatMap, v: seq<Byte>, xs: seq<Fil>, rest: seq<seq<Dword>>)
    requires Consistent(g, f, v, xs, rest)
    ensures Consistent(g, f, v, xs, rest + [[]])
  {
    var live, live' := Live(xs, rest), Live(xs, rest + [[]]);
    assert live' == live + [[]];
  }

  lemma RestChain(f: FatMap, xs: seq<Fil>, rest: seq<seq<Dword>>, r: nat)
    requires LiveSound(f, Live(xs, rest)) && r < |rest|
    ensures IsChain(f, rest[r])
  {
    assert Live(xs, rest)[|xs| + r] == rest[r];
  }

  /** f_open of the object whose chain is `rest[r]`, with its start cluster and size from the
      directory entry: the file shows the object's bytes, the cursor is at their start or end,
      and nothing else changes. */
  method OpenFile(fs: Volume, files: seq<File>, sclust: Dword, size: Dword, readable: bool, writable: bool,
                  append: bool, ghost rest: seq<seq<Dword>>, ghost r: nat)
    returns (res: FResult, fp: File)
    requires System(fs, files, rest) && r < |rest|
    requires sclust == Nth(rest[r], 0) && size <= |rest[r]| * fs.geo.Bcs()
    modifies fs`wflag, fs`winsect, fs.win, fs.disk.data
    ensures res == OK && fresh(fp) && fs.view == old(fs.view) && fs.fat == old(fs.fat)
    ensures System(fs, files + [fp], Without(rest, r)) && fp.chain == rest[r]
    ensures AbsFiles(fs, files + [fp]) == old(AbsFiles(fs, files)) +
              [AbsFile(Content(fs.geo, fs.view, rest[r], size), if append then size else 0, readable, writable)]
  {
    ghost var xs := Vals(files);
    RestChain(fs.fat, xs, rest, r);
    res, fp := OpenObject(fs, sclust, size, readable, writable, append, rest[r]);
    assert Vals(files) == xs && Vals(files + [fp]) == xs + [fp.Val()];
    ChainOpened(fs.geo, fs.fat, fs.view, xs, rest, r, fp.Val());
  }

  /** f_close: the chain goes back to the rest, and the other files stay as they are. */
  lemma FileClosed(fs: Volume, files: seq<File>, rest: seq<seq<Dword>>, i: nat)
    requires System(fs, files, rest) && i < |files|
    ensures System(fs, Without(files, i), rest + [files[i].chain])
    ensures AbsFiles(fs, Without(files, i)) == Without(AbsFiles(fs, files), i)
  {
    var xs := Vals(files);
    assert Vals(Without(files, i)) == Without(xs, i);
    ChainClosed(fs.geo, fs.fat, fs.view, xs, rest, i);
  }
}
