/** Long file names: the entry set that stores one (put_lfn, written bottom first by
    dir_register) and the scan that reassembles it (pick_lfn, driven by dir_read). */
module Lfn {
  import opened Bytes
  import opened Layout
  import opened DirTable
  import opened Window
  import opened Chains
  import opened DirWalk

  const MAX_LFN := 255          // FF_MAX_LFN
  const LLEF: Byte := 0x40      // last long entry flag
  const AM_LFN: Byte := 0x0F
  const FILLER: Word := 0xFFFF
  const CHARS := 13             // name units per entry
  const CHKSUM := 13            // offset of the checksum
  const FSTCLUS := 26           // offset of the zero cluster field
  const NO_LFN: Dword := 0xFFFF_FFFF

  type Entry = e: seq<Byte> | |e| == SZDIRE witness seq(SZDIRE, _ => 0)

  /** Offset of unit `k` in an entry. */
  function LfnOfs(k: nat): (o: nat)
    requires k < CHARS
  {
    if k < 5 then 1 + 2 * k else if k < 11 then 4 + 2 * k else 6 + 2 * k
  }

  function Unit(e: Entry, k: nat): Word
    requires k < CHARS
  {
    LdWord(e, LfnOfs(k))
  }

  predicate HasLlef(b: Byte) { b / 64 % 2 == 1 }
  function ClearLlef(b: Byte): Byte { if HasLlef(b) then b - LLEF else b }

  /** The unit at `i` of a name followed by its terminator. */
  function At(name: seq<Word>, i: nat): Word { if i < |name| then name[i] else 0 }

  /** A name that survives storage: at most 255 units, none a terminator or a filler. */
  ghost predicate Storable(name: seq<Word>)
  {
    0 < |name| <= MAX_LFN && forall i :: 0 <= i < |name| ==> name[i] != 0 && name[i] != FILLER
  }

  /** Number of entries a name takes. */
  function Parts(name: seq<Word>): nat { (|name| + CHARS - 1) / CHARS }

  // ------------------------------------------------------------------ storing

  /** What put_lfn stores as unit `k` of the part at `ofs`: the name, its terminator, then
      fillers.  A filler inside the name cuts the part short too. */
  function Fill(name: seq<Word>, ofs: nat, k: nat): Word
  {
    if k > 0 && (Fill(name, ofs, k - 1) == 0 || Fill(name, ofs, k - 1) == FILLER) then FILLER
    else At(name, ofs + k)
  }

  lemma {:induction false} FillIsName(name: seq<Word>, ofs: nat, k: nat)
    requires Storable(name) && ofs <= |name|
    ensures Fill(name, ofs, k) == if ofs + k <= |name| then At(name, ofs + k) else FILLER
  {
    if k > 0 { FillIsName(name, ofs, k - 1); }
  }

  /** Whether put_lfn takes part `ord` for the last one of the name. */
  predicate LastPart(name: seq<Word>, ord: nat)
    requires ord > 0
  {
    var c := Fill(name, (ord - 1) * CHARS, CHARS - 1);
    c == 0 || c == FILLER || At(name, ord * CHARS) == 0
  }

  /** `e` is the entry of part `ord`; this fixes all of its 32 bytes. */
  ghost predicate IsPart(e: Entry, name: seq<Word>, ord: nat, sum: Byte)
    requires ord > 0
  {
    && e[0] as int == (if LastPart(name, ord) then ord + LLEF else ord)
    && e[ATTR] == AM_LFN && e[12] == 0 && e[CHKSUM] == sum && LdWord(e, FSTCLUS) == 0
    && forall k :: 0 <= k < CHARS ==> Unit(e, k) == Fill(name, (ord - 1) * CHARS, k)
  }

  lemma LastIsLast(name: seq<Word>, ord: nat)
    requires Storable(name) && 0 < ord <= Parts(name)
    ensures LastPart(name, ord) <==> ord == Parts(name)
  {
    FillIsName(name, (ord - 1) * CHARS, CHARS - 1);
  }

  /** Equal outside the name units and the order byte. */
  predicate SameHeader(e: Entry, f: Entry)
  {
    e[ATTR] == f[ATTR] && e[12] == f[12] && e[CHKSUM] == f[CHKSUM] && LdWord(e, FSTCLUS) == LdWord(f, FSTCLUS)
  }

  lemma StoreUnit(e: Entry, k: nat, v: Word)
    requires k < CHARS
    ensures var r: Entry := StWord(e, LfnOfs(k), v);
            && Unit(r, k) == v && SameHeader(r, e)
            && forall j :: 0 <= j < CHARS && j != k ==> Unit(r, j) == Unit(e, j)
  {
  }

  lemma SetOrd(e: Entry, b: Byte)
    ensures var r: Entry := e[0 := b];
            && LdWord(r, FSTCLUS) == LdWord(e, FSTCLUS)
            && forall k :: 0 <= k < CHARS ==> Unit(r, k) == Unit(e, k)
  {
  }

  /** A buffer holding a name of `len` units and its terminator. */
  ghost predicate Terminated(lfn: seq<Word>, len: nat)
  {
    len < |lfn| && lfn[len] == 0 && forall i :: 0 <= i < len ==> lfn[i] != 0
  }

  /** put_lfn. */
  method PutLfn(lfn: array<Word>, ghost len: nat, dir: array<Byte>, ord: Byte, sum: Byte)
    requires Terminated(lfn[..], len) && 0 < ord <= 20 && (ord - 1) * CHARS <= len
    requires dir.Length == SZDIRE
    modifies dir
    ensures IsPart(dir[..], lfn[..len], ord, sum)
  {
    dir[CHKSUM] := sum;
    dir[ATTR] := AM_LFN;
    dir[12] := 0;
    dir[FSTCLUS], dir[FSTCLUS + 1] := 0, 0;
    var last := PutUnits(lfn, len, dir, (ord - 1) * CHARS);
    var b := if last then ord + LLEF else ord;
    SetOrd(dir[..], b);
    dir[0] := b;
  }

  /** Its loop over the units, which finds out whether the name ends here. */
  method PutUnits(lfn: array<Word>, ghost len: nat, dir: array<Byte>, ofs: nat) returns (last: bool)
    requires Terminated(lfn[..], len) && ofs <= len
    requires dir.Length == SZDIRE
    modifies dir
    ensures SameHeader(dir[..], old(dir[..]))
    ensures forall k :: 0 <= k < CHARS ==> Unit(dir[..], k) == Fill(lfn[..len], ofs, k)
    ensures var c := Fill(lfn[..len], ofs, CHARS - 1);
            last <==> c == 0 || c == FILLER || At(lfn[..len], ofs + CHARS) == 0
  {
    ghost var name := lfn[..len];
    var ni, di := ofs, 0;
    var chr: Word := 0;
    while di < CHARS
      invariant 0 <= di <= CHARS
      invariant chr != FILLER ==> ni <= len && ni == ofs + di
      invariant di > 0 ==> chr == (if Fill(name, ofs, di - 1) == 0 then FILLER else Fill(name, ofs, di - 1))
      invariant di == 0 ==> chr == 0
      invariant SameHeader(dir[..], old(dir[..]))
      invariant forall k :: 0 <= k < di ==> Unit(dir[..], k) == Fill(name, ofs, k)
    {
      if chr != FILLER { chr := lfn[ni]; ni := ni + 1; }
      assert chr == Fill(name, ofs, di);
      StoreUnit(dir[..], di, chr);
      MemCpy(dir, LfnOfs(di), WordBytes(chr));
      if chr == 0 { chr := FILLER; }
      di := di + 1;
    }
    last := chr == FILLER || lfn[ni] == 0;
  }

  /** sum_sfn: a rotating sum of the 11 name bytes, in 8 bits. */
  function SumSfn(e: Entry): Byte { RotSum(NameOf(e)) }

  function RotSum(b: seq<Byte>): Byte
  {
    if b == [] then 0 else var s: int := RotSum(b[..|b| - 1]); (s / 2 + s * 128 + b[|b| - 1]) % 256
  }

  /** An entry set for `name` on top of the short entry at `at + Parts(name)`. */
  ghost predicate IsSet(es: seq<Entry>, at: nat, name: seq<Word>)
  {
    && at + Parts(name) < |es|
    && IsShort(es[at + Parts(name)], false)
    && forall k :: UnfoldSet(k) ==>
         forall j :: at <= j < at + Parts(name) ==>
           IsPart(es[j], name, at + Parts(name) - j, SumSfn(es[at + Parts(name)]))
  }

  ghost predicate UnfoldSet(k: int) { true }

  lemma PartOfSet(es: seq<Entry>, at: nat, name: seq<Word>, o: nat, j: nat)
    requires IsSet(es, at, name) && 0 < o <= Parts(name) && j + o == at + Parts(name)
    ensures IsPart(es[j], name, o, SumSfn(es[at + Parts(name)]))
  {
    assert UnfoldSet(0);
  }

  /** The storing loop of dir_register: parts in descending order, then the short entry. */
  method PutSet(lfn: array<Word>, len: nat, sfn: Entry) returns (es: seq<Entry>)
    requires 0 < len <= MAX_LFN && Terminated(lfn[..], len) && IsShort(sfn, false)
    ensures IsSet(es, 0, lfn[..len]) && |es| == Parts(lfn[..len]) + 1 && es[|es| - 1] == sfn
  {
    ghost var name := lfn[..len];
    var sum := SumSfn(sfn);
    var ord := (len + CHARS - 1) / CHARS;
    es := [];
    while ord > 0
      invariant 0 <= ord <= Parts(name) && |es| == Parts(name) - ord
      invariant forall i :: 0 <= i < |es| ==> IsPart(es[i], name, Parts(name) - i, sum)
    {
      var dir := new Byte[SZDIRE](_ => 0);
      PutLfn(lfn, len, dir, ord, sum);
      es := es + [dir[..]];
      ord := ord - 1;
    }
    ghost var parts := es;
    es := es + [sfn];
    assert forall i :: 0 <= i < |parts| ==> es[i] == parts[i];
  }

  // --------------------------------------------------------------- reassembling

  /** Position in the name buffer of the part in `e`. */
  function PartOfs(e: Entry): Dword
  {
    Wrap32((ClearLlef(e[0]) as int - 1) * CHARS)
  }

  function Units(e: Entry): (u: seq<Word>)
    ensures |u| == CHARS && forall k :: 0 <= k < CHARS ==> u[k] == Unit(e, k)
  {
    seq(CHARS, k requires 0 <= k < CHARS => Unit(e, k))
  }

  /** Index of the first zero unit. */
  function Stop(u: seq<Word>): (r: nat)
    ensures r <= |u| && (r < |u| ==> u[r] == 0) && forall j :: 0 <= j < r ==> u[j] != 0
  {
    if u == [] || u[0] == 0 then 0 else 1 + Stop(u[1..])
  }

  /** Number of units to be stored at `ofs`, and room for them in the buffer. */
  function Wanted(u: seq<Word>): nat { if Stop(u) < |u| then Stop(u) + 1 else |u| }
  function Room(ofs: nat): nat { if ofs <= MAX_LFN then MAX_LFN + 1 - ofs else 0 }

  /** Units that fit, with nothing but fillers behind the terminator. */
  predicate Fits(ofs: nat, u: seq<Word>, last: bool)
  {
    && Wanted(u) <= Room(ofs)
    && (forall k :: Stop(u) < k < |u| ==> u[k] == FILLER)
    && (last && Stop(u) == |u| ==> |u| < Room(ofs))
  }

  /** The name buffer after units were offered to it, also if they did not fit. */
  function Stored(buf: seq<Word>, ofs: nat, u: seq<Word>, last: bool): (r: seq<Word>)
    requires |buf| == MAX_LFN + 1
    ensures |r| == MAX_LFN + 1
  {
    var n := Min(Wanted(u), Room(ofs));
    seq(MAX_LFN + 1, i requires 0 <= i <= MAX_LFN =>
      if ofs <= i < ofs + n then u[i - ofs]
      else if i == ofs + |u| && last && Stop(u) == |u| && Fits(ofs, u, last) then 0
      else buf[i])
  }

  /** The entries pick_lfn accepts, and the name buffer after any entry. */
  predicate PickOk(e: Entry)
  {
    LdWord(e, FSTCLUS) == 0 && Fits(PartOfs(e), Units(e), HasLlef(e[0]))
  }

  function PickBuf(buf: seq<Word>, e: Entry): (r: seq<Word>)
    requires |buf| == MAX_LFN + 1
    ensures |r| == MAX_LFN + 1
  {
    if LdWord(e, FSTCLUS) == 0 then Stored(buf, PartOfs(e), Units(e), HasLlef(e[0])) else buf
  }

  /** pick_lfn. */
  method PickLfn(buf: array<Word>, dir: Entry) returns (ok: bool)
    requires buf.Length == MAX_LFN + 1
    modifies buf
    ensures ok == PickOk(dir)
    ensures buf[..] == PickBuf(old(buf[..]), dir)
  {
    if LdWord(dir, FSTCLUS) != 0 { return false; }
    ok := PickUnits(buf, PartOfs(dir), Units(dir), HasLlef(dir[0]));
  }

  /** Its loop over the units. */
  method PickUnits(buf: array<Word>, ofs: nat, u: seq<Word>, last: bool) returns (ok: bool)
    requires buf.Length == MAX_LFN + 1 && |u| > 0
    modifies buf
    ensures ok == Fits(ofs, u, last)
    ensures buf[..] == Stored(old(buf[..]), ofs, u, last)
  {
    var ni, di := ofs, 0;
    var pchr: Word := 1;
    while di < |u|
      invariant 0 <= di <= |u|
      invariant pchr == 0 <==> Stop(u) < di
      invariant ni == ofs + if Stop(u) < di then Stop(u) + 1 else di
      invariant di > 0 ==> ni <= MAX_LFN + 1
      invariant forall k :: Stop(u) < k < di ==> u[k] == FILLER
      invariant forall i :: 0 <= i <= MAX_LFN ==>
        buf[i] == if ofs <= i < ni then u[i - ofs] else old(buf[i])
    {
      var chr := u[di];
      if pchr != 0 {
        if ni >= MAX_LFN + 1 { return false; }
        buf[ni] := chr;
        pchr := chr;
        ni := ni + 1;
      } else if chr != FILLER {
        return false;
      }
      di := di + 1;
    }
    if last && pchr != 0 {
      if ni >= MAX_LFN + 1 { return false; }
      buf[ni] := 0;
    }
    return true;
  }

  /** Attribute bits dir_read looks at. */
  function Attr(e: Entry): Byte { e[ATTR] % 64 }

  /** Deleted entries, dot entries, and volume labels or, in a search for labels, all others. */
  predicate Ignored(e: Entry, vol: bool)
  {
    e[0] == DDEM || e[0] == 0x2E || ((Attr(e) == 0x08 || Attr(e) == 0x28) != vol)
  }

  predicate IsShort(e: Entry, vol: bool)
  {
    e[0] != 0 && !Ignored(e, vol) && Attr(e) != AM_LFN
  }

  /** Scan state: the expected order, the checksum and start of the set, the name buffer; and
      whether the scan is for volume labels. */
  datatype State = State(ord: Byte, sum: Byte, blk: int, buf: seq<Word>, vol: bool)

  /** One entry that is neither the end mark nor a short entry. */
  function Step(s: State, e: Entry, dptr: nat): (r: State)
    requires |s.buf| == MAX_LFN + 1
    ensures |r.buf| == MAX_LFN + 1 && r.vol == s.vol
  {
    if Ignored(e, s.vol) then s.(ord := 0xFF) else
    var b := ClearLlef(e[0]);
    var t := if HasLlef(e[0]) then s.(ord := b, sum := e[CHKSUM], blk := dptr) else s;
    if b != t.ord || t.sum != e[CHKSUM] then t.(ord := 0xFF)
    else State(if PickOk(e) then (t.ord + 255) % 256 else 0xFF, t.sum, t.blk, PickBuf(t.buf, e), t.vol)
  }

  /** The object a scan from entry `at` delivers: its short entry, where its set starts
      (NO_LFN if it has none) and the name buffer. */
  datatype Object = NoObject | Object(at: nat, blk: int, buf: seq<Word>)

  function Scan(es: seq<Entry>, at: nat, base: nat, s: State): Object
    requires |s.buf| == MAX_LFN + 1
    decreases |es| - at
  {
    if at >= |es| || es[at][0] == 0 then NoObject
    else if IsShort(es[at], s.vol) then
      Object(at, if s.ord == 0 && s.sum == SumSfn(es[at]) then s.blk else NO_LFN, s.buf)
    else Scan(es, at + 1, base, Step(s, es[at], base + at * SZDIRE))
  }

  /** What dir_read does with one entry it passes over. */
  method Advance(e: Entry, vol: bool, dptr: nat, buf: array<Word>, ord0: Byte, sum0: Byte, blk0: int)
    returns (ord: Byte, sum: Byte, blk: int)
    requires buf.Length == MAX_LFN + 1
    modifies buf
    ensures State(ord, sum, blk, buf[..], vol) == Step(State(ord0, sum0, blk0, old(buf[..]), vol), e, dptr)
  {
    ord, sum, blk := ord0, sum0, blk0;
    var b := e[0];
    if Ignored(e, vol) {
      ord := 0xFF;
    } else {
      if HasLlef(b) {
        sum := e[CHKSUM];
        b := ClearLlef(b);
        ord := b;
        blk := dptr;
      }
      var ok := b == ord && sum == e[CHKSUM];
      if ok { ok := PickLfn(buf, e); }
      ord := if ok then (ord + 255) % 256 else 0xFF;
    }
  }

  /** `es` are the entries that the walk from cursor `c` passes, in order. */
  ghost predicate OnPath(g: Geometry, f: FatMap, v: seq<Byte>, c: Cursor, es: seq<Entry>)
    requires g.csize > 0 && 2 <= |f|
  {
    forall i :: UnfoldReads(i) ==> forall k :: 0 <= k < |es| ==> PathShows(g, f, v, c, k, es[k])
  }

  ghost predicate PathShows(g: Geometry, f: FatMap, v: seq<Byte>, c: Cursor, k: nat, e: Entry)
    requires g.csize > 0 && 2 <= |f|
  {
    Path(g, f, c, k).Some? && Shown(v, Path(g, f, c, k).value) && e == EntOf(v, Path(g, f, c, k).value)
  }

  /** dir_read with long names.  On any disk content and from any cursor it ends after less than
      MAX_DIR bytes of entries and changes nothing on the volume; what it makes of the entries
      `es` on its path is what the state machine `Scan` says, and it passes over all of them up to
      the object, an end mark, or the end of the links or of the disk. */
  method DirRead(fs: Volume, dp: Dir, vol: bool, buf: array<Word>, blk0: int)
    returns (res: FResult, blk: int, ghost es: seq<Entry>)
    requires fs.Ready() && Aligned(dp.Cur()) && buf.Length == MAX_LFN + 1
    modifies fs, fs.win, fs.disk.data, dp`dptr, dp`clust, dp`sect, buf
    ensures fs.Ready() && fs.view == old(fs.view) && fs.fat == old(fs.fat)
    ensures Aligned(dp.Cur()) && old(dp.dptr) + |es| * SZDIRE <= MAX_DIR
    ensures res == OK || ((res == NO_FILE || res == INT_ERR || res == DISK_ERR) && dp.sect == 0)
    ensures old(dp.sect) == 0 ==> res == NO_FILE && buf[..] == old(buf[..])
    ensures old(dp.sect) != 0 && old(Loads(fs, dp)) ==>
              && OnPath(fs.geo, fs.fat, fs.view, old(dp.Cur()), es)
              && ReadEnds(fs.geo, fs.fat, fs.view, old(dp.Cur()), es, vol, res)
              && Scan(es, 0, old(dp.dptr), State(0xFF, 0xFF, blk0, old(buf[..]), vol)) ==
                 if res == OK then Object(|es| - 1, blk, buf[..]) else NoObject
    ensures old(Placed(fs.geo, dp.Cur())) ==> old(dp.sect) != 0 && old(Loads(fs, dp)) && res != DISK_ERR
  {
    ghost var c, placed := dp.Cur(), Placed(fs.geo, dp.Cur());
    if placed { PlacedOnDisk(fs.geo, fs.disk.sectors, c); }
    res, blk, es := ReadLoop(fs, dp, vol, buf, blk0);
    if placed { ReadPlaced(fs.geo, fs.disk.sectors, fs.fat, fs.view, c, es, vol, res); }
    if res != OK { dp.sect := 0; }
  }

  /** The loop of dir_read. */
  method ReadLoop(fs: Volume, dp: Dir, vol: bool, buf: array<Word>, blk0: int)
    returns (res: FResult, blk: int, ghost es: seq<Entry>)
    requires fs.Ready() && Aligned(dp.Cur()) && buf.Length == MAX_LFN + 1
    modifies fs, fs.win, fs.disk.data, dp`dptr, dp`clust, dp`sect, buf
    ensures fs.Ready() && fs.view == old(fs.view) && fs.fat == old(fs.fat)
    ensures Aligned(dp.Cur()) && old(dp.dptr) + |es| * SZDIRE <= MAX_DIR
    ensures res == OK || res == NO_FILE || res == INT_ERR || res == DISK_ERR
    ensures old(dp.sect) == 0 ==> res == NO_FILE && buf[..] == old(buf[..])
    ensures old(dp.sect) != 0 && old(Loads(fs, dp)) ==>
              && OnPath(fs.geo, fs.fat, fs.view, old(dp.Cur()), es)
              && ReadEnds(fs.geo, fs.fat, fs.view, old(dp.Cur()), es, vol, res)
              && Scan(es, 0, old(dp.dptr), State(0xFF, 0xFF, blk0, old(buf[..]), vol)) ==
                 if res == OK then Object(|es| - 1, blk, buf[..]) else NoObject
  {
    var ord: Byte, sum: Byte := 0xFF, 0xFF;
    blk, es := blk0, [];
    ghost var c, s0, clear := dp.Cur(), State(0xFF, 0xFF, blk0, buf[..], vol), dp.sect != 0 && Loads(fs, dp);
    var stop := false;
    res := NO_FILE;
    while !stop && dp.sect != 0
      invariant fs.Ready() && fs.view == old(fs.view) && fs.fat == old(fs.fat)
      invariant Aligned(dp.Cur()) && c.dptr + |es| * SZDIRE <= MAX_DIR && (!stop ==> dp.dptr == c.dptr + |es| * SZDIRE)
      invariant res == OK || res == NO_FILE || res == INT_ERR || res == DISK_ERR
      invariant c.sect == 0 ==> dp.sect == 0 && res == NO_FILE && buf[..] == old(buf[..])
      invariant clear ==> OnPath(fs.geo, fs.fat, fs.view, c, es)
      invariant clear && !stop ==>
        && dp.sect != 0 && Loads(fs, dp)
        && Reading(fs.geo, fs.fat, c, es, s0, dp.Cur(), State(ord, sum, blk, buf[..], vol))
      invariant clear && stop ==>
        && ReadEnds(fs.geo, fs.fat, fs.view, c, es, vol, res)
        && Yields(es, c.dptr, s0, if res == OK then Object(|es| - 1, blk, buf[..]) else NoObject)
      decreases !stop, MAX_DIR - dp.dptr
    {
      res, stop, ord, sum, blk, es := ReadRound(fs, dp, vol, buf, ord, sum, blk, c, es, s0, clear);
    }
    if clear { YieldsIs(es, c.dptr, s0, if res == OK then Object(|es| - 1, blk, buf[..]) else NoObject); }
  }

  /** dir_read has passed over `es` and come to the cursor `d`. */
  ghost predicate Reading(g: Geometry, f: FatMap, c: Cursor, es: seq<Entry>, s0: State, d: Cursor, s: State)
    requires g.csize > 0 && 2 <= |f|
  {
    0 <= c.dptr && Path(g, f, c, |es|) == Some(d) && Reads(es, c.dptr, s0, s)
  }

  /** Why dir_read stopped behind the entries `es`: the next sector is off the disk, or the last
      entry is the object or an end mark, or nothing follows it.  None before it is either. */
  ghost predicate ReadEnds(g: Geometry, f: FatMap, v: seq<Byte>, c: Cursor, es: seq<Entry>, vol: bool, res: FResult)
    requires g.csize > 0 && 2 <= |f|
  {
    && (res == OK ==> |es| > 0)
    && forall i :: UnfoldReads(i) ==>
         && (forall k :: 0 <= k < |es| - 1 ==> es[k][0] != 0 && !IsShort(es[k], vol))
         && if res == DISK_ERR then Path(g, f, c, |es|).Some? && !Shown(v, Path(g, f, c, |es|).value)
            else |es| > 0 && StopsAtLast(g, f, c, es, vol, res)
  }

  ghost predicate StopsAtLast(g: Geometry, f: FatMap, c: Cursor, es: seq<Entry>, vol: bool, res: FResult)
    requires g.csize > 0 && 2 <= |f| && |es| > 0
  {
    if es[|es| - 1][0] == 0 then res == NO_FILE
    else if IsShort(es[|es| - 1], vol) then res == OK
    else Path(g, f, c, |es| - 1).Some? && EndsAt(g, f, Path(g, f, c, |es| - 1).value, res)
  }

  /** A scan from a placed cursor stays on the disk. */
  lemma ReadPlaced(g: Geometry, sectors: nat, f: FatMap, v: seq<Byte>, c: Cursor, es: seq<Entry>, vol: bool,
                   res: FResult)
    requires g.Valid(sectors) && |f| == g.nFatent && |v| == sectors * SS && Placed(g, c)
    requires ReadEnds(g, f, v, c, es, vol, res)
    ensures res != DISK_ERR
  {
    assert UnfoldReads(0);
    if Path(g, f, c, |es|).Some? {
      PathPlaced(g, sectors, f, c, |es|);
      PlacedOnDisk(g, sectors, Path(g, f, c, |es|).value);
    }
  }

  /** Nothing follows the cursor `d`. */
  ghost predicate EndsAt(g: Geometry, f: FatMap, d: Cursor, res: FResult)
    requires g.csize > 0 && 2 <= |f|
  {
    0 <= d.dptr && !NextOf(g, f, d).To? && res == if NextOf(g, f, d) == Broken then INT_ERR else NO_FILE
  }

  lemma OnPathMore(g: Geometry, f: FatMap, v: seq<Byte>, c: Cursor, es: seq<Entry>, e: Entry)
    requires g.csize > 0 && 2 <= |f| && OnPath(g, f, v, c, es) && PathShows(g, f, v, c, |es|, e)
    ensures OnPath(g, f, v, c, es + [e])
  {
    assert UnfoldReads(0);
  }

  lemma RoomForEntry(p: nat)
    requires p < MAX_DIR && p % SZDIRE == 0
    ensures p + SZDIRE <= MAX_DIR
  {
  }

  ghost predicate UnfoldReads(k: int) { true }

  /** The scan has passed over `es` and is in state `s`. */
  ghost predicate Reads(es: seq<Entry>, base: nat, s0: State, s: State)
  {
    forall i :: UnfoldReads(i) ==>
      && |s0.buf| == MAX_LFN + 1 && (forall k :: 0 <= k < |es| ==> es[k][0] != 0 && !IsShort(es[k], s0.vol))
      && After(es, base, s0) == s
  }

  /** The scan of `es` ends with `o`. */
  ghost predicate Yields(es: seq<Entry>, base: nat, s0: State, o: Object)
  {
    forall i :: UnfoldReads(i) ==> |s0.buf| == MAX_LFN + 1 && Scan(es, 0, base, s0) == o
  }

  lemma YieldsIs(es: seq<Entry>, base: nat, s0: State, o: Object)
    requires Yields(es, base, s0, o) && |s0.buf| == MAX_LFN + 1
    ensures Scan(es, 0, base, s0) == o
  {
    assert UnfoldReads(0);
  }

  ghost function After(es: seq<Entry>, base: nat, s0: State): (s: State)
    requires |s0.buf| == MAX_LFN + 1
    ensures |s.buf| == MAX_LFN + 1 && s.vol == s0.vol
  {
    if es == [] then s0
    else var n := |es| - 1; Step(After(es[..n], base, s0), es[n], base + n * SZDIRE)
  }

  lemma {:induction false} ScanFrom(es: seq<Entry>, k: nat, base: nat, s0: State)
    requires |s0.buf| == MAX_LFN + 1 && k <= |es| && forall j :: 0 <= j < k ==> es[j][0] != 0 && !IsShort(es[j], s0.vol)
    ensures Scan(es, 0, base, s0) == Scan(es, k, base, After(es[..k], base, s0))
  {
    if k > 0 {
      ScanFrom(es, k - 1, base, s0);
      assert es[..k][..k - 1] == es[..k - 1];
    } else {
      assert es[..0] == [];
    }
  }

  /** One more entry: an end mark, a short entry, or one to pass over. */
  lemma ReadOn(es: seq<Entry>, e: Entry, base: nat, s0: State, s: State)
    requires Reads(es, base, s0, s)
    ensures |s.buf| == MAX_LFN + 1 && s.vol == s0.vol
    ensures e[0] == 0 ==> Yields(es + [e], base, s0, NoObject)
    ensures e[0] != 0 && IsShort(e, s.vol) ==>
              Yields(es + [e], base, s0,
                     Object(|es|, if s.ord == 0 && s.sum == SumSfn(e) then s.blk else NO_LFN, s.buf))
    ensures e[0] != 0 && !IsShort(e, s.vol) ==>
              Yields(es + [e], base, s0, NoObject) && Reads(es + [e], base, s0, Step(s, e, base + |es| * SZDIRE))
  {
    assert UnfoldReads(0);
    var xs := es + [e];
    assert xs[..|es|] == es;
    ScanFrom(xs, |es|, base, s0);
  }

  /** Without a further entry there is no object. */
  lemma ReadNone(es: seq<Entry>, base: nat, s0: State, s: State)
    requires Reads(es, base, s0, s)
    ensures Yields(es, base, s0, NoObject)
  {
    assert UnfoldReads(0);
    ScanFrom(es, |es|, base, s0);
  }

  /** One round of dir_read's loop. */
  method ReadRound(fs: Volume, dp: Dir, vol: bool, buf: array<Word>, ord0: Byte, sum0: Byte, blk0: int,
                   ghost c: Cursor, ghost es: seq<Entry>, ghost s0: State, ghost clear: bool)
    returns (res: FResult, stop: bool, ord: Byte, sum: Byte, blk: int, ghost es': seq<Entry>)
    requires fs.Ready() && Aligned(dp.Cur()) && dp.sect != 0 && buf.Length == MAX_LFN + 1
    requires dp.dptr == c.dptr + |es| * SZDIRE && s0.vol == vol
    requires clear ==>
               && Loads(fs, dp) && OnPath(fs.geo, fs.fat, fs.view, c, es)
               && Reading(fs.geo, fs.fat, c, es, s0, dp.Cur(), State(ord0, sum0, blk0, buf[..], vol))
    modifies fs, fs.win, fs.disk.data, dp`dptr, dp`clust, dp`sect, buf
    ensures fs.Ready() && fs.view == old(fs.view) && fs.fat == old(fs.fat)
    ensures Aligned(dp.Cur()) && c.dptr + |es'| * SZDIRE <= MAX_DIR
    ensures !stop ==> dp.dptr == old(dp.dptr) + SZDIRE == c.dptr + |es'| * SZDIRE
    ensures res == OK || res == NO_FILE || res == INT_ERR || res == DISK_ERR
    ensures clear ==> OnPath(fs.geo, fs.fat, fs.view, c, es')
    ensures clear && !stop ==>
              && dp.sect != 0 && Loads(fs, dp)
              && Reading(fs.geo, fs.fat, c, es', s0, dp.Cur(), State(ord, sum, blk, buf[..], vol))
    ensures clear && stop ==>
              && ReadEnds(fs.geo, fs.fat, fs.view, c, es', vol, res)
              && Yields(es', c.dptr, s0, if res == OK then Object(|es'| - 1, blk, buf[..]) else NoObject)
  {
    ghost var d := dp.Cur();
    RoomForEntry(dp.dptr);
    ord, sum, blk, stop := ord0, sum0, blk0, true;
    var x;
    res, x := LoadAt(fs, dp);
    es' := es;
    if res != OK {
      if clear { ReadOff(fs.geo, fs.fat, fs.view, c, es, d, s0, State(ord0, sum0, blk0, buf[..], vol)); }
      return;
    }
    es' := es + [x];
    res, stop, ord, sum, blk := ReadLoaded(fs, dp, vol, buf, x, ord0, sum0, blk0, c, es, s0, clear);
  }

  /** The rest of the round, with the entry `x` under the cursor loaded. */
  method ReadLoaded(fs: Volume, dp: Dir, vol: bool, buf: array<Word>, x: Entry, ord0: Byte, sum0: Byte, blk0: int,
                    ghost c: Cursor, ghost es: seq<Entry>, ghost s0: State, ghost clear: bool)
    returns (res: FResult, stop: bool, ord: Byte, sum: Byte, blk: int)
    requires fs.Ready() && Aligned(dp.Cur()) && dp.sect != 0 && buf.Length == MAX_LFN + 1
    requires dp.dptr == c.dptr + |es| * SZDIRE && s0.vol == vol
    requires clear ==>
               && dp.sect < fs.disk.sectors && fs.winsect < fs.disk.sectors && OnPath(fs.geo, fs.fat, fs.view, c, es)
               && Shown(fs.view, dp.Cur()) && x == EntOf(fs.view, dp.Cur())
               && Reading(fs.geo, fs.fat, c, es, s0, dp.Cur(), State(ord0, sum0, blk0, buf[..], vol))
    modifies fs, fs.win, fs.disk.data, dp`dptr, dp`clust, dp`sect, buf
    ensures fs.Ready() && fs.view == old(fs.view) && fs.fat == old(fs.fat)
    ensures Aligned(dp.Cur()) && (!stop ==> dp.dptr == old(dp.dptr) + SZDIRE)
    ensures res == OK || res == NO_FILE || res == INT_ERR
    ensures clear ==> OnPath(fs.geo, fs.fat, fs.view, c, es + [x])
    ensures clear && !stop ==>
              && dp.sect != 0 && Loads(fs, dp)
              && Reading(fs.geo, fs.fat, c, es + [x], s0, dp.Cur(), State(ord, sum, blk, buf[..], vol))
    ensures clear && stop ==>
              && ReadEnds(fs.geo, fs.fat, fs.view, c, es + [x], vol, res)
              && Yields(es + [x], c.dptr, s0, if res == OK then Object(|es|, blk, buf[..]) else NoObject)
  {
    ghost var d, s := dp.Cur(), State(ord0, sum0, blk0, buf[..], vol);
    res, ord, sum, blk, stop := OK, ord0, sum0, blk0, true;
    if clear { ReadOne(fs.geo, fs.fat, fs.view, c, es, x, d, s0, s); }
    if x[0] == 0 {
      res := NO_FILE;
    } else if IsShort(x, vol) {
      if ord != 0 || sum != SumSfn(x) { blk := NO_LFN; }
    } else {
      res, ord, sum, blk := ReadPast(fs, dp, vol, buf, x, ord, sum, blk, c, es, s0, clear);
      stop := res != OK;
    }
    if clear && stop { ReadStops(fs.geo, fs.fat, fs.view, c, es, x, d, s0, s, res); }
  }

  /** The sector of the next entry is off the disk. */
  lemma ReadOff(g: Geometry, f: FatMap, v: seq<Byte>, c: Cursor, es: seq<Entry>, d: Cursor, s0: State, s: State)
    requires g.csize > 0 && 2 <= |f| && Reading(g, f, c, es, s0, d, s) && !Shown(v, d)
    ensures ReadEnds(g, f, v, c, es, s0.vol, DISK_ERR) && Yields(es, c.dptr, s0, NoObject)
  {
    assert UnfoldReads(0);
    ReadNone(es, c.dptr, s0, s);
  }

  /** What the next entry `x` does to the scan. */
  lemma ReadOne(g: Geometry, f: FatMap, v: seq<Byte>, c: Cursor, es: seq<Entry>, x: Entry, d: Cursor, s0: State,
                s: State)
    requires g.csize > 0 && 2 <= |f| && Reading(g, f, c, es, s0, d, s) && OnPath(g, f, v, c, es)
    requires Shown(v, d) && x == EntOf(v, d)
    ensures |s.buf| == MAX_LFN + 1 && s.vol == s0.vol && OnPath(g, f, v, c, es + [x])
    ensures x[0] == 0 ==> Yields(es + [x], c.dptr, s0, NoObject)
    ensures IsShort(x, s0.vol) ==>
              Yields(es + [x], c.dptr, s0,
                     Object(|es|, if s.ord == 0 && s.sum == SumSfn(x) then s.blk else NO_LFN, s.buf))
    ensures x[0] != 0 && !IsShort(x, s0.vol) ==>
              && Yields(es + [x], c.dptr, s0, NoObject)
              && Reads(es + [x], c.dptr, s0, Step(s, x, c.dptr + |es| * SZDIRE))
  {
    ReadOn(es, x, c.dptr, s0, s);
    OnPathMore(g, f, v, c, es, x);
  }

  /** The scan stops at the entry `x`. */
  lemma ReadStops(g: Geometry, f: FatMap, v: seq<Byte>, c: Cursor, es: seq<Entry>, x: Entry, d: Cursor, s0: State,
                  s: State, res: FResult)
    requires g.csize > 0 && 2 <= |f| && Reading(g, f, c, es, s0, d, s) && res != DISK_ERR
    requires if x[0] == 0 then res == NO_FILE else if IsShort(x, s0.vol) then res == OK else EndsAt(g, f, d, res)
    ensures ReadEnds(g, f, v, c, es + [x], s0.vol, res)
  {
    assert UnfoldReads(0);
    var xs := es + [x];
    assert xs[|xs| - 1] == x && |xs| - 1 == |es|;
    assert StopsAtLast(g, f, c, xs, s0.vol, res);
  }

  /** An entry that is not an object: its long-name part is taken in, and the cursor moves on. */
  method ReadPast(fs: Volume, dp: Dir, vol: bool, buf: array<Word>, x: Entry, ord0: Byte, sum0: Byte, blk0: int,
                  ghost c: Cursor, ghost es: seq<Entry>, ghost s0: State, ghost clear: bool)
    returns (res: FResult, ord: Byte, sum: Byte, blk: int)
    requires fs.Ready() && Aligned(dp.Cur()) && dp.sect != 0 && buf.Length == MAX_LFN + 1
    requires clear ==>
               && dp.sect < fs.disk.sectors && fs.winsect < fs.disk.sectors
               && 0 <= c.dptr && Path(fs.geo, fs.fat, c, |es|) == Some(dp.Cur())
               && Reads(es + [x], c.dptr, s0, Step(State(ord0, sum0, blk0, buf[..], vol), x, dp.dptr))
    modifies fs, fs.win, fs.disk.data, dp`dptr, dp`clust, dp`sect, buf
    ensures fs.Ready() && fs.view == old(fs.view) && fs.fat == old(fs.fat) && Aligned(dp.Cur())
    ensures (res == OK || res == NO_FILE || res == INT_ERR) && (res == OK ==> dp.dptr == old(dp.dptr) + SZDIRE)
    ensures res != OK && clear ==> EndsAt(fs.geo, fs.fat, old(dp.Cur()), res)
    ensures res == OK && clear ==>
              && dp.sect != 0 && Loads(fs, dp)
              && Reading(fs.geo, fs.fat, c, es + [x], s0, dp.Cur(), State(ord, sum, blk, buf[..], vol))
  {
    ghost var d, v1 := dp.Cur(), fs.view;
    ord, sum, blk := Advance(x, vol, dp.dptr, buf, ord0, sum0, blk0);
    ghost var s := State(ord, sum, blk, buf[..], vol);
    res, v1 := NextEntry(fs, dp, false);
    assert UnfoldNext(0);
    assert State(ord, sum, blk, buf[..], vol) == s;
    if clear && res == OK { NextNotZero(fs.geo, fs.disk.sectors, fs.fat, d); }
  }

  // ----------------------------------------------------------------- round trip

  /** The buffer holds the name from unit `lo` on, and its terminator. */
  ghost predicate Holds(buf: seq<Word>, name: seq<Word>, lo: int)
  {
    |buf| == MAX_LFN + 1 && |name| <= MAX_LFN && buf[|name|] == 0
    && forall i :: 0 <= i < |name| && lo <= i ==> buf[i] == name[i]
  }

  lemma UnitsOfPart(e: Entry, name: seq<Word>, ord: nat, sum: Byte)
    requires Storable(name) && 0 < ord <= Parts(name) && IsPart(e, name, ord, sum)
    ensures var ofs := (ord - 1) * CHARS; forall k :: 0 <= k < CHARS ==>
              Units(e)[k] == if ofs + k <= |name| then At(name, ofs + k) else FILLER
  {
    var ofs := (ord - 1) * CHARS;
    forall k | 0 <= k < CHARS
      ensures Units(e)[k] == if ofs + k <= |name| then At(name, ofs + k) else FILLER
    {
      FillIsName(name, ofs, k);
    }
  }

  /** pick_lfn on a part of a storable name: accepted, and the units land in place. */
  lemma PickPart(buf: seq<Word>, e: Entry, name: seq<Word>, ord: nat, sum: Byte)
    requires |buf| == MAX_LFN + 1 && Storable(name) && 0 < ord <= Parts(name)
    requires IsPart(e, name, ord, sum)
    requires ord < Parts(name) ==> Holds(buf, name, ord * CHARS)
    ensures PickOk(e) && ClearLlef(e[0]) == ord && (HasLlef(e[0]) <==> ord == Parts(name))
    ensures Holds(PickBuf(buf, e), name, (ord - 1) * CHARS)
  {
    LastIsLast(name, ord);
    UnitsOfPart(e, name, ord, sum);
    assert PartOfs(e) == (ord - 1) * CHARS;
    StoredPart(buf, name, PartOfs(e), Units(e), ord == Parts(name));
  }

  lemma StoredPart(buf: seq<Word>, name: seq<Word>, ofs: nat, u: seq<Word>, last: bool)
    requires |buf| == MAX_LFN + 1 && Storable(name) && ofs <= |name| && |u| == CHARS
    requires forall k :: 0 <= k < CHARS ==> u[k] == if ofs + k <= |name| then At(name, ofs + k) else FILLER
    requires last <==> |name| <= ofs + CHARS
    requires !last ==> Holds(buf, name, ofs + CHARS)
    ensures Fits(ofs, u, last) && Holds(Stored(buf, ofs, u, last), name, ofs)
  {
    var t := if |name| < ofs + CHARS then |name| - ofs else CHARS;
    assert t < CHARS ==> u[t] == 0;
    assert forall k :: 0 <= k < t ==> u[k] == name[ofs + k];
    assert Stop(u) == t;
    var r := Stored(buf, ofs, u, last);
    forall i | 0 <= i < |name| && ofs <= i ensures r[i] == name[i] {
      assert i < ofs + CHARS ==> r[i] == u[i - ofs];
    }
  }

  /** The scan expects part `o` of the set at `at`; any state will do for the first part. */
  ghost predicate Expects(s: State, es: seq<Entry>, base: nat, at: nat, name: seq<Word>, o: nat)
    requires IsSet(es, at, name)
  {
    forall i :: UnfoldReads(i) ==>
      && !s.vol && |s.buf| == MAX_LFN + 1
      && (o != Parts(name) ==>
            && s.ord == o && s.sum == SumSfn(es[at + Parts(name)]) && s.blk == base + at * SZDIRE
            && Holds(s.buf, name, o * CHARS))
  }

  lemma StepAccepted(s: State, e: Entry, dptr: nat, o: nat)
    requires |s.buf| == MAX_LFN + 1 && !s.vol && PickOk(e) && 0 < o <= 20 && ClearLlef(e[0]) == o && e[ATTR] == AM_LFN
    requires !HasLlef(e[0]) ==> s.ord == o && s.sum == e[CHKSUM]
    ensures e[0] != 0 && !IsShort(e, false)
    ensures Step(s, e, dptr) ==
            State(o - 1, e[CHKSUM], if HasLlef(e[0]) then dptr else s.blk, PickBuf(s.buf, e), false)
  {
  }

  /** One part of a set whose first entry is at offset `blk`. */
  lemma StepOne(s: State, e: Entry, dptr: nat, name: seq<Word>, o: nat, sum: Byte, blk: nat)
    requires |s.buf| == MAX_LFN + 1 && !s.vol && Storable(name) && 0 < o <= Parts(name) && IsPart(e, name, o, sum)
    requires o < Parts(name) ==> s.ord == o && s.sum == sum && s.blk == blk && Holds(s.buf, name, o * CHARS)
    requires o == Parts(name) ==> dptr == blk
    ensures e[0] != 0 && !IsShort(e, false)
    ensures var t := Step(s, e, dptr);
            !t.vol && t.ord == o - 1 && t.sum == sum && t.blk == blk && Holds(t.buf, name, (o - 1) * CHARS)
  {
    PickPart(s.buf, e, name, o, sum);
    StepAccepted(s, e, dptr, o);
  }

  lemma StepPart(es: seq<Entry>, base: nat, at: nat, name: seq<Word>, o: nat, j: nat, s: State)
    requires Storable(name) && IsSet(es, at, name) && 0 < o <= Parts(name) && j + o == at + Parts(name)
    requires Expects(s, es, base, at, name, o)
    ensures es[j][0] != 0 && !IsShort(es[j], s.vol) && |s.buf| == MAX_LFN + 1
    ensures Expects(Step(s, es[j], base + j * SZDIRE), es, base, at, name, o - 1)
  {
    var sum := SumSfn(es[at + Parts(name)]);
    PartOfSet(es, at, name, o, j);
    ExpectsNow(s, es, base, at, name, o);
    StepOne(s, es[j], base + j * SZDIRE, name, o, sum, base + at * SZDIRE);
    ExpectsNext(Step(s, es[j], base + j * SZDIRE), es, base, at, name, o);
  }

  lemma ExpectsNow(s: State, es: seq<Entry>, base: nat, at: nat, name: seq<Word>, o: nat)
    requires IsSet(es, at, name) && Expects(s, es, base, at, name, o)
    ensures !s.vol && |s.buf| == MAX_LFN + 1
    ensures o != Parts(name) ==>
              && s.ord == o && s.sum == SumSfn(es[at + Parts(name)]) && s.blk == base + at * SZDIRE
              && Holds(s.buf, name, o * CHARS)
  {
    assert UnfoldReads(0);
  }

  lemma ExpectsNext(t: State, es: seq<Entry>, base: nat, at: nat, name: seq<Word>, o: nat)
    requires IsSet(es, at, name) && 0 < o <= Parts(name) && !t.vol && t.ord == o - 1
    requires t.sum == SumSfn(es[at + Parts(name)])
    requires t.blk == base + at * SZDIRE && Holds(t.buf, name, (o - 1) * CHARS)
    ensures Expects(t, es, base, at, name, o - 1)
  {
  }

  ghost predicate Delivered(r: Object, base: nat, at: nat, name: seq<Word>)
  {
    r.Object? && r.at == at + Parts(name) && r.blk == base + at * SZDIRE && Holds(r.buf, name, 0)
  }

  /** From entry `k` on, the scan delivers the set at `at`. */
  ghost predicate Delivers(es: seq<Entry>, k: nat, base: nat, s: State, at: nat, name: seq<Word>)
  {
    forall i :: UnfoldReads(i) ==>
      k <= |es| && |s.buf| == MAX_LFN + 1 && Delivered(Scan(es, k, base, s), base, at, name)
  }

  lemma ReadShort(es: seq<Entry>, base: nat, at: nat, name: seq<Word>, s: State)
    requires Storable(name) && IsSet(es, at, name) && Expects(s, es, base, at, name, 0)
    ensures Delivers(es, at + Parts(name), base, s, at, name)
  {
    ExpectsNow(s, es, base, at, name, 0);
  }

  lemma ScanPast(es: seq<Entry>, j: nat, base: nat, s: State, at: nat, name: seq<Word>)
    requires j < |es| && es[j][0] != 0 && !IsShort(es[j], s.vol) && |s.buf| == MAX_LFN + 1
    requires Delivers(es, j + 1, base, Step(s, es[j], base + j * SZDIRE), at, name)
    ensures Delivers(es, j, base, s, at, name)
  {
    assert UnfoldReads(0);
  }

  /** Parts `o` down to 1 bring the scan from "expecting `o`", at entry `j`, to the short entry. */
  lemma {:induction false} ReadParts(es: seq<Entry>, base: nat, at: nat, name: seq<Word>, o: nat, j: nat, s: State)
    requires Storable(name) && IsSet(es, at, name) && o <= Parts(name) && j + o == at + Parts(name)
    requires Expects(s, es, base, at, name, o)
    ensures Delivers(es, j, base, s, at, name)
    decreases o
  {
    if o == 0 {
      ReadShort(es, base, at, name, s);
    } else {
      StepPart(es, base, at, name, o, j, s);
      ReadParts(es, base, at, name, o - 1, j + 1, Step(s, es[j], base + j * SZDIRE));
      ScanPast(es, j, base, s, at, name);
    }
  }

  /** A stored name reads back, whatever the scan went through before: dir_read delivers
      the short entry under the set, the set's own start and exactly the name. */
  lemma RoundTrip(es: seq<Entry>, base: nat, at: nat, name: seq<Word>, s: State)
    requires Storable(name) && IsSet(es, at, name) && |s.buf| == MAX_LFN + 1 && !s.vol
    ensures var r := Scan(es, at, base, s);
            r.Object? && r.at == at + Parts(name) && r.blk == base + at * SZDIRE
            && |r.buf| == MAX_LFN + 1 && r.buf[..|name| + 1] == name + [0]
  {
    ReadParts(es, base, at, name, Parts(name), at, s);
    assert UnfoldReads(0);
    assert Delivered(Scan(es, at, base, s), base, at, name);
  }

  /** The last-entry flag is on exactly the first entry written. */
  lemma FlagOnFirst(es: seq<Entry>, at: nat, name: seq<Word>, j: nat)
    requires Storable(name) && IsSet(es, at, name) && at <= j < at + Parts(name)
    ensures HasLlef(es[j][0]) <==> j == at
  {
    PartOfSet(es, at, name, at + Parts(name) - j, j);
    LastIsLast(name, at + Parts(name) - j);
  }

  // ------------------------------------------------------------- on the disk

  /** The bytes of the entry for part `ord`: attribute, type, checksum and cluster field, the order
      with the flag of the last part, and the name units, low byte first, in their three runs. */
  lemma PartBytes(e: Entry, name: seq<Word>, ord: nat, sum: Byte)
    requires Storable(name) && 0 < ord <= Parts(name) && IsPart(e, name, ord, sum)
    ensures e[11] == 0x0F && e[12] == 0 && e[13] == sum && e[26] == 0 && e[27] == 0
    ensures e[0] as int == if ord == Parts(name) then ord + 0x40 else ord
    ensures forall k :: 0 <= k < 13 ==> PairAt(e, UnitPlace(k)) == NameUnit(name, (ord - 1) * 13 + k)
  {
    LastIsLast(name, ord);
    UnitsOfPart(e, name, ord, sum);
    forall k | 0 <= k < 13 ensures PairAt(e, UnitPlace(k)) == NameUnit(name, (ord - 1) * 13 + k) {
      assert Units(e)[k] == Unit(e, k);
    }
  }

  /** Where the thirteen units of an entry are. */
  ghost function UnitPlace(k: nat): (p: nat)
    requires k < 13
    ensures p <= 30
  {
    [1, 3, 5, 7, 9, 14, 16, 18, 20, 22, 24, 28, 30][k]
  }

  ghost function PairAt(e: Entry, p: nat): nat
    requires p <= 30
  {
    (e[p] as int) + 0x100 * (e[p + 1] as int)
  }

  /** The name, its terminator, and fillers behind it. */
  ghost function NameUnit(name: seq<Word>, i: nat): nat
  {
    if i < |name| then name[i] else if i == |name| then 0 else 0xFFFF
  }

  /** The checksum of a short name: every byte is added to the sum so far, rotated right by one bit. */
  lemma SumStep(b: seq<Byte>, x: Byte)
    ensures RotSum(b + [x]) == RotAdd(RotSum(b), x)
  {
    assert (b + [x])[..|b|] == b;
    Carry(RotSum(b), x);
  }

  /** What the shift pushes out of eight bits does not count. */
  lemma Carry(s: int, x: int)
    ensures (s / 2 + s * 128 + x) % 256 == (s / 2 + 128 * (s % 2) + x) % 256
  {
    assert s * 128 == 128 * (s % 2) + 256 * (s / 2);
  }

  ghost function RotAdd(s: Byte, x: Byte): Byte
  {
    var t: int, y: int := s, x;
    (t / 2 + 128 * (t % 2) + y) % 256
  }

  /** It tells names apart that differ in one byte. */
  lemma {:induction false} OneByteTells(b: seq<Byte>, c: seq<Byte>, i: nat)
    requires |b| == |c| && i < |b| && b[i] != c[i] && forall j :: 0 <= j < |b| && j != i ==> b[j] == c[j]
    ensures RotSum(b) != RotSum(c)
  {
    var n := |b| - 1;
    assert b[..n] + [b[n]] == b && c[..n] + [c[n]] == c;
    SumStep(b[..n], b[n]);
    SumStep(c[..n], c[n]);
    if i < n {
      OneByteTells(b[..n], c[..n], i);
    } else {
      assert b[..n] == c[..n];
    }
    RotateTells(RotSum(b[..n]), RotSum(c[..n]), b[n], c[n]);
  }

  lemma RotateTells(s: Byte, r: Byte, x: Byte, y: Byte)
    ensures (s == r) != (x == y) ==> RotAdd(s, x) != RotAdd(r, y)
  {
  }
}
