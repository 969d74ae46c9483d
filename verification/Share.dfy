/** The open-object table (FF_FS_LOCK): chk_share, enq_share, inc_share and dec_share,
    against the multiset of handles that are open. */
module Share {
  import opened Bytes

  /** An object: volume (never null), start cluster of its directory, offset in it. */
  datatype Obj = Obj(fs: nat, clu: Dword, ofs: Dword)

  /** FILESEM; `fs == 0` is a blank entry. */
  datatype Sem = Sem(fs: nat, clu: Dword, ofs: Dword, ctr: Dword)
  {
    predicate Is(o: Obj) { fs == o.fs && clu == o.clu && ofs == o.ofs }
    predicate Blank() { fs == 0 }
    function Object(): Obj { Obj(fs, clu, ofs) }
  }

  /** An open handle and the lock id it was given. */
  datatype Handle = Handle(obj: Obj, write: bool, id: nat)

  const WRITE_MODE: Dword := 0x100

  /** The counter of an entry against the number of its readers and writers: any number of
      readers, counted in 32 bits, or a sole writer. */
  predicate Balanced(ctr: Dword, readers: nat, writers: nat)
  {
    || (writers == 0 && 1 <= readers && ctr == Wrap32(readers))
    || (writers == 1 && readers == 0 && ctr == WRITE_MODE)
  }

  ghost predicate EntryOk(s: seq<Sem>, open: multiset<Handle>, i: int)
    requires 0 <= i < |s|
  {
    var o := s[i].Object();
    !s[i].Blank() ==> Balanced(s[i].ctr, open[Handle(o, false, i + 1)], open[Handle(o, true, i + 1)])
  }

  ghost predicate HandleOk(s: seq<Sem>, h: Handle)
  {
    1 <= h.id <= |s| && !s[h.id - 1].Blank() && s[h.id - 1].Object() == h.obj
  }

  ghost predicate Distinct(s: seq<Sem>)
  {
    forall i, j :: 0 <= i < j < |s| && !s[i].Blank() && !s[j].Blank() ==> s[i].Object() != s[j].Object()
  }

  /** Mentioning this lets the prover look into the validity of a table. */
  ghost predicate UnfoldTable(k: int) { true }

  /** The table `s` describes the handles `open` (to be looked at through `UnfoldTable`). */
  ghost predicate Describes(s: seq<Sem>, open: multiset<Handle>)
  {
    forall k :: UnfoldTable(k) ==> Inv(s, open)
  }

  /** The table describes exactly the open handles. */
  ghost predicate Inv(s: seq<Sem>, open: multiset<Handle>)
  {
    && Distinct(s)
    && (forall i :: 0 <= i < |s| ==> EntryOk(s, open, i))
    && (forall h :: h in open ==> HandleOk(s, h))
  }

  /** What the invariant means: one entry per object, and whoever writes is alone. */
  lemma WriterIsAlone(s: seq<Sem>, open: multiset<Handle>, h: Handle, h': Handle)
    requires Inv(s, open) && h in open && h' in open && h.obj == h'.obj
    ensures h.id == h'.id
    ensures h.write ==> h' == h && open[h] == 1
  {
    assert HandleOk(s, h) && HandleOk(s, h');
    HandleIndex(s, open, h', h.id - 1);
    assert EntryOk(s, open, h.id - 1);
  }

  // ------------------------------------------------------- readers of an object

  /** Read handles of `o` with lock ids up to `n`. */
  ghost function ReadersIn(open: multiset<Handle>, o: Obj, n: nat): nat
  {
    if n == 0 then 0 else open[Handle(o, false, n)] + ReadersIn(open, o, n - 1)
  }

  /** All readers of an object hold the lock id of its entry. */
  lemma {:induction false} ReadersAt(s: seq<Sem>, open: multiset<Handle>, o: Obj, i: nat, n: nat)
    requires Inv(s, open) && i < |s| && s[i].Is(o) && !s[i].Blank() && n <= |s|
    ensures ReadersIn(open, o, n) == if i < n then open[Handle(o, false, i + 1)] else 0
  {
    if n > 0 {
      ReadersAt(s, open, o, i, n - 1);
      var h := Handle(o, false, n);
      if n != i + 1 && h in open { HandleIndex(s, open, h, i); }
    }
  }

  /** The counter of `r` readers does not look like a writer's. */
  predicate ReadsAsReaders(r: nat) { Wrap32(r) != WRITE_MODE }

  /** One of `r` readers can be taken off the counter. */
  predicate CountsDown(r: nat) { r == 1 || (Wrap32(r) != 0 && Wrap32(r) != 1 && Wrap32(r) != WRITE_MODE) }

  /** Below the 32-bit range, 256 is the one bad number of readers. */
  lemma OnlyBadCount(r: nat)
    requires 1 <= r < TWO32
    ensures ReadsAsReaders(r) <==> r != 256
    ensures CountsDown(r) <==> r != 256
  {
    Wrap32Id(r);
  }

  class ShareTable {
    const files: array<Sem>
    ghost var open: multiset<Handle>

    constructor (n: nat)
      ensures files.Length == n && open == multiset{} && Valid() && fresh(files)
      ensures forall i :: 0 <= i < n ==> files[i].Blank()
    {
      files := new Sem[n](_ => Sem(0, 0, 0, 0));
      open := multiset{};
    }

    ghost predicate Valid()
      reads this, files
    {
      Describes(files[..], open)
    }

    /** Some handle of the object is open (for writing), and how many are for reading. */
    ghost predicate Opened(o: Obj) reads this { exists h :: h in open && h.obj == o }
    ghost predicate Written(o: Obj) reads this { exists h :: h in open && h.obj == o && h.write }
    ghost function Readers(o: Obj): nat reads this { ReadersIn(open, o, files.Length) }
    ghost predicate HasBlank() reads files { exists i :: 0 <= i < files.Length && files[i].Blank() }

    /** The search the functions have in common. */
    method Find(o: Obj) returns (i: nat, be: bool)
      requires Valid() && o.fs != 0
      ensures i <= files.Length
      ensures i < files.Length ==> files[i].Is(o) && Opened(o)
      ensures i == files.Length ==> !Opened(o) && (be <==> HasBlank()) && forall j :: 0 <= j < i ==> !files[j].Is(o)
    {
      assert UnfoldTable(0);
      i, be := 0, false;
      while i < files.Length
        invariant i <= files.Length
        invariant forall j :: 0 <= j < i ==> !files[j].Is(o)
        invariant be <==> exists j :: 0 <= j < i && files[j].Blank()
      {
        if !files[i].Blank() {
          if files[i].Is(o) {
            EntryHasHandle(files[..], open, i);
            return;
          }
        } else {
          be := true;
        }
        i := i + 1;
      }
      NotListed(files[..], open, o);
    }

    /** What sharing means: an object may be read by many or written by one, and needs an
        entry unless it is only to be deleted or renamed (`acc` 2). */
    ghost function Rightly(o: Obj, acc: nat): FResult
      reads this, files
    {
      if Opened(o) then (if acc != 0 || Written(o) then LOCKED else OK)
      else (if HasBlank() || acc == 2 then OK else TOO_MANY_OPEN_FILES)
    }

    /** chk_share: whether the object may be opened for reading (`acc` 0), opened for
        writing (1), or deleted or renamed (2).  The answer is right exactly if the counter
        of its readers does not read as write mode, or does not matter. */
    method ChkShare(o: Obj, acc: nat) returns (res: FResult)
      requires Valid() && o.fs != 0
      ensures res == if acc == 0 && Opened(o) && !ReadsAsReaders(Readers(o)) then LOCKED else Rightly(o, acc)
      ensures res == Rightly(o, acc) <==> !(acc == 0 && Opened(o) && !ReadsAsReaders(Readers(o)))
    {
      var i, be := Find(o);
      if i == files.Length {
        return if !be && acc != 2 then TOO_MANY_OPEN_FILES else OK;
      }
      assert UnfoldTable(0);
      CounterTells(files[..], open, i, o);
      return if acc != 0 || files[i].ctr == WRITE_MODE then LOCKED else OK;
    }

    /** enq_share: whether an entry is available for a new object. */
    method EnqShare() returns (ok: bool)
      ensures ok == HasBlank()
    {
      var i := FindBlank();
      ok := i != files.Length;
    }

    /** The first blank entry. */
    method FindBlank() returns (i: nat)
      ensures i <= files.Length && (i < files.Length ==> files[i].Blank())
      ensures forall j :: 0 <= j < i ==> !files[j].Blank()
    {
      i := 0;
      while i < files.Length && !files[i].Blank()
        invariant 0 <= i <= files.Length
        invariant forall j :: 0 <= j < i ==> !files[j].Blank()
      {
        i := i + 1;
      }
    }

    /** inc_share, guarded or not, for any number of readers: registers the handle and
        returns its lock id, or returns 0 and changes nothing.  The table describes the
        handles afterwards exactly if the open was compatible with those before. */
    method IncShare(o: Obj, write: bool) returns (id: nat)
      requires Valid() && o.fs != 0
      modifies this, files
      ensures id == 0 <==>
                if old(Opened(o)) then write && (old(Written(o)) || Wrap32(old(Readers(o))) != 0) else !old(HasBlank())
      ensures id == 0 ==> open == old(open) && files[..] == old(files[..])
      ensures id != 0 ==>
                && 1 <= id <= files.Length && open == old(open) + multiset{Handle(o, write, id)}
                && files[..] == old(files[..])[id - 1 := Registered(old(files[id - 1]), o, write)]
                && (Valid() <==> (old(Opened(o)) ==> !write && !old(Written(o))))
    {
      ghost var compatible;
      var i;
      i, compatible := PlaceFor(o, write);
      if i == files.Length { return 0; }
      id := Enter(i, o, write, compatible);
    }

    /** The entry of the object, or a blank one, and whether one more handle is compatible. */
    method PlaceFor(o: Obj, write: bool) returns (i: nat, ghost compatible: bool)
      requires Valid() && o.fs != 0
      ensures i == files.Length <==> !Opened(o) && !HasBlank()
      ensures i < files.Length ==>
                && (compatible <==>
                      Describes(files[..][i := Registered(files[i], o, write)],
                                open + multiset{Handle(o, write, i + 1)}))
                && (compatible <==> (Opened(o) ==> !write && !Written(o)))
                && (files[i].Is(o) <==> Opened(o))
                && (Opened(o) ==> files[i].ctr == if Written(o) then WRITE_MODE else Wrap32(Readers(o)))
      ensures i <= files.Length
    {
      var be;
      i, be := Find(o);
      compatible := true;
      if i == files.Length {
        i := FindBlank();
        if i < files.Length { PlaceNew(files[..], open, i, o, write); }
      } else {
        PlaceMore(files[..], open, i, o, write);
        compatible := !write && !Written(o);
      }
    }

    method Enter(i: nat, o: Obj, write: bool, ghost compatible: bool) returns (id: nat)
      requires i < files.Length && o.fs != 0
      requires compatible <==>
                 Describes(files[..][i := Registered(files[i], o, write)], open + multiset{Handle(o, write, i + 1)})
      modifies this, files
      ensures if write && old(files[i]).Is(o) && old(files[i]).ctr != 0
              then id == 0 && files[..] == old(files[..]) && open == old(open)
              else && id == i + 1 && open == old(open) + multiset{Handle(o, write, i + 1)}
                   && files[..] == old(files[..])[i := Registered(old(files[i]), o, write)]
                   && (Valid() <==> compatible)
    {
      id := Raise(i, o, write);
      if id != 0 { open := open + multiset{Handle(o, write, id)}; }
    }

    /** Enters the object in entry `i`, unless it is there, and counts the handle. */
    method Raise(i: nat, o: Obj, write: bool) returns (id: nat)
      requires i < files.Length && o.fs != 0
      modifies files
      ensures var e := old(files[i]);
              if write && e.Is(o) && e.ctr != 0 then id == 0 && files[..] == old(files[..])
              else id == i + 1 && files[..] == old(files[..])[i := Registered(e, o, write)]
    {
      if !files[i].Is(o) { files[i] := Sem(o.fs, o.clu, o.ofs, 0); }
      var n: int := files[i].ctr;
      if write && n != 0 { return 0; }
      files[i] := files[i].(ctr := if write then WRITE_MODE else Wrap32(n + 1));
      id := i + 1;
    }

    method Decrement(i: nat)
      requires i < files.Length
      modifies files
      ensures files[..] == old(files[..])[i := Decremented(old(files[i]))]
    {
      var n: int := files[i].ctr;
      if n == WRITE_MODE { n := 0; }
      if n > 0 { n := n - 1; }
      files[i] := files[i].(ctr := n);
      if n == 0 {
        files[i] := files[i].(fs := 0);
      }
    }

    method Drop(i: nat, ghost h: Handle, ghost keeps: bool)
      requires i < files.Length
      requires keeps <==> Describes(files[..][i := Decremented(files[i])], open - multiset{h})
      modifies this, files
      ensures files[..] == old(files[..])[i := Decremented(old(files[i]))] && open == old(open) - multiset{h}
      ensures Valid() <==> keeps
    {
      Decrement(i);
      open := open - multiset{h};
    }

    /** dec_share: gives the handle `h` back; refuses what is no lock id.  The table
        describes the remaining handles exactly if `h` writes or the counter of its object's
        readers can count down. */
    method DecShare(id: nat, ghost h: Handle) returns (res: FResult)
      requires Valid() && (1 <= id <= files.Length ==> h in open && h.id == id)
      modifies this, files
      ensures res == if 1 <= id <= files.Length then OK else INT_ERR
      ensures res != OK ==> open == old(open) && files[..] == old(files[..])
      ensures res == OK ==>
                && open == old(open) - multiset{h}
                && files[..] == old(files[..])[id - 1 := Decremented(old(files[id - 1]))]
                && (Valid() <==> h.write || CountsDown(old(Readers(h.obj))))
    {
      var i := id - 1;
      if 0 <= i < files.Length {
        DropOne(files[..], open, h);
        Drop(i, h, h.write || CountsDown(Readers(h.obj)));
        res := OK;
      } else {
        res := INT_ERR;
      }
    }
  }

  // -------------------------------------------------------------------- proofs

  lemma PlaceNew(s: seq<Sem>, open: multiset<Handle>, i: nat, o: Obj, write: bool)
    requires Describes(s, open) && i < |s| && s[i].Blank() && o.fs != 0
    requires forall h :: h in open ==> h.obj != o
    requires forall j :: 0 <= j < |s| ==> !s[j].Is(o)
    ensures Describes(s[i := Registered(s[i], o, write)], open + multiset{Handle(o, write, i + 1)})
  {
    assert UnfoldTable(0);
    AddNew(s, open, i, o, write);
  }

  lemma PlaceMore(s: seq<Sem>, open: multiset<Handle>, i: nat, o: Obj, write: bool)
    requires Describes(s, open) && i < |s| && s[i].Is(o) && !s[i].Blank() && o.fs != 0
    ensures var written := exists h :: h in open && h.obj == o && h.write;
            && (Describes(s[i := Registered(s[i], o, write)], open + multiset{Handle(o, write, i + 1)}) <==>
                  !write && !written)
            && s[i].ctr == if written then WRITE_MODE else Wrap32(ReadersIn(open, o, |s|))
  {
    assert UnfoldTable(0);
    CounterTells(s, open, i, o);
    AddHandle(s, open, i, o, write);
  }

  lemma DropOne(s: seq<Sem>, open: multiset<Handle>, h: Handle)
    requires Describes(s, open) && h in open
    ensures 1 <= h.id <= |s|
    ensures Describes(s[h.id - 1 := Decremented(s[h.id - 1])], open - multiset{h}) <==>
              h.write || CountsDown(ReadersIn(open, h.obj, |s|))
  {
    assert UnfoldTable(0);
    RemoveOne(s, open, h);
  }

  /** An entry after inc_share. */
  function Registered(e: Sem, o: Obj, write: bool): Sem
  {
    Sem(o.fs, o.clu, o.ofs, if write then WRITE_MODE else if e.Is(o) then Wrap32(e.ctr + 1) else 1)
  }

  /** An entry after dec_share. */
  function Decremented(e: Sem): Sem
  {
    var n := if e.ctr == WRITE_MODE || e.ctr == 0 then 0 else e.ctr - 1;
    if n == 0 then e.(ctr := 0, fs := 0) else e.(ctr := n)
  }

  lemma EntryHasHandle(s: seq<Sem>, open: multiset<Handle>, i: nat)
    requires Inv(s, open) && i < |s| && !s[i].Blank()
    ensures exists h :: h in open && h.obj == s[i].Object()
  {
    assert EntryOk(s, open, i);
    var r, w := Handle(s[i].Object(), false, i + 1), Handle(s[i].Object(), true, i + 1);
    assert r in open || w in open;
  }

  lemma NotListed(s: seq<Sem>, open: multiset<Handle>, o: Obj)
    requires Inv(s, open) && o.fs != 0 && forall j :: 0 <= j < |s| ==> !s[j].Is(o)
    ensures forall h :: h in open ==> h.obj != o
  {
    forall h | h in open ensures h.obj != o {
      assert HandleOk(s, h);
    }
  }

  /** What the counter of an entry says about the object's handles. */
  lemma CounterTells(s: seq<Sem>, open: multiset<Handle>, i: nat, o: Obj)
    requires Inv(s, open) && i < |s| && s[i].Is(o) && !s[i].Blank()
    ensures var written := exists h :: h in open && h.obj == o && h.write;
            && (written <==> open[Handle(o, true, i + 1)] == 1)
            && ReadersIn(open, o, |s|) == open[Handle(o, false, i + 1)]
            && s[i].ctr == (if written then WRITE_MODE else Wrap32(ReadersIn(open, o, |s|)))
            && (written ==> ReadersIn(open, o, |s|) == 0)
  {
    assert EntryOk(s, open, i);
    ReadersAt(s, open, o, i, |s|);
    var w := Handle(o, true, i + 1);
    if open[w] == 1 { assert w in open; }
    if h :| h in open && h.obj == o && h.write {
      HandleIndex(s, open, h, i);
    }
  }

  /** Handles of an object carry the lock id of its entry. */
  lemma HandleIndex(s: seq<Sem>, open: multiset<Handle>, h: Handle, i: nat)
    requires Inv(s, open) && h in open && i < |s| && !s[i].Blank() && s[i].Object() == h.obj
    ensures h.id == i + 1
  {
    assert HandleOk(s, h);
    OneEntry(s, open, i, h.id - 1);
  }

  lemma OneEntry(s: seq<Sem>, open: multiset<Handle>, i: nat, j: nat)
    requires Inv(s, open) && i < |s| && j < |s| && !s[i].Blank() && !s[j].Blank() && s[i].Object() == s[j].Object()
    ensures i == j
  {
  }

  lemma AddNew(s: seq<Sem>, open: multiset<Handle>, i: nat, o: Obj, write: bool)
    requires Inv(s, open) && i < |s| && s[i].Blank() && o.fs != 0
    requires forall h :: h in open ==> h.obj != o
    requires forall j :: 0 <= j < |s| ==> !s[j].Is(o)
    ensures Inv(s[i := Registered(s[i], o, write)], open + multiset{Handle(o, write, i + 1)})
  {
    var s' := s[i := Registered(s[i], o, write)];
    var open' := open + multiset{Handle(o, write, i + 1)};
    forall j | 0 <= j < |s'| ensures EntryOk(s', open', j) {
      assert EntryOk(s, open, j);
    }
    forall h | h in open' ensures HandleOk(s', h) {
      if h in open { assert HandleOk(s, h); }
    }
  }

  /** One more handle of a listed object keeps the invariant exactly if all are readers. */
  lemma AddHandle(s: seq<Sem>, open: multiset<Handle>, i: nat, o: Obj, write: bool)
    requires Inv(s, open) && i < |s| && s[i].Is(o) && o.fs != 0
    ensures Inv(s[i := Registered(s[i], o, write)], open + multiset{Handle(o, write, i + 1)}) <==>
              !write && !(exists h :: h in open && h.obj == o && h.write)
  {
    if !write && !(exists h :: h in open && h.obj == o && h.write) {
      AddReader(s, open, i, o);
    } else {
      assert EntryOk(s, open, i);
      CounterTells(s, open, i, o);
      assert !EntryOk(s[i := Registered(s[i], o, write)], open + multiset{Handle(o, write, i + 1)}, i);
    }
  }

  lemma AddReader(s: seq<Sem>, open: multiset<Handle>, i: nat, o: Obj)
    requires Inv(s, open) && i < |s| && s[i].Is(o) && o.fs != 0
    requires !(exists h :: h in open && h.obj == o && h.write)
    ensures Inv(s[i := Registered(s[i], o, false)], open + multiset{Handle(o, false, i + 1)})
  {
    var s' := s[i := Registered(s[i], o, false)];
    var open' := open + multiset{Handle(o, false, i + 1)};
    assert EntryOk(s, open, i);
    CounterTells(s, open, i, o);
    forall j | 0 <= j < |s'| ensures EntryOk(s', open', j) {
      assert EntryOk(s, open, j);
    }
    forall h | h in open' ensures HandleOk(s', h) {
      if h in open { assert HandleOk(s, h); }
    }
  }

  lemma RemoveOne(s: seq<Sem>, open: multiset<Handle>, h: Handle)
    requires Inv(s, open) && h in open
    ensures 1 <= h.id <= |s|
    ensures Inv(s[h.id - 1 := Decremented(s[h.id - 1])], open - multiset{h}) <==>
              h.write || CountsDown(ReadersIn(open, h.obj, |s|))
  {
    assert HandleOk(s, h);
    var i := h.id - 1;
    if h.write || CountsDown(ReadersIn(open, h.obj, |s|)) {
      RemoveCounted(s, open, h, i);
    } else {
      assert EntryOk(s, open, i);
      CounterTells(s, open, i, h.obj);
      var s', open' := s[i := Decremented(s[i])], open - multiset{h};
      assert s'[i].Blank() && h in open' && !HandleOk(s', h);
    }
  }

  lemma RemoveCounted(s: seq<Sem>, open: multiset<Handle>, h: Handle, i: nat)
    requires Inv(s, open) && h in open && i < |s| && h.id == i + 1
    requires h.write || CountsDown(ReadersIn(open, h.obj, |s|))
    ensures Inv(s[i := Decremented(s[i])], open - multiset{h})
  {
    assert HandleOk(s, h) && EntryOk(s, open, i);
    CounterTells(s, open, i, h.obj);
    var s', open' := s[i := Decremented(s[i])], open - multiset{h};
    forall j | 0 <= j < |s'| ensures EntryOk(s', open', j) {
      assert EntryOk(s, open, j);
    }
    forall k | k in open' ensures HandleOk(s', k) {
      assert HandleOk(s, k);
      if k.id == h.id {
        assert k == Handle(h.obj, false, h.id) || k == Handle(h.obj, true, h.id);
        assert h == Handle(h.obj, false, h.id) || h == Handle(h.obj, true, h.id);
      }
    }
  }

  // ---------------------------------------------------------------------- runs

  /** Opening an object, and closing the `k`-th of the uses open. */
  datatype ShareOp = Open(obj: Obj, write: bool) | Close(k: nat)

  /** A use of an object: what a handle is to its owner. */
  datatype Use = Use(obj: Obj, write: bool)

  ghost function Objs(us: seq<Use>): set<Obj> { set u <- us :: u.obj }

  /** Many readers or one writer, and at most `n` objects at a time. */
  ghost predicate Allowed(us: seq<Use>, o: Obj, write: bool, n: nat)
  {
    if o in Objs(us) then !write && forall u :: u in us && u.obj == o ==> !u.write
    else |Objs(us)| < n
  }

  ghost function StepOf(us: seq<Use>, op: ShareOp, n: nat): seq<Use>
  {
    match op
    case Open(o, write) => if Allowed(us, o, write, n) then us + [Use(o, write)] else us
    case Close(k) => if k < |us| then us[..k] + us[k + 1..] else us
  }

  /** The uses open after the operations, all of them begun with none open. */
  ghost function RunOf(ops: seq<ShareOp>, n: nat): seq<Use>
  {
    if ops == [] then [] else StepOf(RunOf(ops[..|ops| - 1], n), ops[|ops| - 1], n)
  }

  ghost function Uses(hs: seq<Handle>): (us: seq<Use>)
    ensures |us| == |hs| && forall i :: 0 <= i < |hs| ==> us[i] == Use(hs[i].obj, hs[i].write)
  {
    seq(|hs|, i requires 0 <= i < |hs| => Use(hs[i].obj, hs[i].write))
  }

  /** Read handles of an object. */
  function ReadersOf(hs: seq<Handle>, o: Obj): nat
  {
    if hs == [] then 0
    else ReadersOf(hs[..|hs| - 1], o) + if hs[|hs| - 1].obj == o && !hs[|hs| - 1].write then 1 else 0
  }

  /** Any run of opens, each behind chk_share, and closes does exactly what sharing means, up
      to the first time an object gets its 256th reader. */
  method RunShare(t: ShareTable, ops: seq<ShareOp>) returns (hs: seq<Handle>, k: nat)
    requires t.Valid() && t.open == multiset{}
    requires forall i :: 0 <= i < |ops| && ops[i].Open? ==> ops[i].obj.fs != 0
    modifies t, t.files
    ensures t.Valid() && t.open == multiset(hs)
    ensures k <= |ops| && Uses(hs) == RunOf(ops[..k], t.files.Length)
    ensures k < |ops| ==> exists o :: ReadersOf(hs, o) == 256
  {
    hs, k := [], 0;
    assert Uses(hs) == [];
    while k < |ops|
      invariant k <= |ops| && t.Valid() && t.open == multiset(hs)
      invariant Uses(hs) == RunOf(ops[..k], t.files.Length)
      invariant forall o :: ReadersOf(hs, o) < 256
    {
      var full;
      hs, full := ShareStep(t, hs, ops[k]);
      RunMore(ops, k, t.files.Length);
      k := k + 1;
      if full { return; }
    }
  }

  lemma RunMore(ops: seq<ShareOp>, k: nat, n: nat)
    requires k < |ops|
    ensures RunOf(ops[..k + 1], n) == StepOf(RunOf(ops[..k], n), ops[k], n)
  {
    assert ops[..k + 1][..k] == ops[..k];
  }

  /** One operation, and whether an object now has 256 readers. */
  method ShareStep(t: ShareTable, hs0: seq<Handle>, op: ShareOp) returns (hs: seq<Handle>, full: bool)
    requires t.Valid() && t.open == multiset(hs0) && (op.Open? ==> op.obj.fs != 0)
    requires forall o :: ReadersOf(hs0, o) < 256
    modifies t, t.files
    ensures t.Valid() && t.open == multiset(hs) && Uses(hs) == StepOf(Uses(hs0), op, t.files.Length)
    ensures if full then exists o :: ReadersOf(hs, o) == 256 else forall o :: ReadersOf(hs, o) < 256
  {
    hs, full := hs0, false;
    match op
    case Open(o, write) =>
      hs := OpenOne(t, hs0, o, write);
      full := ReadersOf(hs, o) == 256;
    case Close(j) =>
      if j < |hs| { hs := CloseOne(t, hs0, j); }
  }

  /** An open behind chk_share. */
  method OpenOne(t: ShareTable, hs0: seq<Handle>, o: Obj, write: bool) returns (hs: seq<Handle>)
    requires t.Valid() && t.open == multiset(hs0) && o.fs != 0 && ReadersOf(hs0, o) < 256
    modifies t, t.files
    ensures t.Valid() && t.open == multiset(hs)
    ensures Uses(hs) == StepOf(Uses(hs0), Open(o, write), t.files.Length)
    ensures ReadersOf(hs, o) <= ReadersOf(hs0, o) + 1
    ensures forall p :: p != o ==> ReadersOf(hs, p) == ReadersOf(hs0, p)
  {
    hs := hs0;
    Permission(t, hs, o, write);
    var res := t.ChkShare(o, if write then 1 else 0);
    if res == OK {
      var id := t.IncShare(o, write);
      hs := hs + [Handle(o, write, id)];
      Appended(hs0, Handle(o, write, id));
    }
  }

  lemma Permission(t: ShareTable, hs: seq<Handle>, o: Obj, write: bool)
    requires t.Valid() && t.open == multiset(hs) && ReadersOf(hs, o) < 256
    ensures ReadsAsReaders(t.Readers(o))
    ensures t.Rightly(o, if write then 1 else 0) == OK <==> Allowed(Uses(hs), o, write, t.files.Length)
    ensures Allowed(Uses(hs), o, write, t.files.Length) ==>
              if t.Opened(o) then !write && !t.Written(o) else t.HasBlank()
  {
    assert UnfoldTable(0);
    ReadersMatch(t.files[..], hs, o);
    Wrap32Id(ReadersOf(hs, o));
    UsedIsOpen(hs, o);
    UsedIsWritten(hs, o);
    BlankIsRoom(t.files[..], hs);
    assert t.HasBlank() <==> BlankBelow(t.files[..], t.files.Length);
  }

  method CloseOne(t: ShareTable, hs0: seq<Handle>, j: nat) returns (hs: seq<Handle>)
    requires t.Valid() && t.open == multiset(hs0) && j < |hs0| && forall o :: ReadersOf(hs0, o) < 256
    modifies t, t.files
    ensures t.Valid() && t.open == multiset(hs)
    ensures Uses(hs) == StepOf(Uses(hs0), Close(j), t.files.Length)
    ensures forall o :: ReadersOf(hs, o) <= ReadersOf(hs0, o)
  {
    var h := hs0[j];
    hs := hs0[..j] + hs0[j + 1..];
    Removed(hs0, j);
    assert h in t.open && Inv(t.files[..], t.open) && HandleOk(t.files[..], h) by { assert UnfoldTable(0); }
    ReadersMatch(t.files[..], hs0, h.obj);
    if !h.write {
      ReadersPositive(hs0, j);
      OnlyBadCount(ReadersOf(hs0, h.obj));
    }
    forall o ensures ReadersOf(hs, o) <= ReadersOf(hs0, o) { ReadersDrop(hs0, j, o); }
    var _ := t.DecShare(h.id, h);
  }

  lemma Appended(hs: seq<Handle>, h: Handle)
    ensures multiset(hs + [h]) == multiset(hs) + multiset{h}
    ensures Uses(hs + [h]) == Uses(hs) + [Use(h.obj, h.write)]
    ensures forall o :: ReadersOf(hs + [h], o) == ReadersOf(hs, o) + if h.obj == o && !h.write then 1 else 0
  {
    assert (hs + [h])[..|hs|] == hs;
  }

  lemma Removed(hs: seq<Handle>, j: nat)
    requires j < |hs|
    ensures hs[j] in multiset(hs)
    ensures multiset(hs[..j] + hs[j + 1..]) == multiset(hs) - multiset{hs[j]}
    ensures Uses(hs[..j] + hs[j + 1..]) == Uses(hs)[..j] + Uses(hs)[j + 1..]
  {
    assert hs == hs[..j] + [hs[j]] + hs[j + 1..];
  }

  lemma {:induction false} ReadersPositive(hs: seq<Handle>, j: nat)
    requires j < |hs| && !hs[j].write
    ensures ReadersOf(hs, hs[j].obj) >= 1
  {
    if j < |hs| - 1 { ReadersPositive(hs[..|hs| - 1], j); }
  }

  lemma {:induction false} ReadersDrop(hs: seq<Handle>, j: nat, o: Obj)
    requires j < |hs|
    ensures ReadersOf(hs[..j] + hs[j + 1..], o) <= ReadersOf(hs, o)
  {
    var n := |hs| - 1;
    var r := hs[..j] + hs[j + 1..];
    if j == n {
      assert r == hs[..n];
    } else {
      ReadersDrop(hs[..n], j, o);
      assert r[..|r| - 1] == hs[..n][..j] + hs[..n][j + 1..] && r[|r| - 1] == hs[n];
    }
  }

  /** The table's count of readers is that of the handles. */
  lemma ReadersMatch(s: seq<Sem>, hs: seq<Handle>, o: Obj)
    requires Inv(s, multiset(hs))
    ensures ReadersIn(multiset(hs), o, |s|) == ReadersOf(hs, o)
  {
    forall h | h in hs ensures 1 <= h.id <= |s| {
      assert h in multiset(hs) && HandleOk(s, h);
    }
    ReadersAgree(s, hs, o);
  }

  lemma {:induction false} ReadersAgree(s: seq<Sem>, hs: seq<Handle>, o: Obj)
    requires forall h :: h in hs ==> 1 <= h.id <= |s|
    ensures ReadersIn(multiset(hs), o, |s|) == ReadersOf(hs, o)
  {
    if hs == [] {
      NoReaders(o, |s|);
    } else {
      var n := |hs| - 1;
      ReadersAgree(s, hs[..n], o);
      assert hs == hs[..n] + [hs[n]];
      OneMore(multiset(hs[..n]), hs[n], o, |s|);
    }
  }

  lemma {:induction false} NoReaders(o: Obj, n: nat)
    ensures ReadersIn(multiset{}, o, n) == 0
  {
    if n > 0 { NoReaders(o, n - 1); }
  }

  lemma {:induction false} OneMore(open: multiset<Handle>, h: Handle, o: Obj, n: nat)
    ensures ReadersIn(open + multiset{h}, o, n)
         == ReadersIn(open, o, n) + if h.obj == o && !h.write && 1 <= h.id <= n then 1 else 0
  {
    if n > 0 { OneMore(open, h, o, n - 1); }
  }

  // ------------------------------------------------- entries and open objects

  /** Objects listed in the first `n` entries. */
  ghost function Listed(s: seq<Sem>, n: nat): set<Obj>
    requires n <= |s|
  {
    if n == 0 then {} else if s[n - 1].Blank() then Listed(s, n - 1) else Listed(s, n - 1) + {s[n - 1].Object()}
  }

  lemma {:induction false} ListedHas(s: seq<Sem>, n: nat, o: Obj)
    requires n <= |s|
    ensures o in Listed(s, n) <==> exists i :: 0 <= i < n && !s[i].Blank() && s[i].Object() == o
  {
    if n > 0 { ListedHas(s, n - 1, o); }
  }

  ghost predicate BlankBelow(s: seq<Sem>, n: nat)
    requires n <= |s|
  {
    exists i :: 0 <= i < n && s[i].Blank()
  }

  lemma {:induction false} ListedCount(s: seq<Sem>, n: nat)
    requires Distinct(s) && n <= |s|
    ensures |Listed(s, n)| <= n && (|Listed(s, n)| < n <==> BlankBelow(s, n))
  {
    if n > 0 {
      ListedCount(s, n - 1);
      BlankStep(s, n);
      if !s[n - 1].Blank() {
        NotListedBefore(s, n - 1);
        CardAdd(Listed(s, n - 1), s[n - 1].Object());
      }
    }
  }

  lemma BlankStep(s: seq<Sem>, n: nat)
    requires 0 < n <= |s|
    ensures BlankBelow(s, n) <==> BlankBelow(s, n - 1) || s[n - 1].Blank()
  {
  }

  lemma CardAdd(r: set<Obj>, x: Obj)
    requires x !in r
    ensures |r + {x}| == |r| + 1
  {
  }

  lemma NotListedBefore(s: seq<Sem>, n: nat)
    requires Distinct(s) && n < |s| && !s[n].Blank()
    ensures s[n].Object() !in Listed(s, n)
  {
    ListedHas(s, n, s[n].Object());
  }

  lemma ListedIsOpen(s: seq<Sem>, hs: seq<Handle>)
    requires Inv(s, multiset(hs))
    ensures Listed(s, |s|) == Objs(Uses(hs))
  {
    forall o | o in Listed(s, |s|) ensures o in Objs(Uses(hs)) {
      ListedHas(s, |s|, o);
      var i :| 0 <= i < |s| && !s[i].Blank() && s[i].Object() == o;
      EntryHasHandle(s, multiset(hs), i);
      var h :| h in multiset(hs) && h.obj == o;
      var j :| 0 <= j < |hs| && hs[j] == h;
      assert Uses(hs)[j].obj == o;
    }
    forall o | o in Objs(Uses(hs)) ensures o in Listed(s, |s|) {
      var j :| 0 <= j < |hs| && Uses(hs)[j].obj == o;
      assert hs[j] in multiset(hs) && HandleOk(s, hs[j]);
      ListedHas(s, |s|, o);
    }
  }

  /** Handles and uses tell the same about an object. */
  lemma UsedIsOpen(hs: seq<Handle>, o: Obj)
    ensures (exists h :: h in multiset(hs) && h.obj == o) <==> o in Objs(Uses(hs))
  {
    var us := Uses(hs);
    if h :| h in multiset(hs) && h.obj == o {
      var j :| 0 <= j < |hs| && hs[j] == h;
      assert us[j].obj == o;
    }
    if o in Objs(us) {
      var j :| 0 <= j < |us| && us[j].obj == o;
      assert hs[j] in multiset(hs);
    }
  }

  lemma UsedIsWritten(hs: seq<Handle>, o: Obj)
    ensures (exists h :: h in multiset(hs) && h.obj == o && h.write) <==>
              !(forall u :: u in Uses(hs) && u.obj == o ==> !u.write)
  {
    var us := Uses(hs);
    if h :| h in multiset(hs) && h.obj == o && h.write {
      var j :| 0 <= j < |hs| && hs[j] == h;
      assert us[j] in us && us[j].write;
    }
    if u :| u in us && u.obj == o && u.write {
      var j :| 0 <= j < |us| && us[j] == u;
      assert hs[j] in multiset(hs);
    }
  }

  lemma BlankIsRoom(s: seq<Sem>, hs: seq<Handle>)
    requires Inv(s, multiset(hs))
    ensures BlankBelow(s, |s|) <==> |Objs(Uses(hs))| < |s|
  {
    ListedIsOpen(s, hs);
    ListedCount(s, |s|);
  }

  /** The 256th reader: chk_share refuses readers although nobody writes, and the first close
      blanks the entry under the other 255. */
  method TooManyReaders(o: Obj) returns (t: ShareTable, chk: FResult)
    requires o.fs != 0
    ensures chk == LOCKED
    ensures t.files.Length == 1 && t.files[0].Blank() && !t.Valid()
    ensures t.open[Handle(o, false, 1)] == 255 && forall h :: h in t.open ==> h == Handle(o, false, 1)
  {
    t := new ShareTable(1);
    var n := 0;
    while n < 256
      invariant 0 <= n <= 256 && fresh(t) && fresh(t.files) && t.Valid() && OnlyReaders(t, o, n)
    {
      chk := OneMoreReader(t, o, n);
      n := n + 1;
    }
    ghost var reader := Handle(o, false, 1);
    assert ReadersIn(t.open, o, 1) == 256;
    Wrap32Id(256);
    assert reader in t.open;
    chk := t.ChkShare(o, 0);
    var _ := t.DecShare(1, reader);
  }

  /** A table of one entry with `n` readers of `o`. */
  ghost predicate OnlyReaders(t: ShareTable, o: Obj, n: Dword)
    reads t, t.files
  {
    && t.files.Length == 1 && t.open[Handle(o, false, 1)] == n && (forall h :: h in t.open ==> h == Handle(o, false, 1))
    && if n == 0 then t.files[0].Blank() else t.files[0] == Sem(o.fs, o.clu, o.ofs, n)
  }

  /** The next reader passes chk_share and is counted. */
  method OneMoreReader(t: ShareTable, o: Obj, ghost n: nat) returns (chk: FResult)
    requires t.Valid() && o.fs != 0 && n < 256 && OnlyReaders(t, o, n)
    modifies t, t.files
    ensures chk == OK && t.Valid() && OnlyReaders(t, o, n + 1)
  {
    assert ReadersIn(t.open, o, 1) == n;
    Wrap32Id(n);
    chk := t.ChkShare(o, 0);
    var _ := t.IncShare(o, false);
  }
}
