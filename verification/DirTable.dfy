/** A directory table as bytes, and the finite map from 11-byte names to entries that it
    stands for. */
module DirTable {
  import opened Bytes
  import opened Layout

  const DDEM: Byte := 0xE5   // deleted entry mark
  const NAME := 11           // length of a short name
  const ATTR := 11           // offset of the attribute byte

  /** Number of entries. */
  function Count(t: seq<Byte>): nat { |t| / SZDIRE }

  function Ent(t: seq<Byte>, i: nat): (e: seq<Byte>)
    requires i < Count(t)
    ensures |e| == SZDIRE
  {
    t[i * SZDIRE..(i + 1) * SZDIRE]
  }

  function NameOf(e: seq<Byte>): (n: seq<Byte>)
    requires |e| == SZDIRE
    ensures |n| == NAME
  {
    e[..NAME]
  }

  /** The attribute bit AM_VOL (0x08), set in volume labels and long-name entries. */
  predicate IsVol(e: seq<Byte>)
    requires |e| == SZDIRE
  {
    e[ATTR] / 8 % 2 == 1
  }

  /** A deleted entry, or one at or behind the end mark. */
  predicate IsFree(e: seq<Byte>)
    requires |e| == SZDIRE
  {
    e[0] == DDEM || e[0] == 0
  }

  /** An entry dir_find can return. */
  predicate IsObject(e: seq<Byte>)
    requires |e| == SZDIRE
  {
    !IsFree(e) && !IsVol(e)
  }

  /** Entries behind the first end mark are end marks too, and names are unique. */
  ghost predicate WellFormed(t: seq<Byte>)
  {
    && (forall i, j :: 0 <= i < j < Count(t) && Ent(t, i)[0] == 0 ==> Ent(t, j)[0] == 0)
    && (forall i, j :: 0 <= i < j < Count(t) && IsObject(Ent(t, i)) && IsObject(Ent(t, j))
                       ==> NameOf(Ent(t, i)) != NameOf(Ent(t, j)))
  }

  /** The map held by the first `n` entries. */
  ghost function MapTo(t: seq<Byte>, n: nat): map<seq<Byte>, seq<Byte>>
    requires n <= Count(t)
  {
    if n == 0 then map[]
    else
      var e := Ent(t, n - 1);
      if IsObject(e) then MapTo(t, n - 1)[NameOf(e) := e] else MapTo(t, n - 1)
  }

  /** The directory as a finite map. */
  ghost function DirMap(t: seq<Byte>): map<seq<Byte>, seq<Byte>> { MapTo(t, Count(t)) }

  /** Entry `i` is the object with this name among the first `n`. */
  ghost predicate Holds(t: seq<Byte>, n: nat, name: seq<Byte>, i: int)
    requires n <= Count(t)
  {
    0 <= i < n && IsObject(Ent(t, i)) && NameOf(Ent(t, i)) == name
  }

  lemma {:induction false} MapToHas(t: seq<Byte>, n: nat, i: nat)
    requires WellFormed(t) && i < n <= Count(t) && IsObject(Ent(t, i))
    ensures NameOf(Ent(t, i)) in MapTo(t, n) && MapTo(t, n)[NameOf(Ent(t, i))] == Ent(t, i)
  {
    if i < n - 1 {
      MapToHas(t, n - 1, i);
      if IsObject(Ent(t, n - 1)) {
        assert NameOf(Ent(t, i)) != NameOf(Ent(t, n - 1));
      }
    }
  }

  lemma {:induction false} MapToFrom(t: seq<Byte>, n: nat, name: seq<Byte>) returns (i: nat)
    requires n <= Count(t) && name in MapTo(t, n)
    ensures Holds(t, n, name, i) && MapTo(t, n)[name] == Ent(t, i)
  {
    var e := Ent(t, n - 1);
    if IsObject(e) && NameOf(e) == name {
      i := n - 1;
    } else {
      i := MapToFrom(t, n - 1, name);
    }
  }

  /** Two well-formed tables whose objects correspond have the same map, up to one name. */
  lemma MapEquals(t: seq<Byte>, m: map<seq<Byte>, seq<Byte>>)
    requires WellFormed(t)
    requires forall i :: 0 <= i < Count(t) && IsObject(Ent(t, i)) ==>
               NameOf(Ent(t, i)) in m && m[NameOf(Ent(t, i))] == Ent(t, i)
    requires forall name :: name in m ==> exists i :: Holds(t, Count(t), name, i)
    ensures DirMap(t) == m
  {
    forall name | name in DirMap(t) ensures name in m && m[name] == DirMap(t)[name] {
      var i := MapToFrom(t, Count(t), name);
    }
    forall name | name in m ensures name in DirMap(t) {
      var i :| Holds(t, Count(t), name, i);
      MapToHas(t, Count(t), i);
    }
  }

  // ----------------------------------------------------- one entry overwritten

  /** `t` and `t'` differ at most in entry `k`. */
  ghost predicate DiffersAt(t: seq<Byte>, t': seq<Byte>, k: nat)
  {
    && |t'| == |t| && k < Count(t)
    && forall i :: 0 <= i < Count(t) && i != k ==> Ent(t', i) == Ent(t, i)
  }

  /** Filling a free entry with a new object adds one binding and keeps the others. */
  lemma AddEntry(t: seq<Byte>, t': seq<Byte>, k: nat)
    requires WellFormed(t) && DiffersAt(t, t', k)
    requires IsFree(Ent(t, k)) && (forall j :: 0 <= j < k ==> !IsFree(Ent(t, j)))
    requires IsObject(Ent(t', k)) && NameOf(Ent(t', k)) !in DirMap(t)
    ensures WellFormed(t') && DirMap(t') == DirMap(t)[NameOf(Ent(t', k)) := Ent(t', k)]
  {
    var e := Ent(t', k);
    forall i, j | 0 <= i < j < Count(t') && IsObject(Ent(t', i)) && IsObject(Ent(t', j))
      ensures NameOf(Ent(t', i)) != NameOf(Ent(t', j))
    {
      if i == k { MapToHas(t, Count(t), j); }
      if j == k { MapToHas(t, Count(t), i); }
    }
    assert WellFormed(t');
    var m := DirMap(t)[NameOf(e) := e];
    forall i | 0 <= i < Count(t') && IsObject(Ent(t', i))
      ensures NameOf(Ent(t', i)) in m && m[NameOf(Ent(t', i))] == Ent(t', i)
    {
      if i != k { MapToHas(t, Count(t), i); }
    }
    forall name | name in m ensures exists i :: Holds(t', Count(t'), name, i) {
      if name == NameOf(e) {
        assert Holds(t', Count(t'), name, k);
      } else {
        var i := MapToFrom(t, Count(t), name);
        assert Holds(t', Count(t'), name, i);
      }
    }
    MapEquals(t', m);
  }

  /** Marking an object deleted removes exactly its binding. */
  lemma RemoveEntry(t: seq<Byte>, t': seq<Byte>, k: nat)
    requires WellFormed(t) && DiffersAt(t, t', k)
    requires IsObject(Ent(t, k)) && Ent(t', k)[0] == DDEM
    ensures WellFormed(t') && DirMap(t') == DirMap(t) - {NameOf(Ent(t, k))}
  {
    assert WellFormed(t');
    var m := DirMap(t) - {NameOf(Ent(t, k))};
    forall i | 0 <= i < Count(t') && IsObject(Ent(t', i))
      ensures NameOf(Ent(t', i)) in m && m[NameOf(Ent(t', i))] == Ent(t', i)
    {
      MapToHas(t, Count(t), i);
      assert NameOf(Ent(t, i)) != NameOf(Ent(t, k));
    }
    forall name | name in m ensures exists i :: Holds(t', Count(t'), name, i) {
      var i := MapToFrom(t, Count(t), name);
      assert Holds(t', Count(t'), name, i);
    }
    MapEquals(t', m);
  }

  /** Changing an object behind its name rebinds the name and keeps all other bindings. */
  lemma UpdateEntry(t: seq<Byte>, t': seq<Byte>, k: nat)
    requires WellFormed(t) && DiffersAt(t, t', k)
    requires IsObject(Ent(t, k)) && IsObject(Ent(t', k)) && NameOf(Ent(t', k)) == NameOf(Ent(t, k))
    ensures WellFormed(t') && DirMap(t') == DirMap(t)[NameOf(Ent(t, k)) := Ent(t', k)]
  {
    assert WellFormed(t');
    var name := NameOf(Ent(t, k));
    var m := DirMap(t)[name := Ent(t', k)];
    forall i | 0 <= i < Count(t') && IsObject(Ent(t', i))
      ensures NameOf(Ent(t', i)) in m && m[NameOf(Ent(t', i))] == Ent(t', i)
    {
      MapToHas(t, Count(t), i);
      assert i != k ==> NameOf(Ent(t, i)) != name;
    }
    forall fn | fn in m ensures exists i :: Holds(t', Count(t'), fn, i) {
      if fn == name {
        assert Holds(t', Count(t'), fn, k);
      } else {
        var i := MapToFrom(t, Count(t), fn);
        assert Holds(t', Count(t'), fn, i);
      }
    }
    MapEquals(t', m);
  }

  /** Appending zeroed entries changes nothing. */
  lemma {:induction false} StretchTable(t: seq<Byte>, t': seq<Byte>)
    requires WellFormed(t) && |t| % SZDIRE == 0 && |t| <= |t'| && t'[..|t|] == t
    requires forall a :: |t| <= a < |t'| ==> t'[a] == 0
    ensures WellFormed(t') && DirMap(t') == DirMap(t)
    ensures forall i :: 0 <= i < Count(t) ==> Ent(t', i) == Ent(t, i)
    ensures forall i :: Count(t) <= i < Count(t') ==> Ent(t', i)[0] == 0
  {
    forall i | 0 <= i < Count(t) ensures Ent(t', i) == Ent(t, i) {
      SliceSlice(t', 0, |t|, i * SZDIRE, SZDIRE);
      assert t'[0..|t|] == t;
    }
    forall i | Count(t) <= i < Count(t') ensures Ent(t', i)[0] == 0 {
      assert Ent(t', i)[0] == t'[i * SZDIRE];
    }
    assert WellFormed(t');
    forall name | name in DirMap(t) ensures exists i :: Holds(t', Count(t'), name, i) {
      var i := MapToFrom(t, Count(t), name);
      assert Holds(t', Count(t'), name, i);
    }
    forall i | 0 <= i < Count(t') && IsObject(Ent(t', i))
      ensures NameOf(Ent(t', i)) in DirMap(t) && DirMap(t)[NameOf(Ent(t', i))] == Ent(t', i)
    {
      MapToHas(t, Count(t), i);
    }
    MapEquals(t', DirMap(t));
  }

  /** `t'` is `t` with `bytes` stored at `p`. */
  ghost predicate Overlaid(t: seq<Byte>, t': seq<Byte>, p: int, bytes: seq<Byte>)
  {
    0 <= p && p + |bytes| <= |t| && t' == Overlay(t, p, bytes)
  }

  /** Storing bytes inside entry `k`. */
  lemma SpliceEnt(t: seq<Byte>, t': seq<Byte>, k: nat, o: nat, bytes: seq<Byte>)
    requires k < Count(t) && o + |bytes| <= SZDIRE && Overlaid(t, t', k * SZDIRE + o, bytes)
    ensures DiffersAt(t, t', k) && Ent(t', k) == Overlay(Ent(t, k), o, bytes)
  {
    SliceIn(t, k * SZDIRE, (k + 1) * SZDIRE, k * SZDIRE + o, bytes);
    forall i | 0 <= i < Count(t) && i != k ensures Ent(t', i) == Ent(t, i) {
      SliceOut(t, i * SZDIRE, (i + 1) * SZDIRE, k * SZDIRE + o, bytes);
    }
  }

  // -------------------------------------------------------------------- search

  /** The test of dir_find. */
  predicate Matches(e: seq<Byte>, fn: seq<Byte>)
    requires |e| == SZDIRE
  {
    !IsVol(e) && NameOf(e) == fn
  }

  /** None of the first `n` entries ends the table or matches. */
  ghost predicate Scanned(t: seq<Byte>, n: nat, fn: seq<Byte>)
    requires n <= Count(t)
  {
    forall j :: 0 <= j < n ==> Ent(t, j)[0] != 0 && !Matches(Ent(t, j), fn)
  }

  /** A name create_name can produce: no end mark and no deletion mark in front. */
  predicate ProperName(fn: seq<Byte>) { |fn| == NAME && fn[0] != 0 && fn[0] != DDEM }

  /** A search that stops at entry `n` has found the binding of a proper name, since a
      deleted entry cannot match; one that reaches the end has shown there is none. */
  lemma FoundIsBinding(t: seq<Byte>, n: nat, fn: seq<Byte>)
    requires WellFormed(t) && ProperName(fn) && n <= Count(t) && Scanned(t, n, fn)
    ensures n < Count(t) && Matches(Ent(t, n), fn) ==> fn in DirMap(t) && DirMap(t)[fn] == Ent(t, n)
    ensures n == Count(t) || Ent(t, n)[0] == 0 ==> fn !in DirMap(t)
  {
    if n < Count(t) && Matches(Ent(t, n), fn) {
      MapToHas(t, Count(t), n);
    }
    if n == Count(t) || Ent(t, n)[0] == 0 {
      if fn in DirMap(t) {
        var i := MapToFrom(t, Count(t), fn);
      }
    }
  }

  /** No entry straddles a sector. */
  lemma EntryInSector(p: nat)
    requires p % SZDIRE == 0
    ensures p % SS + SZDIRE <= SS
  {
    var q := p / SZDIRE;
    DivModUnique(p, SS, q / 16, SZDIRE * (q % 16));
  }
}
