/** Short (8.3) names: create_name turns a path segment into the 11-byte directory form,
    get_fileinfo prints that form. */
module ShortName {
  import opened Bytes
  import opened CodePage
  import opened DirTable

  const BLANK: Byte := 0x20
  const DOT: Byte := 0x2E
  const RDDEM: Byte := 0x05     // stands for DDEM in the first byte
  const NSFLAG := 11
  const NS_LAST: Byte := 0x04
  const BODY := 8

  predicate IsSeparator(c: Byte) { c == 0x2F || c == 0x5C }

  /** Ends a segment. */
  predicate IsStop(c: Byte) { c <= BLANK || IsSeparator(c) }

  /** strchr("*+,:;<=>[]|\"\?\x7F", c) */
  predicate Illegal(c: Byte)
  {
    c in [0x2A, 0x2B, 0x2C, 0x3A, 0x3B, 0x3C, 0x3D, 0x3E, 0x5B, 0x5D, 0x7C, 0x22, 0x3F, 0x7F]
  }

  /** Length of the first segment of a path. */
  function SegLen(p: seq<Byte>): (n: nat)
    ensures n <= |p| && (n < |p| ==> IsStop(p[n])) && forall i :: 0 <= i < n ==> !IsStop(p[i])
  {
    if p == [] || IsStop(p[0]) then 0 else 1 + SegLen(p[1..])
  }

  function Segment(p: seq<Byte>): seq<Byte> { p[..SegLen(p)] }

  /** Position of the first dot. */
  function DotAt(s: seq<Byte>): (d: nat)
    ensures d <= |s| && (d < |s| ==> s[d] == DOT) && forall i :: 0 <= i < d ==> s[i] != DOT
  {
    if s == [] || s[0] == DOT then 0 else 1 + DotAt(s[1..])
  }

  function BodyOf(s: seq<Byte>): seq<Byte> { s[..DotAt(s)] }
  function ExtOf(s: seq<Byte>): seq<Byte> { if DotAt(s) < |s| then s[DotAt(s) + 1..] else [] }

  /** The segments that are 8.3 names: at most one dot, at most 8 and 3 characters around
      it, all of them legal. */
  predicate Accepted(s: seq<Byte>)
  {
    && s != [] && |BodyOf(s)| <= BODY && |ExtOf(s)| <= NAME - BODY
    && (forall i :: 0 <= i < |s| ==> !Illegal(s[i]))
    && (forall i :: 0 <= i < |ExtOf(s)| ==> ExtOf(s)[i] != DOT)
  }

  /** The 11-byte form of a body and an extension, upper-cased and padded with blanks. */
  function Padded(body: seq<Byte>, ext: seq<Byte>): (f: seq<Byte>)
    ensures |f| == NAME
  {
    seq(NAME, k requires 0 <= k < NAME =>
      if k < BODY then (if k < |body| then Upper(body[k]) else BLANK)
      else if k - BODY < |ext| then Upper(ext[k - BODY]) else BLANK)
  }

  /** The deleted-entry mark must not start a name. */
  function Escape(f: seq<Byte>): (r: seq<Byte>)
    requires |f| == NAME
    ensures |r| == NAME
  {
    if f[0] == DDEM then f[0 := RDDEM] else f
  }

  function FieldOf(s: seq<Byte>): seq<Byte> { Escape(Padded(BodyOf(s), ExtOf(s))) }

  /** Whether the segment is taken for the last one.  `p[si] <= ' '` compares a plain character,
      here a signed one, so an extended character behind the separator reads as the end too. */
  predicate IsLast(p: seq<Byte>, next: nat)
  {
    At(p, SegLen(p)) <= BLANK || At(p, next) <= BLANK || At(p, next) >= 0x80
  }

  /** `next` is where the following segment starts. */
  predicate IsNext(p: seq<Byte>, next: nat)
  {
    && next > SegLen(p)
    && if IsSeparator(At(p, SegLen(p)))
       then !IsSeparator(At(p, next)) && forall i :: SegLen(p) < i < next ==> IsSeparator(At(p, i))
       else next == SegLen(p) + 1
  }

  /** Another segment follows. */
  predicate Follows(p: seq<Byte>, next: nat)
  {
    IsSeparator(At(p, SegLen(p))) && At(p, next) > BLANK
  }

  /** The segment is taken for the last one rightly, exactly if no extended character starts
      the next one. */
  lemma LastExactly(p: seq<Byte>, next: nat)
    ensures (IsLast(p, next) <==> !Follows(p, next)) <==> !(IsSeparator(At(p, SegLen(p))) && At(p, next) >= 0x80)
  {
  }

  /** The path "A/\x84": create_name flags "A" as the last segment, although another accepted
      one follows. */
  method ExtendedEndsPath() returns (flag: Byte)
    ensures flag == NS_LAST && Follows([0x41, 0x2F, 0x84], 2) && Accepted([0x84])
  {
    var p: seq<Byte> := [0x41, 0x2F, 0x84];
    var fn := new Byte[NAME + 1](_ => 0);
    assert SegLen(p) == 1 by { assert p[1..] == [0x2F, 0x84]; }
    assert Segment(p) == [0x41];
    Single(0x41);
    Single(0x84);
    var res, next := CreateName(p, fn);
    flag := fn[NSFLAG];
  }

  lemma Single(c: Byte)
    requires c != DOT && !Illegal(c)
    ensures Accepted([c])
  {
    assert DotAt([c]) == 1;
  }

  /** The name field `fn` reflects the first `si` characters, all of them accepted so far. */
  ghost predicate Parsed(p: seq<Byte>, si: nat, i: nat, ni: nat, f: seq<Byte>)
  {
    && si <= SegLen(p) && (forall j :: 0 <= j < si ==> !Illegal(p[j]))
    && if ni == BODY then
         i == si <= BODY && (forall j :: 0 <= j < si ==> p[j] != DOT) && f == Padded(p[..si], [])
       else
         var d := DotAt(Segment(p));
         && ni == NAME && d < si && d <= BODY && i == BODY + si - d - 1 <= NAME
         && (forall j :: d < j < si ==> p[j] != DOT) && f == Padded(p[..d], p[d + 1..si])
  }

  /** create_name: accepts exactly the 8.3 names and stores their directory form. */
  method CreateName(p: seq<Byte>, fn: array<Byte>) returns (res: FResult, next: nat)
    requires (forall i :: 0 <= i < |p| ==> p[i] != 0) && fn.Length == NAME + 1
    modifies fn
    ensures res == OK || res == INVALID_NAME
    ensures res == OK <==> Accepted(Segment(p))
    ensures res == OK ==> IsNext(p, next) && fn[..NAME] == FieldOf(Segment(p))
    ensures res == OK ==> fn[NSFLAG] == if IsLast(p, next) then NS_LAST else 0
  {
    next := 0;
    var ok, si := FillName(p, fn);
    if !ok { return INVALID_NAME, next; }
    next := si + 1;
    var c := At(p, si);
    if IsSeparator(c) { next := SkipSeparators(p, next); }
    if fn[0] == DDEM { fn[0] := RDDEM; }
    fn[NSFLAG] := if c <= BLANK || At(p, next) <= BLANK || At(p, next) >= 0x80 then NS_LAST else 0;
    return OK, next;
  }

  /** The loop over the characters of the segment. */
  method FillName(p: seq<Byte>, fn: array<Byte>) returns (ok: bool, si: nat)
    requires fn.Length == NAME + 1
    modifies fn
    ensures ok <==> Accepted(Segment(p))
    ensures ok ==> si == SegLen(p) && fn[..NAME] == Padded(BodyOf(Segment(p)), ExtOf(Segment(p)))
  {
    forall k | 0 <= k < NAME { fn[k] := BLANK; }
    var i: nat, ni: nat := 0, BODY;
    si := 0;
    assert fn[..NAME] == Padded(p[..0], []);
    while !IsStop(At(p, si))
      invariant Parsed(p, si, i, ni, fn[..NAME])
      decreases SegLen(p) - si
    {
      var c := At(p, si);
      ghost var f := fn[..NAME];
      assert si < SegLen(p) && c == p[si];
      if c == DOT || i >= ni {
        if ni == NAME || c != DOT { TooLong(p, si, i, ni, f); return false, si; }
        EnterExt(p, si, f);
        i, ni := BODY, NAME;
      } else {
        if c >= 0x80 { c := ExCvt(c); }
        if Illegal(c) { IllegalAt(p, si); return false, si; }
        if IsLower(c) { c := c - 0x20; }
        assert c == Upper(p[si]);
        AddChar(p, si, i, ni, f);
        fn[i] := c;
        assert fn[..NAME] == f[i := c];
        i := i + 1;
      }
      si := si + 1;
    }
    EndParse(p, si, i, ni, fn[..NAME]);
    ok := i != 0;
  }

  method SkipSeparators(p: seq<Byte>, from: nat) returns (next: nat)
    ensures next >= from && !IsSeparator(At(p, next))
    ensures forall i :: from <= i < next ==> IsSeparator(At(p, i))
  {
    next := from;
    while IsSeparator(At(p, next))
      invariant next >= from && forall i :: from <= i < next ==> IsSeparator(At(p, i))
      decreases |p| - next
    {
      next := next + 1;
    }
  }

  // ------------------------------------------------------------- parser steps

  lemma AddChar(p: seq<Byte>, si: nat, i: nat, ni: nat, f: seq<Byte>)
    requires Parsed(p, si, i, ni, f) && si < SegLen(p) && p[si] != DOT && i < ni && !Illegal(p[si])
    ensures Parsed(p, si + 1, i + 1, ni, f[i := Upper(p[si])])
  {
    if ni == BODY {
      AddToBody(p, si);
    } else {
      AddToExt(p, DotAt(Segment(p)), si);
    }
  }

  lemma AddToBody(p: seq<Byte>, si: nat)
    requires si < |p| && si < BODY
    ensures Padded(p[..si], [])[si := Upper(p[si])] == Padded(p[..si + 1], [])
  {
  }

  lemma AddToExt(p: seq<Byte>, d: nat, si: nat)
    requires d < si < |p| && d <= BODY && si - d - 1 < NAME - BODY
    ensures Padded(p[..d], p[d + 1..si])[BODY + si - d - 1 := Upper(p[si])] == Padded(p[..d], p[d + 1..si + 1])
  {
  }

  lemma EnterExt(p: seq<Byte>, si: nat, f: seq<Byte>)
    requires Parsed(p, si, si, BODY, f) && si < SegLen(p) && p[si] == DOT
    ensures Parsed(p, si + 1, BODY, NAME, f)
  {
    assert DotAt(Segment(p)) == si by { assert Segment(p)[si] == DOT; }
    assert p[si + 1..si + 1] == [];
  }

  lemma TooLong(p: seq<Byte>, si: nat, i: nat, ni: nat, f: seq<Byte>)
    requires Parsed(p, si, i, ni, f) && si < SegLen(p)
    requires (p[si] == DOT || i >= ni) && (ni == NAME || p[si] != DOT)
    ensures !Accepted(Segment(p))
  {
    var s := Segment(p);
    assert s[si] == p[si];
    var d := DotAt(s);
    if ni == NAME {
      assert ExtOf(s)[si - d - 1] == p[si];
    } else {
      assert forall j :: 0 <= j <= si ==> s[j] != DOT;
    }
  }

  lemma IllegalAt(p: seq<Byte>, si: nat)
    requires si < SegLen(p) && Illegal(p[si])
    ensures !Accepted(Segment(p))
  {
    assert Illegal(Segment(p)[si]);
  }

  lemma EndParse(p: seq<Byte>, si: nat, i: nat, ni: nat, f: seq<Byte>)
    requires Parsed(p, si, i, ni, f) && IsStop(At(p, si))
    ensures si == SegLen(p) && (Accepted(Segment(p)) <==> i > 0)
    ensures i > 0 ==> f == Padded(BodyOf(Segment(p)), ExtOf(Segment(p)))
  {
    var s := Segment(p);
    assert si == SegLen(p) && s == p[..si];
    if ni == BODY {
      assert DotAt(s) == |s|;
    } else {
      var d := DotAt(s);
      assert s[..d] == p[..d] && s[d + 1..] == p[d + 1..si];
    }
  }

  // ------------------------------------------------------------------ printing

  /** Without blanks, and with the escaped mark restored. */
  function Squeeze(f: seq<Byte>): seq<Byte>
  {
    if f == [] then []
    else Squeeze(f[..|f| - 1]) +
         var c := f[|f| - 1]; if c == BLANK then [] else [if c == RDDEM then DDEM else c]
  }

  /** The printed form of an 11-byte name. */
  function Printed(f: seq<Byte>): seq<Byte>
    requires |f| == NAME
  {
    Squeeze(f[..BODY]) + (if f[BODY] != BLANK then [DOT] else []) + Squeeze(f[BODY..])
  }

  lemma {:induction false} SqueezeAll(f: seq<Byte>, n: nat)
    requires n <= |f| && (forall k :: 0 <= k < n ==> f[k] != BLANK) && (forall k :: n <= k < |f| ==> f[k] == BLANK)
    ensures |Squeeze(f)| == n
    ensures forall k :: 0 <= k < n ==> Squeeze(f)[k] == if f[k] == RDDEM then DDEM else f[k]
  {
    if f != [] {
      SqueezeAll(f[..|f| - 1], if n < |f| then n else n - 1);
    }
  }

  /** get_fileinfo, the name part. */
  method GetName(f: seq<Byte>) returns (name: seq<Byte>)
    requires |f| == NAME
    ensures name == Printed(f)
  {
    var si := 0;
    name := [];
    while si < NAME
      invariant 0 <= si <= NAME
      invariant si <= BODY ==> name == Squeeze(f[..si])
      invariant si > BODY ==>
        name == Squeeze(f[..BODY]) + (if f[BODY] != BLANK then [DOT] else []) + Squeeze(f[BODY..si])
    {
      var c := f[si];
      if si < BODY { assert f[..si + 1][..si] == f[..si]; }
      else { assert f[BODY..si + 1][..si - BODY] == f[BODY..si]; }
      si := si + 1;
      if c != BLANK {
        if c == RDDEM { c := DDEM; }
        if si == BODY + 1 { name := name + [DOT]; }
        name := name + [c];
      }
    }
    assert f[BODY..NAME] == f[BODY..];
  }

  // ---------------------------------------------------------------- round trip

  lemma UpperLegal(c: Byte)
    requires !IsStop(c) && !Illegal(c) && c != DOT
    ensures var u := Upper(c); !IsStop(u) && !Illegal(u) && u != DOT && u != RDDEM && Upper(u) == u
  {
    UpperTwice(c);
  }

  /** What a stored name prints as. */
  function Shown(s: seq<Byte>): seq<Byte>
  {
    UpperAll(BodyOf(s)) + if ExtOf(s) == [] then [] else [DOT] + UpperAll(ExtOf(s))
  }

  function UpperAll(s: seq<Byte>): (r: seq<Byte>)
    ensures |r| == |s| && forall k :: 0 <= k < |s| ==> r[k] == Upper(s[k])
  {
    seq(|s|, k requires 0 <= k < |s| => Upper(s[k]))
  }

  /** A segment: no stops. */
  ghost predicate IsSegment(s: seq<Byte>) { forall i :: 0 <= i < |s| ==> !IsStop(s[i]) }

  lemma PartChars(s: seq<Byte>)
    requires Accepted(s) && IsSegment(s)
    ensures forall k :: 0 <= k < |BodyOf(s)| ==> Plain(BodyOf(s)[k])
    ensures forall k :: 0 <= k < |ExtOf(s)| ==> Plain(ExtOf(s)[k])
  {
    var d := DotAt(s);
    assert forall k :: 0 <= k < |ExtOf(s)| ==> ExtOf(s)[k] == s[d + 1 + k];
  }

  predicate Plain(c: Byte) { !IsStop(c) && !Illegal(c) && c != DOT }

  lemma SqueezeBody(f: seq<Byte>, body: seq<Byte>, ext: seq<Byte>)
    requires |body| <= BODY && |ext| <= NAME - BODY && f == Escape(Padded(body, ext))
    requires forall k :: 0 <= k < |body| ==> Plain(body[k])
    ensures Squeeze(f[..BODY]) == UpperAll(body)
  {
    forall k | 0 <= k < |body| ensures Plain(Upper(body[k])) && Upper(body[k]) != RDDEM { UpperLegal(body[k]); }
    SqueezeAll(f[..BODY], |body|);
  }

  lemma SqueezeExt(f: seq<Byte>, body: seq<Byte>, ext: seq<Byte>)
    requires |body| <= BODY && |ext| <= NAME - BODY && f == Escape(Padded(body, ext))
    requires forall k :: 0 <= k < |ext| ==> Plain(ext[k])
    ensures Squeeze(f[BODY..]) == UpperAll(ext) && (f[BODY] == BLANK <==> ext == [])
  {
    forall k | 0 <= k < |ext| ensures Plain(Upper(ext[k])) && Upper(ext[k]) != RDDEM { UpperLegal(ext[k]); }
    SqueezeAll(f[BODY..], |ext|);
  }

  /** Printing a stored name gives the upper-cased segment, without a trailing dot. */
  lemma PrintedField(s: seq<Byte>)
    requires Accepted(s) && IsSegment(s)
    ensures Printed(FieldOf(s)) == Shown(s)
  {
    PartChars(s);
    SqueezeBody(FieldOf(s), BodyOf(s), ExtOf(s));
    SqueezeExt(FieldOf(s), BodyOf(s), ExtOf(s));
  }

  /** The shown name splits into the same parts again. */
  lemma ShownParts(s: seq<Byte>)
    requires Accepted(s) && IsSegment(s)
    ensures BodyOf(Shown(s)) == UpperAll(BodyOf(s)) && ExtOf(Shown(s)) == UpperAll(ExtOf(s))
    ensures forall i :: 0 <= i < |Shown(s)| ==> !IsStop(Shown(s)[i]) && !Illegal(Shown(s)[i])
  {
    PartChars(s);
    var b, x, t := UpperAll(BodyOf(s)), UpperAll(ExtOf(s)), Shown(s);
    forall k | 0 <= k < |b| ensures Plain(b[k]) { UpperLegal(BodyOf(s)[k]); }
    forall k | 0 <= k < |x| ensures Plain(x[k]) { UpperLegal(ExtOf(s)[k]); }
    assert forall i :: 0 <= i < |b| ==> t[i] == b[i];
    assert ExtOf(s) != [] ==> t[|b|] == DOT && t[|b| + 1..] == x;
    assert DotAt(t) == |b|;
  }

  lemma PaddedAgain(body: seq<Byte>, ext: seq<Byte>)
    ensures Padded(UpperAll(body), UpperAll(ext)) == Padded(body, ext)
  {
    forall k | 0 <= k < |body| ensures Upper(Upper(body[k])) == Upper(body[k]) { UpperTwice(body[k]); }
    forall k | 0 <= k < |ext| ensures Upper(Upper(ext[k])) == Upper(ext[k]) { UpperTwice(ext[k]); }
  }

  lemma BlankField(s: seq<Byte>)
    requires Accepted(s) && IsSegment(s)
    ensures s == [DOT] <==> FieldOf(s) == seq(NAME, _ => BLANK)
  {
    PartChars(s);
    var f := FieldOf(s);
    if BodyOf(s) != [] { UpperLegal(BodyOf(s)[0]); assert f[0] != BLANK; }
    if ExtOf(s) != [] { UpperLegal(ExtOf(s)[0]); assert f[BODY] != BLANK; }
    if BodyOf(s) == [] && ExtOf(s) == [] { assert s == [DOT]; }
  }

  /** Print and parse again: the same 11 bytes for every accepted segment but ".", whose
      all-blank field prints as the empty string. */
  lemma RoundTrip(s: seq<Byte>)
    requires Accepted(s) && IsSegment(s)
    ensures var t := Printed(FieldOf(s));
            && (Accepted(Segment(t)) <==> s != [DOT])
            && (s != [DOT] ==> Segment(t) == t && FieldOf(t) == FieldOf(s))
    ensures s == [DOT] <==> FieldOf(s) == seq(NAME, _ => BLANK)
  {
    PartChars(s);
    BlankField(s);
    PrintedField(s);
    ShownParts(s);
    PaddedAgain(BodyOf(s), ExtOf(s));
    var t := Shown(s);
    assert SegLen(t) == |t| && Segment(t) == t;
    ShownAccepted(s);
  }

  lemma ShownAccepted(s: seq<Byte>)
    requires Accepted(s) && IsSegment(s)
    ensures Accepted(Shown(s)) <==> s != [DOT]
  {
    PartChars(s);
    ShownParts(s);
    var x := ExtOf(s);
    forall k | 0 <= k < |x| ensures Upper(x[k]) != DOT { UpperLegal(x[k]); }
    if BodyOf(s) == [] && x == [] { assert s == [DOT]; }
  }

  /** A stored name never looks like an end mark or a deleted entry. */
  lemma FieldIsProper(s: seq<Byte>)
    requires Accepted(s) && IsSegment(s)
    ensures ProperName(FieldOf(s))
  {
    PartChars(s);
    if BodyOf(s) != [] { UpperLegal(BodyOf(s)[0]); }
  }
}
