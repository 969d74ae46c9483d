/** pattern_match: the wildcard matcher of f_findfirst/f_findnext, against a declarative
    meaning of '*' and '?'. */
module Glob {
  import opened Bytes
  import opened CodePage

  const STAR: Byte := 0x2A
  const QM: Byte := 0x3F

  /** A C string without its terminator. */
  ghost predicate IsStr(s: seq<Byte>) { forall i :: 0 <= i < |s| ==> s[i] != 0 }

  predicate IsWild(c: Byte) { c == STAR || c == QM }

  /** The meaning of a pattern: '*' stands for any characters, '?' for exactly one, any
      other character for itself up to case. */
  ghost predicate Matches(p: seq<Byte>, s: seq<Byte>)
    decreases |p| + |s|
  {
    if p == [] then s == []
    else if p[0] == STAR then Matches(p[1..], s) || (s != [] && Matches(p, s[1..]))
    else s != [] && (p[0] == QM || Upper(p[0]) == Upper(s[0])) && Matches(p[1..], s[1..])
  }

  /** `p` matches behind `n` characters, or anywhere from there on if `star`. */
  ghost predicate MatchesFrom(p: seq<Byte>, s: seq<Byte>, n: nat, star: bool)
  {
    n <= |s| && if star then exists k :: MatchesAt(p, s, n, k) else Matches(p, s[n..])
  }

  ghost predicate MatchesAt(p: seq<Byte>, s: seq<Byte>, n: nat, k: int)
  {
    n <= k <= |s| && Matches(p, s[k..])
  }

  // --------------------------------------------------------- wildcard terms

  /** Length of the wildcard term at the start, its '?'s, and whether it has a '*'. */
  ghost function TermLen(p: seq<Byte>): (n: nat)
    ensures n <= |p| && (n > 0 <==> p != [] && IsWild(p[0]))
  {
    if p != [] && IsWild(p[0]) then 1 + TermLen(p[1..]) else 0
  }

  ghost function TermQs(p: seq<Byte>): nat
  {
    if p != [] && IsWild(p[0]) then (if p[0] == QM then 1 else 0) + TermQs(p[1..]) else 0
  }

  ghost predicate TermStar(p: seq<Byte>)
  {
    p != [] && IsWild(p[0]) && (p[0] == STAR || TermStar(p[1..]))
  }

  /** Number of wildcard terms in a pattern. */
  ghost function Terms(p: seq<Byte>): nat
  {
    if p == [] then 0
    else if IsWild(p[0]) then 1 + Terms(p[TermLen(p)..])
    else Terms(p[1..])
  }

  /** No term has more than 255 '?'s. */
  ghost predicate SmallTerms(p: seq<Byte>)
  {
    forall i :: 0 <= i <= |p| ==> TermQs(p[i..]) <= 255
  }

  lemma SmallSuffix(p: seq<Byte>, k: nat)
    requires SmallTerms(p) && k <= |p|
    ensures SmallTerms(p[k..])
  {
    forall i | 0 <= i <= |p| - k ensures TermQs(p[k..][i..]) <= 255 {
      assert p[k..][i..] == p[k + i..];
    }
  }

  lemma {:induction false} StarMatches(p: seq<Byte>, s: seq<Byte>)
    requires p != [] && p[0] == STAR
    ensures Matches(p, s) <==> exists k :: MatchesAt(p[1..], s, 0, k)
    decreases |s|
  {
    assert s[0..] == s;
    if Matches(p[1..], s) {
      assert MatchesAt(p[1..], s, 0, 0);
    } else if s != [] {
      StarMatches(p, s[1..]);
      if k :| MatchesAt(p[1..], s[1..], 0, k) {
        assert s[1..][k..] == s[k + 1..];
        assert MatchesAt(p[1..], s, 0, k + 1);
      }
      if k :| MatchesAt(p[1..], s, 0, k) {
        assert k != 0;
        assert s[k..] == s[1..][k - 1..];
        assert MatchesAt(p[1..], s[1..], 0, k - 1);
      }
    }
  }

  /** Dropping the first character of the name shifts the search. */
  lemma ShiftOne(p: seq<Byte>, s: seq<Byte>, n: nat, star: bool)
    requires s != []
    ensures MatchesFrom(p, s[1..], n, star) <==> MatchesFrom(p, s, n + 1, star)
  {
    if star {
      var m := n + 1;
      if m <= |s| {
        if k :| MatchesAt(p, s[1..], n, k) {
          assert s[1..][k..] == s[k + 1..];
          assert MatchesAt(p, s, m, k + 1);
        }
        if k :| MatchesAt(p, s, m, k) {
          assert s[k..] == s[1..][k - 1..];
          assert MatchesAt(p, s[1..], n, k - 1);
        }
      }
    } else if n + 1 <= |s| {
      assert s[1..][n..] == s[n + 1..];
    }
  }

  /** A wildcard term skips its '?'s, and searches on if it has a '*'. */
  lemma {:induction false} TermMatches(p: seq<Byte>, s: seq<Byte>)
    requires p != [] && IsWild(p[0])
    ensures Matches(p, s) <==> MatchesFrom(p[TermLen(p)..], s, TermQs(p), TermStar(p))
    decreases |p|, 0
  {
    var t := p[1..];
    var n := TermLen(t);
    assert p[TermLen(p)..] == t[n..];
    var wild := t != [] && IsWild(t[0]);
    if p[0] == QM {
      if s != [] {
        if wild { TermMatches(t, s[1..]); } else { assert t[0..] == t && s[1..][0..] == s[1..]; }
        ShiftOne(t[n..], s, TermQs(t), TermStar(t));
      }
    } else {
      StarMatches(p, s);
      StarTerm(t, s);
    }
  }

  /** A '*' in front of `t`: the search may start anywhere behind `t`'s '?'s. */
  lemma {:induction false} StarTerm(t: seq<Byte>, s: seq<Byte>)
    ensures (exists k :: MatchesAt(t, s, 0, k)) <==> MatchesFrom(t[TermLen(t)..], s, TermQs(t), true)
    decreases |t|, 1
  {
    var rest, q := t[TermLen(t)..], TermQs(t);
    if t == [] || !IsWild(t[0]) {
      assert rest == t;
    } else {
      if k :| MatchesAt(t, s, 0, k) {
        TermMatches(t, s[k..]);
        ShiftBy(rest, s, k, q, TermStar(t));
      }
      if MatchesFrom(rest, s, q, true) {
        var j :| MatchesAt(rest, s, q, j);
        var k := j - q;
        assert s[k..][q..] == s[j..];
        assert MatchesAt(rest, s[k..], q, q);
        TermMatches(t, s[k..]);
        assert MatchesAt(t, s, 0, k);
      }
    }
  }

  lemma ShiftBy(rest: seq<Byte>, s: seq<Byte>, k: nat, q: nat, star: bool)
    requires k <= |s| && MatchesFrom(rest, s[k..], q, star)
    ensures MatchesFrom(rest, s, q, true)
  {
    var j := q;
    if star { j :| MatchesAt(rest, s[k..], q, j); }
    assert s[k..][j..] == s[k + j..];
    assert MatchesAt(rest, s, q, k + j);
  }

  // ------------------------------------------------ the meaning the code gives

  /** How pattern_match summarises a wildcard term: a '?' adds one, a '*' sets bit 8. */
  function Skip(p: seq<Byte>, sk: nat): nat
  {
    if p != [] && IsWild(p[0])
    then Skip(p[1..], if p[0] == QM then sk + 1 else if sk / 0x100 % 2 == 1 then sk else sk + 0x100)
    else sk
  }

  /** The meaning of a pattern as the code reads it: a term skips the low byte of its summary,
      and searches on if there is anything above that byte. */
  ghost predicate CodeMatches(p: seq<Byte>, s: seq<Byte>)
    decreases |p|, 0
  {
    if p == [] then s == []
    else if IsWild(p[0]) then CodeFrom(p[TermLen(p)..], s, Skip(p, 0) % 0x100, Skip(p, 0) >= 0x100)
    else s != [] && Upper(p[0]) == Upper(s[0]) && CodeMatches(p[1..], s[1..])
  }

  ghost predicate CodeFrom(p: seq<Byte>, s: seq<Byte>, n: nat, star: bool)
    decreases |p|, 2
  {
    n <= |s| && if star then exists k :: CodeAt(p, s, n, k) else CodeMatches(p, s[n..])
  }

  ghost predicate CodeAt(p: seq<Byte>, s: seq<Byte>, n: nat, k: int)
    decreases |p|, 1
  {
    n <= k <= |s| && CodeMatches(p, s[k..])
  }

  /** With at most 255 '?'s in all, the low byte counts them and bit 8 tells the '*'. */
  lemma {:induction false} SkipIs(p: seq<Byte>, sk: nat)
    requires sk < 0x200 && sk % 0x100 + TermQs(p) <= 255
    ensures Skip(p, sk) < 0x200 && Skip(p, sk) % 0x100 == sk % 0x100 + TermQs(p)
    ensures Skip(p, sk) >= 0x100 <==> sk >= 0x100 || TermStar(p)
  {
    if p != [] && IsWild(p[0]) {
      SkipIs(p[1..], if p[0] == QM then sk + 1 else if sk / 0x100 % 2 == 1 then sk else sk + 0x100);
    }
  }

  /** With more, it counts them modulo 256, and the rest reads as a '*'. */
  lemma {:induction false} SkipWraps(p: seq<Byte>, sk: nat)
    ensures Skip(p, sk) % 0x100 == (sk + TermQs(p)) % 0x100 && Skip(p, sk) >= sk + TermQs(p)
  {
    if p != [] && IsWild(p[0]) {
      if p[0] == QM {
        SkipWraps(p[1..], sk + 1);
      } else {
        var sk' := if sk / 0x100 % 2 == 1 then sk else sk + 0x100;
        SkipWraps(p[1..], sk');
        SamePage(sk, TermQs(p[1..]));
      }
    }
  }

  lemma SamePage(sk: nat, q: nat)
    ensures (sk + 0x100 + q) % 0x100 == (sk + q) % 0x100
  {
  }

  /** With small terms the code reads the pattern as it is meant. */
  lemma {:induction false} SmallIsMeant(p: seq<Byte>, s: seq<Byte>)
    requires SmallTerms(p)
    ensures CodeMatches(p, s) <==> Matches(p, s)
    decreases |p|, 0
  {
    if p != [] {
      if IsWild(p[0]) {
        var rest := p[TermLen(p)..];
        assert p[0..] == p;
        SmallSuffix(p, TermLen(p));
        SkipIs(p, 0);
        TermMatches(p, s);
        FromAgrees(rest, s, TermQs(p), TermStar(p));
      } else if s != [] {
        SmallSuffix(p, 1);
        SmallIsMeant(p[1..], s[1..]);
      }
    }
  }

  lemma {:induction false} FromAgrees(rest: seq<Byte>, s: seq<Byte>, n: nat, star: bool)
    requires SmallTerms(rest)
    ensures CodeFrom(rest, s, n, star) <==> MatchesFrom(rest, s, n, star)
    decreases |rest|, 1
  {
    forall k | n <= k <= |s| ensures CodeAt(rest, s, n, k) <==> MatchesAt(rest, s, n, k) {
      SmallIsMeant(rest, s[k..]);
    }
    if n <= |s| { SmallIsMeant(rest, s[n..]); }
  }

  // -------------------------------------------------- what oversized terms do

  /** Characters a name must have at least to match. */
  ghost function Needs(p: seq<Byte>): nat
  {
    if p == [] then 0 else Needs(p[1..]) + if p[0] == STAR then 0 else 1
  }

  lemma {:induction false} MatchNeeds(p: seq<Byte>, s: seq<Byte>)
    requires Matches(p, s)
    ensures |s| >= Needs(p)
    decreases |p| + |s|
  {
    if p != [] {
      if p[0] == STAR {
        if Matches(p[1..], s) { MatchNeeds(p[1..], s); } else { MatchNeeds(p, s[1..]); }
      } else {
        MatchNeeds(p[1..], s[1..]);
      }
    }
  }

  /** The shortest name the code accepts: the literals, and for every term as many characters
      as it skips. */
  ghost function Shortest(p: seq<Byte>): seq<Byte>
    decreases |p|
  {
    if p == [] then []
    else if IsWild(p[0]) then Letters(Skip(p, 0) % 0x100) + Shortest(p[TermLen(p)..])
    else [p[0]] + Shortest(p[1..])
  }

  function Letters(n: nat): (s: seq<Byte>)
    ensures |s| == n && forall i :: 0 <= i < n ==> s[i] == 0x41
  {
    seq(n, i => 0x41)
  }

  lemma {:induction false} ShortestIsStr(p: seq<Byte>)
    requires IsStr(p)
    ensures IsStr(Shortest(p))
    decreases |p|
  {
    if p != [] { ShortestIsStr(if IsWild(p[0]) then p[TermLen(p)..] else p[1..]); }
  }

  lemma {:induction false} ShortestAccepted(p: seq<Byte>)
    ensures CodeMatches(p, Shortest(p))
    decreases |p|
  {
    if p != [] {
      var s := Shortest(p);
      if IsWild(p[0]) {
        var n, rest := Skip(p, 0) % 0x100, p[TermLen(p)..];
        ShortestAccepted(rest);
        assert s[n..] == Shortest(rest);
        assert CodeAt(rest, s, n, n);
      } else {
        ShortestAccepted(p[1..]);
        assert s[1..] == Shortest(p[1..]);
      }
    }
  }

  /** A term of `q` '?'s needs `q` characters, of which the code skips `q % 256`. */
  lemma {:induction false} TermNeeds(p: seq<Byte>)
    ensures Needs(p) == TermQs(p) + Needs(p[TermLen(p)..])
  {
    if p != [] && IsWild(p[0]) {
      TermNeeds(p[1..]);
      assert p[TermLen(p)..] == p[1..][TermLen(p[1..])..];
    } else {
      assert p[0..] == p;
    }
  }

  /** It is too short for a pattern with an oversized term. */
  lemma {:induction false} ShortestIsShort(p: seq<Byte>)
    ensures |Shortest(p)| <= Needs(p) && (!SmallTerms(p) ==> |Shortest(p)| < Needs(p))
    decreases |p|
  {
    if p == [] {
      assert TermQs(p[0..]) == 0;
    } else {
      var n := if IsWild(p[0]) then TermLen(p) else 1;
      ShortestIsShort(p[n..]);
      if IsWild(p[0]) { TermSkipped(p); }
      if !SmallTerms(p) { OversizedSplits(p, n); }
    }
  }

  lemma TermSkipped(p: seq<Byte>)
    requires p != [] && IsWild(p[0])
    ensures var rest := p[TermLen(p)..];
            && |Shortest(p)| - |Shortest(rest)| <= Needs(p) - Needs(rest)
            && (TermQs(p) > 255 ==> |Shortest(p)| - |Shortest(rest)| < Needs(p) - Needs(rest))
  {
    TermNeeds(p);
    SkipWraps(p, 0);
    var k := Skip(p, 0) % 0x100;
    assert |Shortest(p)| == k + |Shortest(p[TermLen(p)..])|;
    LowByte(TermQs(p));
  }

  lemma LowByte(q: nat)
    ensures q % 0x100 <= q && (q > 255 ==> q % 0x100 < q)
  {
  }

  /** An oversized term is the first one or behind it. */
  lemma OversizedSplits(p: seq<Byte>, n: nat)
    requires p != [] && !SmallTerms(p) && n == if IsWild(p[0]) then TermLen(p) else 1
    ensures !SmallTerms(p[n..]) || (IsWild(p[0]) && TermQs(p) > 255)
  {
    var i :| 0 <= i <= |p| && TermQs(p[i..]) > 255;
    assert p[0..] == p;
    if i >= n {
      assert p[n..][i - n..] == p[i..];
    } else if IsWild(p[0]) {
      InnerQs(p, i);
    }
  }

  lemma {:induction false} InnerQs(p: seq<Byte>, i: nat)
    requires i <= TermLen(p)
    ensures TermQs(p[i..]) <= TermQs(p)
  {
    if i > 0 {
      InnerQs(p[1..], i - 1);
      assert p[1..][i - 1..] == p[i..];
    } else {
      assert p[0..] == p;
    }
  }

  /** The code and the meaning of a pattern agree on all names exactly if no term has more
      than 255 '?'s. */
  lemma MeantExactly(p: seq<Byte>)
    requires IsStr(p)
    ensures (forall s :: IsStr(s) ==> (CodeMatches(p, s) <==> Matches(p, s))) <==> SmallTerms(p)
  {
    if SmallTerms(p) {
      forall s | IsStr(s) ensures CodeMatches(p, s) <==> Matches(p, s) { SmallIsMeant(p, s); }
    } else {
      var s := Shortest(p);
      ShortestIsStr(p);
      ShortestAccepted(p);
      ShortestIsShort(p);
      if Matches(p, s) { MatchNeeds(p, s); }
      assert IsStr(s) && CodeMatches(p, s) && !Matches(p, s);
    }
  }

  // ----------------------------------------------------------- literal prefixes

  /** The first `m` characters of the pattern are no wildcards. */
  ghost predicate Literal(p: seq<Byte>, m: nat)
  {
    m <= |p| && forall i :: 0 <= i < m ==> !IsWild(p[i])
  }

  lemma {:induction false} LiteralNeeds(p: seq<Byte>, m: nat, s: seq<Byte>)
    requires Literal(p, m) && CodeMatches(p, s)
    ensures |s| >= m
  {
    if m > 0 { LiteralNeeds(p[1..], m - 1, s[1..]); }
  }

  /** A pattern with a literal prefix as long as what is left of the name, or longer,
      cannot match further on. */
  lemma NoneLater(p: seq<Byte>, m: nat, s: seq<Byte>, i: nat)
    requires Literal(p, m) && i <= |s| && m >= |s| - i
    requires m == |s| - i ==> !CodeMatches(p, s[i..])
    ensures forall k :: !CodeAt(p, s, i, k)
  {
    forall k ensures !CodeAt(p, s, i, k) {
      if CodeAt(p, s, i, k) { LiteralNeeds(p, m, s[k..]); }
    }
  }

  lemma {:induction false} TermsOfLiteral(p: seq<Byte>, m: nat)
    requires Literal(p, m)
    ensures Terms(p[m..]) == Terms(p)
  {
    if m > 0 {
      TermsOfLiteral(p[1..], m - 1);
      assert p[1..][m - 1..] == p[m..];
    } else {
      assert p[0..] == p;
    }
  }

  // ---------------------------------------------------------------- the matcher

  /** Analyses the wildcard term at `pat[start..]`: the position behind it, and its skip
      count. */
  method AnalyseTerm(pat: seq<Byte>, start: nat) returns (j: nat, sk: nat)
    requires start < |pat| && IsWild(pat[start])
    ensures j == start + TermLen(pat[start..]) && start < j <= |pat|
    ensures sk == Skip(pat[start..], 0)
  {
    j, sk := start, 0;
    while IsWild(At(pat, j))
      invariant start <= j <= |pat|
      invariant TermLen(pat[start..]) == j - start + TermLen(pat[j..])
      invariant Skip(pat[start..], 0) == Skip(pat[j..], sk)
      decreases |pat| - j
    {
      assert pat[j..][1..] == pat[j + 1..];
      if pat[j] == QM {
        sk := sk + 1;
      } else {
        sk := if sk / 0x100 % 2 == 1 then sk else sk + 0x100;
      }
      j := j + 1;
    }
  }

  /** One attempt at the name position `i`: the inner loop of pattern_match.  `nchr` is the
      name character it stopped at; if that is the end of the name, trying further on is
      pointless. */
  method Attempt(pat: seq<Byte>, nam: seq<Byte>, i: nat, recur: nat) returns (ok: bool, nchr: Byte)
    requires IsStr(pat) && IsStr(nam) && i <= |nam|
    ensures ok <==> Terms(pat) <= recur && CodeMatches(pat, nam[i..])
    ensures Terms(pat) <= recur && !ok && nchr == 0 ==> forall k :: !CodeAt(pat, nam, i, k)
    ensures !ok && i == |nam| ==> nchr == 0
    decreases recur, 1
  {
    var pp, np := 0, i;
    assert pat[0..] == pat;
    ok, nchr := false, 0;
    while true
      invariant pp <= |pat| && np == i + pp <= |nam| && Literal(pat, pp)
      invariant CodeMatches(pat, nam[i..]) <==> CodeMatches(pat[pp..], nam[np..])
      decreases |pat| - pp
    {
      if IsWild(At(pat, pp)) {
        ok, nchr := AttemptTerm(pat, nam, pp, np, recur);
        if Terms(pat) <= recur && !ok && nchr == 0 { NoneLater(pat, pp, nam, i); }
        return;
      }
      var pchr := Upper(At(pat, pp));
      nchr := Upper(At(nam, np));
      if pchr != nchr {
        if nchr == 0 {
          assert Literal(pat, pp + 1);
          NoneLater(pat, pp + 1, nam, i);
        }
        return;
      }
      if pchr == 0 {
        TermsOfLiteral(pat, pp);
        ok := true;
        return;
      }
      assert pat[pp..][1..] == pat[pp + 1..] && nam[np..][1..] == nam[np + 1..];
      pp, np := pp + 1, np + 1;
    }
  }

  /** The wildcard term at `pp` is one of the pattern's. */
  lemma TermStep(pat: seq<Byte>, pp: nat, j: nat)
    requires pp < |pat| && IsWild(pat[pp]) && Literal(pat, pp) && j == pp + TermLen(pat[pp..])
    ensures Terms(pat) == 1 + Terms(pat[j..])
  {
    TermsOfLiteral(pat, pp);
    assert pat[pp..][TermLen(pat[pp..])..] == pat[j..];
  }

  /** The branch of the inner loop at a wildcard term; it gives up (`nchr == 0`) when no
      recursion is left. */
  method AttemptTerm(pat: seq<Byte>, nam: seq<Byte>, pp: nat, np: nat, recur: nat) returns (ok: bool, nchr: Byte)
    requires IsStr(pat) && IsStr(nam) && np <= |nam|
    requires pp < |pat| && IsWild(pat[pp]) && Literal(pat, pp)
    ensures ok <==> Terms(pat) <= recur && CodeMatches(pat[pp..], nam[np..])
    ensures nchr == At(nam, np) || nchr == 0
    ensures Terms(pat) <= recur ==> nchr == At(nam, np)
    decreases recur, 0
  {
    ok, nchr := false, 0;
    ghost var t := pat[pp..];
    TermStep(pat, pp, pp + TermLen(t));
    if recur == 0 { return; }
    var j, sk := AnalyseTerm(pat, pp);
    assert t[TermLen(t)..] == pat[j..];
    ok := PatternMatch(pat[j..], nam[np..], sk, recur - 1);
    nchr := At(nam, np);
  }

  /** pattern_match, on all strings: it accepts exactly what the code's reading of the pattern
      accepts behind `skip0`, if there is recursion left for every wildcard term. */
  method PatternMatch(pat: seq<Byte>, nam: seq<Byte>, skip0: nat, recur: nat) returns (r: bool)
    requires IsStr(pat) && IsStr(nam)
    ensures r <==> Terms(pat) <= recur && CodeFrom(pat, nam, skip0 % 0x100, skip0 >= 0x100)
    decreases recur, 2
  {
    var skip, i := skip0, 0;
    while skip % 0x100 != 0
      invariant 0 <= i <= |nam| && i + skip % 0x100 == skip0 % 0x100 && 0 <= skip && skip / 0x100 == skip0 / 0x100
      decreases skip
    {
      if Upper(At(nam, i)) == 0 { return false; }
      i := i + 1;
      skip := skip - 1;
    }
    ghost var n := i;
    if At(pat, 0) == 0 && skip != 0 {
      assert nam[|nam|..] == [];
      assert CodeAt(pat, nam, n, |nam|);
      return true;
    }
    while true
      invariant n <= i <= |nam|
      invariant Terms(pat) <= recur && skip != 0 ==> forall k :: k < i ==> !CodeAt(pat, nam, n, k)
      invariant skip == 0 ==> i == n
      decreases |nam| - i
    {
      var ok, nchr := Attempt(pat, nam, i, recur);
      if ok {
        assert CodeAt(pat, nam, n, i);
        return true;
      }
      if skip == 0 { return false; }
      if nchr == 0 {
        if Terms(pat) <= recur {
          forall k ensures !CodeAt(pat, nam, n, k) {
            if k >= i { assert !CodeAt(pat, nam, i, k); }
          }
        }
        return false;
      }
      i := i + 1;
    }
  }

  const FIND_RECURS := 4

  /** The call f_findnext makes: at most four wildcard terms, read as the code reads them,
      which is as they are meant if none has more than 255 '?'s. */
  method NameMatches(pat: seq<Byte>, nam: seq<Byte>) returns (r: bool)
    requires IsStr(pat) && IsStr(nam)
    ensures r <==> Terms(pat) <= FIND_RECURS && CodeMatches(pat, nam)
    ensures SmallTerms(pat) ==> (r <==> Terms(pat) <= FIND_RECURS && Matches(pat, nam))
  {
    assert nam[0..] == nam;
    if SmallTerms(pat) { SmallIsMeant(pat, nam); }
    r := PatternMatch(pat, nam, 0, FIND_RECURS);
  }

  function Qs(n: nat): (p: seq<Byte>)
    ensures |p| == n && forall i :: 0 <= i < n ==> p[i] == QM
  {
    seq(n, i => QM)
  }

  /** 256 '?'s in a row read as a '*': the empty name is accepted, which the pattern does
      not match. */
  method TooManyQs() returns (r: bool)
    ensures r && !Matches(Qs(256), [])
  {
    QsRead(256);
    r := NameMatches(Qs(256), []);
  }

  lemma QsRead(n: nat)
    requires n > 0 && n % 0x100 == 0
    ensures Terms(Qs(n)) == 1 && CodeMatches(Qs(n), []) && !Matches(Qs(n), [])
  {
    var p := Qs(n);
    QsIsTerm(n);
    SkipWraps(p, 0);
    assert p[n..] == [];
    assert CodeAt([], [], 0, 0);
  }

  lemma {:induction false} QsIsTerm(n: nat)
    ensures TermLen(Qs(n)) == TermQs(Qs(n)) == n
  {
    if n > 0 {
      assert Qs(n)[1..] == Qs(n - 1);
      QsIsTerm(n - 1);
    }
  }
}
