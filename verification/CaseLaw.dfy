/** What "upper-cased" means, character by character, and what follows from it: names and patterns
    that differ in case only are the same name and the same pattern. */
module CaseLaw {
  import opened Bytes
  import opened CodePage
  import opened DirTable
  import opened ShortName
  import opened Glob

  /** The letter that a character is a spelling of, by its capital: an ASCII letter and its
      capital, and in code page 437 the letters that share one. */
  ghost function Letter(c: Byte): Byte
  {
    if c in {0x41, 0x61, 0x83, 0x85, 0xA0} then 0x41              // A a, with circumflex, grave, acute
    else if c in {0x45, 0x65, 0x82, 0x88, 0x89, 0x8A} then 0x45   // E e, with acute, circumflex, diaeresis, grave
    else if c in {0x49, 0x69, 0x8B, 0x8C, 0x8D, 0xA1} then 0x49   // I i, with diaeresis, circumflex, grave, acute
    else if c in {0x4F, 0x6F, 0x93, 0x95, 0xA2} then 0x4F         // O o, with circumflex, grave, acute
    else if c in {0x55, 0x75, 0x96, 0x97, 0xA3} then 0x55         // U u, with circumflex, grave, acute
    else if c in {0x59, 0x79, 0x98} then 0x59                     // Y y, with diaeresis
    else if c in {0x80, 0x87} then 0x80                           // C with cedilla
    else if c in {0x8E, 0x84} then 0x8E                           // A with diaeresis
    else if c in {0x8F, 0x86} then 0x8F                           // A with ring
    else if c in {0x92, 0x91} then 0x92                           // ligature AE
    else if c in {0x99, 0x94} then 0x99                           // O with diaeresis
    else if c in {0x9A, 0x81} then 0x9A                           // U with diaeresis
    else if c in {0xA5, 0xA4} then 0xA5                           // N with tilde
    else if 0x61 <= c <= 0x7A then c - 0x20
    else c
  }

  ghost predicate SameLetter(c: Byte, d: Byte) { Letter(c) == Letter(d) }

  lemma LetterIs(c: Byte)
    ensures Upper(c) == Letter(c)
  {
  }

  /** Two characters fold to one exactly if they are spellings of one letter. */
  lemma FoldExactly(c: Byte, d: Byte)
    ensures Upper(c) == Upper(d) <==> SameLetter(c, d)
  {
    LetterIs(c);
    LetterIs(d);
  }

  /** ASCII letters that differ in case, and nothing else below 0x80, are spellings of one letter. */
  lemma AsciiExactly(c: Byte, d: Byte)
    requires c < d < 0x80
    ensures SameLetter(c, d) <==> 0x41 <= c <= 0x5A && d == c + 0x20
  {
  }

  /** The capitals: lower-case ASCII letters lose 0x20, all other characters below 0x80 stay, and
      what comes out is not a small letter. */
  lemma CapitalIs(c: Byte)
    ensures 0x61 <= c <= 0x7A ==> Upper(c) as int == c - 0x20
    ensures c < 0x80 && !(0x61 <= c <= 0x7A) ==> Upper(c) == c
    ensures !(0x61 <= Upper(c) <= 0x7A) && SameLetter(c, Upper(c))
    ensures Upper(c) !in [0x81, 0x82, 0x83, 0x84, 0x85, 0x86, 0x87, 0x88, 0x89, 0x8A, 0x8B, 0x8C, 0x8D,
                          0x91, 0x93, 0x94, 0x95, 0x96, 0x97, 0x98, 0xA0, 0xA1, 0xA2, 0xA3, 0xA4]
  {
  }

  /** Strings that differ in case only. */
  ghost predicate SameSpelling(s: seq<Byte>, s': seq<Byte>)
  {
    |s| == |s'| && forall i :: 0 <= i < |s| ==> SameLetter(s[i], s'[i])
  }

  // --------------------------------------------------------------- short names

  lemma NotALetter(c: Byte, d: Byte)
    requires SameLetter(c, d)
    ensures (c == DOT <==> d == DOT) && (Illegal(c) <==> Illegal(d))
  {
    FoldExactly(c, d);
    Fixed(c);
    Fixed(d);
  }

  /** Dots and illegal characters are their own capitals, and of nothing else. */
  lemma Fixed(c: Byte)
    ensures (Upper(c) == DOT <==> c == DOT) && (Illegal(Upper(c)) <==> Illegal(c))
  {
  }

  lemma {:induction false} SameDot(s: seq<Byte>, s': seq<Byte>)
    requires SameSpelling(s, s')
    ensures DotAt(s) == DotAt(s')
  {
    if s != [] {
      NotALetter(s[0], s'[0]);
      if s[0] != DOT { SameDot(s[1..], s'[1..]); }
    }
  }

  /** create_name does not see the difference. */
  lemma SameField(s: seq<Byte>, s': seq<Byte>)
    requires SameSpelling(s, s')
    ensures (Accepted(s) <==> Accepted(s')) && FieldOf(s) == FieldOf(s')
  {
    SameDot(s, s');
    forall i | 0 <= i < |s| ensures (s[i] == DOT <==> s'[i] == DOT) && (Illegal(s[i]) <==> Illegal(s'[i])) {
      NotALetter(s[i], s'[i]);
    }
    var b, b', e, e' := BodyOf(s), BodyOf(s'), ExtOf(s), ExtOf(s');
    forall i | 0 <= i < |b| ensures Upper(b[i]) == Upper(b'[i]) { FoldExactly(b[i], b'[i]); }
    forall i | 0 <= i < |e| ensures Upper(e[i]) == Upper(e'[i]) && (e[i] == DOT <==> e'[i] == DOT) {
      FoldExactly(e[i], e'[i]);
      NotALetter(e[i], e'[i]);
    }
    assert Padded(b, e) == Padded(b', e');
  }

  /** ... and sees every other: the fields of two accepted names are the same only then. */
  lemma FieldTells(s: seq<Byte>, s': seq<Byte>)
    requires SameShape(s, s') && FieldOf(s) == FieldOf(s')
    requires forall i :: 0 <= i < |s| ==> s[i] != 0x05 && s'[i] != 0x05
    ensures SameSpelling(s, s')
  {
    var n := DotAt(s);
    var f, f' := Padded(BodyOf(s), ExtOf(s)), Padded(BodyOf(s'), ExtOf(s'));
    Unescaped(s, s', f, f');
    forall i | 0 <= i < |s| ensures SameLetter(s[i], s'[i]) {
      if i < n {
        assert f[i] == Upper(s[i]) && f'[i] == Upper(s'[i]);
      } else if i > n {
        assert f[BODY + (i - n - 1)] == Upper(s[i]) && f'[BODY + (i - n - 1)] == Upper(s'[i]);
      }
      FoldExactly(s[i], s'[i]);
    }
  }

  /** The dot is in the same place, and so is the end. */
  ghost predicate SameShape(s: seq<Byte>, s': seq<Byte>)
  {
    |s| == |s'| && DotAt(s) == DotAt(s') <= BODY && |ExtOf(s)| <= NAME - BODY
  }

  lemma Unescaped(s: seq<Byte>, s': seq<Byte>, f: seq<Byte>, f': seq<Byte>)
    requires SameShape(s, s') && f == Padded(BodyOf(s), ExtOf(s)) && f' == Padded(BodyOf(s'), ExtOf(s'))
    requires forall i :: 0 <= i < |s| ==> s[i] != 0x05 && s'[i] != 0x05
    requires Escape(f) == Escape(f')
    ensures f == f'
  {
    if |BodyOf(s)| > 0 {
      CapitalIs(s[0]);
      CapitalIs(s'[0]);
      assert f[0] == Upper(s[0]) && f'[0] == Upper(s'[0]);
    }
    assert forall k :: 0 < k < NAME ==> f[k] == Escape(f)[k] && f'[k] == Escape(f')[k];
  }

  /** The bytes stored: capitals for small letters, everything else below 0x80 as it is, and no
      small letter anywhere. */
  lemma FieldBytes(s: seq<Byte>, k: nat)
    requires k < 11
    ensures var c := if k < 8 then At(BodyOf(s), k) else At(ExtOf(s), k - 8);
            && (0x61 <= c <= 0x7A ==> FieldOf(s)[k] as int == c - 0x20)
            && (0 < c < 0x80 && !(0x61 <= c <= 0x7A) ==> FieldOf(s)[k] == c)
    ensures (if k < 8 then k >= |BodyOf(s)| else k - 8 >= |ExtOf(s)|) ==> FieldOf(s)[k] == 0x20
    ensures |BodyOf(s)| > 0 && s[0] == 0xE5 ==> FieldOf(s)[0] == 0x05
    ensures !(0x61 <= FieldOf(s)[k] <= 0x7A)
  {
    var b := if k < 8 then BodyOf(s) else ExtOf(s);
    var j := if k < 8 then k else k - 8;
    if j < |b| { CapitalIs(b[j]); }
  }

  /** The characters that no short name may hold, besides those that end it. */
  const FORBIDDEN := "*+,:;<=>[]|\"?\U{7F}"

  ghost predicate Forbidden(c: Byte) { exists i :: 0 <= i < |FORBIDDEN| && FORBIDDEN[i] as int == c }

  lemma ForbiddenIs(c: Byte)
    ensures Forbidden(c) <==> Illegal(c)
  {
    var f := [0x2A, 0x2B, 0x2C, 0x3A, 0x3B, 0x3C, 0x3D, 0x3E, 0x5B, 0x5D, 0x7C, 0x22, 0x3F, 0x7F];
    assert |FORBIDDEN| == 14 && forall i :: 0 <= i < 14 ==> FORBIDDEN[i] as int == f[i];
    if c in f {
      var i :| 0 <= i < |f| && f[i] == c;
      assert FORBIDDEN[i] as int == c;
    }
  }

  /** Up to 8 characters, and up to 3 behind a dot; neither dots nor forbidden ones among them. */
  ghost predicate IsName(s: seq<Byte>, body: seq<Byte>, ext: seq<Byte>)
  {
    && s != [] && (s == body + [0x2E] + ext || (s == body && ext == []))
    && |body| <= 8 && |ext| <= 3
    && (forall i :: 0 <= i < |body| ==> body[i] != 0x2E && !Forbidden(body[i]))
    && (forall i :: 0 <= i < |ext| ==> ext[i] != 0x2E && !Forbidden(ext[i]))
  }

  /** create_name accepts exactly such names, and takes them apart at the dot. */
  lemma AcceptedExactly(s: seq<Byte>)
    ensures Accepted(s) <==> exists b, e :: IsName(s, b, e)
    ensures Accepted(s) ==> IsName(s, BodyOf(s), ExtOf(s))
    ensures forall b, e :: IsName(s, b, e) ==> b == BodyOf(s) && e == ExtOf(s)
  {
    if Accepted(s) { AcceptedIsName(s); }
    forall b, e | IsName(s, b, e) ensures Accepted(s) && b == BodyOf(s) && e == ExtOf(s) {
      NameIsAccepted(s, b, e);
    }
  }

  lemma AcceptedIsName(s: seq<Byte>)
    requires Accepted(s)
    ensures IsName(s, BodyOf(s), ExtOf(s))
  {
    forall i | 0 <= i < |s| ensures !Forbidden(s[i]) { ForbiddenIs(s[i]); }
    var n := DotAt(s);
    if n < |s| { assert s == s[..n] + [s[n]] + s[n + 1..]; }
  }

  lemma NameIsAccepted(s: seq<Byte>, b: seq<Byte>, e: seq<Byte>)
    requires IsName(s, b, e)
    ensures Accepted(s) && b == BodyOf(s) && e == ExtOf(s)
  {
    forall i | 0 <= i < |s| ensures !Illegal(s[i]) {
      ForbiddenIs(s[i]);
      if i < |b| { assert s[i] == b[i]; }
      else if i > |b| { assert s[i] == e[i - |b| - 1]; }
      else { assert s[i] == 0x2E; }
    }
    assert forall i :: 0 <= i < |b| ==> s[i] == b[i] != 0x2E;
    assert |b| < |s| ==> s[|b|] == 0x2E;
    assert DotAt(s) == |b|;
  }

  // ------------------------------------------------------------------ patterns

  lemma SameWild(c: Byte, d: Byte)
    requires SameLetter(c, d)
    ensures (c == STAR <==> d == STAR) && (c == QM <==> d == QM)
  {
    FoldExactly(c, d);
  }

  /** A literal matches exactly the spellings of its letter. */
  lemma LiteralExactly(c: Byte, d: Byte)
    requires !IsWild(c)
    ensures Glob.Matches([c], [d]) <==> SameLetter(c, d)
  {
    FoldExactly(c, d);
    assert [c][1..] == [] && [d][1..] == [];
  }

  lemma FoldSame(c: Byte, c': Byte, d: Byte, d': Byte)
    requires SameLetter(c, c') && SameLetter(d, d')
    ensures Upper(c) == Upper(d) <==> Upper(c') == Upper(d')
  {
    FoldExactly(c, c');
    FoldExactly(d, d');
  }

  /** The meaning of a pattern does not depend on case. */
  lemma {:induction false} CaseBlind(p: seq<Byte>, p': seq<Byte>, s: seq<Byte>, s': seq<Byte>)
    requires SameSpelling(p, p') && SameSpelling(s, s')
    ensures Glob.Matches(p, s) <==> Glob.Matches(p', s')
    decreases |p| + |s|
  {
    if p != [] {
      SameWild(p[0], p'[0]);
      if p[0] == STAR {
        CaseBlind(p[1..], p'[1..], s, s');
        if s != [] { CaseBlind(p, p', s[1..], s'[1..]); }
      } else if s != [] {
        FoldSame(p[0], p'[0], s[0], s'[0]);
        CaseBlind(p[1..], p'[1..], s[1..], s'[1..]);
      }
    }
  }

  lemma {:induction false} SameTerm(p: seq<Byte>, p': seq<Byte>, sk: nat)
    requires SameSpelling(p, p')
    ensures TermLen(p) == TermLen(p') && Skip(p, sk) == Skip(p', sk)
  {
    if p != [] {
      SameWild(p[0], p'[0]);
      if IsWild(p[0]) {
        SameTerm(p[1..], p'[1..], if p[0] == QM then sk + 1 else if sk / 0x100 % 2 == 1 then sk else sk + 0x100);
      }
    }
  }

  lemma {:induction false} SameTerms(p: seq<Byte>, p': seq<Byte>)
    requires SameSpelling(p, p')
    ensures Terms(p) == Terms(p')
    decreases |p|
  {
    if p != [] {
      SameWild(p[0], p'[0]);
      SameTerm(p, p', 0);
      var n := if IsWild(p[0]) then TermLen(p) else 1;
      SameTerms(p[n..], p'[n..]);
    }
  }

  /** ... and neither does the answer of the matcher, for any pattern. */
  lemma {:induction false} CodeBlind(p: seq<Byte>, p': seq<Byte>, s: seq<Byte>, s': seq<Byte>)
    requires SameSpelling(p, p') && SameSpelling(s, s')
    ensures Terms(p) == Terms(p') && (CodeMatches(p, s) <==> CodeMatches(p', s'))
    decreases |p|
  {
    SameTerms(p, p');
    if p != [] {
      SameWild(p[0], p'[0]);
      if IsWild(p[0]) {
        SameTerm(p, p', 0);
        var n := TermLen(p);
        forall k | 0 <= k <= |s| ensures CodeMatches(p[n..], s[k..]) <==> CodeMatches(p'[n..], s'[k..]) {
          CodeBlind(p[n..], p'[n..], s[k..], s'[k..]);
        }
        SameFrom(p[n..], p'[n..], s, s', Skip(p, 0) % 0x100, Skip(p, 0) >= 0x100);
      } else if s != [] {
        FoldSame(p[0], p'[0], s[0], s'[0]);
        CodeBlind(p[1..], p'[1..], s[1..], s'[1..]);
      }
    }
  }

  lemma SameFrom(p: seq<Byte>, p': seq<Byte>, s: seq<Byte>, s': seq<Byte>, n: nat, star: bool)
    requires |s| == |s'|
    requires forall k :: 0 <= k <= |s| ==> (CodeMatches(p, s[k..]) <==> CodeMatches(p', s'[k..]))
    ensures CodeFrom(p, s, n, star) <==> CodeFrom(p', s', n, star)
  {
    if star {
      if k :| CodeAt(p, s, n, k) { assert CodeAt(p', s', n, k); }
      if k :| CodeAt(p', s', n, k) { assert CodeMatches(p, s[k..]) && CodeAt(p, s, n, k); }
    }
  }
}
