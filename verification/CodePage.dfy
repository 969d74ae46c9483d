/** Upper-casing of OEM characters in code page 437 (SBCS). */
module CodePage {
  import opened Bytes

  /** The extended half of the up-case table, indexed by the character itself. */
  function ExCvt(c: Byte): (u: Byte)
    requires c >= 0x80
    ensures u >= 0x80 || 0x41 <= u <= 0x5A
  {
    if c == 0x81 then 0x9A
    else if c == 0x82 || 0x88 <= c <= 0x8A then 0x45
    else if c == 0x83 || c == 0x85 || c == 0xA0 then 0x41
    else if c == 0x84 then 0x8E
    else if c == 0x86 then 0x8F
    else if c == 0x87 then 0x80
    else if 0x8B <= c <= 0x8D || c == 0xA1 then 0x49
    else if c == 0x91 then 0x92
    else if c == 0x93 || c == 0x95 || c == 0xA2 then 0x4F
    else if c == 0x94 then 0x99
    else if c == 0x96 || c == 0x97 || c == 0xA3 then 0x55
    else if c == 0x98 then 0x59
    else if c == 0xA4 then 0xA5
    else c
  }

  /** A C string, without its terminator, read at `i`; 0 at its end. */
  function At(s: seq<Byte>, i: nat): Byte { if i < |s| then s[i] else 0 }

  predicate IsLower(c: Byte) { 0x61 <= c <= 0x7A }

  /** Upper case of any OEM character. */
  function Upper(c: Byte): (u: Byte)
    ensures u == 0 <==> c == 0
  {
    if IsLower(c) then c - 0x20 else if c >= 0x80 then ExCvt(c) else c
  }

  lemma UpperTwice(c: Byte)
    ensures Upper(Upper(c)) == Upper(c)
  {
  }
}
