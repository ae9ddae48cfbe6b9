/** Base64 with padding, as in section 4 of RFC 4648, and lower-case hexadecimal, with their inverses. */
module Base64 {
  import opened Common

  // ---- symbols

  const PAD := 64

  /** The alphabet, with the padding character as the symbol of 64. */
  function Symbol(v: nat): (c: char)
    requires v <= PAD
  {
    if v < 26 then 'A' + v as char
    else if v < 52 then 'a' + (v - 26) as char
    else if v < 62 then '0' + (v - 52) as char
    else if v == 62 then '+' else if v == 63 then '/' else '='
  }

  function SymbolValue(c: char): (v: nat)
    ensures v <= PAD
  {
    if 'A' <= c <= 'Z' then c as nat - 'A' as nat
    else if 'a' <= c <= 'z' then c as nat - 'a' as nat + 26
    else if '0' <= c <= '9' then c as nat - '0' as nat + 52
    else if c == '+' then 62 else if c == '/' then 63 else PAD
  }

  lemma SymbolInverse(v: nat)
    requires v <= PAD
    ensures SymbolValue(Symbol(v)) == v
  {
  }

  /** The alphabet runs through the capitals, the small letters and the digits, then `+` and `/`; `=` pads. */
  lemma Alphabet(v: nat)
    ensures v < 26 ==> Symbol(v) as int == 65 + v
    ensures 26 <= v < 52 ==> Symbol(v) as int == 97 + (v - 26)
    ensures 52 <= v < 62 ==> Symbol(v) as int == 48 + (v - 52)
    ensures Symbol(62) == '+' && Symbol(63) == '/' && Symbol(PAD) == '='
  {
  }

  predicate Codes(vs: seq<nat>) {
    forall i | 0 <= i < |vs| :: vs[i] <= PAD
  }

  function Spell(vs: seq<nat>): (s: string)
    requires Codes(vs)
    ensures |s| == |vs| && forall i | 0 <= i < |vs| :: s[i] == Symbol(vs[i])
  {
    seq(|vs|, i requires 0 <= i < |vs| => Symbol(vs[i]))
  }

  function Unspell(s: string): (vs: seq<nat>)
    ensures |vs| == |s| && Codes(vs) && forall i | 0 <= i < |s| :: vs[i] == SymbolValue(s[i])
  {
    seq(|s|, i requires 0 <= i < |s| => SymbolValue(s[i]))
  }

  lemma SpellInverse(vs: seq<nat>)
    requires Codes(vs)
    ensures Unspell(Spell(vs)) == vs
  {
    forall i | 0 <= i < |vs| ensures Unspell(Spell(vs))[i] == vs[i] { SymbolInverse(vs[i]); }
  }

  // ---- groups of three bytes

  /** Whole groups of three bytes, then one or two bytes with padding. */
  function Sextets(b: seq<Byte>): (vs: seq<nat>)
    ensures Codes(vs)
  {
    if b == [] then []
    else if |b| == 1 then [b[0] / 4, (b[0] % 4) * 16, PAD, PAD]
    else if |b| == 2 then [b[0] / 4, (b[0] % 4) * 16 + b[1] / 16, (b[1] % 16) * 4, PAD]
    else [b[0] / 4, (b[0] % 4) * 16 + b[1] / 16, (b[1] % 16) * 4 + b[2] / 64, b[2] % 64] + Sextets(b[3..])
  }

  /** The three bytes of four values. */
  function Group(v0: nat, v1: nat, v2: nat, v3: nat): (b: (Byte, Byte, Byte))
    requires v0 < 64 && v1 < 64 && v2 < 64 && v3 < 64
  {
    (v0 * 4 + v1 / 16, (v1 % 16) * 16 + v2 / 4, (v2 % 4) * 64 + v3)
  }

  /** Padding carries no bits. */
  function Bits(v: nat): (r: nat)
    requires v <= PAD
    ensures r < 64
  {
    if v == PAD then 0 else v
  }

  lemma GroupInverse(b0: Byte, b1: Byte, b2: Byte)
    ensures Group(b0 / 4, (b0 % 4) * 16 + b1 / 16, (b1 % 16) * 4 + b2 / 64, b2 % 64) == (b0, b1, b2)
  {
    assert ((b0 % 4) * 16 + b1 / 16) / 16 == b0 % 4;
    assert ((b0 % 4) * 16 + b1 / 16) % 16 == b1 / 16;
    assert ((b1 % 16) * 4 + b2 / 64) / 4 == b1 % 16;
    assert ((b1 % 16) * 4 + b2 / 64) % 4 == b2 / 64;
  }

  function FromSextets(vs: seq<nat>): seq<Byte>
    requires Codes(vs)
  {
    if |vs| < 4 then []
    else
      var g := Group(Bits(vs[0]), Bits(vs[1]), Bits(vs[2]), Bits(vs[3]));
      if vs[2] == PAD then [g.0]
      else if vs[3] == PAD then [g.0, g.1]
      else [g.0, g.1, g.2] + FromSextets(vs[4..])
  }

  lemma JoinedWhole(v0: nat, v1: nat, v2: nat, v3: nat, rest: seq<nat>)
    requires v0 < 64 && v1 < 64 && v2 < 64 && v3 < 64 && Codes(rest)
    ensures var g := Group(v0, v1, v2, v3);
            && Codes([v0, v1, v2, v3] + rest)
            && FromSextets([v0, v1, v2, v3] + rest) == [g.0, g.1, g.2] + FromSextets(rest)
  {
    assert ([v0, v1, v2, v3] + rest)[4..] == rest;
  }

  lemma JoinedTail(v0: nat, v1: nat, v2: nat)
    requires v0 < 64 && v1 < 64 && v2 < 64
    ensures FromSextets([v0, v1, PAD, PAD]) == [Group(v0, v1, 0, 0).0]
    ensures FromSextets([v0, v1, v2, PAD]) == [Group(v0, v1, v2, 0).0, Group(v0, v1, v2, 0).1]
  {
  }

  lemma TailInverse(b: seq<Byte>)
    requires 0 < |b| < 3
    ensures FromSextets(Sextets(b)) == b
  {
    var b1: Byte := if |b| == 2 then b[1] else 0;
    GroupInverse(b[0], b1, 0);
    JoinedTail(b[0] / 4, (b[0] % 4) * 16 + b1 / 16, (b1 % 16) * 4);
  }

  lemma {:induction false} SextetsInverse(b: seq<Byte>)
    ensures FromSextets(Sextets(b)) == b
  {
    if 0 < |b| < 3 {
      TailInverse(b);
    } else if b != [] {
      var b0, b1, b2 := b[0], b[1], b[2];
      GroupInverse(b0, b1, b2);
      SextetsInverse(b[3..]);
      JoinedWhole(b0 / 4, (b0 % 4) * 16 + b1 / 16, (b1 % 16) * 4 + b2 / 64, b2 % 64, Sextets(b[3..]));
      assert b == [b0, b1, b2] + b[3..];
    }
  }

  function Escape(b: seq<Byte>): string { Spell(Sextets(b)) }

  function Unescape(s: string): seq<Byte> { FromSextets(Unspell(s)) }

  lemma EscapeInverse(b: seq<Byte>)
    ensures Unescape(Escape(b)) == b
  {
    SpellInverse(Sextets(b));
    SextetsInverse(b);
  }

  /** The test vectors of section 10 of RFC 4648. */
  lemma TestVectors()
    ensures Escape([]) == "" && Escape([102]) == "Zg==" && Escape([102, 111]) == "Zm8="
    ensures Escape([102, 111, 111]) == "Zm9v"
  {
    assert Sextets([102]) == [25, 32, PAD, PAD];
    assert Sextets([102, 111]) == [25, 38, 60, PAD];
    assert [102, 111, 111][3..] == [];
    assert Sextets([102, 111, 111]) == [25, 38, 61, 47];
  }

  // ---- the encoder

  lemma {:induction false} SextetsSize(b: seq<Byte>)
    ensures |Sextets(b)| == (|b| + 2) / 3 * 4
  {
    if |b| > 2 { SextetsSize(b[3..]); }
  }

  /** The four characters of a group; missing bytes count as zero. */
  function Quad(b0: Byte, b1: Byte, b2: Byte): string {
    [Symbol(b0 / 4), Symbol((b0 % 4) * 16 + b1 / 16), Symbol((b1 % 16) * 4 + b2 / 64), Symbol(b2 % 64)]
  }

  lemma SpellConcat(a: seq<nat>, b: seq<nat>)
    requires Codes(a) && Codes(b)
    ensures Codes(a + b) && Spell(a + b) == Spell(a) + Spell(b)
  {
  }

  lemma EscapeGroup(b: seq<Byte>)
    requires |b| >= 3
    ensures Escape(b) == Quad(b[0], b[1], b[2]) + Escape(b[3..])
  {
    var vs := [b[0] / 4, (b[0] % 4) * 16 + b[1] / 16, (b[1] % 16) * 4 + b[2] / 64, b[2] % 64];
    SpellConcat(vs, Sextets(b[3..]));
    assert Spell(vs) == Quad(b[0], b[1], b[2]);
  }

  method PutFour(dest: array<char>, p: nat, s: string)
    requires |s| == 4 && p + 4 <= dest.Length
    modifies dest
    ensures dest[..p + 4] == old(dest[..p]) + s
  {
    dest[p] := s[0];
    dest[p + 1] := s[1];
    dest[p + 2] := s[2];
    dest[p + 3] := s[3];
  }

  /**
   Writes the encoding and a NUL into `dest`, group by group; or, where there is no room for both, writes
   nothing and answers how much is needed.
   */
  method EscapeInto(dest: array?<char>, src: seq<Byte>) returns (ret: int, olen: nat)
    modifies dest
    ensures ret == 0 || ret == -1
    ensures ret == -1 <==> src != [] && (dest == null || dest.Length <= |Escape(src)|)
    ensures ret == -1 ==> olen == |Escape(src)| + 1 && (dest != null ==> dest[..] == old(dest[..]))
    ensures ret == 0 ==> olen == |Escape(src)|
    ensures ret == 0 && src != [] ==> dest[..olen] == Escape(src) && dest[olen] == '\0'
  {
    if src == [] {
      return 0, 0;
    }
    SextetsSize(src);
    var n := (|src| + 2) / 3 * 4;
    if dest == null || dest.Length < n + 1 {
      return -1, n + 1;
    }
    var p := EscapeGroups(dest, src);
    dest[p] := '\0';
    ret, olen := 0, p;
  }

  method EscapeGroups(dest: array<char>, src: seq<Byte>) returns (p: nat)
    requires dest.Length > |Escape(src)|
    modifies dest
    ensures p == |Escape(src)| && dest[..p] == Escape(src)
  {
    p := 0;
    var i := 0;
    assert src[0..] == src;
    while i + 3 <= |src|
      invariant i <= |src| && p <= |Escape(src)|
      invariant Escape(src) == dest[..p] + Escape(src[i..])
    {
      ghost var rest := src[i..];
      EscapeGroup(rest);
      assert rest[3..] == src[i + 3..];
      ghost var before := dest[..p];
      PutFour(dest, p, Quad(src[i], src[i + 1], src[i + 2]));
      Regroup(before, Quad(src[i], src[i + 1], src[i + 2]), Escape(src[i + 3..]));
      p := p + 4;
      i := i + 3;
    }
    if i < |src| {
      EscapeRest(src[i..]);
      var c2: Byte := if i + 1 < |src| then src[i + 1] else 0;
      var quad := Quad(src[i], c2, 0);
      ghost var before := dest[..p];
      PutFour(dest, p, [quad[0], quad[1], if i + 1 < |src| then quad[2] else '=', '=']);
      p := p + 4;
    }
  }

  lemma EscapeRest(b: seq<Byte>)
    requires 0 < |b| < 3
    ensures var quad := Quad(b[0], if |b| == 2 then b[1] else 0, 0);
            Escape(b) == [quad[0], quad[1], if |b| == 2 then quad[2] else '=', '=']
  {
  }

  lemma Regroup(a: string, b: string, c: string)
    ensures a + (b + c) == a + b + c
  {
  }

  /** The encoding as a string of its own. */
  method Base64Escape(src: seq<Byte>) returns (s: string)
    ensures s == Escape(src)
  {
    var needed, olen := EscapeInto(null, src);
    if src == [] {
      return "";
    }
    var dest := new char[olen];
    var ret, size := EscapeInto(dest, src);
    s := dest[..size];
  }

  // ---- hexadecimal

  function LowerHexDigit(v: nat): (c: char)
    requires v < 16
  {
    if v < 10 then '0' + v as char else 'a' + (v - 10) as char
  }

  function HexValue(c: char): (v: nat)
    ensures v < 16
  {
    if '0' <= c <= '9' then c as nat - '0' as nat
    else if 'a' <= c <= 'f' then c as nat - 'a' as nat + 10
    else 0
  }

  lemma HexDigitInverse(v: nat)
    requires v < 16
    ensures HexValue(LowerHexDigit(v)) == v
  {
  }

  predicate AllNibbles(ns: seq<nat>) {
    forall i | 0 <= i < |ns| :: ns[i] < 16
  }

  function Nibbles(b: seq<Byte>): (ns: seq<nat>)
    ensures |ns| == 2 * |b| && AllNibbles(ns)
  {
    if b == [] then [] else Nibbles(b[..|b| - 1]) + [b[|b| - 1] / 16, b[|b| - 1] % 16]
  }

  function Paired(ns: seq<nat>): seq<Byte>
    requires AllNibbles(ns)
  {
    if |ns| < 2 then [] else Paired(ns[..|ns| - 2]) + [ns[|ns| - 2] * 16 + ns[|ns| - 1]]
  }

  lemma PairedLast(ns: seq<nat>, b: Byte)
    requires AllNibbles(ns)
    ensures AllNibbles(ns + [b / 16, b % 16]) && Paired(ns + [b / 16, b % 16]) == Paired(ns) + [b]
  {
    assert (ns + [b / 16, b % 16])[..|ns|] == ns;
  }

  lemma {:induction false} NibblesInverse(b: seq<Byte>)
    ensures Paired(Nibbles(b)) == b
  {
    if b != [] {
      var front := b[..|b| - 1];
      NibblesInverse(front);
      PairedLast(Nibbles(front), b[|b| - 1]);
      assert b == front + [b[|b| - 1]];
    }
  }

  function SpellHex(ns: seq<nat>): (s: string)
    requires AllNibbles(ns)
    ensures |s| == |ns| && forall i | 0 <= i < |ns| :: s[i] == LowerHexDigit(ns[i])
  {
    seq(|ns|, i requires 0 <= i < |ns| => LowerHexDigit(ns[i]))
  }

  function UnspellHex(s: string): (ns: seq<nat>)
    ensures |ns| == |s| && AllNibbles(ns) && forall i | 0 <= i < |s| :: ns[i] == HexValue(s[i])
  {
    seq(|s|, i requires 0 <= i < |s| => HexValue(s[i]))
  }

  function Hex(b: seq<Byte>): string { SpellHex(Nibbles(b)) }

  function Unhex(s: string): seq<Byte> { Paired(UnspellHex(s)) }

  /** Lower-case digits, two per byte, the high one first. */
  lemma HexDigits(v: nat, b: Byte, rest: seq<Byte>)
    ensures v < 10 ==> LowerHexDigit(v) as int == 48 + v
    ensures 10 <= v < 16 ==> LowerHexDigit(v) as int == 97 + (v - 10)
    ensures Hex(rest + [b]) == Hex(rest) + [LowerHexDigit(b / 16), LowerHexDigit(b % 16)]
  {
    assert (rest + [b])[..|rest|] == rest;
    assert Nibbles(rest + [b]) == Nibbles(rest) + [b / 16, b % 16];
  }

  lemma HexInverse(b: seq<Byte>)
    ensures Unhex(Hex(b)) == b
  {
    var ns := Nibbles(b);
    assert UnspellHex(SpellHex(ns)) == ns by {
      forall i | 0 <= i < |ns| ensures UnspellHex(SpellHex(ns))[i] == ns[i] { HexDigitInverse(ns[i]); }
    }
    NibblesInverse(b);
  }

  /** HexEncode: two digits per byte, appended in a loop. */
  method HexEncode(bytes: seq<Byte>) returns (ret: string)
    ensures ret == Hex(bytes)
    ensures |ret| == 2 * |bytes|
  {
    ret := "";
    for i := 0 to |bytes|
      invariant ret == SpellHex(Nibbles(bytes[..i]))
    {
      HexStep(bytes, i);
      ret := ret + [LowerHexDigit(bytes[i] / 16)];
      ret := ret + [LowerHexDigit(bytes[i] % 16)];
    }
    assert bytes[..|bytes|] == bytes;
  }

  lemma HexStep(bytes: seq<Byte>, i: nat)
    requires i < |bytes|
    ensures SpellHex(Nibbles(bytes[..i + 1]))
            == SpellHex(Nibbles(bytes[..i])) + [LowerHexDigit(bytes[i] / 16)] + [LowerHexDigit(bytes[i] % 16)]
  {
    assert bytes[..i + 1][..i] == bytes[..i];
    assert Nibbles(bytes[..i + 1]) == Nibbles(bytes[..i]) + [bytes[i] / 16, bytes[i] % 16];
  }
}
