/** The base64 codec (src/utils/base64.cpp), for the encoding of section 4 of
    RFC 4648.  An `unsigned char` is an integer below 256; shifts and masks of
    such values are written as division and remainder. */
module Base64 {
  import opened Basics

  type byte = n: int | 0 <= n < 256
  type size_t = n: int | 0 <= n < 0x1_0000_0000_0000_0000

  const TWO62: int := 0x4000_0000_0000_0000

  const PAD: byte := 61     // '='
  const BLANK: byte := 32   // ' '
  const INVALID: byte := 0x80

  function Upper(): string { "ABCDEFGHIJKLMNOPQRSTUVWXYZ" }

  function Lower(): string { "abcdefghijklmnopqrstuvwxyz" }

  function Digits(): string { "0123456789" }

  function Alphabet(): string { Upper() + Lower() + Digits() + "+/" }

  // ----- The two tables -----

  /** Entry i of the encoder's table, by the ranges of the alphabet. */
  function EncodeTable(i: nat): byte
    requires i < 64
  {
    if i < 26 then 65 + i else if i < 52 then 71 + i else if i < 62 then i - 4 else if i == 62 then 43 else 47
  }

  lemma TableSpellsAlphabet(i: nat)
    requires i < 64
    ensures |Alphabet()| == 64 && Alphabet()[i] as int == EncodeTable(i)
  {
    hide Upper, Lower, Digits;
    UpperInOrder(i);
    LowerInOrder(i - 26);
    DigitsInOrder(i - 52);
    FourParts(Upper(), Lower(), Digits(), "+/", i);
  }

  lemma UpperInOrder(i: int)
    ensures |Upper()| == 26 && (0 <= i < 26 ==> Upper()[i] as int == 65 + i)
  {
  }

  lemma LowerInOrder(i: int)
    ensures |Lower()| == 26 && (0 <= i < 26 ==> Lower()[i] as int == 97 + i)
  {
  }

  lemma DigitsInOrder(i: int)
    ensures |Digits()| == 10 && (0 <= i < 10 ==> Digits()[i] as int == 48 + i)
  {
  }

  lemma FourParts(a: string, b: string, c: string, d: string, i: nat)
    requires i < |a| + |b| + |c| + |d|
    ensures (a + b + c + d)[i] ==
            if i < |a| then a[i] else if i < |a| + |b| then b[i - |a|]
            else if i < |a| + |b| + |c| then c[i - |a| - |b|] else d[i - |a| - |b| - |c|]
  {
  }

  predicate InAlphabet(c: byte) {
    65 <= c <= 90 || 97 <= c <= 122 || 48 <= c <= 57 || c == 43 || c == 47
  }

  /** What the decoder's table holds at c. */
  function DecodeOf(c: byte): byte {
    if 65 <= c <= 90 then c - 65
    else if 97 <= c <= 122 then c - 71
    else if 48 <= c <= 57 then c + 4
    else if c == 43 then 62
    else if c == 47 then 63
    else if c == PAD then 0
    else INVALID
  }

  lemma TablesInvert(i: nat)
    requires i < 64
    ensures InAlphabet(EncodeTable(i)) && DecodeOf(EncodeTable(i)) == i && EncodeTable(i) != PAD
  {
  }

  method DecodeTable() returns (table: array<byte>)
    ensures fresh(table) && table.Length == 256
    ensures forall c: byte :: table[c] == DecodeOf(c)
  {
    table := new byte[256](_ => INVALID);
    for i := 0 to 64
      invariant forall c: byte :: table[c] == if InAlphabet(c) && DecodeOf(c) < i then DecodeOf(c) else INVALID
    {
      TablesInvert(i);
      table[EncodeTable(i)] := i;
    }
    table[PAD] := 0;
  }

  // ----- Canonical base64 -----

  /** The four characters of a full three-byte group. */
  function Quad(b0: byte, b1: byte, b2: byte): (q: seq<byte>)
    ensures |q| == 4
  {
    [EncodeTable(b0 / 4), EncodeTable((b0 % 4) * 16 + b1 / 16), EncodeTable((b1 % 16) * 4 + b2 / 64), EncodeTable(b2 % 64)]
  }

  /** The canonical text, padded with '=' to whole groups. */
  function Canonical(x: seq<byte>): seq<byte> {
    if |x| == 0 then []
    else if |x| == 1 then [EncodeTable(x[0] / 4), EncodeTable((x[0] % 4) * 16), PAD, PAD]
    else if |x| == 2 then
      [EncodeTable(x[0] / 4), EncodeTable((x[0] % 4) * 16 + x[1] / 16), EncodeTable((x[1] % 16) * 4), PAD]
    else Quad(x[0], x[1], x[2]) + Canonical(x[3..])
  }

  function TextLength(n: nat): nat {
    (n + 2) / 3 * 4
  }

  lemma {:induction false} CanonicalLength(x: seq<byte>)
    ensures |Canonical(x)| == TextLength(|x|)
    ensures Canonical(x) == [] <==> x == []
  {
    if |x| >= 3 { CanonicalLength(x[3..]); }
  }

  /** The 24 bits of a group, read as one number: RFC 4648 prescribes that the
      four characters spell this number in base 64. */
  lemma QuadSpellsGroup(b0: byte, b1: byte, b2: byte)
    ensures var q := Quad(b0, b1, b2);
            forall k :: 0 <= k < 4 ==> InAlphabet(q[k]) && DecodeOf(q[k]) < 64
    ensures var q := Quad(b0, b1, b2);
            DecodeOf(q[0]) * 0x40000 + DecodeOf(q[1]) * 0x1000 + DecodeOf(q[2]) * 0x40 + DecodeOf(q[3])
            == b0 * 0x10000 + b1 * 0x100 + b2
  {
    TablesInvert(b0 / 4);
    TablesInvert((b0 % 4) * 16 + b1 / 16);
    TablesInvert((b1 % 16) * 4 + b2 / 64);
    TablesInvert(b2 % 64);
  }

  // ----- The encoder -----

  function Blanks(n: nat): (s: seq<byte>)
    ensures |s| == n && forall k :: 0 <= k < n ==> s[k] == BLANK
  {
    seq(n, _ => BLANK)
  }

  /** `len * 4 / 3 + 4` as 64-bit unsigned arithmetic computes it. */
  function OutputLength(len: size_t): size_t {
    (((len * 4) % TWO64) / 3 + 4) % TWO64
  }

  /** The overflow test rejects exactly the lengths whose product wraps. */
  lemma GuardIsExact(len: size_t)
    ensures OutputLength(len) < len <==> len >= TWO62
    ensures len < TWO62 ==> OutputLength(len) >= TextLength(len)
  {
    // the product wraps around at every quarter of the range
    var quarter := len / TWO62;
    assert (len * 4) % TWO64 == 4 * (len - quarter * TWO62);
  }

  /** The encoder never shrinks its buffer: the canonical text is followed by blanks. */
  function Encoded(x: seq<byte>): seq<byte>
    requires |x| < TWO64
  {
    if |x| >= TWO62 then [] else
      GuardIsExact(|x|);
      CanonicalLength(x);
      Canonical(x) + Blanks(OutputLength(|x|) - |Canonical(x)|)
  }

  lemma CanonicalOfGroup(x: seq<byte>)
    requires |x| >= 3
    ensures Canonical(x) == Quad(x[0], x[1], x[2]) + Canonical(x[3..])
  {
  }

  lemma CanonicalOfTail(x: seq<byte>)
    requires |x| < 3
    ensures |Canonical(x)| == if |x| == 0 then 0 else 4
  {
  }

  method Encode(src: array<byte>) returns (out: array<byte>)
    requires src.Length < TWO64
    ensures fresh(out) && out[..] == Encoded(src[..])
  {
    var len := src.Length;
    var olen := OutputLength(len);
    GuardIsExact(len);
    if olen < len {
      out := new byte[0];
    } else {
      CanonicalLength(src[..]);
      hide OutputLength, Canonical, TextLength;
      out := new byte[olen](_ => BLANK);
      WriteText(src, out);
    }
  }

  /** The two phases of the encoder, on a buffer of blanks. */
  method WriteText(src: array<byte>, out: array<byte>)
    requires src != out && |Canonical(src[..])| <= out.Length
    requires forall k :: 0 <= k < out.Length ==> out[k] == BLANK
    modifies out
    ensures out[..] == Canonical(src[..]) + Blanks(out.Length - |Canonical(src[..])|)
  {
    hide EncodeTable, Canonical, Quad, Blanks;
    ghost var text := Canonical(src[..]);
    var input, pos := 0, 0;
    assert src[0..] == src[..];
    while src.Length - input >= 3
      invariant 0 <= input <= src.Length && pos <= out.Length
      invariant out[..pos] + Canonical(src[input..]) == text
      invariant forall k :: pos <= k < out.Length ==> out[k] == BLANK
    {
      ghost var written, rest := out[..pos], src[input..];
      CanonicalOfGroup(rest);
      assert rest[3..] == src[input + 3..];
      PutQuad(out, pos, src[input], src[input + 1], src[input + 2]);
      input, pos := input + 3, pos + 4;
    }
    ghost var rest := Canonical(src[input..]);
    CanonicalOfTail(src[input..]);
    if src.Length - input != 0 {
      ghost var written := out[..pos];
      PutTail(out, pos, src, input);
      pos := pos + 4;
      assert out[..pos] == written + rest;
    }
    assert out[..] == text + out[|text|..];
  }

  /** The writes for the one or two bytes left over. */
  method PutTail(out: array<byte>, pos: nat, src: array<byte>, input: nat)
    requires pos + 4 <= out.Length && out != src
    requires input < src.Length <= input + 2
    modifies out
    ensures out[..pos + 4] == old(out[..pos]) + Canonical(src[input..])
    ensures forall k :: pos + 4 <= k < out.Length ==> out[k] == old(out[k])
  {
    hide EncodeTable;
    out[pos] := EncodeTable(src[input] / 4);
    if src.Length - input == 1 {
      out[pos + 1] := EncodeTable((src[input] % 4) * 16);
      out[pos + 2] := PAD;
    } else {
      out[pos + 1] := EncodeTable((src[input] % 4) * 16 + src[input + 1] / 16);
      out[pos + 2] := EncodeTable((src[input + 1] % 16) * 4);
    }
    out[pos + 3] := PAD;
  }

  /** The four writes of the encoder's main loop. */
  method PutQuad(out: array<byte>, pos: nat, b0: byte, b1: byte, b2: byte)
    requires pos + 4 <= out.Length
    modifies out
    ensures out[..pos + 4] == old(out[..pos]) + Quad(b0, b1, b2)
    ensures forall k :: pos + 4 <= k < out.Length ==> out[k] == old(out[k])
  {
    out[pos] := EncodeTable(b0 / 4);
    out[pos + 1] := EncodeTable((b0 % 4) * 16 + b1 / 16);
    out[pos + 2] := EncodeTable((b1 % 16) * 4 + b2 / 64);
    out[pos + 3] := EncodeTable(b2 % 64);
  }

  // ----- The decoder -----

  predicate Meaningful(c: byte) {
    DecodeOf(c) != INVALID
  }

  /** The characters the decoder does not skip. */
  function Filter(s: seq<byte>): seq<byte> {
    if s == [] then []
    else Filter(s[..|s| - 1]) + (if Meaningful(s[|s| - 1]) then [s[|s| - 1]] else [])
  }

  function Zeros(n: nat): (s: seq<byte>)
    ensures |s| == n && forall k :: 0 <= k < n ==> s[k] == 0
  {
    seq(n, _ => 0)
  }

  /** The three bytes that four characters decode to. */
  function DecodeQuad(q: seq<byte>): (b: seq<byte>)
    requires |q| == 4 && forall k :: 0 <= k < 4 ==> Meaningful(q[k])
    ensures |b| == 3
  {
    var d0, d1, d2, d3 := DecodeOf(q[0]), DecodeOf(q[1]), DecodeOf(q[2]), DecodeOf(q[3]);
    [(d0 * 4 + d1 / 16) % 256, (d1 * 16 + d2 / 4) % 256, (d2 * 64 + d3) % 256]
  }

  function Pads(q: seq<byte>): (n: nat)
    ensures n <= |q|
  {
    if q == [] then 0 else Pads(q[..|q| - 1]) + (if q[|q| - 1] == PAD then 1 else 0)
  }

  ghost predicate AllMeaningful(f: seq<byte>) {
    forall k :: 0 <= k < |f| ==> Meaningful(f[k])
  }

  /** The number of bytes that n characters leave room for. */
  function Room(n: nat): nat {
    n / 4 * 3
  }

  /** Groups up to the first one that holds padding; what follows it is left
      zero.  A group with more than two '=' is refused. */
  function DecodeGroups(f: seq<byte>): Option<seq<byte>>
    requires AllMeaningful(f)
  {
    if |f| < 4 then Some([])
    else
      var q := f[..4];
      if Pads(q) == 0 then
        var rest := DecodeGroups(f[4..]);
        if rest.None? then None else Some(DecodeQuad(q) + rest.value)
      else if Pads(q) <= 2 then Some(DecodeQuad(q) + Zeros(Room(|f| - 4)))
      else None
  }

  function Decoded(s: seq<byte>): seq<byte> {
    FilterIsMeaningful(s);
    var f := Filter(s);
    if |f| == 0 || |f| % 4 != 0 then []
    else
      var r := DecodeGroups(f);
      if r.None? then [] else r.value
  }

  lemma {:induction false} FilterIsMeaningful(s: seq<byte>)
    ensures AllMeaningful(Filter(s))
  {
    if s != [] { FilterIsMeaningful(s[..|s| - 1]); }
  }

  lemma {:induction false} FilterConcat(s: seq<byte>, t: seq<byte>)
    ensures Filter(s + t) == Filter(s) + Filter(t)
  {
    if t == [] {
      assert s + t == s;
    } else {
      assert (s + t)[..|s + t| - 1] == s + t[..|t| - 1];
      FilterConcat(s, t[..|t| - 1]);
    }
  }

  // ----- What the decoder makes of any text -----

  /** How many of the four characters of group g are '='. */
  function PadsAt(f: seq<byte>, g: nat): nat
    requires 4 * g + 4 <= |f|
  {
    (if f[4 * g] == PAD then 1 else 0) + (if f[4 * g + 1] == PAD then 1 else 0)
    + (if f[4 * g + 2] == PAD then 1 else 0) + (if f[4 * g + 3] == PAD then 1 else 0)
  }

  /** The three bytes and the four sextets of group g are the same 24 bits. */
  ghost predicate SameBits(f: seq<byte>, out: seq<byte>, g: nat)
    requires 4 * g + 4 <= |f| && 3 * g + 3 <= |out|
  {
    var b0: int, b1: int, b2: int := out[3 * g], out[3 * g + 1], out[3 * g + 2];
    b0 * 0x10000 + b1 * 0x100 + b2 ==
    DecodeOf(f[4 * g]) * 0x40000 + DecodeOf(f[4 * g + 1]) * 0x1000 + DecodeOf(f[4 * g + 2]) * 0x40 + DecodeOf(f[4 * g + 3])
  }

  lemma QuadIsBits(q: seq<byte>)
    requires |q| == 4 && forall k :: 0 <= k < 4 ==> Meaningful(q[k])
    ensures SameBits(q, DecodeQuad(q), 0)
  {
    JoinedBits(DecodeOf(q[0]), DecodeOf(q[1]), DecodeOf(q[2]), DecodeOf(q[3]));
  }

  lemma JoinedBits(d0: nat, d1: nat, d2: nat, d3: nat)
    requires d0 < 64 && d1 < 64 && d2 < 64 && d3 < 64
    ensures ((d0 * 4 + d1 / 16) % 256) * 0x10000 + ((d1 * 16 + d2 / 4) % 256) * 0x100 + (d2 * 64 + d3) % 256
            == d0 * 0x40000 + d1 * 0x1000 + d2 * 0x40 + d3
  {
    FirstByte(d0, d1);
    SecondByte(d1, d2);
    ThirdByte(d2, d3);
  }

  lemma FirstByte(d0: nat, d1: nat)
    requires d0 < 64 && d1 < 64
    ensures (d0 * 4 + d1 / 16) % 256 == d0 * 4 + d1 / 16
  {
  }

  lemma SecondByte(d1: nat, d2: nat)
    requires d1 < 64 && d2 < 64
    ensures (d1 * 16 + d2 / 4) % 256 == d1 * 16 + d2 / 4 - (d1 / 16) * 256
  {
  }

  lemma ThirdByte(d2: nat, d3: nat)
    requires d2 < 64 && d3 < 64
    ensures (d2 * 64 + d3) % 256 == d2 * 64 + d3 - (d2 / 4) * 256
  {
  }

  lemma BitsShift(f: seq<byte>, out: seq<byte>, q: seq<byte>, b: seq<byte>, g: nat)
    requires |q| == 4 && |b| == 3 && 4 * g + 4 <= |f| && 3 * g + 3 <= |out|
    ensures SameBits(f, out, g) <==> SameBits(q + f, b + out, g + 1)
    ensures PadsAt(f, g) == PadsAt(q + f, g + 1)
  {
    hide DecodeOf;
    var i, j := 4 * g, 3 * g;
    assert (q + f)[i + 4] == f[i] && (q + f)[i + 5] == f[i + 1] && (q + f)[i + 6] == f[i + 2] && (q + f)[i + 7] == f[i + 3];
    assert (b + out)[j + 3] == out[j] && (b + out)[j + 4] == out[j + 1] && (b + out)[j + 5] == out[j + 2];
  }

  lemma FirstBits(f: seq<byte>, q: seq<byte>, b: seq<byte>, more: seq<byte>)
    requires |f| >= 4 && q == f[..4] && |b| == 3
    ensures SameBits(q, b, 0) <==> SameBits(f, b + more, 0)
  {
  }

  /** The first group with padding ends the data, whether characters follow or not:
      the groups up to it keep their bits, the rest of the buffer stays zero, and
      more than two '=' in it make the text invalid. */
  lemma {:induction false} GroupIsDecoded(f: seq<byte>, g: nat)
    requires AllMeaningful(f) && |f| % 4 == 0 && 4 * g + 4 <= |f|
    requires forall h: nat :: h < g ==> PadsAt(f, h) == 0
    ensures PadsAt(f, g) > 2 ==> DecodeGroups(f).None?
    ensures 0 < PadsAt(f, g) <= 2 || (PadsAt(f, g) == 0 && 4 * g + 4 == |f|) ==> DecodeGroups(f).Some?
    ensures DecodeGroups(f).Some? ==>
              var out := DecodeGroups(f).value;
              && |out| == |f| / 4 * 3 && SameBits(f, out, g)
              && (PadsAt(f, g) > 0 ==> forall j :: 3 * g + 3 <= j < |out| ==> out[j] == 0)
    decreases g
  {
    hide DecodeQuad, DecodeGroups, Pads, Meaningful, DecodeOf, PadsAt, SameBits;
    var q, rest := f[..4], f[4..];
    var b := DecodeQuad(q);
    FirstGroup(f);
    FirstPads(f);
    NoGroups();
    if g == 0 {
      QuadIsBits(q);
      RestIsDecoded(f);
      forall more ensures SameBits(f, b + more, 0) {
        FirstBits(f, q, b, more);
      }
      assert |f| == 4 ==> rest == [];
    } else {
      assert f == q + rest && PadsAt(f, 0) == 0;
      forall h: nat | h < g - 1 ensures PadsAt(rest, h) == 0 {
        assert PadsAt(f, h + 1) == 0;
        BitsShift(rest, Zeros(3 * h + 3), q, b, h);
      }
      BitsShift(rest, Zeros(3 * g), q, b, g - 1);
      GroupIsDecoded(rest, g - 1);
      var r := DecodeGroups(rest);
      if r.Some? { BitsShift(rest, r.value, q, b, g - 1); }
    }
  }

  lemma FirstPads(f: seq<byte>)
    requires |f| >= 4
    ensures Pads(f[..4]) == PadsAt(f, 0)
  {
    PadsOfFour(f[..4]);
  }

  lemma {:induction false} RestIsDecoded(f: seq<byte>)
    requires AllMeaningful(f) && |f| % 4 == 0
    ensures DecodeGroups(f).Some? ==> |DecodeGroups(f).value| == |f| / 4 * 3
    decreases |f|
  {
    if |f| >= 4 { RestIsDecoded(f[4..]); }
  }

  /** The decoder's result for any text: nothing unless the meaningful characters make
      up whole groups. */
  lemma DecodedExactly(s: seq<byte>, g: nat)
    requires 4 * g + 4 <= |Filter(s)| && forall h: nat :: h < g ==> PadsAt(Filter(s), h) == 0
    ensures |Filter(s)| % 4 != 0 || PadsAt(Filter(s), g) > 2 ==> Decoded(s) == []
    ensures |Filter(s)| % 4 == 0 && (0 < PadsAt(Filter(s), g) <= 2 || (PadsAt(Filter(s), g) == 0 && 4 * g + 4 == |Filter(s)|)) ==>
              && |Decoded(s)| == |Filter(s)| / 4 * 3
              && (forall h: nat :: h <= g ==> SameBits(Filter(s), Decoded(s), h))
              && forall j :: 3 * g + 3 <= j < |Decoded(s)| ==> Decoded(s)[j] == 0
  {
    FilterIsMeaningful(s);
    var f := Filter(s);
    hide Filter, DecodeGroups;
    if |f| % 4 == 0 {
      forall h: nat | h <= g
        ensures DecodeGroups(f).Some? ==> |DecodeGroups(f).value| == |f| / 4 * 3 && SameBits(f, DecodeGroups(f).value, h)
      {
        GroupIsDecoded(f, h);
      }
      GroupIsDecoded(f, g);
    }
  }

  // ----- Round trip -----

  lemma {:induction false} FilterKeeps(s: seq<byte>)
    requires AllMeaningful(s)
    ensures Filter(s) == s
  {
    if s != [] { FilterKeeps(s[..|s| - 1]); }
  }

  lemma {:induction false} FilterDropsBlanks(n: nat)
    ensures Filter(Blanks(n)) == []
  {
    if n > 0 {
      assert Blanks(n)[..n - 1] == Blanks(n - 1);
      FilterDropsBlanks(n - 1);
    }
  }

  lemma PadsOfFour(q: seq<byte>)
    requires |q| == 4
    ensures Pads(q) == (if q[0] == PAD then 1 else 0) + (if q[1] == PAD then 1 else 0)
                     + (if q[2] == PAD then 1 else 0) + (if q[3] == PAD then 1 else 0)
  {
    assert q[..3][..2] == q[..2] && q[..2][..1] == q[..1];
    assert Pads(q[..1]) == (if q[0] == PAD then 1 else 0) + Pads([]);
    assert Pads(q[..2]) == (if q[1] == PAD then 1 else 0) + Pads(q[..1]);
    assert Pads(q[..3]) == (if q[2] == PAD then 1 else 0) + Pads(q[..2]);
  }

  /** Splitting 24 bits into sextets and joining them again. */
  lemma SextetsRejoin(b0: byte, b1: byte, b2: byte)
    ensures ((b0 / 4) * 4 + ((b0 % 4) * 16 + b1 / 16) / 16) % 256 == b0
    ensures (((b0 % 4) * 16 + b1 / 16) * 16 + ((b1 % 16) * 4 + b2 / 64) / 4) % 256 == b1
    ensures (((b1 % 16) * 4 + b2 / 64) * 64 + b2 % 64) % 256 == b2
  {
    assert ((b0 % 4) * 16 + b1 / 16) / 16 == b0 % 4;
    assert ((b1 % 16) * 4 + b2 / 64) / 4 == b1 % 16;
    assert ((b0 % 4) * 16 + b1 / 16) * 16 + b1 % 16 == 256 * (b0 % 4) + b1;
    assert ((b1 % 16) * 4 + b2 / 64) * 64 + b2 % 64 == 256 * (b1 % 16) + b2;
  }

  lemma QuadDecodes(b0: byte, b1: byte, b2: byte)
    ensures var q := Quad(b0, b1, b2);
            Pads(q) == 0 && AllMeaningful(q) && DecodeQuad(q) == [b0, b1, b2]
  {
    var q := Quad(b0, b1, b2);
    TablesInvert(b0 / 4);
    TablesInvert((b0 % 4) * 16 + b1 / 16);
    TablesInvert((b1 % 16) * 4 + b2 / 64);
    TablesInvert(b2 % 64);
    SextetsRejoin(b0, b1, b2);
    hide EncodeTable, DecodeOf;
    PadsOfFour(q);
  }

  lemma DecodeOneGroup(q: seq<byte>, f: seq<byte>)
    requires |q| == 4 && AllMeaningful(q) && AllMeaningful(f)
    requires Pads(q) == 0 && DecodeGroups(f).Some?
    ensures AllMeaningful(q + f) && DecodeGroups(q + f) == Some(DecodeQuad(q) + DecodeGroups(f).value)
  {
    assert (q + f)[..4] == q && (q + f)[4..] == f;
  }

  lemma DecodeLastGroup(q: seq<byte>)
    requires |q| == 4 && AllMeaningful(q) && 0 < Pads(q) <= 2
    ensures DecodeGroups(q) == Some(DecodeQuad(q))
  {
    assert q[..4] == q && DecodeQuad(q) + Zeros(0) == DecodeQuad(q);
  }

  lemma OneLeftDecodes(b0: byte)
    ensures var q := [EncodeTable(b0 / 4), EncodeTable((b0 % 4) * 16), PAD, PAD];
            AllMeaningful(q) && DecodeGroups(q) == Some([b0, 0, 0])
  {
    TablesInvert(b0 / 4);
    TablesInvert((b0 % 4) * 16);
    SextetsRejoin(b0, 0, 0);
    assert DecodeOf(PAD) == 0;
    hide EncodeTable, DecodeOf, DecodeGroups;
    var q := [EncodeTable(b0 / 4), EncodeTable((b0 % 4) * 16), PAD, PAD];
    PadsOfFour(q);
    DecodeLastGroup(q);
  }

  lemma TwoLeftDecodes(b0: byte, b1: byte)
    ensures var q := [EncodeTable(b0 / 4), EncodeTable((b0 % 4) * 16 + b1 / 16), EncodeTable((b1 % 16) * 4), PAD];
            AllMeaningful(q) && DecodeGroups(q) == Some([b0, b1, 0])
  {
    TablesInvert(b0 / 4);
    TablesInvert((b0 % 4) * 16 + b1 / 16);
    TablesInvert((b1 % 16) * 4);
    SextetsRejoin(b0, b1, 0);
    assert DecodeOf(PAD) == 0;
    hide EncodeTable, DecodeOf, DecodeGroups;
    var q := [EncodeTable(b0 / 4), EncodeTable((b0 % 4) * 16 + b1 / 16), EncodeTable((b1 % 16) * 4), PAD];
    PadsOfFour(q);
    DecodeLastGroup(q);
  }

  /** The number of '=' the encoder appends for n bytes. */
  function PadCount(n: nat): nat {
    (3 - n % 3) % 3
  }

  /** Decoding the canonical text gives the bytes back, and a zero for every
      padding character, because the decoder does not shrink its buffer. */
  lemma {:induction false} CanonicalRoundTrip(x: seq<byte>)
    ensures AllMeaningful(Canonical(x))
    ensures DecodeGroups(Canonical(x)) == Some(x + Zeros(PadCount(|x|)))
  {
    if |x| < 3 {
      ShortRoundTrip(x);
    } else {
      CanonicalRoundTrip(x[3..]);
      QuadDecodes(x[0], x[1], x[2]);
      CanonicalOfGroup(x);
      PadCountStep(|x|);
      hide *;
      DecodeOneGroup(Quad(x[0], x[1], x[2]), Canonical(x[3..]));
      assert x == [x[0], x[1], x[2]] + x[3..];
      assert x + Zeros(PadCount(|x|)) == [x[0], x[1], x[2]] + (x[3..] + Zeros(PadCount(|x|)));
    }
  }

  lemma PadCountStep(n: nat)
    requires n >= 3
    ensures PadCount(n - 3) == PadCount(n)
  {
  }

  lemma ShortRoundTrip(x: seq<byte>)
    requires |x| < 3
    ensures AllMeaningful(Canonical(x))
    ensures DecodeGroups(Canonical(x)) == Some(x + Zeros(PadCount(|x|)))
  {
    NoGroups();
    ShortZeros(x);
    ShortCanonical(x);
    hide Canonical, EncodeTable, DecodeGroups, AllMeaningful, Zeros, PadCount;
    if |x| == 1 {
      OneLeftDecodes(x[0]);
    } else if |x| == 2 {
      TwoLeftDecodes(x[0], x[1]);
    }
  }

  lemma ShortCanonical(x: seq<byte>)
    requires |x| < 3
    ensures Canonical(x) ==
            if |x| == 0 then []
            else if |x| == 1 then [EncodeTable(x[0] / 4), EncodeTable((x[0] % 4) * 16), PAD, PAD]
            else [EncodeTable(x[0] / 4), EncodeTable((x[0] % 4) * 16 + x[1] / 16), EncodeTable((x[1] % 16) * 4), PAD]
  {
  }

  lemma ShortZeros(x: seq<byte>)
    requires |x| < 3
    ensures x + Zeros(PadCount(|x|)) ==
            if |x| == 0 then [] else if |x| == 1 then [x[0], 0, 0] else [x[0], x[1], 0]
  {
    assert PadCount(0) == 0 && PadCount(1) == 2 && PadCount(2) == 1;
    hide *;
  }

  lemma NoGroups()
    ensures AllMeaningful([]) && DecodeGroups([]) == Some([])
  {
  }

  lemma WholeGroups(n: nat)
    ensures TextLength(n) % 4 == 0
  {
  }

  /** Whatever text is left of the encoder's output once the characters outside
      the alphabet are ignored decodes to the original, zero-filled to whole groups. */
  lemma RoundTrip(x: seq<byte>, text: seq<byte>)
    requires |x| < TWO62
    requires Filter(text) == Filter(Encoded(x))
    ensures Decoded(text) == x + Zeros(PadCount(|x|))
  {
    CanonicalRoundTrip(x);
    EncodedFilters(x);
    assert |x| == 0 ==> PadCount(|x|) == 0;
    CanonicalLength(x);
    WholeGroups(|x|);
    hide Canonical, Encoded, Filter, DecodeGroups, PadCount, TextLength;
  }

  lemma EncodedFilters(x: seq<byte>)
    requires |x| < TWO62
    ensures Filter(Encoded(x)) == Canonical(x)
  {
    CanonicalRoundTrip(x);
    hide Canonical, DecodeGroups, OutputLength;
    var c := Canonical(x);
    var n := |Encoded(x)| - |c|;
    assert Encoded(x) == c + Blanks(n);
    FilterKeeps(c);
    FilterConcat(c, Blanks(n));
    FilterDropsBlanks(n);
  }

  /** The encoding tells two byte strings apart unless both are too long for it. */
  lemma EncodedInjective(x: seq<byte>, y: seq<byte>)
    requires |x| < TWO64 && |y| < TWO64 && x != y
    ensures Encoded(x) != Encoded(y) <==> |x| < TWO62 || |y| < TWO62
  {
    EncodedLength(x);
    EncodedLength(y);
    if |x| == |y| < TWO62 {
      RoundTrip(x, Encoded(x));
      RoundTrip(y, Encoded(y));
      hide Encoded, Decoded;
      assert x == (x + Zeros(PadCount(|x|)))[..|x|] && y == (y + Zeros(PadCount(|y|)))[..|y|];
    }
  }

  /** The layout of the encoder's output: canonical text, then blanks to the end. */
  lemma EncodedLayout(x: seq<byte>)
    requires |x| < TWO62
    ensures |Encoded(x)| == |x| * 4 / 3 + 4 && (|x| + 2) / 3 * 4 <= |Encoded(x)|
    ensures forall k :: (|x| + 2) / 3 * 4 <= k < |Encoded(x)| ==> Encoded(x)[k] == ' ' as int
    ensures Encoded(x)[..(|x| + 2) / 3 * 4] == Canonical(x)
  {
    EncodedLength(x);
    GuardIsExact(|x|);
    CanonicalLength(x);
    hide Canonical, OutputLength;
  }

  lemma EncodedLength(x: seq<byte>)
    requires |x| < TWO64
    ensures |Encoded(x)| == if |x| >= TWO62 then 0 else |x| * 4 / 3 + 4
  {
    if |x| < TWO62 {
      GuardIsExact(|x|);
      CanonicalLength(x);
      NoWrap(|x|);
      hide Canonical, OutputLength, TextLength;
    }
  }

  lemma NoWrap(len: size_t)
    requires len < TWO62
    ensures OutputLength(len) == len * 4 / 3 + 4
  {
  }

  // ----- The decoder's loops -----

  function Prepend(bytes: seq<byte>, r: Option<seq<byte>>): Option<seq<byte>> {
    if r.None? then None else Some(bytes + r.value)
  }

  /** k of the g groups of f have been decoded into out; none of them was padded. */
  ghost predicate Progress(f: seq<byte>, g: nat, out: seq<byte>, k: nat) {
    && AllMeaningful(f) && |f| == 4 * g && |out| == 3 * g && k <= g
    && DecodeGroups(f) == Prepend(out[..3 * k], DecodeGroups(f[4 * k..]))
    && forall j :: 3 * k <= j < |out| ==> out[j] == 0
  }

  lemma RoomForGroups(g: nat)
    ensures Room(4 * g) == 3 * g
  {
  }

  /** Decoding one more group. */
  lemma GroupDone(f: seq<byte>, g: nat, out: seq<byte>, k: nat, out': seq<byte>)
    requires Progress(f, g, out, k) && k < g
    requires out' == out[..3 * k] + DecodeQuad(f[4 * k..4 * k + 4]) + out[3 * k + 3..]
    ensures var pads := Pads(f[4 * k..4 * k + 4]);
            if pads == 0 then Progress(f, g, out', k + 1)
            else DecodeGroups(f) == if pads <= 2 then Some(out') else None
  {
    hide DecodeQuad, Pads, Room, DecodeGroups, Meaningful;
    var rest, q := f[4 * k..], f[4 * k..4 * k + 4];
    assert rest[..4] == q && rest[4..] == f[4 * k + 4..];
    FirstGroup(rest);
    RoomForGroups(g - k - 1);
    var done, b := out[..3 * k], DecodeQuad(q);
    assert out'[..3 * k + 3] == done + b;
    if Pads(q) == 0 {
      PrependTwice(done, b, DecodeGroups(rest[4..]));
    } else if Pads(q) <= 2 {
      assert out' == done + (b + Zeros(3 * (g - k - 1)));
    }
  }

  lemma PrependTwice(a: seq<byte>, b: seq<byte>, r: Option<seq<byte>>)
    ensures Prepend(a, Prepend(b, r)) == Prepend(a + b, r)
  {
    if r.Some? { assert a + (b + r.value) == a + b + r.value; }
  }

  lemma FirstGroup(f: seq<byte>)
    requires AllMeaningful(f) && |f| >= 4
    ensures DecodeGroups(f) ==
            if Pads(f[..4]) == 0 then Prepend(DecodeQuad(f[..4]), DecodeGroups(f[4..]))
            else if Pads(f[..4]) <= 2 then Some(DecodeQuad(f[..4]) + Zeros(Room(|f| - 4)))
            else None
  {
  }

  lemma FilterPrefix(s: seq<byte>, i: nat)
    requires i < |s|
    ensures var n := |Filter(s[..i])|;
            if Meaningful(s[i]) then |Filter(s[..i + 1])| == n + 1 <= |Filter(s)| && Filter(s)[n] == s[i]
            else |Filter(s[..i + 1])| == n
  {
    assert s[..i + 1][..i] == s[..i];
    assert s == s[..i + 1] + s[i + 1..];
    FilterConcat(s[..i + 1], s[i + 1..]);
  }

  method CountMeaningful(src: array<byte>, table: array<byte>) returns (count: nat)
    requires table.Length == 256 && forall c: byte :: table[c] == DecodeOf(c)
    ensures count == |Filter(src[..])|
  {
    count := 0;
    for i := 0 to src.Length
      invariant count == |Filter(src[..i])|
    {
      FilterPrefix(src[..], i);
      assert src[..][..i + 1] == src[..i + 1] && src[..][..i] == src[..i];
      if table[src[i]] != INVALID {
        count := count + 1;
      }
    }
    assert src[..src.Length] == src[..];
  }

  method WriteGroup(out: array<byte>, pos: nat, block: array<byte>, ghost f: seq<byte>, ghost start: nat, ghost pad: nat)
    requires pos + 3 <= out.Length && block.Length == 4 && block != out
    requires AllMeaningful(f) && Pending(f, start, 4, block[..], pad)
    modifies out
    ensures out[..] == old(out[..pos]) + DecodeQuad(f[start..start + 4]) + old(out[pos + 3..])
  {
    hide DecodeOf;
    var d0: int, d1: int, d2: int, d3: int := block[0], block[1], block[2], block[3];
    out[pos] := (d0 * 4 + d1 / 16) % 256;
    out[pos + 1] := (d1 * 16 + d2 / 4) % 256;
    out[pos + 2] := (d2 * 64 + d3) % 256;
  }

  /** The block holds the values of the last `count` characters, `pad` of them '='. */
  ghost predicate Pending(f: seq<byte>, start: nat, count: nat, block: seq<byte>, pad: nat) {
    && |block| == 4 && count <= 4 && start + count <= |f|
    && (forall j :: 0 <= j < count ==> block[j] == DecodeOf(f[start + j]))
    && pad == Pads(f[start..start + count])
  }

  lemma PendingMore(f: seq<byte>, start: nat, count: nat, block: seq<byte>, pad: nat)
    requires Pending(f, start, count, block, pad) && count < 4 && start + count < |f|
    ensures var c := f[start + count];
            Pending(f, start, count + 1, block[count := DecodeOf(c)], if c == PAD then pad + 1 else pad)
  {
    assert f[start..start + count + 1][..count] == f[start..start + count];
  }

  lemma PendingNone(f: seq<byte>, start: nat, block: seq<byte>)
    requires |block| == 4 && start <= |f|
    ensures Pending(f, start, 0, block, 0)
  {
  }

  lemma ProgressStarts(f: seq<byte>, g: nat, out: seq<byte>)
    requires AllMeaningful(f) && |f| == 4 * g && |out| == 3 * g
    requires forall j :: 0 <= j < |out| ==> out[j] == 0
    ensures Progress(f, g, out, 0)
  {
    assert f[0..] == f && out[..0] == [];
    var r := DecodeGroups(f);
    assert r.Some? ==> [] + r.value == r.value;
  }

  lemma ProgressEnds(f: seq<byte>, g: nat, out: seq<byte>)
    requires Progress(f, g, out, g)
    ensures DecodeGroups(f) == Some(out)
  {
    assert f[4 * g..] == [] && out[..3 * g] == out && out + [] == out;
  }

  /** A complete block: write its three bytes, and stop if it was padded. */
  method FinishGroup(out: array<byte>, position: nat, block: array<byte>, pad: nat, ghost f: seq<byte>, ghost g: nat, ghost k: nat)
    returns (pos: nat, last: bool, ok: bool)
    requires block.Length == 4 && block != out && position == 3 * k && k < g
    requires Progress(f, g, out[..], k) && Pending(f, 4 * k, 4, block[..], pad)
    modifies out
    ensures last <==> pad != 0
    ensures !last ==> ok && pos == position + 3 && pad == 0 && Progress(f, g, out[..], k + 1)
    ensures last ==> DecodeGroups(f) == if ok then Some(out[..]) else None
  {
    hide DecodeOf, DecodeGroups, DecodeQuad, AllMeaningful, Pads;
    ok, last, pos := true, false, position;
    ghost var before := out[..];
    WriteGroup(out, pos, block, f, 4 * k, pad);
    GroupDone(f, g, before, k, out[..]);
    pos := pos + 3;
    if pad != 0 {
      last := true;
      if pad == 1 {
        pos := pos - 1;
      } else if pad == 2 {
        pos := pos - 2;
      } else {
        ok := false;
      }
    }
  }

  /** Between two characters: k groups are decoded and `count` characters wait. */
  ghost predicate Decoding(f: seq<byte>, g: nat, k: nat, out: seq<byte>, block: seq<byte>, count: nat, pad: nat, pos: nat) {
    && count < 4 && pos == 3 * k && 4 * k + count <= 4 * g == |f|
    && Pending(f, 4 * k, count, block, pad)
    && Progress(f, g, out, k)
  }

  /** One meaningful character of the second scan. */
  method TakeCharacter(c: byte, out: array<byte>, position: nat, block: array<byte>, number: nat, padding: nat,
                       ghost f: seq<byte>, ghost g: nat, ghost k: nat)
    returns (count: nat, pad: nat, pos: nat, last: bool, ok: bool)
    requires block != out && Decoding(f, g, k, out[..], block[..], number, padding, position)
    requires 4 * k + number < 4 * g && c == f[4 * k + number]
    modifies out, block
    ensures !last ==> ok && if number < 3 then count == number + 1 && Decoding(f, g, k, out[..], block[..], count, pad, pos)
                            else count == 0 && Decoding(f, g, k + 1, out[..], block[..], count, pad, pos)
    ensures last ==> DecodeGroups(f) == if ok then Some(out[..]) else None
  {
    hide DecodeOf, DecodeGroups, Pads, Progress;
    PendingMore(f, 4 * k, number, block[..], padding);
    count, pad, pos, last, ok := number, padding, position, false, true;
    if c == PAD {
      pad := pad + 1;
    }
    block[count] := DecodeOf(c);
    count := count + 1;
    if count == 4 {
      pos, last, ok := FinishGroup(out, pos, block, pad, f, g, k);
      count := 0;
      if !last { PendingNone(f, 4 * (k + 1), block[..]); }
    }
  }

  /** The second scan: false when a group holds more than two '='. */
  method DecodeInto(src: array<byte>, table: array<byte>, out: array<byte>, ghost g: nat) returns (ok: bool)
    requires table.Length == 256 && table != out && forall c: byte :: table[c] == DecodeOf(c)
    requires src != out && |Filter(src[..])| == 4 * g && out.Length == 3 * g
    requires forall k :: 0 <= k < out.Length ==> out[k] == 0
    requires AllMeaningful(Filter(src[..]))
    modifies out
    ensures DecodeGroups(Filter(src[..])) == if ok then Some(out[..]) else None
  {
    hide DecodeOf, DecodeGroups, Filter, Progress, Pending, AllMeaningful;
    ghost var text, f, k := src[..], Filter(src[..]), 0;
    var block := new byte[4];
    var count, pad, pos, last := 0, 0, 0, false;
    ProgressStarts(f, g, out[..]);
    PendingNone(f, 0, block[..]);
    assert text[..0] == [] && |Filter([])| == 0 by { FilterOfNothing(); }
    ok := true;
    for i := 0 to src.Length
      invariant ok && fresh(block) && src[..] == text && |Filter(text[..i])| == 4 * k + count
      invariant Decoding(f, g, k, out[..], block[..], count, pad, pos)
    {
      FilterPrefix(text, i);
      assert src[i] == text[i];
      if table[src[i]] != INVALID {
        ghost var waiting := count;
        count, pad, pos, last, ok := TakeCharacter(src[i], out, pos, block, count, pad, f, g, k);
        if last { return; }
        if waiting == 3 { k := k + 1; }
      }
    }
    assert text[..src.Length] == text && k == g;
    ProgressEnds(f, g, out[..]);
  }

  lemma FilterOfNothing()
    ensures Filter([]) == []
  {
  }

  method Decode(src: array<byte>) returns (out: array<byte>)
    ensures fresh(out) && out[..] == Decoded(src[..])
  {
    var table := DecodeTable();
    var count := CountMeaningful(src, table);
    if count == 0 || count % 4 != 0 {
      out := new byte[0];
      return;
    }
    out := new byte[count / 4 * 3](_ => 0);
    FilterIsMeaningful(src[..]);
    hide DecodeGroups, Filter, AllMeaningful, DecodeOf;
    var ok := DecodeInto(src, table, out, count / 4);
    if !ok {
      out := new byte[0];
    }
  }
}
