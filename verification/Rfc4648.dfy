/** Sections 3.5 and 4 of RFC 4648, stated on bit strings and independently of any table. */
module Rfc4648 {
  type Byte = x: nat | x < 256

  const PAD: Byte := 61

  // ---------------------------------------------------------------- bit strings

  function Pow2(k: nat): (p: nat)
    ensures p > 0
  {
    if k == 0 then 1 else 2 * Pow2(k - 1)
  }

  /** The low `width` bits of n, most significant bit first. */
  function Bits(n: nat, width: nat): (s: seq<bool>)
    ensures |s| == width
  {
    if width == 0 then [] else Bits(n / 2, width - 1) + [n % 2 == 1]
  }

  function Value(s: seq<bool>): nat {
    if s == [] then 0 else 2 * Value(s[..|s| - 1]) + (if s[|s| - 1] then 1 else 0)
  }

  /** The concatenation of the digits, each written with `width` bits. */
  function Flatten(digits: seq<nat>, width: nat): (s: seq<bool>)
    ensures |s| == width * |digits|
  {
    if digits == [] then [] else Bits(digits[0], width) + Flatten(digits[1..], width)
  }

  /** The consecutive groups of `width` bits; an incomplete last group is dropped. */
  function Groups(s: seq<bool>, width: nat): seq<nat>
    requires width > 0
  {
    if |s| < width then [] else [Value(s[..width])] + Groups(s[width..], width)
  }

  ghost predicate Below(digits: seq<nat>, bound: nat) {
    forall i :: 0 <= i < |digits| ==> digits[i] < bound
  }

  lemma {:induction false} ValueOfBits(n: nat, width: nat)
    requires n < Pow2(width)
    ensures Value(Bits(n, width)) == n
  {
    if width > 0 {
      ValueOfBits(n / 2, width - 1);
      assert Bits(n, width)[..width - 1] == Bits(n / 2, width - 1);
    }
  }

  lemma {:induction false} BitsOfValue(s: seq<bool>)
    ensures Value(s) < Pow2(|s|)
    ensures Bits(Value(s), |s|) == s
  {
    if s != [] {
      BitsOfValue(s[..|s| - 1]);
    }
  }

  /** Two bit fields side by side are the bits of one number. */
  lemma {:induction false} BitsJoin(a: nat, i: nat, b: nat, j: nat)
    requires b < Pow2(j)
    ensures Bits(a, i) + Bits(b, j) == Bits(a * Pow2(j) + b, i + j)
  {
    if j == 0 {
      assert Bits(b, j) == [];
      assert a * Pow2(j) + b == a;
    } else {
      var n := a * Pow2(j) + b;
      var m := a * Pow2(j - 1);
      assert a * Pow2(j) == 2 * m;
      assert n / 2 == m + b / 2 && n % 2 == b % 2;
      BitsJoin(a, i, b / 2, j - 1);
    }
  }

  lemma {:induction false} FlattenAppend(x: seq<nat>, y: seq<nat>, width: nat)
    ensures Flatten(x + y, width) == Flatten(x, width) + Flatten(y, width)
  {
    if x == [] {
      assert x + y == y;
    } else {
      FlattenAppend(x[1..], y, width);
      assert (x + y)[1..] == x[1..] + y && (x + y)[0] == x[0];
      var head, middle, last := Bits(x[0], width), Flatten(x[1..], width), Flatten(y, width);
      assert head + (middle + last) == (head + middle) + last;
    }
  }

  /** Grouping undoes flattening, whatever incomplete group follows. */
  lemma {:induction false} GroupsOfFlatten(digits: seq<nat>, width: nat, tail: seq<bool>)
    requires width > 0 && Below(digits, Pow2(width)) && |tail| < width
    ensures Groups(Flatten(digits, width) + tail, width) == digits
  {
    if digits == [] {
      assert Flatten(digits, width) + tail == tail;
    } else {
      ValueOfBits(digits[0], width);
      GroupsOfFlatten(digits[1..], width, tail);
      FirstGroup(Bits(digits[0], width), Flatten(digits[1..], width), tail, width);
    }
  }

  lemma FirstGroup(first: seq<bool>, rest: seq<bool>, tail: seq<bool>, width: nat)
    requires |first| == width > 0
    ensures Groups(first + rest + tail, width) == [Value(first)] + Groups(rest + tail, width)
  {
    var s := first + rest + tail;
    assert s[..width] == first && s[width..] == rest + tail;
  }

  /** Flattening undoes grouping, up to the incomplete last group. */
  lemma {:induction false} FlattenOfGroups(s: seq<bool>, width: nat)
    requires width > 0
    ensures Below(Groups(s, width), Pow2(width))
    ensures Flatten(Groups(s, width), width) <= s
    ensures |s| - |Flatten(Groups(s, width), width)| < width
  {
    if |s| >= width {
      FlattenOfGroups(s[width..], width);
      BitsOfValue(s[..width]);
      assert s == s[..width] + s[width..];
      assert Groups(s, width)[1..] == Groups(s[width..], width);
    }
  }

  // ---------------------------------------------------------------- the alphabet (Table 1)

  function CharOf(v: nat): (c: Byte)
    requires v < 64
  {
    if v < 26 then v + 65 else if v < 52 then v + 71 else if v < 62 then v - 4 else if v == 62 then 43 else 47
  }

  predicate InAlphabet(c: Byte) {
    65 <= c <= 90 || 97 <= c <= 122 || 48 <= c <= 57 || c == 43 || c == 47
  }

  function ValueOf(c: Byte): (v: nat)
    requires InAlphabet(c)
    ensures v < 64 && CharOf(v) == c
  {
    if c >= 97 then c - 71 else if c >= 65 then c - 65 else if c == 43 then 62 else if c == 47 then 63 else c + 4
  }

  lemma ValueOfCharOf(v: nat)
    requires v < 64
    ensures InAlphabet(CharOf(v)) && ValueOf(CharOf(v)) == v && CharOf(v) != PAD
  {}

  function Chars(sextets: seq<nat>): (text: seq<Byte>)
    requires Below(sextets, 64)
    ensures |text| == |sextets|
  {
    seq(|sextets|, i requires 0 <= i < |sextets| => CharOf(sextets[i]))
  }

  ghost predicate AllAlphabet(text: seq<Byte>) {
    forall i :: 0 <= i < |text| ==> InAlphabet(text[i])
  }

  function Sextets(text: seq<Byte>): (sextets: seq<nat>)
    requires AllAlphabet(text)
    ensures |sextets| == |text| && Below(sextets, 64)
  {
    seq(|text|, i requires 0 <= i < |text| => ValueOf(text[i]))
  }

  // ---------------------------------------------------------------- encoding

  function Repeat<T>(x: T, n: nat): (s: seq<T>)
    ensures |s| == n && forall i :: 0 <= i < n ==> s[i] == x
  {
    seq(n, _ => x)
  }

  /** Zero bits added on the right to form an integral number of 6-bit groups. */
  function ZeroFilled(bits: seq<bool>): (filled: seq<bool>)
    ensures |filled| % 6 == 0 && bits <= filled && |filled| - |bits| < 6
  {
    bits + Repeat(false, FillerLength(|bits|))
  }

  function FillerLength(n: nat): (k: nat)
    ensures k < 6 && (n + k) % 6 == 0
  {
    if n % 6 == 0 then 0 else 6 - n % 6
  }

  /** The zero bits added after a final quantum of n octets. */
  function FinalFiller(n: nat): (k: nat)
    requires n < 3
  {
    match n case 0 => 0 case 1 => 4 case _ => 2
  }

  lemma FillerOfOctets(bits: nat, quanta: nat, rest: nat)
    requires bits == 24 * quanta + 8 * rest && rest < 3
    ensures FillerLength(bits) == FinalFiller(rest)
  {}

  lemma Pow2Six()
    ensures Pow2(6) == 64 && Pow2(8) == 256
  {}

  ghost function EncodedSextets(data: seq<Byte>): (sextets: seq<nat>)
    ensures Below(sextets, 64)
  {
    var filled := ZeroFilled(Flatten(data, 8));
    Pow2Six();
    FlattenOfGroups(filled, 6);
    Groups(filled, 6)
  }

  /** Two, one or no pads for a final quantum of 8, 16 or 24 bits. */
  function PadsFor(size: nat): (pads: nat)
    ensures pads <= 2
  {
    match size % 3 case 0 => 0 case 1 => 2 case _ => 1
  }

  ghost function Encode(data: seq<Byte>): seq<Byte> {
    Chars(EncodedSextets(data)) + Repeat(PAD, PadsFor(|data|))
  }

  // ---------------------------------------------------------------- decoding

  ghost predicate Padded(text: seq<Byte>, pads: nat) {
    && pads <= |text|
    && AllAlphabet(text[..|text| - pads])
    && forall i :: |text| - pads <= i < |text| ==> text[i] == PAD
  }

  ghost predicate WellFormed(text: seq<Byte>) {
    |text| % 4 == 0 && exists pads: nat :: pads <= 2 && Padded(text, pads)
  }

  ghost function Padding(text: seq<Byte>): (pads: nat)
    requires WellFormed(text)
    ensures pads <= 2 && Padded(text, pads)
  {
    var pads: nat :| pads <= 2 && Padded(text, pads);
    pads
  }

  lemma PadPositions(text: seq<Byte>, pads: nat, i: nat)
    requires Padded(text, pads) && i < |text|
    ensures text[i] == PAD <==> i >= |text| - pads
  {
    if i < |text| - pads {
      assert text[..|text| - pads][i] == text[i];
    }
  }

  lemma PaddingUnique(text: seq<Byte>, p: nat, q: nat)
    requires Padded(text, p) && Padded(text, q)
    ensures p == q
  {
    if p != q {
      var first := |text| - if p < q then q else p;
      PadPositions(text, p, first);
      PadPositions(text, q, first);
    }
  }

  /** The sextets of the text, pads removed. */
  ghost function TextSextets(text: seq<Byte>): (sextets: seq<nat>)
    requires WellFormed(text)
    ensures Below(sextets, 64) && |sextets| == |text| - Padding(text)
  {
    Sextets(text[..|text| - Padding(text)])
  }

  /** The octets spelled by the sextets; the incomplete last octet is the filler of the encoder. */
  ghost function Decode(text: seq<Byte>): (data: seq<Byte>)
    requires WellFormed(text)
  {
    var bits := Flatten(TextSextets(text), 6);
    Pow2Six();
    FlattenOfGroups(bits, 8);
    AsBytes(Groups(bits, 8))
  }

  function AsBytes(digits: seq<nat>): (data: seq<Byte>)
    requires Below(digits, 256)
    ensures data == digits
  {
    digits
  }

  // ---------------------------------------------------------------- the two directions

  /** Four characters for every three octets or part of them. */
  lemma EncodedLength(data: seq<Byte>)
    ensures |EncodedSextets(data)| + PadsFor(|data|) == 4 * ((|data| + 2) / 3)
    ensures Flatten(EncodedSextets(data), 6) == ZeroFilled(Flatten(data, 8))
  {
    var filled := ZeroFilled(Flatten(data, 8));
    FlattenOfGroups(filled, 6);
    WholeGroups(|filled|, |EncodedSextets(data)|);
    SextetCount(|data|, |filled|, |EncodedSextets(data)|);
  }

  lemma WholeGroups(bits: nat, sextets: nat)
    requires bits % 6 == 0 && 6 * sextets <= bits < 6 * sextets + 6
    ensures bits == 6 * sextets
  {}

  lemma SextetCount(octets: nat, bits: nat, sextets: nat)
    requires bits == 8 * octets + FillerLength(8 * octets) && bits == 6 * sextets
    ensures sextets + PadsFor(octets) == 4 * ((octets + 2) / 3)
  {
    var quanta, rest := octets / 3, octets % 3;
    assert 8 * octets == 24 * quanta + 8 * rest;
    FillerOfOctets(8 * octets, quanta, rest);
  }

  lemma CharsAreAlphabet(sextets: seq<nat>)
    requires Below(sextets, 64)
    ensures AllAlphabet(Chars(sextets)) && Sextets(Chars(sextets)) == sextets
  {
    forall i | 0 <= i < |sextets| ensures InAlphabet(Chars(sextets)[i]) && ValueOf(Chars(sextets)[i]) == sextets[i] {
      ValueOfCharOf(sextets[i]);
    }
  }

  /** A text made of alphabet characters and pads is read back as it was made. */
  lemma TextShape(text: seq<Byte>, sextets: seq<nat>, pads: nat, quanta: nat)
    requires Below(sextets, 64) && pads <= 2 && |sextets| + pads == 4 * quanta
    requires text == Chars(sextets) + Repeat(PAD, pads)
    ensures WellFormed(text) && Padding(text) == pads && TextSextets(text) == sextets
  {
    CharsAreAlphabet(sextets);
    assert text[..|text| - pads] == Chars(sextets);
    assert Padded(text, pads);
    PaddingUnique(text, pads, Padding(text));
  }

  lemma EncodedShape(data: seq<Byte>)
    ensures WellFormed(Encode(data))
    ensures Padding(Encode(data)) == PadsFor(|data|)
    ensures TextSextets(Encode(data)) == EncodedSextets(data)
    ensures Flatten(EncodedSextets(data), 6) == ZeroFilled(Flatten(data, 8))
  {
    EncodedLength(data);
    TextShape(Encode(data), EncodedSextets(data), PadsFor(|data|), (|data| + 2) / 3);
  }

  /** Decoding undoes encoding. */
  lemma DecodeOfEncode(data: seq<Byte>)
    ensures WellFormed(Encode(data))
    ensures Decode(Encode(data)) == data
  {
    EncodedShape(data);
    var bits := Flatten(data, 8);
    var filler := ZeroFilled(bits)[|bits|..];
    assert ZeroFilled(bits) == bits + filler;
    Pow2Six();
    GroupsOfFlatten(data, 8, filler);
  }

  /** One more than the largest value of the 2 * pads low bits that no octet uses (section 3.5). */
  function UnusedRange(pads: nat): (r: nat)
    requires pads <= 2
    ensures r == Pow2(2 * pads)
  {
    if pads == 0 then 1 else if pads == 1 then 4 else 16
  }

  function ClearLow(v: nat, pads: nat): (w: nat)
    requires pads <= 2
    ensures w <= v
  {
    v - v % UnusedRange(pads)
  }

  function LastSextetCleared(sextets: seq<nat>, pads: nat): (cleared: seq<nat>)
    requires pads <= 2 && Below(sextets, 64)
    ensures Below(cleared, 64) && |cleared| == |sextets|
  {
    var n := |sextets|;
    if n == 0 then sextets
    else
      assert sextets[n - 1] < 64;
      sextets[..n - 1] + [ClearLow(sextets[n - 1], pads)]
  }

  /** The text with the unused low bits of its last sextet cleared. */
  ghost function ZeroUnused(text: seq<Byte>): seq<Byte>
    requires WellFormed(text)
  {
    Chars(LastSextetCleared(TextSextets(text), Padding(text))) + Repeat(PAD, Padding(text))
  }

  /** Section 3.5: the pad bits are set to zero. */
  ghost predicate Canonical(text: seq<Byte>)
    requires WellFormed(text)
  {
    var sextets := TextSextets(text);
    sextets != [] ==> sextets[|sextets| - 1] % UnusedRange(Padding(text)) == 0
  }

  lemma ClearLowValues(v: nat, pads: nat)
    requires 1 <= pads <= 2
    ensures var r := UnusedRange(pads); ClearLow(v, pads) == v / r * r && v == v / r * r + v % r && v % r < r
  {
    assert pads == 1 || pads == 2;
  }

  /** Clearing the low bits of a sextet, as bits. */
  lemma ClearLowBits(v: nat, pads: nat, width: nat)
    requires v < 64 && pads <= 2 && width == 6
    ensures Bits(ClearLow(v, pads), width) == Bits(v, width)[..width - 2 * pads] + Repeat(false, 2 * pads)
  {
    if pads > 0 {
      var r := UnusedRange(pads);
      ClearLowValues(v, pads);
      ClearField(ClearLow(v, pads), v, v / r, v % r, r, width - 2 * pads, 2 * pads);
    }
  }

  lemma ClearField(w: nat, v: nat, high: nat, low: nat, r: nat, i: nat, k: nat)
    requires r == Pow2(k) && low < r && w == high * r && v == high * r + low
    ensures Bits(w, i + k) == Bits(v, i + k)[..i] + Repeat(false, k)
  {
    BitsJoin(high, i, low, k);
    BitsJoin(high, i, 0, k);
    ZeroBits(k);
  }

  lemma {:induction false} ZeroBits(k: nat)
    ensures Bits(0, k) == Repeat(false, k)
  {
    if k > 0 {
      ZeroBits(k - 1);
    }
  }

  lemma FlattenLast(front: seq<nat>, v: nat, width: nat)
    ensures Flatten(front + [v], width) == Flatten(front, width) + Bits(v, width)
  {
    FlattenAppend(front, [v], width);
    assert [v][1..] == [];
    assert Flatten([v], width) == Bits(v, width) + [];
  }

  lemma ClearedLast(front: seq<nat>, v: nat, pads: nat, width: nat)
    requires v < 64 && pads <= 2 && width == 6
    ensures ReplacesTail(Flatten(front + [ClearLow(v, pads)], width), Flatten(front + [v], width), Repeat(false, 2 * pads))
  {
    var w := ClearLow(v, pads);
    ClearLowBits(v, pads, width);
    FlattenLast(front, v, width);
    FlattenLast(front, w, width);
    ReplaceTail(Flatten(front, width), Bits(v, width), Bits(w, width), Repeat(false, 2 * pads));
  }

  /** The bit string is another one with its last bits replaced by the given ones. */
  ghost predicate ReplacesTail(bits': seq<bool>, bits: seq<bool>, low: seq<bool>) {
    |low| <= |bits| && bits' == bits[..|bits| - |low|] + low
  }

  lemma ReplaceTail(front: seq<bool>, last: seq<bool>, last': seq<bool>, low: seq<bool>)
    requires |low| <= |last| && last' == last[..|last| - |low|] + low
    ensures ReplacesTail(front + last', front + last, low)
  {}

  lemma ClearedBits(sextets: seq<nat>, pads: nat)
    requires pads <= 2 && Below(sextets, 64) && sextets != []
    ensures ReplacesTail(Flatten(LastSextetCleared(sextets, pads), 6), Flatten(sextets, 6), Repeat(false, 2 * pads))
  {
    var n := |sextets|;
    var front, v := sextets[..n - 1], sextets[n - 1];
    assert sextets == front + [v];
    ClearedLast(front, v, pads, 6);
  }

  /** The octets of a decoded text are its bits, less the 2 * pads unused ones. */
  lemma DecodedBits(text: seq<Byte>)
    requires WellFormed(text)
    ensures var bits := Flatten(TextSextets(text), 6);
            2 * Padding(text) <= |bits| && Flatten(Decode(text), 8) == bits[..|bits| - 2 * Padding(text)]
    ensures |Decode(text)| == 3 * (|text| / 4) - Padding(text)
  {
    var bits, pads, quanta := Flatten(TextSextets(text), 6), Padding(text), |text| / 4;
    FlattenOfGroups(bits, 8);
    assert |bits| == 24 * quanta - 6 * pads;
    DroppedBits(quanta, pads, |Decode(text)|);
  }

  lemma DroppedBits(quanta: nat, pads: nat, size: nat)
    requires pads <= 2 && 8 * size <= 24 * quanta - 6 * pads < 8 * size + 8
    ensures size == 3 * quanta - pads
  {}

  lemma FillerOfText(size: nat, quanta: nat, pads: nat)
    requires pads <= 2 && size == 3 * quanta - pads
    ensures FillerLength(8 * size) == 2 * pads && PadsFor(size) == pads
  {
    if pads == 0 {
      FillerOfOctets(8 * size, quanta, 0);
    } else {
      FillerOfOctets(8 * size, quanta - 1, 3 - pads);
    }
  }

  lemma FillerRestored(data: seq<Byte>, quanta: nat, pads: nat)
    requires pads <= 2 && |data| == 3 * quanta - pads
    ensures ZeroFilled(Flatten(data, 8)) == Flatten(data, 8) + Repeat(false, 2 * pads)
    ensures PadsFor(|data|) == pads
  {
    FillerOfText(|data|, quanta, pads);
  }

  /** Encoding undoes decoding up to the unused bits, for every accepted text. */
  lemma EncodeOfDecode(text: seq<Byte>)
    requires WellFormed(text)
    ensures Encode(Decode(text)) == ZeroUnused(text)
  {
    var sextets, pads := TextSextets(text), Padding(text);
    var bits, cleared := Flatten(sextets, 6), LastSextetCleared(sextets, pads);
    DecodedBits(text);
    if sextets != [] {
      ClearedBits(sextets, pads);
    }
    FillerRestored(Decode(text), |text| / 4, pads);
    assert ZeroFilled(Flatten(Decode(text), 8)) == Flatten(cleared, 6);
    Pow2Six();
    GroupsOfFlatten(cleared, 6, []);
    assert Flatten(cleared, 6) + [] == Flatten(cleared, 6);
  }

  /** Re-encoding gives the same text exactly for canonical texts. */
  lemma CanonicalIffStable(text: seq<Byte>)
    requires WellFormed(text)
    ensures Encode(Decode(text)) == text <==> Canonical(text)
  {
    EncodeOfDecode(text);
    var sextets, pads := TextSextets(text), Padding(text);
    var cleared := LastSextetCleared(sextets, pads);
    TextShape(ZeroUnused(text), cleared, pads, |text| / 4);
    assert Chars(sextets) == text[..|text| - pads];
    assert text == Chars(sextets) + Repeat(PAD, pads);
    if Canonical(text) {
      assert cleared == sextets;
    } else {
      assert cleared != sextets;
    }
  }
}
