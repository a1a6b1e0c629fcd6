/** The table-driven encoder and decoder, proved against the bit-string definition of RFC 4648. */
module Base64 {
  import opened Rfc4648
  import opened Base64Tables

  datatype DecodeError = NotDivisibleBy4 | TooMuchPadding | InvalidCharacter
  datatype Result<T> = Ok(value: T) | Err(error: DecodeError)

  // ---------------------------------------------------------------- bitwise or

  function Either(s: seq<bool>, t: seq<bool>): (r: seq<bool>)
    requires |s| == |t|
    ensures |r| == |s|
  {
    seq(|s|, i requires 0 <= i < |s| => s[i] || t[i])
  }

  function Digit(b: bool): nat { if b then 1 else 0 }

  /** `operator|`. */
  function Or(a: nat, b: nat): (r: nat)
    ensures r >= a && r >= b
  {
    if a == 0 then b
    else if b == 0 then a
    else 2 * Or(a / 2, b / 2) + Digit(a % 2 == 1 || b % 2 == 1)
  }

  lemma {:induction false} ValueJoin(s: seq<bool>, t: seq<bool>)
    ensures Value(s + t) == Value(s) * Pow2(|t|) + Value(t)
  {
    if t == [] {
      assert s + t == s;
    } else {
      var n, p := |t|, Pow2(|t| - 1);
      ValueJoin(s, t[..n - 1]);
      assert (s + t)[..|s + t| - 1] == s + t[..n - 1];
      DoubleProduct(Value(s), p);
    }
  }

  lemma DoubleProduct(v: nat, p: nat)
    ensures v * (2 * p) == 2 * (v * p)
  {}

  lemma EitherJoin(s: seq<bool>, s': seq<bool>, t: seq<bool>, t': seq<bool>)
    requires |s| == |t| && |s'| == |t'|
    ensures Either(s + s', t + t') == Either(s, t) + Either(s', t')
  {}

  lemma OrZero(n: nat)
    ensures Or(n, 0) == n && Or(0, n) == n
  {}

  lemma OrStep(a: nat, b: nat)
    ensures Or(a, b) == 2 * Or(a / 2, b / 2) + Digit(a % 2 == 1 || b % 2 == 1)
  {}

  /** Or works bit by bit. */
  lemma {:induction false} OrBits(a: nat, b: nat, k: nat)
    requires a < Pow2(k) && b < Pow2(k)
    ensures Or(a, b) == Value(Either(Bits(a, k), Bits(b, k)))
  {
    if k > 0 {
      OrBits(a / 2, b / 2, k - 1);
      OrStep(a, b);
      var e := Either(Bits(a, k), Bits(b, k));
      assert e[..k - 1] == Either(Bits(a / 2, k - 1), Bits(b / 2, k - 1));
      assert e[k - 1] == (a % 2 == 1 || b % 2 == 1);
    }
  }

  /** Two words, each given as two fields of i and k bits. */
  lemma OrConcat(x: nat, y: nat, c: nat, a: nat, d: nat, b: nat, i: nat, k: nat)
    requires c < Pow2(i) && d < Pow2(i) && a < Pow2(k) && b < Pow2(k) && x < Pow2(i + k) && y < Pow2(i + k)
    requires Bits(x, i + k) == Bits(c, i) + Bits(a, k) && Bits(y, i + k) == Bits(d, i) + Bits(b, k)
    ensures Or(x, y) == Or(c, d) * Pow2(k) + Or(a, b)
  {
    OrBits(x, y, i + k);
    OrBits(c, d, i);
    OrBits(a, b, k);
    EitherJoin(Bits(c, i), Bits(a, k), Bits(d, i), Bits(b, k));
    ValueJoin(Either(Bits(c, i), Bits(d, i)), Either(Bits(a, k), Bits(b, k)));
  }

  lemma {:induction false} PowerSum(i: nat, k: nat)
    ensures Pow2(i + k) == Pow2(i) * Pow2(k)
  {
    if k > 0 {
      PowerSum(i, k - 1);
      DoubleProduct(Pow2(i), Pow2(k - 1));
    }
  }

  lemma FieldBound(c: nat, a: nat, q: nat, p: nat)
    requires c < q && a < p
    ensures c * p + a < q * p
  {
    assert c * p + p == (c + 1) * p <= q * p;
  }

  lemma {:induction false} BelowPower(n: nat)
    ensures n < Pow2(n)
  {
    if n > 0 {
      BelowPower(n - 1);
    }
  }

  lemma FieldBits(x: nat, c: nat, a: nat, i: nat, k: nat)
    requires c < Pow2(i) && a < Pow2(k) && x == c * Pow2(k) + a
    ensures x < Pow2(i + k) && Bits(x, i + k) == Bits(c, i) + Bits(a, k)
  {
    PowerSum(i, k);
    FieldBound(c, a, Pow2(i), Pow2(k));
    BitsJoin(c, i, a, k);
  }

  /** Fields of k bits are or-ed separately. */
  lemma OrFields(x: nat, y: nat, c: nat, a: nat, d: nat, b: nat, k: nat)
    requires a < Pow2(k) && b < Pow2(k) && x == c * Pow2(k) + a && y == d * Pow2(k) + b
    ensures Or(x, y) == Or(c, d) * Pow2(k) + Or(a, b)
  {
    var i := c + d;
    BelowPower(i);
    FieldBits(x, c, a, i, k);
    FieldBits(y, d, b, i, k);
    OrConcat(x, y, c, a, d, b, i, k);
  }

  lemma PowerValues()
    ensures Pow2(2) == 4 && Pow2(4) == 16 && Pow2(6) == 64 && Pow2(8) == 256 && Pow2(10) == 1024
    ensures Pow2(12) == 4096 && Pow2(14) == 16384 && Pow2(16) == 65536 && Pow2(18) == 262144
  {}

  /** A field above a disjoint one is added. */
  lemma OrAdds(high: nat, low: nat, k: nat, p: nat)
    requires (k == 2 && p == 4) || (k == 4 && p == 16) || (k == 6 && p == 64) || (k == 12 && p == 4096) || (k == 18 && p == 262144)
    requires low < p
    ensures Or(high * p, low) == high * p + low
  {
    PowerValues();
    OrFields(high * p, low, high, 0, 0, low, k);
    OrZero(high);
    OrZero(low);
  }

  /** Fields of one byte are or-ed separately. */
  lemma OrBytes(c: nat, a: nat, d: nat, b: nat)
    requires a < 256 && b < 256
    ensures Or(c * 256 + a, d * 256 + b) == Or(c, d) * 256 + Or(a, b)
  {
    PowerValues();
    OrFields(c * 256 + a, d * 256 + b, c, a, d, b, 8);
  }

  // ---------------------------------------------------------------- the word of a quantum

  /** The three octets held by four sextets. */
  function Octet0(v1: nat, v2: nat): nat { v1 * 4 + v2 / 16 }
  function Octet1(v2: nat, v3: nat): nat { v2 % 16 * 16 + v3 / 4 }
  function Octet2(v3: nat, v4: nat): nat { v3 % 4 * 64 + v4 }

  /** `std::bit_cast` of a word to bytes: byte i in memory order. */
  function MemoryByte(order: ByteOrder, word: nat, i: nat): Byte
    requires i < 4
  {
    word / (match (if order.LittleEndian? then i else 3 - i)
            case 0 => 1
            case 1 => 256
            case 2 => 256 * 256
            case _ => 256 * 256 * 256) % 256
  }

  /** `decidx0` to `decidx2`. */
  function DecodedIndex(order: ByteOrder, i: nat): nat
    requires i < 3
    ensures DecodedIndex(order, i) < 4
  {
    if order.LittleEndian? then i else i + 1
  }

  /** A word whose low byte meets the low field of a two-byte word. */
  lemma OrLowByte(a: nat, b: nat, low: nat)
    requires a < 256 && low < 256
    ensures Or(a, b * 256 + low) == b * 256 + Or(a, low)
  {
    OrBytes(0, a, b, low);
    OrZero(b);
  }

  /** A word that leaves the low byte alone. */
  lemma OrKeepsByte(c: nat, a: nat, d: nat)
    requires a < 256
    ensures Or(c * 256 + a, d * 256) == Or(c, d) * 256 + a
  {
    OrBytes(c, a, d, 0);
    OrZero(a);
  }

  lemma LittleFirst(v1: nat, q2: nat, r2: nat)
    requires v1 < 64 && q2 < 4
    ensures Or(v1 * 4, r2 * 16 * 256 + q2) == r2 * 16 * 256 + (v1 * 4 + q2)
  {
    OrLowByte(v1 * 4, r2 * 16, q2);
    OrAdds(v1, q2, 2, 4);
  }

  lemma LittleSecond(o0: nat, r2: nat, q3: nat, r3: nat)
    requires o0 < 256 && r2 < 16 && q3 < 16
    ensures Or(r2 * 16 * 256 + o0, (r3 * 64 * 256 + q3) * 256) == (r3 * 64 * 256 + (r2 * 16 + q3)) * 256 + o0
  {
    OrKeepsByte(r2 * 16, o0, r3 * 64 * 256 + q3);
    OrLowByte(r2 * 16, r3 * 64, q3);
    OrAdds(r2, q3, 4, 16);
  }

  lemma LittleThird(o0: nat, o1: nat, r3: nat, v4: nat)
    requires o0 < 256 && o1 < 256 && v4 < 64
    ensures Or((r3 * 64 * 256 + o1) * 256 + o0, v4 * 256 * 256) == ((r3 * 64 + v4) * 256 + o1) * 256 + o0
  {
    OrKeepsByte(r3 * 64 * 256 + o1, o0, v4 * 256);
    OrKeepsByte(r3 * 64, o1, v4);
    OrAdds(r3, v4, 6, 64);
  }

  /** The sextets of a quantum occupy disjoint bits of the word, so or-ing them one by one adds them. */
  lemma OrSecond(order: ByteOrder, v1: nat, v2: nat)
    requires v1 < 64 && v2 < 64
    ensures Or(Spread(order, 0, v1), Spread(order, 1, v2)) == Spread(order, 0, v1) + Spread(order, 1, v2)
  {
    match order {
      case LittleEndian => LittleFirst(v1, v2 / 16, v2 % 16);
      case BigEndian => OrAdds(v1, v2 * 4096, 18, 262144);
    }
  }

  lemma OrThird(order: ByteOrder, v1: nat, v2: nat, v3: nat, word: nat)
    requires v1 < 64 && v2 < 64 && v3 < 64
    requires word == Spread(order, 0, v1) + Spread(order, 1, v2)
    ensures Or(word, Spread(order, 2, v3)) == word + Spread(order, 2, v3)
  {
    match order {
      case LittleEndian => LittleSecond(v1 * 4 + v2 / 16, v2 % 16, v3 / 4, v3 % 4);
      case BigEndian => OrAdds(v1 * 64 + v2, v3 * 64, 12, 4096);
    }
  }

  lemma OrFourth(order: ByteOrder, v1: nat, v2: nat, v3: nat, v4: nat, word: nat)
    requires v1 < 64 && v2 < 64 && v3 < 64 && v4 < 64
    requires word == Spread(order, 0, v1) + Spread(order, 1, v2) + Spread(order, 2, v3)
    ensures Or(word, Spread(order, 3, v4)) == word + Spread(order, 3, v4)
  {
    match order {
      case LittleEndian => LittleThird(v1 * 4 + v2 / 16, v2 % 16 * 16 + v3 / 4, v3 % 4, v4);
      case BigEndian => OrAdds((v1 * 64 + v2) * 64 + v3, v4, 6, 64);
    }
  }

  function Word(order: ByteOrder, v1: nat, v2: nat, v3: nat, v4: nat): nat {
    Spread(order, 0, v1) + Spread(order, 1, v2) + Spread(order, 2, v3) + Spread(order, 3, v4)
  }

  lemma BytesOfWord(word: nat, low: nat, middle: nat, high: nat)
    requires low < 256 && middle < 256 && high < 256
    requires word == low + 256 * middle + 256 * 256 * high
    ensures word % 256 == low && word / 256 % 256 == middle && word / (256 * 256) % 256 == high
  {
    assert word / 256 == middle + 256 * high;
    assert word / (256 * 256) == high;
  }

  /** What `bit_cast` and the three decoded indices read from a word. */
  lemma DecodedBytes(order: ByteOrder, word: nat, o0: nat, o1: nat, o2: nat)
    requires o0 < 256 && o1 < 256 && o2 < 256
    requires order.LittleEndian? ==> word == o0 + 256 * o1 + 256 * 256 * o2
    requires order.BigEndian? ==> word == o2 + 256 * o1 + 256 * 256 * o0
    ensures MemoryByte(order, word, DecodedIndex(order, 0)) == o0
    ensures MemoryByte(order, word, DecodedIndex(order, 1)) == o1
    ensures MemoryByte(order, word, DecodedIndex(order, 2)) == o2
  {
    match order {
      case LittleEndian => BytesOfWord(word, o0, o1, o2);
      case BigEndian => BytesOfWord(word, o2, o1, o0);
    }
  }

  /** The word as the octets of the quantum, for sextets split as v2 == 16 * q2 + r2 and v3 == 4 * q3 + r3. */
  lemma WordValue(order: ByteOrder, v1: nat, q2: nat, r2: nat, q3: nat, r3: nat, v4: nat)
    requires r2 < 16 && r3 < 4
    ensures var o0, o1, o2 := v1 * 4 + q2, r2 * 16 + q3, r3 * 64 + v4;
      Word(order, v1, q2 * 16 + r2, q3 * 4 + r3, v4) ==
        if order.LittleEndian? then o0 + 256 * o1 + 256 * 256 * o2 else o2 + 256 * o1 + 256 * 256 * o0
  {
    assert (q2 * 16 + r2) / 16 == q2 && (q2 * 16 + r2) % 16 == r2;
    assert (q3 * 4 + r3) / 4 == q3 && (q3 * 4 + r3) % 4 == r3;
  }

  /** Both builds read the same three octets from the word, which is below the bad entry. */
  lemma WordOctets(order: ByteOrder, v1: nat, v2: nat, v3: nat, v4: nat)
    requires v1 < 64 && v2 < 64 && v3 < 64 && v4 < 64
    ensures Word(order, v1, v2, v3, v4) < BAD_CHAR
    ensures MemoryByte(order, Word(order, v1, v2, v3, v4), DecodedIndex(order, 0)) == Octet0(v1, v2)
    ensures MemoryByte(order, Word(order, v1, v2, v3, v4), DecodedIndex(order, 1)) == Octet1(v2, v3)
    ensures MemoryByte(order, Word(order, v1, v2, v3, v4), DecodedIndex(order, 2)) == Octet2(v3, v4)
  {
    WordValue(order, v1, v2 / 16, v2 % 16, v3 / 4, v3 % 4, v4);
    DecodedBytes(order, Word(order, v1, v2, v3, v4), Octet0(v1, v2), Octet1(v2, v3), Octet2(v3, v4));
  }

  // ---------------------------------------------------------------- quanta as bits

  lemma FlattenFirst(a: nat, rest: seq<nat>, width: nat)
    ensures Flatten([a] + rest, width) == Bits(a, width) + Flatten(rest, width)
  {
    assert ([a] + rest)[1..] == rest;
  }

  lemma FlattenTwo(a: nat, b: nat, width: nat)
    ensures Flatten([a, b], width) == Bits(a, width) + Bits(b, width)
  {
    FlattenFirst(b, [], width);
    FlattenFirst(a, [b], width);
    assert [b] + [] == [b] && [a] + [b] == [a, b] && Bits(b, width) + [] == Bits(b, width);
  }

  lemma FlattenThree(a: nat, b: nat, c: nat, width: nat)
    ensures Flatten([a, b, c], width) == Bits(a, width) + (Bits(b, width) + Bits(c, width))
  {
    FlattenTwo(b, c, width);
    FlattenFirst(a, [b, c], width);
    assert [a] + [b, c] == [a, b, c];
  }

  lemma FlattenFour(a: nat, b: nat, c: nat, d: nat, width: nat)
    ensures Flatten([a, b, c, d], width) == Bits(a, width) + (Bits(b, width) + (Bits(c, width) + Bits(d, width)))
  {
    FlattenThree(b, c, d, width);
    FlattenFirst(a, [b, c, d], width);
    assert [a] + [b, c, d] == [a, b, c, d];
  }

  lemma Reassociate(a: seq<bool>, b: seq<bool>, b': seq<bool>, c: seq<bool>, c': seq<bool>, d: seq<bool>)
    ensures a + ((b + b') + ((c + c') + d)) == (a + b) + ((b' + c) + (c' + d))
  {}

  /** Six fields of 2, 4 or 6 bits, joined two ways; the widths and their powers are kept symbolic. */
  lemma QuantumFields(v1: nat, q2: nat, r2: nat, q3: nat, r3: nat, v4: nat, i: nat, j: nat, k: nat)
    requires Pow2(i) == 4 && Pow2(j) == 16 && Pow2(k) == 64
    requires q2 < 4 && r2 < 16 && q3 < 16 && r3 < 4 && v4 < 64
    ensures Bits(v1, k) + (Bits(q2 * 16 + r2, i + j) + (Bits(q3 * 4 + r3, j + i) + Bits(v4, k)))
         == Bits(v1 * 4 + q2, k + i) + (Bits(r2 * 16 + q3, j + j) + Bits(r3 * 64 + v4, i + k))
  {
    BitsJoin(q2, i, r2, j);
    BitsJoin(q3, j, r3, i);
    BitsJoin(v1, k, q2, i);
    BitsJoin(r2, j, q3, j);
    BitsJoin(r3, i, v4, k);
    Reassociate(Bits(v1, k), Bits(q2, i), Bits(r2, j), Bits(q3, j), Bits(r3, i), Bits(v4, k));
  }

  /** Four sextets and the three octets they hold are the same bits, at any widths i + j == k and j + j == k + i == w. */
  lemma QuantumBitsAt(v1: nat, v2: nat, v3: nat, v4: nat, i: nat, j: nat, k: nat, w: nat)
    requires Pow2(i) == 4 && Pow2(j) == 16 && Pow2(k) == 64 && i + j == k && j + j == w && k + i == w
    requires v1 < 64 && v2 < 64 && v3 < 64 && v4 < 64
    ensures Flatten([v1, v2, v3, v4], k) == Flatten([Octet0(v1, v2), Octet1(v2, v3), Octet2(v3, v4)], w)
  {
    FlattenFour(v1, v2, v3, v4, k);
    FlattenThree(Octet0(v1, v2), Octet1(v2, v3), Octet2(v3, v4), w);
    QuantumFields(v1, v2 / 16, v2 % 16, v3 / 4, v3 % 4, v4, i, j, k);
  }

  lemma QuantumBits(v1: nat, v2: nat, v3: nat, v4: nat)
    requires v1 < 64 && v2 < 64 && v3 < 64 && v4 < 64
    ensures Flatten([v1, v2, v3, v4], 6) == Flatten([Octet0(v1, v2), Octet1(v2, v3), Octet2(v3, v4)], 8)
  {
    assert Pow2(2) == 4 && Pow2(4) == 16 && Pow2(6) == 64;
    QuantumBitsAt(v1, v2, v3, v4, 2, 4, 6, 8);
  }

  // ---------------------------------------------------------------- encoding

  /** The four sextets of three octets. */
  function QuantumSextets(t1: Byte, t2: Byte, t3: Byte): (q: seq<nat>)
    ensures |q| == 4 && Below(q, 64)
  {
    [t1 / 4, t1 % 4 * 16 + t2 / 16, t2 % 16 * 4 + t3 / 64, t3 % 64]
  }

  lemma OctetsOfSextets(t1: Byte, t2: Byte, t3: Byte)
    ensures var q := QuantumSextets(t1, t2, t3); Octet0(q[0], q[1]) == t1 && Octet1(q[1], q[2]) == t2 && Octet2(q[2], q[3]) == t3
  {
    var v2, v3 := t1 % 4 * 16 + t2 / 16, t2 % 16 * 4 + t3 / 64;
    assert v2 / 16 == t1 % 4 && v2 % 16 == t2 / 16;
    assert v3 / 4 == t2 % 16 && v3 % 4 == t3 / 64;
  }

  lemma SextetBits(t1: Byte, t2: Byte, t3: Byte)
    ensures Flatten(QuantumSextets(t1, t2, t3), 6) == Flatten([t1, t2, t3], 8)
  {
    OctetsOfSextets(t1, t2, t3);
    QuantumOfSextets(QuantumSextets(t1, t2, t3));
  }

  lemma QuantumOfSextets(q: seq<nat>)
    requires |q| == 4 && Below(q, 64)
    ensures Flatten(q, 6) == Flatten([Octet0(q[0], q[1]), Octet1(q[1], q[2]), Octet2(q[2], q[3])], 8)
  {
    assert q == [q[0], q[1], q[2], q[3]];
    QuantumBits(q[0], q[1], q[2], q[3]);
  }

  ghost predicate SameBits(sextets: seq<nat>, data: seq<Byte>) {
    Below(sextets, 64) && Flatten(sextets, 6) == Flatten(data, 8)
  }

  lemma SameBitsAppend(sextets: seq<nat>, data: seq<Byte>, sextets': seq<nat>, data': seq<Byte>)
    requires SameBits(sextets, data) && SameBits(sextets', data')
    ensures SameBits(sextets + sextets', data + data')
  {
    FlattenAppend(sextets, sextets', 6);
    FlattenAppend(data, data', 8);
  }

  lemma ExtendSextets(sextets: seq<nat>, data: seq<Byte>, at: nat)
    requires at + 3 <= |data| && SameBits(sextets, data[..at])
    ensures SameBits(sextets + QuantumSextets(data[at], data[at + 1], data[at + 2]), data[..at + 3])
  {
    SextetBits(data[at], data[at + 1], data[at + 2]);
    SameBitsAppend(sextets, data[..at], QuantumSextets(data[at], data[at + 1], data[at + 2]), [data[at], data[at + 1], data[at + 2]]);
    assert data[..at] + [data[at], data[at + 1], data[at + 2]] == data[..at + 3];
  }

  /** The sextets of a text are fixed by its zero-filled bits. */
  lemma SextetsUnique(sextets: seq<nat>, data: seq<Byte>)
    requires Below(sextets, 64) && Flatten(sextets, 6) == ZeroFilled(Flatten(data, 8))
    ensures EncodedSextets(data) == sextets
  {
    Pow2Six();
    GroupsOfFlatten(sextets, 6, []);
    assert Flatten(sextets, 6) + [] == Flatten(sextets, 6);
  }

  /** The octets of a final quantum and the zero octets that complete it. */
  function PaddedOctets(rest: seq<Byte>): (octets: seq<Byte>)
    requires |rest| < 3
    ensures |octets| == 3
  {
    rest + Repeat(0, 3 - |rest|)
  }

  function PaddedSextets(rest: seq<Byte>): (q: seq<nat>)
    requires |rest| < 3
    ensures |q| == 4 && Below(q, 64)
  {
    var octets := PaddedOctets(rest);
    QuantumSextets(octets[0], octets[1], octets[2])
  }

  lemma PaddedBits(rest: seq<Byte>)
    requires |rest| < 3
    ensures Flatten(PaddedSextets(rest), 6) == Flatten(PaddedOctets(rest), 8)
  {
    var octets := PaddedOctets(rest);
    SextetBits(octets[0], octets[1], octets[2]);
    assert octets == [octets[0], octets[1], octets[2]];
  }

  /** The sextets of a final quantum of one or two octets. */
  function FinalSextets(rest: seq<Byte>): (q: seq<nat>)
    requires |rest| < 3
    ensures Below(q, 64)
  {
    if rest == [] then [] else PaddedSextets(rest)[..|rest| + 1]
  }

  lemma FlattenPrefix(digits: seq<nat>, n: nat, width: nat)
    requires n <= |digits|
    ensures width * n <= |Flatten(digits, width)|
    ensures Flatten(digits[..n], width) == Flatten(digits, width)[..width * n]
  {
    FlattenAppend(digits[..n], digits[n..], width);
    assert digits == digits[..n] + digits[n..];
  }

  lemma {:induction false} FlattenZeros(zeros: seq<nat>, width: nat)
    requires forall i :: 0 <= i < |zeros| ==> zeros[i] == 0
    ensures Flatten(zeros, width) == Repeat(false, width * |zeros|)
  {
    if zeros == [] {
      assert width * |zeros| == 0;
    } else {
      ZeroBits(width);
      FlattenZeros(zeros[1..], width);
      assert width * |zeros| == width + width * (|zeros| - 1);
    }
  }

  lemma AppendAssociates(a: seq<bool>, b: seq<bool>, c: seq<bool>)
    ensures (a + b) + c == a + (b + c)
  {}

  lemma TakeOfRepeat(a: seq<bool>, zeros: nat, n: nat)
    requires |a| <= n <= |a| + zeros
    ensures (a + Repeat(false, zeros))[..n] == a + Repeat(false, n - |a|)
  {}

  /** Dropping whole groups from the end of zero-padded digits leaves the digits and fewer zero bits. */
  lemma DropZeroGroups(q: seq<nat>, n: nat, w: nat, rest: seq<nat>, zeros: seq<nat>, w': nat)
    requires Flatten(q, w) == Flatten(rest + zeros, w')
    requires forall i :: 0 <= i < |zeros| ==> zeros[i] == 0
    requires n <= |q| && w' * |rest| <= w * n
    ensures Flatten(q[..n], w) == Flatten(rest, w') + Repeat(false, w * n - w' * |rest|)
  {
    FlattenPrefix(q, n, w);
    FlattenAppend(rest, zeros, w');
    FlattenZeros(zeros, w');
    TakeOfRepeat(Flatten(rest, w'), w' * |zeros|, w * n);
  }

  lemma FinalBitsAt(q: seq<nat>, rest: seq<Byte>, w: nat, w': nat)
    requires |q| == 4 && w == 6 && w' == 8 && 0 < |rest| < 3 && Flatten(q, w) == Flatten(PaddedOctets(rest), w')
    ensures Flatten(q[..|rest| + 1], w) == Flatten(rest, w') + Repeat(false, FinalFiller(|rest|))
  {
    var zeros: seq<nat> := PaddedOctets(rest)[|rest|..];
    assert PaddedOctets(rest) == rest + zeros;
    DropZeroGroups(q, |rest| + 1, w, rest, zeros, w');
  }

  /** They are the octets followed by zero bits. */
  lemma FinalBits(rest: seq<Byte>)
    requires |rest| < 3
    ensures Flatten(FinalSextets(rest), 6) == Flatten(rest, 8) + Repeat(false, FinalFiller(|rest|))
  {
    if rest == [] {
      assert FinalSextets(rest) == [];
    } else {
      PaddedBits(rest);
      FinalBitsAt(PaddedSextets(rest), rest, 6, 8);
    }
  }

  /** The sextets of all whole quanta and then those of the rest are the sextets of the text. */
  lemma FinishSextets(sextets: seq<nat>, data: seq<Byte>, quanta: nat)
    requires 3 * quanta <= |data| < 3 * quanta + 3 && SameBits(sextets, data[..3 * quanta])
    ensures EncodedSextets(data) == sextets + FinalSextets(data[3 * quanta..])
  {
    FinishBits(sextets, data[..3 * quanta], data[3 * quanta..], quanta);
    assert data == data[..3 * quanta] + data[3 * quanta..];
    SextetsUnique(sextets + FinalSextets(data[3 * quanta..]), data);
  }

  lemma FinishBits(sextets: seq<nat>, front: seq<Byte>, rest: seq<Byte>, quanta: nat)
    requires |front| == 3 * quanta && |rest| < 3 && SameBits(sextets, front)
    ensures Flatten(sextets + FinalSextets(rest), 6) == ZeroFilled(Flatten(front + rest, 8))
  {
    FinalBits(rest);
    FlattenAppend(front, rest, 8);
    FlattenAppend(sextets, FinalSextets(rest), 6);
    JoinFinal(Flatten(sextets, 6), Flatten(FinalSextets(rest), 6), Flatten(front, 8), Flatten(rest, 8), quanta, |rest|);
  }

  /** Whole quanta and a zero-filled rest of n octets, as bits, are the zero-filled whole. */
  lemma JoinFinal(sextets: seq<bool>, last: seq<bool>, front: seq<bool>, rest: seq<bool>, quanta: nat, n: nat)
    requires |front| == 24 * quanta && |rest| == 8 * n && n < 3
    requires sextets == front && last == rest + Repeat(false, FinalFiller(n))
    ensures sextets + last == ZeroFilled(front + rest)
  {
    FillerOfOctets(|front + rest|, quanta, n);
  }

  method EncodeEntry0(c: Byte) returns (e: Byte)
    ensures e == CharOf(c / 4)
  {
    EncodeTable0Entries(c);
    e := EncodeTable0(c);
  }

  method EncodeEntry1(c: Byte) returns (e: Byte)
    ensures e == CharOf(c % 64)
  {
    EncodeTable1Entries(c);
    e := EncodeTable1(c);
  }

  /** The indices into the second encoding table, written with shifts, masks and or. */
  method SecondIndex(t1: Byte, t2: Byte) returns (i: nat)
    ensures i == t1 % 4 * 16 + t2 / 16 < 64
  {
    i := JoinFields(t1 % 4, t2 / 16 % 16, 4, 16);
  }

  method ThirdIndex(t2: Byte, t3: Byte) returns (i: nat)
    ensures i == t2 % 16 * 4 + t3 / 64 < 64
  {
    i := JoinFields(t2 % 16, t3 / 64 % 4, 2, 4);
  }

  /** Two disjoint fields, or-ed. */
  method JoinFields(high: nat, low: nat, k: nat, p: nat) returns (i: nat)
    requires (k == 4 && p == 16) || (k == 2 && p == 4)
    requires low < p
    ensures i == high * p + low
  {
    OrAdds(high, low, k, p);
    i := Or(high * p, low);
  }

  method EncodeSecond(t1: Byte, t2: Byte) returns (e: Byte)
    ensures e == CharOf(t1 % 4 * 16 + t2 / 16)
  {
    var i := SecondIndex(t1, t2);
    e := EncodeEntry1(i);
  }

  method EncodeThird(t2: Byte, t3: Byte) returns (e: Byte)
    ensures e == CharOf(t2 % 16 * 4 + t3 / 64)
  {
    var i := ThirdIndex(t2, t3);
    e := EncodeEntry1(i);
  }

  lemma PadsOfRest(n: nat, quanta: nat)
    requires 3 * quanta <= n < 3 * quanta + 3
    ensures PadsFor(n) == if n == 3 * quanta then 0 else 3 * quanta + 3 - n
  {}

  /** The buffer `after` is `before` with the characters of the sextets q written at `out`. */
  ghost predicate Written(after: seq<Byte>, before: seq<Byte>, out: nat, q: seq<nat>)
    requires Below(q, 64)
  {
    && |after| == |before| && out + |q| <= |before|
    && (forall j :: 0 <= j < |before| && (j < out || out + |q| <= j) ==> after[j] == before[j])
    && (forall j :: 0 <= j < |q| ==> after[out + j] == CharOf(q[j]))
  }

  /** Overwrites four characters of the buffer with those of three octets. */
  method EncodeQuantum(encoded: array<Byte>, out: nat, t1: Byte, t2: Byte, t3: Byte)
    requires out + 4 <= encoded.Length
    modifies encoded
    ensures Written(encoded[..], old(encoded[..]), out, QuantumSextets(t1, t2, t3))
  {
    ghost var q := QuantumSextets(t1, t2, t3);
    encoded[out] := EncodeEntry0(t1);
    encoded[out + 1] := EncodeSecond(t1, t2);
    encoded[out + 2] := EncodeThird(t2, t3);
    encoded[out + 3] := EncodeEntry1(t3);
    assert encoded[out] == CharOf(q[0]) && encoded[out + 1] == CharOf(q[1]);
    assert encoded[out + 2] == CharOf(q[2]) && encoded[out + 3] == CharOf(q[3]);
  }

  lemma FinalOne(t1: Byte)
    ensures FinalSextets([t1]) == [t1 / 4, t1 % 4 * 16]
  {
    var octets := PaddedOctets([t1]);
    assert octets[0] == t1 && octets[1] == 0 && octets[2] == 0;
    var q := QuantumSextets(t1, 0, 0);
    assert PaddedSextets([t1]) == q && q[..2] == [q[0], q[1]];
  }

  lemma FinalTwo(t1: Byte, t2: Byte)
    ensures FinalSextets([t1, t2]) == [t1 / 4, t1 % 4 * 16 + t2 / 16, t2 % 16 * 4]
  {
    var octets := PaddedOctets([t1, t2]);
    assert octets[0] == t1 && octets[1] == t2 && octets[2] == 0;
    var q := QuantumSextets(t1, t2, 0);
    assert PaddedSextets([t1, t2]) == q && q[..3] == [q[0], q[1], q[2]];
  }

  method EncodeOneLeft(encoded: array<Byte>, out: nat, t1: Byte)
    requires out + 2 <= encoded.Length
    modifies encoded
    ensures Written(encoded[..], old(encoded[..]), out, [t1 / 4, t1 % 4 * 16])
  {
    encoded[out] := EncodeEntry0(t1);
    encoded[out + 1] := EncodeEntry1(t1 % 4 * 16);
  }

  method EncodeTwoLeft(encoded: array<Byte>, out: nat, t1: Byte, t2: Byte)
    requires out + 3 <= encoded.Length
    modifies encoded
    ensures Written(encoded[..], old(encoded[..]), out, [t1 / 4, t1 % 4 * 16 + t2 / 16, t2 % 16 * 4])
  {
    encoded[out] := EncodeEntry0(t1);
    encoded[out + 1] := EncodeSecond(t1, t2);
    encoded[out + 2] := EncodeEntry1(t2 % 16 * 4);
  }

  /** The three cases of the tail; the pads are already in the buffer. */
  method EncodeFinal(encoded: array<Byte>, out: nat, rest: seq<Byte>)
    requires |rest| < 3 && out + (if |rest| == 0 then 0 else |rest| + 1) <= encoded.Length
    modifies encoded
    ensures Written(encoded[..], old(encoded[..]), out, FinalSextets(rest))
  {
    match |rest| {
      case 0 =>
      case 1 =>
        EncodeOneLeft(encoded, out, rest[0]);
        FinalOne(rest[0]);
        assert rest == [rest[0]];
      case _ =>
        EncodeTwoLeft(encoded, out, rest[0], rest[1]);
        FinalTwo(rest[0], rest[1]);
        assert rest == [rest[0], rest[1]];
    }
  }

  lemma WrittenExtends(after: seq<Byte>, before: seq<Byte>, written: seq<nat>, q: seq<nat>, size: nat)
    requires Below(written, 64) && Below(q, 64) && |written| + |q| <= size
    requires before == Chars(written) + Repeat(PAD, size - |written|)
    requires Written(after, before, |written|, q)
    ensures after == Chars(written + q) + Repeat(PAD, size - |written + q|)
  {
    var out := |written|;
    forall j | 0 <= j < size ensures after[j] == (Chars(written + q) + Repeat(PAD, size - |written + q|))[j] {
      if out <= j < out + |q| {
        assert after[out + (j - out)] == CharOf(q[j - out]);
      }
    }
  }

  /** The encoder: a buffer of the exact size filled with pads, overwritten four characters at a time. */
  method EncodeInto(data: seq<Byte>) returns (encoded: array<Byte>)
    ensures fresh(encoded)
    ensures encoded[..] == Encode(data)
  {
    var n := |data| / 3;
    assert 3 * n <= |data| < 3 * n + 3;
    var size := (n + (if |data| % 3 > 0 then 1 else 0)) * 4;
    encoded := new Byte[size](_ => PAD);
    var at, out := 0, 0;
    var i := n;
    ghost var sextets: seq<nat> := [];
    assert encoded[..] == Chars(sextets) + Repeat(PAD, size - out);
    while i > 0
      invariant 0 <= i <= n && at == 3 * (n - i) <= |data| && out == 4 * (n - i) <= size
      invariant encoded.Length == size
      invariant |sextets| == out && SameBits(sextets, data[..at])
      invariant encoded[..] == Chars(sextets) + Repeat(PAD, size - out)
    {
      ghost var before, q := encoded[..], QuantumSextets(data[at], data[at + 1], data[at + 2]);
      EncodeQuantum(encoded, out, data[at], data[at + 1], data[at + 2]);
      WrittenExtends(encoded[..], before, sextets, q, size);
      ExtendSextets(sextets, data, at);
      sextets := sextets + q;
      at, out, i := at + 3, out + 4, i - 1;
    }
    ghost var before := encoded[..];
    EncodeFinal(encoded, out, data[at..]);
    EncodedResult(encoded[..], before, sextets, data, n, size);
  }

  lemma EncodedResult(after: seq<Byte>, before: seq<Byte>, sextets: seq<nat>, data: seq<Byte>, n: nat, size: nat)
    requires 3 * n <= |data| < 3 * n + 3 && size == 4 * n + (if |data| == 3 * n then 0 else 4)
    requires |sextets| == 4 * n && SameBits(sextets, data[..3 * n])
    requires before == Chars(sextets) + Repeat(PAD, size - 4 * n)
    requires Written(after, before, 4 * n, FinalSextets(data[3 * n..]))
    ensures after == Encode(data)
  {
    FinishSextets(sextets, data, n);
    PadsOfRest(|data|, n);
    WrittenExtends(after, before, sextets, FinalSextets(data[3 * n..]), size);
  }

  method ToBase64(data: seq<Byte>) returns (text: seq<Byte>)
    ensures text == Encode(data)
  {
    var encoded := EncodeInto(data);
    text := encoded[..];
  }

  // ---------------------------------------------------------------- decoding

  function IsPad(c: Byte): nat { if c == PAD then 1 else 0 }

  /** The pads counted anywhere in the last four characters. */
  function PadsInLastFour(text: seq<Byte>): (n: nat)
    requires |text| >= 4
    ensures n <= 4
  {
    var k := |text|;
    IsPad(text[k - 1]) + IsPad(text[k - 2]) + IsPad(text[k - 3]) + IsPad(text[k - 4])
  }

  /** With at most two pads counted, only the characters before that many last ones need checking. */
  lemma WellFormedByCount(text: seq<Byte>)
    requires |text| >= 4 && |text| % 4 == 0
    ensures WellFormed(text) <==> PadsInLastFour(text) <= 2 && AllAlphabet(text[..|text| - PadsInLastFour(text)])
    ensures WellFormed(text) ==> Padding(text) == PadsInLastFour(text)
  {
    var n, k := PadsInLastFour(text), |text|;
    if WellFormed(text) {
      var pads := Padding(text);
      PadPositions(text, pads, k - 1);
      PadPositions(text, pads, k - 2);
      PadPositions(text, pads, k - 3);
      PadPositions(text, pads, k - 4);
      assert n == pads;
    } else if n <= 2 && AllAlphabet(text[..k - n]) {
      AlphabetHasNoPad(text, k - n, k - 3);
      AlphabetHasNoPad(text, k - n, k - 4);
      AlphabetHasNoPad(text, k - n, k - 2);
      AlphabetHasNoPad(text, k - n, k - 1);
      assert Padded(text, n);
    }
  }

  lemma AlphabetHasNoPad(text: seq<Byte>, n: nat, i: nat)
    requires n <= |text| && AllAlphabet(text[..n])
    ensures i < n ==> text[i] != PAD
  {
    if i < n {
      assert InAlphabet(text[..n][i]);
    }
  }

  method DecodeEntry(order: ByteOrder, k: nat, c: Byte) returns (d: nat)
    requires k < 4
    ensures d == Entry(order, k, c)
  {
    DecodeTables(order, k, c);
    d := DecodeTable(order, k, c);
  }

  /** The octets completed by two, three or four sextets. */
  function QuantumOctets(sextets: seq<nat>): (octets: seq<Byte>)
    requires 2 <= |sextets| <= 4 && Below(sextets, 64)
    ensures |octets| == |sextets| - 1
  {
    var v := sextets + Repeat(0, 4 - |sextets|);
    [Octet0(v[0], v[1]), Octet1(v[1], v[2]), Octet2(v[2], v[3])][..|sextets| - 1]
  }

  /** The or of the table entries of the first n characters. */
  function OrEntries(order: ByteOrder, chars: seq<Byte>, n: nat): nat
    requires 0 < n <= |chars| <= 4
  {
    var e := Entry(order, n - 1, chars[n - 1]);
    if n == 1 then e else Or(OrEntries(order, chars, n - 1), e)
  }

  function PartialWord(order: ByteOrder, v: seq<nat>, n: nat): nat
    requires n <= |v| <= 4
  {
    if n == 0 then 0 else PartialWord(order, v, n - 1) + Spread(order, n - 1, v[n - 1])
  }

  lemma {:induction false} GoodEntries(order: ByteOrder, chars: seq<Byte>, n: nat)
    requires 0 < n <= |chars| <= 4 && AllAlphabet(chars)
    ensures OrEntries(order, chars, n) == PartialWord(order, Sextets(chars), n)
  {
    if n == 1 {
      assert PartialWord(order, Sextets(chars), 0) == 0;
    } else {
      GoodEntries(order, chars, n - 1);
      OrNext(order, Sextets(chars), n);
    }
  }

  lemma OrNext(order: ByteOrder, v: seq<nat>, n: nat)
    requires 2 <= n <= |v| <= 4 && Below(v, 64)
    ensures Or(PartialWord(order, v, n - 1), Spread(order, n - 1, v[n - 1])) == PartialWord(order, v, n)
  {
    PartialSums(order, v, n);
    match n {
      case 2 => OrSecond(order, v[0], v[1]);
      case 3 => OrThird(order, v[0], v[1], v[2], PartialWord(order, v, 2));
      case _ => OrFourth(order, v[0], v[1], v[2], v[3], PartialWord(order, v, 3));
    }
  }

  lemma PartialSums(order: ByteOrder, v: seq<nat>, n: nat)
    requires n <= |v| <= 4
    ensures n >= 1 ==> PartialWord(order, v, 1) == Spread(order, 0, v[0])
    ensures n >= 2 ==> PartialWord(order, v, 2) == Spread(order, 0, v[0]) + Spread(order, 1, v[1])
    ensures n >= 3 ==> PartialWord(order, v, 3) == Spread(order, 0, v[0]) + Spread(order, 1, v[1]) + Spread(order, 2, v[2])
    ensures n == 4 ==> PartialWord(order, v, 4) == Word(order, v[0], v[1], v[2], v[3])
  {
    if n >= 1 {
      assert PartialWord(order, v, 1) == PartialWord(order, v, 0) + Spread(order, 0, v[0]);
    }
    if n >= 2 {
      assert PartialWord(order, v, 2) == PartialWord(order, v, 1) + Spread(order, 1, v[1]);
    }
    if n >= 3 {
      assert PartialWord(order, v, 3) == PartialWord(order, v, 2) + Spread(order, 2, v[2]);
    }
  }

  /** One bad entry makes the word bad. */
  lemma {:induction false} BadEntry(order: ByteOrder, chars: seq<Byte>, n: nat, i: nat)
    requires i < n <= |chars| <= 4 && !InAlphabet(chars[i])
    ensures OrEntries(order, chars, n) >= BAD_CHAR
  {
    if i < n - 1 {
      BadEntry(order, chars, n - 1, i);
    }
  }

  /** The word that two to four sextets make: the missing ones contribute nothing. */
  lemma PaddedWord(order: ByteOrder, v: seq<nat>)
    requires 2 <= |v| <= 4
    ensures var w := v + Repeat(0, 4 - |v|); PartialWord(order, v, |v|) == Word(order, w[0], w[1], w[2], w[3])
  {
    PartialSums(order, v, |v|);
  }

  /** The word is bad exactly when a character is, and otherwise that of the sextets, the missing ones being zero. */
  lemma WordOfChars(order: ByteOrder, chars: seq<Byte>)
    requires 2 <= |chars| <= 4
    ensures OrEntries(order, chars, |chars|) >= BAD_CHAR <==> !AllAlphabet(chars)
    ensures AllAlphabet(chars) ==>
      var v := Sextets(chars) + Repeat(0, 4 - |chars|); OrEntries(order, chars, |chars|) == Word(order, v[0], v[1], v[2], v[3])
  {
    if AllAlphabet(chars) {
      var v := Sextets(chars) + Repeat(0, 4 - |chars|);
      GoodEntries(order, chars, |chars|);
      PaddedWord(order, Sextets(chars));
      WordOctets(order, v[0], v[1], v[2], v[3]);
    } else {
      var i :| 0 <= i < |chars| && !InAlphabet(chars[i]);
      BadEntry(order, chars, |chars|, i);
    }
  }

  method OrEntry(order: ByteOrder, chars: seq<Byte>, n: nat, temp: nat) returns (r: nat)
    requires 0 < n < |chars| <= 4 && temp == OrEntries(order, chars, n)
    ensures r == OrEntries(order, chars, n + 1)
  {
    var d := DecodeEntry(order, n, chars[n]);
    r := Or(temp, d);
  }

  /** The word of two, three or four characters. */
  method DecodeWord(order: ByteOrder, chars: seq<Byte>) returns (temp: nat)
    requires 2 <= |chars| <= 4
    ensures temp == OrEntries(order, chars, |chars|)
  {
    temp := DecodeEntry(order, 0, chars[0]);
    temp := OrEntry(order, chars, 1, temp);
    if |chars| > 2 {
      temp := OrEntry(order, chars, 2, temp);
      if |chars| > 3 {
        temp := OrEntry(order, chars, 3, temp);
      }
    }
  }

  /** The three bytes that a word holds for the decoder. */
  function WordBytes(order: ByteOrder, word: nat): (bytes: seq<Byte>)
    ensures |bytes| == 3
  {
    [MemoryByte(order, word, DecodedIndex(order, 0)), MemoryByte(order, word, DecodedIndex(order, 1)),
     MemoryByte(order, word, DecodedIndex(order, 2))]
  }

  /** Copies the first one, two or three of them into the buffer. */
  method PutOctets(order: ByteOrder, temp: nat, count: nat, decoded: array<Byte>, out: nat)
    requires 1 <= count <= 3 && out + count <= decoded.Length
    modifies decoded
    ensures decoded[..out + count] == old(decoded[..out]) + WordBytes(order, temp)[..count]
  {
    decoded[out] := MemoryByte(order, temp, DecodedIndex(order, 0));
    if count > 1 {
      decoded[out + 1] := MemoryByte(order, temp, DecodedIndex(order, 1));
    }
    if count > 2 {
      decoded[out + 2] := MemoryByte(order, temp, DecodedIndex(order, 2));
    }
  }

  lemma BytesOfChars(order: ByteOrder, chars: seq<Byte>)
    requires 2 <= |chars| <= 4 && AllAlphabet(chars)
    ensures WordBytes(order, OrEntries(order, chars, |chars|))[..|chars| - 1] == QuantumOctets(Sextets(chars))
  {
    var v := Sextets(chars) + Repeat(0, 4 - |chars|);
    WordOfChars(order, chars);
    WordOctets(order, v[0], v[1], v[2], v[3]);
  }

  /** Decodes one quantum into the buffer. */
  method DecodeQuantum(order: ByteOrder, chars: seq<Byte>, decoded: array<Byte>, out: nat) returns (ok: bool)
    requires 2 <= |chars| <= 4 && out + |chars| - 1 <= decoded.Length
    modifies decoded
    ensures ok <==> AllAlphabet(chars)
    ensures ok ==> decoded[..out + |chars| - 1] == old(decoded[..out]) + QuantumOctets(Sextets(chars))
  {
    var temp := DecodeWord(order, chars);
    WordOfChars(order, chars);
    ok := temp < BAD_CHAR;
    if ok {
      PutOctets(order, temp, |chars| - 1, decoded, out);
      BytesOfChars(order, chars);
    }
  }

  /** The octets decoded so far spell the sextets read so far. */
  ghost predicate DecodedSoFar(read: seq<Byte>, octets: seq<Byte>) {
    AllAlphabet(read) && Flatten(Sextets(read), 6) == Flatten(octets, 8)
  }

  lemma SextetsAppend(x: seq<Byte>, y: seq<Byte>)
    requires AllAlphabet(x) && AllAlphabet(y)
    ensures AllAlphabet(x + y) && Sextets(x + y) == Sextets(x) + Sextets(y)
  {}

  lemma OctetsOfFour(v: seq<nat>)
    requires |v| == 4 && Below(v, 64)
    ensures v == [v[0], v[1], v[2], v[3]]
    ensures QuantumOctets(v) == [Octet0(v[0], v[1]), Octet1(v[1], v[2]), Octet2(v[2], v[3])]
  {
    assert v + Repeat(0, 0) == v;
  }

  lemma QuantumOctetBits(v: seq<nat>)
    requires |v| == 4 && Below(v, 64)
    ensures Flatten(v, 6) == Flatten(QuantumOctets(v), 8)
  {
    OctetsOfFour(v);
    QuantumOfSextets(v);
  }

  lemma ExtendOctets(read: seq<Byte>, octets: seq<Byte>, chars: seq<Byte>)
    requires DecodedSoFar(read, octets) && |chars| == 4 && AllAlphabet(chars)
    ensures DecodedSoFar(read + chars, octets + QuantumOctets(Sextets(chars)))
  {
    SextetsAppend(read, chars);
    QuantumOctetBits(Sextets(chars));
    FlattenAppend(Sextets(read), Sextets(chars), 6);
    FlattenAppend(octets, QuantumOctets(Sextets(chars)), 8);
  }

  /** Two or three final sextets are their whole octets and fewer than eight bits more. */
  lemma FinalOctetBits(v: seq<nat>) returns (tail: seq<bool>)
    requires 2 <= |v| <= 3 && Below(v, 64)
    ensures |tail| < 8 && Flatten(v, 6) == Flatten(QuantumOctets(v), 8) + tail
  {
    var w := v + Repeat(0, 4 - |v|);
    var octets := [Octet0(w[0], w[1]), Octet1(w[1], w[2]), Octet2(w[2], w[3])];
    assert w == [w[0], w[1], w[2], w[3]];
    QuantumBits(w[0], w[1], w[2], w[3]);
    var k := |v|;
    tail := PrefixTail(w, k, 6, octets, k - 1, 8);
    assert w[..k] == v;
  }

  lemma PrefixTail(w: seq<nat>, k: nat, i: nat, octets: seq<nat>, m: nat, j: nat) returns (tail: seq<bool>)
    requires Flatten(w, i) == Flatten(octets, j) && k <= |w| && m <= |octets| && j * m <= i * k
    ensures |tail| == i * k - j * m && Flatten(w[..k], i) == Flatten(octets[..m], j) + tail
  {
    FlattenPrefix(w, k, i);
    FlattenPrefix(octets, m, j);
    tail := Flatten(w, i)[j * m..i * k];
  }

  /** What the loop and the tail leave is the decoded text. */
  lemma DecodedResult(text: seq<Byte>, read: seq<Byte>, octets: seq<Byte>, last: seq<Byte>)
    requires WellFormed(text) && DecodedSoFar(read, octets) && AllAlphabet(last)
    requires read + last == text[..|text| - Padding(text)]
    requires last == [] || 2 <= |last| <= 3
    ensures Decode(text) == if last == [] then octets else octets + QuantumOctets(Sextets(last))
  {
    SextetsAppend(read, last);
    Pow2Six();
    if last == [] {
      assert read + last == read;
      GroupsOfFlatten(octets, 8, []);
      assert Flatten(octets, 8) + [] == Flatten(octets, 8);
    } else {
      var v := Sextets(last);
      var tail := FinalOctetBits(v);
      FlattenAppend(Sextets(read), v, 6);
      FlattenAppend(octets, QuantumOctets(v), 8);
      AppendAssociates(Flatten(octets, 8), Flatten(QuantumOctets(v), 8), tail);
      GroupsOfFlatten(octets + QuantumOctets(v), 8, tail);
    }
  }

  /** The main loop: every whole quantum, stopping at the first bad character. */
  method DecodeQuanta(order: ByteOrder, text: seq<Byte>, whole: nat, decoded: array<Byte>) returns (ok: bool)
    requires 4 * whole <= |text| && 3 * whole <= decoded.Length
    modifies decoded
    ensures ok <==> AllAlphabet(text[..4 * whole])
    ensures ok ==> DecodedSoFar(text[..4 * whole], decoded[..3 * whole])
  {
    var at, out, i := 0, 0, whole;
    ghost var octets: seq<Byte> := [];
    while i > 0
      invariant 0 <= i <= whole && at == 4 * (whole - i) <= |text| && out == 3 * (whole - i) <= decoded.Length
      invariant decoded[..out] == octets && DecodedSoFar(text[..at], octets)
    {
      var chars := text[at..at + 4];
      assert text[..at] + chars == text[..at + 4];
      ok := DecodeQuantum(order, chars, decoded, out);
      if !ok {
        assert chars == text[..4 * whole][at..at + 4];
        return;
      }
      ExtendOctets(text[..at], octets, chars);
      octets := octets + QuantumOctets(Sextets(chars));
      at, out, i := at + 4, out + 3, i - 1;
    }
    assert at == 4 * whole && out == 3 * whole;
    ok := true;
  }

  /** The decoder, for the tables and the memory order of either build. */
  method DecodeInto(order: ByteOrder, text: seq<Byte>) returns (r: Result<seq<Byte>>)
    ensures r.Ok? <==> WellFormed(text)
    ensures r.Ok? ==> r.value == Decode(text)
    ensures r == Err(NotDivisibleBy4) <==> |text| % 4 != 0
    ensures r == Err(TooMuchPadding) <==> |text| >= 4 && |text| % 4 == 0 && PadsInLastFour(text) > 2
  {
    if |text| == 0 {
      EmptyText();
      return Ok([]);
    }
    if |text| % 4 != 0 {
      return Err(NotDivisibleBy4);
    }
    WellFormedByCount(text);
    var pads := PadsInLastFour(text);
    if pads > 2 {
      return Err(TooMuchPadding);
    }
    r := DecodeCounted(order, text, |text| / 4, pads);
  }

  /** The main loop and, if there are pads, the final quantum. */
  method DecodeFront(order: ByteOrder, front: seq<Byte>, whole: nat, decoded: array<Byte>) returns (ok: bool)
    requires |front| == 4 * whole || 4 * whole + 2 <= |front| <= 4 * whole + 3
    requires decoded.Length == 3 * whole + (if |front| == 4 * whole then 0 else |front| - 4 * whole - 1)
    modifies decoded
    ensures ok <==> AllAlphabet(front)
    ensures ok ==> DecodedSoFar(front[..4 * whole], decoded[..3 * whole])
    ensures ok && |front| == 4 * whole ==> decoded[..] == decoded[..3 * whole]
    ensures ok && |front| > 4 * whole ==> decoded[..] == decoded[..3 * whole] + QuantumOctets(Sextets(front[4 * whole..]))
  {
    ok := DecodeQuanta(order, front, whole, decoded);
    assert front == front[..4 * whole] + front[4 * whole..];
    if ok && |front| > 4 * whole {
      ghost var octets := decoded[..3 * whole];
      ok := DecodeQuantum(order, front[4 * whole..], decoded, 3 * whole);
      if ok {
        SextetsAppend(front[..4 * whole], front[4 * whole..]);
        assert decoded[..] == decoded[..decoded.Length] && decoded[..3 * whole] == octets;
      }
    }
  }

  /** The body of the decoder, once the pads are counted. */
  method DecodeCounted(order: ByteOrder, text: seq<Byte>, quanta: nat, pads: nat) returns (r: Result<seq<Byte>>)
    requires |text| == 4 * quanta && quanta > 0 && pads == PadsInLastFour(text) && pads <= 2
    ensures r.Ok? <==> WellFormed(text)
    ensures r.Ok? ==> r.value == Decode(text)
    ensures r.Err? ==> r == Err(InvalidCharacter)
  {
    WellFormedByCount(text);
    var decoded := new Byte[3 * quanta - pads](_ => 46);
    var whole := quanta - (if pads != 0 then 1 else 0);
    var front := text[..|text| - pads];
    var ok := DecodeFront(order, front, whole, decoded);
    if !ok {
      return Err(InvalidCharacter);
    }
    assert front[..4 * whole] + front[4 * whole..] == front;
    DecodedResult(text, front[..4 * whole], decoded[..3 * whole], front[4 * whole..]);
    return Ok(decoded[..]);
  }

  lemma EmptyText()
    ensures WellFormed([]) && Decode([]) == []
  {
    assert Padded([], 0);
  }

  /** `from_base64` of the build for either byte order. */
  method FromBase64(order: ByteOrder, text: seq<Byte>) returns (r: Result<seq<Byte>>)
    ensures r.Ok? <==> WellFormed(text)
    ensures r.Ok? ==> r.value == Decode(text)
  {
    r := DecodeInto(order, text);
  }

  /** The pair of entry points: every byte string survives encoding and decoding, in either build. */
  method EncodeThenDecode(order: ByteOrder, data: seq<Byte>) returns (r: Result<seq<Byte>>)
    ensures r == Ok(data)
  {
    DecodeOfEncode(data);
    var text := ToBase64(data);
    r := FromBase64(order, text);
  }
}
