/** The Blum-Blum-Shub generator with random access (blumshub.cpp). */
module BlumBlumShub {
  import opened NatBits
  import opened Bytes
  import opened Euclid
  import opened NumberTheory

  // ----- the generator as a function of its parameters

  /** The k-th state: the square of the seed, squared k+1 more times. */
  ghost function StateAt(n: nat, x0: nat, k: nat): nat
    requires n > 0
  {
    Pow(x0, Pow2(k + 1)) % n
  }

  /** Bit i of the stream: each state yields its low `maxBits` bits, high bit first. */
  ghost function BitAt(n: nat, x0: nat, maxBits: nat, i: nat): nat
    requires n > 0 && maxBits > 0
  {
    GetBit(StateAt(n, x0, i / maxBits), maxBits - 1 - i % maxBits)
  }

  /** `count` consecutive bits as a number, first bit highest. */
  ghost function BitsAt(n: nat, x0: nat, maxBits: nat, i: nat, count: nat): (v: nat)
    requires n > 0 && maxBits > 0
    ensures v < Pow2(count)
    decreases count
  {
    if count == 0 then 0
    else 2 * BitsAt(n, x0, maxBits, i, count - 1) + BitAt(n, x0, maxBits, i + count - 1)
  }

  /** The byte made of the eight bits from position i. */
  ghost function ByteAt(n: nat, x0: nat, maxBits: nat, i: nat): byte
    requires n > 0 && maxBits > 0
  {
    assert Pow2(8) == 256;
    BitsAt(n, x0, maxBits, i, 8)
  }

  /** `size` bytes of the stream from bit position i. */
  ghost function Output(n: nat, x0: nat, maxBits: nat, i: nat, size: nat): (s: seq<byte>)
    requires n > 0 && maxBits > 0
    ensures |s| == size
  {
    seq(size, j requires 0 <= j < size => ByteAt(n, x0, maxBits, i + 8 * j))
  }

  /** Random access on the specification: output from byte i is the sequential output
      with i bytes dropped. */
  lemma OutputDrop(n: nat, x0: nat, maxBits: nat, i: nat, size: nat)
    requires n > 0 && maxBits > 0
    ensures Output(n, x0, maxBits, 8 * i, size) == Output(n, x0, maxBits, 0, i + size)[i..]
  {
    hide ByteAt;
    var l, r := Output(n, x0, maxBits, 8 * i, size), Output(n, x0, maxBits, 0, i + size)[i..];
    forall j | 0 <= j < size ensures l[j] == r[j] {
      assert 8 * i + 8 * j == 0 + 8 * (i + j);
    }
  }

  // ----- the stream in terms of the states

  lemma {:induction false} LowIsRemainder(s: nat, m: nat)
    ensures Low(s, m) == s % Pow2(m)
    decreases m
  {
    hide Low, Pow2;
    LowStep(s, m);
    if m > 0 {
      LowIsRemainder(s / 2, m - 1);
      PowStep(m);
      RemainderStep(s, Pow2(m - 1));
    }
  }

  lemma LowStep(s: nat, m: nat)
    ensures Low(s, m) == if m == 0 then s % Pow2(0) else 2 * Low(s / 2, m - 1) + s % 2
  {
  }

  lemma RemainderStep(s: nat, p: nat)
    requires p > 0
    ensures 2 * (s / 2 % p) + s % 2 == s % (2 * p)
  {
    var q, r := s / 2 / p, s / 2 % p;
    assert s / 2 == q * p + r;
    assert s == q * (2 * p) + (2 * r + s % 2);
    EuclidUnique(s, 2 * p, q, 2 * r + s % 2);
  }

  /** The first c bits of a state's share of the stream. */
  lemma {:induction false} StateBits(n: nat, x: nat, maxBits: nat, k: nat, c: nat)
    requires n > 0 && c <= maxBits && maxBits > 0
    ensures BitsAt(n, x, maxBits, k * maxBits, c) == Shr(Low(StateAt(n, x, k), maxBits), maxBits - c)
    decreases c
  {
    hide *;
    var s, i := StateAt(n, x, k), k * maxBits;
    if c == 0 {
      NoBitsAt(n, x, maxBits, i);
      ShrWhole(s, maxBits);
    } else {
      StateBits(n, x, maxBits, k, c - 1);
      LastBitAt(n, x, maxBits, i, c);
      ShareBit(n, x, maxBits, k, c - 1);
      BitOfLow(s, maxBits, maxBits - c);
      ShrBit(Low(s, maxBits), maxBits - c);
    }
  }

  lemma NoBitsAt(n: nat, x: nat, maxBits: nat, i: nat)
    requires n > 0 && maxBits > 0
    ensures BitsAt(n, x, maxBits, i, 0) == 0
  {
  }

  lemma LastBitAt(n: nat, x: nat, maxBits: nat, i: nat, c: nat)
    requires n > 0 && maxBits > 0 && c > 0
    ensures BitsAt(n, x, maxBits, i, c) == 2 * BitsAt(n, x, maxBits, i, c - 1) + BitAt(n, x, maxBits, i + (c - 1))
  {
    hide BitAt;
  }

  /** Bit c of a state's share. */
  lemma ShareBit(n: nat, x: nat, maxBits: nat, k: nat, c: nat)
    requires n > 0 && c < maxBits
    ensures BitAt(n, x, maxBits, k * maxBits + c) == GetBit(StateAt(n, x, k), maxBits - 1 - c)
  {
    hide StateAt, GetBit;
    EuclidUnique(k * maxBits + c, maxBits, k, c);
  }

  lemma ShrWhole(s: nat, m: nat)
    ensures Shr(Low(s, m), m) == 0
  {
    ShrLow(Low(s, m), m);
  }

  /** Every state gives the stream its low `maxBits` bits, as a number. */
  lemma StateShare(n: nat, x: nat, maxBits: nat, k: nat)
    requires n > 0 && maxBits > 0
    ensures BitsAt(n, x, maxBits, k * maxBits, maxBits) == StateAt(n, x, k) % Pow2(maxBits)
  {
    hide StateAt, BitsAt, Low;
    StateBits(n, x, maxBits, k, maxBits);
    LowIsRemainder(StateAt(n, x, k), maxBits);
  }

  /** Consecutive parts of the stream. */
  lemma {:induction false} BitsAppend(n: nat, x: nat, maxBits: nat, i: nat, a: nat, b: nat)
    requires n > 0 && maxBits > 0
    ensures BitsAt(n, x, maxBits, i, a + b) == Shl(BitsAt(n, x, maxBits, i, a), b) + BitsAt(n, x, maxBits, i + a, b)
    decreases b
  {
    hide BitAt;
    if b > 0 { BitsAppend(n, x, maxBits, i, a, b - 1); }
  }

  // ----- arithmetic of the states

  /** Squaring a state gives the next one. */
  lemma NextState(n: nat, x0: nat, k: nat)
    requires n > 0
    ensures StateAt(n, x0, k) * StateAt(n, x0, k) % n == StateAt(n, x0, k + 1)
  {
    var e := Pow2(k + 1);
    var y, s := Pow(x0, e), Pow(x0, e) % n;
    assert Pow2(k + 2) == e + e;
    PowAdd(x0, e, e);
    RemainderSmall(y, n);
    CongruentMod(n, s, y);
    CongruentMul(n, s, y, s, y);
    CongruentMod(n, s * s, y * y);
  }

  lemma FirstState(n: nat, seed: nat)
    requires n > 0
    ensures var x0 := seed * seed % n; x0 * x0 % n == StateAt(n, x0, 0)
  {
    var x0 := seed * seed % n;
    assert Pow2(1) == 2;
    assert Pow(x0, 2) == x0 * Pow(x0, 1) && Pow(x0, 1) == x0 * Pow(x0, 0);
  }

  /** Position i lies in state k, at the bit the counter points to. */
  lemma Position(maxBits: nat, k: nat, i: nat, bitsLeft: nat)
    requires maxBits > 0 && 1 <= bitsLeft <= maxBits && i + bitsLeft == (k + 1) * maxBits
    ensures i / maxBits == k && i % maxBits == maxBits - bitsLeft
  {
    assert (k + 1) * maxBits == k * maxBits + maxBits;
    EuclidUnique(i, maxBits, k, maxBits - bitsLeft);
  }

  /** Primes that are 3 modulo 4, as the class asks for. */
  ghost predicate BlumPrime(p: int) { Prime(p) && p % 4 == 3 }

  /** A power of two is never a multiple of (p-1)(q-1) for distinct Blum primes. */
  lemma BlumExponent(p: int, q: int, k: nat)
    requires BlumPrime(p) && BlumPrime(q) && p != q
    ensures (p - 1) * (q - 1) >= 1 && Pow2(k) % ((p - 1) * (q - 1)) != 0
  {
    PhiPositive(p, q - 1);
    var phi := (p - 1) * (q - 1);
    if p > 3 {
      HalfIsOdd(p);
      OddFactor((p - 1) / 2, p - 1, q - 1, phi, k);
    } else {
      assert phi == (q - 1) * (p - 1);
      HalfIsOdd(q);
      OddFactor((q - 1) / 2, q - 1, p - 1, phi, k);
    }
    hide *;
    DividesMod(phi, Pow2(k));
  }

  lemma HalfIsOdd(r: int)
    requires r % 4 == 3 && r > 3
    ensures var d := (r - 1) / 2; d % 2 == 1 && d > 1 && r - 1 == d * 2
  {
  }

  /** An odd factor above 1 keeps a number from dividing a power of two. */
  lemma OddFactor(d: int, h: int, other: int, phi: int, k: nat)
    requires d % 2 == 1 && d > 1 && h == d * 2 && phi == h * other
    ensures !Divides(phi, Pow2(k))
  {
    hide *;
    if Divides(phi, Pow2(k)) {
      DividesIntro(d, 2);
      DividesIntro(h, other);
      DividesTrans(d, h, phi);
      DividesTrans(d, phi, Pow2(k));
      OddDivisorOfPow2(d, k);
    }
  }

  lemma {:induction false} OddDivisorOfPow2(d: int, k: nat)
    requires d % 2 == 1 && d > 0 && Divides(d, Pow2(k))
    ensures d == 1
    decreases k
  {
    if k == 0 {
      DividesBound(d, 1);
    } else {
      var c :| Quotient(Pow2(k), d, c);
      OddTimes(d, c, Pow2(k - 1));
      DividesIntro(d, c / 2);
      OddDivisorOfPow2(d, k - 1);
    }
  }

  lemma OddTimes(d: int, c: int, h: int)
    requires d % 2 == 1 && d * c == 2 * h
    ensures d * (c / 2) == h
  {
    var e := d / 2;
    assert d == 2 * e + 1;
    assert d * c == 2 * (e * c) + c;
    var g := c / 2;
    assert c == 2 * g;
    assert d * c == 2 * (d * g);
  }

  // ----- the generator

  class Generator {
    const p: nat
    const q: nat
    const n: nat
    const x0: nat
    const maxBits: nat
    var current: nat
    var bitsLeft: nat

    ghost predicate Valid()
      reads this
    {
      n == p * q > 0 && maxBits > 0 && bitsLeft <= maxBits
    }

    /** The next bit produced will be bit i of the stream. */
    ghost predicate At(i: nat)
      requires Valid()
      reads this
    {
      On(x0, i)
    }

    /** The same for the stream of any x. The next state is computed lazily, so the boundary between two
        states has two representations. */
    ghost predicate On(x: nat, i: nat)
      requires Valid()
      reads this
    {
      exists k: nat :: InState(x, k, i)
    }

    ghost predicate InState(x: nat, k: nat, i: nat)
      requires Valid()
      reads this
    {
      i + bitsLeft == (k + 1) * maxBits && current == StateAt(n, x, k)
    }

    /** The modulus must have at least two bits, or no bit is ever produced. */
    constructor (p: nat, q: nat, seed: nat)
      requires p * q >= 2
      ensures Valid() && At(0)
      ensures this.p == p && this.q == q && x0 == seed * seed % (p * q)
      ensures maxBits == BitCount(BitCount(p * q)) - 1
    {
      var m := p * q;
      var square := seed * seed % m;
      this.p, this.q, n, x0 := p, q, m, square;
      current := square * square % m;
      assert BitCount(m) == 1 + BitCount(m / 2) && BitCount(m / 2) >= 1;
      var bits := BitCount(BitCount(m)) - 1;
      assert BitCount(BitCount(m)) == 1 + BitCount(BitCount(m) / 2);
      maxBits, bitsLeft := bits, bits;
      new;
      FirstState(n, seed);
      assert InState(x0, 0, 0);
    }

    /** `GenerateBit` */
    method GenerateBit(ghost x: nat, ghost i: nat) returns (bit: nat)
      requires Valid() && On(x, i)
      modifies this
      ensures Valid() && On(x, i + 1)
      ensures bit == BitAt(n, x, maxBits, i)
    {
      hide StateAt, GetBit;
      ghost var k: nat :| InState(x, k, i);
      if bitsLeft == 0 {
        NextState(n, x, k);
        current := current * current % n;
        bitsLeft := maxBits;
        k := k + 1;
        NextBoundary(maxBits, k);
      }
      Position(maxBits, k, i, bitsLeft);
      bitsLeft := bitsLeft - 1;
      bit := GetBit(current, bitsLeft);
      assert InState(x, k, i + 1);
    }

    /** `GenerateByte` */
    method GenerateByte(ghost x: nat, ghost i: nat) returns (b: byte)
      requires Valid() && On(x, i)
      modifies this
      ensures Valid() && On(x, i + 8)
      ensures b == ByteAt(n, x, maxBits, i)
    {
      hide BitAt, On;
      var v := 0;
      for c := 0 to 8
        invariant Valid() && On(x, i + c)
        invariant v == BitsAt(n, x, maxBits, i, c)
      {
        var bit := GenerateBit(x, i + c);
        v := 2 * v + bit;
      }
      assert Pow2(8) == 256;
      b := v;
    }

    /** `GenerateBlock` */
    method GenerateBlock(size: nat, ghost i: nat) returns (output: seq<byte>)
      requires Valid() && At(i)
      modifies this
      ensures Valid() && At(i + 8 * size)
      ensures output == Output(n, x0, maxBits, i, size)
    {
      hide ByteAt, On;
      output := [];
      for j := 0 to size
        invariant Valid() && At(i + 8 * j) && |output| == j
        invariant forall c :: 0 <= c < j ==> output[c] == ByteAt(n, x0, maxBits, i + 8 * c)
      {
        var b := GenerateByte(x0, i + 8 * j);
        output := output + [b];
      }
    }

    /** `ProcessData`: the stream combined with the input. */
    method ProcessData(input: seq<byte>, ghost i: nat) returns (out: seq<byte>)
      requires Valid() && At(i)
      modifies this
      ensures Valid() && At(i + 8 * |input|) && |out| == |input|
      ensures forall j :: 0 <= j < |input| ==> out[j] == Xor(input[j], Output(n, x0, maxBits, i, |input|)[j])
    {
      hide ByteAt, On, Xor;
      out := [];
      for j := 0 to |input|
        invariant Valid() && At(i + 8 * j) && |out| == j
        invariant forall c :: 0 <= c < j ==> out[c] == Xor(input[c], ByteAt(n, x0, maxBits, i + 8 * c))
      {
        var b := GenerateByte(x0, i + 8 * j);
        out := out + [Xor(input[j], b)];
      }
    }

    /** `Seek`: jumps to byte `index` by one modular power, the exponent reduced modulo
        (p-1)(q-1). The position is reached, except when the reduced exponent is zero
        while the seed shares a factor with the modulus; for the Blum primes the class
        is documented for this never happens. */
    method Seek(index: nat)
      requires Valid() && Prime(p) && Prime(q) && p != q
      modifies this`current, this`bitsLeft
      ensures Valid() && bitsLeft == maxBits - 8 * index % maxBits >= 1
      ensures (p - 1) * (q - 1) >= 1
           && current == Pow(x0, Pow2(8 * index / maxBits + 1) % ((p - 1) * (q - 1))) % n
      ensures Reaches(p, q, x0, 8 * index / maxBits + 1) ==> At(8 * index)
      ensures current == StateAt(n, x0, 8 * index / maxBits) <==> Reaches(p, q, x0, 8 * index / maxBits + 1)
    {
      hide Reaches, StateAt, Pow2, Prime;
      var i := 8 * index;
      var k := i / maxBits;
      PrimeAtLeastTwo(p);
      PrimeAtLeastTwo(q);
      var phi := (p - 1) * (q - 1);
      PhiPositive(p, q - 1);
      var e := Pow2(k + 1) % phi;
      SeekExact(p, q, x0, k);
      current := Pow(x0, e) % n;
      bitsLeft := maxBits - i % maxBits;
      assert i + bitsLeft == (k + 1) * maxBits;
      assert current == StateAt(n, x0, k) ==> InState(x0, k, i);
    }
  }

  lemma NextBoundary(maxBits: nat, k: nat)
    ensures (k + 1) * maxBits == k * maxBits + maxBits
  {
  }

  /** The exact condition under which a reduced exponent 2^e gives the right state. */
  ghost predicate Reaches(p: int, q: int, x: nat, e: nat) {
    var phi := (p - 1) * (q - 1);
    (!Divides(p, x) && !Divides(q, x)) || (phi > 0 && Pow2(e) % phi != 0)
  }

  lemma SeekExact(p: nat, q: nat, x0: nat, k: nat)
    requires Prime(p) && Prime(q) && p != q
    ensures (p - 1) * (q - 1) >= 1 && p * q > 0
    ensures Pow(x0, Pow2(k + 1) % ((p - 1) * (q - 1))) % (p * q) == StateAt(p * q, x0, k)
       <==> Reaches(p, q, x0, k + 1)
  {
    ReducedPower(p, q, x0, Pow2(k + 1));
    PhiPositive(p + 1, q);
    var r := Pow2(k + 1) % ((p - 1) * (q - 1));
    CongruentMod(p * q, Pow(x0, Pow2(k + 1)), Pow(x0, r));
  }

  /** For distinct Blum primes every seed and every position is reached. */
  lemma BlumAlwaysReaches(p: nat, q: nat, x0: nat, e: nat)
    requires BlumPrime(p) && BlumPrime(q) && p != q
    ensures (p - 1) * (q - 1) >= 1 && Reaches(p, q, x0, e)
  {
    BlumExponent(p, q, e);
  }

  /** Primes that are not Blum primes, and a square that shares a factor with their product. */
  lemma NotReached()
    ensures Prime(3) && Prime(5) && !Reaches(3, 5, 9, 5)
  {
    forall d | Divides(d, 3) ensures Abs(d) == 1 || Abs(d) == 3 {
      DividesBound(d, 3);
      if Abs(d) == 2 { NotDivisor(d, 3); }
    }
    forall d | Divides(d, 5) ensures Abs(d) == 1 || Abs(d) == 5 {
      DividesBound(d, 5);
      if 2 <= Abs(d) <= 4 { NotDivisor(d, 5); }
    }
    DividesIntro(3, 3);
    assert Pow2(5) == 32;
  }

  lemma NotDivisor(d: int, n: int)
    requires d != 0 && n % Abs(d) != 0
    ensures !Divides(d, n)
  {
    if Divides(d, n) {
      DividesIntro(Abs(d), if d > 0 then 1 else -1);
      DividesTrans(Abs(d), d, n);
      DividesMod(Abs(d), n);
    }
  }

  /** The stream of seed 3 and these primes stays in one state, whose low bit is clear. */
  lemma {:induction false} StaysAtSix(k: nat)
    ensures StateAt(15, 9, k) == 6
    decreases k
  {
    if k == 0 {
      FirstState(15, 3);
    } else {
      hide StateAt;
      StaysAtSix(k - 1);
      NextState(15, 9, k - 1);
    }
  }

  lemma {:induction false} StaysAtOne(k: nat)
    ensures StateAt(15, 1, k) == 1
    decreases k
  {
    if k == 0 {
      FirstState(15, 1);
    } else {
      hide StateAt;
      StaysAtOne(k - 1);
      NextState(15, 1, k - 1);
    }
  }

  /** The last bit of a byte. */
  lemma LastBit(n: nat, x: nat, maxBits: nat, i: nat)
    requires n > 0 && maxBits > 0
    ensures ByteAt(n, x, maxBits, i) % 2 == BitAt(n, x, maxBits, i + 7)
  {
    hide BitAt;
    BitOnly(n, x, maxBits, i + 7);
  }

  lemma BitOnly(n: nat, x: nat, maxBits: nat, i: nat)
    requires n > 0 && maxBits > 0
    ensures BitAt(n, x, maxBits, i) <= 1
  {
    hide StateAt;
  }

  lemma SmallNumbers()
    ensures BitCount(BitCount(15)) == 3 && Pow2(5) == 32 && Pow(9, 0) == 1
  {
    assert BitCount(4) == 1 + BitCount(2) == 2 + BitCount(1) == 3;
    assert BitCount(15) == 1 + BitCount(7) == 2 + BitCount(3) == 3 + BitCount(1) == 4;
  }

  /** Seed 3 and these primes: seeking byte 1 ends in a state that is not the one there, and another byte
      comes out. */
  method SeekMisses() returns (current: nat, b: byte)
    ensures current != StateAt(15, 9, 4)
    ensures b != Output(15, 9, 2, 0, 2)[1]
  {
    hide StateAt, Prime, Reaches, BitAt, ByteAt, BitCount, Pow, Pow2;
    NotReached();
    SmallNumbers();
    var g := new Generator(3, 5, 3);
    g.Seek(1);
    current := g.current;
    assert g.current == 1;
    StaysAtOne(0);
    assert g.InState(1, 0, 0);
    b := g.GenerateByte(1, 0);
    OtherByte();
  }

  lemma OtherByte()
    ensures ByteAt(15, 1, 2, 0) != ByteAt(15, 9, 2, 8)
  {
    hide StateAt, ByteAt;
    LastBit(15, 1, 2, 0);
    LastBit(15, 9, 2, 8);
    StaysAtOne(3);
    StaysAtSix(7);
  }

  /** The states of primes 7 and 11 and seed 2. */
  lemma SmallStates()
    ensures StateAt(77, 4, 0) == 16 && StateAt(77, 4, 1) == 25 && StateAt(77, 4, 2) == 9 && StateAt(77, 4, 3) == 4
  {
    FirstState(77, 2);
    hide StateAt;
    NextState(77, 4, 0);
    NextState(77, 4, 1);
    NextState(77, 4, 2);
  }

  lemma SmallByte()
    ensures ByteAt(77, 4, 2, 0) == 20
  {
    hide StateAt, BitsAt, Pow2, Shl;
    Four();
    SmallStates();
    StateShare(77, 4, 2, 0);
    StateShare(77, 4, 2, 1);
    StateShare(77, 4, 2, 2);
    StateShare(77, 4, 2, 3);
    BitsAppend(77, 4, 2, 0, 2, 2);
    BitsAppend(77, 4, 2, 0, 4, 2);
    BitsAppend(77, 4, 2, 0, 6, 2);
    TimesFour(0);
    TimesFour(1);
    TimesFour(5);
  }

  lemma Four()
    ensures Pow2(2) == 4
  {
  }

  lemma TimesFour(x: int)
    ensures Shl(x, 2) == 4 * x
  {
  }

  lemma SmallWidth()
    ensures BitCount(BitCount(77)) == 3
  {
    hide BitCount;
    NextCount(77, 38);
    NextCount(38, 19);
    NextCount(19, 9);
    NextCount(9, 4);
    NextCount(4, 2);
    NextCount(2, 1);
    NextCount(1, 0);
    NextCount(7, 3);
    NextCount(3, 1);
  }

  lemma NextCount(n: nat, half: nat)
    requires n > 0 && half == n / 2
    ensures BitCount(n) == 1 + BitCount(half) && BitCount(0) == 0
  {
  }

  /** The first byte for primes 7 and 11 and seed 2: the low two bits of 16, 25, 9 and 4. */
  method KnownByte() returns (b: byte)
    ensures b == 20
  {
    hide StateAt, BitAt, ByteAt, BitCount, Generator.On;
    SmallWidth();
    var g := new Generator(7, 11, 2);
    b := g.GenerateByte(4, 0);
    SmallByte();
  }

  /** Random access: after `Seek(index)` the generator produces what sequential
      generation produces after dropping `index` bytes. */
  method SeekThenGenerate(g: Generator, index: nat, size: nat) returns (output: seq<byte>)
    requires g.Valid() && Prime(g.p) && Prime(g.q) && g.p != g.q
    requires Reaches(g.p, g.q, g.x0, 8 * index / g.maxBits + 1)
    modifies g
    ensures g.Valid()
    ensures output == Output(g.n, g.x0, g.maxBits, 0, index + size)[index..]
  {
    g.Seek(index);
    output := g.GenerateBlock(size, 8 * index);
    OutputDrop(g.n, g.x0, g.maxBits, index, size);
  }
}
