/** The modulus and a known checksum of Adler-32. */
module AdlerKnown {
  import opened NatBits
  import opened Bytes
  import opened Euclid
  import opened NumberTheory
  import Adler32

  // ----- the largest prime below 2^16

  predicate NoneOf4(n: nat, lo: nat)
    requires lo > 0
  {
    n % lo != 0 && n % (lo + 1) != 0 && n % (lo + 2) != 0 && n % (lo + 3) != 0
  }

  lemma NotOf4(n: nat, lo: nat, d: nat)
    requires 0 < lo <= d < lo + 4 && NoneOf4(n, lo)
    ensures n % d != 0
  {
    if d == lo {
    } else if d == lo + 1 {
    } else if d == lo + 2 {
    } else {
      assert d == lo + 3;
    }
  }

  /** None of the sixteen numbers from lo on divides n. */
  predicate NoneOf16(n: nat, lo: nat)
    requires lo > 0
  {
    NoneOf4(n, lo) && NoneOf4(n, lo + 4) && NoneOf4(n, lo + 8) && NoneOf4(n, lo + 12)
  }

  lemma NotOf16(n: nat, lo: nat, d: nat)
    requires 0 < lo <= d < lo + 16 && NoneOf16(n, lo)
    ensures n % d != 0
  {
    hide NoneOf4;
    NotOf4(n, if d < lo + 4 then lo else if d < lo + 8 then lo + 4 else if d < lo + 12 then lo + 8 else lo + 12, d);
  }

  lemma NoneTo129()
    ensures NoneOf16(65521, 2) && NoneOf16(65521, 18) && NoneOf16(65521, 34) && NoneOf16(65521, 50)
    ensures NoneOf16(65521, 66) && NoneOf16(65521, 82) && NoneOf16(65521, 98) && NoneOf16(65521, 114)
  {
  }

  lemma NoneTo257()
    ensures NoneOf16(65521, 130) && NoneOf16(65521, 146) && NoneOf16(65521, 162) && NoneOf16(65521, 178)
    ensures NoneOf16(65521, 194) && NoneOf16(65521, 210) && NoneOf16(65521, 226) && NoneOf16(65521, 242)
  {
  }

  lemma NoSmallDivisor(d: nat)
    requires 2 <= d < 256
    ensures 65521 % d != 0
  {
    hide NoneOf16;
    NoneTo129();
    NoneTo257();
    if d < 66 {
      NotOf16(65521, if d < 18 then 2 else if d < 34 then 18 else if d < 50 then 34 else 50, d);
    } else if d < 130 {
      NotOf16(65521, if d < 82 then 66 else if d < 98 then 82 else if d < 114 then 98 else 114, d);
    } else if d < 194 {
      NotOf16(65521, if d < 146 then 130 else if d < 162 then 146 else if d < 178 then 162 else 178, d);
    } else {
      NotOf16(65521, if d < 210 then 194 else if d < 226 then 210 else if d < 242 then 226 else 242, d);
    }
  }

  /** A divisor or its cofactor is below the square root. */
  lemma OnlyTrivial(d: nat, e: nat)
    requires d * e == 65521
    ensures d == 1 || d == 65521
  {
    if d > 1 && e > 1 {
      if d < 256 {
        NoSmallDivisor(d);
        EuclidUnique(65521, d, e, 0);
      } else if e < 256 {
        NoSmallDivisor(e);
        EuclidUnique(65521, e, d, 0);
      } else {
        MulMono(256, d, 256);
        MulMono(256, e, d);
      }
    } else if e == 1 {
      assert d == 65521;
    }
  }

  /** Section 9 of RFC 1950: the modulus is the largest prime below 65536. */
  lemma BaseIsLargestPrime(n: nat)
    ensures Prime(Adler32.BASE) && Adler32.BASE < 65536
    ensures Adler32.BASE < n < 65536 ==> !Prime(n)
  {
    forall d | Divides(d, 65521) ensures Abs(d) == 1 || Abs(d) == 65521 {
      var k :| Quotient(65521, d, k);
      CofactorSign(d, k);
      OnlyTrivial(Abs(d), Abs(k));
    }
    if Adler32.BASE < n < 65536 { Composite(n); }
  }

  lemma CofactorSign(d: int, k: int)
    requires Quotient(65521, d, k)
    ensures Abs(d) * Abs(k) == 65521
  {
    if d >= 0 && k < 0 { MulMono(k, 0, d); }
    if d < 0 && k >= 0 { MulMono(d, 0, k); }
    assert d < 0 && k < 0 ==> (-d) * (-k) == d * k;
  }

  lemma Composite(n: nat)
    requires 65521 < n < 65536
    ensures !Prime(n)
  {
    var d := if n % 2 == 0 then 2 else if n % 3 == 0 then 3 else if n == 65525 then 5 else if n == 65527 then 7
             else if n == 65531 then 19 else 13;
    assert n % d == 0;
    DividesMod(d, n);
  }

  // ----- a checksum

  /** One more byte. */
  lemma Grown(data: seq<byte>, b: byte, all: seq<byte>)
    requires all == data + [b]
    ensures Adler32.Sum1(all) == Adler32.Sum1(data) + b
    ensures Adler32.Sum2(all) == Adler32.Sum2(data) + Adler32.Sum1(data) + b
  {
    Adler32.SumSnoc(data, b);
  }

  /** The sums of the nine bytes of "Wikipedia". */
  lemma WikipediaSums(data: seq<byte>)
    requires data == [0x57, 0x69, 0x6b, 0x69, 0x70, 0x65, 0x64, 0x69, 0x61]
    ensures Adler32.Sum1(data) == 920 && Adler32.Sum2(data) == 4582
  {
    hide Adler32.Sum1, Adler32.Sum2;
    NoSums();
    Grown([], 0x57, data[..1]);
    Grown(data[..1], 0x69, data[..2]);
    Grown(data[..2], 0x6b, data[..3]);
    Grown(data[..3], 0x69, data[..4]);
    Grown(data[..4], 0x70, data[..5]);
    Grown(data[..5], 0x65, data[..6]);
    Grown(data[..6], 0x64, data[..7]);
    Grown(data[..7], 0x69, data[..8]);
    Grown(data[..8], 0x61, data);
  }

  lemma NoSums()
    ensures Adler32.Sum1([]) == 1 && Adler32.Sum2([]) == 0
  {
  }

  lemma Wikipedia()
    ensures Adler32.Checksum([0x57, 0x69, 0x6b, 0x69, 0x70, 0x65, 0x64, 0x69, 0x61]) == [0x11, 0xe6, 0x03, 0x98]
  {
    hide Adler32.Sum1, Adler32.Sum2, BigEndian;
    WikipediaSums([0x57, 0x69, 0x6b, 0x69, 0x70, 0x65, 0x64, 0x69, 0x61]);
    Adler32.TwoBytes(920);
    Adler32.TwoBytes(4582);
  }
}
