/** Processing blocks in groups and one by one: the exact condition under which
    `AdvancedProcessBlocks128_6x2_SSE` of adv_simd.h gives the same memory, for calls that advance
    their output.  A cipher and a memory that tell the two apart are given for every other layout. */
module WideExact {
  import opened NatBits
  import opened Bytes
  import opened CcmSpec
  import opened WideBlocks

  // ----- exclusive or, on the high bit

  lemma {:induction false} XorTop(a: nat, b: nat, k: nat)
    requires a < Pow2(k + 1) && b < Pow2(k + 1)
    ensures XorBits(a, b, k + 1) >= Pow2(k) <==> (a >= Pow2(k)) != (b >= Pow2(k))
    decreases k
  {
    if k > 0 {
      XorTop(a / 2, b / 2, k - 1);
      assert XorBits(a, b, k + 1) == 2 * XorBits(a / 2, b / 2, k) + (a + b) % 2;
    } else {
      assert XorBits(a, b, 1) == 2 * XorBits(a / 2, b / 2, 0) + (a + b) % 2;
    }
  }

  lemma XorHigh(a: byte, b: byte)
    ensures Xor(a, b) >= 128 <==> (a >= 128) != (b >= 128)
  {
    assert Pow2(7) == 128 && Pow2(8) == 256;
    XorTop(a, b, 7);
  }

  lemma XorCommutes(a: byte, b: byte)
    ensures Xor(a, b) == Xor(b, a)
  {
    XorBitsCommute(a, b, 8);
  }

  lemma XorDiffers(a: byte, b: byte, x: byte)
    requires a != b
    ensures Xor(a, x) != Xor(b, x) && Xor(x, a) != Xor(x, b)
  {
    hide Xor;
    XorCancel(a, x);
    XorCancel(b, x);
    XorCommutes(a, x);
    XorCommutes(b, x);
  }

  // ----- addresses of a call that advances its output

  predicate Advancing(s: Setup) {
    && Proper(s) && (s.outStep == 16 || s.outStep == -16)
    && (UsesXor(s) ==> s.xorStep == s.outStep) && s.inStep == (if s.counter then 0 else s.outStep)
  }

  lemma SetupAdvances(flags: Flags, hasXor: bool, inBlocks: int, xorBlocks: int, outBlocks: int, length: nat)
    requires !flags.dontIncrement
    ensures Advancing(SetupFor(flags, hasXor, inBlocks, xorBlocks, outBlocks, length))
  {
  }

  /** How far block j is from block i. */
  function Gap(s: Setup, i: nat, j: nat): int { if s.outStep == 16 then 16 * (j - i) else 16 * (i - j) }

  lemma Places(s: Setup, i: nat, j: nat)
    requires Advancing(s)
    ensures Out(s, j) == Out(s, i) + Gap(s, i, j)
    ensures UsesXor(s) ==> Xors(s, j) == Xors(s, i) + Gap(s, i, j)
    ensures In(s, j) == In(s, i) + if s.counter then 0 else Gap(s, i, j)
  {
    AddressOf(s.outStart, i);
    AddressOf(s.outStart, j);
    AddressOf(s.xorStart, i);
    AddressOf(s.xorStart, j);
    AddressOf(s.inStart, i);
    AddressOf(s.inStart, j);
  }

  /** No byte belongs to two output blocks. */
  lemma OneOwner(s: Setup, i: nat, j: nat, y: int)
    requires Advancing(s) && HoldsByte(Out(s, i), y) && HoldsByte(Out(s, j), y)
    ensures i == j
  {
    hide In, Out, Xors;
    Places(s, i, j);
  }

  /** The counter byte. */
  function CounterByte(s: Setup): int { s.inStart + 15 }

  predicate IsCounterByte(s: Setup, y: int) { s.counter && y == CounterByte(s) }

  lemma CounterAt(s: Setup, i: nat)
    requires Advancing(s) && s.counter
    ensures In(s, i) == s.inStart
  {
    AddressOf(s.inStart, i);
  }

  // ----- bytes of the memory of the one-block loop

  ghost function R(E: Cipher, m: seq<byte>, s: Setup, j: nat): (r: seq<byte>)
    requires Fits(|m|, s, j)
    ensures |r| == |m|
  {
    Run(E, m, s, 0, j)
  }

  lemma FirstR(E: Cipher, m: seq<byte>, s: Setup)
    ensures Fits(|m|, s, 0) && R(E, m, s, 0) == m
  {
  }

  /** One round, byte by byte. */
  lemma NextR(E: Cipher, m: seq<byte>, s: Setup, j: nat, y: nat)
    requires Advancing(s) && Fits(|m|, s, j + 1) && y < |m|
    ensures Fits(|m|, s, j) && InsideAt(|m|, s, j)
    ensures R(E, m, s, j + 1)[y]
         == if HoldsByte(Out(s, j), y) then Single(E, R(E, m, s, j), s, j)[y - Out(s, j)]
            else if IsCounterByte(s, y) then Increment(R(E, m, s, j)[y], 1) else R(E, m, s, j)[y]
  {
    hide Single, At, Store, Load;
    FitsPrefix(|m|, s, j, j + 1);
    assert InsideAt(|m|, s, j);
    var r := R(E, m, s, j);
    RunSnoc(E, m, s, 0, j + 1);
    StepParts(E, r, s, j);
    if s.counter { CounterAt(s, j); }
    StoreAt(Count(r, s, j, 1), Out(s, j), Single(E, r, s, j), y);
  }

  ghost predicate Unowned(s: Setup, i: nat, j: nat, y: int) {
    forall t: nat :: i <= t < j ==> !HoldsByte(Out(s, t), y)
  }

  /** A byte that no block from i to j is stored over. */
  lemma {:induction false} Kept(E: Cipher, m: seq<byte>, s: Setup, i: nat, j: nat, y: nat)
    requires Advancing(s) && i <= j && Fits(|m|, s, j) && y < |m| && Unowned(s, i, j, y)
    ensures Fits(|m|, s, i)
    ensures R(E, m, s, j)[y] == if IsCounterByte(s, y) then Increment(R(E, m, s, i)[y], j - i) else R(E, m, s, i)[y]
    decreases j
  {
    hide Out, Increment, R, Fits;
    FitsPrefix(|m|, s, i, j);
    if i == j {
      NoIncrement(R(E, m, s, i)[y]);
    } else {
      NextR(E, m, s, j - 1, y);
      Kept(E, m, s, i, j - 1, y);
      BumpByte(R(E, m, s, i)[y], j - 1 - i, 1);
    }
  }

  lemma NoIncrement(x: byte)
    ensures Increment(x, 0) == x
  {
  }

  /** A byte of an output block, up to its block. */
  lemma KeptUntil(E: Cipher, m: seq<byte>, s: Setup, a: nat, j: nat, p: nat)
    requires Advancing(s) && Fits(|m|, s, j) && p < |m| && HoldsByte(Out(s, a), p) && j <= a
    ensures R(E, m, s, j)[p] == if IsCounterByte(s, p) then Increment(m[p], j) else m[p]
  {
    hide Out, R, Increment;
    forall t: nat | t < j ensures !HoldsByte(Out(s, t), p) { if HoldsByte(Out(s, t), p) { OneOwner(s, t, a, p); } }
    Kept(E, m, s, 0, j, p);
    FirstR(E, m, s);
  }

  /** And after it. */
  lemma KeptAfter(E: Cipher, m: seq<byte>, s: Setup, a: nat, j: nat, p: nat)
    requires Advancing(s) && Fits(|m|, s, j) && p < |m| && HoldsByte(Out(s, a), p) && a < j
    ensures Fits(|m|, s, a + 1)
    ensures R(E, m, s, j)[p]
         == if IsCounterByte(s, p) then Increment(R(E, m, s, a + 1)[p], j - a - 1) else R(E, m, s, a + 1)[p]
  {
    hide Out, R, Increment;
    forall t: nat | a + 1 <= t < j ensures !HoldsByte(Out(s, t), p) {
      if HoldsByte(Out(s, t), p) { OneOwner(s, t, a, p); }
    }
    Kept(E, m, s, a + 1, j, p);
  }

  // ----- bytes of the two stored blocks

  lemma InputAt(m: seq<byte>, s: Setup, b: nat, t: nat)
    requires InsideAt(|m|, s, b) && t < 16
    ensures SingleInput(m, s, b)[t] == if s.xorInput then Xor(m[In(s, b) + t], m[Xors(s, b) + t]) else m[In(s, b) + t]
  {
    hide Xor, At;
  }

  lemma LaneInputAt(m: seq<byte>, s: Setup, i: nat, b: nat, k: nat, t: nat)
    requires Advancing(s) && i <= b && InsideAt(|m|, s, i) && InsideAt(|m|, s, b) && t < 16
    ensures var y := In(s, b) + t;
            var x := if IsCounterByte(s, y) then Increment(m[y], b - i) else m[y];
            LaneInput(m, s, i, b - i, k)[t] == if s.xorInput then Xor(x, Count(m, s, i, k)[Xors(s, b) + t]) else x
  {
    hide Xor, At, Increment, Count;
    if s.counter {
      CounterAt(s, i);
      CounterAt(s, b);
    }
    assert i + (b - i) == b;
  }

  lemma CountAt(m: seq<byte>, s: Setup, i: nat, k: nat, y: nat)
    requires Advancing(s) && InsideAt(|m|, s, i) && y < |m|
    ensures Count(m, s, i, k)[y] == if IsCounterByte(s, y) then Increment(m[y], k) else m[y]
  {
    hide At, Increment;
    if s.counter { CounterAt(s, i); }
  }

  lemma SingleAt(E: Cipher, m: seq<byte>, s: Setup, b: nat, w: nat)
    requires InsideAt(|m|, s, b) && w < 16
    ensures var e := E(SingleInput(m, s, b))[w];
            Single(E, m, s, b)[w] == if s.xorOutput then Xor(e, Count(m, s, b, 1)[Xors(s, b) + w]) else e
  {
    hide Xor, At, SingleInput, Count;
  }

  lemma LaneAt(E: Cipher, m: seq<byte>, s: Setup, i: nat, b: nat, k: nat, w: nat)
    requires i <= b && InsideAt(|m|, s, i) && InsideAt(|m|, s, b) && w < 16
    ensures var e := E(LaneInput(m, s, i, b - i, k))[w];
            Lane(E, m, s, i, b - i, k)[w] == if s.xorOutput then Xor(e, Count(m, s, i, k)[Xors(s, b) + w]) else e
  {
    hide Xor, At, LaneInput, Count;
    assert i + (b - i) == b;
  }

  // ----- a difference in one block stays

  /** Byte w of block b, in the group of k from block i: the two loops store different values, and
      nothing changes them afterwards, or both by as much. */
  ghost predicate Tells(E: Cipher, m: seq<byte>, s: Setup, i: nat, b: nat, k: nat, w: nat) {
    && i <= b < i + k && w < 16 && Fits(|m|, s, i + k) && Fits(|m|, s, i) && Fits(|m|, s, b)
    && InsideAt(|m|, s, i) && InsideAt(|m|, s, b)
    && (b + 1 == i + k || !IsCounterByte(s, Out(s, b) + w))
    && Lane(E, R(E, m, s, i), s, i, b - i, k)[w] != Single(E, R(E, m, s, b), s, b)[w]
  }

  lemma {:induction false} StoresAt(m: seq<byte>, s: Setup, i: nat, outs: seq<Block>, b: nat, w: nat)
    requires Advancing(s) && Fits(|m|, s, i + |outs|) && i <= b < i + |outs| && w < 16
    ensures 0 <= Out(s, b) + w < |m|
    ensures Stores(m, s, i, outs)[Out(s, b) + w] == outs[b - i][w]
    decreases |outs|
  {
    hide At, Store;
    var k := |outs| - 1;
    assert InsideAt(|m|, s, b);
    assert InsideAt(|m|, s, i + k);
    var y := Out(s, b) + w;
    FitsPrefix(|m|, s, i + k, i + |outs|);
    StoreAt(Stores(m, s, i, outs[..k]), Out(s, i + k), outs[k], y);
    if b < i + k {
      StoresAt(m, s, i, outs[..k], b, w);
      Places(s, b, i + k);
    }
  }

  /** The schedule through safe groups to the group of k from block i. */
  ghost predicate Path(s: Setup, i0: nat, n: nat, i: nat, k: nat)
    decreases n
  {
    && n >= 2
    && var g := if n >= 6 then 6 else 2;
       if i == i0 then k == g else GroupSafe(s, i0, g) && Path(s, i0 + g, n - g, i, k)
  }

  lemma {:induction false} FindPath(s: Setup, i0: nat, n: nat) returns (i: nat, k: nat)
    requires !GroupsSafe(s, i0, n)
    ensures Path(s, i0, n, i, k) && !GroupSafe(s, i, k) && i0 <= i
    decreases n
  {
    hide GroupSafe;
    var g := if n >= 6 then 6 else 2;
    if !GroupSafe(s, i0, g) {
      i, k := i0, g;
    } else {
      i, k := FindPath(s, i0 + g, n - g);
    }
  }

  lemma {:induction false} PathInside(s: Setup, i0: nat, n: nat, i: nat, k: nat)
    requires Path(s, i0, n, i, k)
    ensures i0 <= i && 2 <= k <= 6 && i + k <= i0 + n
    decreases n
  {
    hide GroupSafe;
    var g := if n >= 6 then 6 else 2;
    if i != i0 { PathInside(s, i0 + g, n - g, i, k); }
  }

  /** Along such a path the schedule is the one-block loop, and then the group. */
  lemma {:induction false} AlongPath(E: Cipher, m: seq<byte>, s: Setup, i0: nat, n: nat, i: nat, k: nat)
    requires Fits(|m|, s, i0 + n) && Proper(s) && Path(s, i0, n, i, k)
    ensures i0 <= i && 2 <= k <= 6 && i + k <= i0 + n && Fits(|m|, s, i) && Fits(|m|, s, i + k)
    ensures Schedule(E, m, s, i0, n)
         == Schedule(E, Group(E, Run(E, m, s, i0, i - i0), s, i, k), s, i + k, i0 + n - i - k)
    decreases n
  {
    hide GroupSafe, Group, Run, Fits;
    PathInside(s, i0, n, i, k);
    FitsPrefix(|m|, s, i, i0 + n);
    FitsPrefix(|m|, s, i + k, i0 + n);
    var g := if n >= 6 then 6 else 2;
    FitsPrefix(|m|, s, i0 + g, i0 + n);
    ScheduleStep(E, m, s, i0, n);
    if i == i0 {
      RunFront(E, m, s, i0, 0);
    } else {
      GroupIsRun(E, m, s, i0, g);
      var m' := Group(E, m, s, i0, g);
      PathInside(s, i0 + g, n - g, i, k);
      AlongPath(E, m', s, i0 + g, n - g, i, k);
      RunAppend(E, m, s, i0, g, i - i0 - g);
    }
  }

  lemma {:induction false} RunKept(E: Cipher, m: seq<byte>, s: Setup, i: nat, n: nat, y: nat)
    requires Advancing(s) && Fits(|m|, s, i + n) && y < |m| && Unowned(s, i, i + n, y)
    ensures Run(E, m, s, i, n)[y] == if IsCounterByte(s, y) then Increment(m[y], n) else m[y]
    decreases n
  {
    hide Out, Increment, Single, Store, Count;
    if n == 0 {
      NoIncrement(m[y]);
    } else {
      var r := Run(E, m, s, i, n - 1);
      FitsPrefix(|m|, s, i + (n - 1), i + n);
      RunSnoc(E, m, s, i, n);
      StepParts(E, r, s, i + (n - 1));
      StoreAt(Count(r, s, i + (n - 1), 1), Out(s, i + (n - 1)), Single(E, r, s, i + (n - 1)), y);
      CountAt(r, s, i + (n - 1), 1, y);
      RunKept(E, m, s, i, n - 1, y);
      BumpByte(m[y], n - 1, 1);
    }
  }

  lemma GroupKept(E: Cipher, m: seq<byte>, s: Setup, i: nat, k: nat, y: nat)
    requires Advancing(s) && k > 0 && Fits(|m|, s, i + k) && y < |m| && Unowned(s, i, i + k, y)
    ensures Group(E, m, s, i, k)[y] == if IsCounterByte(s, y) then Increment(m[y], k) else m[y]
  {
    hide Out, Increment, Stores, Count, Lane;
    assert InsideAt(|m|, s, i);
    StoresByte(Count(m, s, i, k), s, i, GroupOut(E, m, s, i, k), y, 0);
    CountAt(m, s, i, k, y);
  }

  lemma {:induction false} ScheduleKept(E: Cipher, m: seq<byte>, s: Setup, i: nat, n: nat, y: nat)
    requires Advancing(s) && Fits(|m|, s, i + n) && y < |m| && Unowned(s, i, i + n, y)
    ensures Schedule(E, m, s, i, n)[y] == if IsCounterByte(s, y) then Increment(m[y], n) else m[y]
    decreases n
  {
    hide Out, Increment, Group, Run, Fits;
    ScheduleStep(E, m, s, i, n);
    if n >= 2 {
      var k := if n >= 6 then 6 else 2;
      GroupKept(E, m, s, i, k, y);
      ScheduleKept(E, Group(E, m, s, i, k), s, i + k, n - k, y);
      BumpByte(m[y], k, n - k);
    } else {
      RunKept(E, m, s, i, n, y);
    }
  }

  lemma GroupAt(E: Cipher, m: seq<byte>, s: Setup, i: nat, b: nat, k: nat, w: nat)
    requires Advancing(s) && Fits(|m|, s, i + k) && i <= b < i + k && w < 16
    ensures InsideAt(|m|, s, i) && InsideAt(|m|, s, b) && 0 <= Out(s, b) + w < |m|
    ensures Group(E, m, s, i, k)[Out(s, b) + w] == Lane(E, m, s, i, b - i, k)[w]
  {
    hide At, Stores, Count, Lane;
    assert InsideAt(|m|, s, i) && InsideAt(|m|, s, b);
    StoresAt(Count(m, s, i, k), s, i, GroupOut(E, m, s, i, k), b, w);
  }

  /** A block that tells the loops apart makes the calls differ. */
  lemma Differs(E: Cipher, m: seq<byte>, s: Setup, n: nat, i: nat, b: nat, k: nat, w: nat)
    requires Advancing(s) && Fits(|m|, s, n) && Path(s, 0, n, i, k) && Tells(E, m, s, i, b, k, w)
    ensures Schedule(E, m, s, 0, n) != Run(E, m, s, 0, n)
  {
    hide Out, Schedule, Run, Group, Single, Lane, Increment, Fits, Path;
    var y := Out(s, b) + w;
    AlongPath(E, m, s, 0, n, i, k);
    var r := R(E, m, s, i);
    GroupAt(E, r, s, i, b, k, w);
    forall t: nat | b + 1 <= t < n ensures !HoldsByte(Out(s, t), y) {
      if HoldsByte(Out(s, t), y) { OneOwner(s, t, b, y); }
    }
    ScheduleKept(E, Group(E, r, s, i, k), s, i + k, n - i - k, y);
    FitsPrefix(|m|, s, b + 1, n);
    NextR(E, m, s, b, y);
    Kept(E, m, s, b + 1, n, y);
    if IsCounterByte(s, y) {
      IncrementDiffers(Lane(E, r, s, i, b - i, k)[w], Single(E, R(E, m, s, b), s, b)[w], n - b - 1);
    }
  }

  lemma IncrementDiffers(x: byte, y: byte, k: nat)
    requires x != y
    ensures Increment(x, k) != Increment(y, k)
  {
    var q, r := (x + k) / 256, (y + k) / 256;
    assert x - y == 256 * (q - r) + (Increment(x, k) - Increment(y, k));
  }

  // ----- ciphers and memories that tell the loops apart

  function Fill(v: byte): Block { seq(16, i => v) }

  /** One of two blocks, by the high bit of byte t. */
  function Threshold(t: nat, h: byte): Cipher
    requires t < 16 && h < 255
  {
    (x: Block) => if x[t] >= 128 then Fill(h) else Fill(h + 1)
  }

  ghost predicate IsLow(b: Block) { forall w :: 0 <= w < 16 ==> b[w] < 128 }

  ghost predicate LowCipher(E: Cipher) { forall x: Block :: IsLow(E(x)) }

  /** Bytes stay low when outputs are low and not combined. */
  lemma {:induction false} LowByte(E: Cipher, m: seq<byte>, s: Setup, j: nat, y: nat)
    requires Advancing(s) && !s.xorOutput && Fits(|m|, s, j) && LowCipher(E)
    requires y < |m| && m[y] < 128 && !IsCounterByte(s, y)
    ensures R(E, m, s, j)[y] < 128
    decreases j
  {
    hide Out, R, Single, Fits;
    if j == 0 {
      FirstR(E, m, s);
    } else {
      NextR(E, m, s, j - 1, y);
      LowByte(E, m, s, j - 1, y);
      if HoldsByte(Out(s, j - 1), y) { StoredLow(E, R(E, m, s, j - 1), s, j - 1, y - Out(s, j - 1)); }
    }
  }

  lemma StoredLow(E: Cipher, m: seq<byte>, s: Setup, b: nat, w: nat)
    requires !s.xorOutput && InsideAt(|m|, s, b) && w < 16 && LowCipher(E)
    ensures Single(E, m, s, b)[w] < 128
  {
    hide SingleInput;
    SingleAt(E, m, s, b, w);
    assert IsLow(E(SingleInput(m, s, b)));
  }

  /** A byte of an output block is low after its block. */
  lemma WrittenLow(E: Cipher, m: seq<byte>, s: Setup, a: nat, j: nat, p: nat)
    requires Advancing(s) && !s.xorOutput && Fits(|m|, s, j) && LowCipher(E)
    requires p < |m| && HoldsByte(Out(s, a), p) && a < j
    ensures Fits(|m|, s, a + 1) && R(E, m, s, a + 1)[p] < 128
    ensures !IsCounterByte(s, p) ==> R(E, m, s, j)[p] < 128
  {
    hide Out, R, Single, Fits, Increment, LowCipher;
    KeptAfter(E, m, s, a, j, p);
    NextR(E, m, s, a, p);
    StoredLow(E, R(E, m, s, a), s, a, p - Out(s, a));
  }

  lemma ThresholdLow(t: nat)
    requires t < 16
    ensures LowCipher(Threshold(t, 0))
  {
  }

  lemma Marked(size: nat, p: nat, v: byte, y: nat)
    requires p < size && y < size
    ensures Zeros(size)[p := v][y] == if y == p then v else 0
  {
  }

  /** Inputs on different sides of the threshold. */
  lemma Crossing(t: nat, h: byte, x: Block, y: Block, w: nat)
    requires t < 16 && h < 255 && w < 16 && (x[t] >= 128) != (y[t] >= 128)
    ensures Threshold(t, h)(x)[w] != Threshold(t, h)(y)[w]
  {
  }

  /** A byte that is read after an earlier block of the group was written over it. */
  lemma TellPlain(size: nat, s: Setup, i: nat, a: nat, b: nat, k: nat, p: nat) returns (E: Cipher, m: seq<byte>)
    requires Advancing(s) && !s.counter && !s.xorOutput && Fits(size, s, i + k) && i <= a < b < i + k && p < size
    requires HoldsByte(Out(s, a), p) && (HoldsByte(In(s, b), p) || (s.xorInput && HoldsByte(Xors(s, b), p)))
    requires s.xorInput ==> In(s, b) != Xors(s, b)
    ensures |m| == size && Tells(E, m, s, i, b, k, 0)
  {
    hide At, R, Single, Lane, SingleInput, LaneInput, Threshold, LowCipher, Xor, Count;
    var byInput := HoldsByte(In(s, b), p);
    var t := if byInput then p - In(s, b) else p - Xors(s, b);
    E, m := Threshold(t, 0), Zeros(size)[p := 128];
    ThresholdLow(t);
    assert InsideAt(size, s, i) && InsideAt(size, s, b);
    FitsPrefix(size, s, i, i + k);
    FitsPrefix(size, s, b, i + k);
    var M, N := R(E, m, s, i), R(E, m, s, b);
    KeptUntil(E, m, s, a, i, p);
    WrittenLow(E, m, s, a, b, p);
    LaneInputAt(M, s, i, b, k, t);
    InputAt(N, s, b, t);
    if s.xorInput {
      var q := if byInput then Xors(s, b) + t else In(s, b) + t;
      Marked(size, p, 128, q);
      LowByte(E, m, s, i, q);
      LowByte(E, m, s, b, q);
      CountAt(M, s, i, k, Xors(s, b) + t);
      XorHigh(M[In(s, b) + t], M[Xors(s, b) + t]);
      XorHigh(N[In(s, b) + t], N[Xors(s, b) + t]);
    }
    Crossing(t, 0, LaneInput(M, s, i, b - i, k), SingleInput(N, s, b), 0);
    LaneAt(E, M, s, i, b, k, 0);
    SingleAt(E, N, s, b, 0);
  }

  // ----- XOR blocks combined with the output

  /** How far an XOR block is from its output block. */
  function Offset(s: Setup): int { s.xorStart - s.outStart }

  lemma OffsetAt(s: Setup, j: nat)
    requires Advancing(s) && UsesXor(s)
    ensures Xors(s, j) == Out(s, j) + Offset(s)
  {
    AddressOf(s.outStart, j);
    AddressOf(s.xorStart, j);
  }

  /** Further on than p, as seen from an output block towards its XOR block. */
  predicate Beyond(s: Setup, p: int, y: int) { if Offset(s) > 0 then y > p else y < p }

  /** One round, where the XOR blocks are combined with the output. */
  lemma NextXor(E: Cipher, m: seq<byte>, s: Setup, j: nat, y: nat)
    requires Advancing(s) && s.xorOutput && Fits(|m|, s, j + 1) && y < |m| && HoldsByte(Out(s, j), y)
    ensures Fits(|m|, s, j) && InsideAt(|m|, s, j) && 0 <= y + Offset(s) < |m|
    ensures var r, x := R(E, m, s, j), y + Offset(s);
            R(E, m, s, j + 1)[y] == Xor(E(SingleInput(r, s, j))[y - Out(s, j)],
                                        if IsCounterByte(s, x) then Increment(r[x], 1) else r[x])
  {
    hide At, R, Single, SingleInput, Count, Increment, Xor, Offset, Fits;
    NextR(E, m, s, j, y);
    OffsetAt(s, j);
    var r := R(E, m, s, j);
    SingleAt(E, r, s, j, y - Out(s, j));
    CountAt(r, s, j, 1, y + Offset(s));
  }

  /** Bytes beyond p stay low, without a counter. */
  lemma {:induction false} LowBeyond(E: Cipher, m: seq<byte>, s: Setup, p: nat, j: nat, y: nat)
    requires Advancing(s) && s.xorOutput && !s.counter && Fits(|m|, s, j) && LowCipher(E) && Offset(s) != 0
    requires y < |m| && Beyond(s, p, y) && forall z: nat :: z < |m| && Beyond(s, p, z) ==> m[z] < 128
    ensures R(E, m, s, j)[y] < 128
    decreases j
  {
    hide Out, R, SingleInput, Fits, Xor;
    if j == 0 {
      FirstR(E, m, s);
    } else {
      NextR(E, m, s, j - 1, y);
      if HoldsByte(Out(s, j - 1), y) {
        NextXor(E, m, s, j - 1, y);
        LowBeyond(E, m, s, p, j - 1, y + Offset(s));
        LowXor(E, SingleInput(R(E, m, s, j - 1), s, j - 1), y - Out(s, j - 1), R(E, m, s, j - 1)[y + Offset(s)]);
      } else {
        LowBeyond(E, m, s, p, j - 1, y);
      }
    }
  }

  lemma LowXor(E: Cipher, x: Block, w: nat, v: byte)
    requires LowCipher(E) && w < 16 && v < 128
    ensures Xor(E(x)[w], v) < 128
  {
    hide Xor;
    assert IsLow(E(x));
    XorHigh(E(x)[w], v);
  }

  /** An input block written over, the XOR block not: no counter. */
  lemma TellInput(size: nat, s: Setup, i: nat, a: nat, b: nat, k: nat, p: nat) returns (E: Cipher, m: seq<byte>)
    requires Advancing(s) && !s.counter && s.xorOutput && Fits(size, s, i + k) && i <= a < b < i + k && p < size
    requires HoldsByte(Out(s, a), p) && HoldsByte(In(s, b), p)
    requires forall t: nat :: i <= t < b ==> Apart(Out(s, t), Xors(s, b))
    ensures |m| == size && Tells(E, m, s, i, b, k, 0)
  {
    hide At, R, Single, Lane, SingleInput, LaneInput, Threshold, LowCipher, Xor, Count;
    var t := p - In(s, b);
    assert InsideAt(size, s, i) && InsideAt(size, s, b);
    FitsPrefix(size, s, i, i + k);
    FitsPrefix(size, s, b, i + k);
    var h := if Offset(s) == 0 then 128 else 0;
    E := Threshold(t, h);
    m := if Offset(s) == 0 then Zeros(size) else Zeros(size)[p := 128];
    var M, N := R(E, m, s, i), R(E, m, s, b);
    KeptUntil(E, m, s, a, i, p);
    OverwrittenInput(E, m, s, t, a, b, p);
    LaneInputAt(M, s, i, b, k, t);
    InputAt(N, s, b, t);
    Crossing(t, h, LaneInput(M, s, i, b - i, k), SingleInput(N, s, b), 0);
    LaneAt(E, M, s, i, b, k, 0);
    SingleAt(E, N, s, b, 0);
    CountAt(M, s, i, k, Xors(s, b));
    CountAt(N, s, b, 1, Xors(s, b));
    Kept(E, m, s, i, b, Xors(s, b));
    XorDiffers(E(LaneInput(M, s, i, b - i, k))[0], E(SingleInput(N, s, b))[0], M[Xors(s, b)]);
  }

  /** The overwritten byte changes sides of the threshold. */
  lemma OverwrittenInput(E: Cipher, m: seq<byte>, s: Setup, t: nat, a: nat, b: nat, p: nat)
    requires Advancing(s) && !s.counter && s.xorOutput && Fits(|m|, s, b) && t < 16 && a < b && p < |m|
    requires HoldsByte(Out(s, a), p)
    requires E == Threshold(t, if Offset(s) == 0 then 128 else 0)
    requires m == if Offset(s) == 0 then Zeros(|m|) else Zeros(|m|)[p := 128]
    ensures (R(E, m, s, b)[p] >= 128) != (m[p] >= 128)
  {
    hide At, R, SingleInput, LowCipher, Xor;
    KeptAfter(E, m, s, a, b, p);
    NextXor(E, m, s, a, p);
    var r := R(E, m, s, a);
    var e := E(SingleInput(r, s, a))[p - Out(s, a)];
    if Offset(s) == 0 {
      KeptUntil(E, m, s, a, a, p);
      XorHigh(e, r[p]);
    } else {
      ThresholdLow(t);
      LowBeyond(E, m, s, p, a, p + Offset(s));
      LowXor(E, SingleInput(r, s, a), p - Out(s, a), r[p + Offset(s)]);
    }
  }

  /** The two ciphers give the same outputs along their runs. */
  ghost predicate SameOutputs(E: Cipher, m: seq<byte>, E': Cipher, m': seq<byte>, s: Setup, j: nat) {
    && |m| == |m'| && Fits(|m|, s, j)
    && forall l: nat :: l < j ==>
         && Fits(|m|, s, l) && InsideAt(|m|, s, l)
         && E(SingleInput(R(E, m, s, l), s, l)) == E'(SingleInput(R(E', m', s, l), s, l))
  }

  ghost predicate SameBeyond(s: Setup, m: seq<byte>, m': seq<byte>, p: int)
    requires |m| == |m'|
  {
    forall z: nat :: z < |m| && Beyond(s, p, z) ==> m[z] == m'[z]
  }

  lemma FewerOutputs(E: Cipher, m: seq<byte>, E': Cipher, m': seq<byte>, s: Setup, j: nat)
    requires SameOutputs(E, m, E', m', s, j + 1)
    ensures SameOutputs(E, m, E', m', s, j)
    ensures Fits(|m|, s, j) && InsideAt(|m|, s, j)
    ensures E(SingleInput(R(E, m, s, j), s, j)) == E'(SingleInput(R(E', m', s, j), s, j))
  {
    hide SingleInput, R;
    FitsPrefix(|m|, s, j, j + 1);
  }

  /** What is beyond p does not depend on what is at p or before it. */
  lemma {:induction false} AgreeBeyond(E: Cipher, m: seq<byte>, E': Cipher, m': seq<byte>, s: Setup, p: nat, j: nat,
                                       y: nat)
    requires Advancing(s) && s.xorOutput && Offset(s) != 0 && SameOutputs(E, m, E', m', s, j)
    requires y < |m| && Beyond(s, p, y) && SameBeyond(s, m, m', p)
    ensures R(E, m, s, j)[y] == R(E', m', s, j)[y]
    decreases j
  {
    hide Out, R, SingleInput, Fits, Xor, SameOutputs, SameBeyond, Increment;
    SameSize(E, m, E', m', s, j);
    if j == 0 {
      FirstR(E, m, s);
      FirstR(E', m', s);
      SameAt(s, m, m', p, y);
    } else {
      FewerOutputs(E, m, E', m', s, j - 1);
      NextR(E, m, s, j - 1, y);
      NextR(E', m', s, j - 1, y);
      if HoldsByte(Out(s, j - 1), y) {
        NextXor(E, m, s, j - 1, y);
        NextXor(E', m', s, j - 1, y);
        AgreeBeyond(E, m, E', m', s, p, j - 1, y + Offset(s));
      } else {
        AgreeBeyond(E, m, E', m', s, p, j - 1, y);
      }
    }
  }

  lemma SameAt(s: Setup, m: seq<byte>, m': seq<byte>, p: int, y: nat)
    requires |m| == |m'| && SameBeyond(s, m, m', p) && y < |m| && Beyond(s, p, y)
    ensures m[y] == m'[y]
  {
  }

  lemma SameSize(E: Cipher, m: seq<byte>, E': Cipher, m': seq<byte>, s: Setup, j: nat)
    requires SameOutputs(E, m, E', m', s, j)
    ensures |m| == |m'| && Fits(|m|, s, j)
  {
    hide R, SingleInput;
  }

  /** Nor does p itself once its block was stored. */
  lemma AgreeWritten(E: Cipher, m: seq<byte>, E': Cipher, m': seq<byte>, s: Setup, a: nat, p: nat)
    requires Advancing(s) && s.xorOutput && Offset(s) != 0 && SameOutputs(E, m, E', m', s, a + 1)
    requires p < |m| && HoldsByte(Out(s, a), p) && SameBeyond(s, m, m', p)
    ensures R(E, m, s, a + 1)[p] == R(E', m', s, a + 1)[p]
  {
    hide Out, R, SingleInput, Fits, Xor, SameOutputs, SameBeyond, Increment;
    SameSize(E, m, E', m', s, a + 1);
    FewerOutputs(E, m, E', m', s, a);
    NextXor(E, m, s, a, p);
    NextXor(E', m', s, a, p);
    AgreeBeyond(E, m, E', m', s, p, a, p + Offset(s));
  }

  lemma SameConstant(E: Cipher, m: seq<byte>, m': seq<byte>, s: Setup, j: nat, v: byte)
    requires Fits(|m|, s, j) && |m| == |m'| && forall x: Block :: E(x) == Fill(v)
    ensures SameOutputs(E, m, E, m', s, j)
  {
    hide R, SingleInput, InsideAt;
    forall l: nat | l < j ensures Fits(|m|, s, l) { FitsPrefix(|m|, s, l, j); }
  }

  /** An XOR block written over, combined with the output. */
  lemma TellXor(size: nat, s: Setup, i: nat, a: nat, b: nat, k: nat, p: nat) returns (E: Cipher, m: seq<byte>)
    requires Advancing(s) && s.xorOutput && Fits(size, s, i + k) && i <= a < b < i + k && p < size
    requires HoldsByte(Out(s, a), p) && HoldsByte(Xors(s, b), p) && !IsCounterByte(s, p)
    requires b + 1 == i + k || !IsCounterByte(s, Out(s, b) + (p - Xors(s, b)))
    ensures |m| == size && Tells(E, m, s, i, b, k, p - Xors(s, b))
  {
    hide At, R, Single, Lane, SingleInput, LaneInput, LowCipher, Xor, Count, Increment;
    var t := p - Xors(s, b);
    assert InsideAt(size, s, i) && InsideAt(size, s, b);
    FitsPrefix(size, s, i, i + k);
    FitsPrefix(size, s, b, i + k);
    FitsPrefix(size, s, a + 1, i + k);
    OffsetAt(s, b);
    if Offset(s) == 0 { OneOwner(s, a, b, p); }
    E := (x: Block) => Fill(0);
    var m0 := Zeros(size);
    var g := R(E, m0, s, a + 1)[p];
    m := m0[p := Increment(g, 1)];
    IncrementOnce(g);
    SameConstant(E, m0, m, s, a + 1, 0);
    AgreeWritten(E, m0, E, m, s, a, p);
    var M, N := R(E, m, s, i), R(E, m, s, b);
    KeptUntil(E, m, s, a, i, p);
    KeptAfter(E, m, s, a, b, p);
    LaneAt(E, M, s, i, b, k, t);
    SingleAt(E, N, s, b, t);
    CountAt(M, s, i, k, p);
    CountAt(N, s, b, 1, p);
    XorDiffers(M[p], N[p], 0);
  }

  lemma IncrementOnce(x: byte)
    ensures Increment(x, 1) != x
  {
  }

  // ----- a counter block

  /** A byte of block b that no counter changes later. */
  function FreeByte(s: Setup, b: nat): (w: nat)
    ensures w < 16 && !IsCounterByte(s, Out(s, b) + w)
  {
    if IsCounterByte(s, Out(s, b)) then 1 else 0
  }

  /** The value that k increments bring to v. */
  function Before(v: byte, k: nat): byte { (v - k) % 256 }

  lemma Arrives(v: byte, k: nat, j: nat)
    ensures Increment(Before(v, k), k) == v
    ensures j >= k ==> Increment(Before(v, k), j) == Increment(v, j - k)
  {
    var q := (v - k) / 256;
    assert Before(v, k) + k == v - 256 * q;
    if j >= k { BumpByte(Before(v, k), k, j - k); }
  }

  lemma SmallIncrement(x: byte, k: nat)
    requires x + k < 256
    ensures Increment(x, k) == x + k
  {
  }

  /** What a threshold at zero stores. */
  lemma WrittenSmall(E: Cipher, m: seq<byte>, s: Setup, t: nat, a: nat, p: nat)
    requires Advancing(s) && !s.xorOutput && Fits(|m|, s, a + 1) && t < 16 && E == Threshold(t, 0)
    requires p < |m| && HoldsByte(Out(s, a), p)
    ensures R(E, m, s, a + 1)[p] <= 1
  {
    hide Out, R, Single, SingleInput, Fits;
    NextR(E, m, s, a, p);
    SingleAt(E, R(E, m, s, a), s, a, p - Out(s, a));
  }

  /** The counter byte is small throughout the group in which the counter block is written over, if it was
      zero at its start. */
  lemma CounterSmall(E: Cipher, m: seq<byte>, s: Setup, t: nat, i: nat, a: nat, j: nat, k: nat, p: nat)
    requires Advancing(s) && s.counter && !s.xorOutput && t < 16 && E == Threshold(t, 0) && k <= 6
    requires i <= a < i + k && i <= j < i + k && Fits(|m|, s, j) && 0 <= s.inStart && CounterByte(s) < |m|
    requires HoldsByte(Out(s, a), p) && HoldsByte(s.inStart, p) && m[CounterByte(s)] == Before(0, i)
    ensures R(E, m, s, j)[CounterByte(s)] <= 7
  {
    hide Out, R, Threshold, Fits, Increment, Before;
    var y := CounterByte(s);
    if l: nat :| l < j && HoldsByte(Out(s, l), y) {
      Places(s, l, a);
      KeptAfter(E, m, s, l, j, y);
      WrittenSmall(E, m, s, t, l, y);
      SmallIncrement(R(E, m, s, l + 1)[y], j - l - 1);
    } else {
      Kept(E, m, s, 0, j, y);
      FirstR(E, m, s);
      Arrives(0, i, j);
      SmallIncrement(0, j - i);
    }
  }

  /** The counter block written over, below its last byte. */
  lemma TellCounter(size: nat, s: Setup, i: nat, a: nat, b: nat, k: nat, p: nat) returns (E: Cipher, m: seq<byte>)
    requires Advancing(s) && s.counter && !s.xorOutput && Fits(size, s, i + k) && i <= a < b < i + k <= i + 6
    requires p < size
    requires HoldsByte(Out(s, a), p) && HoldsByte(s.inStart, p) && p != CounterByte(s)
    requires s.xorInput ==> Xors(s, b) != s.inStart
    ensures |m| == size && Tells(E, m, s, i, b, k, FreeByte(s, b))
  {
    hide At, R, Single, Lane, SingleInput, LaneInput, Threshold, LowCipher, Xor, Count, Increment, Before, FreeByte;
    var c, y := s.inStart, CounterByte(s);
    var t, w := p - c, FreeByte(s, b);
    assert InsideAt(size, s, i) && InsideAt(size, s, b);
    CounterAt(s, i);
    CounterAt(s, b);
    FitsPrefix(size, s, i, i + k);
    FitsPrefix(size, s, b, i + k);
    E, m := Threshold(t, 0), Zeros(size)[p := 128][y := Before(0, i)];
    ThresholdLow(t);
    var M, N := R(E, m, s, i), R(E, m, s, b);
    KeptUntil(E, m, s, a, i, p);
    WrittenLow(E, m, s, a, b, p);
    LaneInputAt(M, s, i, b, k, t);
    InputAt(N, s, b, t);
    if s.xorInput {
      var q := Xors(s, b) + t;
      CountAt(M, s, i, k, q);
      if q == y {
        CounterSmall(E, m, s, t, i, a, i, k, p);
        CounterSmall(E, m, s, t, i, a, b, k, p);
        SmallIncrement(M[y], k);
      } else {
        Marked(size, p, 128, q);
        LowByte(E, m, s, i, q);
        LowByte(E, m, s, b, q);
      }
      XorHigh(M[p], Count(M, s, i, k)[q]);
      XorHigh(N[p], N[q]);
    }
    Crossing(t, 0, LaneInput(M, s, i, b - i, k), SingleInput(N, s, b), w);
    LaneAt(E, M, s, i, b, k, w);
    SingleAt(E, N, s, b, w);
  }

  /** The counter byte written over. */
  lemma TellCounterByte(size: nat, s: Setup, i: nat, a: nat, b: nat, k: nat) returns (E: Cipher, m: seq<byte>)
    requires Advancing(s) && s.counter && !s.xorOutput && Fits(size, s, i + k) && i <= a < b < i + k <= i + 6
    requires HoldsByte(Out(s, a), CounterByte(s)) && (s.xorInput ==> Xors(s, b) != s.inStart)
    ensures |m| == size && Tells(E, m, s, i, b, k, FreeByte(s, b))
  {
    hide At, R, Single, Lane, SingleInput, LaneInput, Threshold, LowCipher, Xor, Count, Increment, Before, FreeByte;
    var c, y := s.inStart, CounterByte(s);
    var w := FreeByte(s, b);
    assert InsideAt(size, s, i) && InsideAt(size, s, b);
    CounterAt(s, i);
    CounterAt(s, b);
    FitsPrefix(size, s, i, i + k);
    FitsPrefix(size, s, b, i + k);
    E, m := Threshold(15, 0), Zeros(size)[y := Before(128, b)];
    ThresholdLow(15);
    var M, N := R(E, m, s, i), R(E, m, s, b);
    KeptUntil(E, m, s, a, i, y);
    Arrives(128, b, b);
    BumpByte(m[y], i, b - i);
    KeptAfter(E, m, s, a, b, y);
    WrittenSmall(E, m, s, 15, a, y);
    SmallIncrement(R(E, m, s, a + 1)[y], b - a - 1);
    LaneInputAt(M, s, i, b, k, 15);
    InputAt(N, s, b, 15);
    if s.xorInput {
      var q := Xors(s, b) + 15;
      CountAt(M, s, i, k, q);
      Marked(size, y, Before(128, b), q);
      LowByte(E, m, s, i, q);
      LowByte(E, m, s, b, q);
      XorHigh(128, M[q]);
      XorHigh(N[y], N[q]);
    }
    Crossing(15, 0, LaneInput(M, s, i, b - i, k), SingleInput(N, s, b), w);
    LaneAt(E, M, s, i, b, k, w);
    SingleAt(E, N, s, b, w);
  }

  ghost predicate CounterApart(s: Setup, i: nat, b: nat) {
    forall a: nat :: i <= a < b ==> Apart(Out(s, a), s.inStart)
  }

  /** The counter block from block i to block b, if no block was stored over it. */
  lemma CounterBytes(E: Cipher, m: seq<byte>, s: Setup, i: nat, b: nat, t: nat)
    requires Advancing(s) && s.counter && i <= b && Fits(|m|, s, b) && CounterApart(s, i, b) && t < 16
    requires Inside(|m|, s.inStart)
    ensures Fits(|m|, s, i)
    ensures var y, r := s.inStart + t, R(E, m, s, i);
            R(E, m, s, b)[y] == if t == 15 then Increment(r[y], b - i) else r[y]
  {
    hide Out, R, Increment;
    Kept(E, m, s, i, b, s.inStart + t);
  }

  lemma IncrementApart(x: byte, j: nat, k: nat)
    requires j < k < j + 256
    ensures Increment(x, j) != Increment(x, k)
  {
    var q, r := (x + j) / 256, (x + k) / 256;
    assert k - j == 256 * (r - q) + (Increment(x, k) - Increment(x, j));
  }

  /** Every byte of the output is byte t of the input. */
  function Spread(t: nat): Cipher
    requires t < 16
  {
    (x: Block) => Fill(x[t])
  }

  /** The counter byte in the XOR block of the input. */
  lemma TellCounterXor(size: nat, s: Setup, i: nat, b: nat, k: nat) returns (E: Cipher, m: seq<byte>)
    requires Advancing(s) && s.counter && s.xorInput && Fits(size, s, i + k) && i <= b < i + k <= i + 6
    requires HoldsByte(Xors(s, b), CounterByte(s)) && (Xors(s, b) == s.inStart || CounterApart(s, i, b))
    ensures |m| == size && Tells(E, m, s, i, b, k, FreeByte(s, b))
  {
    hide At, R, Single, Lane, SingleInput, LaneInput, Xor, Count, Increment, FreeByte, CounterApart;
    var y, w := CounterByte(s), FreeByte(s, b);
    var t := y - Xors(s, b);
    assert InsideAt(size, s, i) && InsideAt(size, s, b);
    CounterAt(s, i);
    CounterAt(s, b);
    FitsPrefix(size, s, i, i + k);
    FitsPrefix(size, s, b, i + k);
    E, m := Spread(t), Zeros(size);
    var M, N := R(E, m, s, i), R(E, m, s, b);
    LaneInputAt(M, s, i, b, k, t);
    InputAt(N, s, b, t);
    CountAt(M, s, i, k, y);
    IncrementApart(M[y], b - i, k);
    if t == 15 {
      XorItself(N[y]);
      XorItself(Increment(M[y], k));
      XorDiffers(Increment(M[y], b - i), Increment(M[y], k), Increment(M[y], k));
    } else {
      CounterBytes(E, m, s, i, b, t);
      CounterBytes(E, m, s, i, b, 15);
      XorDiffers(Increment(M[y], b - i), Increment(M[y], k), M[s.inStart + t]);
    }
    LaneAt(E, M, s, i, b, k, w);
    SingleAt(E, N, s, b, w);
  }

  /** An XOR block of the input written over. */
  lemma TellCounterWritten(size: nat, s: Setup, i: nat, a: nat, b: nat, k: nat, p: nat)
      returns (E: Cipher, m: seq<byte>)
    requires Advancing(s) && s.counter && s.xorInput && Fits(size, s, i + k) && i <= a < b < i + k && p < size
    requires HoldsByte(Out(s, a), p) && HoldsByte(Xors(s, b), p)
    requires !HoldsByte(Xors(s, b), CounterByte(s)) && CounterApart(s, i, b)
    ensures |m| == size && Tells(E, m, s, i, b, k, FreeByte(s, b))
  {
    hide At, R, Single, Lane, SingleInput, LaneInput, Threshold, LowCipher, Xor, Count, Increment, FreeByte,
         CounterApart;
    var w, t := FreeByte(s, b), p - Xors(s, b);
    assert InsideAt(size, s, i) && InsideAt(size, s, b);
    CounterAt(s, i);
    CounterAt(s, b);
    FitsPrefix(size, s, i, i + k);
    FitsPrefix(size, s, b, i + k);
    E, m := Threshold(t, 0), Zeros(size)[p := 128];
    ThresholdLow(t);
    var M, N := R(E, m, s, i), R(E, m, s, b);
    KeptUntil(E, m, s, a, i, p);
    WrittenLow(E, m, s, a, b, p);
    LaneInputAt(M, s, i, b, k, t);
    InputAt(N, s, b, t);
    CountAt(M, s, i, k, p);
    CounterBytes(E, m, s, i, b, t);
    XorHigh(N[s.inStart + t], M[p]);
    XorHigh(N[s.inStart + t], N[p]);
    Crossing(t, 0, LaneInput(M, s, i, b - i, k), SingleInput(N, s, b), w);
    LaneAt(E, M, s, i, b, k, w);
    SingleAt(E, N, s, b, w);
  }

  /** The counter byte in the XOR block of an output that is not the last of its group. */
  lemma TellCounterOut(size: nat, s: Setup, i: nat, b: nat, k: nat) returns (E: Cipher, m: seq<byte>)
    requires Advancing(s) && s.counter && s.xorOutput && Fits(size, s, i + k) && i <= b && b + 1 < i + k <= i + 6
    requires HoldsByte(Xors(s, b), CounterByte(s)) && CounterApart(s, i, i + k - 1)
    ensures |m| == size && Tells(E, m, s, i, b, k, CounterByte(s) - Xors(s, b))
  {
    hide At, R, Single, Lane, SingleInput, LaneInput, Xor, Count, Increment;
    var y := CounterByte(s);
    var w := y - Xors(s, b);
    assert InsideAt(size, s, i) && InsideAt(size, s, b);
    CounterAt(s, i);
    FitsPrefix(size, s, i, i + k);
    FitsPrefix(size, s, b, i + k);
    E, m := (x: Block) => Fill(0), Zeros(size);
    var M, N := R(E, m, s, i), R(E, m, s, b);
    CounterBytes(E, m, s, i, b, 15);
    CountAt(M, s, i, k, y);
    CountAt(N, s, b, 1, y);
    BumpByte(M[y], b - i, 1);
    IncrementApart(M[y], b - i + 1, k);
    XorDiffers(Increment(M[y], b - i + 1), Increment(M[y], k), 0);
    LaneAt(E, M, s, i, b, k, w);
    SingleAt(E, N, s, b, w);
  }

  // ----- a counter block, the outputs combined

  function Chosen(t: nat, v: byte, u: byte, u': byte): Cipher
    requires t < 16
  {
    (x: Block) => if x[t] == v then Fill(u) else Fill(u')
  }

  function Always(u: byte): Cipher { (x: Block) => Fill(u) }

  lemma ChosenAt(t: nat, v: byte, u: byte, u': byte, x: Block, w: nat)
    requires t < 16 && w < 16
    ensures Chosen(t, v, u, u')(x)[w] == if x[t] == v then u else u'
    ensures x[t] == v ==> Chosen(t, v, u, u')(x) == Fill(u)
    ensures Always(u)(x) == Fill(u) && Always(u)(x)[w] == u
  {
  }

  /** A counter is the whole input when XOR blocks are combined with the output. */
  lemma CounterInput(m: seq<byte>, s: Setup, b: nat, t: nat)
    requires Advancing(s) && s.counter && s.xorOutput && InsideAt(|m|, s, b) && t < 16
    ensures Inside(|m|, s.inStart) && SingleInput(m, s, b)[t] == m[s.inStart + t]
  {
    hide At, Xor;
    CounterAt(s, b);
    InputAt(m, s, b, t);
  }

  /** A cipher that gives the same outputs along a run gives the same run. */
  lemma {:induction false} SameRun(E: Cipher, E': Cipher, m: seq<byte>, s: Setup, j: nat)
    requires Fits(|m|, s, j)
    requires forall l: nat :: l < j ==>
               && Fits(|m|, s, l) && InsideAt(|m|, s, l)
               && E(SingleInput(R(E, m, s, l), s, l)) == E'(SingleInput(R(E, m, s, l), s, l))
    ensures R(E, m, s, j) == R(E', m, s, j)
  {
    hide SingleInput, Fits, At, Count, Store, Mix;
    if j > 0 {
      SameRun(E, E', m, s, j - 1);
      RunSnoc(E, m, s, 0, j);
      RunSnoc(E', m, s, 0, j);
    }
  }

  /** Until block a is stored, byte p of the counter block is as it was. */
  lemma SameUntil(m: seq<byte>, s: Setup, a: nat, t: nat, u: byte, u': byte, j: nat)
    requires Advancing(s) && s.counter && s.xorOutput && Fits(|m|, s, a + 1) && t < 15 && Inside(|m|, s.inStart)
    requires HoldsByte(Out(s, a), s.inStart + t) && j <= a + 1
    ensures Fits(|m|, s, j)
    ensures R(Chosen(t, m[s.inStart + t], u, u'), m, s, j) == R(Always(u), m, s, j)
  {
    hide At, R, SingleInput, Fits, Chosen, Always, Increment;
    FitsPrefix(|m|, s, j, a + 1);
    var E, E', p := Always(u), Chosen(t, m[s.inStart + t], u, u'), s.inStart + t;
    forall l: nat | l < j
      ensures Fits(|m|, s, l) && InsideAt(|m|, s, l)
           && E(SingleInput(R(E, m, s, l), s, l)) == E'(SingleInput(R(E, m, s, l), s, l))
    {
      FitsPrefix(|m|, s, l, a + 1);
      InsideOf(|m|, s, l, a + 1);
      KeptUntil(E, m, s, a, l, p);
      CounterInput(R(E, m, s, l), s, l, t);
      ChosenAt(t, m[p], u, u', SingleInput(R(E, m, s, l), s, l), 0);
    }
    SameRun(E, E', m, s, j);
  }

  lemma InsideOf(size: nat, s: Setup, l: nat, n: nat)
    requires Fits(size, s, n) && l < n
    ensures InsideAt(size, s, l)
  {
    hide InsideAt;
  }

  /** A byte of the counter block that block a changes: a constant output, or one that the change selects. */
  lemma TellChanged(m: seq<byte>, s: Setup, i: nat, a: nat, k: nat, t: nat, u: byte) returns (E: Cipher)
    requires Advancing(s) && s.counter && s.xorOutput && Fits(|m|, s, i + k) && i <= a && a + 1 < i + k && t < 15
    requires HoldsByte(Out(s, a), s.inStart + t) && Inside(|m|, s.inStart)
    requires Fits(|m|, s, a + 1) && R(Always(u), m, s, a + 1)[s.inStart + t] != m[s.inStart + t]
    ensures Tells(E, m, s, i, a + 1, k, FreeByte(s, a + 1))
  {
    hide At, R, Single, Lane, SingleInput, LaneInput, Xor, Count, Increment, FreeByte, Chosen, Always;
    var b, p := a + 1, s.inStart + t;
    var w, v, u' := FreeByte(s, b), m[p], Increment(u, 1);
    IncrementOnce(u);
    assert InsideAt(|m|, s, i) && InsideAt(|m|, s, b);
    CounterAt(s, b);
    SameUntil(m, s, a, t, u, u', i);
    SameUntil(m, s, a, t, u, u', b);
    var M, N := R(Always(u), m, s, i), R(Always(u), m, s, b);
    KeptUntil(Always(u), m, s, a, i, p);
    LaneInputAt(M, s, i, b, k, t);
    CounterInput(N, s, b, t);
    var lane, single := LaneInput(M, s, i, b - i, k), SingleInput(N, s, b);
    ChosenAt(t, v, u, u', lane, w);
    ChosenAt(t, v, u, u', single, w);
    LaneAt(Always(u), M, s, i, b, k, w);
    SingleAt(Always(u), N, s, b, w);
    if Lane(Always(u), M, s, i, b - i, k)[w] != Single(Always(u), N, s, b)[w] {
      E := Always(u);
    } else {
      E := Chosen(t, v, u, u');
      LaneAt(E, M, s, i, b, k, w);
      SingleAt(E, N, s, b, w);
      XorDiffers(u, u', Count(N, s, b, 1)[Xors(s, b) + w]);
    }
  }

  /** The counter block written over, below its last byte. */
  lemma TellChained(size: nat, s: Setup, i: nat, a: nat, k: nat, t: nat) returns (E: Cipher, m: seq<byte>)
    requires Advancing(s) && s.counter && s.xorOutput && Fits(size, s, i + k) && i <= a && a + 1 < i + k && t < 15
    requires HoldsByte(Out(s, a), s.inStart + t)
    ensures |m| == size && Tells(E, m, s, i, a + 1, k, FreeByte(s, a + 1))
  {
    hide At, R, Single, Lane, SingleInput, LaneInput, Xor, Count, Increment, FreeByte, Tells, Always;
    var p := s.inStart + t;
    InsideOf(size, s, i, i + k);
    CounterAt(s, i);
    FitsPrefix(size, s, a + 1, i + k);
    var m0 := Zeros(size);
    if Offset(s) == 0 {
      m := m0;
      NextXor(Always(1), m, s, a, p);
      KeptUntil(Always(1), m, s, a, a, p);
      ChosenAt(0, 0, 1, 0, SingleInput(R(Always(1), m, s, a), s, a), p - Out(s, a));
      XorItself(0);
      XorDiffers(1, 0, 0);
      E := TellChanged(m, s, i, a, k, t, 1);
    } else {
      var g := R(Always(0), m0, s, a + 1)[p];
      m := m0[p := Increment(g, 1)];
      IncrementOnce(g);
      AlwaysFills(0);
      SameConstant(Always(0), m0, m, s, a + 1, 0);
      AgreeWritten(Always(0), m0, Always(0), m, s, a, p);
      E := TellChanged(m, s, i, a, k, t, 0);
    }
  }

  lemma AlwaysFills(u: byte)
    ensures forall x: Block :: Always(u)(x) == Fill(u)
  {
  }

  /** One output for the counter that block b meets, another for all others. */
  function Keyed(b: nat, key: byte, u: byte): Cipher
    requires u < 2
  {
    Chosen(15, Increment(key, b), 1 - u, u)
  }

  lemma IncrementMeets(x: byte, l: nat, b: nat)
    requires l <= b
    ensures Increment(x, l) == Increment(x, b) <==> (b - l) % 256 == 0
  {
    var q, r := (x + l) / 256, (x + b) / 256;
    assert b - l == 256 * (r - q) + (Increment(x, b) - Increment(x, l));
  }

  /** Its outputs until block a is stored do not depend on the key. */
  lemma KeyedOutput(size: nat, s: Setup, a: nat, key: byte, u: byte, l: nat)
    requires Advancing(s) && s.counter && s.xorOutput && Fits(size, s, a + 1) && l <= a && u < 2
    requires 0 <= CounterByte(s) < size && HoldsByte(Out(s, a), CounterByte(s))
    ensures Fits(size, s, l) && InsideAt(size, s, l)
    ensures var E, m := Keyed(a + 1, key, u), Zeros(size)[CounterByte(s) := key];
            E(SingleInput(R(E, m, s, l), s, l)) == Fill(if (a + 1 - l) % 256 == 0 then 1 - u else u)
  {
    hide At, R, SingleInput, Fits, Increment;
    FitsPrefix(size, s, l, a + 1);
    InsideOf(size, s, l, a + 1);
    var E, m := Keyed(a + 1, key, u), Zeros(size)[CounterByte(s) := key];
    KeptUntil(E, m, s, a, l, CounterByte(s));
    CounterInput(R(E, m, s, l), s, l, 15);
    IncrementMeets(key, l, a + 1);
  }

  lemma KeyedSame(size: nat, s: Setup, a: nat, key: byte, key': byte, u: byte)
    requires Advancing(s) && s.counter && s.xorOutput && Fits(size, s, a + 1) && u < 2
    requires 0 <= CounterByte(s) < size && HoldsByte(Out(s, a), CounterByte(s))
    ensures SameOutputs(Keyed(a + 1, key, u), Zeros(size)[CounterByte(s) := key],
                        Keyed(a + 1, key', u), Zeros(size)[CounterByte(s) := key'], s, a + 1)
  {
    hide At, R, SingleInput, Fits, Increment, Keyed;
    var y := CounterByte(s);
    var E, m := Keyed(a + 1, key, u), Zeros(size)[y := key];
    var E', m' := Keyed(a + 1, key', u), Zeros(size)[y := key'];
    forall l: nat | l < a + 1
      ensures && Fits(size, s, l) && InsideAt(size, s, l)
              && E(SingleInput(R(E, m, s, l), s, l)) == E'(SingleInput(R(E', m', s, l), s, l))
    {
      KeyedOutput(size, s, a, key, u, l);
      KeyedOutput(size, s, a, key', u, l);
    }
  }

  /** A key that is not what block a leaves in its place. */
  lemma FindKey(size: nat, s: Setup, a: nat) returns (key: byte, u: byte)
    requires Advancing(s) && s.counter && s.xorOutput && Fits(size, s, a + 1)
    requires 0 <= CounterByte(s) < size && HoldsByte(Out(s, a), CounterByte(s))
    ensures u < 2
    ensures var y := CounterByte(s);
            R(Keyed(a + 1, key, u), Zeros(size)[y := key], s, a + 1)[y] != Increment(key, a + 1)
  {
    hide At, R, SingleInput, Fits, Increment, Keyed, Before, SameOutputs, Xor;
    var y, b := CounterByte(s), a + 1;
    if Offset(s) == 0 {
      key, u := 0, 1;
      var E, m := Keyed(b, key, u), Zeros(size)[y := key];
      KeyedOutput(size, s, a, key, u, a);
      NextXor(E, m, s, a, y);
      KeptUntil(E, m, s, a, a, y);
      BumpByte(key, a, 1);
      XorDiffers(1, 0, Increment(key, b));
      XorZero(Increment(key, b));
      XorCommutes(0, Increment(key, b));
    } else {
      u := 0;
      var g := R(Keyed(b, 0, u), Zeros(size)[y := 0], s, b)[y];
      key := Before(Increment(g, 1), b);
      IncrementOnce(g);
      Arrives(Increment(g, 1), b, b);
      KeyedSame(size, s, a, 0, key, u);
      AgreeWritten(Keyed(b, 0, u), Zeros(size)[y := 0], Keyed(b, key, u), Zeros(size)[y := key], s, a, y);
    }
  }

  /** The counter byte written over, an XOR byte of the next block not. */
  lemma TellChainedByte(size: nat, s: Setup, i: nat, a: nat, k: nat, w: nat) returns (E: Cipher, m: seq<byte>)
    requires Advancing(s) && s.counter && s.xorOutput && Fits(size, s, i + k) && i <= a && a + 1 < i + k && w < 16
    requires HoldsByte(Out(s, a), CounterByte(s))
    requires Xors(s, a + 1) + w != CounterByte(s) && Unowned(s, i, a + 1, Xors(s, a + 1) + w)
    ensures |m| == size && Tells(E, m, s, i, a + 1, k, w)
  {
    hide At, R, Single, Lane, SingleInput, LaneInput, Xor, Count, Increment, Unowned;
    var b, y := a + 1, CounterByte(s);
    var q := Xors(s, b) + w;
    assert InsideAt(size, s, i) && InsideAt(size, s, b);
    CounterAt(s, i);
    CounterAt(s, b);
    FitsPrefix(size, s, i, i + k);
    FitsPrefix(size, s, b, i + k);
    var key, u := FindKey(size, s, a);
    E, m := Keyed(b, key, u), Zeros(size)[y := key];
    var M, N := R(E, m, s, i), R(E, m, s, b);
    KeptUntil(E, m, s, a, i, y);
    BumpByte(key, i, b - i);
    LaneInputAt(M, s, i, b, k, 15);
    CounterInput(N, s, b, 15);
    CountAt(M, s, i, k, q);
    CountAt(N, s, b, 1, q);
    Kept(E, m, s, i, b, q);
    LaneAt(E, M, s, i, b, k, w);
    SingleAt(E, N, s, b, w);
    XorDiffers(1, 0, N[q]);
    if HoldsByte(Out(s, b), y) { OneOwner(s, a, b, y); }
  }

  // ----- every unsafe group is told apart

  /** A byte of two blocks that are not apart. */
  function Common(p: int, q: int): (y: int)
    requires !Apart(p, q)
    ensures HoldsByte(p, y) && HoldsByte(q, y)
  {
    if p < q then q else p
  }

  lemma WitnessPlain(size: nat, s: Setup, i: nat, b: nat, k: nat) returns (E: Cipher, m: seq<byte>, w: nat)
    requires Advancing(s) && !s.counter && Fits(size, s, i + k) && i <= b < i + k && !LaneSafe(s, i, b, k)
    ensures |m| == size && Tells(E, m, s, i, b, k, w)
  {
    hide At, Tells;
    assert InsideAt(size, s, b);
    if s.xorOutput {
      if a: nat :| i <= a < b && !Apart(Out(s, a), Xors(s, b)) {
        var p := Common(Out(s, a), Xors(s, b));
        w := p - Xors(s, b);
        E, m := TellXor(size, s, i, a, b, k, p);
      } else {
        var a: nat :| i <= a < b && !Apart(Out(s, a), In(s, b));
        w := 0;
        E, m := TellInput(size, s, i, a, b, k, Common(Out(s, a), In(s, b)));
      }
    } else {
      w := 0;
      if a: nat :| i <= a < b && !Apart(Out(s, a), In(s, b)) {
        E, m := TellPlain(size, s, i, a, b, k, Common(Out(s, a), In(s, b)));
      } else {
        var a: nat :| i <= a < b && s.xorInput && !Apart(Out(s, a), Xors(s, b));
        E, m := TellPlain(size, s, i, a, b, k, Common(Out(s, a), Xors(s, b)));
      }
    }
  }

  lemma WitnessCounter(size: nat, s: Setup, i: nat, b: nat, k: nat) returns (E: Cipher, m: seq<byte>)
    requires Advancing(s) && s.counter && !s.xorOutput && Fits(size, s, i + k) && i <= b < i + k <= i + 6
    requires !LaneSafe(s, i, b, k)
    ensures |m| == size && Tells(E, m, s, i, b, k, FreeByte(s, b))
  {
    hide At, Tells, FreeByte;
    assert InsideAt(size, s, b);
    CounterAt(s, b);
    if s.xorInput && HoldsByte(Xors(s, b), CounterByte(s)) && (Xors(s, b) == s.inStart || CounterApart(s, i, b)) {
      E, m := TellCounterXor(size, s, i, b, k);
    } else if a: nat :| i <= a < b && !Apart(Out(s, a), s.inStart) {
      var p := Common(Out(s, a), s.inStart);
      if p == CounterByte(s) {
        E, m := TellCounterByte(size, s, i, a, b, k);
      } else {
        E, m := TellCounter(size, s, i, a, b, k, p);
      }
    } else {
      var a: nat :| i <= a < b && s.xorInput && !Apart(Out(s, a), Xors(s, b));
      E, m := TellCounterWritten(size, s, i, a, b, k, Common(Out(s, a), Xors(s, b)));
    }
  }

  /** No block of the group but the last is stored over the counter. */
  lemma WitnessCounterOut(size: nat, s: Setup, i: nat, b: nat, k: nat) returns (E: Cipher, m: seq<byte>, w: nat)
    requires Advancing(s) && s.counter && s.xorOutput && Fits(size, s, i + k) && i <= b < i + k <= i + 6
    requires CounterApart(s, i, i + k - 1) && !LaneSafe(s, i, b, k)
    ensures |m| == size && Tells(E, m, s, i, b, k, w)
  {
    hide At, Tells;
    assert InsideAt(size, s, b);
    CounterAt(s, b);
    if a: nat :| i <= a < b && !Apart(Out(s, a), Xors(s, b)) {
      var p := Common(Out(s, a), Xors(s, b));
      w := p - Xors(s, b);
      E, m := TellXor(size, s, i, a, b, k, p);
    } else {
      w := CounterByte(s) - Xors(s, b);
      E, m := TellCounterOut(size, s, i, b, k);
    }
  }

  /** Block a is stored over the counter and another block follows in the group. */
  lemma WitnessChained(size: nat, s: Setup, i: nat, a: nat, k: nat) returns (E: Cipher, m: seq<byte>, w: nat)
    requires Advancing(s) && s.counter && s.xorOutput && Fits(size, s, i + k) && i <= a && a + 1 < i + k
    requires !Apart(Out(s, a), s.inStart)
    ensures |m| == size && Tells(E, m, s, i, a + 1, k, w)
  {
    hide At, Tells, FreeByte;
    var b, p, y := a + 1, Common(Out(s, a), s.inStart), CounterByte(s);
    if p != y {
      w := FreeByte(s, b);
      E, m := TellChained(size, s, i, a, k, p - s.inStart);
    } else {
      assert InsideAt(size, s, b);
      w := if Xors(s, b) == y then 1 else 0;
      if t: nat :| i <= t < b && HoldsByte(Out(s, t), Xors(s, b) + w) {
        if HoldsByte(Out(s, b), y) { OneOwner(s, a, b, y); }
        E, m := TellXor(size, s, i, t, b, k, Xors(s, b) + w);
      } else {
        E, m := TellChainedByte(size, s, i, a, k, w);
      }
    }
  }

  lemma Witness(size: nat, s: Setup, i: nat, k: nat) returns (E: Cipher, m: seq<byte>, b: nat, w: nat)
    requires Advancing(s) && Fits(size, s, i + k) && k <= 6 && !GroupSafe(s, i, k)
    ensures |m| == size && Tells(E, m, s, i, b, k, w)
  {
    hide At, Tells, LaneSafe, Fits;
    b :| i <= b < i + k && !LaneSafe(s, i, b, k);
    if !s.counter {
      E, m, w := WitnessPlain(size, s, i, b, k);
    } else if !s.xorOutput {
      w := FreeByte(s, b);
      E, m := WitnessCounter(size, s, i, b, k);
    } else if a: nat :| i <= a < i + k - 1 && !Apart(Out(s, a), s.inStart) {
      b := a + 1;
      E, m, w := WitnessChained(size, s, i, a, k);
    } else {
      E, m, w := WitnessCounterOut(size, s, i, b, k);
    }
  }

  // ----- the exact condition

  /** Whatever the cipher and the memory, processing in groups leaves what processing one by one leaves. */
  ghost predicate AlwaysAgree(size: nat, s: Setup, n: nat)
    requires Fits(size, s, n)
  {
    forall E: Cipher, m: seq<byte> :: |m| == size ==> Schedule(E, m, s, 0, n) == Run(E, m, s, 0, n)
  }

  /** For a call that advances its output this is so exactly when every group is safe. */
  lemma ScheduleExact(flags: Flags, hasXor: bool, inBlocks: int, xorBlocks: int, outBlocks: int, length: nat,
                      size: nat, n: nat)
    requires !flags.dontIncrement
    requires Fits(size, SetupFor(flags, hasXor, inBlocks, xorBlocks, outBlocks, length), n)
    ensures var s := SetupFor(flags, hasXor, inBlocks, xorBlocks, outBlocks, length);
            AlwaysAgree(size, s, n) <==> GroupsSafe(s, 0, n)
  {
    hide Schedule, Run, GroupSafe, Fits, Tells, Path;
    var s := SetupFor(flags, hasXor, inBlocks, xorBlocks, outBlocks, length);
    SetupAdvances(flags, hasXor, inBlocks, xorBlocks, outBlocks, length);
    if GroupsSafe(s, 0, n) {
      forall E: Cipher, m: seq<byte> | |m| == size ensures Schedule(E, m, s, 0, n) == Run(E, m, s, 0, n) {
        ScheduleIsRun(E, m, s, 0, n);
      }
    } else {
      var i, k := FindPath(s, 0, n);
      PathInside(s, 0, n, i, k);
      FitsPrefix(size, s, i + k, n);
      var E, m, b, w := Witness(size, s, i, k);
      Differs(E, m, s, n, i, b, k, w);
    }
  }

  // ----- input and output only

  /** How far the output is ahead of the input, in the direction of the call. */
  function Lead(s: Setup): int { if s.outStep == 16 then s.outStart - s.inStart else s.inStart - s.outStart }

  /** The output of block a meets the input of block b. */
  predicate Meets(s: Setup, a: nat, b: nat) { 16 * (b - a) - 16 < Lead(s) < 16 * (b - a) + 16 }

  lemma LaneByLead(s: Setup, i: nat, b: nat, k: nat)
    requires Advancing(s) && !s.counter && !UsesXor(s) && i <= b
    ensures LaneSafe(s, i, b, k) <==> forall a: nat :: i <= a < b ==> !Meets(s, a, b)
  {
    hide At;
    forall a: nat | i <= a < b ensures Apart(Out(s, a), In(s, b)) <==> !Meets(s, a, b) {
      Places(s, 0, a);
      Places(s, 0, b);
      AddressOf(s.inStart, 0);
      AddressOf(s.outStart, 0);
    }
  }

  lemma GroupByLead(s: Setup, i: nat, k: nat)
    requires Advancing(s) && !s.counter && !UsesXor(s) && k >= 2
    ensures GroupSafe(s, i, k) <==> Lead(s) <= 0 || Lead(s) >= 16 * k
  {
    hide LaneSafe;
    var d := Lead(s);
    if 0 < d < 16 * k {
      var b := i + if d < 16 then 1 else d / 16;
      LaneByLead(s, i, b, k);
      assert Meets(s, i, b);
      assert !LaneSafe(s, i, b, k);
    } else {
      forall b: nat | i <= b < i + k ensures LaneSafe(s, i, b, k) { LaneByLead(s, i, b, k); }
    }
  }

  lemma {:induction false} GroupsByLead(s: Setup, i: nat, n: nat)
    requires Advancing(s) && !s.counter && !UsesXor(s)
    ensures GroupsSafe(s, i, n) <==> n < 2 || Lead(s) <= 0 || Lead(s) >= if n >= 6 then 96 else 32
    decreases n
  {
    hide GroupSafe, Lead;
    if n >= 2 {
      var k := if n >= 6 then 6 else 2;
      GroupByLead(s, i, k);
      GroupsByLead(s, i + k, n - k);
    }
  }

  ghost predicate Inverse(D: Cipher, E: Cipher) { forall x: Block :: D(E(x)) == x && E(D(x)) == x }

  /** A block cipher under a key is a permutation of blocks. */
  ghost predicate Permutation(E: Cipher) { exists D: Cipher :: Inverse(D, E) }

  ghost predicate PermutationsAgree(size: nat, s: Setup, n: nat)
    requires Fits(size, s, n)
  {
    forall E: Cipher, m: seq<byte> ::
      Permutation(E) && |m| == size ==> Schedule(E, m, s, 0, n) == Run(E, m, s, 0, n)
  }

  function Same(): Cipher { (x: Block) => x }

  lemma SamePermutes()
    ensures Permutation(Same())
  {
    assert Inverse(Same(), Same());
  }

  /** The identity moves bytes about: where nothing but byte p is set, no other byte is set before p is read. */
  lemma {:induction false} OnlyMark(m: seq<byte>, s: Setup, b: nat, j: nat, p: nat, y: nat)
    requires Advancing(s) && !s.counter && !UsesXor(s) && Fits(|m|, s, j) && j <= b && p < |m| && y < |m|
    requires HoldsByte(In(s, b), p) && m == Zeros(|m|)[p := 1] && y != p
    ensures R(Same(), m, s, j)[y] == 0
    decreases j, 0
  {
    hide At, R, Single, SingleInput, Fits;
    if j == 0 {
      FirstR(Same(), m, s);
    } else {
      var l := j - 1;
      NextR(Same(), m, s, l, y);
      if HoldsByte(Out(s, l), y) {
        OnlyMarkStored(m, s, b, l, p, y - Out(s, l));
      } else {
        OnlyMark(m, s, b, l, p, y);
      }
    }
  }

  /** Nothing set is stored before p is read. */
  lemma {:induction false} OnlyMarkStored(m: seq<byte>, s: Setup, b: nat, l: nat, p: nat, w: nat)
    requires Advancing(s) && !s.counter && !UsesXor(s) && Fits(|m|, s, l) && InsideAt(|m|, s, l) && l < b
    requires p < |m| && w < 16 && HoldsByte(In(s, b), p) && m == Zeros(|m|)[p := 1]
    ensures Single(Same(), R(Same(), m, s, l), s, l)[w] == 0
    decreases l, 1
  {
    hide At, R, Single, SingleInput, Fits;
    var M := R(Same(), m, s, l);
    SingleAt(Same(), M, s, l, w);
    InputAt(M, s, l, w);
    Places(s, l, b);
    OnlyMark(m, s, b, l, p, In(s, l) + w);
  }

  /** The identity tells the loops apart. */
  lemma TellSame(size: nat, s: Setup, i: nat, a: nat, b: nat, k: nat, p: nat) returns (m: seq<byte>)
    requires Advancing(s) && !s.counter && !UsesXor(s) && Fits(size, s, i + k) && i <= a < b < i + k && p < size
    requires HoldsByte(Out(s, a), p) && HoldsByte(In(s, b), p)
    ensures |m| == size && Tells(Same(), m, s, i, b, k, p - In(s, b))
  {
    hide At, R, Single, Lane, SingleInput, LaneInput;
    var t := p - In(s, b);
    m := Zeros(size)[p := 1];
    assert InsideAt(size, s, i) && InsideAt(size, s, b) && InsideAt(size, s, a);
    FitsPrefix(size, s, i, i + k);
    FitsPrefix(size, s, b, i + k);
    FitsPrefix(size, s, a, i + k);
    FitsPrefix(size, s, a + 1, i + k);
    var M, N := R(Same(), m, s, i), R(Same(), m, s, b);
    KeptUntil(Same(), m, s, a, i, p);
    KeptAfter(Same(), m, s, a, b, p);
    NextR(Same(), m, s, a, p);
    OnlyMarkStored(m, s, b, a, p, p - Out(s, a));
    LaneInputAt(M, s, i, b, k, t);
    InputAt(N, s, b, t);
    LaneAt(Same(), M, s, i, b, k, t);
    SingleAt(Same(), N, s, b, t);
  }

  /** Without XOR blocks or a counter, permutations are enough to tell an unsafe call. */
  lemma PermutationsTell(size: nat, s: Setup, n: nat)
    requires Advancing(s) && !s.counter && !UsesXor(s) && Fits(size, s, n) && !GroupsSafe(s, 0, n)
    ensures !PermutationsAgree(size, s, n)
  {
    hide Schedule, Run, At, Fits, Tells, Path, Permutation;
    var i, k := FindPath(s, 0, n);
    PathInside(s, 0, n, i, k);
    FitsPrefix(size, s, i + k, n);
    var b: nat :| i <= b < i + k && !LaneSafe(s, i, b, k);
    var a: nat :| i <= a < b && !Apart(Out(s, a), In(s, b));
    FitsAt(size, s, b, i + k);
    var p := Common(Out(s, a), In(s, b));
    var m := TellSame(size, s, i, a, b, k, p);
    SamePermutes();
    Differs(Same(), m, s, n, i, b, k, p - In(s, b));
  }

  lemma FitsAt(size: nat, s: Setup, b: nat, n: nat)
    requires Fits(size, s, n) && b < n
    ensures InsideAt(size, s, b)
  {
    hide InsideAt;
  }

  /** Without XOR blocks or a counter: the output must not be ahead of the input by less than a group. Block
      ciphers alone tell as much as all functions of blocks. */
  lemma PlainExact(reverse: bool, inBlocks: int, outBlocks: int, length: nat, size: nat, n: nat)
    requires Fits(size, SetupFor(Flags(false, false, false, reverse, true), false, inBlocks, 0, outBlocks, length), n)
    ensures var s := SetupFor(Flags(false, false, false, reverse, true), false, inBlocks, 0, outBlocks, length);
            var ahead := if reverse then inBlocks - outBlocks else outBlocks - inBlocks;
            && (AlwaysAgree(size, s, n) <==> n < 2 || ahead <= 0 || ahead >= if n >= 6 then 96 else 32)
            && (PermutationsAgree(size, s, n) <==> AlwaysAgree(size, s, n))
  {
    hide GroupsSafe, Fits, Schedule, Run, Permutation;
    var flags := Flags(false, false, false, reverse, true);
    var s := SetupFor(flags, false, inBlocks, 0, outBlocks, length);
    ScheduleExact(flags, false, inBlocks, 0, outBlocks, length, size, n);
    GroupsByLead(s, 0, n);
    SetupAdvances(flags, false, inBlocks, 0, outBlocks, length);
    if !GroupsSafe(s, 0, n) { PermutationsTell(size, s, n); }
  }

  // ----- a fixed output

  /** Three blocks into one fixed place, which is also the second XOR block. */
  function FixedOutput(): Setup { SetupFor(Flags(false, true, true, false, true), true, 0, 32, 48, 48) }

  lemma FixedPlaces()
    ensures var s := FixedOutput();
            Fits(80, s, 3) && forall i: nat :: i < 3 ==> In(s, i) == 0 && Out(s, i) == 48 && Xors(s, i) == 32 + 16 * i
  {
    var s := FixedOutput();
    forall i: nat | i < 3 ensures In(s, i) == 0 && Out(s, i) == 48 && Xors(s, i) == 32 + 16 * i {
      AddressOf(0, i);
      AddressOf(48, i);
      AddressOf(32, i);
    }
  }

  lemma LastStore(E: Cipher, m: seq<byte>, x: Block)
    requires |m| == 80 && InsideAt(80, FixedOutput(), 2)
    ensures Step(E, Store(m, 48, x), FixedOutput(), 2) == Store(m, 48, E(XorPrefix(Load(m, 0), Load(m, 64))))
  {
    hide XorPrefix, Store, Load, At;
    FixedPlaces();
    LoadApart(m, 48, 0, x);
    LoadApart(m, 48, 64, x);
    StoreSame(m, 48, x, E(XorPrefix(Load(m, 0), Load(m, 64))));
  }

  /** Where the output stays fixed a later store can hide what an unsafe group did. */
  lemma FixedOutputHides()
    ensures Fits(80, FixedOutput(), 3) && AlwaysAgree(80, FixedOutput(), 3) && !GroupsSafe(FixedOutput(), 0, 3)
  {
    FixedPlaces();
    var s := FixedOutput();
    assert !NotWritten(s, 0, 1) by { assert !Apart(Out(s, 0), Xors(s, 1)); }
    assert !LaneSafe(s, 0, 1, 2);
    hide FixedOutput, Step, Store, At, GroupOut;
    forall E: Cipher, m: seq<byte> | |m| == 80 ensures Schedule(E, m, s, 0, 3) == Run(E, m, s, 0, 3) {
      HiddenRun(E, m);
      HiddenSchedule(E, m);
    }
  }

  lemma HiddenRun(E: Cipher, m: seq<byte>)
    requires |m| == 80 && Fits(80, FixedOutput(), 3)
    ensures Run(E, m, FixedOutput(), 0, 3) == Store(m, 48, E(XorPrefix(Load(m, 0), Load(m, 64))))
  {
    FixedPlaces();
    hide FixedOutput, Step, Store, At, Single, XorPrefix, Load;
    var s := FixedOutput();
    RunSnoc(E, m, s, 0, 3);
    RunSnoc(E, m, s, 0, 2);
    RunSnoc(E, m, s, 0, 1);
    var m1 := Run(E, m, s, 0, 1);
    StepParts(E, m, s, 0);
    StepParts(E, m1, s, 1);
    NoCount(m, 0, 1);
    NoCount(m1, 1, 1);
    var x, x' := Single(E, m, s, 0), Single(E, m1, s, 1);
    StoreSame(m, 48, x, x');
    LastStore(E, m, x');
  }

  lemma NoCount(m: seq<byte>, i: nat, k: nat)
    requires Inside(|m|, In(FixedOutput(), i))
    ensures Count(m, FixedOutput(), i, k) == m
  {
  }

  lemma HiddenSchedule(E: Cipher, m: seq<byte>)
    requires |m| == 80 && Fits(80, FixedOutput(), 3)
    ensures Schedule(E, m, FixedOutput(), 0, 3) == Store(m, 48, E(XorPrefix(Load(m, 0), Load(m, 64))))
  {
    FixedPlaces();
    hide FixedOutput, Step, Store, At, GroupOut, XorPrefix, Load;
    var s := FixedOutput();
    FitsPrefix(80, s, 2, 3);
    ScheduleStep(E, m, s, 0, 3);
    var g, outs := Group(E, m, s, 0, 2), GroupOut(E, m, s, 0, 2);
    ScheduleStep(E, g, s, 2, 1);
    RunFront(E, g, s, 2, 1);
    RunFront(E, Step(E, g, s, 2), s, 3, 0);
    NoCount(m, 0, 2);
    FitsPrefix(80, s, 1, 2);
    FitsPrefix(80, s, 0, 2);
    assert outs == [] + [outs[0]] + [outs[1]];
    StoresSnoc(m, s, 0, [outs[0]], outs[1]);
    StoresSnoc(m, s, 0, [], outs[0]);
    StoreSame(m, 48, outs[0], outs[1]);
    LastStore(E, m, outs[1]);
  }
}
