/** `AdvancedProcessBlocks128_6x2_SSE` of adv_simd.h: six, two and one block at a time,
    against one block at a time.  All blocks live in one memory, so input, XOR blocks and
    output may overlap. */
module WideBlocks {
  import opened Bytes
  import opened CcmSpec

  // ----- registers

  /** A function of the package that transforms some blocks at once. */
  type Wide = seq<Block> -> seq<Block>

  function Lanes(E: Cipher, blocks: seq<Block>): (r: seq<Block>)
    ensures |r| == |blocks|
  {
    seq(|blocks|, i requires 0 <= i < |blocks| => E(blocks[i]))
  }

  /** Each block is transformed by itself. */
  ghost predicate LaneWise(f: Wide, E: Cipher, k: nat) {
    forall blocks: seq<Block> :: |blocks| == k ==> f(blocks) == Lanes(E, blocks)
  }

  /** A 32-bit lane, little-endian */
  function Lane32(b: Block, p: nat): nat
    requires p <= 12
  {
    LaneValue(b[p], b[p + 1], b[p + 2], b[p + 3])
  }

  function LaneValue(b0: nat, b1: nat, b2: nat, b3: nat): nat {
    b0 + 0x100 * b1 + 0x1_0000 * b2 + 0x100_0000 * b3
  }

  function FromLane32(v: nat): seq<byte> {
    [v % 0x100, v / 0x100 % 0x100, v / 0x1_0000 % 0x100, v / 0x100_0000 % 0x100]
  }

  function Add32(b: Block, p: nat, v: nat): seq<byte>
    requires p <= 12
  {
    FromLane32((Lane32(b, p) + v) % 0x1_0000_0000)
  }

  /** `_mm_add_epi32` with `_mm_set_epi32(e3, e2, e1, e0)` */
  function AddEpi32(b: Block, e3: nat, e2: nat, e1: nat, e0: nat): Block {
    Add32(b, 0, e0) + Add32(b, 4, e1) + Add32(b, 8, e2) + Add32(b, 12, e3)
  }

  function Increment(x: nat, k: nat): byte { (x + k) % 256 }

  /** The counter block after k increments of its last byte. */
  function Bump(b: Block, k: nat): Block {
    b[15 := Increment(b[15], k)]
  }

  lemma BytesOfLane(b0: byte, b1: byte, b2: byte, b3: byte)
    ensures LaneValue(b0, b1, b2, b3) < 0x1_0000_0000 && FromLane32(LaneValue(b0, b1, b2, b3)) == [b0, b1, b2, b3]
  {
    LaneQuotients(b0, b1, b2, b3);
  }

  lemma LaneQuotients(b0: nat, b1: nat, b2: nat, b3: nat)
    requires b0 < 256 && b1 < 256 && b2 < 256 && b3 < 256
    ensures var v := LaneValue(b0, b1, b2, b3);
            v % 0x100 == b0 && v / 0x100 % 0x100 == b1 && v / 0x1_0000 % 0x100 == b2 && v / 0x100_0000 % 0x100 == b3
  {
    var v := LaneValue(b0, b1, b2, b3);
    assert v / 0x100 == b1 + 0x100 * b2 + 0x1_0000 * b3;
    assert v / 0x1_0000 == b2 + 0x100 * b3;
    assert v / 0x100_0000 == b3;
  }

  lemma AddZeroLane(b: Block, p: nat)
    requires p <= 12
    ensures Add32(b, p, 0) == b[p..p + 4]
  {
    hide LaneValue, FromLane32;
    BytesOfLane(b[p], b[p + 1], b[p + 2], b[p + 3]);
    SmallLane(Lane32(b, p));
  }

  lemma SmallLane(v: nat)
    requires v < 0x1_0000_0000
    ensures (v + 0) % 0x1_0000_0000 == v
  {
  }

  lemma AddTopLane(b: Block)
    ensures Add32(b, 12, 0x100_0000) == b[12..15] + [Increment(b[15], 1)]
  {
    hide LaneValue, FromLane32, Increment;
    TopLane(b[12], b[13], b[14], b[15]);
    BytesOfLane(b[12], b[13], b[14], Increment(b[15], 1));
  }

  lemma TopLane(b0: nat, b1: nat, b2: nat, b3: nat)
    requires b0 < 256 && b1 < 256 && b2 < 256 && b3 < 256
    ensures (LaneValue(b0, b1, b2, b3) + 0x100_0000) % 0x1_0000_0000 == LaneValue(b0, b1, b2, Increment(b3, 1))
  {
    if b3 == 255 {
      assert Increment(b3, 1) == 0;
    } else {
      assert Increment(b3, 1) == b3 + 1;
    }
  }

  /** Adding to the top lane increments the last byte and drops the carry. */
  lemma AddOneIsBump(b: Block)
    ensures AddEpi32(b, 0x100_0000, 0, 0, 0) == Bump(b, 1)
  {
    hide Add32;
    AddZeroLane(b, 0);
    AddZeroLane(b, 4);
    AddZeroLane(b, 8);
    AddTopLane(b);
  }

  lemma BumpBump(b: Block, j: nat, k: nat)
    ensures Bump(Bump(b, j), k) == Bump(b, j + k)
  {
    BumpByte(b[15], j, k);
  }

  lemma BumpByte(x: nat, j: nat, k: nat)
    ensures Increment(Increment(x, j), k) == Increment(x, j + k)
  {
  }

  // ----- memory

  predicate Inside(size: nat, p: int) { 0 <= p <= size - 16 }

  predicate Apart(p: int, q: int) { p + 16 <= q || q + 16 <= p }

  function Load(m: seq<byte>, p: int): Block
    requires Inside(|m|, p)
  {
    m[p..p + 16]
  }

  function Store(m: seq<byte>, p: int, b: Block): (r: seq<byte>)
    requires Inside(|m|, p)
    ensures |r| == |m|
  {
    m[..p] + b + m[p + 16..]
  }

  lemma LoadApart(m: seq<byte>, p: int, q: int, b: Block)
    requires Inside(|m|, p) && Inside(|m|, q) && Apart(p, q)
    ensures Load(Store(m, p, b), q) == Load(m, q)
  {
    var r := Store(m, p, b);
    forall k | q <= k < q + 16 ensures r[k] == m[k] { StoreAt(m, p, b, k); }
  }

  lemma LoadSame(m: seq<byte>, p: int, b: Block)
    requires Inside(|m|, p)
    ensures Load(Store(m, p, b), p) == b
  {
  }

  lemma StoreSame(m: seq<byte>, p: int, b: Block, c: Block)
    requires Inside(|m|, p)
    ensures Store(Store(m, p, b), p, c) == Store(m, p, c)
  {
    var r := Store(m, p, b);
    assert r[..p] == m[..p] && r[p + 16..] == m[p + 16..];
  }

  lemma StoreAt(m: seq<byte>, p: int, b: Block, k: nat)
    requires Inside(|m|, p) && k < |m|
    ensures Store(m, p, b)[k] == if p <= k < p + 16 then b[k - p] else m[k]
  {
  }

  // ----- one block at a time

  /** Where the blocks are and what is done with them. */
  datatype Setup = Setup(inStart: int, xorStart: int, outStart: int, inStep: int, xorStep: int, outStep: int,
                         counter: bool, xorInput: bool, xorOutput: bool)

  /** The address of block i. */
  function At(start: int, step: int, i: nat): int {
    if i == 0 then start else At(start, step, i - 1) + step
  }

  function In(s: Setup, i: nat): int { At(s.inStart, s.inStep, i) }
  function Xors(s: Setup, i: nat): int { At(s.xorStart, s.xorStep, i) }
  function Out(s: Setup, i: nat): int { At(s.outStart, s.outStep, i) }

  predicate UsesXor(s: Setup) { s.xorInput || s.xorOutput }

  predicate InsideAt(size: nat, s: Setup, i: nat) {
    Inside(size, In(s, i)) && Inside(size, Out(s, i)) && (UsesXor(s) ==> Inside(size, Xors(s, i)))
  }

  ghost predicate Fits(size: nat, s: Setup, n: nat) {
    forall i: nat :: i < n ==> InsideAt(size, s, i)
  }

  function Mix(use: bool, m: seq<byte>, p: int, b: Block): Block
    requires use ==> Inside(|m|, p)
  {
    if use then XorPrefix(b, Load(m, p)) else b
  }

  /** The memory with the counter, if there is one, advanced by k. */
  function Count(m: seq<byte>, s: Setup, i: nat, k: nat): (r: seq<byte>)
    requires Inside(|m|, In(s, i))
    ensures |r| == |m|
  {
    var p := In(s, i) + 15;
    if s.counter then m[p := Increment(m[p], k)] else m
  }

  /** The body of the one-block loop. */
  function Step(E: Cipher, m: seq<byte>, s: Setup, i: nat): (r: seq<byte>)
    requires InsideAt(|m|, s, i)
    ensures |r| == |m|
  {
    Store(Count(m, s, i, 1), Out(s, i), Single(E, m, s, i))
  }

  /** The block that loop stores: the counter is advanced between the two loads of XOR blocks. */
  function Single(E: Cipher, m: seq<byte>, s: Setup, i: nat): Block
    requires InsideAt(|m|, s, i)
  {
    Mix(s.xorOutput, Count(m, s, i, 1), Xors(s, i), E(SingleInput(m, s, i)))
  }

  function SingleInput(m: seq<byte>, s: Setup, i: nat): Block
    requires InsideAt(|m|, s, i)
  {
    Mix(s.xorInput, m, Xors(s, i), Load(m, In(s, i)))
  }

  /** The one-block loop for n blocks from block i. */
  function Run(E: Cipher, m: seq<byte>, s: Setup, i: nat, n: nat): (r: seq<byte>)
    requires Fits(|m|, s, i + n)
    ensures |r| == |m|
    decreases n
  {
    if n == 0 then m else Step(E, Run(E, m, s, i, n - 1), s, i + n - 1)
  }

  lemma {:induction false} RunAppend(E: Cipher, m: seq<byte>, s: Setup, i: nat, a: nat, b: nat)
    requires Fits(|m|, s, i + a + b)
    ensures Run(E, m, s, i, a + b) == Run(E, Run(E, m, s, i, a), s, i + a, b)
    decreases b
  {
    hide Step;
    if b > 0 { RunAppend(E, m, s, i, a, b - 1); }
  }

  // ----- some blocks at a time

  /** Lane j of a group of k that starts with block i: input blocks are loaded from the memory
      before the group, XOR blocks after the counter was advanced, nothing after a store. */
  function Lane(E: Cipher, m: seq<byte>, s: Setup, i: nat, j: nat, k: nat): Block
    requires InsideAt(|m|, s, i) && InsideAt(|m|, s, i + j)
  {
    Mix(s.xorOutput, Count(m, s, i, k), Xors(s, i + j), E(LaneInput(m, s, i, j, k)))
  }

  function LaneInput(m: seq<byte>, s: Setup, i: nat, j: nat, k: nat): Block
    requires InsideAt(|m|, s, i) && InsideAt(|m|, s, i + j)
  {
    var block := if s.counter then Bump(Load(m, In(s, i)), j) else Load(m, In(s, i + j));
    Mix(s.xorInput, Count(m, s, i, k), Xors(s, i + j), block)
  }

  /** The stores of a group, in order. */
  function Stores(m: seq<byte>, s: Setup, i: nat, outs: seq<Block>): (r: seq<byte>)
    requires Fits(|m|, s, i + |outs|)
    ensures |r| == |m|
    decreases |outs|
  {
    if outs == [] then m
    else
      assert InsideAt(|m|, s, i + |outs| - 1);
      Store(Stores(m, s, i, outs[..|outs| - 1]), Out(s, i + |outs| - 1), outs[|outs| - 1])
  }

  ghost function GroupOut(E: Cipher, m: seq<byte>, s: Setup, i: nat, k: nat): (outs: seq<Block>)
    requires Fits(|m|, s, i + k)
    ensures |outs| == k
    ensures forall j: nat :: j < k ==>
              InsideAt(|m|, s, i) && InsideAt(|m|, s, i + j) && outs[j] == Lane(E, m, s, i, j, k)
  {
    Members(|m|, s, i, k);
    seq(k, j requires 0 <= j < k => Lane(E, m, s, i, j, k))
  }

  lemma Members(size: nat, s: Setup, i: nat, k: nat)
    requires Fits(size, s, i + k)
    ensures forall b: nat :: i <= b < i + k ==> InsideAt(size, s, b)
  {
    hide InsideAt;
  }

  /** The memory after a group. */
  ghost function Group(E: Cipher, m: seq<byte>, s: Setup, i: nat, k: nat): (r: seq<byte>)
    requires k > 0 && Fits(|m|, s, i + k)
    ensures |r| == |m|
  {
    assert InsideAt(|m|, s, i);
    Stores(Count(m, s, i, k), s, i, GroupOut(E, m, s, i, k))
  }

  /** The memory after n blocks from block i, six and two at a time as long as there are so many. */
  ghost function Schedule(E: Cipher, m: seq<byte>, s: Setup, i: nat, n: nat): (r: seq<byte>)
    requires Fits(|m|, s, i + n)
    ensures |r| == |m|
    decreases n
  {
    if n >= 6 then Schedule(E, Group(E, m, s, i, 6), s, i + 6, n - 6)
    else if n >= 2 then Schedule(E, Group(E, m, s, i, 2), s, i + 2, n - 2)
    else Run(E, m, s, i, n)
  }

  // ----- when a group does what the one-block loop does

  /** No block before b in its group is written over a block that b reads. */
  ghost predicate NotWritten(s: Setup, i: nat, b: nat) {
    forall a: nat :: i <= a < b ==> Apart(Out(s, a), In(s, b)) && (UsesXor(s) ==> Apart(Out(s, a), Xors(s, b)))
  }

  predicate HoldsByte(p: int, y: int) { p <= y < p + 16 }

  /** The XOR block does not hold the counter byte, which a group advances at once; it may if it
      is combined with the output of the last block of the group. */
  predicate CounterKept(s: Setup, b: nat, last: bool) {
    s.counter && UsesXor(s) ==> !HoldsByte(Xors(s, b), In(s, b) + 15) || (s.xorOutput && last)
  }

  /** An input combined with itself is zero, whatever it was. */
  predicate Cancels(s: Setup, b: nat) { !s.counter && s.xorInput && In(s, b) == Xors(s, b) }

  ghost predicate LaneSafe(s: Setup, i: nat, b: nat, k: nat) {
    Cancels(s, b) || (NotWritten(s, i, b) && CounterKept(s, b, b + 1 == i + k))
  }

  ghost predicate GroupSafe(s: Setup, i: nat, k: nat) {
    forall b: nat :: i <= b < i + k ==> LaneSafe(s, i, b, k)
  }

  /** Every group of the schedule is safe. */
  ghost predicate GroupsSafe(s: Setup, i: nat, n: nat)
    decreases n
  {
    if n >= 6 then GroupSafe(s, i, 6) && GroupsSafe(s, i + 6, n - 6)
    else if n >= 2 then GroupSafe(s, i, 2) && GroupsSafe(s, i + 2, n - 2)
    else true
  }

  lemma {:induction false} LoadStores(m: seq<byte>, s: Setup, i: nat, outs: seq<Block>, p: int)
    requires Fits(|m|, s, i + |outs|) && Inside(|m|, p)
    requires forall j: nat :: i <= j < i + |outs| ==> Apart(Out(s, j), p)
    ensures Load(Stores(m, s, i, outs), p) == Load(m, p)
    decreases |outs|
  {
    hide Load, Store, Out;
    if outs != [] {
      var k := |outs| - 1;
      assert InsideAt(|m|, s, i + k);
      LoadStores(m, s, i, outs[..k], p);
      LoadApart(Stores(m, s, i, outs[..k]), Out(s, i + k), p, outs[k]);
    }
  }

  /** A byte outside the blocks of a group may change before or after their stores. */
  lemma {:induction false} StoresByte(m: seq<byte>, s: Setup, i: nat, outs: seq<Block>, y: nat, v: byte)
    requires Fits(|m|, s, i + |outs|) && y < |m|
    requires forall j: nat :: i <= j < i + |outs| ==> !HoldsByte(Out(s, j), y)
    ensures Stores(m, s, i, outs)[y] == m[y] && Stores(m, s, i, outs)[y := v] == Stores(m[y := v], s, i, outs)
    decreases |outs|
  {
    hide Store, Out;
    if outs != [] {
      var k := |outs| - 1;
      assert InsideAt(|m|, s, i + k);
      StoresByte(m, s, i, outs[..k], y, v);
      StoreByte(Stores(m, s, i, outs[..k]), Out(s, i + k), outs[k], y, v);
    }
  }

  lemma StoreByte(m: seq<byte>, p: int, b: Block, y: nat, v: byte)
    requires Inside(|m|, p) && y < |m| && !HoldsByte(p, y)
    ensures Store(m, p, b)[y] == m[y] && Store(m, p, b)[y := v] == Store(m[y := v], p, b)
  {
    var l, r := Store(m, p, b)[y := v], Store(m[y := v], p, b);
    forall k | 0 <= k < |m| ensures l[k] == r[k] {
      StoreAt(m, p, b, k);
      StoreAt(m[y := v], p, b, k);
    }
    StoreAt(m, p, b, y);
  }

  lemma {:induction false} FixedAt(start: int, i: nat, j: nat)
    ensures At(start, 0, i + j) == At(start, 0, i)
    decreases j
  {
    if j > 0 { FixedAt(start, i, j - 1); }
  }

  /** What the source computes before its loops: XOR blocks on one side at most, and a counter that
      stays where it is. */
  predicate Proper(s: Setup) {
    && !(s.xorInput && s.xorOutput) && (!UsesXor(s) ==> s.xorStep == 0)
    && (s.counter ==> s.inStep == 0)
  }

  lemma CounterStays(s: Setup, i: nat, b: nat)
    requires s.inStep == 0 && i <= b
    ensures In(s, b) == In(s, i)
  {
    FixedAt(s.inStart, i, b - i);
  }

  /** The first j lanes of a safe group leave the memory as j rounds of the one-block loop do. */
  lemma {:induction false} LanesAreRun(E: Cipher, m: seq<byte>, s: Setup, i: nat, j: nat, k: nat)
    requires Fits(|m|, s, i + k) && j <= k && k > 0 && Proper(s) && InsideAt(|m|, s, i)
    requires forall b: nat :: i <= b < i + j ==> LaneSafe(s, i, b, k)
    ensures Fits(|m|, s, i + j)
    ensures Run(E, m, s, i, j) == Stores(Count(m, s, i, j), s, i, GroupOut(E, m, s, i, k)[..j])
    decreases j
  {
    hide Run, Stores, Count, Step, Single, Lane, LaneSafe, In, Out, Xors, Fits, Proper, Store;
    FitsPrefix(|m|, s, i + j, i + k);
    var outs := GroupOut(E, m, s, i, k);
    if j == 0 {
      RunNone(E, m, s, i);
      assert outs[..0] == [];
    } else {
      FitsPrefix(|m|, s, i + (j - 1), i + k);
      LanesAreRun(E, m, s, i, j - 1, k);
      RunSnoc(E, m, s, i, j);
      StoresSnoc(Count(m, s, i, j), s, i, outs[..j - 1], outs[j - 1]);
      assert outs[..j] == outs[..j - 1] + [outs[j - 1]];
      SingleIsLane(E, m, s, i, j - 1, k, outs[..j - 1]);
      StepParts(E, Run(E, m, s, i, j - 1), s, i + (j - 1));
    }
  }

  lemma RunNone(E: Cipher, m: seq<byte>, s: Setup, i: nat)
    requires Fits(|m|, s, i) && InsideAt(|m|, s, i)
    ensures Run(E, m, s, i, 0) == Stores(Count(m, s, i, 0), s, i, [])
  {
    hide InsideAt;
  }

  lemma RunSnoc(E: Cipher, m: seq<byte>, s: Setup, i: nat, k: nat)
    requires k > 0 && Fits(|m|, s, i + k) && Fits(|m|, s, i + (k - 1))
    ensures InsideAt(|m|, s, i + (k - 1))
    ensures Run(E, m, s, i, k) == Step(E, Run(E, m, s, i, k - 1), s, i + (k - 1))
  {
    hide Step, InsideAt;
    assert InsideAt(|m|, s, i + (k - 1));
  }

  lemma StepParts(E: Cipher, m: seq<byte>, s: Setup, i: nat)
    requires InsideAt(|m|, s, i)
    ensures Step(E, m, s, i) == Store(Count(m, s, i, 1), Out(s, i), Single(E, m, s, i))
  {
  }

  lemma StoresSnoc(m: seq<byte>, s: Setup, i: nat, outs: seq<Block>, b: Block)
    requires Fits(|m|, s, i + |outs| + 1) && Fits(|m|, s, i + |outs|)
    ensures Inside(|m|, Out(s, i + |outs|))
    ensures Stores(m, s, i, outs + [b]) == Store(Stores(m, s, i, outs), Out(s, i + |outs|), b)
  {
    hide Store, In, Out, Xors;
    assert InsideAt(|m|, s, i + |outs|);
    assert (outs + [b])[..|outs|] == outs;
  }

  /** One more round of the one-block loop after j lanes: the same block stored, the counter where
      the next round needs it. */
  lemma SingleIsLane(E: Cipher, m: seq<byte>, s: Setup, i: nat, j: nat, k: nat, outs: seq<Block>)
    requires |outs| == j < k && Fits(|m|, s, i + j) && Proper(s) && LaneSafe(s, i, i + j, k)
    requires InsideAt(|m|, s, i) && InsideAt(|m|, s, i + j)
    ensures var M := Stores(Count(m, s, i, j), s, i, outs);
            && Single(E, M, s, i + j) == Lane(E, m, s, i, j, k)
            && Count(M, s, i + j, 1) == Stores(Count(m, s, i, j + 1), s, i, outs)
  {
    assert Cancels(s, i + j) || (NotWritten(s, i, i + j) && CounterKept(s, i + j, j + 1 == k));
    hide *;
    if Cancels(s, i + j) {
      CancelledLane(E, m, s, i, j, k, outs);
    } else if s.counter {
      CounterLane(E, m, s, i, j, k, outs);
    } else {
      PlainLane(E, m, s, i, j, k, outs);
    }
  }

  lemma CancelledLane(E: Cipher, m: seq<byte>, s: Setup, i: nat, j: nat, k: nat, outs: seq<Block>)
    requires |outs| == j < k && Fits(|m|, s, i + j) && Proper(s) && Cancels(s, i + j)
    requires InsideAt(|m|, s, i) && InsideAt(|m|, s, i + j)
    ensures var M := Stores(Count(m, s, i, j), s, i, outs);
            && Single(E, M, s, i + j) == Lane(E, m, s, i, j, k)
            && Count(M, s, i + j, 1) == Stores(Count(m, s, i, j + 1), s, i, outs)
  {
    hide Load, Store, Stores, XorPrefix, At;
    var M, p := Stores(m, s, i, outs), In(s, i + j);
    XorSelf(Load(M, p));
    XorSelf(Load(m, p));
  }

  lemma XorSelf(b: Block)
    ensures XorPrefix(b, b) == Zeros(16)
  {
    forall i | 0 <= i < 16 ensures Xor(b[i], b[i]) == 0 { XorItself(b[i]); }
  }

  lemma PlainLane(E: Cipher, m: seq<byte>, s: Setup, i: nat, j: nat, k: nat, outs: seq<Block>)
    requires |outs| == j < k && Fits(|m|, s, i + j) && Proper(s) && !s.counter && NotWritten(s, i, i + j)
    requires InsideAt(|m|, s, i) && InsideAt(|m|, s, i + j)
    ensures var M := Stores(Count(m, s, i, j), s, i, outs);
            && Single(E, M, s, i + j) == Lane(E, m, s, i, j, k)
            && Count(M, s, i + j, 1) == Stores(Count(m, s, i, j + 1), s, i, outs)
  {
    hide Load, Store, Stores, XorPrefix, At;
    LoadStores(m, s, i, outs, In(s, i + j));
    if UsesXor(s) { LoadStores(m, s, i, outs, Xors(s, i + j)); }
  }

  lemma CounterLane(E: Cipher, m: seq<byte>, s: Setup, i: nat, j: nat, k: nat, outs: seq<Block>)
    requires |outs| == j < k && Fits(|m|, s, i + j) && Proper(s) && s.counter
    requires NotWritten(s, i, i + j) && CounterKept(s, i + j, j + 1 == k)
    requires InsideAt(|m|, s, i) && InsideAt(|m|, s, i + j)
    ensures var M := Stores(Count(m, s, i, j), s, i, outs);
            && Single(E, M, s, i + j) == Lane(E, m, s, i, j, k)
            && Count(M, s, i + j, 1) == Stores(Count(m, s, i, j + 1), s, i, outs)
  {
    hide Load, Store, Stores, XorPrefix, At, Bump, Increment, NotWritten;
    var c := In(s, i);
    CounterStays(s, i, i + j);
    Untouched(s, i, i + j);
    CountLoad(m, s, i, j);
    LoadStores(Count(m, s, i, j), s, i, outs, c);
    var y := c + 15;
    BumpByte(m[y], j, 1);
    StoresByte(Count(m, s, i, j), s, i, outs, y, Increment(m[y], j + 1));
    assert Count(m, s, i, j)[y := Increment(m[y], j + 1)] == Count(m, s, i, j + 1);
    if UsesXor(s) {
      var x := Xors(s, i + j);
      LoadStores(Count(m, s, i, j), s, i, outs, x);
      LoadStores(Count(m, s, i, j + 1), s, i, outs, x);
      if !HoldsByte(x, y) {
        CountElsewhere(m, s, i, j, k, x);
        CountElsewhere(m, s, i, j + 1, k, x);
      }
    }
  }

  lemma Untouched(s: Setup, i: nat, b: nat)
    requires NotWritten(s, i, b) && i <= b && In(s, b) == In(s, i)
    ensures forall a: nat :: i <= a < b ==> Apart(Out(s, a), In(s, i)) && !HoldsByte(Out(s, a), In(s, i) + 15)
    ensures UsesXor(s) ==> forall a: nat :: i <= a < b ==> Apart(Out(s, a), Xors(s, b))
  {
    hide In, Out, Xors;
  }

  lemma CountLoad(m: seq<byte>, s: Setup, i: nat, j: nat)
    requires Inside(|m|, In(s, i)) && s.counter
    ensures Load(Count(m, s, i, j), In(s, i)) == Bump(Load(m, In(s, i)), j)
  {
  }

  lemma CountElsewhere(m: seq<byte>, s: Setup, i: nat, j: nat, k: nat, x: int)
    requires Inside(|m|, In(s, i)) && Inside(|m|, x) && !HoldsByte(x, In(s, i) + 15)
    ensures Load(Count(m, s, i, j), x) == Load(Count(m, s, i, k), x)
  {
  }

  /** A safe group leaves the memory as the one-block loop does. */
  lemma GroupIsRun(E: Cipher, m: seq<byte>, s: Setup, i: nat, k: nat)
    requires k > 0 && Fits(|m|, s, i + k) && Proper(s) && GroupSafe(s, i, k)
    ensures Group(E, m, s, i, k) == Run(E, m, s, i, k)
  {
    assert InsideAt(|m|, s, i);
    hide Stores, Count, Run, LaneSafe;
    LanesAreRun(E, m, s, i, k, k);
    assert GroupOut(E, m, s, i, k)[..k] == GroupOut(E, m, s, i, k);
  }

  /** If all groups are safe the schedule does what the one-block loop does. */
  lemma {:induction false} ScheduleIsRun(E: Cipher, m: seq<byte>, s: Setup, i: nat, n: nat)
    requires Fits(|m|, s, i + n) && Proper(s) && GroupsSafe(s, i, n)
    ensures Schedule(E, m, s, i, n) == Run(E, m, s, i, n)
    decreases n
  {
    hide Run, Group, Fits, GroupSafe;
    if n >= 2 {
      var k := if n >= 6 then 6 else 2;
      FitsPrefix(|m|, s, i + k, i + n);
      GroupIsRun(E, m, s, i, k);
      ScheduleIsRun(E, Group(E, m, s, i, k), s, i + k, n - k);
      RunAppend(E, m, s, i, k, n - k);
    }
  }

  // ----- the loops

  method StoreBlock(mem: array<byte>, p: int, b: Block)
    requires Inside(mem.Length, p)
    modifies mem
    ensures mem[..] == Store(old(mem[..]), p, b)
  {
    for k := 0 to 16
      invariant mem[..] == old(mem[..])[..p] + b[..k] + old(mem[..])[p + k..]
    {
      mem[p + k] := b[k];
    }
  }

  /** The loads of a group; a counter is advanced at once. */
  method LoadGroup(mem: array<byte>, k: nat, inBlocks: int, s: Setup, ghost i: nat)
      returns (blocks: seq<Block>, next: int)
    requires k > 0 && Fits(mem.Length, s, i + k) && inBlocks == In(s, i) && (s.counter ==> s.inStep == 0)
    requires InsideAt(mem.Length, s, i)
    modifies mem
    ensures |blocks| == k && mem[..] == Count(old(mem[..]), s, i, k) && next == In(s, i + k)
    ensures forall j: nat :: j < k ==>
              InsideAt(mem.Length, s, i + j)
              && blocks[j] == if s.counter then Bump(Load(old(mem[..]), In(s, i)), j)
                              else Load(old(mem[..]), In(s, i + j))
  {
    Members(mem.Length, s, i, k);
    hide At, Bump, Store, Load, In, Out, Xors, Fits, Count;
    ghost var m := mem[..];
    if s.counter {
      blocks := LoadCounter(mem, k, inBlocks, s, i);
      next := inBlocks;
      CounterStays(s, i, i + k);
    } else {
      blocks, next := LoadInputs(mem, k, inBlocks, s, i);
      NotCounted(m, s, i, k);
    }
    forall j: nat | j < k
      ensures InsideAt(mem.Length, s, i + j)
              && blocks[j] == if s.counter then Bump(Load(m, In(s, i)), j) else Load(m, In(s, i + j))
    {
      assert InsideAt(mem.Length, s, i + j);
      assert i + j - i == j;
    }
  }

  lemma NotCounted(m: seq<byte>, s: Setup, i: nat, k: nat)
    requires Inside(|m|, In(s, i)) && !s.counter
    ensures Count(m, s, i, k) == m
  {
  }

  method LoadCounter(mem: array<byte>, k: nat, inBlocks: int, s: Setup, ghost i: nat) returns (blocks: seq<Block>)
    requires k > 0 && s.counter && inBlocks == In(s, i) && Inside(mem.Length, In(s, i))
    modifies mem
    ensures |blocks| == k && mem[..] == Count(old(mem[..]), s, i, k)
    ensures forall j: nat :: j < k ==> blocks[j] == Bump(Load(old(mem[..]), In(s, i)), j)
  {
    hide In, Bump, Store, Load, AddEpi32;
    ghost var m := mem[..];
    ghost var c := Load(m, In(s, i));
    blocks := CounterBlocks(mem, k, inBlocks);
    BumpBump(c, k - 1, 1);
    AddOneIsBump(blocks[k - 1]);
    StoreBlock(mem, inBlocks, AddEpi32(blocks[k - 1], 0x100_0000, 0, 0, 0));
    BumpInPlace(m, inBlocks, k);
  }

  method LoadInputs(mem: array<byte>, k: nat, inBlocks: int, s: Setup, ghost i: nat)
      returns (blocks: seq<Block>, next: int)
    requires !s.counter && inBlocks == In(s, i) && forall b: nat :: i <= b < i + k ==> InsideAt(mem.Length, s, b)
    ensures |blocks| == k && next == In(s, i + k)
    ensures forall b: nat :: i <= b < i + k ==> InsideAt(mem.Length, s, b) && blocks[b - i] == Load(mem[..], In(s, b))
  {
    hide Load, At, Out, Xors;
    blocks, next := [], inBlocks;
    for j := 0 to k
      invariant |blocks| == j && next == In(s, i + j)
      invariant forall b: nat :: i <= b < i + j ==>
                  InsideAt(mem.Length, s, b) && blocks[b - i] == Load(mem[..], In(s, b))
    {
      assert InsideAt(mem.Length, s, i + j);
      LoadSlice(mem, next);
      blocks := blocks + [mem[next..next + 16]];
      NextAt(s.inStart, s.inStep, i + j);
      next := next + s.inStep;
    }
  }

  lemma LoadSlice(mem: array<byte>, p: int)
    requires Inside(mem.Length, p)
    ensures mem[p..p + 16] == Load(mem[..], p)
  {
  }

  lemma NextAt(start: int, step: int, i: nat)
    ensures At(start, step, i + 1) == At(start, step, i) + step
  {
  }

  method CounterBlocks(mem: array<byte>, k: nat, p: int) returns (blocks: seq<Block>)
    requires k > 0 && Inside(mem.Length, p)
    ensures |blocks| == k && forall j: nat :: j < k ==> blocks[j] == Bump(Load(mem[..], p), j)
  {
    hide Bump, AddEpi32, Load;
    LoadSlice(mem, p);
    var c: Block := mem[p..p + 16];
    BumpNone(c);
    blocks := [c];
    for j := 1 to k
      invariant |blocks| == j && forall t: nat :: t < j ==> blocks[t] == Bump(c, t)
    {
      AddOneIsBump(blocks[j - 1]);
      BumpBump(c, j - 1, 1);
      blocks := blocks + [AddEpi32(blocks[j - 1], 0x100_0000, 0, 0, 0)];
    }
  }

  lemma BumpNone(b: Block)
    ensures Bump(b, 0) == b
  {
  }

  /** The XOR blocks of a group. */
  method XorGroup(mem: array<byte>, blocks: seq<Block>, xorBlocks: int, s: Setup, ghost i: nat)
      returns (r: seq<Block>, next: int)
    requires UsesXor(s) && Fits(mem.Length, s, i + |blocks|) && xorBlocks == Xors(s, i)
    ensures |r| == |blocks| && next == Xors(s, i + |blocks|)
    ensures forall j: nat :: j < |r| ==>
              InsideAt(mem.Length, s, i + j) && r[j] == XorPrefix(blocks[j], Load(mem[..], Xors(s, i + j)))
  {
    hide At, XorPrefix, Load;
    r, next := [], xorBlocks;
    for j := 0 to |blocks|
      invariant |r| == j && next == Xors(s, i + j)
      invariant forall t: nat :: t < j ==>
                  InsideAt(mem.Length, s, i + t) && r[t] == XorPrefix(blocks[t], Load(mem[..], Xors(s, i + t)))
    {
      assert InsideAt(mem.Length, s, i + j);
      LoadSlice(mem, next);
      r := r + [XorPrefix(blocks[j], mem[next..next + 16])];
      NextAt(s.xorStart, s.xorStep, i + j);
      next := next + s.xorStep;
    }
  }

  method StoreGroup(mem: array<byte>, blocks: seq<Block>, outBlocks: int, s: Setup, ghost i: nat) returns (next: int)
    requires Fits(mem.Length, s, i + |blocks|) && outBlocks == Out(s, i)
    modifies mem
    ensures mem[..] == Stores(old(mem[..]), s, i, blocks) && next == Out(s, i + |blocks|)
  {
    hide At, Store;
    next := outBlocks;
    for j := 0 to |blocks|
      invariant next == Out(s, i + j) && mem[..] == Stores(old(mem[..]), s, i, blocks[..j])
    {
      assert InsideAt(mem.Length, s, i + j);
      StoreBlock(mem, next, blocks[j]);
      assert blocks[..j + 1][..j] == blocks[..j];
      NextAt(s.outStart, s.outStep, i + j);
      next := next + s.outStep;
    }
    assert blocks[..|blocks|] == blocks;
  }

  /** The body of the loop over six, or two, blocks */
  method ProcessGroup(func: Wide, ghost E: Cipher, k: nat, mem: array<byte>, inBlocks: int, xorBlocks: int,
                      outBlocks: int,
                      s: Setup, ghost i: nat) returns (inNext: int, xorNext: int, outNext: int)
    requires k > 0 && LaneWise(func, E, k) && Fits(mem.Length, s, i + k) && Proper(s)
    requires inBlocks == In(s, i) && xorBlocks == Xors(s, i) && outBlocks == Out(s, i)
    modifies mem
    ensures mem[..] == Group(E, old(mem[..]), s, i, k)
    ensures inNext == In(s, i + k) && xorNext == Xors(s, i + k) && outNext == Out(s, i + k)
  {
    hide In, Out, Xors, Count, Stores, XorPrefix, Load, Lane, Lanes, LaneWise;
    ghost var m := mem[..];
    assert InsideAt(mem.Length, s, i + 0);
    var blocks;
    blocks, inNext := LoadGroup(mem, k, inBlocks, s, i);
    ghost var loaded := blocks;
    xorNext := xorBlocks;
    if s.xorInput {
      blocks, xorNext := XorGroup(mem, blocks, xorBlocks, s, i);
    }
    ghost var inputs := blocks;
    blocks := func(blocks);
    Apply(func, E, k, inputs);
    ghost var outputs := blocks;
    if s.xorOutput {
      blocks, xorNext := XorGroup(mem, blocks, xorBlocks, s, i);
    }
    if !UsesXor(s) { XorsFixed(s, i, k); }
    LanesOfGroup(E, m, s, i, k, loaded, inputs, outputs, blocks);
    outNext := StoreGroup(mem, blocks, outBlocks, s, i);
  }

  lemma Apply(func: Wide, E: Cipher, k: nat, blocks: seq<Block>)
    requires LaneWise(func, E, k) && |blocks| == k
    ensures |func(blocks)| == k && forall j: nat :: j < k ==> func(blocks)[j] == E(blocks[j])
  {
    assert func(blocks) == Lanes(E, blocks);
  }

  lemma XorsFixed(s: Setup, i: nat, k: nat)
    requires s.xorStep == 0
    ensures Xors(s, i + k) == Xors(s, i)
  {
    FixedAt(s.xorStart, i, k);
  }

  /** The registers of a group after its three stages. */
  lemma LanesOfGroup(E: Cipher, m: seq<byte>, s: Setup, i: nat, k: nat,
                     loaded: seq<Block>, inputs: seq<Block>, outputs: seq<Block>, blocks: seq<Block>)
    requires Fits(|m|, s, i + k) && Proper(s) && InsideAt(|m|, s, i)
    requires |loaded| == |inputs| == |outputs| == |blocks| == k
    requires forall j: nat :: j < k ==>
               && InsideAt(|m|, s, i + j)
               && loaded[j] == if s.counter then Bump(Load(m, In(s, i)), j) else Load(m, In(s, i + j))
    requires if s.xorInput then forall j: nat :: j < k ==>
               InsideAt(|m|, s, i + j) && inputs[j] == XorPrefix(loaded[j], Load(Count(m, s, i, k), Xors(s, i + j)))
             else inputs == loaded
    requires forall j: nat :: j < k ==> outputs[j] == E(inputs[j])
    requires if s.xorOutput then forall j: nat :: j < k ==>
               InsideAt(|m|, s, i + j) && blocks[j] == XorPrefix(outputs[j], Load(Count(m, s, i, k), Xors(s, i + j)))
             else blocks == outputs
    ensures blocks == GroupOut(E, m, s, i, k)
  {
    hide At, XorPrefix, Load, GroupOut, Count, Bump;
    forall j: nat | j < k ensures blocks[j] == GroupOut(E, m, s, i, k)[j] {
      assert InsideAt(|m|, s, i + j);
    }
  }

  /** The body of the one-block loop; the second block given to `func2` is zero. */
  method OneBlock(func2: Wide, ghost E: Cipher, mem: array<byte>, inBlocks: int, xorBlocks: int, outBlocks: int,
                  s: Setup, ghost i: nat)
    requires LaneWise(func2, E, 2) && InsideAt(mem.Length, s, i)
    requires inBlocks == In(s, i) && xorBlocks == Xors(s, i) && outBlocks == Out(s, i)
    modifies mem
    ensures mem[..] == Step(E, old(mem[..]), s, i)
  {
    hide XorPrefix, LaneWise, Store, At;
    ghost var m := mem[..];
    LoadSlice(mem, inBlocks);
    var block: Block := mem[inBlocks..inBlocks + 16];
    if s.xorInput {
      LoadSlice(mem, xorBlocks);
      block := XorPrefix(block, mem[xorBlocks..xorBlocks + 16]);
    }
    if s.counter {
      mem[inBlocks + 15] := Increment(mem[inBlocks + 15], 1);
      assert mem[..] == Count(m, s, i, 1);
    }
    Apply(func2, E, 2, [block, Zeros(16)]);
    block := func2([block, Zeros(16)])[0];
    if s.xorOutput {
      LoadSlice(mem, xorBlocks);
      block := XorPrefix(block, mem[xorBlocks..xorBlocks + 16]);
    }
    StoreBlock(mem, outBlocks, block);
  }

  lemma BumpInPlace(m: seq<byte>, p: int, k: nat)
    requires Inside(|m|, p)
    ensures Store(m, p, Bump(Load(m, p), k)) == m[p + 15 := Increment(m[p + 15], k)]
  {
  }

  datatype Flags = Flags(inBlockIsCounter: bool, dontIncrement: bool, xorInput: bool, reverse: bool,
                         allowParallel: bool)

  /** The increments and starting addresses the source computes; `hasXor` is false for a
      null pointer to XOR blocks. */
  function SetupFor(flags: Flags, hasXor: bool, inBlocks: int, xorBlocks: int, outBlocks: int, length: nat): Setup {
    var inStep := if flags.inBlockIsCounter || flags.dontIncrement then 0 else 16;
    var xorStep := if hasXor then 16 else 0;
    var outStep := if flags.dontIncrement then 0 else 16;
    var xorInput, xorOutput := hasXor && flags.xorInput, hasXor && !flags.xorInput;
    if flags.reverse then
      Setup(inBlocks + (length - 16), xorBlocks + (length - 16), outBlocks + (length - 16), -inStep, -xorStep, -outStep,
            flags.inBlockIsCounter, xorInput, xorOutput)
    else
      Setup(inBlocks, xorBlocks, outBlocks, inStep, xorStep, outStep, flags.inBlockIsCounter, xorInput, xorOutput)
  }

  /** What a call does to memory: the schedule of groups, or the one-block loop alone. */
  ghost function Driver(E: Cipher, m: seq<byte>, s: Setup, n: nat, parallel: bool): seq<byte>
    requires Fits(|m|, s, n)
  {
    if parallel then Schedule(E, m, s, 0, n) else Run(E, m, s, 0, n)
  }

  /** `AdvancedProcessBlocks128_6x2_SSE`, for every layout of the blocks */
  method AdvancedProcessBlocks(func2: Wide, func6: Wide, ghost E: Cipher, mem: array<byte>, inBlocks0: int,
                               hasXor: bool,
                               xorBlocks0: int, outBlocks0: int, length0: nat, flags: Flags) returns (length: nat)
    requires LaneWise(func2, E, 2) && LaneWise(func6, E, 6)
    requires Fits(mem.Length, SetupFor(flags, hasXor, inBlocks0, xorBlocks0, outBlocks0, length0), length0 / 16)
    modifies mem
    ensures length == length0 % 16
    ensures var s := SetupFor(flags, hasXor, inBlocks0, xorBlocks0, outBlocks0, length0);
            mem[..] == Driver(E, old(mem[..]), s, length0 / 16, flags.allowParallel)
  {
    var s := SetupFor(flags, hasXor, inBlocks0, xorBlocks0, outBlocks0, length0);
    hide *;
    SetupProper(flags, hasXor, inBlocks0, xorBlocks0, outBlocks0, length0);
    var inBlocks, xorBlocks, outBlocks := s.inStart, s.xorStart, s.outStart;
    length := length0;
    ghost var n, i := length0 / 16, 0;
    ghost var result := Driver(E, mem[..], s, n, flags.allowParallel);
    DriverParts(E, mem[..], s, n, flags.allowParallel);
    if flags.allowParallel {
      while length >= 96
        invariant 0 <= i <= n && length == length0 - 16 * i
        invariant inBlocks == In(s, i) && xorBlocks == Xors(s, i) && outBlocks == Out(s, i)
        invariant result == Schedule(E, mem[..], s, i, n - i)
      {
        FitsPrefix(mem.Length, s, i + 6, n);
        ScheduleStep(E, mem[..], s, i, n - i);
        inBlocks, xorBlocks, outBlocks := ProcessGroup(func6, E, 6, mem, inBlocks, xorBlocks, outBlocks, s, i);
        length := length - 96;
        i := i + 6;
      }
      while length >= 32
        invariant 0 <= i <= n && length == length0 - 16 * i && length < 96
        invariant inBlocks == In(s, i) && xorBlocks == Xors(s, i) && outBlocks == Out(s, i)
        invariant result == Schedule(E, mem[..], s, i, n - i)
      {
        FitsPrefix(mem.Length, s, i + 2, n);
        ScheduleStep(E, mem[..], s, i, n - i);
        inBlocks, xorBlocks, outBlocks := ProcessGroup(func2, E, 2, mem, inBlocks, xorBlocks, outBlocks, s, i);
        length := length - 32;
        i := i + 2;
      }
      ScheduleStep(E, mem[..], s, i, n - i);
    }
    while length >= 16
      invariant 0 <= i <= n && length == length0 - 16 * i
      invariant inBlocks == In(s, i) && xorBlocks == Xors(s, i) && outBlocks == Out(s, i)
      invariant result == Run(E, mem[..], s, i, n - i)
    {
      RunFront(E, mem[..], s, i, n - i);
      OneBlock(func2, E, mem, inBlocks, xorBlocks, outBlocks, s, i);
      Advance(s, i);
      inBlocks := inBlocks + s.inStep;
      outBlocks := outBlocks + s.outStep;
      xorBlocks := xorBlocks + s.xorStep;
      length := length - 16;
      i := i + 1;
    }
    RunFront(E, mem[..], s, i, n - i);
  }

  lemma DriverParts(E: Cipher, m: seq<byte>, s: Setup, n: nat, parallel: bool)
    requires Fits(|m|, s, n)
    ensures Driver(E, m, s, n, parallel) == if parallel then Schedule(E, m, s, 0, n) else Run(E, m, s, 0, n)
    ensures In(s, 0) == s.inStart && Xors(s, 0) == s.xorStart && Out(s, 0) == s.outStart
  {
    hide Schedule, Run, Fits;
  }

  lemma ScheduleStep(E: Cipher, m: seq<byte>, s: Setup, i: nat, n: nat)
    requires Fits(|m|, s, i + n)
    ensures n >= 6 ==>
              Fits(|m|, s, i + 6) && Schedule(E, m, s, i, n) == Schedule(E, Group(E, m, s, i, 6), s, i + 6, n - 6)
    ensures 2 <= n < 6 ==>
              Fits(|m|, s, i + 2) && Schedule(E, m, s, i, n) == Schedule(E, Group(E, m, s, i, 2), s, i + 2, n - 2)
    ensures n < 2 ==> Schedule(E, m, s, i, n) == Run(E, m, s, i, n)
  {
    hide Group, Run;
  }

  lemma RunFront(E: Cipher, m: seq<byte>, s: Setup, i: nat, n: nat)
    requires Fits(|m|, s, i + n)
    ensures n == 0 ==> Run(E, m, s, i, n) == m
    ensures n > 0 ==> InsideAt(|m|, s, i) && Run(E, m, s, i, n) == Run(E, Step(E, m, s, i), s, i + 1, n - 1)
  {
    hide Step, InsideAt;
    if n > 0 {
      RunAppend(E, m, s, i, 1, n - 1);
      assert Run(E, m, s, i, 1) == Step(E, Run(E, m, s, i, 0), s, i);
    }
  }

  lemma SetupProper(flags: Flags, hasXor: bool, inBlocks: int, xorBlocks: int, outBlocks: int, length: nat)
    ensures Proper(SetupFor(flags, hasXor, inBlocks, xorBlocks, outBlocks, length))
  {
  }

  lemma Start(E: Cipher, m: seq<byte>, s: Setup)
    ensures In(s, 0) == s.inStart && Xors(s, 0) == s.xorStart && Out(s, 0) == s.outStart
    ensures Fits(|m|, s, 0) && Run(E, m, s, 0, 0) == m
  {
  }

  lemma Advance(s: Setup, i: nat)
    ensures In(s, i + 1) == In(s, i) + s.inStep && Xors(s, i + 1) == Xors(s, i) + s.xorStep
    ensures Out(s, i + 1) == Out(s, i) + s.outStep
  {
  }

  lemma FitsPrefix(size: nat, s: Setup, k: nat, n: nat)
    requires k <= n && Fits(size, s, n)
    ensures Fits(size, s, k)
  {
    hide InsideAt;
  }

  lemma RunNext(E: Cipher, m: seq<byte>, s: Setup, i: nat)
    requires Fits(|m|, s, i + 1) && Fits(|m|, s, i)
    ensures InsideAt(|m|, s, i) && Run(E, m, s, 0, i + 1) == Step(E, Run(E, m, s, 0, i), s, i)
  {
    hide Step;
  }

  // ----- when blocks may be processed together

  lemma {:induction false} AddressOf(start: int, i: nat)
    ensures At(start, 16, i) == start + 16 * i && At(start, -16, i) == start - 16 * i && At(start, 0, i) == start
    decreases i
  {
    if i > 0 { AddressOf(start, i - 1); }
  }

  /** No block of the whole call is read after an earlier one was written over it, and a counter is not
      among the XOR blocks. */
  ghost predicate Safe(s: Setup, n: nat) {
    forall b: nat :: b < n ==> NotWritten(s, 0, b) && CounterKept(s, b, false)
  }

  lemma {:induction false} SafeGroups(s: Setup, i: nat, n: nat)
    requires Safe(s, i + n)
    ensures GroupsSafe(s, i, n)
    decreases n
  {
    hide In, Out, Xors, CounterKept, Apart;
    if n >= 2 {
      var k := if n >= 6 then 6 else 2;
      forall b: nat | i <= b < i + k ensures LaneSafe(s, i, b, k) { SafeLane(s, i, b, k, i + n); }
      SafeGroups(s, i + k, n - k);
    }
  }

  lemma SafeLane(s: Setup, i: nat, b: nat, k: nat, n: nat)
    requires Safe(s, n) && i <= b < n
    ensures LaneSafe(s, i, b, k)
  {
    hide In, Out, Xors, Apart;
    assert NotWritten(s, 0, b) && CounterKept(s, b, false);
  }

  predicate Separate(p: int, q: int, length: nat) { p + length <= q || q + length <= p }

  /** The calls the modes make, in either direction: input and XOR blocks each equal to the
      output or separate from it, and a counter block away from both. */
  lemma SafeWhen(flags: Flags, hasXor: bool, inBlocks: int, xorBlocks: int, outBlocks: int, length: nat)
    requires !flags.dontIncrement
    requires !flags.inBlockIsCounter ==> inBlocks == outBlocks || Separate(inBlocks, outBlocks, length)
    requires hasXor ==> xorBlocks == outBlocks || Separate(xorBlocks, outBlocks, length)
    requires flags.inBlockIsCounter ==>
               var c := if flags.reverse then inBlocks + (length - 16) else inBlocks;
               && (c + 16 <= outBlocks || outBlocks + length <= c)
               && (hasXor ==> c + 16 <= xorBlocks || xorBlocks + length <= c)
    ensures var s := SetupFor(flags, hasXor, inBlocks, xorBlocks, outBlocks, length);
            Safe(s, length / 16) && GroupsSafe(s, 0, length / 16)
  {
    var s := SetupFor(flags, hasXor, inBlocks, xorBlocks, outBlocks, length);
    var n := length / 16;
    forall i: nat | i < n ensures Placed(s, flags, hasXor, inBlocks, xorBlocks, outBlocks, length, i) {
      AddressOf(s.inStart, i);
      AddressOf(s.xorStart, i);
      AddressOf(s.outStart, i);
    }
    hide In, Out, Xors, SetupFor, GroupsSafe;
    forall b: nat | b < n ensures NotWritten(s, 0, b) && CounterKept(s, b, false) {
      assert Placed(s, flags, hasXor, inBlocks, xorBlocks, outBlocks, length, b);
      forall a: nat | a < b ensures Apart(Out(s, a), In(s, b)) && (UsesXor(s) ==> Apart(Out(s, a), Xors(s, b))) {
        assert Placed(s, flags, hasXor, inBlocks, xorBlocks, outBlocks, length, a);
      }
    }
    SafeGroups(s, 0, n);
  }

  /** The address of block i from either end, and what the flags turn on. */
  ghost predicate Placed(s: Setup, flags: Flags, hasXor: bool, inBlocks: int, xorBlocks: int, outBlocks: int,
                         length: nat,
                         i: nat) {
    var offset := if flags.reverse then length - 16 - 16 * i else 16 * i;
    && UsesXor(s) == hasXor && s.counter == flags.inBlockIsCounter
    && Out(s, i) == outBlocks + offset && 0 <= offset <= length - 16
    && (hasXor ==> Xors(s, i) == xorBlocks + offset)
    && In(s, i) == (if !flags.inBlockIsCounter then inBlocks + offset
                    else if flags.reverse then inBlocks + (length - 16) else inBlocks)
  }

  /** In-place CBC decryption from the end: each block is combined with the one before it. */
  lemma SafeBackwards(blocks: int, length: nat)
    ensures var s := SetupFor(Flags(false, false, false, true, true), true, blocks, blocks - 16, blocks, length);
            Safe(s, length / 16) && GroupsSafe(s, 0, length / 16)
  {
    var s := SetupFor(Flags(false, false, false, true, true), true, blocks, blocks - 16, blocks, length);
    forall b: nat | b < length / 16 ensures NotWritten(s, 0, b) && CounterKept(s, b, false) {
      forall a: nat | a < b ensures Apart(Out(s, a), In(s, b)) && Apart(Out(s, a), Xors(s, b)) {
        AddressOf(s.outStart, a);
        AddressOf(s.inStart, b);
        AddressOf(s.xorStart, b);
      }
    }
    SafeGroups(s, 0, length / 16);
  }

  /** A chained register, input and output at one fixed address: a call that allows groups differs from one
      that does not. */
  lemma ChainingNotParallel()
    ensures var s := SetupFor(Flags(false, true, false, false, true), false, 0, 0, 0, 32);
            var m, E: Cipher := Zeros(16), (b: Block) => Bump(b, 1);
            Fits(16, s, 2) && Driver(E, m, s, 2, true) != Driver(E, m, s, 2, false)
  {
    var s := SetupFor(Flags(false, true, false, false, true), false, 0, 0, 0, 32);
    var m, E: Cipher := Zeros(16), (b: Block) => Bump(b, 1);
    AddressOf(0, 1);
    AddressOf(0, 0);
    assert InsideAt(16, s, 0) && InsideAt(16, s, 1);
    assert Fits(16, s, 2);
    assert Run(E, m, s, 0, 1) == Step(E, m, s, 0);
    var m1 := Step(E, m, s, 0);
    assert m1[15] == 1;
    assert Step(E, m1, s, 1)[15] == 2;
    ScheduleStep(E, m, s, 0, 2);
    ScheduleStep(E, Group(E, m, s, 0, 2), s, 2, 0);
    var outs := GroupOut(E, m, s, 0, 2);
    assert outs[1] == Lane(E, m, s, 0, 1, 2) && outs[1][15] == 1;
    assert Stores(m, s, 0, outs)[15] == 1;
  }

  // ----- CBC-MAC as a call of the driver

  /** The call of CCM: the register is input and output at one address, the data are the XOR
      blocks, no groups. */
  function MacSetup(register: int, data: int, length: nat): Setup {
    SetupFor(Flags(false, true, true, false, false), true, register, data, register, length)
  }

  /** The first n blocks of the data. */
  function FirstBlocks(m: seq<byte>, data: nat, n: nat): (d: seq<byte>)
    requires data + 16 * n <= |m|
    ensures |d| % 16 == 0
  {
    m[data..data + 16 * n]
  }

  lemma MoreBlocks(m: seq<byte>, data: nat, n: nat)
    requires data + 16 * n + 16 <= |m|
    ensures FirstBlocks(m, data, n + 1) == FirstBlocks(m, data, n) + m[data + 16 * n..data + 16 * n + 16]
  {
  }

  lemma NoBlocks(E: Cipher, x: Block, m: seq<byte>, data: nat)
    requires data <= |m|
    ensures Chain(E, x, FirstBlocks(m, data, 0)) == x
  {
  }

  /** The one-block loop of that call chains the data into the register and changes nothing else. */
  lemma {:induction false} MacIsChain(E: Cipher, m: seq<byte>, register: int, data: nat, length: nat, n: nat)
    requires 16 * n <= length && data + length <= |m| && Inside(|m|, register)
    requires register + 16 <= data || data + length <= register
    ensures Fits(|m|, MacSetup(register, data, length), n)
    ensures Run(E, m, MacSetup(register, data, length), 0, n)
         == Store(m, register, Chain(E, Load(m, register), FirstBlocks(m, data, n)))
    decreases n
  {
    hide *;
    MacFits(|m|, register, data, length, n);
    var s, x := MacSetup(register, data, length), Load(m, register);
    if n == 0 {
      NoBlocks(E, x, m, data);
      LoadThenStore(m, register);
      Start(E, m, s);
    } else {
      MacIsChain(E, m, register, data, length, n - 1);
      RunNext(E, m, s, n - 1);
      MacStep(E, m, register, data, length, n - 1, Chain(E, x, FirstBlocks(m, data, n - 1)));
      MoreBlocks(m, data, n - 1);
      var p := data + 16 * (n - 1);
      ChainStep(E, x, FirstBlocks(m, data, n - 1), m[p..p + 16]);
    }
  }

  lemma MacStep(E: Cipher, m: seq<byte>, register: int, data: int, length: nat, i: nat, c: Block)
    requires 16 * i + 16 <= length && 0 <= data && data + length <= |m| && Inside(|m|, register)
    requires register + 16 <= data || data + length <= register
    requires InsideAt(|m|, MacSetup(register, data, length), i)
    ensures Step(E, Store(m, register, c), MacSetup(register, data, length), i)
         == Store(m, register, E(XorPrefix(c, m[data + 16 * i..data + 16 * i + 16])))
  {
    hide Store, Load, XorPrefix, In, Out, Xors;
    var p := data + 16 * i;
    MacAddress(register, data, length, i);
    LoadSame(m, register, c);
    LoadApart(m, register, p, c);
    LoadPiece(m, p);
    StoreSame(m, register, c, E(XorPrefix(c, Load(m, p))));
  }

  lemma MacAddress(register: int, data: int, length: nat, i: nat)
    ensures var s := MacSetup(register, data, length);
            In(s, i) == Out(s, i) == register && Xors(s, i) == data + 16 * i
  {
    AddressOf(register, i);
    AddressOf(data, i);
  }

  lemma MacFits(size: nat, register: int, data: int, length: nat, n: nat)
    requires 16 * n <= length && 0 <= data && data + length <= size && Inside(size, register)
    ensures Fits(size, MacSetup(register, data, length), n)
  {
    forall i: nat | i < n ensures InsideAt(size, MacSetup(register, data, length), i) {
      MacAddress(register, data, length, i);
    }
  }

  lemma LoadThenStore(m: seq<byte>, p: int)
    requires Inside(|m|, p)
    ensures Store(m, p, Load(m, p)) == m
  {
    assert m == m[..p] + m[p..p + 16] + m[p + 16..];
  }

  lemma LoadPiece(m: seq<byte>, p: int)
    requires Inside(|m|, p)
    ensures Load(m, p) == m[p..p + 16]
  {
  }
}
