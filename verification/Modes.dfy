/** The modes of modes.cpp that hand their blocks to `AdvancedProcessBlocks`: electronic codebook, cipher block
    chaining and counter mode, each said of the memory before and after. */
module Modes {
  import opened NatBits
  import opened Bytes
  import opened CcmSpec
  import opened WideBlocks
  import opened WideExact

  // ----- blocks of the memory

  predicate Area(size: nat, p: int, length: nat) { 0 <= p && p + length <= size }

  /** Block i of an area. */
  function BlockAt(m: seq<byte>, p: int, i: nat): Block
    requires Area(|m|, p, 16 * i + 16)
  {
    m[p + 16 * i..p + 16 * i + 16]
  }

  /** Nothing outside the area is different. */
  ghost predicate Elsewhere(m: seq<byte>, m': seq<byte>, p: int, length: nat) {
    |m| == |m'| && forall y :: 0 <= y < |m| && !(p <= y < p + length) ==> m[y] == m'[y]
  }

  lemma LoadBlock(m: seq<byte>, p: int, i: nat)
    requires Area(|m|, p, 16 * i + 16)
    ensures Inside(|m|, p + 16 * i) && Load(m, p + 16 * i) == BlockAt(m, p, i)
  {
  }

  // ----- what a call stores

  /** A block of a call whose blocks do not disturb each other, from the memory before the call. */
  function Expected(E: Cipher, m: seq<byte>, s: Setup, b: nat): Block
    requires InsideAt(|m|, s, 0) && InsideAt(|m|, s, b)
  {
    var block := if s.counter then Bump(Load(m, In(s, 0)), b) else Load(m, In(s, b));
    Mix(s.xorOutput, m, Xors(s, b), E(Mix(s.xorInput, m, Xors(s, b), block)))
  }

  lemma SafeBlock(E: Cipher, m: seq<byte>, s: Setup, n: nat, b: nat)
    requires Advancing(s) && Fits(|m|, s, n) && Safe(s, n) && b < n
    ensures InsideAt(|m|, s, 0) && InsideAt(|m|, s, b)
    ensures Load(Run(E, m, s, 0, n), Out(s, b)) == Expected(E, m, s, b)
  {
    FitsAt(|m|, s, 0, n);
    FitsAt(|m|, s, b, n);
    SafeAsOne(s, n);
    AdvancingProper(s);
    hide *;
    GroupIsRun(E, m, s, 0, n);
    LaneExpected(E, m, s, n, b);
    LaneStored(E, m, s, n, b);
  }

  lemma AdvancingProper(s: Setup)
    requires Advancing(s)
    ensures Proper(s)
  {
  }

  /** The whole call as one group. */
  lemma SafeAsOne(s: Setup, n: nat)
    requires Safe(s, n)
    ensures GroupSafe(s, 0, n)
  {
    hide LaneSafe, Safe;
    forall j: nat | 0 <= j < 0 + n ensures LaneSafe(s, 0, j, n) { SafeLane(s, 0, j, n, n); }
  }

  lemma LaneStored(E: Cipher, m: seq<byte>, s: Setup, n: nat, b: nat)
    requires Advancing(s) && Fits(|m|, s, n) && b < n && InsideAt(|m|, s, 0) && InsideAt(|m|, s, b)
    ensures Load(Group(E, m, s, 0, n), Out(s, b)) == Lane(E, m, s, 0, b, n)
  {
    hide At, Group, Lane, Load, Fits;
    var r := Group(E, m, s, 0, n);
    var l := Lane(E, m, s, 0, b, n);
    forall w: nat | w < 16 ensures Load(r, Out(s, b))[w] == l[w] {
      GroupAt(E, m, s, 0, b, n, w);
      LoadAt(r, Out(s, b), w);
    }
  }

  lemma LoadAt(m: seq<byte>, p: int, w: nat)
    requires Inside(|m|, p) && w < 16
    ensures Load(m, p)[w] == m[p + w]
  {
  }

  lemma LaneExpected(E: Cipher, m: seq<byte>, s: Setup, n: nat, b: nat)
    requires Advancing(s) && InsideAt(|m|, s, 0) && InsideAt(|m|, s, b) && Safe(s, n) && b < n
    ensures Lane(E, m, s, 0, b, n) == Expected(E, m, s, b)
  {
    assert CounterKept(s, b, false);
    hide Load, XorPrefix, At, Bump, Increment, Safe;
    if s.counter {
      CounterAt(s, 0);
      CounterAt(s, b);
    }
    if s.counter && UsesXor(s) {
      CountElsewhere(m, s, 0, n, 0, Xors(s, b));
      CountNothing(m, s);
    }
  }

  lemma CountNothing(m: seq<byte>, s: Setup)
    requires Inside(|m|, In(s, 0))
    ensures Count(m, s, 0, 0) == m
  {
  }

  /** A byte no block is stored over. */
  lemma SafeByte(E: Cipher, m: seq<byte>, s: Setup, n: nat, y: nat)
    requires Advancing(s) && Fits(|m|, s, n) && y < |m| && forall b: nat :: b < n ==> !HoldsByte(Out(s, b), y)
    ensures Run(E, m, s, 0, n)[y] == if IsCounterByte(s, y) then Increment(m[y], n) else m[y]
  {
    hide Out, Increment, Run, Fits;
    RunKept(E, m, s, 0, n, y);
  }

  /** Everything a call reads and writes is memory. */
  predicate CallFits(size: nat, flags: Flags, hasXor: bool, inBlocks: int, xorBlocks: int, outBlocks: int,
                     length: nat)
  {
    && length % 16 == 0 && Area(size, outBlocks, length) && (hasXor ==> Area(size, xorBlocks, length))
    && if flags.inBlockIsCounter then Area(size, CounterStart(flags, inBlocks, length), 16)
       else Area(size, inBlocks, length)
  }

  /** A counter is where the blocks of the call start. */
  function CounterStart(flags: Flags, inBlocks: int, length: nat): int {
    if flags.reverse then inBlocks + (length - 16) else inBlocks
  }

  /** Block i of the areas of a call is the j-th that is processed. */
  function Turn(flags: Flags, length: nat, i: nat): nat
    requires 16 * i + 16 <= length
  {
    if flags.reverse then length / 16 - 1 - i else i
  }

  lemma Addresses(flags: Flags, hasXor: bool, inBlocks: int, xorBlocks: int, outBlocks: int, length: nat, i: nat)
    requires !flags.dontIncrement && length % 16 == 0 && 16 * i + 16 <= length
    ensures var s := SetupFor(flags, hasXor, inBlocks, xorBlocks, outBlocks, length);
            var j := Turn(flags, length, i);
            && j < length / 16 && Out(s, j) == outBlocks + 16 * i && (hasXor ==> Xors(s, j) == xorBlocks + 16 * i)
            && In(s, j) == if flags.inBlockIsCounter then CounterStart(flags, inBlocks, length) else inBlocks + 16 * i
  {
    var s := SetupFor(flags, hasXor, inBlocks, xorBlocks, outBlocks, length);
    var j := Turn(flags, length, i);
    AddressOf(s.inStart, j);
    AddressOf(s.xorStart, j);
    AddressOf(s.outStart, j);
  }

  lemma CallInside(size: nat, flags: Flags, hasXor: bool, inBlocks: int, xorBlocks: int, outBlocks: int, length: nat)
    requires !flags.dontIncrement && CallFits(size, flags, hasXor, inBlocks, xorBlocks, outBlocks, length)
    ensures Fits(size, SetupFor(flags, hasXor, inBlocks, xorBlocks, outBlocks, length), length / 16)
  {
    hide In, Out, Xors;
    var s := SetupFor(flags, hasXor, inBlocks, xorBlocks, outBlocks, length);
    forall j: nat | j < length / 16 ensures InsideAt(size, s, j) {
      var i := if flags.reverse then length / 16 - 1 - j else j;
      Addresses(flags, hasXor, inBlocks, xorBlocks, outBlocks, length, i);
    }
  }

  /** What a call is to put in block i: the cipher of the input block or of the counter, with the XOR block combined
      before or after it. */
  function Result(E: Cipher, m: seq<byte>, flags: Flags, hasXor: bool, inBlocks: int, xorBlocks: int, outBlocks: int,
                  length: nat, i: nat): Block
    requires CallFits(|m|, flags, hasXor, inBlocks, xorBlocks, outBlocks, length) && 16 * i + 16 <= length
  {
    var input := if flags.inBlockIsCounter then CounterPlus(BlockAt(m, CounterStart(flags, inBlocks, length), 0),
                                                            Turn(flags, length, i))
                 else BlockAt(m, inBlocks, i);
    if !hasXor then E(input)
    else if flags.xorInput then E(XorPrefix(input, BlockAt(m, xorBlocks, i)))
    else XorPrefix(E(input), BlockAt(m, xorBlocks, i))
  }

  /** The last byte counts; there is no carry. */
  function CounterPlus(c: Block, k: nat): Block { c[..15] + [PlusByte(c[15], k)] }

  function PlusByte(x: byte, k: nat): byte { (x + k) % 256 }

  /** The memory after a call whose blocks do not disturb each other, block by block. */
  lemma CallBlock(E: Cipher, m: seq<byte>, flags: Flags, hasXor: bool, inBlocks: int, xorBlocks: int, outBlocks: int,
                  length: nat, i: nat)
    requires !flags.dontIncrement && CallFits(|m|, flags, hasXor, inBlocks, xorBlocks, outBlocks, length)
    requires Safe(SetupFor(flags, hasXor, inBlocks, xorBlocks, outBlocks, length), length / 16) && 16 * i + 16 <= length
    ensures var s := SetupFor(flags, hasXor, inBlocks, xorBlocks, outBlocks, length);
            && Fits(|m|, s, length / 16)
            && BlockAt(Run(E, m, s, 0, length / 16), outBlocks, i)
            == Result(E, m, flags, hasXor, inBlocks, xorBlocks, outBlocks, length, i)
  {
    var s := SetupFor(flags, hasXor, inBlocks, xorBlocks, outBlocks, length);
    var j, n := Turn(flags, length, i), length / 16;
    CallInside(|m|, flags, hasXor, inBlocks, xorBlocks, outBlocks, length);
    SetupAdvances(flags, hasXor, inBlocks, xorBlocks, outBlocks, length);
    Addresses(flags, hasXor, inBlocks, xorBlocks, outBlocks, length, i);
    OutInside(|m|, flags, hasXor, inBlocks, xorBlocks, outBlocks, length, i);
    hide *;
    SafeBlock(E, m, s, n, j);
    LoadBlock(Run(E, m, s, 0, n), outBlocks, i);
    ExpectedIsResult(E, m, flags, hasXor, inBlocks, xorBlocks, outBlocks, length, i);
  }

  lemma OutInside(size: nat, flags: Flags, hasXor: bool, inBlocks: int, xorBlocks: int, outBlocks: int, length: nat,
                  i: nat)
    requires CallFits(size, flags, hasXor, inBlocks, xorBlocks, outBlocks, length) && 16 * i + 16 <= length
    ensures Area(size, outBlocks, 16 * i + 16)
  {
  }

  lemma ExpectedIsResult(E: Cipher, m: seq<byte>, flags: Flags, hasXor: bool, inBlocks: int, xorBlocks: int,
                         outBlocks: int, length: nat, i: nat)
    requires !flags.dontIncrement && CallFits(|m|, flags, hasXor, inBlocks, xorBlocks, outBlocks, length)
    requires 16 * i + 16 <= length
    requires var s := SetupFor(flags, hasXor, inBlocks, xorBlocks, outBlocks, length);
             InsideAt(|m|, s, 0) && InsideAt(|m|, s, Turn(flags, length, i))
    ensures var s := SetupFor(flags, hasXor, inBlocks, xorBlocks, outBlocks, length);
            Expected(E, m, s, Turn(flags, length, i))
            == Result(E, m, flags, hasXor, inBlocks, xorBlocks, outBlocks, length, i)
  {
    var s := SetupFor(flags, hasXor, inBlocks, xorBlocks, outBlocks, length);
    Addresses(flags, hasXor, inBlocks, xorBlocks, outBlocks, length, i);
    SetupParts(flags, hasXor, inBlocks, xorBlocks, outBlocks, length);
    if hasXor { LoadBlock(m, xorBlocks, i); }
    if flags.inBlockIsCounter {
      CounterFirst(flags, hasXor, inBlocks, xorBlocks, outBlocks, length);
      LoadBlock(m, CounterStart(flags, inBlocks, length), 0);
      BumpIsPlus(Load(m, In(s, 0)), Turn(flags, length, i));
    } else {
      LoadBlock(m, inBlocks, i);
    }
    hide In, Out, Xors, XorPrefix, Load, BlockAt, SetupFor, Turn, CounterStart, Bump, CounterPlus, Area;
  }

  lemma BumpIsPlus(c: Block, k: nat)
    ensures Bump(c, k) == CounterPlus(c, k)
  {
  }

  lemma SetupParts(flags: Flags, hasXor: bool, inBlocks: int, xorBlocks: int, outBlocks: int, length: nat)
    ensures var s := SetupFor(flags, hasXor, inBlocks, xorBlocks, outBlocks, length);
            && s.counter == flags.inBlockIsCounter && s.xorInput == (hasXor && flags.xorInput)
            && s.xorOutput == (hasXor && !flags.xorInput)
            && (s.counter ==> CounterByte(s) == CounterStart(flags, inBlocks, length) + 15)
  {
  }

  lemma CounterFirst(flags: Flags, hasXor: bool, inBlocks: int, xorBlocks: int, outBlocks: int, length: nat)
    requires flags.inBlockIsCounter
    ensures In(SetupFor(flags, hasXor, inBlocks, xorBlocks, outBlocks, length), 0)
         == CounterStart(flags, inBlocks, length)
  {
  }

  /** And its other bytes. */
  lemma CallByte(E: Cipher, m: seq<byte>, flags: Flags, hasXor: bool, inBlocks: int, xorBlocks: int, outBlocks: int,
                 length: nat, y: nat)
    requires !flags.dontIncrement && CallFits(|m|, flags, hasXor, inBlocks, xorBlocks, outBlocks, length)
    requires y < |m| && !(outBlocks <= y < outBlocks + length)
    ensures var s := SetupFor(flags, hasXor, inBlocks, xorBlocks, outBlocks, length);
            && Fits(|m|, s, length / 16)
            && Run(E, m, s, 0, length / 16)[y]
            == if flags.inBlockIsCounter && y == CounterStart(flags, inBlocks, length) + 15
               then PlusByte(m[y], length / 16) else m[y]
  {
    var s := SetupFor(flags, hasXor, inBlocks, xorBlocks, outBlocks, length);
    CallInside(|m|, flags, hasXor, inBlocks, xorBlocks, outBlocks, length);
    SetupAdvances(flags, hasXor, inBlocks, xorBlocks, outBlocks, length);
    CountedByte(flags, hasXor, inBlocks, xorBlocks, outBlocks, length, m[y], y);
    assert length % 16 == 0;
    hide *;
    forall b: nat | b < length / 16 ensures !HoldsByte(Out(s, b), y) {
      NotOwned(flags, hasXor, inBlocks, xorBlocks, outBlocks, length, b, y);
    }
    SafeByte(E, m, s, length / 16, y);
  }

  lemma CountedByte(flags: Flags, hasXor: bool, inBlocks: int, xorBlocks: int, outBlocks: int, length: nat,
                    x: byte, y: int)
    ensures var s := SetupFor(flags, hasXor, inBlocks, xorBlocks, outBlocks, length);
            IsCounterByte(s, y) <==> flags.inBlockIsCounter && y == CounterStart(flags, inBlocks, length) + 15
    ensures Increment(x, length / 16) == PlusByte(x, length / 16)
  {
  }

  lemma NotOwned(flags: Flags, hasXor: bool, inBlocks: int, xorBlocks: int, outBlocks: int, length: nat, b: nat, y: int)
    requires !flags.dontIncrement && length % 16 == 0 && b < length / 16 && !(outBlocks <= y < outBlocks + length)
    ensures !HoldsByte(Out(SetupFor(flags, hasXor, inBlocks, xorBlocks, outBlocks, length), b), y)
  {
    var i := if flags.reverse then length / 16 - 1 - b else b;
    Addresses(flags, hasXor, inBlocks, xorBlocks, outBlocks, length, i);
    hide Out, SetupFor;
  }

  /** Safe groups change nothing. */
  lemma DriverIsRun(E: Cipher, m: seq<byte>, s: Setup, n: nat, parallel: bool)
    requires Fits(|m|, s, n) && Proper(s) && GroupsSafe(s, 0, n)
    ensures Driver(E, m, s, n, parallel) == Run(E, m, s, 0, n)
  {
    hide Schedule, Run, GroupsSafe, Fits;
    DriverParts(E, m, s, n, parallel);
    ScheduleIsRun(E, m, s, 0, n);
  }

  /** A call with safe groups, with or without groups, in either direction. */
  method SafeCall(func2: Wide, func6: Wide, ghost E: Cipher, mem: array<byte>, inBlocks: int, hasXor: bool,
                  xorBlocks: int, outBlocks: int, length: nat, flags: Flags)
    requires LaneWise(func2, E, 2) && LaneWise(func6, E, 6) && !flags.dontIncrement
    requires CallFits(mem.Length, flags, hasXor, inBlocks, xorBlocks, outBlocks, length)
    requires Safe(SetupFor(flags, hasXor, inBlocks, xorBlocks, outBlocks, length), length / 16)
    modifies mem
    ensures forall i: nat :: 16 * i + 16 <= length ==>
              BlockAt(mem[..], outBlocks, i)
              == Result(E, old(mem[..]), flags, hasXor, inBlocks, xorBlocks, outBlocks, length, i)
    ensures forall y: nat :: y < mem.Length && !(outBlocks <= y < outBlocks + length) ==>
              mem[y] == if flags.inBlockIsCounter && y == CounterStart(flags, inBlocks, length) + 15
                        then PlusByte(old(mem[y]), length / 16) else old(mem[y])
  {
    hide *;
    ghost var m, s := mem[..], SetupFor(flags, hasXor, inBlocks, xorBlocks, outBlocks, length);
    CallInside(mem.Length, flags, hasXor, inBlocks, xorBlocks, outBlocks, length);
    SetupProper(flags, hasXor, inBlocks, xorBlocks, outBlocks, length);
    SafeCallGroups(s, length / 16);
    DriverIsRun(E, m, s, length / 16, flags.allowParallel);
    var left := AdvancedProcessBlocks(func2, func6, E, mem, inBlocks, hasXor, xorBlocks, outBlocks, length, flags);
    AreaOf(mem.Length, flags, hasXor, inBlocks, xorBlocks, outBlocks, length);
    forall i: nat | 16 * i + 16 <= length
      ensures BlockAt(mem[..], outBlocks, i)
           == Result(E, m, flags, hasXor, inBlocks, xorBlocks, outBlocks, length, i)
    {
      CallBlock(E, m, flags, hasXor, inBlocks, xorBlocks, outBlocks, length, i);
    }
    forall y: nat | y < mem.Length && !(outBlocks <= y < outBlocks + length)
      ensures mem[y] == if flags.inBlockIsCounter && y == CounterStart(flags, inBlocks, length) + 15
                        then PlusByte(m[y], length / 16) else m[y]
    {
      CallByte(E, m, flags, hasXor, inBlocks, xorBlocks, outBlocks, length, y);
      assert mem[y] == mem[..][y];
    }
  }

  lemma SafeCallGroups(s: Setup, n: nat)
    requires Safe(s, n)
    ensures GroupsSafe(s, 0, n)
  {
    SafeGroups(s, 0, n);
  }

  lemma AreaOf(size: nat, flags: Flags, hasXor: bool, inBlocks: int, xorBlocks: int, outBlocks: int, length: nat)
    requires CallFits(size, flags, hasXor, inBlocks, xorBlocks, outBlocks, length)
    ensures forall i: nat :: 16 * i + 16 <= length ==> Area(size, outBlocks, 16 * i + 16)
  {
  }

  // ----- electronic codebook

  /** `ECB_OneWay::ProcessData` */
  method Ecb(func2: Wide, func6: Wide, ghost E: Cipher, mem: array<byte>, outString: int, inString: int, length: nat)
    requires LaneWise(func2, E, 2) && LaneWise(func6, E, 6) && length % 16 == 0
    requires Area(mem.Length, inString, length) && Area(mem.Length, outString, length)
    requires inString == outString || Separate(inString, outString, length)
    modifies mem
    ensures forall i: nat :: 16 * i + 16 <= length ==>
              BlockAt(mem[..], outString, i) == E(BlockAt(old(mem[..]), inString, i))
    ensures Elsewhere(old(mem[..]), mem[..], outString, length)
  {
    hide Safe, GroupsSafe, SetupFor, LaneWise, BlockAt;
    var flags := Flags(false, false, false, false, true);
    SafeWhen(flags, false, inString, 0, outString, length);
    SafeCall(func2, func6, E, mem, inString, false, 0, outString, length, flags);
  }

  // ----- counter mode

  /** `IncrementCounterByOne` on `size` bytes */
  method IncrementCounterByOne(mem: array<byte>, p: nat, size0: nat)
    requires p + size0 <= mem.Length
    modifies mem
    ensures mem[p..p + size0] == AddCounter(old(mem[p..p + size0]), 1)
    ensures forall y :: 0 <= y < mem.Length && !(p <= y < p + size0) ==> mem[y] == old(mem[y])
  {
    hide AddCounter, PlusByte, Counting;
    var carry, size := true, size0;
    ghost var was := mem[..][p..p + size0];
    CountingStarts(mem[..], p, size0);
    while carry && size != 0
      invariant 0 <= size <= size0 && Counting(mem[..], p, size, was, carry)
      invariant forall y :: 0 <= y < mem.Length && !(p <= y < p + size0) ==> mem[y] == old(mem[y])
      decreases size
    {
      ghost var m := mem[..];
      CountingStep(m, p, size, was);
      mem[p + size - 1] := PlusByte(mem[p + size - 1], 1);
      assert mem[..] == m[p + size - 1 := PlusByte(m[p + size - 1], 1)];
      carry := mem[p + size - 1] == 0;
      size := size - 1;
    }
    CountingEnds(mem[..], p, size, was, carry);
  }

  /** The bytes from `size` on are counted, and those before it wait for the carry. */
  ghost predicate Counting(m: seq<byte>, p: nat, size: nat, was: seq<byte>, carry: bool)
    requires size <= |was| && p + |was| <= |m|
  {
    && m[p..p + size] == was[..size]
    && AddCounter(was, 1)
       == (if carry then AddCounter(was[..size], 1) else was[..size]) + m[p + size..p + |was|]
  }

  lemma CountingStarts(m: seq<byte>, p: nat, size0: nat)
    requires p + size0 <= |m|
    ensures Counting(m, p, size0, m[p..p + size0], true)
  {
    var was := m[p..p + size0];
    assert was[..size0] == was;
  }

  lemma CountingStep(m: seq<byte>, p: nat, size: nat, was: seq<byte>)
    requires 0 < size <= |was| && p + |was| <= |m| && Counting(m, p, size, was, true)
    ensures var x := PlusByte(m[p + size - 1], 1); Counting(m[p + size - 1 := x], p, size - 1, was, x == 0)
  {
    hide AddCounter, PlusByte;
    var x := PlusByte(m[p + size - 1], 1);
    IncrementLast(was[..size - 1], m[p + size - 1]);
    ByteStored(m, p, size, |was|, x, was);
  }

  lemma CountingEnds(m: seq<byte>, p: nat, size: nat, was: seq<byte>, carry: bool)
    requires size <= |was| && p + |was| <= |m| && Counting(m, p, size, was, carry) && (!carry || size == 0)
    ensures m[p..p + |was|] == AddCounter(was, 1)
  {
    if size == 0 { NoCounter(); }
    assert m[p..p + |was|] == m[p..p + size] + m[p + size..p + |was|];
  }

  /** The last byte, and the carry out of it. */
  lemma IncrementLast(front: seq<byte>, x: byte)
    ensures AddCounter(front + [x], 1)
         == (if PlusByte(x, 1) == 0 then AddCounter(front, 1) else front) + [PlusByte(x, 1)]
  {
    hide AddCounter;
    AddCounterLast(front, x, 1);
    AddNothing(front);
  }

  /** The parts of a buffer around the byte that is stored last. */
  lemma ByteStored(m: seq<byte>, p: nat, size: nat, size0: nat, x: byte, was: seq<byte>)
    requires 0 < size <= size0 == |was| && p + size0 <= |m| && m[p..p + size] == was[..size]
    ensures was[..size] == was[..size - 1] + [m[p + size - 1]]
    ensures var m' := m[p + size - 1 := x];
            m'[p..p + size - 1] == was[..size - 1] && m'[p + size - 1..p + size0] == [x] + m[p + size..p + size0]
  {
    assert m[p..p + size][size - 1] == m[p + size - 1];
    var m' := m[p + size - 1 := x];
    assert m'[p..p + size - 1] == m[p..p + size][..size - 1];
    assert m'[p + size..p + size0] == m[p + size..p + size0];
  }

  lemma NoCounter()
    ensures AddCounter([], 1) == []
  {
  }

  lemma {:induction false} AddCounterTwice(s: seq<byte>, a: nat, b: nat)
    ensures AddCounter(AddCounter(s, a), b) == AddCounter(s, a + b)
    decreases |s|
  {
    if s != [] {
      var k := |s| - 1;
      var front, x := s[..k], s[k];
      assert s == front + [x];
      AddCounterLast(front, x, a);
      AddCounterLast(front, x, a + b);
      AddCounterLast(AddCounter(front, (x + a) / 256), (x + a) % 256, b);
      Carry(x + a, b);
      AddCounterTwice(front, (x + a) / 256, ((x + a) % 256 + b) / 256);
    }
  }

  /** The counter as a number. */
  lemma {:induction false} CounterValue(s: seq<byte>, n: nat)
    ensures Value(AddCounter(s, n)) == (Value(s) + n) % Pow256(|s|)
    decreases |s|
  {
    if s == [] {
      EmptySum(n);
    } else {
      var k := |s| - 1;
      var front, x := s[..k], s[k];
      CounterValue(front, (x + n) / 256);
      var t := AddCounter(front, (x + n) / 256);
      assert (t + [(x + n) % 256])[..k] == t;
      DigitMod(Value(front), x + n, Pow256(k));
    }
  }

  lemma EmptySum(n: nat)
    ensures (0 + n) % Pow256(0) == 0
  {
  }

  lemma DigitMod(v: nat, y: nat, m: nat)
    requires m > 0
    ensures 256 * ((v + y / 256) % m) + y % 256 == (256 * v + y) % (256 * m)
  {
    var q, r := (v + y / 256) / m, (v + y / 256) % m;
    assert v + y / 256 == q * m + r;
    assert 256 * v + y == q * (256 * m) + (256 * r + y % 256);
    EuclidUnique(256 * v + y, 256 * m, q, 256 * r + y % 256);
  }

  /** Up to the end of the last byte there is no carry. */
  lemma NoCarry(c: Block, k: nat)
    requires c[15] + k < 256
    ensures CounterPlus(c, k) == AddCounter(c, k)
  {
    assert c == c[..15] + [c[15]];
    AddCounterLast(c[..15], c[15], k);
    AddNothing(c[..15]);
  }

  /** At its end the other fifteen count. */
  lemma CarryOver(c: Block, k: nat)
    requires c[15] + k == 256
    ensures AddCounter(c, k) == AddCounter(c[..15], 1) + [0]
  {
    assert c == c[..15] + [c[15]];
    AddCounterLast(c[..15], c[15], k);
  }

  /** What counter mode puts in block i. */
  function CtrBlock(E: Cipher, c: Block, m: seq<byte>, hasInput: bool, input: int, i: nat): Block
    requires hasInput ==> Area(|m|, input, 16 * i + 16)
  {
    var stream := E(AddCounter(c, i));
    if hasInput then XorPrefix(stream, BlockAt(m, input, i)) else stream
  }

  /** The areas of a call of counter mode. */
  predicate CtrFits(size: nat, ctr: int, hasInput: bool, input: int, output: int, length: nat) {
    && Area(size, ctr, 16) && Area(size, output, length) && (ctr + 16 <= output || output + length <= ctr)
    && (hasInput ==> Area(size, input, length) && (ctr + 16 <= input || input + length <= ctr)
                     && (input == output || Separate(input, output, length)))
  }

  /** Some blocks before the last byte of the counter comes to its end. */
  method CtrRun(func2: Wide, func6: Wide, ghost E: Cipher, mem: array<byte>, ctr: int, hasInput: bool, input: int,
                output: int, blocks: nat)
    requires LaneWise(func2, E, 2) && LaneWise(func6, E, 6)
    requires CtrFits(mem.Length, ctr, hasInput, input, output, 16 * blocks) && mem[ctr + 15] + blocks <= 256
    modifies mem
    ensures var m := old(mem[..]);
            forall i: nat :: i < blocks ==>
              BlockAt(mem[..], output, i) == CtrBlock(E, BlockAt(m, ctr, 0), m, hasInput, input, i)
    ensures forall y: nat :: y < mem.Length && !(output <= y < output + 16 * blocks) && y != ctr + 15 ==>
              mem[y] == old(mem[y])
  {
    hide Safe, GroupsSafe, SetupFor, LaneWise, BlockAt, AddCounter, CounterPlus, XorPrefix, PlusByte;
    var flags := Flags(true, false, false, false, true);
    ghost var c := BlockAt(mem[..], ctr, 0);
    CounterLast(mem[..], ctr);
    SafeWhen(flags, hasInput, ctr, input, output, 16 * blocks);
    SafeCall(func2, func6, E, mem, ctr, hasInput, input, output, 16 * blocks, flags);
    forall i: nat | i < blocks
      ensures BlockAt(mem[..], output, i) == CtrBlock(E, c, old(mem[..]), hasInput, input, i)
    {
      NoCarry(c, i);
      assert 16 * i + 16 <= 16 * blocks;
    }
  }

  lemma CounterLast(m: seq<byte>, ctr: int)
    requires Area(|m|, ctr, 16)
    ensures BlockAt(m, ctr, 0)[15] == m[ctr + 15] && BlockAt(m, ctr, 0) == m[ctr..ctr + 16]
  {
  }

  /** `CTR_ModePolicy::OperateKeystream`, a block at a time counted over all sixteen bytes */
  method OperateKeystream(func2: Wide, func6: Wide, ghost E: Cipher, mem: array<byte>, ctr: int, hasInput: bool,
                          input: int, output: int, count: nat)
    requires LaneWise(func2, E, 2) && LaneWise(func6, E, 6)
    requires CtrFits(mem.Length, ctr, hasInput, input, output, 16 * count)
    modifies mem
    ensures var m := old(mem[..]); var c := BlockAt(m, ctr, 0);
            && (forall i: nat :: i < count ==> BlockAt(mem[..], output, i) == CtrBlock(E, c, m, hasInput, input, i))
            && BlockAt(mem[..], ctr, 0) == AddCounter(c, count)
    ensures forall y: nat :: y < mem.Length && !(output <= y < output + 16 * count) && !(ctr <= y < ctr + 16) ==>
              mem[y] == old(mem[y])
  {
    hide LaneWise, BlockAt, AddCounter, CtrBlock;
    ghost var m := mem[..];
    ghost var c := BlockAt(m, ctr, 0);
    AddNothing(c);
    var k := 0;
    while k < count
      invariant 0 <= k <= count && BlockAt(mem[..], ctr, 0) == AddCounter(c, k)
      invariant forall i: nat :: i < k ==> BlockAt(mem[..], output, i) == CtrBlock(E, c, m, hasInput, input, i)
      invariant forall y: nat :: y < mem.Length && !(output <= y < output + 16 * k) && !(ctr <= y < ctr + 16) ==>
                  mem[y] == m[y]
    {
      var blocks := CtrStep(func2, func6, E, mem, ctr, hasInput, input, output, count, k, m, c);
      k := k + blocks;
    }
  }

  lemma KeptBlock(m: seq<byte>, m': seq<byte>, p: int, i: nat)
    requires |m| == |m'| && Area(|m|, p, 16 * i + 16) && forall y :: p + 16 * i <= y < p + 16 * i + 16 ==> m[y] == m'[y]
    ensures BlockAt(m, p, i) == BlockAt(m', p, i)
  {
    var l, r := BlockAt(m, p, i), BlockAt(m', p, i);
    forall w | 0 <= w < 16 ensures l[w] == r[w] { assert l[w] == m[p + 16 * i + w] && r[w] == m'[p + 16 * i + w]; }
  }

  lemma ShiftBlock(m: seq<byte>, p: int, k: nat, j: nat)
    requires Area(|m|, p, 16 * (k + j) + 16)
    ensures Area(|m|, p + 16 * k, 16 * j + 16) && BlockAt(m, p + 16 * k, j) == BlockAt(m, p, k + j)
  {
  }

  /** The stream from block k on. */
  lemma StreamShift(E: Cipher, c: Block, m: seq<byte>, before: seq<byte>, hasInput: bool, input: int, k: nat, j: nat)
    requires |m| == |before|
    requires hasInput ==> Area(|m|, input, 16 * (k + j) + 16)
                          && forall y :: input + 16 * (k + j) <= y < input + 16 * (k + j) + 16 ==> m[y] == before[y]
    ensures hasInput ==> Area(|m|, input + 16 * k, 16 * j + 16)
    ensures CtrBlock(E, AddCounter(c, k), before, hasInput, if hasInput then input + 16 * k else 0, j)
         == CtrBlock(E, c, m, hasInput, input, k + j)
  {
    hide AddCounter, XorPrefix, BlockAt;
    AddCounterTwice(c, k, j);
    if hasInput {
      ShiftBlock(before, input, k, j);
      KeptBlock(m, before, input, k + j);
    }
  }

  /** The counter after a call: its last byte, and the others when that comes round. */
  method AdvanceCounter(mem: array<byte>, ctr: int, lsb: nat, blocks: nat, ghost before: seq<byte>)
    requires |before| == mem.Length && Area(mem.Length, ctr, 16) && lsb == before[ctr + 15]
    requires 0 < blocks && lsb + blocks <= 256
    requires forall y :: ctr <= y < ctr + 15 ==> mem[y] == before[y]
    modifies mem
    ensures BlockAt(mem[..], ctr, 0) == AddCounter(BlockAt(before, ctr, 0), blocks)
    ensures forall y :: 0 <= y < mem.Length && !(ctr <= y < ctr + 16) ==> mem[y] == old(mem[y])
  {
    hide AddCounter, BlockAt, PlusByte, CounterPlus;
    ghost var c := BlockAt(before, ctr, 0);
    CounterLast(before, ctr);
    mem[ctr + 15] := (lsb + blocks) % 256;
    assert mem[ctr..ctr + 15] == c[..15];
    if mem[ctr + 15] == 0 {
      IncrementCounterByOne(mem, ctr, 15);
      CarryOver(c, blocks);
      assert mem[ctr..ctr + 16] == mem[ctr..ctr + 15] + [mem[ctr + 15]];
    } else {
      NoCarry(c, blocks);
      PlusLast(c, blocks);
      assert mem[ctr..ctr + 16] == mem[ctr..ctr + 15] + [mem[ctr + 15]];
    }
    CounterLast(mem[..], ctr);
    assert mem[..][ctr..ctr + 16] == mem[ctr..ctr + 16];
  }

  lemma PlusLast(c: Block, k: nat)
    requires c[15] + k < 256
    ensures CounterPlus(c, k) == c[..15] + [c[15] + k]
  {
  }

  /** One round of its loop. */
  method CtrStep(func2: Wide, func6: Wide, ghost E: Cipher, mem: array<byte>, ctr: int, hasInput: bool, input: int,
                 output: int, count: nat, k: nat, ghost m: seq<byte>, ghost c: Block) returns (blocks: nat)
    requires LaneWise(func2, E, 2) && LaneWise(func6, E, 6) && k < count && |m| == mem.Length
    requires CtrFits(mem.Length, ctr, hasInput, input, output, 16 * count)
    requires BlockAt(mem[..], ctr, 0) == AddCounter(c, k)
    requires forall i: nat :: i < k ==> BlockAt(mem[..], output, i) == CtrBlock(E, c, m, hasInput, input, i)
    requires forall y: nat :: y < mem.Length && !(output <= y < output + 16 * k) && !(ctr <= y < ctr + 16) ==>
               mem[y] == m[y]
    modifies mem
    ensures 0 < blocks && k + blocks <= count && BlockAt(mem[..], ctr, 0) == AddCounter(c, k + blocks)
    ensures forall i: nat :: i < k + blocks ==> BlockAt(mem[..], output, i) == CtrBlock(E, c, m, hasInput, input, i)
    ensures forall y: nat ::
              y < mem.Length && !(output <= y < output + 16 * (k + blocks)) && !(ctr <= y < ctr + 16) ==> mem[y] == m[y]
  {
    hide LaneWise, BlockAt, AddCounter, CtrBlock, XorPrefix;
    ghost var before := mem[..];
    CounterLast(before, ctr);
    var lsb: nat := mem[ctr + 15];
    blocks := if count - k < 256 - lsb then count - k else 256 - lsb;
    CtrRun(func2, func6, E, mem, ctr, hasInput, if hasInput then input + 16 * k else 0, output + 16 * k, blocks);
    ghost var after := mem[..];
    AdvanceCounter(mem, ctr, lsb, blocks, before);
    AddCounterTwice(c, k, blocks);
    forall i: nat | i < k + blocks ensures BlockAt(mem[..], output, i) == CtrBlock(E, c, m, hasInput, input, i) {
      if i < k {
        KeptBlock(before, after, output, i);
        KeptBlock(after, mem[..], output, i);
      } else {
        KeptBlock(after, mem[..], output, i);
        ShiftBlock(after, output, k, i - k);
        StreamShift(E, c, m, before, hasInput, input, k, i - k);
      }
    }
  }

  /** `CTR_ModePolicy::SeekToIteration` */
  method SeekToIteration(register: Block, iterationCount: nat) returns (counter: Block)
    ensures counter == AddCounter(register, iterationCount)
  {
    hide AddCounter;
    var done: seq<byte>, carry: nat, left: nat, i := [], 0, iterationCount, 16;
    assert register[..16] == register;
    while i > 0
      invariant 0 <= i <= 16 && |done| == 16 - i
      invariant AddCounter(register, iterationCount) == AddCounter(register[..i], left + carry) + done
    {
      i := i - 1;
      var sum: nat := register[i] + left % 256 + carry;
      assert register[..i + 1] == register[..i] + [register[i]];
      AddCounterLast(register[..i], register[i], left + carry);
      ByteSum(register[i], left, carry);
      done := [sum % 256] + done;
      carry := sum / 256;
      left := left / 256;
    }
    NoneLeft(register[..0], left + carry);
    counter := done;
  }

  lemma ByteSum(x: nat, left: nat, carry: nat)
    ensures var sum := x + left % 256 + carry;
            (x + (left + carry)) / 256 == left / 256 + sum / 256 && (x + (left + carry)) % 256 == sum % 256
  {
  }

  lemma NoneLeft(s: seq<byte>, n: nat)
    requires s == []
    ensures forall t: seq<byte> :: AddCounter(s, n) + t == t
  {
  }

  // ----- cipher block chaining

  lemma {:induction false} XorPrefixTwice(a: Block, b: Block)
    ensures XorPrefix(XorPrefix(a, b), b) == a
  {
    hide Xor;
    forall i | 0 <= i < 16 ensures XorPrefix(XorPrefix(a, b), b)[i] == a[i] { XorCancel(a[i], b[i]); }
  }

  /** The areas of a call: the register away from the data, which are in place or apart. */
  predicate CbcFits(size: nat, register: int, outString: int, inString: int, length: nat) {
    && length % 16 == 0 && Area(size, register, 16) && Area(size, inString, length) && Area(size, outString, length)
    && (inString == outString || Separate(inString, outString, length))
    && (register + 16 <= inString || inString + length <= register)
    && (register + 16 <= outString || outString + length <= register)
  }

  /** The ciphertext block before block i, the first being preceded by the register. */
  function Previous(m: seq<byte>, register: int, c: seq<byte>, p: int, i: nat): Block
    requires |m| == |c| && Area(|m|, register, 16) && Area(|m|, p, 16 * i)
  {
    if i == 0 then BlockAt(m, register, 0) else BlockAt(c, p, i - 1)
  }

  ghost predicate OnlyThese(m: seq<byte>, m': seq<byte>, register: int, outString: int, length: nat)
    requires |m| == |m'|
  {
    forall y :: 0 <= y < |m| && !(outString <= y < outString + length || register <= y < register + 16) ==>
      m[y] == m'[y]
  }

  /** Each block is the deciphered block combined with the ciphertext before it. */
  ghost predicate CbcDecrypted(D: Cipher, m: seq<byte>, m': seq<byte>, register: int, outString: int, inString: int,
                               length: nat)
    requires |m| == |m'| && CbcFits(|m|, register, outString, inString, length)
  {
    forall i: nat :: 16 * i + 16 <= length ==>
      BlockAt(m', outString, i) == XorPrefix(D(BlockAt(m, inString, i)), Previous(m, register, m, inString, i))
  }

  /** Each block is the plaintext combined with the ciphertext before it, enciphered. */
  ghost predicate CbcEncrypted(E: Cipher, m: seq<byte>, m': seq<byte>, register: int, outString: int, inString: int,
                               length: nat)
    requires |m| == |m'| && CbcFits(|m|, register, outString, inString, length)
  {
    forall i: nat :: 16 * i + 16 <= length ==>
      BlockAt(m', outString, i)
      == E(XorPrefix(BlockAt(m, inString, i), Previous(m, register, m', outString, i)))
  }

  /** `memcpy` of one block */
  method CopyBlock(mem: array<byte>, to: int, b: Block)
    requires Area(mem.Length, to, 16)
    modifies mem
    ensures BlockAt(mem[..], to, 0) == b && Elsewhere(old(mem[..]), mem[..], to, 16)
  {
    hide Store;
    ghost var m := mem[..];
    StoreBlock(mem, to, b);
    forall y | 0 <= y < mem.Length ensures mem[..][y] == if to <= y < to + 16 then b[y - to] else m[y] {
      StoreAt(m, to, b, y);
    }
  }

  /** A block outside the area that was written. */
  lemma BlockElsewhere(m: seq<byte>, m': seq<byte>, p: int, length: nat, q: int, i: nat)
    requires |m| == |m'| && Elsewhere(m, m', p, length) && Area(|m|, q, 16 * i + 16)
    requires q + 16 * i + 16 <= p || p + length <= q + 16 * i
    ensures BlockAt(m, q, i) == BlockAt(m', q, i)
  {
    KeptBlock(m, m', q, i);
  }

  /** What is left of a call's writes after the block and the register that follow. */
  lemma OnlyThree(m: seq<byte>, m1: seq<byte>, m2: seq<byte>, r: seq<byte>, register: int, outString: int, length: nat)
    requires |m| == |m1| == |m2| == |r| && length >= 16
    requires (Elsewhere(m, m1, outString + 16, length - 16) && Elsewhere(m1, m2, outString, 16))
             || (Elsewhere(m, m1, outString, 16) && Elsewhere(m1, m2, outString + 16, length - 16))
    requires Elsewhere(m2, r, register, 16)
    ensures OnlyThese(m, r, register, outString, length)
  {
  }

  /** A block read from the array. */
  method ReadBlock(mem: array<byte>, p: int) returns (b: Block)
    requires Area(mem.Length, p, 16)
    ensures b == BlockAt(mem[..], p, 0)
  {
    b := mem[p..p + 16];
  }

  /** The last block of an area. */
  lemma LastBlock(length: nat)
    requires length % 16 == 0 && length > 0
    ensures 16 * (length / 16 - 1) + 16 == length && 16 * (length / 16) == length
  {
  }

  /** `CBC_Decryption::ProcessData`: the blocks but the first from the end, then the first; the last block of the
      input is saved before it may be written over. */
  method CbcDecrypt(func2: Wide, func6: Wide, D: Cipher, mem: array<byte>, register: int, outString: int, inString: int,
                    length: nat)
    requires LaneWise(func2, D, 2) && LaneWise(func6, D, 6)
    requires CbcFits(mem.Length, register, outString, inString, length)
    modifies mem
    ensures CbcDecrypted(D, old(mem[..]), mem[..], register, outString, inString, length)
    ensures BlockAt(mem[..], register, 0) == Previous(old(mem[..]), register, old(mem[..]), inString, length / 16)
    ensures OnlyThese(old(mem[..]), mem[..], register, outString, length)
  {
    hide LaneWise, XorPrefix, Elsewhere, BlockAt, CbcDecrypted, OnlyThese;
    if length == 0 {
      CbcNone(D, mem[..], register, outString, inString);
      return;
    }
    LastBlock(length);
    ghost var m := mem[..];
    var temp := ReadBlock(mem, inString + length - 16);
    StartBlock(m, inString, length / 16 - 1);
    DecryptRest(func2, func6, D, mem, outString, inString, length);
    ghost var m1 := mem[..];
    BlockElsewhere(m, m1, outString + 16, length - 16, inString, 0);
    BlockElsewhere(m, m1, outString + 16, length - 16, register, 0);
    var first := ReadBlock(mem, inString);
    var before := ReadBlock(mem, register);
    CopyBlock(mem, outString, XorPrefix(D(first), before));
    ghost var m2 := mem[..];
    CopyBlock(mem, register, temp);
    OnlyThree(m, m1, m2, mem[..], register, outString, length);
    CbcJoin(D, m, m1, m2, mem[..], register, outString, inString, length);
  }

  lemma CbcNone(D: Cipher, m: seq<byte>, register: int, outString: int, inString: int)
    requires CbcFits(|m|, register, outString, inString, 0)
    ensures CbcDecrypted(D, m, m, register, outString, inString, 0) && OnlyThese(m, m, register, outString, 0)
    ensures CbcEncrypted(D, m, m, register, outString, inString, 0)
  {
  }

  lemma StartBlock(m: seq<byte>, p: int, i: nat)
    requires Area(|m|, p, 16 * i + 16)
    ensures BlockAt(m, p + 16 * i, 0) == BlockAt(m, p, i)
  {
  }

  /** The parts of deciphering: all blocks but the first, the first, and the register. */
  lemma CbcJoin(D: Cipher, m: seq<byte>, m1: seq<byte>, m2: seq<byte>, r: seq<byte>, register: int, outString: int,
                inString: int, length: nat)
    requires |m| == |m1| == |m2| == |r| && CbcFits(|m|, register, outString, inString, length)
    requires forall i: nat :: 0 < i && 16 * i + 16 <= length ==>
               BlockAt(m1, outString, i) == XorPrefix(D(BlockAt(m, inString, i)), BlockAt(m, inString, i - 1))
    requires length > 0 ==> BlockAt(m2, outString, 0) == XorPrefix(D(BlockAt(m, inString, 0)), BlockAt(m, register, 0))
    requires Elsewhere(m1, m2, outString, 16) && Elsewhere(m2, r, register, 16)
    ensures CbcDecrypted(D, m, r, register, outString, inString, length)
  {
    hide XorPrefix, BlockAt, Elsewhere;
    forall i: nat | 16 * i + 16 <= length
      ensures BlockAt(r, outString, i) == XorPrefix(D(BlockAt(m, inString, i)), Previous(m, register, m, inString, i))
    {
      BlockElsewhere(m2, r, register, 16, outString, i);
      if i > 0 { BlockElsewhere(m1, m2, outString, 16, outString, i); }
    }
  }

  /** The call for all blocks but the first. */
  method DecryptRest(func2: Wide, func6: Wide, ghost D: Cipher, mem: array<byte>, outString: int, inString: int,
                     length: nat)
    requires LaneWise(func2, D, 2) && LaneWise(func6, D, 6) && length % 16 == 0 && length > 0
    requires Area(mem.Length, inString, length) && Area(mem.Length, outString, length)
    requires inString == outString || Separate(inString, outString, length)
    modifies mem
    ensures var m := old(mem[..]);
            forall i: nat :: 0 < i && 16 * i + 16 <= length ==>
              BlockAt(mem[..], outString, i)
              == XorPrefix(D(BlockAt(m, inString, i)), BlockAt(m, inString, i - 1))
    ensures Elsewhere(old(mem[..]), mem[..], outString + 16, length - 16)
  {
    hide LaneWise, XorPrefix, Safe, GroupsSafe, SetupFor, BlockAt;
    ghost var m := mem[..];
    if length > 16 {
      var flags := Flags(false, false, false, true, true);
      if inString == outString {
        SafeBackwards(inString + 16, length - 16);
      } else {
        SafeWhen(flags, true, inString + 16, inString, outString + 16, length - 16);
      }
      SafeCall(func2, func6, D, mem, inString + 16, true, inString, outString + 16, length - 16, flags);
    }
    forall i: nat | 0 < i && 16 * i + 16 <= length
      ensures BlockAt(mem[..], outString, i)
           == XorPrefix(D(BlockAt(m, inString, i)), BlockAt(m, inString, i - 1))
    {
      ShiftBlock(mem[..], outString, 1, i - 1);
      ShiftBlock(m, inString, 1, i - 1);
    }
  }

  // ----- chaining in the forward direction

  /** The block a call without groups leaves in place b: what its round stored. */
  lemma FinalBlock(E: Cipher, m: seq<byte>, s: Setup, n: nat, b: nat)
    requires Advancing(s) && !s.counter && Fits(|m|, s, n) && b < n
    ensures Fits(|m|, s, b) && InsideAt(|m|, s, b)
    ensures Load(Run(E, m, s, 0, n), Out(s, b)) == Single(E, R(E, m, s, b), s, b)
  {
    FitsAt(|m|, s, b, n);
    FitsPrefix(|m|, s, b, n);
    FitsPrefix(|m|, s, b + 1, n);
    hide At, Run, Single, Load, Fits;
    var r, block := R(E, m, s, n), Single(E, R(E, m, s, b), s, b);
    forall w: nat | w < 16 ensures Load(r, Out(s, b))[w] == block[w] {
      LoadAt(r, Out(s, b), w);
      KeptAfter(E, m, s, b, n, Out(s, b) + w);
      NextR(E, m, s, b, Out(s, b) + w);
    }
  }

  /** A block that is not written between two rounds. */
  lemma SameLoad(E: Cipher, m: seq<byte>, s: Setup, i: nat, j: nat, p: int)
    requires Advancing(s) && !s.counter && i <= j && Fits(|m|, s, j) && Inside(|m|, p)
    requires forall t: nat :: i <= t < j ==> Apart(Out(s, t), p)
    ensures Fits(|m|, s, i) && Load(R(E, m, s, j), p) == Load(R(E, m, s, i), p)
  {
    FitsPrefix(|m|, s, i, j);
    hide At, R, Load, Fits;
    var l, r := R(E, m, s, j), R(E, m, s, i);
    forall w: nat | w < 16 ensures Load(l, p)[w] == Load(r, p)[w] {
      LoadAt(l, p, w);
      LoadAt(r, p, w);
      Kept(E, m, s, i, j, p + w);
    }
  }

  /** A round that enciphers its input combined with the output before it. */
  ghost predicate Chained(s: Setup, n: nat, inBlocks: int, outBlocks: int) {
    && Advancing(s) && !s.counter && s.xorInput && !s.xorOutput
    && forall t: nat :: t < n ==> Out(s, t) == outBlocks + 16 + 16 * t && Xors(s, t) == outBlocks + 16 * t
                                  && In(s, t) == inBlocks + 16 * t
  }

  lemma ChainedRound(E: Cipher, m: seq<byte>, s: Setup, n: nat, inBlocks: int, outBlocks: int, i: nat)
    requires Chained(s, n, inBlocks, outBlocks) && i < n && Fits(|m|, s, n)
    requires Area(|m|, inBlocks, 16 * n) && Area(|m|, outBlocks, 16 * n + 16)
    requires inBlocks == outBlocks + 16 || Separate(inBlocks, outBlocks + 16, 16 * n)
    ensures var r := Run(E, m, s, 0, n);
            BlockAt(r, outBlocks, i + 1) == E(XorPrefix(BlockAt(m, inBlocks, i), BlockAt(r, outBlocks, i)))
  {
    hide Run, Load, Fits, In, Out, Xors, Advancing, XorPrefix, BlockAt;
    var r := Run(E, m, s, 0, n);
    FitsPrefix(|m|, s, i, n);
    FitsPrefix(|m|, s, 0, n);
    FitsAt(|m|, s, i, n);
    FinalBlock(E, m, s, n, i);
    SameLoad(E, m, s, 0, i, In(s, i));
    SameLoad(E, m, s, i, n, Xors(s, i));
    FirstR(E, m, s);
    LoadBlock(r, outBlocks, i + 1);
    LoadBlock(r, outBlocks, i);
    LoadBlock(m, inBlocks, i);
  }

  /** The call whose XOR blocks are its own output, one block back. */
  lemma ChainedBlock(E: Cipher, m: seq<byte>, inBlocks: int, outBlocks: int, length: nat, i: nat)
    requires length % 16 == 0 && 16 * i + 16 <= length
    requires Area(|m|, inBlocks, length) && Area(|m|, outBlocks, length + 16)
    requires inBlocks == outBlocks + 16 || Separate(inBlocks, outBlocks + 16, length)
    ensures var flags := Flags(false, false, true, false, false);
            var s := SetupFor(flags, true, inBlocks, outBlocks, outBlocks + 16, length);
            && Fits(|m|, s, length / 16)
            && var r := Run(E, m, s, 0, length / 16);
               BlockAt(r, outBlocks, i + 1) == E(XorPrefix(BlockAt(m, inBlocks, i), BlockAt(r, outBlocks, i)))
  {
    hide Run, Fits, In, Out, Xors, Advancing, XorPrefix, BlockAt, SetupFor;
    var flags := Flags(false, false, true, false, false);
    var s := SetupFor(flags, true, inBlocks, outBlocks, outBlocks + 16, length);
    var n := length / 16;
    LastBlock(length);
    CallInside(|m|, flags, true, inBlocks, outBlocks, outBlocks + 16, length);
    SetupAdvances(flags, true, inBlocks, outBlocks, outBlocks + 16, length);
    SetupParts(flags, true, inBlocks, outBlocks, outBlocks + 16, length);
    forall t: nat | t < n ensures Out(s, t) == outBlocks + 16 + 16 * t && Xors(s, t) == outBlocks + 16 * t
                                  && In(s, t) == inBlocks + 16 * t {
      Addresses(flags, true, inBlocks, outBlocks, outBlocks + 16, length, t);
    }
    ChainedRound(E, m, s, n, inBlocks, outBlocks, i);
  }

  /** `CBC_Encryption::ProcessData`: the first block with the register, the others with the output before them. */
  method CbcEncrypt(func2: Wide, func6: Wide, ghost E: Cipher, mem: array<byte>, register: int, outString: int,
                    inString: int, length: nat)
    requires LaneWise(func2, E, 2) && LaneWise(func6, E, 6)
    requires CbcFits(mem.Length, register, outString, inString, length)
    modifies mem
    ensures CbcEncrypted(E, old(mem[..]), mem[..], register, outString, inString, length)
    ensures BlockAt(mem[..], register, 0) == Previous(old(mem[..]), register, mem[..], outString, length / 16)
    ensures OnlyThese(old(mem[..]), mem[..], register, outString, length)
  {
    hide LaneWise, XorPrefix, Elsewhere, BlockAt, CbcEncrypted, OnlyThese;
    if length == 0 {
      CbcNone(E, mem[..], register, outString, inString);
      return;
    }
    LastBlock(length);
    ghost var m := mem[..];
    EncryptFirst(func2, func6, E, mem, register, outString, inString);
    ghost var m1 := mem[..];
    EncryptRest(func2, func6, E, mem, outString, inString, length);
    ghost var m2 := mem[..];
    var last := ReadBlock(mem, outString + length - 16);
    StartBlock(m2, outString, length / 16 - 1);
    CopyBlock(mem, register, last);
    BlockElsewhere(m2, mem[..], register, 16, outString, length / 16 - 1);
    OnlyThree(m, m1, m2, mem[..], register, outString, length);
    CbcChain(E, m, m1, m2, mem[..], register, outString, inString, length);
  }

  lemma ChainKept(m: seq<byte>, m1: seq<byte>, m2: seq<byte>, r: seq<byte>, register: int, outString: int,
                  inString: int, length: nat, i: nat)
    requires |m| == |m1| == |m2| == |r| && CbcFits(|m|, register, outString, inString, length) && 16 * i + 16 <= length
    requires Elsewhere(m, m1, outString, 16) && Elsewhere(m1, m2, outString + 16, length - 16)
    requires Elsewhere(m2, r, register, 16)
    ensures BlockAt(r, outString, i) == BlockAt(m2, outString, i)
    ensures i == 0 ==> BlockAt(m2, outString, 0) == BlockAt(m1, outString, 0)
    ensures i > 0 ==> BlockAt(r, outString, i - 1) == BlockAt(m2, outString, i - 1)
    ensures i > 0 ==> BlockAt(m, inString, i) == BlockAt(m1, inString, i)
  {
    hide BlockAt, Elsewhere;
    BlockElsewhere(m2, r, register, 16, outString, i);
    if i == 0 {
      BlockElsewhere(m1, m2, outString + 16, length - 16, outString, 0);
    } else {
      BlockElsewhere(m2, r, register, 16, outString, i - 1);
      BlockElsewhere(m, m1, outString, 16, inString, i);
    }
  }

  /** The parts of enciphering: the first block, the others and the register. */
  lemma CbcChain(E: Cipher, m: seq<byte>, m1: seq<byte>, m2: seq<byte>, r: seq<byte>, register: int, outString: int,
                 inString: int, length: nat)
    requires |m| == |m1| == |m2| == |r| && CbcFits(|m|, register, outString, inString, length) && length > 0
    requires BlockAt(m1, outString, 0) == E(XorPrefix(BlockAt(m, inString, 0), BlockAt(m, register, 0)))
    requires forall i: nat :: 0 < i && 16 * i + 16 <= length ==>
               BlockAt(m2, outString, i) == E(XorPrefix(BlockAt(m1, inString, i), BlockAt(m2, outString, i - 1)))
    requires Elsewhere(m, m1, outString, 16) && Elsewhere(m1, m2, outString + 16, length - 16)
    requires Elsewhere(m2, r, register, 16)
    ensures CbcEncrypted(E, m, r, register, outString, inString, length)
  {
    hide XorPrefix, BlockAt, Elsewhere, Separate;
    forall i: nat | 16 * i + 16 <= length
      ensures BlockAt(r, outString, i) == E(XorPrefix(BlockAt(m, inString, i), Previous(m, register, r, outString, i)))
    {
      if i == 0 {
        ChainKept(m, m1, m2, r, register, outString, inString, length, 0);
      } else {
        ChainKept(m, m1, m2, r, register, outString, inString, length, i);
        assert BlockAt(m2, outString, i) == E(XorPrefix(BlockAt(m1, inString, i), BlockAt(m2, outString, i - 1)));
      }
    }
  }

  method EncryptFirst(func2: Wide, func6: Wide, ghost E: Cipher, mem: array<byte>, register: int, outString: int,
                      inString: int)
    requires LaneWise(func2, E, 2) && LaneWise(func6, E, 6) && CbcFits(mem.Length, register, outString, inString, 16)
    modifies mem
    ensures var m := old(mem[..]);
            BlockAt(mem[..], outString, 0) == E(XorPrefix(BlockAt(m, inString, 0), BlockAt(m, register, 0)))
    ensures Elsewhere(old(mem[..]), mem[..], outString, 16)
  {
    hide LaneWise, XorPrefix, Safe, GroupsSafe, SetupFor, BlockAt;
    var flags := Flags(false, false, true, false, false);
    SafeWhen(flags, true, inString, register, outString, 16);
    SafeCall(func2, func6, E, mem, inString, true, register, outString, 16, flags);
  }

  method EncryptRest(func2: Wide, func6: Wide, ghost E: Cipher, mem: array<byte>, outString: int, inString: int,
                     length: nat)
    requires LaneWise(func2, E, 2) && LaneWise(func6, E, 6) && length % 16 == 0 && length > 0
    requires Area(mem.Length, inString, length) && Area(mem.Length, outString, length)
    requires inString == outString || Separate(inString, outString, length)
    modifies mem
    ensures var m := old(mem[..]);
            forall i: nat :: 0 < i && 16 * i + 16 <= length ==>
              BlockAt(mem[..], outString, i)
              == E(XorPrefix(BlockAt(m, inString, i), BlockAt(mem[..], outString, i - 1)))
    ensures Elsewhere(old(mem[..]), mem[..], outString + 16, length - 16)
  {
    hide LaneWise, XorPrefix, SetupFor, Fits, Run, Driver, BlockAt, CallFits, Elsewhere;
    ghost var m := mem[..];
    if length > 16 {
      var flags := Flags(false, false, true, false, false);
      ghost var s := SetupFor(flags, true, inString + 16, outString, outString + 16, length - 16);
      RestFits(mem.Length, outString, inString, length);
      CallInside(mem.Length, flags, true, inString + 16, outString, outString + 16, length - 16);
      DriverParts(E, m, s, (length - 16) / 16, false);
      var left := AdvancedProcessBlocks(func2, func6, E, mem, inString + 16, true, outString, outString + 16,
                                        length - 16, flags);
      forall i: nat | 0 < i && 16 * i + 16 <= length
        ensures BlockAt(mem[..], outString, i)
             == E(XorPrefix(BlockAt(m, inString, i), BlockAt(mem[..], outString, i - 1)))
      {
        BlockInside(mem.Length, inString, length, i);
        BlockInside(mem.Length, outString, length, i);
        ChainedBlock(E, m, inString + 16, outString, length - 16, i - 1);
        ShiftBlock(m, inString, 1, i - 1);
      }
      forall y: nat | y < mem.Length && !(outString + 16 <= y < outString + 16 + (length - 16))
        ensures mem[..][y] == m[y]
      {
        CallByte(E, m, flags, true, inString + 16, outString, outString + 16, length - 16, y);
      }
    }
    ElsewhereIs(m, mem[..], outString + 16, length - 16);
  }

  lemma RestFits(size: nat, outString: int, inString: int, length: nat)
    requires length % 16 == 0 && length > 16 && Area(size, inString, length) && Area(size, outString, length)
    requires inString == outString || Separate(inString, outString, length)
    ensures CallFits(size, Flags(false, false, true, false, false), true, inString + 16, outString, outString + 16,
                     length - 16)
    ensures Area(size, inString + 16, length - 16) && Area(size, outString, length - 16 + 16)
    ensures inString + 16 == outString + 16 || Separate(inString + 16, outString + 16, length - 16)
    ensures (length - 16) % 16 == 0
  {
  }

  lemma BlockInside(size: nat, p: int, length: nat, i: nat)
    requires Area(size, p, length) && 16 * i + 16 <= length && i > 0
    ensures Area(size, p, 16 * i + 16) && Area(size, p, 16 * (i - 1) + 16) && Area(size, p + 16, 16 * (i - 1) + 16)
  {
  }

  lemma ElsewhereIs(m: seq<byte>, m': seq<byte>, p: int, length: nat)
    requires |m| == |m'| && forall y :: 0 <= y < |m| && !(p <= y < p + length) ==> m'[y] == m[y]
    ensures Elsewhere(m, m', p, length)
  {
  }

  /** An area is its blocks. */
  lemma SameArea(m: seq<byte>, m': seq<byte>, p: int, length: nat)
    requires |m| == |m'| && Area(|m|, p, length) && length % 16 == 0
    requires forall i: nat :: 16 * i + 16 <= length ==> BlockAt(m, p, i) == BlockAt(m', p, i)
    ensures m[p..p + length] == m'[p..p + length]
  {
    var l, r := m[p..p + length], m'[p..p + length];
    forall w | 0 <= w < length ensures l[w] == r[w] {
      var i := w / 16;
      assert 16 * i + 16 <= length;
      assert BlockAt(m, p, i)[w - 16 * i] == m[p + w] && BlockAt(m', p, i)[w - 16 * i] == m'[p + w];
    }
  }

  /** One block of a message that was enciphered and then deciphered in place. */
  lemma CbcBack(E: Cipher, D: Cipher, m: seq<byte>, c: seq<byte>, r: seq<byte>, sending: int, receiving: int, data: int,
                length: nat, i: nat)
    requires |m| == |c| == |r| && 16 * i + 16 <= length
    requires CbcFits(|m|, sending, data, data, length) && CbcFits(|m|, receiving, data, data, length)
    requires CbcEncrypted(E, m, c, sending, data, data, length) && CbcDecrypted(D, c, r, receiving, data, data, length)
    requires BlockAt(m, sending, 0) == BlockAt(c, receiving, 0) && forall x: Block :: D(E(x)) == x
    ensures BlockAt(r, data, i) == BlockAt(m, data, i)
  {
    hide BlockAt, XorPrefix, Separate;
    var prev := Previous(c, receiving, c, data, i);
    var block := BlockAt(m, data, i);
    assert prev == Previous(m, sending, c, data, i);
    assert BlockAt(c, data, i) == E(XorPrefix(block, prev));
    assert BlockAt(r, data, i) == XorPrefix(D(BlockAt(c, data, i)), prev);
    XorPrefixTwice(block, prev);
  }

  /** A message sent and received in place: deciphering restores it, and both registers hold its last
      ciphertext block. */
  method CbcRoundTrip(e2: Wide, e6: Wide, ghost E: Cipher, d2: Wide, d6: Wide, D: Cipher, mem: array<byte>,
                      sending: int, receiving: int, data: int, length: nat)
    requires LaneWise(e2, E, 2) && LaneWise(e6, E, 6) && LaneWise(d2, D, 2) && LaneWise(d6, D, 6)
    requires CbcFits(mem.Length, sending, data, data, length) && CbcFits(mem.Length, receiving, data, data, length)
    requires Separate(sending, receiving, 16) && BlockAt(mem[..], sending, 0) == BlockAt(mem[..], receiving, 0)
    requires forall x: Block :: D(E(x)) == x
    modifies mem
    ensures mem[data..data + length] == old(mem[data..data + length])
    ensures BlockAt(mem[..], sending, 0) == BlockAt(mem[..], receiving, 0)
  {
    hide LaneWise, XorPrefix;
    ghost var m := mem[..];
    CbcEncrypt(e2, e6, E, mem, sending, data, data, length);
    ghost var c := mem[..];
    KeptBlock(m, c, receiving, 0);
    CbcDecrypt(d2, d6, D, mem, receiving, data, data, length);
    KeptBlock(c, mem[..], sending, 0);
    forall i: nat | 16 * i + 16 <= length ensures BlockAt(mem[..], data, i) == BlockAt(m, data, i) {
      CbcBack(E, D, m, c, mem[..], sending, receiving, data, length, i);
    }
    SameArea(mem[..], m, data, length);
  }
}
