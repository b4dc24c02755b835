/** Scalar multiplication by signed sliding windows and bucket accumulation
    (`AbstractGroup::SimultaneousMultiply` and `ScalarMultiply` of algebra.cpp). */
module ScalarMultiply {
  import opened NatBits
  import opened Groups
  import opened SlidingWindow

  // ----- integer meaning of a row of buckets: bucket j counts 2j+1 times

  ghost function Weighted(b: seq<int>, j: nat): int
    decreases |b| - j
  {
    if j >= |b| then 0 else (2 * j + 1) * b[j] + Weighted(b, j + 1)
  }

  ghost function Suffix(b: seq<int>, j: nat): int
    decreases |b| - j
  {
    if j >= |b| then 0 else b[j] + Suffix(b, j + 1)
  }

  ghost function SuffixSum(b: seq<int>, j: nat): int
    decreases |b| - j
  {
    if j >= |b| then 0 else Suffix(b, j) + SuffixSum(b, j + 1)
  }

  /** The running sums of the sweep give the weights 2j+1. */
  lemma {:induction false} SweepIdentity(b: seq<int>, j: nat)
    ensures Weighted(b, j) == 2 * SuffixSum(b, j + 1) + (2 * j + 1) * Suffix(b, j)
    decreases |b| - j
  {
    if j < |b| {
      SweepIdentity(b, j + 1);
      Distribute(2 * j + 1, b[j], Suffix(b, j + 1));
    }
  }

  lemma Distribute(k: int, x: int, y: int)
    ensures k * (x + y) == k * x + k * y && (k + 2) * y == k * y + 2 * y
  {
  }

  lemma {:induction false} WeightedUpdate(b: seq<int>, j: nat, k: nat, d: int)
    requires k < |b|
    ensures Weighted(b[k := b[k] + d], j) == Weighted(b, j) + if j <= k then (2 * k + 1) * d else 0
    decreases |b| - j
  {
    if j < |b| {
      WeightedUpdate(b, j + 1, k, d);
      if j == k { Distribute(2 * k + 1, b[k], d); }
    }
  }

  lemma {:induction false} WeightedZero(b: seq<int>, j: nat)
    requires forall k :: 0 <= k < |b| ==> b[k] == 0
    ensures Weighted(b, j) == 0
    decreases |b| - j
  {
    if j < |b| { WeightedZero(b, j + 1); }
  }

  // ----- buckets of group elements

  /** Every element is the recorded multiple of the base. */
  ghost predicate Multiples<T(!new)>(g: Group<T>, base: T, bucket: seq<T>, counts: seq<int>) {
    && |counts| == |bucket|
    && forall j :: 0 <= j < |bucket| ==> bucket[j] == g.Times(counts[j], base)
  }

  /** The buckets and the digits still to come add up to the exponent. */
  ghost predicate Accounts<T(!new)>(g: Group<T>, base: T, e: nat, bucket: seq<T>, counts: seq<int>,
                                    ws: seq<Window>, last: nat)
  {
    && Multiples(g, base, bucket, counts)
    && e == Weighted(counts, 0) + Value(ws)
    && forall k :: 0 <= k < |ws| ==> ws[k].begin <= last
  }

  /** What the main loop keeps for one exponent when it is about to look at bit
      position `pos`; no window begins after `last`. */
  ghost predicate Tracks<T(!new)>(g: Group<T>, base: T, e: nat, s: WindowSlider, bucket: seq<T>, counts: seq<int>,
                                  pos: nat, last: nat)
    reads s
  {
    && s.Valid() && !s.firstTime
    && (s.finished <==> s.Windows() == [])
    && (!s.finished ==> pos <= s.windowBegin)
    && |bucket| == Pow2(s.windowSize - 1)
    && Accounts(g, base, e, bucket, counts, s.Windows(), last)
  }

  /** When no digit is left the weighted buckets are the exponent. */
  ghost predicate Complete<T(!new)>(g: Group<T>, base: T, e: nat, bucket: seq<T>, counts: seq<int>) {
    bucket != [] && Multiples(g, base, bucket, counts) && e == Weighted(counts, 0)
  }

  /** Adding 2^pos times the base, negated or not, to the bucket of the current
      window accounts for exactly that window. */
  lemma AccumulateWindow<T(!new)>(g: Group<T>, base: T, e: nat, bucket: seq<T>, counts: seq<int>,
                                  ws: seq<Window>, last: nat, window: nat, negated: bool, pos: nat)
      returns (counts': seq<int>)
    requires g.IsGroup() && Accounts(g, base, e, bucket, counts, ws, last)
    requires window % 2 == 1 && window / 2 < |bucket|
    requires ws != [] && ws[0] == Window(pos, if negated then 0 - window else window)
    ensures var power := g.Times(Pow2(pos), base);
            var bucket' := bucket[window / 2 := g.add(bucket[window / 2], if negated then g.inverse(power) else power)];
            Accounts(g, base, e, bucket', counts', ws[1..], last)
  {
    var j := window / 2;
    var d := if negated then 0 - Pow2(pos) else Pow2(pos);
    counts' := counts[j := counts[j] + d];
    WeightedUpdate(counts, 0, j, d);
    ShlMul(ws[0].digit, pos);
    assert (2 * j + 1) * d == ws[0].digit * Pow2(pos) by { SignedProduct(window, Pow2(pos)); }
    TimesNeg(g, Pow2(pos), base);
    TimesAdd(g, counts[j], d, base);
  }

  lemma SignedProduct(a: int, b: int)
    ensures a * (0 - b) == (0 - a) * b
  {
  }

  /** The body of the inner loop: a window that begins at this bit position is
      accumulated and replaced by its successor. */
  method Step<T(!new)>(g: Group<T>, ghost base: T, ghost e: nat, power: T, pos: nat,
                       s: WindowSlider, bucket: seq<T>, ghost counts: seq<int>, ghost last: nat)
      returns (bucket': seq<T>, ghost counts': seq<int>)
    requires g.IsGroup() && power == g.Times(Pow2(pos), base)
    requires Tracks(g, base, e, s, bucket, counts, pos, last)
    modifies s
    ensures Tracks(g, base, e, s, bucket', counts', pos + 1, last)
  {
    bucket', counts' := bucket, counts;
    if !s.finished && pos == s.windowBegin {
      ghost var ws := s.Windows();
      WindowIndex(s.expWindow, s.windowSize);
      counts' := AccumulateWindow(g, base, e, bucket, counts, ws, last, s.expWindow, s.negateNext, pos);
      var j := s.expWindow / 2;
      bucket' := bucket[j := g.add(bucket[j], if s.negateNext then g.inverse(power) else power)];
      assert Accounts(g, base, e, bucket', counts', ws[1..], last);
      s.FindNextWindow();
    }
  }

  /** One pass over the exponents at a fixed bit position. */
  method Scatter<T(!new)>(g: Group<T>, ghost base: T, ghost exps: seq<nat>, power: T, pos: nat,
                          sliders: seq<WindowSlider>, buckets: seq<seq<T>>, ghost counts: seq<seq<int>>,
                          ghost last: nat)
      returns (notDone: bool, buckets': seq<seq<T>>, ghost counts': seq<seq<int>>)
    requires g.IsGroup() && power == g.Times(Pow2(pos), base)
    requires AllTrack(g, base, exps, sliders, buckets, counts, pos, last)
    modifies sliders
    ensures AllTrack(g, base, exps, sliders, buckets', counts', pos + 1, last)
    ensures notDone <==> exists i :: 0 <= i < |sliders| && !sliders[i].finished
  {
    hide Tracks, Group.IsGroup;
    notDone, buckets', counts' := false, buckets, counts;
    for i := 0 to |sliders|
      invariant |buckets'| == |counts'| == |sliders|
      invariant forall k :: 0 <= k < |sliders| ==>
                  Tracks(g, base, exps[k], sliders[k], buckets'[k], counts'[k], if k < i then pos + 1 else pos, last)
      invariant notDone <==> exists k :: 0 <= k < i && !sliders[k].finished
    {
      var s := sliders[i];
      var b;
      ghost var c;
      b, c := Step(g, base, exps[i], power, pos, s, buckets'[i], counts'[i], last);
      buckets', counts' := buckets'[i := b], counts'[i := c];
      notDone := notDone || !s.finished;
    }
  }

  /** The bucket index of an odd window is in range. */
  lemma WindowIndex(window: nat, w: nat)
    requires w >= 1 && window < Pow2(w)
    ensures window / 2 < Pow2(w - 1)
  {
  }

  /** The sweep over one row of buckets: two running sums give every bucket its
      weight. */
  method Sweep<T(!new)>(g: Group<T>, ghost base: T, ghost e: nat, buckets: seq<T>, ghost counts: seq<int>)
      returns (r: T)
    requires g.IsGroup() && Complete(g, base, e, buckets, counts)
    ensures r == g.Times(e, base)
  {
    hide Group.Times, Group.IsGroup;
    var bucket := buckets;
    var n := |bucket|;
    r := bucket[n - 1];
    SweepIdentity(counts, 0);
    if n > 1 {
      var j := n - 2;
      assert Suffix(counts, n - 1) == counts[n - 1];
      while j >= 1
        invariant 0 <= j <= n - 2 && |bucket| == n
        invariant forall k :: 0 <= k <= j ==> bucket[k] == g.Times(counts[k], base)
        invariant bucket[j + 1] == g.Times(Suffix(counts, j + 1), base)
        invariant r == g.Times(SuffixSum(counts, j + 1), base)
      {
        TimesAdd(g, counts[j], Suffix(counts, j + 1), base);
        bucket := bucket[j := g.add(bucket[j], bucket[j + 1])];
        TimesAdd(g, SuffixSum(counts, j + 1), Suffix(counts, j), base);
        r := g.add(r, bucket[j]);
        j := j - 1;
      }
      TimesAdd(g, counts[0], Suffix(counts, 1), base);
      bucket := bucket[0 := g.add(bucket[0], bucket[1])];
      TimesDouble(g, SuffixSum(counts, 1), base);
      TimesAdd(g, 2 * SuffixSum(counts, 1), Suffix(counts, 0), base);
      r := g.add(g.Double(r), bucket[0]);
    }
  }

  /** A fresh row of empty buckets for one exponent. */
  method Prepare<T(!new)>(g: Group<T>, ghost base: T, e: nat)
      returns (s: WindowSlider, bucket: seq<T>, ghost counts: seq<int>, ghost last: nat)
    requires g.IsGroup()
    ensures fresh(s) && Tracks(g, base, e, s, bucket, counts, 0, last)
  {
    s := new WindowSlider(e, g.inversionIsFast, 0);
    RecodeValue(e, 0, s.windowSize, g.inversionIsFast);
    s.FindNextWindow();
    var size := Pow2(s.windowSize - 1);
    bucket, counts := seq(size, k => g.identity), seq(size, k => 0);
    WeightedZero(counts, 0);
    last := LastBegin(s.Windows());
  }

  lemma TracksLater<T(!new)>(g: Group<T>, base: T, e: nat, s: WindowSlider, bucket: seq<T>, counts: seq<int>,
                             pos: nat, last: nat, last': nat)
    requires Tracks(g, base, e, s, bucket, counts, pos, last) && last <= last'
    ensures Tracks(g, base, e, s, bucket, counts, pos, last')
  {
  }

  /** The state of the whole computation at one bit position. */
  ghost predicate AllTrack<T(!new)>(g: Group<T>, base: T, exps: seq<nat>, sliders: seq<WindowSlider>,
                                    buckets: seq<seq<T>>, counts: seq<seq<int>>, pos: nat, last: nat)
    reads sliders
  {
    && |exps| == |sliders| == |buckets| == |counts|
    && (forall i, j :: 0 <= i < j < |sliders| ==> sliders[i] != sliders[j])
    && (forall i :: 0 <= i < |sliders| ==> Tracks(g, base, exps[i], sliders[i], buckets[i], counts[i], pos, last))
  }

  /** The first loop: a slider and a row of buckets for every exponent. */
  method PrepareAll<T(!new)>(g: Group<T>, ghost base: T, exps: seq<nat>)
      returns (sliders: seq<WindowSlider>, buckets: seq<seq<T>>, ghost counts: seq<seq<int>>, ghost last: nat)
    requires g.IsGroup()
    ensures fresh(sliders) && AllTrack(g, base, exps, sliders, buckets, counts, 0, last)
  {
    hide Tracks, Group.IsGroup;
    sliders, buckets, counts, last := [], [], [], 0;
    for i := 0 to |exps|
      invariant |sliders| == |buckets| == |counts| == i
      invariant fresh(sliders)
      invariant forall j, k :: 0 <= j < k < i ==> sliders[j] != sliders[k]
      invariant forall j :: 0 <= j < i ==> Tracks(g, base, exps[j], sliders[j], buckets[j], counts[j], 0, last)
    {
      var s, bucket;
      ghost var c, l;
      s, bucket, c, l := Prepare(g, base, exps[i]);
      ghost var own := l;
      l := if l > last then l else last;
      TracksLater(g, base, exps[i], s, bucket, c, 0, own, l);
      forall j | 0 <= j < i ensures Tracks(g, base, exps[j], sliders[j], buckets[j], counts[j], 0, l) {
        TracksLater(g, base, exps[j], sliders[j], buckets[j], counts[j], 0, last, l);
      }
      sliders, buckets, counts, last := sliders + [s], buckets + [bucket], counts + [c], l;
    }
  }

  /** The second loop: doubling until every slider has run out of windows. */
  method ScatterAll<T(!new)>(g: Group<T>, base: T, ghost exps: seq<nat>,
                             sliders: seq<WindowSlider>, buckets: seq<seq<T>>, ghost counts: seq<seq<int>>,
                             ghost last: nat)
      returns (buckets': seq<seq<T>>, ghost counts': seq<seq<int>>)
    requires g.IsGroup() && AllTrack(g, base, exps, sliders, buckets, counts, 0, last)
    modifies sliders
    ensures |buckets'| == |counts'| == |exps|
    ensures forall i :: 0 <= i < |exps| ==> Complete(g, base, exps[i], buckets'[i], counts'[i])
  {
    buckets', counts' := buckets, counts;
    var expBitPosition := 0;
    var power := base;
    TimesOne(g, base);
    var notDone := true;
    ghost var end := 0;
    while notDone
      invariant AllTrack(g, base, exps, sliders, buckets', counts', end, last)
      invariant power == g.Times(Pow2(expBitPosition), base)
      invariant notDone ==> end == expBitPosition <= last
      invariant !notDone ==> forall i :: 0 <= i < |sliders| ==> sliders[i].finished
      decreases notDone, last - expBitPosition
    {
      notDone, buckets', counts' := Scatter(g, base, exps, power, expBitPosition, sliders, buckets', counts', last);
      end := end + 1;
      if notDone {
        ghost var i :| 0 <= i < |sliders| && !sliders[i].finished;
        UnfinishedInRange(g, base, exps[i], sliders[i], buckets'[i], counts'[i], end, last);
        TimesDouble(g, Pow2(expBitPosition), base);
        power := g.Double(power);
        expBitPosition := expBitPosition + 1;
      }
    }
    forall i | 0 <= i < |exps| ensures Complete(g, base, exps[i], buckets'[i], counts'[i]) {
      assert Tracks(g, base, exps[i], sliders[i], buckets'[i], counts'[i], end, last);
    }
  }

  lemma UnfinishedInRange<T(!new)>(g: Group<T>, base: T, e: nat, s: WindowSlider, bucket: seq<T>, counts: seq<int>,
                                   pos: nat, last: nat)
    requires Tracks(g, base, e, s, bucket, counts, pos, last) && !s.finished
    ensures pos <= last
  {
    assert s.Windows()[0].begin == s.windowBegin;
  }

  /** `SimultaneousMultiply`: one doubling chain serves all exponents, and each
      result is exactly its exponent times the base. Only the group laws are used,
      not commutativity. */
  method SimultaneousMultiply<T(!new)>(g: Group<T>, base: T, exps: seq<nat>) returns (results: seq<T>)
    requires g.IsGroup()
    ensures |results| == |exps|
    ensures forall i :: 0 <= i < |exps| ==> results[i] == g.Times(exps[i], base)
  {
    hide *;
    var sliders, buckets;
    ghost var counts, last;
    sliders, buckets, counts, last := PrepareAll(g, base, exps);
    buckets, counts := ScatterAll(g, base, exps, sliders, buckets, counts, last);
    results := [];
    for i := 0 to |exps|
      invariant |results| == i
      invariant forall j :: 0 <= j < i ==> results[j] == g.Times(exps[j], base)
    {
      var r := Sweep(g, base, exps[i], buckets[i], counts[i]);
      results := results + [r];
    }
  }

  /** `ScalarMultiply` */
  method Multiply<T(!new)>(g: Group<T>, base: T, exponent: nat) returns (r: T)
    requires g.IsGroup()
    ensures r == g.Times(exponent, base)
  {
    var results := SimultaneousMultiply(g, base, [exponent]);
    r := results[0];
  }
}
