/** Two-base multiplication e1*x + e2*y with one shared doubling chain and a table
    of small combinations (`AbstractGroup::CascadeScalarMultiply` of algebra.cpp). */
module CascadeMultiply {
  import opened NatBits
  import opened Groups

  /** a*x + b*y */
  ghost function Combine<T(!new)>(g: Group<T>, x: T, y: T, a: int, b: int): T {
    g.add(g.Times(a, x), g.Times(b, y))
  }

  lemma CombineAdd<T(!new)>(g: Group<T>, x: T, y: T, a: int, b: int, c: int, d: int)
    requires g.IsAbelian()
    ensures g.add(Combine(g, x, y, a, b), Combine(g, x, y, c, d)) == Combine(g, x, y, a + c, b + d)
  {
    Interchange(g, g.Times(a, x), g.Times(b, y), g.Times(c, x), g.Times(d, y));
    TimesAdd(g, a, c, x);
    TimesAdd(g, b, d, y);
  }

  lemma CombineBasis<T(!new)>(g: Group<T>, x: T, y: T)
    requires g.IsAbelian()
    ensures Combine(g, x, y, 1, 0) == x && Combine(g, x, y, 0, 1) == y && Combine(g, x, y, 0, 0) == g.identity
  {
    TimesOne(g, x);
    TimesOne(g, y);
    assert g.HasIdentity(x) && g.HasIdentity(y) && g.HasIdentity(g.identity);
  }

  // ----- the table

  /** The place of p1*x + p2*y in a table with rows of `size` entries. */
  function Index(p1: nat, p2: nat, size: nat): nat { p2 * size + p1 }

  /** The number of entries, `tableSize << w`. */
  function Cells(size: nat): nat { size * size }

  lemma IndexInRange(p1: nat, p2: nat, size: nat)
    requires p1 < size && p2 < size
    ensures Index(p1, p2, size) < Cells(size)
  {
    MulMono(p2, size - 1, size);
    assert (size - 1) * size == size * size - size;
  }

  lemma IndexInjective(p1: nat, p2: nat, q1: nat, q2: nat, size: nat)
    requires p1 < size && q1 < size && Index(p1, p2, size) == Index(q1, q2, size)
    ensures p1 == q1 && p2 == q2
  {
    EuclidUnique(Index(p1, p2, size), size, p2, p1);
    EuclidUnique(Index(q1, q2, size), size, q2, q1);
  }

  /** Moving down d rows; the last row is the end of the table. */
  lemma IndexRows(p1: nat, p2: nat, d: nat, size: nat)
    requires p1 < size
    ensures Index(p1, p2 + d, size) == Index(p1, p2, size) + d * size
    ensures Index(p1, p2, size) < Cells(size) <==> p2 < size
  {
    assert (p2 + d) * size == p2 * size + d * size;
    if p2 < size { IndexInRange(p1, p2, size); } else { MulMono(size, p2, size); }
  }

  lemma FirstRow(p1: nat, p2: nat, size: nat)
    ensures Index(p1, 0, size) == p1 && Index(0, p2, size) == p2 * size
  {
  }

  lemma IndexColumn(p1: nat, p2: nat, size: nat)
    ensures Index(p1, p2, size) == Index(0, p2, size) + p1
  {
  }

  /** The entry for (p1, p2) has been computed. */
  ghost predicate Has<T(!new)>(g: Group<T>, x: T, y: T, table: seq<T>, size: nat, p1: nat, p2: nat) {
    && p1 < size && p2 < size && |table| == Cells(size)
    && Index(p1, p2, size) < |table|
    && table[Index(p1, p2, size)] == Combine(g, x, y, p1, p2)
  }

  /** Every entry a scan can ask for has been computed: those with an odd coordinate. */
  ghost predicate OddEntries<T(!new)>(g: Group<T>, x: T, y: T, table: seq<T>, size: nat) {
    forall p1: nat, p2: nat :: p1 < size && p2 < size && (p1 % 2 == 1 || p2 % 2 == 1) ==>
      Has(g, x, y, table, size, p1, p2)
  }

  /** A finished table for windows of w bits. */
  ghost predicate Complete<T(!new)>(g: Group<T>, x: T, y: T, table: seq<T>, w: nat) {
    |table| == Cells(Pow2(w)) && OddEntries(g, x, y, table, Pow2(w))
  }

  /** Storing the sum of two computed entries. */
  lemma Store<T(!new)>(g: Group<T>, x: T, y: T, table: seq<T>, size: nat, p1: nat, p2: nat, q1: nat, q2: nat, r: T,
                       s: T)
      returns (k: nat)
    requires g.IsAbelian() && |table| == Cells(size)
    requires p1 + q1 < size && p2 + q2 < size
    requires r == Combine(g, x, y, p1, p2) && s == Combine(g, x, y, q1, q2)
    ensures k == Index(p1 + q1, p2 + q2, size) < |table|
    ensures Has(g, x, y, table[k := g.add(r, s)], size, p1 + q1, p2 + q2)
    ensures forall a: nat, b: nat :: Has(g, x, y, table, size, a, b) ==>
              Has(g, x, y, table[k := g.add(r, s)], size, a, b)
  {
    CombineAdd(g, x, y, p1, p2, q1, q2);
    IndexInRange(p1 + q1, p2 + q2, size);
    k := Index(p1 + q1, p2 + q2, size);
    var table' := table[k := g.add(r, s)];
    forall a: nat, b: nat | Has(g, x, y, table, size, a, b) ensures Has(g, x, y, table', size, a, b) {
      if Index(a, b, size) == k { IndexInjective(a, b, p1 + q1, p2 + q2, size); }
    }
  }

  /** The table-building loops. `blank` is the default-constructed element that
      fills the table: since it is arbitrary, no result can depend on an entry
      that was not computed. */
  method FillTable<T(!new)>(g: Group<T>, x: T, y: T, blank: T, w: nat) returns (table: seq<T>)
    requires g.IsAbelian() && 1 <= w <= 3
    ensures Complete(g, x, y, table, w)
  {
    var tableSize := Pow2(w);
    assert tableSize == if w == 1 then 2 else if w == 2 then 4 else 8;
    ShlMul(tableSize, w);
    table := seq(Shl(tableSize, w), k => blank);
    table := Seed(g, x, y, table, tableSize);
    if w == 1 {
      CombineBasis(g, x, y);
      ghost var k := Store(g, x, y, table, tableSize, 1, 0, 0, 1, x, y);
      table := table[3 := g.add(x, y)];
      assert Has(g, x, y, table, tableSize, 1, 0) && Has(g, x, y, table, tableSize, 0, 1);
      assert Has(g, x, y, table, tableSize, 1, 1);
    } else {
      table := FillRows(g, x, y, table, tableSize);
      table := FillColumns(g, x, y, table, tableSize);
    }
  }

  /** The two bases themselves. */
  method Seed<T(!new)>(g: Group<T>, x: T, y: T, table0: seq<T>, tableSize: nat) returns (table: seq<T>)
    requires g.IsAbelian() && tableSize >= 2 && |table0| == Cells(tableSize)
    ensures |table| == Cells(tableSize)
    ensures Has(g, x, y, table, tableSize, 1, 0) && Has(g, x, y, table, tableSize, 0, 1)
  {
    CombineBasis(g, x, y);
    IndexInRange(0, 1, tableSize);
    assert Index(1, 0, tableSize) == 1 && Index(0, 1, tableSize) == tableSize;
    table := table0[1 := x][tableSize := y];
  }

  /** The loops that fill the entries with an odd multiple of x. */
  method FillRows<T(!new)>(g: Group<T>, x: T, y: T, table0: seq<T>, tableSize: nat) returns (table: seq<T>)
    requires g.IsAbelian() && tableSize >= 4 && tableSize % 2 == 0
    requires |table0| == Cells(tableSize)
    requires Has(g, x, y, table0, tableSize, 1, 0) && Has(g, x, y, table0, tableSize, 0, 1)
    ensures |table| == Cells(tableSize)
    ensures Has(g, x, y, table, tableSize, 0, 1) && Has(g, x, y, table, tableSize, 0, 2)
    ensures forall p1: nat, p2: nat :: p1 < tableSize && p2 < tableSize && p1 % 2 == 1 ==>
              Has(g, x, y, table, tableSize, p1, p2)
  {
    hide Combine, Group.IsAbelian, Index, Cells;
    table := FillFirstRow(g, x, y, table0, tableSize);
    var i := 1;
    while i < tableSize
      invariant i % 2 == 1 && 1 <= i <= tableSize + 1 && |table| == Cells(tableSize)
      invariant Has(g, x, y, table, tableSize, 0, 1) && Has(g, x, y, table, tableSize, 0, 2)
      invariant forall p1: nat :: p1 < tableSize && p1 % 2 == 1 ==> Has(g, x, y, table, tableSize, p1, 0)
      invariant forall p1: nat, p2: nat :: p1 < i && p2 < tableSize && p1 % 2 == 1 ==>
                Has(g, x, y, table, tableSize, p1, p2)
    {
      table := FillRow(g, x, y, table, tableSize, i);
      i := i + 2;
    }
  }

  /** The odd multiples of x, by steps of 2*x. */
  method FillFirstRow<T(!new)>(g: Group<T>, x: T, y: T, table0: seq<T>, tableSize: nat) returns (table: seq<T>)
    requires g.IsAbelian() && tableSize >= 4 && tableSize % 2 == 0
    requires |table0| == Cells(tableSize)
    requires Has(g, x, y, table0, tableSize, 1, 0) && Has(g, x, y, table0, tableSize, 0, 1)
    ensures |table| == Cells(tableSize)
    ensures Has(g, x, y, table, tableSize, 0, 1) && Has(g, x, y, table, tableSize, 0, 2)
    ensures forall p1: nat :: p1 < tableSize && p1 % 2 == 1 ==> Has(g, x, y, table, tableSize, p1, 0)
  {
    hide Combine, Group.IsAbelian, Index, Cells;
    CombineBasis(g, x, y);
    FirstRow(2, 2, tableSize);
    ghost var k := Store(g, x, y, table0, tableSize, 1, 0, 1, 0, x, x);
    table := table0[2 := g.Double(x)];
    k := Store(g, x, y, table, tableSize, 0, 1, 0, 1, y, y);
    table := table[2 * tableSize := g.Double(y)];
    var i := 3;
    while i < tableSize
      invariant i % 2 == 1 && 3 <= i <= tableSize + 1 && |table| == Cells(tableSize)
      invariant Has(g, x, y, table, tableSize, 0, 1) && Has(g, x, y, table, tableSize, 0, 2)
      invariant Has(g, x, y, table, tableSize, 2, 0)
      invariant forall p1: nat :: p1 < i && p1 % 2 == 1 ==> Has(g, x, y, table, tableSize, p1, 0)
    {
      assert Has(g, x, y, table, tableSize, i - 2, 0);
      FirstRow(i, 0, tableSize);
      FirstRow(i - 2, 0, tableSize);
      k := Store(g, x, y, table, tableSize, i - 2, 0, 2, 0, table[i - 2], table[2]);
      ghost var before := table;
      table := table[i := g.add(table[i - 2], table[2])];
      forall p1: nat | p1 < i + 2 && p1 % 2 == 1 ensures Has(g, x, y, table, tableSize, p1, 0) {
        assert p1 < i ==> Has(g, x, y, before, tableSize, p1, 0);
      }
      i := i + 2;
    }
  }

  /** The inner loop: all multiples of y added to one odd multiple of x. */
  method FillRow<T(!new)>(g: Group<T>, ghost x: T, y: T, table0: seq<T>, tableSize: nat, i: nat) returns (table: seq<T>)
    requires g.IsAbelian() && 2 <= tableSize && i < tableSize
    requires |table0| == Cells(tableSize)
    requires Has(g, x, y, table0, tableSize, i, 0)
    ensures |table| == Cells(tableSize)
    ensures forall p2: nat :: p2 < tableSize ==> Has(g, x, y, table, tableSize, i, p2)
    ensures forall a: nat, b: nat :: Has(g, x, y, table0, tableSize, a, b) ==> Has(g, x, y, table, tableSize, a, b)
  {
    hide Combine, Group.IsAbelian, Index, Cells;
    CombineBasis(g, x, y);
    table := table0;
    FirstRow(i, 0, tableSize);
    var j := i + tableSize;
    ghost var row := 1;
    IndexRows(i, 0, 1, tableSize);
    IndexRows(i, 1, 1, tableSize);
    while j < Cells(tableSize)
      invariant 1 <= row <= tableSize && j == Index(i, row, tableSize) && |table| == Cells(tableSize)
      invariant j < Cells(tableSize) <==> row < tableSize
      invariant forall p2: nat :: p2 < row ==> Has(g, x, y, table, tableSize, i, p2)
      invariant forall a: nat, b: nat :: Has(g, x, y, table0, tableSize, a, b) ==> Has(g, x, y, table, tableSize, a, b)
      decreases Cells(tableSize) - j
    {
      IndexRows(i, row - 1, 1, tableSize);
      IndexRows(i, row, 1, tableSize);
      IndexRows(i, row + 1, 0, tableSize);
      assert Has(g, x, y, table, tableSize, i, row - 1);
      ghost var k := Store(g, x, y, table, tableSize, i, row - 1, 0, 1, table[j - tableSize], y);
      ghost var before := table;
      table := table[j := g.add(table[j - tableSize], y)];
      forall p2: nat | p2 <= row ensures Has(g, x, y, table, tableSize, i, p2) {
        assert p2 < row ==> Has(g, x, y, before, tableSize, i, p2);
      }
      j := j + tableSize;
      row := row + 1;
    }
  }

  /** The odd multiples of y, by steps of 2*y. */
  method FillFirstColumn<T(!new)>(g: Group<T>, ghost x: T, ghost y: T, table0: seq<T>, tableSize: nat)
      returns (table: seq<T>)
    requires g.IsAbelian() && tableSize >= 4 && tableSize % 2 == 0
    requires |table0| == Cells(tableSize)
    requires Has(g, x, y, table0, tableSize, 0, 1) && Has(g, x, y, table0, tableSize, 0, 2)
    ensures |table| == Cells(tableSize)
    ensures forall p2: nat :: p2 < tableSize && p2 % 2 == 1 ==> Has(g, x, y, table, tableSize, 0, p2)
    ensures forall a: nat, b: nat :: Has(g, x, y, table0, tableSize, a, b) ==> Has(g, x, y, table, tableSize, a, b)
  {
    hide Combine, Group.IsAbelian, Index, Cells;
    table := table0;
    var i := 3 * tableSize;
    ghost var row := 3;
    FirstRow(0, 3, tableSize);
    FirstRow(0, 2, tableSize);
    IndexRows(0, 3, 0, tableSize);
    while i < Cells(tableSize)
      invariant row % 2 == 1 && 3 <= row <= tableSize + 1 && i == Index(0, row, tableSize)
      invariant |table| == Cells(tableSize)
      invariant i < Cells(tableSize) <==> row < tableSize
      invariant forall p2: nat :: p2 < row && p2 % 2 == 1 ==> Has(g, x, y, table, tableSize, 0, p2)
      invariant forall a: nat, b: nat :: Has(g, x, y, table0, tableSize, a, b) ==> Has(g, x, y, table, tableSize, a, b)
      decreases Cells(tableSize) - i
    {
      IndexRows(0, row - 2, 2, tableSize);
      IndexRows(0, row, 2, tableSize);
      IndexRows(0, row + 2, 0, tableSize);
      assert Has(g, x, y, table, tableSize, 0, row - 2) && Has(g, x, y, table, tableSize, 0, 2);
      ghost var k := Store(g, x, y, table, tableSize, 0, row - 2, 0, 2, table[i - 2 * tableSize], table[2 * tableSize]);
      ghost var before := table;
      table := table[i := g.add(table[i - 2 * tableSize], table[2 * tableSize])];
      forall p2: nat | p2 < row + 2 && p2 % 2 == 1 ensures Has(g, x, y, table, tableSize, 0, p2) {
        assert p2 < row ==> Has(g, x, y, before, tableSize, 0, p2);
      }
      i := i + 2 * tableSize;
      row := row + 2;
    }
  }

  /** The loops that fill the entries with an even multiple of x and an odd one of y. */
  method FillColumns<T(!new)>(g: Group<T>, x: T, ghost y: T, table0: seq<T>, tableSize: nat) returns (table: seq<T>)
    requires g.IsAbelian() && tableSize >= 4 && tableSize % 2 == 0
    requires |table0| == Cells(tableSize)
    requires Has(g, x, y, table0, tableSize, 0, 1) && Has(g, x, y, table0, tableSize, 0, 2)
    requires forall p1: nat, p2: nat :: p1 < tableSize && p2 < tableSize && p1 % 2 == 1 ==>
              Has(g, x, y, table0, tableSize, p1, p2)
    ensures |table| == Cells(tableSize)
    ensures OddEntries(g, x, y, table, tableSize)
  {
    hide Has, Group.IsAbelian, Index, Cells;
    table := FillFirstColumn(g, x, y, table0, tableSize);
    var i := tableSize;
    ghost var row := 1;
    FirstRow(0, 1, tableSize);
    IndexRows(0, 1, 0, tableSize);
    while i < Cells(tableSize)
      invariant row % 2 == 1 && 1 <= row <= tableSize + 1 && i == Index(0, row, tableSize)
      invariant |table| == Cells(tableSize)
      invariant i < Cells(tableSize) <==> row < tableSize
      invariant forall p1: nat, p2: nat :: p1 < tableSize && p2 < tableSize && p1 % 2 == 1 ==>
                Has(g, x, y, table, tableSize, p1, p2)
      invariant forall p2: nat :: p2 < tableSize && p2 % 2 == 1 ==> Has(g, x, y, table, tableSize, 0, p2)
      invariant forall p1: nat, p2: nat :: p2 < row && p1 < tableSize && p2 % 2 == 1 ==>
                Has(g, x, y, table, tableSize, p1, p2)
      decreases Cells(tableSize) - i
    {
      IndexRows(0, row, 2, tableSize);
      IndexRows(0, row + 2, 0, tableSize);
      table := FillColumn(g, x, y, table, tableSize, i, row);
      i := i + 2 * tableSize;
      row := row + 2;
    }
  }

  /** The inner loop: even multiples of x added to one odd multiple of y. */
  method FillColumn<T(!new)>(g: Group<T>, x: T, ghost y: T, table0: seq<T>, tableSize: nat, i: nat, ghost row: nat)
      returns (table: seq<T>)
    requires g.IsAbelian() && tableSize >= 4 && tableSize % 2 == 0 && row < tableSize
    requires |table0| == Cells(tableSize) && i == Index(0, row, tableSize)
    requires Has(g, x, y, table0, tableSize, 0, row)
    requires forall p1: nat :: p1 < tableSize && p1 % 2 == 1 ==> Has(g, x, y, table0, tableSize, p1, row)
    ensures |table| == Cells(tableSize)
    ensures forall p1: nat :: p1 < tableSize ==> Has(g, x, y, table, tableSize, p1, row)
    ensures forall a: nat, b: nat :: Has(g, x, y, table0, tableSize, a, b) ==> Has(g, x, y, table, tableSize, a, b)
  {
    hide Combine, Group.IsAbelian, Index, Cells;
    CombineBasis(g, x, y);
    table := table0;
    var j := i + 2;
    while j < i + tableSize
      invariant i + 2 <= j <= i + tableSize && (j - i) % 2 == 0 && |table| == Cells(tableSize)
      invariant forall p1: nat :: p1 < j - i && p1 % 2 == 0 ==> Has(g, x, y, table, tableSize, p1, row)
      invariant forall a: nat, b: nat :: Has(g, x, y, table0, tableSize, a, b) ==> Has(g, x, y, table, tableSize, a, b)
    {
      IndexColumn(j - i, row, tableSize);
      IndexColumn(j - i - 1, row, tableSize);
      assert Has(g, x, y, table, tableSize, j - i - 1, row);
      ghost var k := Store(g, x, y, table, tableSize, j - i - 1, row, 1, 0, table[j - 1], x);
      ghost var before := table;
      table := table[j := g.add(table[j - 1], x)];
      forall p1: nat | p1 < j - i + 2 && p1 % 2 == 0 ensures Has(g, x, y, table, tableSize, p1, row) {
        assert p1 < j - i ==> Has(g, x, y, before, tableSize, p1, row);
      }
      j := j + 2;
    }
  }

  // ----- the scan

  /** `while (k--) result = Double(result)` */
  method DoubleTimes<T(!new)>(g: Group<T>, ghost x: T, ghost y: T, r0: T, k: nat, ghost a: int, ghost b: int)
      returns (r: T)
    requires g.IsAbelian() && r0 == Combine(g, x, y, a, b)
    ensures r == Combine(g, x, y, Shl(a, k), Shl(b, k))
  {
    r := r0;
    for i := 0 to k
      invariant r == Combine(g, x, y, Shl(a, i), Shl(b, i))
    {
      CombineAdd(g, x, y, Shl(a, i), Shl(b, i), Shl(a, i), Shl(b, i));
      r := g.Double(r);
    }
  }

  /** The halving loop: common factors of two are moved out of the window. A window
      of `bits` bits has fewer than `bits` of them, so the count of doublings
      before the addition never goes below zero. */
  method Halve(p1: nat, p2: nat, ghost bits: nat) returns (power1: nat, power2: nat, squaresAfter: nat)
    requires p1 < Pow2(bits) && p2 < Pow2(bits)
    ensures Shl(power1, squaresAfter) == p1 && Shl(power2, squaresAfter) == p2
    ensures power1 <= p1 && power2 <= p2
    ensures p1 == p2 == 0 ==> power1 == power2 == squaresAfter == 0
    ensures p1 != 0 || p2 != 0 ==> squaresAfter < bits && (power1 % 2 == 1 || power2 % 2 == 1)
  {
    power1, power2, squaresAfter := p1, p2, 0;
    while (power1 != 0 || power2 != 0) && power1 % 2 == 0 && power2 % 2 == 0
      invariant Shl(power1, squaresAfter) == p1 && Shl(power2, squaresAfter) == p2
      invariant power1 <= p1 && power2 <= p2
      invariant squaresAfter <= bits && power1 < Pow2(bits - squaresAfter) && power2 < Pow2(bits - squaresAfter)
      invariant p1 != 0 || p2 != 0 <==> power1 != 0 || power2 != 0
      invariant p1 == p2 == 0 ==> squaresAfter == 0
      decreases power1 + power2
    {
      ShlDouble(power1 / 2, squaresAfter);
      ShlDouble(power2 / 2, squaresAfter);
      power1, power2, squaresAfter := power1 / 2, power2 / 2, squaresAfter + 1;
    }
  }

  /** The window p together with the bits already in the result make up the bits of
      e from position t upwards. */
  ghost predicate Covers(e: nat, t: nat, firstTime: bool, prev: nat, expLen: nat, p: nat) {
    if firstTime then t <= expLen && prev == expLen - 1 && p == Shr(e, t) < Pow2(expLen - t)
    else t <= prev && p < Pow2(prev - t) && Shr(e, t) == Shl(Shr(e, prev), prev - t) + p
  }

  lemma CoversBit(e: nat, t: nat, firstTime: bool, prev: nat, expLen: nat, p: nat)
    requires t > 0 && Covers(e, t, firstTime, prev, expLen, p) && (!firstTime ==> t <= prev)
    ensures Covers(e, t - 1, firstTime, prev, expLen, 2 * p + GetBit(e, t - 1))
  {
    ShrBit(e, t - 1);
  }

  lemma Rejoin(e: nat, t: nat, prev: nat, expLen: nat, p: nat, power: nat, before: nat, after: nat)
    requires Covers(e, t, false, prev, expLen, p) && Shl(power, after) == p && before + after == prev - t
    ensures Shl(Shl(Shr(e, prev), before) + power, after) == Shr(e, t)
  {
    ShlAdd(Shl(Shr(e, prev), before), power, after);
    ShlShl(Shr(e, prev), before, after);
  }

  /** What the scan has computed when the bits from position t upwards have been read. */
  ghost predicate Scanned<T(!new)>(g: Group<T>, x: T, y: T, e1: nat, e2: nat, t: nat, result: T,
                                   firstTime: bool, prev: nat, expLen: nat, p1: nat, p2: nat)
  {
    && Covers(e1, t, firstTime, prev, expLen, p1) && Covers(e2, t, firstTime, prev, expLen, p2)
    && (firstTime && t < expLen ==> p1 != 0 || p2 != 0)
    && (!firstTime ==> result == Combine(g, x, y, Shr(e1, prev), Shr(e2, prev)))
  }

  lemma ReadBit<T(!new)>(g: Group<T>, x: T, y: T, e1: nat, e2: nat, t: nat, result: T,
                         firstTime: bool, prev: nat, expLen: nat, p1: nat, p2: nat)
    requires t > 0 && expLen == (if BitCount(e1) > BitCount(e2) then BitCount(e1) else BitCount(e2))
    requires Scanned(g, x, y, e1, e2, t, result, firstTime, prev, expLen, p1, p2)
    ensures Scanned(g, x, y, e1, e2, t - 1, result, firstTime, prev, expLen,
                    2 * p1 + GetBit(e1, t - 1), 2 * p2 + GetBit(e2, t - 1))
  {
    CoversBit(e1, t, firstTime, prev, expLen, p1);
    CoversBit(e2, t, firstTime, prev, expLen, p2);
    BitCountShr(e1, t - 1);
    BitCountShr(e2, t - 1);
  }

  /** Reading the table at `(power2 << w) + power1`. */
  method Lookup<T(!new)>(g: Group<T>, ghost x: T, ghost y: T, table: seq<T>, w: nat, power1: nat, power2: nat)
      returns (r: T)
    requires Complete(g, x, y, table, w)
    requires power1 < Pow2(w) && power2 < Pow2(w) && (power1 % 2 == 1 || power2 % 2 == 1)
    ensures r == Combine(g, x, y, power1, power2)
  {
    assert Has(g, x, y, table, Pow2(w), power1, power2);
    ShlMul(power2, w);
    r := table[Shl(power2, w) + power1];
  }

  /** What `Scanned` says about the window in front of bit i. */
  lemma OpenWindow<T(!new)>(g: Group<T>, x: T, y: T, e1: nat, e2: nat, i: nat, result: T,
                            firstTime: bool, prev: nat, expLen: nat, p1: nat, p2: nat)
      returns (bits: nat)
    requires Scanned(g, x, y, e1, e2, i, result, firstTime, prev, expLen, p1, p2) && (firstTime ==> i < expLen)
    ensures p1 < Pow2(bits) && p2 < Pow2(bits)
    ensures firstTime ==> bits == prev - i + 1 && p1 == Shr(e1, i) && p2 == Shr(e2, i) && (p1 != 0 || p2 != 0)
    ensures !firstTime ==> bits == prev - i && result == Combine(g, x, y, Shr(e1, prev), Shr(e2, prev))
    ensures !firstTime ==> Covers(e1, i, false, prev, expLen, p1) && Covers(e2, i, false, prev, expLen, p2)
  {
    bits := if firstTime then expLen - i else prev - i;
  }

  /** Ends a window: the result is doubled into place, the table entry added, and
      the factors of two restored. */
  method Flush<T(!new)>(g: Group<T>, ghost x: T, ghost y: T, table: seq<T>, w: nat, ghost e1: nat, ghost e2: nat,
                        i: nat,
                        result0: T, firstTime: bool, prev: nat, ghost expLen: nat, p1: nat, p2: nat)
      returns (result: T)
    requires g.IsAbelian() && Complete(g, x, y, table, w)
    requires p1 < Pow2(w) && p2 < Pow2(w) && (firstTime ==> i < expLen)
    requires Scanned(g, x, y, e1, e2, i, result0, firstTime, prev, expLen, p1, p2)
    ensures result == Combine(g, x, y, Shr(e1, i), Shr(e2, i))
  {
    hide *;
    ghost var bits := OpenWindow(g, x, y, e1, e2, i, result0, firstTime, prev, expLen, p1, p2);
    var power1, power2, squaresAfter := Halve(p1, p2, bits);
    var squaresBefore := prev - i - squaresAfter;
    ghost var a: nat, b: nat := power1, power2;
    if firstTime {
      result := Lookup(g, x, y, table, w, power1, power2);
    } else {
      ghost var r1, r2 := Shl(Shr(e1, prev), squaresBefore), Shl(Shr(e2, prev), squaresBefore);
      Rejoin(e1, i, prev, expLen, p1, power1, squaresBefore, squaresAfter);
      Rejoin(e2, i, prev, expLen, p2, power2, squaresBefore, squaresAfter);
      a, b := r1 + power1, r2 + power2;
      result := DoubleTimes(g, x, y, result0, squaresBefore, Shr(e1, prev), Shr(e2, prev));
      if power1 != 0 || power2 != 0 {
        var entry := Lookup(g, x, y, table, w, power1, power2);
        CombineAdd(g, x, y, r1, r2, power1, power2);
        result := g.add(result, entry);
      }
    }
    result := DoubleTimes(g, x, y, result, squaresAfter, a, b);
  }

  /** The state after a window has been ended, and before the first one. */
  lemma Flushed<T(!new)>(g: Group<T>, x: T, y: T, e1: nat, e2: nat, i: nat, result: T, expLen: nat)
    requires result == Combine(g, x, y, Shr(e1, i), Shr(e2, i))
    ensures Scanned(g, x, y, e1, e2, i, result, false, i, expLen, 0, 0)
  {
  }

  lemma AllRead<T(!new)>(g: Group<T>, x: T, y: T, e1: nat, e2: nat, result: T, expLen: nat, p1: nat, p2: nat)
    requires Scanned(g, x, y, e1, e2, 0, result, false, 0, expLen, p1, p2)
    ensures result == Combine(g, x, y, e1, e2)
  {
  }

  lemma Unread<T(!new)>(g: Group<T>, x: T, y: T, e1: nat, e2: nat, result: T, expLen: nat, w: nat)
    requires expLen == (if BitCount(e1) > BitCount(e2) then BitCount(e1) else BitCount(e2)) > 0
    ensures Scanned(g, x, y, e1, e2, expLen, result, true, expLen - 1, expLen, 0, 0)
    ensures w >= 1 ==> Pow2(w) >= 2 && Pow2(w) % 2 == 0
  {
    BitCountShr(e1, expLen);
    BitCountShr(e2, expLen);
  }

  /** `CascadeScalarMultiply`: for all exponents, e1*x + e2*y. */
  method CascadeScalarMultiply<T(!new)>(g: Group<T>, x: T, e1: nat, y: T, e2: nat, blank: T) returns (result: T)
    requires g.IsAbelian()
    ensures result == g.add(g.Times(e1, x), g.Times(e2, y))
  {
    var expLen := if BitCount(e1) > BitCount(e2) then BitCount(e1) else BitCount(e2);
    if expLen == 0 {
      CombineBasis(g, x, y);
      return g.identity;
    }
    var w := if expLen <= 46 then 1 else if expLen <= 260 then 2 else 3;
    var powerTable := FillTable(g, x, y, blank, w);
    result := Scan(g, x, y, e1, e2, expLen, powerTable, w, blank);
  }

  /** The main loop, over the bits from the top; a window ends when it is as wide as
      the table or at the last bit. */
  method Scan<T(!new)>(g: Group<T>, ghost x: T, ghost y: T, e1: nat, e2: nat, expLen: nat, powerTable: seq<T>, w: nat,
                       blank: T)
      returns (result: T)
    requires g.IsAbelian() && w >= 1
    requires expLen == (if BitCount(e1) > BitCount(e2) then BitCount(e1) else BitCount(e2)) > 0
    requires Complete(g, x, y, powerTable, w)
    ensures result == Combine(g, x, y, e1, e2)
  {
    hide *;
    var tableSize := Pow2(w);
    result := blank;
    var power1: nat, power2: nat, prevPosition: nat := 0, 0, expLen - 1;
    var firstTime := true;
    Unread(g, x, y, e1, e2, result, expLen, w);
    var i := expLen - 1;
    while i >= 0
      invariant -1 <= i < expLen
      invariant 2 * power1 < tableSize && 2 * power2 < tableSize
      invariant Scanned(g, x, y, e1, e2, i + 1, result, firstTime, prevPosition, expLen, power1, power2)
      invariant i == -1 ==> !firstTime && prevPosition == 0
    {
      ReadBit(g, x, y, e1, e2, i + 1, result, firstTime, prevPosition, expLen, power1, power2);
      power1 := 2 * power1 + GetBit(e1, i);
      power2 := 2 * power2 + GetBit(e2, i);
      if i == 0 || 2 * power1 >= tableSize || 2 * power2 >= tableSize {
        result := Flush(g, x, y, powerTable, w, e1, e2, i, result, firstTime, prevPosition, expLen, power1, power2);
        Flushed(g, x, y, e1, e2, i, result, expLen);
        prevPosition := i;
        firstTime := false;
        power1, power2 := 0, 0;
      }
      i := i - 1;
    }
    AllRead(g, x, y, e1, e2, result, expLen, power1, power2);
  }
}
