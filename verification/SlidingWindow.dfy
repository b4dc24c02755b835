/** Signed sliding-window recoding of an exponent (`WindowSlider` of algebra.cpp). */
module SlidingWindow {
  import opened NatBits

  /** One digit of the recoding: it stands for digit * 2^begin. */
  datatype Window = Window(begin: nat, digit: int)

  const WORD_BITS: nat := 64

  /** `n.WordCount()` */
  function WordCount(n: nat): nat
    decreases n
  {
    if n == 0 then 0 else 1 + WordCount(Shr(n / 2, WORD_BITS - 1))
  }

  lemma {:induction false} WordCountCovers(n: nat)
    ensures Shr(n, WordCount(n) * WORD_BITS) == 0
    decreases n
  {
    if n > 0 {
      var m := Shr(n / 2, WORD_BITS - 1);
      WordCountCovers(m);
      ShrAdd(n, WORD_BITS, WordCount(m) * WORD_BITS);
      assert Shr(n, WORD_BITS) == m;
    }
  }

  /** Whether the window at the bottom of n is replaced by its negative complement. */
  ghost predicate Negates(n: nat, w: nat, fast: bool) { fast && GetBit(n, w) == 1 }

  /** The digit taken from the bottom of n. */
  ghost function Digit(n: nat, w: nat, fast: bool): int {
    if Negates(n, w, fast) then Low(n, w) - Pow2(w) else Low(n, w)
  }

  /** What remains above it, with the carry of a negated window. */
  ghost function Rest(n: nat, w: nat, fast: bool): (r: nat)
    requires w >= 1
    ensures n % 2 == 1 ==> r < n
  {
    assert Shr(n, w) == Shr(n / 2, w - 1);
    if Negates(n, w, fast) then Shr(n, w) + 1 else Shr(n, w)
  }

  /** A digit and what remains above it make up the number, carry included. */
  lemma DigitAndRest(n: nat, w: nat, fast: bool)
    requires w >= 1
    ensures n == Digit(n, w, fast) + Shl(Rest(n, w, fast), w)
  {
    ShrLow(n, w);
    ShlAdd(Shr(n, w), 1, w);
    CarryCancels(Low(n, w), Pow2(w), Shl(Shr(n, w), w), Shl(Rest(n, w, fast), w), Digit(n, w, fast),
                 Negates(n, w, fast));
  }

  lemma CarryCancels(low: int, p: int, high: int, rest: int, digit: int, negated: bool)
    requires digit == if negated then low - p else low
    requires rest == if negated then high + p else high
    ensures digit + rest == high + low
  {
  }

  lemma DigitOdd(n: nat, w: nat, fast: bool)
    requires w >= 1 && n % 2 == 1
    ensures Digit(n, w, fast) % 2 == 1 && 0 - Pow2(w) < Digit(n, w, fast) < Pow2(w)
  {
    WindowOdd(n, w);
    EvenDifference(Low(n, w), Pow2(w));
    Pow2Even(w);
  }

  lemma EvenDifference(a: int, b: int)
    ensures b % 2 == 0 ==> (a - b) % 2 == a % 2
  {
  }

  lemma Pow2Even(w: nat)
    requires w >= 1
    ensures Pow2(w) % 2 == 0
  {
  }

  /** A window that starts at a one bit is odd, and so is its complement. */
  lemma WindowOdd(n: nat, w: nat)
    requires w >= 1 && n % 2 == 1
    ensures Low(n, w) % 2 == 1 && (Pow2(w) - Low(n, w)) % 2 == 1
    ensures 0 < Low(n, w) < Pow2(w)
  {
  }

  /** The digits of n * 2^begin, least significant first, for windows of w bits.
      With `fast`, a window followed by a one bit is replaced by its negative
      complement and a carry. */
  ghost function Recode(n: nat, begin: nat, w: nat, fast: bool): seq<Window>
    requires w >= 1
    decreases n
  {
    if n == 0 then []
    else if n % 2 == 0 then Recode(n / 2, begin + 1, w, fast)
    else [Window(begin, Digit(n, w, fast))] + Recode(Rest(n, w, fast), begin + w, w, fast)
  }

  /** The current window followed by the digits of what lies above it in `exp`. */
  ghost function Pending(exp: nat, begin: nat, w: nat, fast: bool, window: nat, negated: bool): (ws: seq<Window>)
    requires w >= 1
    ensures ws != [] && ws[0] == Window(begin, if negated then 0 - window else window)
    ensures ws[1..] == Recode(Shr(exp, w), begin + w, w, fast)
  {
    [Window(begin, if negated then 0 - window else window)] + Recode(Shr(exp, w), begin + w, w, fast)
  }

  /** The shifted exponent, window and sign kept by the slider are the head and
      tail of the recoding. */
  lemma RecodeOdd(n: nat, begin: nat, w: nat, fast: bool, exp: nat, window: nat, negated: bool)
    requires w >= 1 && n % 2 == 1
    requires negated == Negates(n, w, fast)
    requires window == if negated then Pow2(w) - Low(n, w) else Low(n, w)
    requires exp == if negated then n + Pow2(w) else n
    ensures window % 2 == 1 && 0 < window < Pow2(w)
    ensures Recode(n, begin, w, fast)
            == Pending(exp, begin, w, fast, window, negated)
  {
    WindowOdd(n, w);
    ShrAddPow2(n, w);
  }

  /** The sum of the digits in their positions. */
  ghost function Value(ws: seq<Window>): int {
    if ws == [] then 0 else Shl(ws[0].digit, ws[0].begin) + Value(ws[1..])
  }

  /** Digits are odd, fit the window, and do not overlap. */
  ghost predicate Separated(ws: seq<Window>, from: nat, w: nat) {
    && (forall k :: 0 <= k < |ws| ==>
          ws[k].digit % 2 == 1 && 0 - Pow2(w) < ws[k].digit < Pow2(w) && from <= ws[k].begin)
    && (forall k :: 0 < k < |ws| ==> ws[k-1].begin + w <= ws[k].begin)
  }

  /** The recoding represents its argument, in every window size and with or
      without negative digits. */
  lemma {:induction false} RecodeValue(n: nat, begin: nat, w: nat, fast: bool)
    requires w >= 1
    ensures Value(Recode(n, begin, w, fast)) == Shl(n, begin)
    decreases n
  {
    if n == 0 {
      ShlZero(begin);
    } else if n % 2 == 0 {
      RecodeValue(n / 2, begin + 1, w, fast);
      ShlDouble(n / 2, begin);
    } else {
      var digit, rest := Digit(n, w, fast), Rest(n, w, fast);
      DigitAndRest(n, w, fast);
      RecodeValue(rest, begin + w, w, fast);
      var tail := Recode(rest, begin + w, w, fast);
      assert ([Window(begin, digit)] + tail)[1..] == tail;
      ShlAdd(digit, Shl(rest, w), begin);
      ShlShl(rest, w, begin);
    }
  }

  /** The digits are odd and windows of w bits never overlap. */
  lemma {:induction false} RecodeSeparated(n: nat, begin: nat, w: nat, fast: bool)
    requires w >= 1
    ensures Separated(Recode(n, begin, w, fast), begin, w)
    decreases n
  {
    if n == 0 {
    } else if n % 2 == 0 {
      RecodeSeparated(n / 2, begin + 1, w, fast);
    } else {
      RecodeSeparated(Rest(n, w, fast), begin + w, w, fast);
      DigitOdd(n, w, fast);
    }
  }

  /** The largest position used. */
  ghost function LastBegin(ws: seq<Window>): (b: nat)
    ensures forall k :: 0 <= k < |ws| ==> ws[k].begin <= b
  {
    if ws == [] then 0
    else
      var b := LastBegin(ws[..|ws| - 1]);
      if ws[|ws| - 1].begin > b then ws[|ws| - 1].begin else b
  }

  class WindowSlider {
    var exp: nat
    const windowModulus: nat
    const windowSize: nat
    var windowBegin: nat
    var expWindow: nat
    const fastNegate: bool
    var negateNext: bool
    var firstTime: bool
    var finished: bool

    ghost predicate Valid()
      reads this
    {
      && 1 <= windowSize
      && windowModulus == Pow2(windowSize)
      && (!firstTime && !finished ==> expWindow % 2 == 1 && 0 < expWindow < Pow2(windowSize))
      && (firstTime ==> !finished)
    }

    /** The digits not yet consumed; the current window comes first. */
    ghost function Windows(): seq<Window>
      requires Valid()
      reads this
    {
      if finished then []
      else if firstTime then Recode(exp, windowBegin, windowSize, fastNegate)
      else Pending(exp, windowBegin, windowSize, fastNegate, expWindow, negateNext)
    }

    constructor (expIn: nat, fastNegate: bool, windowSizeIn: nat)
      ensures Valid() && firstTime && !finished
      ensures windowSizeIn != 0 ==> windowSize == windowSizeIn
      ensures windowSizeIn == 0 ==> 1 <= windowSize <= 7
      ensures Windows() == Recode(expIn, 0, windowSize, fastNegate)
    {
      exp := expIn;
      windowBegin, expWindow := 0, 0;
      this.fastNegate := fastNegate;
      negateNext, firstTime, finished := false, true, false;
      var size := windowSizeIn;
      if size == 0 {
        var expLen := BitCount(expIn);
        size := if expLen <= 17 then 1 else if expLen <= 24 then 2 else if expLen <= 70 then 3
                else if expLen <= 197 then 4 else if expLen <= 539 then 5 else if expLen <= 1434 then 6 else 7;
      }
      windowSize := size;
      windowModulus := Pow2(size);
    }

    /** Advances to the next window: exactly one digit is consumed, except that the
        first call only finds the first digit. */
    method FindNextWindow()
      requires Valid() && !finished
      modifies this
      ensures Valid() && !firstTime
      ensures Windows() == if old(firstTime) then old(Windows()) else old(Windows())[1..]
      ensures finished <==> Windows() == []
      ensures !finished ==> windowBegin >= old(windowBegin) + (if old(firstTime) then 0 else windowSize)
    {
      ghost var w, fast := windowSize, fastNegate;
      var skipCount := if firstTime then 0 else windowSize;
      ghost var todo := Recode(Shr(exp, skipCount), windowBegin + skipCount, w, fast);
      assert todo == if firstTime then Windows() else Windows()[1..];
      firstTime := false;
      skipCount, finished := SkipZeroBits(exp, skipCount, windowBegin, w, fast);
      if finished {
        return;
      }
      ghost var n := Shr(exp, skipCount);
      WindowOdd(n, w);
      exp := Shr(exp, skipCount);
      windowBegin := windowBegin + skipCount;
      expWindow := Low(exp, windowSize);
      if fastNegate && GetBit(exp, windowSize) == 1 {
        negateNext := true;
        expWindow := Pow2(windowSize) - expWindow;
        exp := exp + windowModulus;
      } else {
        negateNext := false;
      }
      RecodeOdd(n, windowBegin, w, fast, exp, expWindow, negateNext);
    }

    /** The search loop of `FindNextWindow`: the first one bit at or after `start`,
        or `finished` when there is none. */
    static method SkipZeroBits(exp: nat, start: nat, ghost begin: nat, ghost w: nat, ghost fast: bool)
      returns (skipCount: nat, finished: bool)
      requires w >= 1
      ensures finished <==> Shr(exp, start) == 0
      ensures !finished ==> start <= skipCount && GetBit(exp, skipCount) == 1
      ensures !finished ==> Recode(Shr(exp, start), begin + start, w, fast)
                            == Recode(Shr(exp, skipCount), begin + skipCount, w, fast)
    {
      var expLen := WordCount(exp) * WORD_BITS;
      skipCount, finished := start, false;
      while GetBit(exp, skipCount) == 0
        invariant start <= skipCount
        invariant Shr(exp, start) == 0 <==> Shr(exp, skipCount) == 0
        invariant Recode(Shr(exp, start), begin + start, w, fast)
               == Recode(Shr(exp, skipCount), begin + skipCount, w, fast)
        decreases expLen - skipCount
      {
        if skipCount >= expLen {
          WordCountCovers(exp);
          ShrMono(exp, expLen, skipCount);
          return skipCount, true;
        }
        ShrBit(exp, skipCount);
        skipCount := skipCount + 1;
      }
    }
  }
}
