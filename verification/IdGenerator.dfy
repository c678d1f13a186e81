/** Identifiers that end in a zero-padded counter.  The date in front of the counter is a
    parameter; the counter and its limit are 64-bit. */
module IdGenerator {
  import opened Placeholders
  import opened Tokenizer
  import opened Text

  const LONG_RANGE: int := 0x1_0000_0000_0000_0000
  const MIN_LONG: int := -0x8000_0000_0000_0000

  function NarrowLong(n: int): int {
    (n - MIN_LONG) % LONG_RANGE + MIN_LONG
  }

  lemma LongFits(n: int)
    requires MIN_LONG <= n <= -MIN_LONG - 1
    ensures NarrowLong(n) == n
  {
  }

  function Pow10(k: nat): nat {
    if k == 0 then 1 else 10 * Pow10(k - 1)
  }

  /** The limit the constructor computes, multiplying in 64 bits. */
  function Power(k: nat): int {
    if k == 0 then 1 else NarrowLong(Power(k - 1) * 10)
  }

  function MaxCount(k: nat): int {
    NarrowLong(Power(k) - 1)
  }

  /** Padding with zeros on the left to at least k characters. */
  function Pad(s: string, k: nat): string
    decreases k - |s|
  {
    if |s| < k then Pad("0" + s, k) else s
  }

  /** The counter's value at the n-th call, counting from 0. */
  function IndexAt(k: nat, n: nat): int {
    if n == 0 then 0 else Turn(IndexAt(k, n - 1), MaxCount(k))
  }

  function Turn(index: int, limit: int): int {
    var next := NarrowLong(index + 1);
    if next >= limit then 0 else next
  }

  lemma TurnInRange(index: int, limit: int)
    requires 0 <= index < limit <= -MIN_LONG - 1
    ensures Turn(index, limit) == if index + 1 >= limit then 0 else index + 1
  {
    LongFits(index + 1);
  }

  /** Whatever the limit became, the counter is never negative. */
  lemma {:induction false} IndexInRange(k: nat, n: nat)
    ensures 0 <= IndexAt(k, n) <= -MIN_LONG - 1
  {
    if n > 0 {
      IndexInRange(k, n - 1);
    }
  }

  function Suffix(k: nat, n: nat): string {
    IndexInRange(k, n);
    Pad(ShowNat(IndexAt(k, n)), k)
  }

  /** After how many calls the counter is back at zero. */
  function Period(k: nat): int {
    if MaxCount(k) >= 1 then MaxCount(k) else 1
  }

  // ---------- up to 18 digits the limit is what it should be ----------

  lemma Eighteen()
    ensures Pow10(18) == 1_000_000_000_000_000_000
  {
    assert Pow10(6) == 1_000_000;
    PowSplits(6, 6);
    PowSplits(12, 6);
  }

  lemma PowersFit(k: nat)
    requires k <= 18
    ensures 1 <= Pow10(k) <= 1_000_000_000_000_000_000
    ensures Power(k) == Pow10(k)
    ensures MaxCount(k) == Pow10(k) - 1
  {
    PowGrows(k, 18);
    Eighteen();
    if k > 0 {
      PowersFit(k - 1);
    }
  }

  lemma {:induction false} PowGrows(j: nat, k: nat)
    requires j <= k
    ensures 1 <= Pow10(j) <= Pow10(k)
    decreases k
  {
    if j < k {
      PowGrows(j, k - 1);
    } else if k > 0 {
      PowGrows(k - 1, k - 1);
    }
  }

  lemma {:induction false} PowSplits(j: nat, k: nat)
    ensures Pow10(j + k) == Pow10(j) * Pow10(k)
  {
    if k > 0 {
      PowSplits(j, k - 1);
    }
  }

  lemma AtLeastTen(k: nat)
    requires k >= 1
    ensures Pow10(k) >= 10
  {
    PowGrows(0, k - 1);
  }

  lemma {:induction false} Cycles(k: nat, limit: int, n: nat)
    requires MaxCount(k) == limit && 1 <= limit <= -MIN_LONG - 1
    ensures IndexAt(k, n) == Rem(n, limit)
    decreases n
  {
    hide MaxCount, Turn, Rem;
    if n == 0 {
      RemStep(0, limit);
    } else {
      Cycles(k, limit, n - 1);
      RemStep(n - 1, limit);
      TurnInRange(Rem(n - 1, limit), limit);
    }
  }

  function Rem(n: nat, m: int): int
    requires m > 0
  {
    n % m
  }

  lemma RemStep(n: nat, m: int)
    requires m > 0
    ensures Rem(0, m) == 0 && 0 <= Rem(n, m) < m
    ensures Rem(n + 1, m) == if Rem(n, m) + 1 >= m then 0 else Rem(n, m) + 1
  {
    NextRemainder(n, m);
  }

  /** A limit that is not positive lets the counter never leave zero. */
  lemma {:induction false} Stuck(k: nat, n: nat)
    requires MaxCount(k) < 1
    ensures IndexAt(k, n) == 0
  {
    hide MaxCount;
    if n > 0 {
      Stuck(k, n - 1);
      LongFits(1);
    }
  }

  lemma LimitFits(k: nat)
    ensures MaxCount(k) <= -MIN_LONG - 1
  {
  }

  /** The counter goes round 0 .. Period(k) - 1. */
  lemma IndexCycles(k: nat, n: nat)
    ensures Period(k) >= 1 && IndexAt(k, n) == n % Period(k)
  {
    LimitFits(k);
    hide MaxCount;
    if MaxCount(k) >= 1 {
      Cycles(k, MaxCount(k), n);
    } else {
      Stuck(k, n);
    }
  }

  /** The period is 10^k - 1 for 1 to 18 digits, and smaller for more. */
  lemma PeriodIs(k: nat)
    requires k >= 1
    ensures k <= 18 ==> Period(k) == Pow10(k) - 1
    ensures k >= 19 ==> Period(k) < Pow10(k) - 1
    ensures Pow10(k) >= 10 && Period(k) < Pow10(k)
  {
    AtLeastTen(k);
    if k <= 18 {
      PowersFit(k);
    } else {
      LimitFits(k);
      Eighteen();
      PowGrows(19, k);
      assert Pow10(19) == 10 * Pow10(18);
    }
  }

  lemma NextRemainder(n: nat, m: nat)
    requires m > 0
    ensures (n + 1) % m == if n % m + 1 >= m then 0 else n % m + 1
  {
    var q, r := n / m, n % m;
    assert n == q * m + r;
    if r + 1 >= m {
      Remainder(n + 1, m, q + 1, 0);
    } else {
      Remainder(n + 1, m, q, r + 1);
    }
  }

  lemma Remainder(n: nat, m: nat, q: int, r: nat)
    requires r < m && n == q * m + r
    ensures n % m == r
  {
    var d := n / m - q;
    Distribute(n / m, q, m);
    assert d * m == r - n % m;
    Multiple(d, m);
  }

  lemma Multiple(d: int, m: nat)
    ensures d >= 1 ==> d * m >= m
    ensures d <= -1 ==> d * m <= -1 * m
  {
    if d >= 1 {
      Distribute(d, 1, m);
    } else if d <= -1 {
      Distribute(-1, d, m);
    }
  }

  lemma Distribute(a: int, b: int, m: int)
    ensures (a - b) * m == a * m - b * m
  {
  }

  // ---------- the suffix ----------

  lemma {:induction false} ShownLength(n: nat, k: nat)
    requires 1 <= k && n < Pow10(k)
    ensures |ShowNat(n)| <= k
    decreases k
  {
    if k == 1 {
      assert Pow10(1) == 10;
    } else if n >= 10 {
      ShownLength(n / 10, k - 1);
    }
  }

  lemma {:induction false} PadKeepsValue(s: string, k: nat)
    requires AllDigits(s) && |s| <= k
    ensures |Pad(s, k)| == k && AllDigits(Pad(s, k)) && DigitsValue(Pad(s, k)) == DigitsValue(s)
    decreases k - |s|
  {
    if |s| < k {
      LeadingZero(s);
      PadKeepsValue("0" + s, k);
    }
  }

  lemma {:induction false} LeadingZero(s: string)
    requires AllDigits(s)
    ensures AllDigits("0" + s) && DigitsValue("0" + s) == DigitsValue(s)
    decreases |s|
  {
    var t := "0" + s;
    forall c | c in t
      ensures IsDigit(c)
    {
    }
    if s == "" {
      assert t[..0] == "";
    } else {
      LeadingZero(s[..|s| - 1]);
      assert t[..|t| - 1] == "0" + s[..|s| - 1];
    }
  }

  /** Every suffix has exactly k digits and reads as the counter. */
  lemma SuffixDigits(k: nat, n: nat)
    requires k >= 1
    ensures Period(k) >= 1
    ensures |Suffix(k, n)| == k && AllDigits(Suffix(k, n)) && DigitsValue(Suffix(k, n)) == n % Period(k)
  {
    hide Period, Pow10, DigitsValue, ShowNat, Pad, IndexAt;
    IndexCycles(k, n);
    PeriodIs(k);
    var index := IndexAt(k, n);
    ShownLength(index, k);
    ShowNatValue(index);
    PadKeepsValue(ShowNat(index), k);
  }

  lemma SameSuffix(k: nat, n: nat, later: nat)
    requires k >= 1
    ensures Suffix(k, n) == Suffix(k, later) <==> IndexAt(k, n) == IndexAt(k, later)
  {
    SuffixDigits(k, n);
    SuffixDigits(k, later);
    IndexCycles(k, n);
    IndexCycles(k, later);
  }

  /** Two calls get the same suffix exactly when a multiple of the period lies between them. */
  lemma SuffixesRepeatIff(k: nat, n: nat, later: nat)
    requires k >= 1 && n <= later
    ensures Period(k) >= 1 && (Suffix(k, n) == Suffix(k, later) <==> (later - n) % Period(k) == 0)
  {
    hide Period, Suffix, IndexAt;
    SameSuffix(k, n, later);
    IndexCycles(k, n);
    IndexCycles(k, later);
    SameRemainder(n, later, Period(k));
  }

  /** Any 10^k - 1 consecutive identifiers have distinct suffixes. */
  ghost predicate DistinctSuffixes(k: nat) {
    forall n: nat, later: nat :: n < later < n + Pow10(k) - 1 ==> Suffix(k, n) != Suffix(k, later)
  }

  /** That is so for 1 to 18 digits, and for no greater width. */
  lemma DistinctIff(k: nat)
    requires k >= 1
    ensures DistinctSuffixes(k) <==> k <= 18
  {
    hide Pow10, Suffix, Period;
    PeriodIs(k);
    if k <= 18 {
      forall n: nat, later: nat | n < later < n + Pow10(k) - 1
        ensures Suffix(k, n) != Suffix(k, later)
      {
        SuffixesRepeatIff(k, n, later);
        Remainder(later - n, Period(k), 0, later - n);
      }
    } else {
      SuffixesRepeatIff(k, 0, 1);
      SuffixesRepeatIff(k, 0, Period(k));
      Remainder(Period(k), Period(k), 1, 0);
      assert Suffix(k, 0) == Suffix(k, Period(k));
    }
  }

  lemma SameRemainder(a: nat, b: nat, m: nat)
    requires m > 0 && a <= b
    ensures a % m == b % m <==> (b - a) % m == 0
  {
    var q, d := b / m - a / m, b % m - a % m;
    Distribute(b / m, a / m, m);
    assert b - a == q * m + d;
    if d >= 0 {
      Remainder(b - a, m, q, d);
    } else {
      Distribute(q, 1, m);
      Remainder(b - a, m, q - 1, d + m);
    }
  }

  lemma Overflow()
    ensures MaxCount(19) < 0
  {
    PowersFit(18);
    Eighteen();
    assert Power(19) == NarrowLong(Power(18) * 10);
    hide Power, Pow10;
    Remainder(10_000_000_000_000_000_000 - MIN_LONG, LONG_RANGE, 1, 776_627_963_145_224_192);
    assert NarrowLong(10_000_000_000_000_000_000) == -8_446_744_073_709_551_616;
    hide NarrowLong;
    LongFits(-8_446_744_073_709_551_617);
  }

  /** With 19 digits the limit overflows to a negative number and every identifier gets the
      suffix of zero. */
  lemma NineteenDigitsStuck(n: nat)
    ensures IndexAt(19, n) == 0
  {
    Overflow();
    Stuck(19, n);
  }

  class Generator {
    const extraLength: nat
    var maxCount: int
    var index: int
    ghost var calls: nat

    ghost predicate Valid()
      reads this
    {
      maxCount == MaxCount(extraLength) && index == IndexAt(extraLength, calls)
    }

    constructor (extraLength: nat)
      ensures Valid() && this.extraLength == extraLength && calls == 0
    {
      var limit := 1;
      for i := 0 to extraLength
        invariant limit == Power(i)
      {
        limit := NarrowLong(limit * 10);
      }
      this.extraLength := extraLength;
      maxCount := NarrowLong(limit - 1);
      index := 0;
      calls := 0;
    }

    /** `date` is the formatted current date; without a width the format string is rejected. */
    method NextID(date: string) returns (id: string)
      requires Valid() && extraLength >= 1
      modifies this
      ensures Valid() && calls == old(calls) + 1
      ensures id == date + Suffix(extraLength, old(calls))
    {
      IndexInRange(extraLength, calls);
      id := date + Pad(ShowNat(index), extraLength);
      index := NarrowLong(index + 1);
      if index >= maxCount {
        index := 0;
      }
      calls := calls + 1;
    }
  }
}
