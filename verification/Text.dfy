/** The few string operations the script parser relies on. */
module Text {
  import opened JavaInts
  import opened Outcomes
  import opened Placeholders
  import opened Tokenizer

  predicate IsBlank(c: char) {
    c <= ' '
  }

  function TrimLeft(s: string): string {
    if s != "" && IsBlank(s[0]) then TrimLeft(s[1..]) else s
  }

  function TrimRight(s: string): string {
    if s != "" && IsBlank(s[|s| - 1]) then TrimRight(s[..|s| - 1]) else s
  }

  function Trim(s: string): string {
    TrimRight(TrimLeft(s))
  }

  predicate Trimmed(s: string) {
    s == "" || (!IsBlank(s[0]) && !IsBlank(s[|s| - 1]))
  }

  predicate AllBlank(s: string) {
    forall i | 0 <= i < |s| :: IsBlank(s[i])
  }

  /** Trimming takes away exactly the blanks around a text. */
  lemma {:induction false} TrimAround(before: string, s: string, after: string)
    requires AllBlank(before) && AllBlank(after) && Trimmed(s)
    ensures Trim(before + s + after) == s
    decreases |before| + |after|
  {
    var all := before + s + after;
    if before != [] {
      assert all[1..] == before[1..] + s + after;
      TrimAround(before[1..], s, after);
    } else if s == "" {
      assert all == after;
      TrimBlank(after);
    } else if after != [] {
      var n := |after| - 1;
      assert all[..|all| - 1] == before + s + after[..n];
      TrimAround(before, s, after[..n]);
    } else {
      assert all == s;
    }
  }

  lemma {:induction false} TrimBlank(s: string)
    requires AllBlank(s)
    ensures TrimLeft(s) == ""
  {
    if s != "" {
      TrimBlank(s[1..]);
    }
  }

  lemma TrimIsIdentity(s: string)
    ensures Trimmed(s) ==> Trim(s) == s && Trim(" " + s) == s
  {
    assert (" " + s)[1..] == s;
  }

  /** The first position of c at or after the start, or the length if there is none. */
  function IndexOf(s: string, c: char): (i: nat)
    ensures i <= |s|
    ensures c !in s[..i]
    ensures i < |s| ==> s[i] == c
  {
    if s == "" || s[0] == c then 0 else 1 + IndexOf(s[1..], c)
  }

  lemma IndexOfIs(s: string, c: char, t: string)
    requires c !in s
    ensures IndexOf(s + [c] + t, c) == |s|
    ensures IndexOf(s, c) == |s|
    ensures (s + [c] + t)[..|s|] == s && (s + [c] + t)[|s| + 1..] == t
  {
    if s != "" {
      IndexOfIs(s[1..], c, t);
      assert (s + [c] + t)[1..] == s[1..] + [c] + t;
    }
  }

  // ---------- numbers ----------

  /** An optional sign and at least one digit, within 32 bits. */
  function ParseInt(s: string): (r: Option<int>)
    ensures r.Some? ==> MIN_INT <= r.value <= MAX_INT
  {
    var negative := s != "" && s[0] == '-';
    var digits := if s != "" && (s[0] == '-' || s[0] == '+') then s[1..] else s;
    if digits == "" || !AllDigits(digits) then None
    else
      var n := if negative then -(DigitsValue(digits) as int) else DigitsValue(digits);
      if MIN_INT <= n <= MAX_INT then Some(n) else None
  }

  function DigitOf(d: nat): char
    requires d < 10
  {
    "0123456789"[d]
  }

  function ShowNat(n: nat): (s: string)
    ensures s != "" && AllDigits(s)
  {
    if n < 10 then [DigitOf(n)] else ShowNat(n / 10) + [DigitOf(n % 10)]
  }

  function ShowInt(n: int): string {
    if n < 0 then "-" + ShowNat(-n) else ShowNat(n)
  }

  lemma {:induction false} ShowNatValue(n: nat)
    ensures DigitsValue(ShowNat(n)) == n
  {
    if n >= 10 {
      ShowNatValue(n / 10);
      var s := ShowNat(n / 10) + [DigitOf(n % 10)];
      assert s[..|s| - 1] == ShowNat(n / 10);
    }
  }

  /** Reading a printed 32-bit number gives the number back. */
  lemma ParseShown(n: int)
    requires MIN_INT <= n <= MAX_INT
    ensures ParseInt(ShowInt(n)) == Some(n)
  {
    hide DigitsValue, ShowNat, AllDigits;
    if n < 0 {
      ShowNatValue(-n);
      assert ("-" + ShowNat(-n))[1..] == ShowNat(-n);
    } else {
      ShowNatValue(n);
      NoSign(ShowNat(n));
    }
  }

  /** Digits with at most one sign before them are a number, if it has 32 bits. */
  lemma ParseIntForms(digits: string)
    requires digits != "" && AllDigits(digits)
    ensures ParseInt(digits) == ParseInt("+" + digits) == if DigitsValue(digits) <= MAX_INT then Some(DigitsValue(digits)) else None
    ensures var n: int := DigitsValue(digits); ParseInt("-" + digits) == if n <= -MIN_INT then Some(-n) else None
  {
    hide DigitsValue;
    assert ("+" + digits)[1..] == digits && ("-" + digits)[1..] == digits;
    NoSign(digits);
  }

  /** No other text is one. */
  lemma NoOtherNumber(s: string)
    requires forall sign, digits | sign in ["", "+", "-"] && s == sign + digits :: digits == "" || !AllDigits(digits)
    ensures ParseInt(s) == None
  {
    hide DigitsValue, AllDigits;
    assert s == "" + s;
    if s != "" {
      assert s == [s[0]] + s[1..];
    }
  }

  lemma NoSign(s: string)
    requires s != "" && AllDigits(s)
    ensures s[0] != '-' && s[0] != '+'
  {
    assert s[0] in s;
  }

  /** Only the digits and the minus sign occur in a printed number. */
  lemma ShownChars(n: int)
    ensures ShowInt(n) != "" && ' ' !in ShowInt(n)
  {
  }
}
