/** What a placeholder that is written out means. */
module Spelling {
  import opened JavaInts
  import opened Outcomes
  import opened Placeholders
  import opened Text
  import opened Tokenizer

  /** How the length of a variable is bounded; -1 stands for a bound that is left open. */
  datatype Length = AnyLength | OneLength(len: int) | Range(min: int, max: int)

  function Digits(n: int): string {
    if n < 0 then "" else ShowNat(n)
  }

  function SpelledLength(length: Length): string {
    match length
    case AnyLength => ""
    case OneLength(n) => ":" + Digits(n)
    case Range(min, max) => ":" + Digits(min) + "," + Digits(max)
  }

  function Spelled(name: string, isArray: bool, length: Length): string {
    "{$" + name + (if isArray then "[]" else "") + SpelledLength(length) + "}"
  }

  predicate InRange(length: Length) {
    match length
    case AnyLength => true
    case OneLength(n) => -1 <= n <= MAX_INT
    case Range(min, max) => -1 <= min <= MAX_INT && -1 <= max <= MAX_INT
  }

  function Lowest(length: Length): int {
    match length
    case AnyLength => -1
    case OneLength(n) => n
    case Range(min, _) => min
  }

  function Highest(length: Length): int {
    match length
    case AnyLength => -1
    case OneLength(n) => n
    case Range(_, max) => max
  }

  /** Letters, digits and `_.-[]`; a scalar's name does not end in `[]`. */
  predicate Name(name: string, isArray: bool) {
    && (forall c | c in name :: IsNameChar(c))
    && (!isArray ==> name != "" && !(|name| >= 2 && name[|name| - 2..] == "[]"))
  }

  lemma DigitsRead(n: int)
    requires -1 <= n <= MAX_INT
    ensures AllDigits(Digits(n)) && IntValue(Digits(n)) == Success(n)
  {
    if n >= 0 {
      ShowNatValue(n);
    }
  }

  function BoundsOf(length: Length): Bounds {
    match length
    case AnyLength => NoBounds
    case OneLength(n) => Exactly(Digits(n))
    case Range(min, max) => Between(Digits(min), Digits(max))
  }

  lemma NameRead(name: string, isArray: bool, text: string, start: int, end: int, min: int, max: int)
    requires Name(name, isArray)
    ensures NameToken(text, name + (if isArray then "[]" else ""), start, end, min, max)
            == Variable(text, start, end, name, isArray, min, max)
  {
    if isArray {
      assert (name + "[]")[|name|..] == "[]" && (name + "[]")[..|name|] == name;
    } else {
      assert name + "" == name;
    }
  }

  lemma BoundsRead(full: string, length: Length, text: string, start: int, end: int)
    requires full != "" && (forall c | c in full :: IsNameChar(c)) && InRange(length)
    ensures WellFormed(Placeholder(full, BoundsOf(length)))
    ensures MakeToken(Placeholder(full, BoundsOf(length)), text, start, end)
            == Success(NameToken(text, full, start, end, Lowest(length), Highest(length)))
  {
    hide IntValue, Digits, NameToken;
    match length
    case AnyLength =>
    case OneLength(n) =>
      DigitsRead(n);
    case Range(min, max) =>
      DigitsRead(min);
      DigitsRead(max);
  }

  lemma SpelledShows(name: string, isArray: bool, length: Length)
    ensures Show(Placeholder(name + (if isArray then "[]" else ""), BoundsOf(length))) == Spelled(name, isArray, length)
    ensures |Spelled(name, isArray, length)| >= 3
  {
    hide Digits;
    var full := name + if isArray then "[]" else "";
    assert "{$" + name + (if isArray then "[]" else "") == "{$" + full;
  }

  lemma SpelledDenotes(name: string, isArray: bool, length: Length, token: Token)
    requires Name(name, isArray) && InRange(length)
    requires var text := Spelled(name, isArray, length);
             token == Variable(text, 0, |text| - 1, name, isArray, Lowest(length), Highest(length))
    ensures Denotes(token)
  {
    hide MakeToken, Digits, NameToken, Spelled, Show, WellFormed, BoundsOf, Lowest, Highest;
    var text, full := Spelled(name, isArray, length), name + if isArray then "[]" else "";
    BoundsRead(full, length, text, 0, |text| - 1);
    NameRead(name, isArray, text, 0, |text| - 1, Lowest(length), Highest(length));
    SpelledShows(name, isArray, length);
  }

  /** A placeholder that is written out is read as one variable with that name, kind and length. */
  lemma SpelledIsRead(name: string, isArray: bool, length: Length)
    requires Name(name, isArray) && InRange(length)
    ensures var text := Spelled(name, isArray, length);
            Tokenize(text, 0)
            == Success([Variable(text, 0, |text| - 1, name, isArray, Lowest(length), Highest(length))])
  {
    hide MakeToken, Tokenize, Spelled, Denotes, Lowest, Highest, Tiles;
    var text := Spelled(name, isArray, length);
    var token := Variable(text, 0, |text| - 1, name, isArray, Lowest(length), Highest(length));
    SpelledShows(name, isArray, length);
    SpelledDenotes(name, isArray, length, token);
    assert text[0..|text|] == text;
    TilesOne(text, token);
    TokenizeIffTiles(text, [token]);
  }
}
