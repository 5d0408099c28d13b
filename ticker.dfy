/** How the two options bots read a contract out of its ticker at registration: the kind is the
    last character, lower-cased (`T89C` is a call, `T95P` a put), and the strike is the integer
    written between the first and the last character. */
module Ticker {
  import opened Common

  /** The future underlying the options case; it has no strike. */
  const UNDERLYING: string := "TMXFUT"

  /** str.lower() on one character, for the ASCII letters. */
  function Lower(c: char): char
  {
    if 'A' <= c <= 'Z' then (c as int - 'A' as int + 'a' as int) as char else c
  }

  /** security[-1].lower(); None is the IndexError of an empty ticker. */
  function Kind(ticker: string): (k: Option<char>)
    ensures k.Some? <==> ticker != []
  {
    if ticker == [] then None else Some(Lower(Last(ticker)))
  }

  /** security[1:-1] under Python's slice rules: the ticker without its first and last character,
      and the empty string when the ticker has fewer than two. */
  function Middle(ticker: string): (m: string)
    ensures |ticker| >= 2 ==> |m| == |ticker| - 2
    ensures |ticker| < 2 ==> m == []
  {
    if |ticker| >= 2 then ticker[1..|ticker| - 1] else []
  }

  predicate IsDigit(c: char)
  {
    '0' <= c <= '9'
  }

  predicate AllDigits(s: string)
  {
    forall i :: 0 <= i < |s| ==> IsDigit(s[i])
  }

  function DigitsValue(s: string): nat
    requires AllDigits(s)
  {
    if s == [] then 0 else DigitsValue(s[..|s| - 1]) * 10 + (Last(s) as int - '0' as int)
  }

  /** int(s) on ASCII text with no whitespace or `_`: an optional sign and one or more decimal
      digits; None is the ValueError Python raises for anything else of that kind. */
  function ParseInt(s: string): (r: Option<int>)
    ensures r.Some? <==> (AllDigits(s) && s != []) || (|s| > 1 && (s[0] == '-' || s[0] == '+') && AllDigits(s[1..]))
    ensures r.Some? && s[0] != '-' ==> r.value >= 0
  {
    if |s| > 1 && (s[0] == '-' || s[0] == '+') && AllDigits(s[1..]) then
      var magnitude: int := DigitsValue(s[1..]);
      Some(if s[0] == '-' then -magnitude else magnitude)
    else if s != [] && AllDigits(s) then Some(DigitsValue(s))
    else None
  }

  /** int(security[1:-1]): the strike of an option ticker; None is the ValueError. */
  function Strike(ticker: string): Option<int>
  {
    ParseInt(Middle(ticker))
  }

  /** The intrinsic value against the reference spot 100: (100 - strike) * (type == 'c'), replaced by
      0 when it is not positive. */
  function Intrinsic(kind: char, strike: int): (v: int)
    ensures v >= 0
    ensures kind != 'c' ==> v == 0
    ensures kind == 'c' ==> v >= 100 - strike && (v == 0 || v == 100 - strike)
  {
    var raw := (100 - strike) * (if kind == 'c' then 1 else 0);
    if raw > 0 then raw else 0
  }

  function DigitChar(d: nat): char
    requires d < 10
  {
    ('0' as int + d) as char
  }

  /** str(n) for a natural number: its decimal digits, with no leading zero. */
  function Decimal(n: nat): (s: string)
    ensures s != [] && AllDigits(s)
    ensures |s| > 1 ==> s[0] != '0'
  {
    if n < 10 then [DigitChar(n)] else Decimal(n / 10) + [DigitChar(n % 10)]
  }

  /** Reading back the digits of n gives n. */
  lemma {:induction false} DecimalRoundTrip(n: nat)
    ensures DigitsValue(Decimal(n)) == n
  {
    if n >= 10 {
      var s := Decimal(n);
      DecimalRoundTrip(n / 10);
      assert s[..|s| - 1] == Decimal(n / 10);
      assert Last(s) == DigitChar(n % 10);
    }
  }

  /** The ticker of an option: a root letter, the strike in decimal, the kind letter. */
  function OptionTicker(root: char, strike: nat, kind: char): string
  {
    [root] + Decimal(strike) + [kind]
  }

  /** Registration recovers the kind and the strike an option ticker was written from. */
  lemma ParseOptionTicker(root: char, strike: nat, kind: char)
    ensures Kind(OptionTicker(root, strike, kind)) == Some(Lower(kind))
    ensures Strike(OptionTicker(root, strike, kind)) == Some(strike)
  {
    var t := OptionTicker(root, strike, kind);
    var d := Decimal(strike);
    assert Middle(t) == d;
    DecimalRoundTrip(strike);
  }

  /** A ticker of fewer than three characters has no strike: int('') raises ValueError. */
  lemma ShortTickerHasNoStrike(ticker: string)
    requires |ticker| <= 2
    ensures Strike(ticker).None?
  {
  }

  /** The contract of the example ticker: T89C is a call struck at 89, in the money by 11. */
  lemma T89C()
    ensures Kind("T89C") == Some('c') && Strike("T89C") == Some(89)
    ensures Intrinsic('c', 89) == 11 && Intrinsic('p', 89) == 0
  {
    assert "T89C" == OptionTicker('T', 89, 'C');
    ParseOptionTicker('T', 89, 'C');
  }
}
