// strconv.FormatInt and strconv.ParseInt, base 10, 64 bits.
module Decimal {
  import opened Basics

  const MIN_INT64: int := -0x8000_0000_0000_0000
  const MAX_INT64: int := 0x7fff_ffff_ffff_ffff

  predicate IsInt64(n: int) {
    MIN_INT64 <= n <= MAX_INT64
  }

  function Digits(n: nat): string {
    if n < 10 then [('0' as int + n) as char]
    else Digits(n / 10) + [('0' as int + n % 10) as char]
  }

  function FormatInt(n: int): string {
    if n < 0 then "-" + Digits(-n) else Digits(n)
  }

  function ParseDigits(s: string): Option<nat>
    decreases |s|
  {
    if s == "" || !('0' <= s[|s| - 1] <= '9') then None
    else
      var last := s[|s| - 1] as int - '0' as int;
      if |s| == 1 then Some(last)
      else
        match ParseDigits(s[..|s| - 1])
        case Some(n) => Some(n * 10 + last)
        case None => None
  }

  // An optional sign, digits, and a value that fits in 64 bits.
  function ParseInt(s: string): Option<int> {
    if s == "" then None
    else
      var signed := s[0] == '-' || s[0] == '+';
      match ParseDigits(if signed then s[1..] else s)
      case None => None
      case Some(n) =>
        var v := if s[0] == '-' then 0 - n as int else n as int;
        if IsInt64(v) then Some(v) else None
  }

  lemma {:induction false} DigitsRoundTrip(n: nat)
    ensures ParseDigits(Digits(n)) == Some(n)
    ensures Digits(n) != "" && forall i | 0 <= i < |Digits(n)| :: '0' <= Digits(n)[i] <= '9'
    decreases n
  {
    if n < 10 {
    } else {
      DigitsRoundTrip(n / 10);
      assert Digits(n)[..|Digits(n)| - 1] == Digits(n / 10);
    }
  }

  // No leading zero, except in "0" itself.
  lemma {:induction false} DigitsCanonical(n: nat)
    ensures Digits(n) != "" && (Digits(n)[0] == '0' ==> n == 0 && Digits(n) == "0")
    decreases n
  {
    if n < 10 {
    } else {
      DigitsCanonical(n / 10);
    }
  }

  predicate AllDigits(s: string) {
    forall i | 0 <= i < |s| :: '0' <= s[i] <= '9'
  }

  // The value of a run of digits, most significant first.
  function Value(s: string): nat
    requires AllDigits(s)
    decreases |s|
  {
    if s == "" then 0 else (s[0] as int - '0' as int) * Pow10(|s| - 1) + Value(s[1..])
  }

  function Pow10(n: nat): (r: nat)
    ensures r >= 1
  {
    if n == 0 then 1 else 10 * Pow10(n - 1)
  }

  lemma ValueCons(s: string)
    requires s != "" && AllDigits(s)
    ensures Value(s) == (s[0] as int - '0' as int) * Pow10(|s| - 1) + Value(s[1..])
  {
  }

  lemma NoValue()
    ensures Value("") == 0
  {
  }

  lemma PowStep(c: int, n: nat)
    requires n > 0
    ensures c * Pow10(n) == c * Pow10(n - 1) * 10
  {
    assert Pow10(n) == 10 * Pow10(n - 1);
  }

  lemma {:induction false} ValueSnoc(s: string)
    requires s != "" && AllDigits(s)
    ensures Value(s) == Value(s[..|s| - 1]) * 10 + (s[|s| - 1] as int - '0' as int)
    decreases |s|
  {
    hide Value;
    var n := |s| - 1;
    ValueCons(s);
    if n == 0 {
      assert s[1..] == "" && s[..0] == "" && Pow10(0) == 1;
      NoValue();
    } else {
      var c := s[0] as int - '0' as int;
      ValueSnoc(s[1..]);
      ValueCons(s[..n]);
      assert s[1..][..n - 1] == s[..n][1..] && s[1..][n - 1] == s[n];
      PowStep(c, n);
    }
  }

  lemma {:induction false} ParseDigitsExact(s: string)
    ensures ParseDigits(s) == if s != "" && AllDigits(s) then Some(Value(s)) else None
    decreases |s|
  {
    hide Value;
    if s == "" || !('0' <= s[|s| - 1] <= '9') {
    } else {
      var front := s[..|s| - 1];
      assert AllDigits(s) <==> AllDigits(front);
      if AllDigits(s) {
        ValueSnoc(s);
      }
      if |s| == 1 {
        NoValue();
      } else {
        ParseDigitsExact(front);
      }
    }
  }

  // ParseInt accepts one optional sign and at least one digit, leading zeros
  // included, and nothing else; the value must fit in 64 bits.
  lemma ParseIntExact(s: string)
    ensures var signed := s != "" && (s[0] == '-' || s[0] == '+');
            var digits := if signed then s[1..] else s;
            ParseInt(s)
            == if digits == "" || !AllDigits(digits) then None
               else
                 var v := if signed && s[0] == '-' then -(Value(digits) as int) else Value(digits);
                 if -0x8000_0000_0000_0000 <= v <= 0x7fff_ffff_ffff_ffff then Some(v) else None
  {
    hide ParseDigits, Value, AllDigits;
    if s != "" {
      ParseDigitsExact(if s[0] == '-' || s[0] == '+' then s[1..] else s);
    }
  }

  // What FormatInt prints: a minus sign for the negative, and digits without
  // a leading zero.
  lemma FormatIsCanonical(n: int)
    ensures var s := FormatInt(n);
            && s != "" && (n < 0 <==> s[0] == '-')
            && var digits := if n < 0 then s[1..] else s;
               digits != "" && AllDigits(digits) && (digits[0] == '0' ==> n == 0 && digits == "0")
  {
    var m: nat := if n < 0 then -n else n;
    DigitsCanonical(m);
    DigitsRoundTrip(m);
    hide Digits, ParseDigits;
    assert n < 0 ==> FormatInt(n)[1..] == Digits(m);
  }

  lemma ParseSigned(digits: string, n: nat)
    requires ParseDigits(digits) == Some(n)
    ensures IsInt64(-(n as int)) ==> ParseInt("-" + digits) == Some(-(n as int))
    ensures digits != "" && '0' <= digits[0] <= '9' && IsInt64(n) ==> ParseInt(digits) == Some(n)
  {
    hide ParseDigits;
    assert ("-" + digits)[1..] == digits;
  }

  // Every int64 survives being printed and parsed.
  lemma RoundTrip(n: int)
    requires IsInt64(n)
    ensures ParseInt(FormatInt(n)) == Some(n)
    ensures forall i | 0 <= i < |FormatInt(n)| :: FormatInt(n)[i] == '-' || '0' <= FormatInt(n)[i] <= '9'
  {
    var m: nat := if n < 0 then -n else n;
    DigitsRoundTrip(m);
    ParseSigned(Digits(m), m);
    hide Digits, ParseDigits, ParseInt, IsInt64;
  }
}
