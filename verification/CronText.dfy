/** Parsing cron fields, against the text they are written as. */
module CronText {
  import opened Outcomes
  import opened Texts
  import opened Cron

  const MAX_INT := 0x7FFF_FFFF_FFFF_FFFF

  // ----- Decimal numbers -----

  predicate IsDigit(c: char) { '0' <= c <= '9' }

  function DigitValue(c: char): int
    requires IsDigit(c)
  {
    c as int - '0' as int
  }

  /** The value of a digit string. */
  function ValueOf(s: string): int
    requires forall c :: c in s ==> IsDigit(c)
  {
    if s == [] then 0 else 10 * ValueOf(s[..|s| - 1]) + DigitValue(s[|s| - 1])
  }

  predicate AllDigits(s: string) {
    s != [] && forall c :: c in s ==> IsDigit(c)
  }

  /** An optional sign and digits, within 64 bits. */
  function Atoi(s: string): Option<int> {
    var negative := s != [] && s[0] == '-';
    var digits := if s != [] && s[0] in "+-" then s[1..] else s;
    if !AllDigits(digits) then None
    else
      var v := if negative then -ValueOf(digits) else ValueOf(digits);
      if -MAX_INT - 1 <= v <= MAX_INT then Some(v) else None
  }

  function Decimal(n: nat): string {
    if n < 10 then [('0' as int + n) as char] else Decimal(n / 10) + [('0' as int + n % 10) as char]
  }

  // ----- What a number is written as -----

  function Zeros(n: nat): string {
    seq(n, _ => '0')
  }

  function Magnitude(v: int): nat {
    if v < 0 then -v else v
  }

  /** A sign that fits the number, leading zeros and its decimal digits. */
  predicate WrittenWith(s: string, v: int, sign: string, zeros: nat) {
    && sign in {"", "+", "-"}
    && (sign == "-" ==> v <= 0) && (v < 0 ==> sign == "-")
    && s == sign + Zeros(zeros) + Decimal(Magnitude(v))
  }

  ghost predicate Numeral(s: string, v: int) {
    -9_223_372_036_854_775_808 <= v <= 9_223_372_036_854_775_807 && exists sign, zeros :: WrittenWith(s, v, sign, zeros)
  }

  lemma {:induction false} DecimalReads(n: nat)
    ensures AllDigits(Decimal(n)) && ValueOf(Decimal(n)) == n
    decreases n
  {
    var s := Decimal(n);
    if n >= 10 {
      DecimalReads(n / 10);
      assert s[..|s| - 1] == Decimal(n / 10);
    } else {
      assert s[..0] == [];
    }
  }

  lemma {:induction false} LeadingZeros(k: nat, d: string)
    requires forall c :: c in d ==> IsDigit(c)
    ensures forall c :: c in Zeros(k) + d ==> IsDigit(c)
    ensures ValueOf(Zeros(k) + d) == ValueOf(d)
    decreases k + |d|
  {
    var s := Zeros(k) + d;
    if d != [] {
      LeadingZeros(k, d[..|d| - 1]);
      assert s[..|s| - 1] == Zeros(k) + d[..|d| - 1];
    } else if k > 0 {
      LeadingZeros(k - 1, d);
      assert s[..|s| - 1] == Zeros(k - 1) + d;
    }
  }

  lemma {:induction false} ValueIsNatural(s: string)
    requires forall c :: c in s ==> IsDigit(c)
    ensures ValueOf(s) >= 0
    decreases |s|
  {
    if s != [] {
      ValueIsNatural(s[..|s| - 1]);
      assert s[|s| - 1] in s;
    }
  }

  lemma DecimalGrows(zeros: nat, n: nat, c: char)
    requires IsDigit(c)
    ensures n == 0 ==> Zeros(zeros) + Decimal(n) + [c] == Zeros(zeros + 1) + Decimal(DigitValue(c))
    ensures n > 0 ==> Zeros(zeros) + Decimal(n) + [c] == Zeros(zeros) + Decimal(10 * n + DigitValue(c))
  {
    if n == 0 {
      assert Zeros(zeros + 1) == Zeros(zeros) + "0";
    } else {
      var m := 10 * n + DigitValue(c);
      assert m / 10 == n && m % 10 == DigitValue(c);
    }
  }

  lemma ValueOfLonger(front: string, c: char)
    requires (forall d :: d in front ==> IsDigit(d)) && IsDigit(c)
    ensures ValueOf(front + [c]) == 10 * ValueOf(front) + DigitValue(c)
  {
    assert (front + [c])[..|front|] == front;
  }

  /** Every digit string is the decimal of its value behind some zeros. */
  lemma {:induction false} DigitsAreDecimal(s: string) returns (zeros: nat)
    requires AllDigits(s)
    ensures ValueOf(s) >= 0 && s == Zeros(zeros) + Decimal(ValueOf(s))
    decreases |s|
  {
    hide Decimal, Zeros, ValueOf, DigitValue;
    var front, c := s[..|s| - 1], s[|s| - 1];
    ValueIsNatural(s);
    assert c in s && s == front + [c];
    ValueOfLonger(front, c);
    if front == [] {
      zeros := 0;
      OneDigit(c);
    } else {
      zeros := DigitsAreDecimal(front);
      DecimalGrows(zeros, ValueOf(front), c);
      if ValueOf(front) == 0 {
        zeros := zeros + 1;
      }
    }
  }

  lemma OneDigit(c: char)
    requires IsDigit(c)
    ensures ValueOf([]) == 0 && DigitValue(c) >= 0 && [c] == Zeros(0) + Decimal(DigitValue(c))
  {}

  /** What Atoi accepts, and the value it reads. */
  lemma AtoiIff(s: string, v: int)
    ensures Atoi(s) == Some(v) <==> Numeral(s, v)
  {
    if Numeral(s, v) {
      var sign, zeros :| WrittenWith(s, v, sign, zeros);
      NumeralRead(s, v, sign, zeros);
    }
    if Atoi(s) == Some(v) {
      var sign, zeros := NumeralFound(s, v);
    }
  }

  lemma SignedDigits(sign: string, digits: string)
    requires sign in {"", "+", "-"} && AllDigits(digits)
    ensures var s, v := sign + digits, if sign == "-" then -ValueOf(digits) else ValueOf(digits);
      -MAX_INT - 1 <= v <= MAX_INT ==> Atoi(s) == Some(v)
  {
    hide ValueOf;
    var s := sign + digits;
    assert digits[0] in digits;
    if sign == [] {
      assert s == digits;
    } else {
      assert s[1..] == digits && s[0] == sign[0];
    }
  }

  lemma NumeralRead(s: string, v: int, sign: string, zeros: nat)
    requires WrittenWith(s, v, sign, zeros) && -MAX_INT - 1 <= v <= MAX_INT
    ensures Atoi(s) == Some(v)
  {
    hide Decimal, Zeros, ValueOf, Atoi;
    var digits := Zeros(zeros) + Decimal(Magnitude(v));
    DecimalReads(Magnitude(v));
    LeadingZeros(zeros, Decimal(Magnitude(v)));
    assert s == sign + digits;
    SignedDigits(sign, digits);
  }

  function SignOf(s: string): (sign: string)
    ensures sign in {"", "+", "-"} && sign <= s
  {
    if s != [] && s[0] == '-' then "-" else if s != [] && s[0] == '+' then "+" else ""
  }

  lemma AtoiAsSigned(s: string)
    requires Atoi(s).Some?
    ensures var digits := s[|SignOf(s)|..];
      AllDigits(digits) && Atoi(s).value == if SignOf(s) == "-" then -ValueOf(digits) else ValueOf(digits)
  {}

  lemma NumeralFound(s: string, v: int) returns (sign: string, zeros: nat)
    requires Atoi(s) == Some(v)
    ensures WrittenWith(s, v, sign, zeros)
  {
    hide Decimal, Zeros, ValueOf, AllDigits, Atoi, SignOf;
    sign := SignOf(s);
    AtoiAsSigned(s);
    zeros := DigitsAreDecimal(s[|sign|..]);
    assert s == sign + s[|sign|..];
  }

  // ----- Fields -----

  function NumberIn(s: string, min: int, max: int): Option<int> {
    match Atoi(s)
    case None => None
    case Some(v) => if v < min || v > max then None else Some(v)
  }

  /** The numbers of a list, unless one is missing or out of range. */
  function Numbers(parts: seq<string>, min: int, max: int): Option<seq<int>> {
    if parts == [] then Some([])
    else
      var k := |parts| - 1;
      match (Numbers(parts[..k], min, max), NumberIn(TrimSpace(parts[k]), min, max))
      case (Some(values), Some(v)) => Some(values + [v])
      case _ => None
  }

  function StepField(field: string, min: int, max: int): Option<Matcher>
    requires |field| >= 2
  {
    match Atoi(field[2..])
    case None => None
    case Some(step) => if step < 1 || step > max then None else Some(Step(step, min, max))
  }

  function RangeField(field: string, min: int, max: int): Option<Matcher> {
    var parts := Split('-', field);
    if |parts| != 2 then None
    else match (Atoi(TrimSpace(parts[0])), Atoi(TrimSpace(parts[1])))
      case (Some(start), Some(end)) => if start < min || end > max || start > end then None else Some(Range(start, end))
      case _ => None
  }

  /** The matcher of a field. */
  function Parsed(field: string, min: int, max: int): Option<Matcher> {
    if field == "*" then Some(Wildcard)
    else if "*/" <= field then StepField(field, min, max)
    else if ',' in field then
      match Numbers(Split(',', field), min, max)
      case None => None
      case Some(values) => Some(List(values))
    else if '-' in field then RangeField(field, min, max)
    else match NumberIn(field, min, max)
      case None => None
      case Some(v) => Some(Exact(v))
  }

  method ParseField(field: string, min: int, max: int) returns (m: Option<Matcher>)
    ensures m == Parsed(field, min, max)
  {
    if field == "*" {
      return Some(Wildcard);
    }
    if "*/" <= field {
      var step := Atoi(field[2..]);
      if step.None? || step.value < 1 || step.value > max {
        return None;
      }
      return Some(Step(step.value, min, max));
    }
    if ',' in field {
      var parts := Split(',', field);
      var values := [];
      for i := 0 to |parts|
        invariant Numbers(parts[..i], min, max) == Some(values)
      {
        assert parts[..i + 1][..i] == parts[..i];
        var v := Atoi(TrimSpace(parts[i]));
        if v.None? || v.value < min || v.value > max {
          NumbersFail(parts, i + 1, min, max);
          return None;
        }
        values := values + [v.value];
      }
      assert parts[..|parts|] == parts;
      return Some(List(values));
    }
    if '-' in field {
      var parts := Split('-', field);
      if |parts| != 2 {
        return None;
      }
      var start, end := Atoi(TrimSpace(parts[0])), Atoi(TrimSpace(parts[1]));
      if start.None? || end.None? || start.value < min || end.value > max || start.value > end.value {
        return None;
      }
      return Some(Range(start.value, end.value));
    }
    var v := Atoi(field);
    if v.None? || v.value < min || v.value > max {
      return None;
    }
    return Some(Exact(v.value));
  }

  lemma {:induction false} NumbersFail(parts: seq<string>, n: nat, min: int, max: int)
    requires n <= |parts| && Numbers(parts[..n], min, max).None?
    ensures Numbers(parts, min, max).None?
    decreases |parts|
  {
    hide NumberIn, TrimSpace;
    if n == |parts| {
      assert parts[..n] == parts;
    } else {
      var k := |parts| - 1;
      assert parts[..k][..n] == parts[..n];
      NumbersFail(parts[..k], n, min, max);
    }
  }
}
