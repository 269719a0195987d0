/** src/config/size_parser.cpp: sizes such as "4k" or "1G", read and written. */
module SizeParser {
  import opened Types
  import opened Arithmetic

  const KILO := 0x400
  const MEGA := 0x10_0000
  const GIGA := 0x4000_0000

  datatype AllowedSuffixes = KM | KMG

  datatype SizeError = Empty | NoDigit | OutOfRange | TrailingCharacters | SuffixNotAllowed | UnknownSuffix | Overflows

  predicate IsDigit(c: char) {
    '0' <= c <= '9'
  }

  function DigitValue(c: char): (d: nat)
    requires IsDigit(c)
    ensures d <= 9
  {
    c as int - '0' as int
  }

  predicate AllDigits(s: string) {
    forall i :: 0 <= i < |s| ==> IsDigit(s[i])
  }

  /** The number a string of digits denotes. */
  function NumberOf(s: string): nat
    requires AllDigits(s)
  {
    if s == "" then 0 else 10 * NumberOf(s[..|s| - 1]) + DigitValue(s[|s| - 1])
  }

  /** std::to_string of an unsigned number. */
  function ToString(n: nat): string {
    if n < 10 then [('0' as int + n) as char] else ToString(n / 10) + [('0' as int + n % 10) as char]
  }

  lemma {:induction false} NumberOfToString(n: nat)
    ensures ToString(n) != "" && AllDigits(ToString(n)) && NumberOf(ToString(n)) == n
  {
    var s := ToString(n);
    if n < 10 {
      assert NumberOf(s[..0]) == 0;
    } else {
      NumberOfToString(n / 10);
      assert s[..|s| - 1] == ToString(n / 10);
    }
  }

  /** What a suffix multiplies by. */
  function Multiplier(suffix: char, allowed: AllowedSuffixes): (r: Result<nat, SizeError>)
    ensures r.Success? ==> r.value > 0
  {
    match suffix
    case 'k' | 'K' => Success(KILO)
    case 'm' | 'M' => Success(MEGA)
    case 'g' | 'G' => if allowed == KM then Failure(SuffixNotAllowed) else Success(GIGA)
    case _ => Failure(UnknownSuffix)
  }

  /** The number of leading digits of s, counting from `from`. */
  function DigitsEnd(s: string, from: nat): (pos: nat)
    requires from <= |s|
    ensures from <= pos <= |s| && AllDigits(s[from..pos])
    ensures pos < |s| ==> !IsDigit(s[pos])
    decreases |s| - from
  {
    if from < |s| && IsDigit(s[from]) then
      var pos := DigitsEnd(s, from + 1);
      assert forall i :: 0 < i < pos - from ==> s[from..pos][i] == s[from + 1..pos][i - 1];
      pos
    else from
  }

  function ParseOf(s: string, allowed: AllowedSuffixes): Result<nat, SizeError> {
    if s == "" then Failure(Empty)
    else if !IsDigit(s[0]) then Failure(NoDigit)
    else
      var pos := DigitsEnd(s, 0);
      var value := NumberOf(s[0..pos]);
      if value > U64_MAX then Failure(OutOfRange)
      else if pos == |s| then Success(value)
      else if pos + 1 != |s| then Failure(TrailingCharacters)
      else
        match Multiplier(s[pos], allowed)
        case Failure(e) => Failure(e)
        case Success(m) => if value > U64_MAX / m then Failure(Overflows) else Success(value * m)
  }

  method Parse(s: string, allowed: AllowedSuffixes) returns (r: Result<nat, SizeError>)
    ensures r == ParseOf(s, allowed)
    ensures forall n: nat :: r == Success(n) <==> Denotes(s, allowed, n) && n <= U64_MAX
  {
    forall n: nat ensures ParseOf(s, allowed) == Success(n) <==> Denotes(s, allowed, n) && n <= U64_MAX {
      ParseIsExact(s, allowed, n);
    }
    if s == "" {
      return Failure(Empty);
    }
    if !IsDigit(s[0]) {
      return Failure(NoDigit);
    }
    var pos := 0;
    while pos < |s| && IsDigit(s[pos])
      invariant pos <= |s| && DigitsEnd(s, pos) == DigitsEnd(s, 0)
    {
      pos := pos + 1;
    }
    var value := NumberOf(s[0..pos]);
    if value > U64_MAX {
      return Failure(OutOfRange);
    }
    if pos == |s| {
      return Success(value);
    }
    if pos + 1 != |s| {
      return Failure(TrailingCharacters);
    }
    var multiplier := 0;
    match s[pos] {
      case 'k' | 'K' => multiplier := KILO;
      case 'm' | 'M' => multiplier := MEGA;
      case 'g' | 'G' =>
        if allowed == KM {
          return Failure(SuffixNotAllowed);
        }
        multiplier := GIGA;
      case _ => return Failure(UnknownSuffix);
    }
    if value > U64_MAX / multiplier {
      return Failure(Overflows);
    }
    r := Success(value * multiplier);
  }

  function Format(bytes: nat): string {
    if bytes == 0 then "0"
    else if bytes % GIGA == 0 then ToString(bytes / GIGA) + "G"
    else if bytes % MEGA == 0 then ToString(bytes / MEGA) + "M"
    else if bytes % KILO == 0 then ToString(bytes / KILO) + "K"
    else ToString(bytes)
  }

  // ---------------------------------------------------------------------------
  // What a size string denotes, independently of how it is scanned

  function Unit(suffix: string, allowed: AllowedSuffixes): Option<nat> {
    if suffix == "" then Some(1)
    else if suffix == "k" || suffix == "K" then Some(1024)
    else if suffix == "m" || suffix == "M" then Some(1024 * 1024)
    else if allowed == KMG && (suffix == "g" || suffix == "G") then Some(1024 * 1024 * 1024)
    else None
  }

  ghost predicate Splits(s: string, allowed: AllowedSuffixes, digits: string, suffix: string, n: nat) {
    && s == digits + suffix && digits != "" && AllDigits(digits)
    && Unit(suffix, allowed).Some? && n == NumberOf(digits) * Unit(suffix, allowed).value
  }

  /** s is a number and an allowed unit, and they make n. */
  ghost predicate Denotes(s: string, allowed: AllowedSuffixes, n: nat) {
    exists digits, suffix :: Splits(s, allowed, digits, suffix, n)
  }

  /** A string is accepted, with its mathematical value, exactly when that value fits
      in 64 bits: the tests before the multiplication neither miss nor invent an overflow. */
  lemma ParseIsExact(s: string, allowed: AllowedSuffixes, n: nat)
    ensures ParseOf(s, allowed) == Success(n) <==> Denotes(s, allowed, n) && n <= U64_MAX
  {
    if Denotes(s, allowed, n) {
      var digits, suffix :| Splits(s, allowed, digits, suffix, n);
      SplitParses(s, allowed, digits, suffix, n);
    }
    if ParseOf(s, allowed) == Success(n) {
      var pos := DigitsEnd(s, 0);
      assert s == s[0..pos] + s[pos..];
      assert pos > 0;
      if pos == |s| {
        assert Splits(s, allowed, s[0..pos], "", n);
      } else {
        assert s[pos..] == [s[pos]];
        DivisionTest(Multiplier(s[pos], allowed).value, NumberOf(s[0..pos]), U64_MAX);
        assert Splits(s, allowed, s[0..pos], [s[pos]], n);
      }
    }
  }

  lemma SplitParses(s: string, allowed: AllowedSuffixes, digits: string, suffix: string, n: nat)
    requires Splits(s, allowed, digits, suffix, n)
    ensures if n <= U64_MAX then ParseOf(s, allowed) == Success(n) else ParseOf(s, allowed).Failure?
  {
    var unit := Unit(suffix, allowed).value;
    assert s[0] == digits[0];
    DigitsEndAt(s, |digits|, 0);
    assert s[0..|digits|] == digits;
    DivisionTest(unit, NumberOf(digits), U64_MAX);
    MulMonotone(NumberOf(digits), 1, unit);
    if suffix != "" {
      assert s[|digits|] == suffix[0] && |suffix| == 1;
    }
  }

  lemma {:induction false} DigitsEndAt(s: string, pos: nat, from: nat)
    requires from <= pos <= |s| && AllDigits(s[..pos]) && (pos < |s| ==> !IsDigit(s[pos]))
    ensures DigitsEnd(s, from) == pos
    decreases pos - from
  {
    if from < pos {
      assert s[from] == s[..pos][from];
      DigitsEndAt(s, pos, from + 1);
    }
  }

  /** The scan splits a string where its digits end. */
  lemma Scanned(digits: string, rest: string)
    requires digits != "" && AllDigits(digits) && (rest != "" ==> !IsDigit(rest[0]))
    ensures var s := digits + rest;
      && DigitsEnd(s, 0) == |digits| && s[0..|digits|] == digits && IsDigit(s[0])
      && (rest != "" ==> s[|digits|] == rest[0])
  {
    var s := digits + rest;
    assert s[0] == digits[0];
    assert s[..|digits|] == digits;
    assert rest != "" ==> s[|digits|] == rest[0];
    DigitsEndAt(s, |digits|, 0);
  }

  /** The outcome for a number and what follows it. */
  function OutcomeOf(value: nat, rest: string, allowed: AllowedSuffixes): Result<nat, SizeError> {
    if value > U64_MAX then Failure(OutOfRange)
    else if rest == "" then Success(value)
    else if |rest| > 1 then Failure(TrailingCharacters)
    else
      match Multiplier(rest[0], allowed)
      case Failure(e) => Failure(e)
      case Success(m) => if value > U64_MAX / m then Failure(Overflows) else Success(value * m)
  }

  lemma ParseByParts(digits: string, rest: string, allowed: AllowedSuffixes)
    requires digits != "" && AllDigits(digits) && (rest != "" ==> !IsDigit(rest[0]))
    ensures ParseOf(digits + rest, allowed) == OutcomeOf(NumberOf(digits), rest, allowed)
  {
    Scanned(digits, rest);
    hide Multiplier, NumberOf;
  }

  lemma OutcomeMeans(value: nat, rest: string, allowed: AllowedSuffixes)
    ensures var r := OutcomeOf(value, rest, allowed);
      && (r == Failure(OutOfRange) <==> value > U64_MAX)
      && (r == Failure(TrailingCharacters) <==> value <= U64_MAX && |rest| > 1)
      && (r == Failure(SuffixNotAllowed) <==> value <= U64_MAX && allowed == KM && (rest == "g" || rest == "G"))
      && (r == Failure(UnknownSuffix) <==> value <= U64_MAX && |rest| == 1 && !IsSuffix(rest[0]))
      && (r == Failure(Overflows) <==>
            value <= U64_MAX && rest != "" && Unit(rest, allowed).Some? && value * Unit(rest, allowed).value > U64_MAX)
  {
    if |rest| == 1 {
      OneCharacter(rest);
      if Unit(rest, allowed).Some? {
        DivisionTest(Unit(rest, allowed).value, value, U64_MAX);
      }
    }
  }

  /** What is told of a string that starts with a digit, by its digits and the rest. */
  lemma ParseReports(digits: string, rest: string, allowed: AllowedSuffixes)
    requires digits != "" && AllDigits(digits) && (rest != "" ==> !IsDigit(rest[0]))
    ensures var r, value := ParseOf(digits + rest, allowed), NumberOf(digits);
      && (r == Failure(OutOfRange) <==> value > U64_MAX)
      && (r == Failure(TrailingCharacters) <==> value <= U64_MAX && |rest| > 1)
      && (r == Failure(SuffixNotAllowed) <==> value <= U64_MAX && allowed == KM && (rest == "g" || rest == "G"))
      && (r == Failure(UnknownSuffix) <==> value <= U64_MAX && |rest| == 1 && !IsSuffix(rest[0]))
      && (r == Failure(Overflows) <==>
            value <= U64_MAX && rest != "" && Unit(rest, allowed).Some? && value * Unit(rest, allowed).value > U64_MAX)
  {
    hide ParseOf, OutcomeOf, NumberOf, Unit, IsSuffix;
    ParseByParts(digits, rest, allowed);
    OutcomeMeans(NumberOf(digits), rest, allowed);
  }

  predicate IsSuffix(c: char) {
    c == 'k' || c == 'K' || c == 'm' || c == 'M' || c == 'g' || c == 'G'
  }

  lemma OneCharacter(s: string)
    requires |s| == 1
    ensures s == [s[0]]
  {
  }

  /** ... and of one that does not. */
  lemma ParseReportsNoNumber(s: string, allowed: AllowedSuffixes)
    ensures ParseOf(s, allowed) == Failure(Empty) <==> s == ""
    ensures ParseOf(s, allowed) == Failure(NoDigit) <==> s != "" && !('0' <= s[0] <= '9')
  {
  }

  // ---------------------------------------------------------------------------
  // Printing and parsing

  /** Numbers are printed without leading zeros. */
  lemma {:induction false} NoLeadingZero(n: nat)
    ensures |ToString(n)| >= 1 && (n > 0 ==> ToString(n)[0] != '0') && (n == 0 ==> ToString(n) == "0")
  {
    if n >= 10 {
      NoLeadingZero(n / 10);
    }
  }

  /** A size is printed in the largest unit that divides it. */
  lemma FormatUsesLargestUnit(n: nat)
    ensures n == 0 ==> Format(n) == "0"
    ensures n > 0 && n % (1024 * 1024 * 1024) == 0 ==> Format(n) == ToString(n / (1024 * 1024 * 1024)) + "G"
    ensures n % (1024 * 1024 * 1024) != 0 && n % (1024 * 1024) == 0 ==> Format(n) == ToString(n / (1024 * 1024)) + "M"
    ensures n % (1024 * 1024) != 0 && n % 1024 == 0 ==> Format(n) == ToString(n / 1024) + "K"
    ensures n % 1024 != 0 ==> Format(n) == ToString(n)
  {
    hide ToString;
    UnitsNest(n);
  }

  /** What a larger unit divides, the smaller ones divide. */
  lemma UnitsNest(n: nat)
    ensures n % GIGA == 0 ==> n % MEGA == 0
    ensures n % MEGA == 0 ==> n % KILO == 0
  {
    if n % GIGA == 0 {
      DivModUnique(n, MEGA, 1024 * (n / GIGA), 0);
    }
    if n % MEGA == 0 {
      DivModUnique(n, KILO, 1024 * (n / MEGA), 0);
    }
  }

  lemma FormatDenotes(n: nat)
    ensures Denotes(Format(n), KMG, n)
    ensures !(n > 0 && n % GIGA == 0) ==> Denotes(Format(n), KM, n)
  {
    var unit, suffix :=
      if n == 0 then 1
      else if n % GIGA == 0 then GIGA else if n % MEGA == 0 then MEGA else if n % KILO == 0 then KILO else 1,
      if n == 0 then ""
      else if n % GIGA == 0 then "G" else if n % MEGA == 0 then "M" else if n % KILO == 0 then "K" else "";
    NumberOfToString(n / unit);
    assert Format(n) == ToString(n / unit) + suffix;
    assert Splits(Format(n), KMG, ToString(n / unit), suffix, n);
    if !(n > 0 && n % GIGA == 0) {
      assert Splits(Format(n), KM, ToString(n / unit), suffix, n);
    }
  }

  /** Parse undoes Format on every 64-bit number. */
  lemma ParseUndoesFormat(n: nat)
    requires n <= U64_MAX
    ensures ParseOf(Format(n), KMG) == Success(n)
  {
    FormatDenotes(n);
    ParseIsExact(Format(n), KMG, n);
  }

  lemma GigaRefused(digits: string)
    requires digits != "" && AllDigits(digits) && NumberOf(digits) <= U64_MAX
    ensures ParseOf(digits + "G", KM) == Failure(SuffixNotAllowed)
  {
    var s := digits + "G";
    assert s[0] == digits[0] && s[|digits|] == 'G';
    DigitsEndAt(s, |digits|, 0);
    assert s[0..|digits|] == digits;
  }

  /** With k and m only, it fails exactly on the positive multiples of 1 GiB. */
  lemma ParseUndoesFormatUnlessGiga(n: nat)
    requires n <= U64_MAX
    ensures ParseOf(Format(n), KM) == (if n > 0 && n % GIGA == 0 then Failure(SuffixNotAllowed) else Success(n))
  {
    if n > 0 && n % GIGA == 0 {
      hide ParseOf;
      NumberOfToString(n / GIGA);
      GigaRefused(ToString(n / GIGA));
    } else {
      FormatDenotes(n);
      ParseIsExact(Format(n), KM, n);
    }
  }
}
