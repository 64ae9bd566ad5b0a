/** How a single value is printed, and how a member of a literal is read as one. Numbers are exact, scaled by 10^6. */
module ValueTexts {
  import opened Basics
  import opened Schemas
  import opened Sequences
  import opened Texts

  // ---------- the registry of strings ----------

  /** A string is represented by its index among the strings registered. */
  function IndexOf(strings: seq<string>, s: string): (k: Option<nat>)
    ensures k.Some? ==> k.value < |strings| && strings[k.value] == s
    ensures k.None? ==> s !in strings
  {
    if strings == [] then None
    else if Last(strings) == s then Some(|strings| - 1)
    else IndexOf(ButLast(strings), s)
  }

  function Registered(strings: seq<string>, s: string): seq<string> {
    if IndexOf(strings, s).Some? then strings else strings + [s]
  }

  function RegisteredIndex(strings: seq<string>, s: string): (k: nat)
    ensures k < |Registered(strings, s)| && Registered(strings, s)[k] == s
  {
    match IndexOf(strings, s)
    case Some(k) => k
    case None => |strings|
  }

  // ---------- printing ----------

  function Abs(v: int): nat { if v < 0 then -v else v }

  function Sign(v: int): string { if v < 0 then "-" else "" }

  /** The conversion of a number to a 32-bit integer: the fraction is dropped and the rest wraps around. */
  function ToInt(v: int): int {
    var whole := if v < 0 then -(-v / SCALE) else v / SCALE;
    (whole + 0x8000_0000) % 0x1_0000_0000 - 0x8000_0000
  }

  function IntegerText(i: int): string {
    Sign(i) + Numeral(Abs(i))
  }

  /** The last digits of a number. */
  function Padded(n: nat, width: nat): (s: string)
    ensures |s| == width && AllDigits(s)
  {
    if width == 0 then "" else Padded(n / 10, width - 1) + [Digit(n % 10)]
  }

  /** A number written with six digits after the decimal point. */
  function FixedText(v: int): string {
    Sign(v) + Numeral(Abs(v) / SCALE) + "." + Padded(Abs(v) % SCALE, 6)
  }

  function WithoutZeros(s: string): string {
    if s != [] && Last(s) == '0' then WithoutZeros(ButLast(s)) else s
  }

  /** What printing a double gives: at most six digits of the fraction, as few as possible. */
  function ShortText(v: int): string {
    var text := WithoutZeros(FixedText(v));
    if text != [] && Last(text) == '.' then ButLast(text) else text
  }

  /** The text of a decimal; DecimalTextIs shows that it always has a point. */
  function DecimalText(v: int): string {
    var text := ShortText(v);
    if forall c <- text :: c == '-' || IsDigit(c) then text + ".0" else text
  }

  /** The string a value represents is registered. */
  predicate Represents(v: int, t: ValueType, strings: seq<string>) {
    t == STRING ==> 0 <= v / SCALE < |strings|
  }

  function ValueText(v: int, t: ValueType, strings: seq<string>): string
    requires Represents(v, t, strings)
  {
    match t
    case BOOLEAN => if v != 0 then "true" else "false"
    case INTEGER => IntegerText(ToInt(v))
    case DECIMAL => DecimalText(v)
    case STRING => "\"" + strings[v / SCALE] + "\""
  }

  // ---------- reading ----------

  datatype Scalar = Scalar(value: int, valueType: ValueType)

  function Find(c: char, s: string): (k: nat)
    ensures k <= |s| && (k < |s| ==> s[k] == c)
  {
    if s == [] || s[0] == c then 0 else 1 + Find(c, s[1..])
  }

  predicate IsNumeral(s: string) { s != [] && AllDigits(s) }

  predicate IsDecimal(s: string) {
    var point := Find('.', s);
    point < |s| && IsNumeral(s[..point]) && IsNumeral(s[point + 1..])
  }

  /** The millionths the digits after a decimal point state; further digits are dropped. */
  function Millionths(digits: string): nat
    requires AllDigits(digits)
  {
    NumeralValue((digits + "000000")[..6])
  }

  function Signed(negative: bool, n: nat): int { if negative then 0 - n else n }

  function NumberOf(member: string): Option<Scalar>
    requires member != []
  {
    var negative := member[0] == '-';
    var number := if negative then member[1..] else member;
    if IsNumeral(number) then Some(Scalar(Signed(negative, NumeralValue(number) * SCALE), INTEGER))
    else if IsDecimal(number) then
      var point := Find('.', number);
      var magnitude := NumeralValue(number[..point]) * SCALE + Millionths(number[point + 1..]);
      Some(Scalar(Signed(negative, magnitude), DECIMAL))
    else None
  }

  predicate IsQuoted(member: string) {
    |member| > 1 && member[0] == '"' && Find('"', member[1..]) == |member| - 2
  }

  /** The scalar a member states, and the strings registered then; no scalar for any other text. */
  function ReadScalar(member: string, strings: seq<string>): Option<(Scalar, seq<string>)>
    requires member != []
  {
    if IsQuoted(member) then
      var s := member[1..|member| - 1];
      Some((Scalar(RegisteredIndex(strings, s) * SCALE, STRING), Registered(strings, s)))
    else if member == "false" then Some((Scalar(0, BOOLEAN), strings))
    else if member == "true" then Some((Scalar(SCALE, BOOLEAN), strings))
    else match NumberOf(member)
      case Some(scalar) => Some((scalar, strings))
      case None => None
  }

  // ---------- the round trip ----------

  /** The values a member can state. */
  ghost predicate Proper(v: int, t: ValueType, strings: seq<string>) {
    match t
    case BOOLEAN => v == 0 || v == SCALE
    case INTEGER => v % SCALE == 0
    case DECIMAL => true
    case STRING => v % SCALE == 0 && 0 <= v / SCALE < |strings| && '"' !in strings[v / SCALE]
  }

  /** An integer attribute holds a whole number of 32 bits. */
  ghost predicate InRange(v: int, t: ValueType) {
    t == INTEGER ==> v % SCALE == 0 && -0x8000_0000 <= v / SCALE < 0x8000_0000
  }

  /** The number without its fraction. */
  ghost predicate IsCut(v: int, whole: int) {
    if v >= 0 then whole * SCALE <= v < (whole + 1) * SCALE else (whole - 1) * SCALE < v <= whole * SCALE
  }

  /** Only whole numbers of 32 bits are converted to themselves. */
  lemma ToIntIsExact(v: int)
    ensures ToInt(v) * SCALE == v <==> v % SCALE == 0 && -0x8000_0000 <= v / SCALE < 0x8000_0000
  {
    var whole := v / SCALE;
    if v % SCALE == 0 {
      assert v == whole * SCALE && -v == (-whole) * SCALE;
      assert -v / SCALE == -whole;
    }
  }

  /** The conversion gives 32 bits, and differs from the number without its fraction by a multiple of 2^32. */
  lemma ToIntWraps(v: int)
    ensures -0x8000_0000 <= ToInt(v) < 0x8000_0000
    ensures exists whole :: IsCut(v, whole) && (ToInt(v) - whole) % 0x1_0000_0000 == 0
  {
    var whole := if v < 0 then -(-v / SCALE) else v / SCALE;
    assert IsCut(v, whole);
    var shifted := whole + 0x8000_0000;
    assert ToInt(v) - whole == shifted % 0x1_0000_0000 - shifted == -(shifted / 0x1_0000_0000) * 0x1_0000_0000;
  }

  lemma {:induction false} NotFoundBefore(c: char, s: string)
    ensures c !in s[..Find(c, s)]
  {
    if s != [] && s[0] != c {
      NotFoundBefore(c, s[1..]);
      assert s[..Find(c, s)] == [s[0]] + s[1..][..Find(c, s[1..])];
    }
  }

  lemma {:induction false} FindFirst(c: char, before: string, rest: string)
    requires c !in before
    ensures Find(c, before + [c] + rest) == |before|
  {
    if before == [] {
      assert before + [c] + rest == [c] + rest;
    } else {
      assert (before + [c] + rest)[1..] == before[1..] + [c] + rest;
      FindFirst(c, before[1..], rest);
    }
  }

  lemma {:induction false} WithoutZerosIsPrefix(s: string)
    ensures WithoutZeros(s) <= s && forall i | |WithoutZeros(s)| <= i < |s| :: s[i] == '0'
  {
    if s != [] && Last(s) == '0' {
      WithoutZerosIsPrefix(ButLast(s));
    }
  }

  lemma {:induction false} WithoutZerosOfRest(before: string, s: string)
    requires before != [] && Last(before) != '0'
    ensures WithoutZeros(before + s) == before + WithoutZeros(s)
  {
    if s == [] {
      assert before + s == before;
    } else if Last(s) == '0' {
      assert ButLast(before + s) == before + ButLast(s);
      WithoutZerosOfRest(before, ButLast(s));
    }
  }

  function Ten(k: nat): nat { if k == 0 then 1 else 10 * Ten(k - 1) }

  lemma {:induction false} PaddedValue(n: nat, width: nat)
    requires n < Ten(width)
    ensures NumeralValue(Padded(n, width)) == n
  {
    if width > 0 {
      PaddedValue(n / 10, width - 1);
      assert ButLast(Padded(n, width)) == Padded(n / 10, width - 1);
    }
  }

  /** The digits printed after the decimal point. */
  function Fraction(v: int): string {
    var digits := WithoutZeros(Padded(Abs(v) % SCALE, 6));
    if digits == "" then "0" else digits
  }

  lemma FractionIsRead(v: int)
    ensures IsNumeral(Fraction(v)) && Millionths(Fraction(v)) == Abs(v) % SCALE
  {
    hide WithoutZeros, Padded, NumeralValue;
    var n := Abs(v) % SCALE;
    var padded := Padded(n, 6);
    WithoutZerosIsPrefix(padded);
    assert Ten(6) == SCALE;
    PaddedValue(n, 6);
    var digits := WithoutZeros(padded);
    assert digits == padded[..|digits|];
    assert (Fraction(v) + "000000")[..6] == padded;
  }

  lemma DecimalTextIs(v: int)
    ensures DecimalText(v) == Sign(v) + Numeral(Abs(v) / SCALE) + "." + Fraction(v)
  {
    hide WithoutZeros, Padded, Numeral;
    var whole := Sign(v) + Numeral(Abs(v) / SCALE);
    var padded := Padded(Abs(v) % SCALE, 6);
    var digits := WithoutZeros(padded);
    NumeralRoundTrip(Abs(v) / SCALE);
    WithoutZerosOfRest(whole + ".", padded);
    WithoutZerosIsPrefix(padded);
    var text := whole + "." + digits;
    assert WithoutZeros(FixedText(v)) == text;
    if digits == "" {
      assert ButLast(text) == whole;
      assert ".0" == "." + "0";
      Regroup(whole, ".", "0");
    } else {
      assert Last(text) == Last(digits) && IsDigit(Last(digits));
      assert ShortText(v) == text;
      assert text[|whole|] == '.' && '.' in text;
    }
  }

  /** A number is printed with a sign exactly if it is negative, and without zeros that could be left out. */
  lemma TextsAreShort(v: int)
    ensures DecimalText(v) != [] && (DecimalText(v)[0] == '-' <==> v < 0)
    ensures IntegerText(v) != [] && (IntegerText(v)[0] == '-' <==> v < 0)
    ensures |Fraction(v)| > 1 ==> Last(Fraction(v)) != '0'
    ensures Numeral(Abs(v) / SCALE) != [] && (Numeral(Abs(v) / SCALE)[0] == '0' <==> -SCALE < v < SCALE)
  {
    hide Numeral, Padded, DecimalText, Fraction, WithoutZeros;
    DecimalTextIs(v);
    NumeralRoundTrip(Abs(v) / SCALE);
    NumeralRoundTrip(Abs(v));
    NumeralIsShort(Abs(v) / SCALE);
    assert Numeral(Abs(v))[0] in Numeral(Abs(v)) && Numeral(Abs(v) / SCALE)[0] in Numeral(Abs(v) / SCALE);
    FractionIsShort(v);
  }

  lemma FractionIsShort(v: int)
    ensures |Fraction(v)| > 1 ==> Last(Fraction(v)) != '0'
  {
    hide Padded;
    NoZeroLast(Padded(Abs(v) % SCALE, 6));
  }

  lemma {:induction false} NoZeroLast(s: string)
    ensures WithoutZeros(s) != [] ==> Last(WithoutZeros(s)) != '0'
  {
    if s != [] && Last(s) == '0' {
      NoZeroLast(ButLast(s));
    }
  }

  lemma IntegerIsRead(i: int)
    ensures NumberOf(IntegerText(i)) == Some(Scalar(i * SCALE, INTEGER))
  {
    hide Numeral, NumeralValue;
    var numeral := Numeral(Abs(i));
    NumeralRoundTrip(Abs(i));
    assert numeral[0] in numeral;
    NumberIsRead(i < 0, numeral);
  }

  /** A sign is told from the digits following it. */
  lemma NumberIsRead(negative: bool, number: string)
    requires number != [] && number[0] != '-'
    ensures var member := (if negative then "-" else "") + number;
            && member != [] && (member[0] == '-') == negative
            && (if negative then member[1..] else member) == number
  {
    assert "" + number == number;
  }

  /** A decimal is told from an integer by its point, which separates its digits. */
  lemma SplitsAtPoint(numeral: string, fraction: string)
    requires IsNumeral(numeral) && IsNumeral(fraction)
    ensures var number := numeral + "." + fraction;
            && number != [] && number[0] != '-' && !IsNumeral(number) && IsDecimal(number)
            && Find('.', number) == |numeral|
            && number[..|numeral|] == numeral && number[|numeral| + 1..] == fraction
  {
    var number := numeral + "." + fraction;
    assert numeral[0] in numeral;
    assert '.' !in numeral;
    FindFirst('.', numeral, fraction);
    assert number[..|numeral|] == numeral && number[|numeral| + 1..] == fraction;
    assert number[|numeral|] == '.' && '.' in number;
  }

  lemma DecimalIsRead(v: int)
    ensures DecimalText(v) != [] && NumberOf(DecimalText(v)) == Some(Scalar(v, DECIMAL))
  {
    hide Numeral, NumeralValue, Fraction, Millionths, DecimalText, Find, IsDecimal, AllDigits;
    var numeral, fraction := Numeral(Abs(v) / SCALE), Fraction(v);
    NumeralRoundTrip(Abs(v) / SCALE);
    FractionIsRead(v);
    DecimalTextIs(v);
    SplitsAtPoint(numeral, fraction);
    Regroup(Sign(v), numeral, ".");
    Regroup(Sign(v), numeral + ".", fraction);
    NumberIsRead(v < 0, numeral + "." + fraction);
  }

  lemma {:induction false} IndexOfRegistered(strings: seq<string>, k: nat)
    requires Distinct(strings) && k < |strings|
    ensures IndexOf(strings, strings[k]) == Some(k)
  {
    if k < |strings| - 1 {
      IndexOfRegistered(ButLast(strings), k);
    }
  }

  /** No character of the text ends a member, and none is removed from its ends. */
  predicate IsPlain(s: string) {
    s != [] && forall c <- s :: IsNameCharacter(c) || c == '-' || c == '.'
  }

  lemma ValueTextIsPlain(v: int, t: ValueType, strings: seq<string>)
    requires t != STRING
    ensures IsPlain(ValueText(v, t, strings))
  {
    match t
    case BOOLEAN =>
    case INTEGER =>
      NumeralRoundTrip(Abs(ToInt(v)));
    case DECIMAL =>
      DecimalTextIs(v);
      NumeralRoundTrip(Abs(v) / SCALE);
      FractionIsRead(v);
  }

  /** A proper value is read back from its text, and nothing is registered. */
  lemma ValueRoundTrip(v: int, t: ValueType, strings: seq<string>)
    requires Distinct(strings) && Proper(v, t, strings) && InRange(v, t)
    ensures ValueText(v, t, strings) != []
    ensures ReadScalar(ValueText(v, t, strings), strings) == Some((Scalar(v, t), strings))
  {
    hide NumberOf, IntegerText, DecimalText, ToInt;
    var text := ValueText(v, t, strings);
    match t
    case BOOLEAN =>
    case INTEGER =>
      ValueTextIsPlain(v, t, strings);
      ToIntIsExact(v);
      IntegerIsRead(ToInt(v));
      NotATruthValue(text, strings);
    case DECIMAL =>
      ValueTextIsPlain(v, t, strings);
      DecimalIsRead(v);
      NotATruthValue(text, strings);
    case STRING =>
      var s := strings[v / SCALE];
      assert text[1..] == s + ['"'] + [];
      FindFirst('"', s, []);
      assert text[1..|text| - 1] == s;
      IndexOfRegistered(strings, v / SCALE);
  }

  lemma NotATruthValue(member: string, strings: seq<string>)
    requires IsPlain(member) && NumberOf(member).Some?
    ensures ReadScalar(member, strings) == Some((NumberOf(member).value, strings))
  {
    assert member[0] in member;
  }

  lemma NumberIsProper(member: string)
    requires member != [] && NumberOf(member).Some?
    ensures var r := NumberOf(member).value; r.valueType != STRING && Proper(r.value, r.valueType, [])
  {
    hide NumeralValue, Millionths;
  }

  /** Whatever is read is proper, and the strings registered before keep their indices. */
  lemma ReadScalarIsProper(member: string, strings: seq<string>)
    requires Distinct(strings) && member != [] && ReadScalar(member, strings).Some?
    ensures var (scalar, registered) := ReadScalar(member, strings).value;
            strings <= registered && Distinct(registered) && Proper(scalar.value, scalar.valueType, registered)
  {
    hide NumberOf;
    if IsQuoted(member) {
      var inner := member[1..];
      NotFoundBefore('"', inner);
      assert member[1..|member| - 1] == inner[..Find('"', inner)];
    } else if member != "false" && member != "true" {
      NumberIsProper(member);
    }
  }

  /** Printing a double and removing the zeros the printing pads it with. */
  method ToString(v: int) returns (text: string)
    ensures text == ShortText(v)
  {
    text := FixedText(v);
    while text != [] && text[|text| - 1] == '0'
      invariant WithoutZeros(text) == WithoutZeros(FixedText(v))
    {
      text := text[..|text| - 1];
    }
    if text != [] && text[|text| - 1] == '.' {
      text := text[..|text| - 1];
    }
  }
}
