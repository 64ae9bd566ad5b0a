/** Characters, words and numerals of the texts the engine prints and reads. */
module Texts {
  import opened Basics

  // ---------- characters ----------

  predicate IsSpace(c: char) { c == ' ' || '\t' <= c <= '\r' }

  predicate IsDigit(c: char) { '0' <= c <= '9' }

  predicate IsNameStart(c: char) { 'a' <= c <= 'z' || 'A' <= c <= 'Z' || c == '_' }

  predicate IsNameCharacter(c: char) { IsNameStart(c) || IsDigit(c) }

  /** The first character of a text, and a null character at its end. */
  function Peek(s: string): char { if s == [] then '\0' else s[0] }

  lemma Regroup(a: string, b: string, c: string)
    ensures a + b + c == a + (b + c)
  {
  }

  // ---------- words ----------

  /** The text following leading whitespace. */
  function Skip(s: string): (r: string)
    ensures |r| <= |s| && (r != [] ==> !IsSpace(r[0]))
  {
    if s != [] && IsSpace(s[0]) then Skip(s[1..]) else s
  }

  lemma SkipsNothing(s: string)
    requires s != [] ==> !IsSpace(s[0])
    ensures Skip(s) == s
  {
  }

  /** Leading whitespace makes no difference once it is skipped. */
  lemma SkipsSpace(s: string)
    ensures Skip(" " + s) == Skip(s)
  {
    assert (" " + s)[1..] == s;
  }

  lemma {:induction false} SkipsAllSpace(space: string, s: string)
    requires (forall c <- space :: IsSpace(c)) && s != [] && !IsSpace(s[0])
    ensures Skip(space + s) == s
  {
    if space == [] {
      assert space + s == s;
    } else {
      assert (space + s)[1..] == space[1..] + s;
      SkipsAllSpace(space[1..], s);
    }
  }

  /** The number of characters at the beginning of a text that are all of a kind. */
  function Span(kind: char -> bool, s: string): (n: nat)
    ensures n <= |s| && (forall c <- s[..n] :: kind(c)) && (n < |s| ==> !kind(s[n]))
  {
    if s != [] && kind(s[0]) then 1 + Span(kind, s[1..]) else 0
  }

  lemma SpanIs(kind: char -> bool, s: string, n: nat)
    requires n <= |s| && (forall c <- s[..n] :: kind(c)) && (n < |s| ==> !kind(s[n]))
    ensures Span(kind, s) == n
  {
  }

  /** A word of one kind ends where a character of another kind follows. */
  lemma SpanOfWord(kind: char -> bool, word: string, rest: string)
    requires forall c <- word :: kind(c)
    requires rest != [] ==> !kind(rest[0])
    ensures Span(kind, word + rest) == |word|
    ensures (word + rest)[..|word|] == word && (word + rest)[|word|..] == rest
  {
    assert (word + rest)[..|word|] == word;
    SpanIs(kind, word + rest, |word|);
  }

  predicate IsWord(s: string) { s != [] && forall c <- s :: IsNameCharacter(c) }

  predicate IsName(s: string) { IsWord(s) && IsNameStart(s[0]) }

  // ---------- numerals ----------

  predicate AllDigits(s: string) { forall c <- s :: IsDigit(c) }

  function Digit(d: nat): (c: char)
    requires d < 10
  {
    ('0' as int + d) as char
  }

  lemma DigitsAreDistinguished(c: char)
    ensures IsDigit(c) ==> !IsSpace(c) && IsNameCharacter(c) && !IsNameStart(c)
    ensures IsNameCharacter(c) ==> !IsSpace(c)
  {
  }

  function DigitValue(c: char): nat
    requires IsDigit(c)
  {
    c as int - '0' as int
  }

  /** The decimal numeral of a number, without leading zeros. */
  function Numeral(n: nat): string {
    if n < 10 then [Digit(n)] else Numeral(n / 10) + [Digit(n % 10)]
  }

  function NumeralValue(s: string): nat
    requires AllDigits(s)
  {
    if s == [] then 0 else 10 * NumeralValue(ButLast(s)) + DigitValue(Last(s))
  }

  lemma {:induction false} NumeralRoundTrip(n: nat)
    ensures Numeral(n) != [] && AllDigits(Numeral(n)) && NumeralValue(Numeral(n)) == n
  {
    if n < 10 {
      assert ButLast(Numeral(n)) == [];
    } else {
      NumeralRoundTrip(n / 10);
      assert ButLast(Numeral(n)) == Numeral(n / 10);
    }
  }

  /** Only the numeral of zero begins with a zero. */
  lemma {:induction false} NumeralIsShort(n: nat)
    ensures Numeral(n) != [] && (Numeral(n)[0] == '0' <==> n == 0)
  {
    if n >= 10 {
      NumeralIsShort(n / 10);
    }
  }
}
