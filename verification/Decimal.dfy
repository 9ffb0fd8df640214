/** The canonical decimal numbers of `src/metadata.rs`, which also name keyslots, digests and tokens. */
module Decimal {
  import opened Basics

  predicate IsDigit(c: char) { '0' <= c <= '9' }

  function DigitOf(c: char): (d: nat)
    requires IsDigit(c)
    ensures d <= 9
  {
    c as int - '0' as int
  }

  function DigitChar(d: nat): (c: char)
    requires d <= 9
    ensures IsDigit(c) && DigitOf(c) == d
  {
    ('0' as int + d) as char
  }

  predicate AllDigits(s: string) {
    forall i :: 0 <= i < |s| ==> IsDigit(s[i])
  }

  function NumberOf(s: string): nat
    requires AllDigits(s)
  {
    if s == [] then 0 else 10 * NumberOf(s[..|s| - 1]) + DigitOf(s[|s| - 1])
  }

  /** `decimal`: digits only, no leading zero, and the value fits 64 bits. */
  function Parse(s: string): (r: Result<u64>) {
    if s == [] || !AllDigits(s) || (|s| > 1 && s[0] == '0') then Err(MetadataInvalid)
    else if NumberOf(s) >= U64_LIMIT then Err(MetadataInvalid)
    else Ok(NumberOf(s))
  }

  /** `id`: a decimal number no greater than `max`. */
  function Id(s: string, max: u32): (r: Result<u32>)
    ensures r.Ok? ==> r.value <= max
  {
    var n :- Parse(s);
    if n > max then Err(MetadataInvalid) else Ok(n)
  }

  /** The decimal notation of a number. */
  function Print(n: nat): (s: string)
    ensures s != [] && AllDigits(s)
  {
    if n < 10 then [DigitChar(n)] else Print(n / 10) + [DigitChar(n % 10)]
  }

  lemma {:induction false} PrintIsCanonical(n: nat)
    ensures NumberOf(Print(n)) == n
    ensures Print(n)[0] == '0' ==> n == 0 && |Print(n)| == 1
    ensures n > 0 ==> Print(n)[0] != '0'
  {
    if n >= 10 {
      PrintIsCanonical(n / 10);
      assert Print(n)[..|Print(n)| - 1] == Print(n / 10);
    } else {
      assert Print(n)[..0] == [];
    }
  }

  lemma {:induction false} CanonicalIsPrinted(s: string)
    requires s != [] && AllDigits(s) && (|s| > 1 ==> s[0] != '0')
    ensures s == Print(NumberOf(s))
    ensures s[0] != '0' ==> NumberOf(s) > 0
  {
    var init, d := s[..|s| - 1], DigitOf(s[|s| - 1]);
    if |s| == 1 {
      assert NumberOf(s) == d;
    } else {
      CanonicalIsPrinted(init);
      assert NumberOf(s) == 10 * NumberOf(init) + d && NumberOf(init) > 0;
      assert NumberOf(s) / 10 == NumberOf(init) && NumberOf(s) % 10 == d;
      assert s == init + [s[|s| - 1]];
    }
  }

  /** Parsing and printing are inverse on all 64-bit numbers, and nothing else parses. */
  lemma ParseInvertsPrint(s: string, n: u64)
    ensures Parse(s) == Ok(n) <==> s == Print(n)
  {
    if Parse(s) == Ok(n) {
      CanonicalIsPrinted(s);
    }
    if s == Print(n) {
      PrintIsCanonical(n);
    }
  }

  /** Two names of the same number are the same name. */
  lemma IdsAreCanonical(s: string, t: string, max: u32)
    requires Id(s, max).Ok? && Id(s, max) == Id(t, max)
    ensures s == t == Print(Id(s, max).value)
  {
    ParseInvertsPrint(s, Id(s, max).value);
    ParseInvertsPrint(t, Id(s, max).value);
  }
}
