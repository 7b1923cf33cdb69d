/** The home page's animated statistics: a stat string such as `100+` is
    split into the number the counter animates to and the suffix shown
    after it. */
module HeroStat {
  import opened Wrappers
  import opened Seqs
  import opened Text

  predicate IsNotDigit(c: char) { !IsAsciiDigit(c) }

  /** `number.replace(/\D/g, '')`: the digits, in order. */
  function Digits(number: string): (r: string)
    ensures forall k :: 0 <= k < |r| ==> IsAsciiDigit(r[k])
  {
    Filter(number, IsAsciiDigit)
  }

  /** `number.replace(/\d/g, '')`: everything but the digits, in order. */
  function Suffix(number: string): (r: string)
    ensures forall k :: 0 <= k < |r| ==> !IsAsciiDigit(r[k])
  {
    Filter(number, IsNotDigit)
  }

  /** `parseInt` of the digits; `None` stands for `NaN`, which is what a
      stat without digits gives. */
  function NumericValue(number: string): (r: Option<nat>)
    ensures r.None? <==> Digits(number) == ""
  {
    var d := Digits(number);
    if |d| == 0 then None
    else
      assert forall k :: 0 <= k < |d| ==> 0 <= HexDigit(d[k]) < 10;
      Some(DigitsValue(d, 10))
  }

  /** The digits and the suffix are order-preserving pieces of the stat
      that together account for every character. */
  lemma DigitsAndSuffix(number: string)
    ensures IsSubseq(Digits(number), number) && IsSubseq(Suffix(number), number)
    ensures |Digits(number)| + |Suffix(number)| == |number|
  {
    FilterIsSubseq(number, IsAsciiDigit);
    FilterIsSubseq(number, IsNotDigit);
    CountComplement(number);
  }

  lemma {:induction false} CountComplement(s: string)
    ensures Count(s, IsAsciiDigit) + Count(s, IsNotDigit) == |s|
    decreases |s|
  {
    if |s| > 0 {
      CountComplement(s[1..]);
    }
  }

  /** A stat written as a number followed by a digit-free suffix splits
      back into that number and that suffix. */
  lemma StatRoundTrip(n: nat, suffix: string)
    requires forall k :: 0 <= k < |suffix| ==> !IsAsciiDigit(suffix[k])
    ensures NumericValue(DecimalString(n) + suffix) == Some(n)
    ensures Suffix(DecimalString(n) + suffix) == suffix
  {
    var digits := DecimalString(n);
    FilterAppend(digits, suffix, IsAsciiDigit);
    FilterAppend(digits, suffix, IsNotDigit);
    FilterAll(digits, IsAsciiDigit);
    FilterNone(suffix, IsAsciiDigit);
    FilterAll(suffix, IsNotDigit);
    FilterNone(digits, IsNotDigit);
    assert digits + [] == digits;
    assert [] + suffix == suffix;
    DecimalStringValue(n);
  }
}
