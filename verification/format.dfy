/** `FormatNum` of cmd/main.go: how the line total is shown. Below one
    thousand the number is printed as is; otherwise it is divided by a
    thousand, a million or a billion, printed with one decimal place and
    followed by K, M or B. */
module Format {
  import Decimal

  /** What `FormatNum` prints: the plain decimal text, or `num / divisor`
      as a floating-point number with one decimal place followed by
      `suffix`. */
  datatype Formatted = Plain(text: string) | Scaled(num: int, divisor: nat, suffix: char)

  /** The suffix letters with the divisor each stands for. */
  const Scales: set<(char, nat)> := {('K', 1000), ('M', 1000000), ('B', 1000000000)}

  /** Small numbers, negative ones included, print as their canonical
      decimal text, which `Decimal.CanonicalTextIsUnique` shows is the only
      one; larger ones are scaled so that `num / divisor` is at least 1 and,
      for K and M, below 1000, before it is rounded to one decimal place
      (the rounding can still show "1000.0K" or "1000.0M"). */
  function FormatNum(num: int): (r: Formatted)
    ensures r.Plain? <==> num < 1000
    ensures r.Plain? ==> Decimal.IsCanonical(r.text) && Decimal.ParseInt(r.text) == num
    ensures r.Scaled? ==> r.num == num && (r.suffix, r.divisor) in Scales
    ensures r.Scaled? ==> r.divisor <= num
    ensures r.Scaled? && r.suffix != 'B' ==> num < 1000 * r.divisor
  {
    if num < 1000 then
      Decimal.FormatIntRoundTrip(num);
      Plain(Decimal.FormatInt(num))
    else if num < 1000000 then Scaled(num, 1000, 'K')
    else if num < 1000000000 then Scaled(num, 1000000, 'M')
    else Scaled(num, 1000000000, 'B')
  }

  /** The thresholds that follow from the contract: exactly one of the four
      forms applies to every number. */
  lemma FormatNumThresholds(num: int)
    ensures num < 1000 ==> FormatNum(num).Plain?
    ensures 1000 <= num < 1000000 ==> FormatNum(num).Scaled? && FormatNum(num).suffix == 'K'
    ensures 1000000 <= num < 1000000000 ==> FormatNum(num).Scaled? && FormatNum(num).suffix == 'M'
    ensures 1000000000 <= num ==> FormatNum(num).Scaled? && FormatNum(num).suffix == 'B'
  {
  }
}
