/** Node ids are kept as decimal strings; the expected successor's id is
    `str(int(node_id) + 1)`. */
module NodeIds {
  import opened Domain

  predicate IsDigit(c: char) {
    '0' <= c <= '9'
  }

  predicate AllDigits(s: string) {
    forall i :: 0 <= i < |s| ==> IsDigit(s[i])
  }

  /** The number a string of decimal digits denotes (leading zeros allowed). */
  function DigitsValue(s: string): nat
    requires AllDigits(s)
    decreases |s|
  {
    if |s| == 0 then 0
    else 10 * DigitsValue(s[..|s| - 1]) + (s[|s| - 1] as int - '0' as int)
  }

  /** Python's `int(s)` on a node id: the digits' value, or None where
      `int()` raises ValueError. */
  function ParseDecimal(s: string): Option<nat> {
    if |s| > 0 && AllDigits(s) then Some(DigitsValue(s)) else None
  }

  /** The spelling `str` gives a positive number: digits only, no leading
      zero. */
  predicate CanonicalPositive(s: string) {
    |s| > 0 && AllDigits(s) && s[0] != '0'
  }

  /** Python's `str(n)`: the shortest decimal spelling of n. */
  function DecimalString(n: nat): (s: string)
    ensures |s| > 0 && AllDigits(s)
    ensures n > 0 ==> s[0] != '0'
    decreases n
  {
    if n < 10 then [('0' as int + n) as char]
    else DecimalString(n / 10) + [('0' as int + n % 10) as char]
  }

  /** Reading back what `str` wrote gives the number. */
  lemma {:induction false} ParseDecimalString(n: nat)
    ensures ParseDecimal(DecimalString(n)) == Some(n)
    decreases n
  {
    var s := DecimalString(n);
    if n >= 10 {
      ParseDecimalString(n / 10);
      assert s[..|s| - 1] == DecimalString(n / 10);
      assert s[|s| - 1] as int - '0' as int == n % 10;
      assert DigitsValue(s) == 10 * (n / 10) + n % 10;
    } else {
      assert s[0] as int - '0' as int == n;
    }
  }

  /** `str(int(node_id) + 1)`: the successor's node id, or None when the id
      is not a decimal number. */
  function NextNodeId(id: string): (r: Option<string>)
    ensures r.Some? <==> ParseDecimal(id).Some?
    ensures r.Some? ==> ParseDecimal(r.value) == Some(ParseDecimal(id).value + 1)
    ensures r.Some? ==> CanonicalPositive(r.value)
  {
    match ParseDecimal(id)
    case None => None
    case Some(n) =>
      ParseDecimalString(n + 1);
      Some(DecimalString(n + 1))
  }
}
