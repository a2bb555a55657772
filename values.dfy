/** Values shared by the directive parser, the scope chain, the evaluator and the renderer. */
module Values {

  datatype Option<+T> = None | Some(value: T)

  /** Outcome of an operation that the source can abort with an exception. */
  datatype Result<+T, +E> = Ok(value: T) | Err(error: E)

  /**
   * The data a template is rendered against. PHP arrays whose keys are not
   * 0..n-1 and objects implementing ArrayAccess are `Map`s (ordered entries),
   * PHP lists are `List`s, other objects are `Object`s (their public properties).
   * A float is kept as its sign and decimal lexeme.
   */
  datatype Value =
    | Null
    | Bool(b: bool)
    | Int(i: int)
    | Float(negative: bool, lexeme: string)
    | Str(s: string)
    | Map(entries: seq<(string, Value)>)
    | List(items: seq<Value>)
    | Object(fields: seq<(string, Value)>)

  // ---------------------------------------------------------------------------
  // Decimal digits and PHP's integer array keys

  /** PHP's is_numeric on a one-character string. */
  predicate IsDigit(c: char) { '0' <= c <= '9' }

  predicate AllDigits(s: string) {
    forall i :: 0 <= i < |s| ==> IsDigit(s[i])
  }

  /** The decimal value of a string of digits. */
  function DecimalValue(digits: string): (v: nat)
    requires AllDigits(digits)
  {
    if |digits| == 0 then 0
    else
      var d: nat := digits[|digits| - 1] as int - '0' as int;
      10 * DecimalValue(digits[..|digits| - 1]) + d
  }

  /** The digit character of 0 <= d <= 9. */
  function DigitChar(d: nat): (c: char)
    requires d < 10
    ensures IsDigit(c) && c as int - '0' as int == d
  {
    (d + '0' as int) as char
  }

  /** How PHP writes a non-negative integer. */
  function DecimalText(n: nat): (s: string)
    ensures |s| > 0 && AllDigits(s)
    ensures s[0] == '0' ==> n == 0 && |s| == 1
  {
    if n < 10 then [DigitChar(n)] else DecimalText(n / 10) + [DigitChar(n % 10)]
  }

  /**
   * A string that PHP turns into an integer array key: "0", or digits without
   * a leading zero (a '-' sign never names a list position).
   */
  predicate IsIndexKey(k: string) {
    |k| > 0 && AllDigits(k) && (k[0] == '0' ==> |k| == 1)
  }

  /** Writing an integer and reading it back gives the integer. */
  lemma {:induction false} DecimalRoundTrip(n: nat)
    ensures IsIndexKey(DecimalText(n)) && DecimalValue(DecimalText(n)) == n
  {
    if n >= 10 {
      DecimalRoundTrip(n / 10);
      var s := DecimalText(n);
      assert s[..|s| - 1] == DecimalText(n / 10);
    }
  }

  /** Reading an integer key and writing it back gives the key. */
  lemma {:induction false} IndexKeyRoundTrip(k: string)
    requires IsIndexKey(k)
    ensures DecimalText(DecimalValue(k)) == k
    decreases |k|
  {
    if |k| > 1 {
      var p := k[..|k| - 1];
      assert IsIndexKey(p) by {
        assert p[0] == k[0];
      }
      IndexKeyRoundTrip(p);
      var v := DecimalValue(k);
      assert v >= 10 by {
        LeadingDigitValue(p);
      }
      assert v / 10 == DecimalValue(p) && v % 10 == k[|k| - 1] as int - '0' as int;
      assert k == p + [k[|k| - 1]];
    }
  }

  /** A key of digits without a leading zero has a non-zero value. */
  lemma {:induction false} LeadingDigitValue(k: string)
    requires IsIndexKey(k) && k[0] != '0'
    ensures DecimalValue(k) >= 1
    decreases |k|
  {
    if |k| > 1 {
      var p := k[..|k| - 1];
      assert p[0] == k[0];
      LeadingDigitValue(p);
    }
  }
}
