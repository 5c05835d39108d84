/**
 Plain JavaScript records as the calendar component handles them: an object
 is a map from property names to (opaque) string values, and the few
 JavaScript operators the component applies to them.
 */
module Records {

  datatype Option<T> = None | Some(value: T)

  /* A JavaScript object literal; property order plays no role in the component. */
  type Record = map<string, string>

  /* Property access `r.k`: `undefined` (None) when the property is absent. */
  function Get(r: Record, k: string): Option<string>
  {
    if k in r then Some(r[k]) else None
  }

  /* `a || b` on two strings: the empty string is falsy. */
  function OrElse(a: string, b: string): string
  {
    if a == "" then b else a
  }

  function Digit(d: nat): (c: char)
    requires d < 10
    ensures '0' <= c <= '9'
  {
    ('0' as int + d) as char
  }

  /* `String(n)` for a non-negative integer: its decimal digits, most significant first. */
  function DecimalString(n: nat): (s: string)
    ensures |s| >= 1
    ensures forall i :: 0 <= i < |s| ==> '0' <= s[i] <= '9'
    ensures n >= 10 <==> |s| >= 2
    decreases n
  {
    if n < 10 then [Digit(n)] else DecimalString(n / 10) + [Digit(n % 10)]
  }

  /* Two distinct integers never print the same. */
  lemma {:induction false} DecimalStringInjective(a: nat, b: nat)
    requires DecimalString(a) == DecimalString(b)
    ensures a == b
    decreases a
  {
    var sa, sb := DecimalString(a), DecimalString(b);
    if a < 10 || b < 10 {
      assert a < 10 && b < 10;
      assert sa[0] == Digit(a) && sb[0] == Digit(b);
    } else {
      assert sa[..|sa| - 1] == DecimalString(a / 10);
      assert sb[..|sb| - 1] == DecimalString(b / 10);
      assert sa[|sa| - 1] == Digit(a % 10) && sb[|sb| - 1] == Digit(b % 10);
      DecimalStringInjective(a / 10, b / 10);
    }
  }

  /* The contrapositive, in the form callers use. */
  lemma DecimalStringDistinct(a: nat, b: nat)
    requires a != b
    ensures DecimalString(a) != DecimalString(b)
  {
    if DecimalString(a) == DecimalString(b) {
      DecimalStringInjective(a, b);
    }
  }
}
