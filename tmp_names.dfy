/** The names `tmp_var` hands out: `"_slimtmp"` followed by the counter in
    decimal, as Ruby's string interpolation renders an Integer. */
module TmpNames {

  function Digit(d: nat): (c: char)
    requires d < 10
    ensures '0' <= c <= '9'
  {
    (48 + d) as char
  }

  /** `n.to_s`: the decimal digits of `n`, most significant first, no leading zero. */
  function Decimal(n: nat): (r: string)
    ensures |r| >= 1
    ensures forall i :: 0 <= i < |r| ==> '0' <= r[i] <= '9'
    ensures (|r| == 1) == (n < 10)
    ensures (r[0] == '0') == (n == 0)
    decreases n
  {
    if n < 10 then [Digit(n)] else Decimal(n / 10) + [Digit(n % 10)]
  }

  /** The number a string of decimal digits denotes (`String#to_i` on digits). */
  function DecimalValue(s: string): nat
    requires forall i :: 0 <= i < |s| ==> '0' <= s[i] <= '9'
  {
    if s == [] then 0 else 10 * DecimalValue(s[..|s| - 1]) + (s[|s| - 1] as int - 48)
  }

  /** Rendering a number in decimal and reading it back gives the number. */
  lemma {:induction false} DecimalRoundTrip(n: nat)
    ensures DecimalValue(Decimal(n)) == n
    decreases n
  {
    var r := Decimal(n);
    if n >= 10 {
      DecimalRoundTrip(n / 10);
      assert r[..|r| - 1] == Decimal(n / 10);
    }
  }

  /** `"_slimtmp#{n}"` */
  function TmpName(n: nat): string {
    "_slimtmp" + Decimal(n)
  }

  /** Different numbers have different decimal renderings. */
  lemma DecimalInjective(a: nat, b: nat)
    requires Decimal(a) == Decimal(b)
    ensures a == b
  {
    DecimalRoundTrip(a);
    DecimalRoundTrip(b);
  }

  /** Different counter values give different temporary names. */
  lemma TmpNameInjective(a: nat, b: nat)
    requires TmpName(a) == TmpName(b)
    ensures a == b
  {
    assert TmpName(a)[8..] == Decimal(a);
    assert TmpName(b)[8..] == Decimal(b);
    DecimalInjective(a, b);
  }

  /** The contrapositive, in the form the freshness proofs use. */
  lemma TmpNameDistinct(a: nat, b: nat)
    requires a != b
    ensures TmpName(a) != TmpName(b)
  {
    if TmpName(a) == TmpName(b) {
      TmpNameInjective(a, b);
    }
  }
}
