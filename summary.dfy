/** The text `SelectionView` renders for the `SelectedItem` cell, including
    Rust's decimal formatting of a `usize` (`{}` in `format!` and in `view!`). */
module Summary {

  /** The `fallback` of the `Show`: rendered when nothing is selected. */
  const NoneText: string := "No item selected"

  /** The children of the `Show` for a selected item `x`: the digits between
      "Item " and " is selected" read back as `x`, and the text is never the
      fallback's. */
  function SomeText(x: nat): (t: string)
    ensures 18 <= |t| && t[..5] == "Item " && t[|t| - 12..] == " is selected"
    ensures t[5..|t| - 12] == Decimal(x)
    ensures (forall i | 5 <= i < |t| - 12 :: IsDigit(t[i])) && ParseDecimal(t[5..|t| - 12]) == x
    ensures t != NoneText
  {
    DecimalRoundTrip(x);
    var t := "Item " + Decimal(x) + " is selected";
    assert t[5..|t| - 12] == Decimal(x);
    t
  }

  predicate IsDigit(c: char)
  {
    '0' <= c <= '9'
  }

  function Digit(d: nat): (c: char)
    requires d < 10
    ensures IsDigit(c)
  {
    ('0' as int + d) as char
  }

  function DigitValue(c: char): (d: nat)
    requires IsDigit(c)
    ensures d < 10
  {
    c as int - '0' as int
  }

  /** Decimal digits of `n`, most significant first, with no leading zero. */
  function Decimal(n: nat): (s: string)
    ensures |s| >= 1
    ensures forall i | 0 <= i < |s| :: IsDigit(s[i])
    ensures |s| > 1 ==> s[0] != '0'
  {
    if n < 10 then [Digit(n)] else Decimal(n / 10) + [Digit(n % 10)]
  }

  /** Reads a string of decimal digits back as a number. */
  function ParseDecimal(s: string): (n: nat)
    requires forall i | 0 <= i < |s| :: IsDigit(s[i])
  {
    if s == [] then 0
    else ParseDecimal(s[..|s| - 1]) * 10 + DigitValue(s[|s| - 1])
  }

  /** The decimal text of a number determines it. */
  lemma {:induction false} DecimalRoundTrip(n: nat)
    ensures ParseDecimal(Decimal(n)) == n
  {
    var s := Decimal(n);
    if n < 10 {
      assert s[..0] == [];
    } else {
      DecimalRoundTrip(n / 10);
      assert s[..|s| - 1] == Decimal(n / 10);
    }
  }

  /** The two renderings never coincide, and the selected item's text names
      exactly one item. */
  lemma SomeTextInjective()
    ensures forall x :: SomeText(x) != NoneText
    ensures forall x, y :: SomeText(x) == SomeText(y) ==> x == y
  {
    forall x, y | SomeText(x) == SomeText(y)
      ensures x == y
    {
      var t := SomeText(x);
      assert Decimal(x) == t[5..|t| - 12];
      assert Decimal(y) == t[5..|t| - 12];
      DecimalRoundTrip(x);
      DecimalRoundTrip(y);
    }
  }
}
