/** Decimal rendering of naturals, as fmt's %d and strconv.Itoa print them. */
module Decimal {
  import opened Prelude

  predicate IsDigit(c: char)
  {
    '0' <= c <= '9'
  }

  function DigitChar(d: nat): char
    requires d < 10
  {
    '0' + d as char
  }

  function DigitValue(c: char): nat
    requires IsDigit(c)
  {
    (c - '0') as nat
  }

  function Render(n: nat): string
  {
    if n < 10 then [DigitChar(n)] else Render(n / 10) + [DigitChar(n % 10)]
  }

  /** The number a digit string denotes, reading left to right. */
  function Value(s: string): nat
    requires forall c :: c in s ==> IsDigit(c)
  {
    if s == "" then 0 else 10 * Value(s[..|s| - 1]) + DigitValue(s[|s| - 1])
  }

  lemma {:induction false} RenderDigits(n: nat)
    ensures Render(n) != ""
    ensures forall c :: c in Render(n) ==> IsDigit(c)
  {
    if n >= 10 {
      RenderDigits(n / 10);
    }
  }

  /** Printing and reading back is the identity. */
  lemma {:induction false} ValueOfRender(n: nat)
    ensures forall c :: c in Render(n) ==> IsDigit(c)
    ensures Value(Render(n)) == n
  {
    RenderDigits(n);
    if n < 10 {
      assert Render(n)[..0] == "";
    } else {
      RenderDigits(n / 10);
      ValueOfRender(n / 10);
      assert Render(n)[..|Render(n)| - 1] == Render(n / 10);
    }
  }

  lemma {:induction false} RenderInjective(m: nat, n: nat)
    requires Render(m) == Render(n)
    ensures m == n
  {
    ValueOfRender(m);
    ValueOfRender(n);
  }

  /** A zero in front does not count. */
  lemma {:induction false} LeadingZero(s: string)
    requires forall c :: c in s ==> IsDigit(c)
    ensures forall c :: c in "0" + s ==> IsDigit(c)
    ensures Value("0" + s) == Value(s)
    decreases |s|
  {
    if s == "" {
      assert "0" + s == "0" && "0"[..0] == "";
    } else {
      var n := |s| - 1;
      LeadingZero(s[..n]);
      assert ("0" + s)[..|s|] == "0" + s[..n] && ("0" + s)[|s|] == s[n];
    }
  }
}
