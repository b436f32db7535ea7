/**
 Decimal texts of non-negative integers, as JavaScript's number-to-string conversion writes
 them, and the order `localeCompare` gives to digit texts.
 */
module Decimal {

  function Digit(d: nat): (c: char)
    requires d < 10
    ensures '0' <= c <= '9' && c as int == d + 48
  {
    (d + 48) as char
  }

  function ToText(n: nat): (s: string)
    ensures s != [] && forall i :: 0 <= i < |s| ==> '0' <= s[i] <= '9'
    decreases n
  {
    if n < 10 then [Digit(n)] else ToText(n / 10) + [Digit(n % 10)]
  }

  /** `Number(s)` for a text of digits. */
  function FromText(s: string): nat {
    if s == [] then 0
    else
      var c := s[|s| - 1];
      10 * FromText(s[..|s| - 1]) + (if '0' <= c <= '9' then c as int - 48 else 0)
  }

  lemma {:induction false} FromToText(n: nat)
    ensures FromText(ToText(n)) == n
    decreases n
  {
    var s := ToText(n);
    if n < 10 {
      assert s[..|s| - 1] == [];
    } else {
      FromToText(n / 10);
      assert s[..|s| - 1] == ToText(n / 10);
    }
  }

  lemma ToTextInjective(m: nat, n: nat)
    requires ToText(m) == ToText(n)
    ensures m == n
  {
    FromToText(m);
    FromToText(n);
  }

  lemma FromTextSnoc(s: string, c: char)
    requires '0' <= c <= '9'
    ensures FromText(s + [c]) == 10 * FromText(s) + (c as int - 48)
  {
    assert (s + [c])[..|s|] == s;
  }

  function Pow10(k: nat): (p: nat)
    ensures p > 0
  {
    if k == 0 then 1 else 10 * Pow10(k - 1)
  }

  /** The last `k` digits of `n`, zeros in front. */
  function Padded(n: nat, k: nat): (s: string)
    ensures |s| == k
  {
    if k == 0 then [] else Padded(n / 10, k - 1) + [Digit(n % 10)]
  }

  lemma {:induction false} FromPadded(n: nat, k: nat)
    requires n < Pow10(k)
    ensures FromText(Padded(n, k)) == n
    decreases k
  {
    if k > 0 {
      FromPadded(n / 10, k - 1);
      FromTextSnoc(Padded(n / 10, k - 1), Digit(n % 10));
    }
  }

  lemma {:induction false} PaddedFrom(s: string)
    requires forall i :: 0 <= i < |s| ==> '0' <= s[i] <= '9'
    ensures FromText(s) < Pow10(|s|) && Padded(FromText(s), |s|) == s
    decreases |s|
  {
    if s != [] {
      var k := |s| - 1;
      PaddedFrom(s[..k]);
      assert s == s[..k] + [s[k]];
    }
  }

  /** Character by character comparison, a proper prefix first. */
  predicate LexLeq(a: string, b: string) {
    a == [] || (b != [] && (a[0] < b[0] || (a[0] == b[0] && LexLeq(a[1..], b[1..]))))
  }

  lemma {:induction false} LexTotal(a: string, b: string)
    ensures LexLeq(a, b) || LexLeq(b, a)
    ensures LexLeq(a, b) && LexLeq(b, a) ==> a == b
  {
    if a != [] && b != [] {
      LexTotal(a[1..], b[1..]);
      if a[0] == b[0] && a[1..] == b[1..] {
        assert a == [a[0]] + a[1..] && b == [b[0]] + b[1..];
      }
    }
  }

  lemma {:induction false} LexTransitive(a: string, b: string, c: string)
    requires LexLeq(a, b) && LexLeq(b, c)
    ensures LexLeq(a, c)
  {
    if a != [] && a[0] == b[0] == c[0] {
      LexTransitive(a[1..], b[1..], c[1..]);
    }
  }

  /** Comparing with a longer text only looks at its prefix of the same length. */
  lemma {:induction false} LexPrefix(a: string, b: string)
    requires |a| <= |b|
    ensures LexLeq(a, b) <==> LexLeq(a, b[..|a|])
  {
    if a != [] {
      LexPrefix(a[1..], b[1..]);
      assert b[..|a|][1..] == b[1..][..|a[1..]|];
    }
  }

  lemma {:induction false} LexLastChar(a: string, c: char, b: string, d: char)
    requires |a| == |b|
    ensures LexLeq(a + [c], b + [d]) <==> (a != b && LexLeq(a, b)) || (a == b && c <= d)
  {
    if a == [] {
      assert a + [c] == [c] && b + [d] == [d];
      assert [c][1..] == [] && [d][1..] == [];
    } else {
      assert (a + [c])[1..] == a[1..] + [c] && (b + [d])[1..] == b[1..] + [d];
      LexLastChar(a[1..], c, b[1..], d);
      assert a == [a[0]] + a[1..] && b == [b[0]] + b[1..];
    }
  }

  /** Among texts of the same length, text order is numeric order. */
  lemma {:induction false} LexSameLength(x: nat, y: nat)
    requires |ToText(x)| == |ToText(y)|
    ensures LexLeq(ToText(x), ToText(y)) <==> x <= y
    decreases x
  {
    if x >= 10 {
      LexSameLength(x / 10, y / 10);
      LexLastChar(ToText(x / 10), Digit(x % 10), ToText(y / 10), Digit(y % 10));
      if ToText(x / 10) == ToText(y / 10) {
        ToTextInjective(x / 10, y / 10);
      }
    } else {
      assert y < 10;
      LexLastChar("", Digit(x), "", Digit(y));
      assert "" + [Digit(x)] == [Digit(x)] && "" + [Digit(y)] == [Digit(y)];
    }
  }

  /** `y` without its last `k` digits. */
  function Strip(y: nat, k: nat): nat {
    if k == 0 then y else Strip(y / 10, k - 1)
  }

  lemma {:induction false} LeadingDigits(y: nat, k: nat)
    requires k < |ToText(y)|
    ensures ToText(y)[..|ToText(y)| - k] == ToText(Strip(y, k))
    decreases k
  {
    var s := ToText(y);
    if k == 0 {
      assert s[..|s|] == s;
    } else {
      var t := ToText(y / 10);
      assert s == t + [Digit(y % 10)];
      LeadingDigits(y / 10, k - 1);
      assert s[..|s| - k] == t[..|t| - (k - 1)];
    }
  }

  lemma {:induction false} LongerTextIsLarger(x: nat, y: nat)
    requires x <= y
    ensures |ToText(x)| <= |ToText(y)|
    decreases y
  {
    if x >= 10 {
      LongerTextIsLarger(x / 10, y / 10);
    }
  }

  /** How many more digits the text of `y` has than that of `x`. */
  function DigitGap(x: nat, y: nat): nat {
    if |ToText(x)| <= |ToText(y)| then |ToText(y)| - |ToText(x)| else 0
  }

  /** `x` does not exceed `y` without its extra digits. */
  predicate FitsUnder(x: nat, y: nat) {
    x <= Strip(y, DigitGap(x, y))
  }

  /**
   * When text order agrees with numeric order: for `x < y`, exactly when `x` fits under `y`
   * (always so when both have the same number of digits).
   */
  lemma LexAgreesIff(x: nat, y: nat)
    requires x < y
    ensures LexLeq(ToText(x), ToText(y)) <==> FitsUnder(x, y)
  {
    LongerTextIsLarger(x, y);
    var k := DigitGap(x, y);
    LexPrefix(ToText(x), ToText(y));
    LeadingDigits(y, k);
    LexSameLength(x, Strip(y, k));
  }
}
