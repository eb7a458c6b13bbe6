/** Decimal numerals: what `str(n)` and `str(n).zfill(w)` produce. */
module Decimal {

  const DIGITS: string := "0123456789"

  function Digit(d: nat): (c: char)
    requires d < 10
    ensures c in DIGITS && '0' <= c <= '9'
  {
    '0' + d as char
  }

  /** `str(n)`. */
  function Str(n: nat): (s: string)
    ensures s != [] && (forall i | 0 <= i < |s| :: '0' <= s[i] <= '9')
  {
    if n < 10 then [Digit(n)] else Str(n / 10) + [Digit(n % 10)]
  }

  lemma {:induction false} StrGrows(m: nat, n: nat)
    requires m <= n
    ensures |Str(m)| <= |Str(n)|
  {
    if m >= 10 {
      StrGrows(m / 10, n / 10);
    }
  }

  function PowerOfTen(k: nat): nat {
    if k == 0 then 1 else 10 * PowerOfTen(k - 1)
  }

  /** How long a numeral is. */
  lemma {:induction false} StrLength(n: nat, k: nat)
    requires k > 0
    ensures |Str(n)| <= k <==> n < PowerOfTen(k)
  {
    if k == 1 {
      assert PowerOfTen(1) == 10 * PowerOfTen(0);
    } else if n < 10 {
      TenAtLeast(k);
    } else {
      StrLength(n / 10, k - 1);
    }
  }

  lemma {:induction false} TenAtLeast(k: nat)
    requires k > 0
    ensures PowerOfTen(k) >= 10
  {
    if k > 1 {
      TenAtLeast(k - 1);
    }
  }

  /** The number a string of digits denotes. */
  function ValueOf(s: string): nat
    requires forall i | 0 <= i < |s| :: '0' <= s[i] <= '9'
  {
    if s == [] then 0
    else 10 * ValueOf(s[..|s| - 1]) + (s[|s| - 1] - '0') as nat
  }

  lemma {:induction false} StrDenotes(n: nat)
    ensures ValueOf(Str(n)) == n
  {
    var s := Str(n);
    if n >= 10 {
      StrDenotes(n / 10);
      assert s[..|s| - 1] == Str(n / 10);
    } else {
      assert s[..|s| - 1] == [];
    }
  }

  /** Different numbers have different numerals. */
  lemma StrInjective(m: nat, n: nat)
    requires Str(m) == Str(n)
    ensures m == n
  {
    StrDenotes(m);
    StrDenotes(n);
  }

  /** `s.zfill(width)` for a string of digits. */
  function ZeroFill(s: string, width: nat): (r: string)
    decreases width - |s|
  {
    if |s| >= width then s else ZeroFill("0" + s, width)
  }

  lemma {:induction false} ZeroFillDenotes(s: string, width: nat)
    requires forall i | 0 <= i < |s| :: '0' <= s[i] <= '9'
    ensures var r := ZeroFill(s, width);
            && (forall i | 0 <= i < |r| :: '0' <= r[i] <= '9')
            && ValueOf(r) == ValueOf(s)
            && |r| == if |s| >= width then |s| else width
    decreases width - |s|
  {
    if |s| < width {
      LeadingZero(s);
      ZeroFillDenotes("0" + s, width);
    }
  }

  lemma {:induction false} LeadingZero(s: string)
    requires forall i | 0 <= i < |s| :: '0' <= s[i] <= '9'
    ensures forall i | 0 <= i < |"0" + s| :: '0' <= ("0" + s)[i] <= '9'
    ensures ValueOf("0" + s) == ValueOf(s)
  {
    var t := "0" + s;
    if s == [] {
      assert t[..0] == [];
    } else {
      LeadingZero(s[..|s| - 1]);
      assert t[..|t| - 1] == "0" + s[..|s| - 1];
    }
  }

  function Zeros(n: nat): string {
    if n == 0 then "" else "0" + Zeros(n - 1)
  }

  /** Padding puts zeros in front. */
  lemma {:induction false} ZeroFillIsZeros(s: string, width: nat)
    requires |s| <= width
    ensures ZeroFill(s, width) == Zeros(width - |s|) + s
    decreases width - |s|
  {
    if |s| < width {
      ZeroFillIsZeros("0" + s, width);
      ZerosShift(width - |s| - 1);
      assert Zeros(width - |s| - 1) + ("0" + s) == (Zeros(width - |s| - 1) + "0") + s;
    }
  }

  lemma {:induction false} ZerosShift(n: nat)
    ensures Zeros(n) + "0" == Zeros(n + 1)
  {
    if n > 0 {
      ZerosShift(n - 1);
      assert "0" + Zeros(n - 1) + "0" == "0" + (Zeros(n - 1) + "0");
    }
  }
}
