/** PdfGenerator.getPdfName: the payslip file name `employeeId_month_year.pdf`, each number
    written as Java's string concatenation writes an `int` (decimal, `-` when negative, no
    leading zeros). */
module PdfGenerator {
  import opened Seqs
  import opened PayrollRepository

  function DigitChar(d: nat): (c: char)
    requires d < 10
    ensures '0' <= c <= '9'
  {
    (('0' as int) + d) as char
  }

  function DigitValue(c: char): (d: nat)
    requires '0' <= c <= '9'
    ensures d < 10 && DigitChar(d) == c
  {
    (c as int) - ('0' as int)
  }

  /** The decimal digits of `n`, most significant first. */
  function NatToString(n: nat): (s: string)
    ensures |s| >= 1
    ensures forall k :: 0 <= k < |s| ==> '0' <= s[k] <= '9'
    ensures s[0] == '0' <==> n == 0
    decreases n
  {
    if n < 10 then [DigitChar(n)] else NatToString(n / 10) + [DigitChar(n % 10)]
  }

  /** `Integer.toString(n)`, the form `"" + n` takes. */
  function IntToString(n: int): (s: string)
    ensures |s| >= 1
    ensures s[0] == '-' <==> n < 0
    ensures forall k :: 1 <= k < |s| ==> '0' <= s[k] <= '9'
    ensures s[0] == '0' <==> n == 0
    ensures n < 0 ==> |s| >= 2 && s[1] != '0'
  {
    if n < 0 then "-" + NatToString(-n) else NatToString(n)
  }

  /** The value of a string of decimal digits. */
  function ParseNat(s: string): (n: nat)
    requires forall k :: 0 <= k < |s| ==> '0' <= s[k] <= '9'
    decreases |s|
  {
    if s == [] then 0 else 10 * ParseNat(s[..|s| - 1]) + DigitValue(s[|s| - 1])
  }

  /** The value of an optionally negative decimal numeral. */
  function ParseInt(s: string): (n: int)
    requires |s| >= 1 && (s[0] == '-' || '0' <= s[0] <= '9')
    requires forall k :: 1 <= k < |s| ==> '0' <= s[k] <= '9'
  {
    if s[0] == '-' then 0 - ParseNat(s[1..]) else ParseNat(s)
  }

  lemma {:induction false} NatRoundTrip(n: nat)
    ensures ParseNat(NatToString(n)) == n
    decreases n
  {
    var s := NatToString(n);
    if n >= 10 {
      var q, r := n / 10, n % 10;
      NatRoundTrip(q);
      assert s == NatToString(q) + [DigitChar(r)];
      assert s[..|s| - 1] == NatToString(q);
      assert DigitValue(s[|s| - 1]) == r;
      assert n == 10 * q + r;
    }
  }

  /** Reading back the decimal numeral of `n` gives `n`. */
  lemma IntRoundTrip(n: int)
    ensures ParseInt(IntToString(n)) == n
  {
    if n < 0 {
      NatRoundTrip(-n);
      assert IntToString(n)[1..] == NatToString(-n);
    } else {
      NatRoundTrip(n);
    }
  }

  /** Distinct numbers have distinct numerals. */
  lemma IntToStringInjective(a: int, b: int)
    ensures IntToString(a) == IntToString(b) <==> a == b
  {
    IntRoundTrip(a);
    IntRoundTrip(b);
  }

  /** getPdfName: employee id, month and year joined by `_`, then `.pdf`. */
  function GetPdfName(payroll: Payroll): (name: string)
    ensures |name| > 4 && name[|name| - 4..] == ".pdf"
  {
    IntToString(payroll.employeeId) + "_" + IntToString(payroll.paymentDate.month) + "_"
      + IntToString(payroll.paymentDate.year) + ".pdf"
  }

  /** The number of occurrences of `c` in `s`. */
  function Count(s: string, c: char): (n: nat)
    ensures n <= |s|
    ensures n == 0 <==> c !in s
    decreases |s|
  {
    if s == [] then 0 else (if s[0] == c then 1 else 0) + Count(s[1..], c)
  }

  lemma {:induction false} CountAppend(a: string, b: string, c: char)
    ensures Count(a + b, c) == Count(a, c) + Count(b, c)
    decreases |a|
  {
    if a != [] {
      assert (a + b)[1..] == a[1..] + b;
      assert (a + b)[0] == a[0];
      CountAppend(a[1..], b, c);
    } else {
      assert a + b == b;
    }
  }

  /** The name holds exactly two underscores: a numeral holds none. */
  lemma TwoUnderscores(payroll: Payroll)
    ensures Count(GetPdfName(payroll), '_') == 2
  {
    var x, y, z := IntToString(payroll.employeeId), IntToString(payroll.paymentDate.month), IntToString(payroll.paymentDate.year);
    assert '_' !in x && '_' !in y && '_' !in z && '_' !in ".pdf";
    CountAppend(x, "_", '_');
    CountAppend(x + "_", y, '_');
    CountAppend(x + "_" + y, "_", '_');
    CountAppend(x + "_" + y + "_", z, '_');
    CountAppend(x + "_" + y + "_" + z, ".pdf", '_');
  }

  /** A separator that the first part does not contain splits a join uniquely. */
  lemma SplitAtSeparator(a1: string, a2: string, b1: string, b2: string, c: char)
    requires c !in a1 && c !in b1
    requires a1 + [c] + a2 == b1 + [c] + b2
    ensures a1 == b1 && a2 == b2
  {
    var s := a1 + [c] + a2;
    FirstSeparator(a1, a2, c);
    FirstSeparator(b1, b2, c);
    assert a1 == s[..|a1|] && b1 == s[..|b1|];
    assert a2 == s[|a1| + 1..] && b2 == s[|b1| + 1..];
  }

  lemma FirstSeparator(a: string, b: string, c: char)
    requires c !in a
    ensures IndexOf(a + [c] + b, c) == |a|
  {
    var s := a + [c] + b;
    var i := IndexOf(s, c);
    assert s[|a|] == c;
    assert s[..i] == a[..i] || i > |a|;
    assert i <= |a| by {
      assert s[..|a| + 1][|a|] == c;
    }
  }

  /** Two payrolls share a file name exactly when they have the same employee, month and
      year: the day, salary, tax, payslip and paid flag do not enter the name. */
  lemma SameNameIffSameKey(p: Payroll, q: Payroll)
    ensures GetPdfName(p) == GetPdfName(q) <==>
      p.employeeId == q.employeeId && p.paymentDate.month == q.paymentDate.month && p.paymentDate.year == q.paymentDate.year
  {
    var x1, y1, z1 := IntToString(p.employeeId), IntToString(p.paymentDate.month), IntToString(p.paymentDate.year);
    var x2, y2, z2 := IntToString(q.employeeId), IntToString(q.paymentDate.month), IntToString(q.paymentDate.year);
    if GetPdfName(p) == GetPdfName(q) {
      var n1, n2 := GetPdfName(p), GetPdfName(q);
      assert x1 + "_" + y1 + "_" + z1 == n1[..|n1| - 4];
      assert x2 + "_" + y2 + "_" + z2 == n2[..|n2| - 4];
      assert x1 + "_" + y1 + "_" + z1 == x1 + ['_'] + (y1 + "_" + z1);
      assert x2 + "_" + y2 + "_" + z2 == x2 + ['_'] + (y2 + "_" + z2);
      assert y1 + "_" + z1 == y1 + ['_'] + z1;
      assert y2 + "_" + z2 == y2 + ['_'] + z2;
      SplitAtSeparator(x1, y1 + "_" + z1, x2, y2 + "_" + z2, '_');
      SplitAtSeparator(y1, z1, y2, z2, '_');
      IntToStringInjective(p.employeeId, q.employeeId);
      IntToStringInjective(p.paymentDate.month, q.paymentDate.month);
      IntToStringInjective(p.paymentDate.year, q.paymentDate.year);
    }
  }

  /** The name of employee 12's payroll for May 2024. */
  lemma NameExample(p: Payroll)
    requires p.employeeId == 12 && p.paymentDate.month == 5 && p.paymentDate.year == 2024
    ensures GetPdfName(p) == "12_5_2024.pdf"
  {
    assert NatToString(12) == "12";
    assert NatToString(2024) == "2024";
  }
}
