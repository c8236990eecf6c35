/**
 * The text the workload generator produces for keys and values: decimal numerals
 * (Python's `str` of a non-negative int), the `key{}` template and the uniform key draw.
 */
module WorkloadText {

  predicate IsDigit(c: char)
  {
    '0' <= c <= '9'
  }

  /** The character of a decimal digit. */
  function Digit(d: nat): (c: char)
    requires d < 10
    ensures IsDigit(c) && c as int - '0' as int == d
  {
    ('0' as int + d) as char
  }

  /** The value of a digit character. */
  function DigitValue(c: char): (d: nat)
    requires IsDigit(c)
    ensures d < 10 && Digit(d) == c
  {
    c as int - '0' as int
  }

  /** A decimal numeral: digits only, and no leading zero unless it is "0" itself. */
  predicate IsNumeral(s: string)
  {
    && |s| >= 1
    && (forall i :: 0 <= i < |s| ==> IsDigit(s[i]))
    && (|s| > 1 ==> s[0] != '0')
  }

  /** `str(n)` for a non-negative integer: its shortest decimal numeral. */
  function NatToString(n: nat): (s: string)
    ensures IsNumeral(s)
    ensures n < 10 <==> |s| == 1
  {
    if n < 10 then [Digit(n)]
    else
      var s := NatToString(n / 10) + [Digit(n % 10)];
      assert s[..|s| - 1] == NatToString(n / 10);
      s
  }

  /** The value of a string of digits. */
  function ParseNat(s: string): nat
    requires forall i :: 0 <= i < |s| ==> IsDigit(s[i])
  {
    if s == [] then 0 else ParseNat(s[..|s| - 1]) * 10 + DigitValue(s[|s| - 1])
  }

  /** Reading the numeral of `n` gives `n` back. */
  lemma {:induction false} ParseNatToString(n: nat)
    ensures ParseNat(NatToString(n)) == n
  {
    if n >= 10 {
      var s := NatToString(n);
      assert s[..|s| - 1] == NatToString(n / 10);
      ParseNatToString(n / 10);
    }
  }

  /** Writing the value of a numeral gives the numeral back. */
  lemma {:induction false} NatToStringParse(s: string)
    requires IsNumeral(s)
    ensures NatToString(ParseNat(s)) == s
  {
    var n := ParseNat(s);
    if |s| == 1 {
      assert s[..0] == [];
    } else {
      var p := s[..|s| - 1];
      assert IsNumeral(p) by {
        assert p[0] == s[0];
      }
      NatToStringParse(p);
      var m := ParseNat(p);
      assert m >= 1 by {
        LeadingDigit(p);
      }
      assert n / 10 == m && n % 10 == DigitValue(s[|s| - 1]);
      assert s == p + [s[|s| - 1]];
    }
  }

  /** A numeral of two digits or more, starting with a non-zero digit, has a non-zero value. */
  lemma {:induction false} LeadingDigit(s: string)
    requires IsNumeral(s)
    ensures ParseNat(s) >= 1 || s == "0"
    ensures |s| > 1 ==> ParseNat(s) >= 1
  {
    if |s| > 1 {
      var p := s[..|s| - 1];
      assert IsNumeral(p) by {
        assert p[0] == s[0];
      }
      LeadingDigit(p);
      assert p != "0" by {
        assert p[0] == s[0];
      }
    } else {
      assert s[..0] == [];
      assert s == [s[0]];
    }
  }

  /** Distinct numbers have distinct numerals. */
  lemma NatToStringInjective(m: nat, n: nat)
    requires NatToString(m) == NatToString(n)
    ensures m == n
  {
    ParseNatToString(m);
    ParseNatToString(n);
  }

  /** `_KEY_TEMPLATE.format(i)`. */
  function KeyName(i: nat): string
  {
    "key" + NatToString(i)
  }

  /** A key name is the template's prefix followed by a numeral. */
  lemma KeyNameShape(i: nat)
    ensures |KeyName(i)| > 3 && KeyName(i)[..3] == "key" && IsNumeral(KeyName(i)[3..])
  {
    assert KeyName(i)[3..] == NatToString(i);
  }

  /** Different indices name different keys. */
  lemma KeyNameInjective(i: nat, j: nat)
    requires KeyName(i) == KeyName(j)
    ensures i == j
  {
    assert KeyName(i)[3..] == NatToString(i);
    assert KeyName(j)[3..] == NatToString(j);
    NatToStringInjective(i, j);
  }

  /** A key name tells its index: reading the digits after the template gives it back. */
  lemma KeyNameIndex(i: nat)
    ensures ParseNat(KeyName(i)[3..]) == i
  {
    assert KeyName(i)[3..] == NatToString(i);
    ParseNatToString(i);
  }

  /** The key names of the indices below `n`. */
  ghost function KeyNames(n: nat): set<string>
  {
    set i | 0 <= i < n :: KeyName(i)
  }

  /** There are exactly `n` key names below `n`. */
  lemma {:induction false} KeyNamesCount(n: nat)
    ensures |KeyNames(n)| == n
  {
    if n > 0 {
      KeyNamesCount(n - 1);
      assert KeyNames(n) == KeyNames(n - 1) + {KeyName(n - 1)};
      NextKeyName(n - 1);
    } else {
      assert KeyNames(0) == {};
    }
  }

  /** The key name of index `n` is not among the names below `n`. */
  lemma NextKeyName(n: nat)
    ensures KeyName(n) !in KeyNames(n)
  {
    forall i | 0 <= i < n ensures KeyName(i) != KeyName(n) {
      if KeyName(i) == KeyName(n) {
        KeyNameInjective(i, n);
      }
    }
  }

  /**
   * When fewer than `n` keys are taken, some key name below `n` is still free: the draw
   * loop in the preamble can always stop.
   */
  lemma FreeKeyName(n: nat, taken: set<string>)
    requires |taken| < n
    ensures exists i :: 0 <= i < n && KeyName(i) !in taken
  {
    KeyNamesCount(n);
    var free := KeyNames(n) - taken;
    assert |free| > 0 by {
      assert KeyNames(n) <= free + taken;
      assert |KeyNames(n)| <= |free + taken| <= |free| + |taken|;
    }
    var key :| key in free;
    var i :| 0 <= i < n && KeyName(i) == key;
  }

  /** A draw from [0, 1) scaled by a positive total lands in [0, total). */
  lemma ScaledDraw(total: real, u: real)
    requires total > 0.0 && 0.0 <= u < 1.0
    ensures 0.0 <= u * total < total
  {
    assert total - u * total == (1.0 - u) * total;
  }

  /** Comparing a quotient by a positive divisor is comparing the dividend with a product. */
  lemma DivisionBelow(a: real, w: real, t: real)
    requires w > 0.0
    ensures a / w < t <==> a < w * t
  {
    var q := a / w;
    assert q * w == a;
    if q < t {
      assert q * w < t * w;
    } else {
      assert q * w >= t * w;
    }
  }

  /** A draw from [0, 1) scaled by n and truncated is an index below n. */
  lemma FloorBelow(n: nat, u: real)
    requires n > 0 && 0.0 <= u < 1.0
    ensures 0 <= (n as real * u).Floor < n
  {
    ScaledDraw(n as real, u);
  }

  /** `int(n * random.random())` for a draw `u` in [0, 1). */
  function ScaledIndex(n: nat, u: real): (i: int)
    requires 0.0 <= u < 1.0
    ensures 0 <= i && (n > 0 ==> i < n) && (n == 0 ==> i == 0)
  {
    if n > 0 then FloorBelow(n, u); (n as real * u).Floor
    else (n as real * u).Floor
  }

  /** The draw that lands on index `i`. */
  lemma ScaledIndexHits(n: nat, i: nat)
    requires i < n
    ensures 0.0 <= i as real / n as real < 1.0
    ensures ScaledIndex(n, i as real / n as real) == i
  {
    var u := i as real / n as real;
    DivisionBelow(i as real, n as real, 1.0);
    assert n as real * u == i as real;
    assert (i as real).Floor == i;
  }

  /** generate_key_uniform: the key named by a uniform draw. */
  function KeyUniform(numKeys: nat, u: real): (key: string)
    requires 0.0 <= u < 1.0
    ensures key in KeyNames(if numKeys == 0 then 1 else numKeys)
  {
    KeyName(ScaledIndex(numKeys, u))
  }

  /** generate_command_value: `value{}` of an integer drawn from [0, 10^9]. */
  function ValueText(n: nat): string
    requires n <= 1_000_000_000
  {
    "value" + NatToString(n)
  }

  /** A generated value is the word `value` followed by the numeral of the drawn integer. */
  lemma ValueTextShape(n: nat)
    requires n <= 1_000_000_000
    ensures |ValueText(n)| > 5 && ValueText(n)[..5] == "value" && IsNumeral(ValueText(n)[5..])
    ensures ParseNat(ValueText(n)[5..]) == n
  {
    assert ValueText(n)[5..] == NatToString(n);
    ParseNatToString(n);
  }
}
