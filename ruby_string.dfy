/**
 The two Ruby String methods the version check relies on: `split('.')` and
 `to_i`, together with the decimal rendering and dot-joining that produce
 the strings they read, and the round trips between them.
 */
module RubyString {

  /** The character `RUBY_VERSION` is split on. */
  const Dot: char := '.'

  /** The characters Ruby's integer parser skips in front of a number (C `isspace`). */
  predicate IsSpace(c: char) {
    c == ' ' || c == '\t' || c == '\n' || c == '\U{B}' || c == '\U{C}' || c == '\r'
  }

  predicate IsDigit(c: char) {
    '0' <= c <= '9'
  }

  predicate AllDigits(s: string) {
    forall i :: 0 <= i < |s| ==> IsDigit(s[i])
  }

  predicate DotFree(s: string) {
    forall i :: 0 <= i < |s| ==> s[i] != Dot
  }

  function DigitOf(c: char): (d: nat)
    requires IsDigit(c)
    ensures d < 10
  {
    c as int - '0' as int
  }

  function DigitChar(d: nat): (c: char)
    requires d < 10
    ensures IsDigit(c) && DigitOf(c) == d
  {
    ('0' as int + d) as char
  }

  /** The value of a string of decimal digits, most significant first; 0 for the empty string. */
  function DigitValue(s: string): nat
    requires AllDigits(s)
  {
    if s == [] then 0 else DigitValue(s[..|s| - 1]) * 10 + DigitOf(s[|s| - 1])
  }

  /** The shortest decimal rendering of `n` (no leading zeros; "0" for zero). */
  function Decimal(n: nat): (s: string)
    ensures s != [] && AllDigits(s) && DotFree(s)
  {
    if n < 10 then [DigitChar(n)] else Decimal(n / 10) + [DigitChar(n % 10)]
  }

  lemma {:induction false} DecimalValue(n: nat)
    ensures DigitValue(Decimal(n)) == n
  {
    if n >= 10 {
      var s := Decimal(n);
      assert s[..|s| - 1] == Decimal(n / 10);
      DecimalValue(n / 10);
    }
  }

  // ---------------------------------------------------------------------------
  // String#split('.')
  // ---------------------------------------------------------------------------

  /** Every field between dots, empty ones included: one more field than there are dots. */
  function Fields(s: string): (r: seq<string>)
    ensures |r| >= 1
    ensures forall i :: 0 <= i < |r| ==> DotFree(r[i])
  {
    if s == [] then [[]]
    else
      var rest := Fields(s[1..]);
      if s[0] == Dot then [[]] + rest
      else [[s[0]] + rest[0]] + rest[1..]
  }

  /** Ruby's split with no limit removes the empty fields at the end of the result. */
  function DropTrailingEmpty(fs: seq<string>): (r: seq<string>)
    ensures r <= fs
    ensures r == [] || r[|r| - 1] != []
    ensures forall i :: |r| <= i < |fs| ==> fs[i] == []
  {
    if fs == [] || fs[|fs| - 1] != [] then fs else DropTrailingEmpty(fs[..|fs| - 1])
  }

  /**
   `s.split('.')`: the fields between dots, without the trailing empty ones.
   No field holds a dot and the last is never empty; joined with dots they
   give `s` up to its trailing dots, and there are no fields at all exactly
   when `s` is nothing but dots.
   */
  function Split(s: string): (r: seq<string>)
    ensures forall i :: 0 <= i < |r| ==> DotFree(r[i])
    ensures r == [] || r[|r| - 1] != []
    ensures r == [] <==> forall i :: 0 <= i < |s| ==> s[i] == Dot
    ensures r != [] ==> Join(r) <= s && forall i :: |Join(r)| <= i < |s| ==> s[i] == Dot
  {
    SplitShape(s);
    DropTrailingEmpty(Fields(s))
  }

  /** What is left of `s` once its fields are joined back, and when there are none. */
  lemma SplitShape(s: string)
    ensures var r := DropTrailingEmpty(Fields(s));
      && (r == [] <==> forall i :: 0 <= i < |s| ==> s[i] == Dot)
      && (r != [] ==> Join(r) <= s && forall i :: |Join(r)| <= i < |s| ==> s[i] == Dot)
  {
    var fs := Fields(s);
    var r := DropTrailingEmpty(fs);
    JoinFields(s);
    if r == [] {
      JoinOfEmpties(fs);
    } else {
      JoinWithTrailingEmpties(fs, |r|);
      assert fs[..|r|] == r;
    }
    if forall i :: 0 <= i < |s| ==> s[i] == Dot {
      FieldsOfDots(s);
    }
  }

  /** Joining empty fields gives nothing but the dots between them. */
  lemma {:induction false} JoinOfEmpties(fs: seq<string>)
    requires |fs| >= 1
    requires forall i :: 0 <= i < |fs| ==> fs[i] == []
    ensures forall i :: 0 <= i < |Join(fs)| ==> Join(fs)[i] == Dot
  {
    if |fs| > 1 {
      JoinOfEmpties(fs[1..]);
      assert Join(fs) == [Dot] + Join(fs[1..]);
    }
  }

  /** Empty fields after the first `k` add only dots after the join of those `k`. */
  lemma {:induction false} JoinWithTrailingEmpties(fs: seq<string>, k: nat)
    requires 1 <= k <= |fs|
    requires forall i :: k <= i < |fs| ==> fs[i] == []
    ensures Join(fs[..k]) <= Join(fs)
    ensures forall i :: |Join(fs[..k])| <= i < |Join(fs)| ==> Join(fs)[i] == Dot
  {
    if k == |fs| {
      assert fs[..k] == fs;
    } else if k == 1 {
      JoinOfEmpties(fs[1..]);
      assert Join(fs) == fs[0] + [Dot] + Join(fs[1..]);
      assert fs[..1] == [fs[0]];
    } else {
      JoinWithTrailingEmpties(fs[1..], k - 1);
      assert fs[1..][..k - 1] == fs[..k][1..];
      assert Join(fs[..k]) == fs[0] + [Dot] + Join(fs[1..][..k - 1]);
      assert Join(fs) == fs[0] + [Dot] + Join(fs[1..]);
    }
  }

  /** A string of dots only splits into empty fields, one more than there are dots. */
  lemma {:induction false} FieldsOfDots(s: string)
    requires forall i :: 0 <= i < |s| ==> s[i] == Dot
    ensures forall i :: 0 <= i < |Fields(s)| ==> Fields(s)[i] == []
  {
    if s != [] {
      FieldsOfDots(s[1..]);
    }
  }

  /** The inverse of `Fields`: the fields with a dot between each two. */
  function Join(fs: seq<string>): string
    requires |fs| >= 1
  {
    if |fs| == 1 then fs[0] else fs[0] + [Dot] + Join(fs[1..])
  }

  /** Gluing the fields back together with dots gives back the string that was split. */
  lemma {:induction false} JoinFields(s: string)
    ensures Join(Fields(s)) == s
  {
    if s != [] {
      var rest := Fields(s[1..]);
      JoinFields(s[1..]);
      if s[0] == Dot {
        assert Fields(s) == [[]] + rest;
      } else if |rest| == 1 {
        assert Join(Fields(s)) == [s[0]] + rest[0];
      } else {
        assert Fields(s)[1..] == rest[1..];
        assert Join(Fields(s)) == [s[0]] + rest[0] + [Dot] + Join(rest[1..]);
      }
    }
  }

  /** A dot-free prefix followed by a dot starts a new field. */
  lemma {:induction false} FieldsOfPrefix(c: string, t: string)
    requires DotFree(c)
    ensures Fields(c + [Dot] + t) == [c] + Fields(t)
    ensures Fields(c) == [c]
  {
    if c != [] {
      FieldsOfPrefix(c[1..], t);
      assert (c + [Dot] + t)[1..] == c[1..] + [Dot] + t;
      assert [c[0]] + c[1..] == c;
    } else {
      assert c + [Dot] + t == [Dot] + t;
    }
  }

  /** Splitting dot-free fields joined by dots gives back exactly those fields. */
  lemma {:induction false} FieldsJoin(fs: seq<string>)
    requires |fs| >= 1
    requires forall i :: 0 <= i < |fs| ==> DotFree(fs[i])
    ensures Fields(Join(fs)) == fs
  {
    FieldsOfPrefix(fs[0], []);
    if |fs| > 1 {
      FieldsJoin(fs[1..]);
      FieldsOfPrefix(fs[0], Join(fs[1..]));
      assert [fs[0]] + fs[1..] == fs;
    }
  }

  /** `split('.')` undoes joining dot-free fields with dots, as long as the last one is not empty. */
  lemma SplitJoin(fs: seq<string>)
    requires |fs| >= 1
    requires forall i :: 0 <= i < |fs| ==> DotFree(fs[i])
    requires fs[|fs| - 1] != []
    ensures Split(Join(fs)) == fs
  {
    FieldsJoin(fs);
  }

  // ---------------------------------------------------------------------------
  // String#to_i
  // ---------------------------------------------------------------------------

  function SkipSpace(s: string): (r: string)
    ensures |r| <= |s| && r == s[|s| - |r|..]
    ensures r == [] || !IsSpace(r[0])
  {
    if s != [] && IsSpace(s[0]) then SkipSpace(s[1..]) else s
  }

  /**
   The digits of the numeral at the front of `s`: a run of decimal digits in
   which a single underscore may stand between two digits. Underscores are
   dropped; the result is empty when `s` does not start with a digit.
   */
  function Numeral(s: string): (r: string)
    ensures AllDigits(r)
    ensures r == [] <==> (s == [] || !IsDigit(s[0]))
  {
    if s == [] || !IsDigit(s[0]) then []
    else if |s| >= 3 && s[1] == '_' && IsDigit(s[2]) then [s[0]] + Numeral(s[2..])
    else [s[0]] + Numeral(s[1..])
  }

  /**
   Ruby's `String#to_i` (base 10): never fails, reads 0 when there is no
   digit, and is negative only after a leading minus sign.
   */
  function ToI(s: string): (n: int)
    ensures (forall i :: 0 <= i < |s| ==> !IsDigit(s[i])) ==> n == 0
    ensures n < 0 ==> SkipSpace(s) != [] && SkipSpace(s)[0] == '-'
  {
    var t := SkipSpace(s);
    assert |t| >= 1 ==> t[0] == s[|s| - |t|];
    assert |t| >= 2 ==> t[1] == s[|s| - |t| + 1];
    if t != [] && t[0] == '-' then -(DigitValue(Numeral(t[1..])) as int)
    else if t != [] && t[0] == '+' then DigitValue(Numeral(t[1..]))
    else DigitValue(Numeral(t))
  }

  /** A string of digits is read whole. */
  lemma {:induction false} NumeralOfDigits(s: string)
    requires AllDigits(s)
    ensures Numeral(s) == s
  {
    if s != [] {
      NumeralOfDigits(s[1..]);
    }
  }

  /** Whatever follows a numeral, short of a digit or an underscore-and-digit, is ignored. */
  lemma {:induction false} NumeralOfPrefix(d: string, rest: string)
    requires AllDigits(d)
    requires rest == [] || (!IsDigit(rest[0]) && !(rest[0] == '_' && |rest| >= 2 && IsDigit(rest[1])))
    ensures Numeral(d + rest) == d
  {
    if d != [] {
      assert (d + rest)[1..] == d[1..] + rest;
      NumeralOfPrefix(d[1..], rest);
    } else {
      assert d + rest == rest;
    }
  }

  /**
   `to_i` reads the value of the leading run of digits and ignores the rest,
   for instance the "6" of "6-preview" or the "0" of "0p1".
   */
  lemma ToILeadingDigits(d: string, rest: string)
    requires d != [] && AllDigits(d)
    requires rest == [] || (!IsDigit(rest[0]) && !(rest[0] == '_' && |rest| >= 2 && IsDigit(rest[1])))
    ensures ToI(d + rest) == DigitValue(d)
  {
    assert (d + rest)[0] == d[0];
    ToIUnsigned(d + rest);
    NumeralOfPrefix(d, rest);
  }

  /** A string that starts with a digit has no space or sign in front of its numeral. */
  lemma ToIUnsigned(s: string)
    requires s != [] && IsDigit(s[0])
    ensures ToI(s) == DigitValue(Numeral(s))
  {
    assert !IsSpace(s[0]) && s[0] != '-' && s[0] != '+';
    assert SkipSpace(s) == s;
  }

  /** `to_i` reads back the decimal rendering of every natural number. */
  lemma ToIDecimal(n: nat)
    ensures ToI(Decimal(n)) == n
  {
    var s := Decimal(n);
    assert s + [] == s;
    ToILeadingDigits(s, []);
    DecimalValue(n);
  }

  /** `to_i` of a leading minus sign and a decimal numeral is the negated number. */
  lemma ToINegative(n: nat)
    ensures ToI(['-'] + Decimal(n)) == -(n as int)
  {
    var s := ['-'] + Decimal(n);
    assert s[0] == '-' && SkipSpace(s) == s;
    assert s[1..] == Decimal(n);
    assert ToI(s) == -(DigitValue(Numeral(Decimal(n))) as int);
    NumeralOfDigits(Decimal(n));
    DecimalValue(n);
  }
}
