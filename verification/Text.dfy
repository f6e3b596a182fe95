/**
 * String helpers with Python's meaning: the order `<` on str, `sep.join`,
 * slicing, the padding of format specs, and decimal digits.
 */
module Text {

  /** Python's `a < b` on str: code point by code point, a proper prefix first. */
  predicate Less(a: string, b: string)
  {
    if b == [] then false
    else if a == [] then true
    else if a[0] != b[0] then a[0] < b[0]
    else Less(a[1..], b[1..])
  }

  lemma {:induction false} LessIrreflexive(a: string)
    ensures !Less(a, a)
  {
    if a != [] {
      LessIrreflexive(a[1..]);
    }
  }

  lemma {:induction false} LessTransitive(a: string, b: string, c: string)
    requires Less(a, b) && Less(b, c)
    ensures Less(a, c)
  {
    if a != [] && a[0] == b[0] && b[0] == c[0] {
      LessTransitive(a[1..], b[1..], c[1..]);
    }
  }

  lemma {:induction false} LessTrichotomous(a: string, b: string)
    ensures Less(a, b) || a == b || Less(b, a)
  {
    if a != [] && b != [] && a[0] == b[0] {
      LessTrichotomous(a[1..], b[1..]);
      if a[1..] == b[1..] {
        assert a == [a[0]] + a[1..] && b == [b[0]] + b[1..];
      }
    }
  }

  lemma LessAsymmetric(a: string, b: string)
    requires Less(a, b)
    ensures !Less(b, a)
  {
    if Less(b, a) {
      LessTransitive(a, b, a);
      LessIrreflexive(a);
    }
  }

  /** Python's `sep.join(parts)`. */
  function Join(sep: string, parts: seq<string>): string
  {
    if |parts| == 0 then ""
    else if |parts| == 1 then parts[0]
    else parts[0] + sep + Join(sep, parts[1..])
  }

  /** Python's slice `s[:n]` for n >= 0. */
  function Take(s: string, n: nat): (t: string)
    ensures |t| <= n && |t| <= |s|
    ensures |s| <= n ==> t == s
    ensures n <= |s| ==> |t| == n
    ensures t == s[..|t|]
  {
    if |s| <= n then s else s[..n]
  }

  function Spaces(n: nat): (s: string)
    ensures |s| == n
    ensures forall i :: 0 <= i < n ==> s[i] == ' '
  {
    seq(n, _ => ' ')
  }

  /** `format(s, "<w")`, the default for a str in an f-string field of width w. */
  function PadRight(s: string, width: nat): (t: string)
    ensures |t| == if |s| < width then width else |s|
    ensures t[..|s|] == s
    ensures forall i :: |s| <= i < |t| ==> t[i] == ' '
  {
    if |s| < width then s + Spaces(width - |s|) else s
  }

  /** `format(s, ">w")`, the default for an int in an f-string field of width w. */
  function PadLeft(s: string, width: nat): (t: string)
    ensures |t| == if |s| < width then width else |s|
    ensures t[|t| - |s|..] == s
    ensures forall i :: 0 <= i < |t| - |s| ==> t[i] == ' '
  {
    if |s| < width then Spaces(width - |s|) + s else s
  }

  predicate IsDigit(c: char)
  {
    '0' <= c <= '9'
  }

  function DigitChar(n: int): (c: char)
    requires 0 <= n <= 9
    ensures IsDigit(c)
  {
    ('0' as int + n) as char
  }

  function DigitValue(c: char): (n: int)
    requires IsDigit(c)
    ensures 0 <= n <= 9 && DigitChar(n) == c
  {
    c as int - '0' as int
  }

  predicate AllDigits(s: string)
  {
    forall i :: 0 <= i < |s| ==> IsDigit(s[i])
  }

  function Pow10(k: nat): (p: nat)
    ensures p >= 1
  {
    if k == 0 then 1 else 10 * Pow10(k - 1)
  }

  /** `int(s)` for a string of ASCII digits. */
  function Number(s: string): (n: nat)
    requires AllDigits(s)
    ensures n < Pow10(|s|)
  {
    if s == [] then 0 else Number(s[..|s| - 1]) * 10 + DigitValue(s[|s| - 1])
  }

  /** `str(n)` for n >= 0. */
  function Decimal(n: nat): (s: string)
    ensures s != [] && AllDigits(s)
    ensures n < 10 ==> |s| == 1
    ensures 10 <= n < 100 ==> |s| == 2
    ensures n > 0 ==> s[0] != '0'
  {
    if n < 10 then [DigitChar(n)] else Decimal(n / 10) + [DigitChar(n % 10)]
  }

  lemma {:induction false} NumberOfDecimal(n: nat)
    ensures Number(Decimal(n)) == n
  {
    if n >= 10 {
      NumberOfDecimal(n / 10);
      var s := Decimal(n);
      assert s[..|s| - 1] == Decimal(n / 10);
    }
  }

  /** Two digits with a leading zero, as `%m` and `%d` write them. */
  function TwoDigits(n: int): (s: string)
    requires 0 <= n < 100
    ensures |s| == 2 && AllDigits(s)
  {
    [DigitChar(n / 10), DigitChar(n % 10)]
  }

  /** Four digits with leading zeros. */
  function FourDigits(n: int): (s: string)
    requires 0 <= n < 10000
    ensures |s| == 4 && AllDigits(s)
  {
    TwoDigits(n / 100) + TwoDigits(n % 100)
  }

  lemma NumberOfTwoDigits(n: int)
    requires 0 <= n < 100
    ensures Number(TwoDigits(n)) == n
  {
    var s := TwoDigits(n);
    assert s[..1][..0] == [];
    assert Number(s[..1]) == n / 10;
    assert s[..2][..1] == s[..1];
  }

  lemma {:induction false} NumberOfFourDigits(n: int)
    requires 0 <= n < 10000
    ensures Number(FourDigits(n)) == n
  {
    var hi, lo := TwoDigits(n / 100), TwoDigits(n % 100);
    var s := hi + lo;
    NumberOfTwoDigits(n / 100);
    NumberOfTwoDigits(n % 100);
    assert s[..3] == hi + lo[..1];
    assert s[..3][..2] == hi;
    assert lo[..1][..0] == [];
    assert Number(lo[..1]) == DigitValue(lo[0]);
  }

  /** `sep.join(parts)` starts with the first part and holds every part. */
  lemma {:induction false} JoinStartsWithFirst(sep: string, parts: seq<string>)
    requires parts != []
    ensures |parts[0]| <= |Join(sep, parts)| && Join(sep, parts)[..|parts[0]|] == parts[0]
    ensures |parts| == 1 ==> Join(sep, parts) == parts[0]
  {
    if |parts| > 1 {
      assert (parts[0] + sep + Join(sep, parts[1..]))[..|parts[0]|] == parts[0];
    }
  }

  /** In `sep.join(parts)` the first part is followed by the separator and then the second part. */
  lemma JoinStartsWithFirstTwo(sep: string, parts: seq<string>)
    requires |parts| >= 2
    ensures var two := parts[0] + sep + parts[1];
            |two| <= |Join(sep, parts)| && Join(sep, parts)[..|two|] == two
  {
    var rest := Join(sep, parts[1..]);
    JoinStartsWithFirst(sep, parts[1..]);
    assert rest[..|parts[1]|] == parts[1];
    assert (parts[0] + sep + rest)[..|parts[0] + sep + parts[1]|] == parts[0] + sep + rest[..|parts[1]|];
  }

  /** `str(n)` for any int: a minus sign, then the digits of its magnitude. */
  function IntText(n: int): (s: string)
    ensures s != []
    ensures n >= 0 ==> s == Decimal(n)
    ensures n < 0 ==> s[0] == '-' && s[1..] == Decimal(-n)
  {
    if n < 0 then "-" + Decimal(-n) else Decimal(n)
  }

  /**
   * `s.center(width)`: CPython puts half the margin on the left, one more
   * when both the margin and the width are odd, and the rest on the right.
   */
  function Center(s: string, width: nat): (t: string)
    ensures width <= |s| ==> t == s
    ensures |s| < width ==>
              exists l: nat, r: nat :: t == Spaces(l) + s + Spaces(r) && l + r == width - |s|
                                       && (l == r || l == r + 1 || r == l + 1)
                                       && (l > r <==> (width - |s|) % 2 == 1 && width % 2 == 1)
  {
    if width <= |s| then s
    else
      var marg := width - |s|;
      var left := marg / 2 + (if marg % 2 == 1 && width % 2 == 1 then 1 else 0);
      Spaces(left) + s + Spaces(marg - left)
  }

  /** Strings that start with parts of equal length compare by those parts first. */
  lemma {:induction false} LessAppend(p1: string, s1: string, p2: string, s2: string)
    requires |p1| == |p2|
    ensures Less(p1 + s1, p2 + s2) <==> Less(p1, p2) || (p1 == p2 && Less(s1, s2))
  {
    if p1 == [] {
      assert p1 + s1 == s1 && p2 + s2 == s2;
    } else {
      assert (p1 + s1)[1..] == p1[1..] + s1;
      assert (p2 + s2)[1..] == p2[1..] + s2;
      LessAppend(p1[1..], s1, p2[1..], s2);
      if p1[0] == p2[0] && p1[1..] == p2[1..] {
        assert p1 == [p1[0]] + p1[1..] && p2 == [p2[0]] + p2[1..];
      }
    }
  }

  /** Zero-padded two-digit texts compare as their numbers do. */
  lemma TwoDigitsLess(x: int, y: int)
    requires 0 <= x < 100 && 0 <= y < 100
    ensures Less(TwoDigits(x), TwoDigits(y)) <==> x < y
    ensures TwoDigits(x) == TwoDigits(y) <==> x == y
  {
    var a, b := TwoDigits(x), TwoDigits(y);
    assert a[1..][1..] == [] && b[1..][1..] == [];
    assert (a[0] < b[0] <==> x / 10 < y / 10) && (a[0] == b[0] <==> x / 10 == y / 10);
    assert (a[1] < b[1] <==> x % 10 < y % 10) && (a[1] == b[1] <==> x % 10 == y % 10);
    assert !Less(a[1..][1..], b[1..][1..]);
    assert Less(a[1..], b[1..]) <==> a[1] < b[1];
    assert Less(a, b) <==> a[0] < b[0] || (a[0] == b[0] && a[1] < b[1]);
    assert x == 10 * (x / 10) + x % 10 && y == 10 * (y / 10) + y % 10;
    if a == b {
      assert a[0] == b[0] && a[1] == b[1];
    } else {
      assert a[0] != b[0] || a[1] != b[1];
    }
  }

  /** Zero-padded four-digit texts compare as their numbers do. */
  lemma FourDigitsLess(x: int, y: int)
    requires 0 <= x < 10000 && 0 <= y < 10000
    ensures Less(FourDigits(x), FourDigits(y)) <==> x < y
    ensures FourDigits(x) == FourDigits(y) <==> x == y
  {
    LessAppend(TwoDigits(x / 100), TwoDigits(x % 100), TwoDigits(y / 100), TwoDigits(y % 100));
    TwoDigitsLess(x / 100, y / 100);
    TwoDigitsLess(x % 100, y % 100);
    assert x == 100 * (x / 100) + x % 100 && y == 100 * (y / 100) + y % 100;
    if FourDigits(x) == FourDigits(y) {
      var a, b := FourDigits(x), FourDigits(y);
      assert a[..2] == TwoDigits(x / 100) && b[..2] == TwoDigits(y / 100);
      assert a[2..] == TwoDigits(x % 100) && b[2..] == TwoDigits(y % 100);
    }
  }
}
