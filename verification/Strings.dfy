/**
 The string functions of Go's `strings` and `fmt` packages that the repository builds
 names with: substring search, replacement, splitting, and decimal printing.
 */
module Strings {

  // ---------------------------------------------------------------- search and replace

  predicate Contains(s: string, sub: string) {
    sub <= s || (s != "" && Contains(s[1..], sub))
  }

  /** `strings.ReplaceAll`: leftmost, non-overlapping occurrences. */
  function ReplaceAll(s: string, from: string, to: string): string
    requires from != ""
    decreases |s|
  {
    if s == "" then ""
    else if from <= s then to + ReplaceAll(s[|from|..], from, to)
    else [s[0]] + ReplaceAll(s[1..], from, to)
  }

  /** A search finds a substring exactly when it starts at some index. */
  lemma {:induction false} ContainsIff(s: string, sub: string)
    ensures Contains(s, sub) <==> exists i :: 0 <= i <= |s| && sub <= s[i..]
  {
    assert s[0..] == s;
    if s != "" && !(sub <= s) {
      ContainsIff(s[1..], sub);
      if Contains(s[1..], sub) {
        var i :| 0 <= i <= |s[1..]| && sub <= s[1..][i..];
        assert s[i + 1..] == s[1..][i..];
      }
      if i :| 0 <= i <= |s| && sub <= s[i..] {
        assert s[1..][i - 1..] == s[i..];
      }
    }
  }

  lemma ReplaceCharStep(s: string, c: char, to: string)
    requires s != ""
    ensures ReplaceAll(s, [c], to) == (if s[0] == c then to else [s[0]]) + ReplaceAll(s[1..], [c], to)
  {
    assert [c] <= s <==> s[0] == c;
  }

  /** Replacing a character leaves a prefix that does not hold it alone. */
  lemma {:induction false} ReplaceCharSkip(p: string, s: string, c: char, to: string)
    requires c !in p
    ensures ReplaceAll(p + s, [c], to) == p + ReplaceAll(s, [c], to)
  {
    if p == "" {
      assert p + s == s;
    } else {
      ReplaceCharSkip(p[1..], s, c, to);
      ReplaceCharStep(p + s, c, to);
      assert (p + s)[1..] == p[1..] + s;
      assert p + ReplaceAll(s, [c], to) == [p[0]] + (p[1..] + ReplaceAll(s, [c], to));
    }
  }

  /** Replacing one character by another changes exactly the positions that hold it. */
  lemma {:induction false} ReplaceCharPointwise(s: string, c: char, d: char)
    ensures |ReplaceAll(s, [c], [d])| == |s|
    ensures forall i :: 0 <= i < |s| ==> ReplaceAll(s, [c], [d])[i] == if s[i] == c then d else s[i]
  {
    if s != "" {
      ReplaceCharPointwise(s[1..], c, d);
      ReplaceCharStep(s, c, [d]);
    }
  }

  // ---------------------------------------------------------------- split

  /** `strings.Split` on a one-character separator. */
  function Split(s: string, sep: char): (parts: seq<string>)
    ensures parts != []
  {
    if s == "" then [""]
    else if s[0] == sep then [""] + Split(s[1..], sep)
    else
      var rest := Split(s[1..], sep);
      [[s[0]] + rest[0]] + rest[1..]
  }

  lemma {:induction false} SplitFirst(a: string, b: string, sep: char)
    requires sep !in a
    ensures Split(a + [sep] + b, sep) == [a] + Split(b, sep)
  {
    var s := a + [sep] + b;
    if a == "" {
      assert s[1..] == b;
    } else {
      assert s[1..] == a[1..] + [sep] + b;
      SplitFirst(a[1..], b, sep);
      assert [s[0]] + a[1..] == a;
    }
  }

  lemma {:induction false} SplitNone(s: string, sep: char)
    requires sep !in s
    ensures Split(s, sep) == [s]
  {
    if s != "" {
      SplitNone(s[1..], sep);
      assert [s[0]] + s[1..] == s;
    }
  }

  /** The first part ends at the first separator. */
  lemma {:induction false} SplitHead(s: string, sep: char)
    ensures var parts := Split(s, sep);
      && sep !in parts[0]
      && (|parts| == 1 ==> s == parts[0])
      && (|parts| > 1 ==> |parts[0]| < |s| && s == parts[0] + [sep] + s[|parts[0]| + 1..]
                          && parts[1..] == Split(s[|parts[0]| + 1..], sep))
  {
    if s != "" {
      var parts := Split(s, sep);
      if s[0] == sep {
        assert s == "" + [sep] + s[1..];
      } else {
        SplitHead(s[1..], sep);
        var rest := Split(s[1..], sep);
        assert parts[0] == [s[0]] + rest[0];
        assert parts[1..] == rest[1..];
        assert s == [s[0]] + s[1..];
        if |parts| > 1 {
          assert s[1..][|rest[0]| + 1..] == s[|parts[0]| + 1..];
        }
      }
    }
  }

  lemma {:induction false} SplitInjective(s: string, t: string, sep: char)
    requires Split(s, sep) == Split(t, sep)
    ensures s == t
    decreases |s|
  {
    SplitHead(s, sep);
    SplitHead(t, sep);
    var parts := Split(s, sep);
    if |parts| > 1 {
      SplitInjective(s[|parts[0]| + 1..], t[|parts[0]| + 1..], sep);
    }
  }

  // ---------------------------------------------------------------- decimal printing

  function Digit(d: nat): (c: char)
    requires d < 10
    ensures '0' <= c <= '9'
  {
    '0' + d as char
  }

  /** `%d` on a non-negative number. */
  function Digits(n: nat): (s: string)
    ensures s != "" && (n >= 10 ==> |s| > 1)
    ensures forall c :: c in s ==> '0' <= c <= '9'
  {
    if n < 10 then [Digit(n)] else Digits(n / 10) + [Digit(n % 10)]
  }

  /** `%d` on any integer. */
  function Decimal(n: int): string {
    if n < 0 then "-" + Digits(-n) else Digits(n)
  }

  lemma {:induction false} DigitsInjective(m: nat, n: nat)
    requires Digits(m) == Digits(n)
    ensures m == n
  {
    var s, t := Digits(m), Digits(n);
    assert s[|s| - 1] == Digit(m % 10);
    assert t[|t| - 1] == Digit(n % 10);
    assert m % 10 == n % 10;
    if m >= 10 && n >= 10 {
      assert s[..|s| - 1] == Digits(m / 10);
      assert t[..|t| - 1] == Digits(n / 10);
      DigitsInjective(m / 10, n / 10);
    }
  }

  /** The number that a string of digits stands for. */
  function ReadNumber(s: string): int {
    if s == "" then 0 else 10 * ReadNumber(s[..|s| - 1]) + (s[|s| - 1] as int - '0' as int)
  }

  /** A printed number reads back as itself, and has no leading zero. */
  lemma {:induction false} DigitsReadBack(n: nat)
    ensures ReadNumber(Digits(n)) == n
    ensures Digits(n)[0] == '0' ==> n == 0
  {
    var s := Digits(n);
    if n < 10 {
      assert s[..0] == "";
    } else {
      DigitsReadBack(n / 10);
      assert s[..|s| - 1] == Digits(n / 10);
    }
  }

  /** A negative number is printed with its sign in front. */
  lemma DecimalReadsBack(n: int)
    ensures n >= 0 ==> ReadNumber(Decimal(n)) == n
    ensures n < 0 ==> Decimal(n)[0] == '-' && ReadNumber(Decimal(n)[1..]) == -n
  {
    DigitsReadBack(if n < 0 then -n else n);
  }

  // ---------------------------------------------------------------- separators

  /** A string is split in one way only at the last occurrence of a separator. */
  lemma LastSeparatorUnique(a: string, x: string, b: string, y: string, sep: char)
    requires a + [sep] + x == b + [sep] + y
    requires sep !in x && sep !in y
    ensures a == b && x == y
  {
    var s := a + [sep] + x;
    assert s[|a|] == sep && s[|b|] == sep;
    assert forall i :: |a| < i < |s| ==> s[i] in x;
    assert forall i :: |b| < i < |s| ==> s[i] in y;
    assert a == s[..|a|] == b;
    assert x == s[|a| + 1..] == y;
  }
}
