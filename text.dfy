/** Values shared by the background worker and the popup: optional values,
    results, and the ASCII character classes the extension's regular
    expressions test. */
module Text {

  /** JavaScript's `undefined` / absent value, or a present one. */
  datatype Option<+T> = None | Some(value: T)

  /** An operation that either produces a value or throws an `Error` with a message. */
  datatype Result<+T> = Success(value: T) | Failure(message: string)

  /** A string is truthy in JavaScript exactly when it is non-empty. */
  predicate Truthy(s: Option<string>)
  {
    s.Some? && s.value != ""
  }

  /** `\d` */
  predicate IsDigit(c: char)
  {
    '0' <= c <= '9'
  }

  /** `[a-z0-9]` */
  predicate IsLowerAlnum(c: char)
  {
    'a' <= c <= 'z' || IsDigit(c)
  }

  /** `String.prototype.toLowerCase` on one character, restricted to ASCII. */
  function LowerAscii(c: char): (r: char)
    ensures 'A' <= c <= 'Z' ==> 'a' <= r <= 'z' && r as int == c as int + 32
    ensures !('A' <= c <= 'Z') ==> r == c
  {
    if 'A' <= c <= 'Z' then (c as int + 32) as char else c
  }

  /** `t` occurs in `s` starting at index `i`. */
  predicate OccursAt(s: string, t: string, i: int)
  {
    0 <= i && i + |t| <= |s| && s[i..i + |t|] == t
  }

  lemma SliceOfSlice(s: string, i: int, j: int, a: int, b: int)
    requires 0 <= i <= j <= |s| && 0 <= a <= b <= j - i
    ensures s[i..j][a..b] == s[i + a..i + b]
  {
    assert forall t | 0 <= t < b - a :: s[i..j][a..b][t] == s[i + a..i + b][t];
  }

  /** Equal strings with the same head and the same tail have the same middle. */
  lemma CancelEnds(head: string, x: string, y: string, tail: string)
    requires head + x + tail == head + y + tail
    ensures x == y
  {
    var f := head + x + tail;
    assert |x| == |y|;
    assert x == f[|head|..|head| + |x|];
    assert y == f[|head|..|head| + |y|];
  }

  lemma CancelEnds3(head: string, x: string, y: string, t1: string, t2: string, t3: string)
    requires head + x + t1 + t2 + t3 == head + y + t1 + t2 + t3
    ensures x == y
  {
    assert head + x + t1 + t2 + t3 == head + x + (t1 + t2 + t3);
    assert head + y + t1 + t2 + t3 == head + y + (t1 + t2 + t3);
    CancelEnds(head, x, y, t1 + t2 + t3);
  }

  /** `String.prototype.includes` */
  predicate Contains(s: string, t: string)
  {
    exists i | 0 <= i <= |s| - |t| :: OccursAt(s, t, i)
  }

  /** Decimal rendering of a natural number, as JavaScript's template literal writes it. */
  function Decimal(n: nat): (r: string)
    ensures |r| > 0 && forall k | 0 <= k < |r| :: IsDigit(r[k])
    decreases n
  {
    if n < 10 then [Digit(n)] else Decimal(n / 10) + [Digit(n % 10)]
  }

  function Digit(d: nat): (c: char)
    requires d < 10
    ensures IsDigit(c) && c as int - '0' as int == d
  {
    ('0' as int + d) as char
  }

  /** Reads a string of decimal digits back as a number. */
  function ParseDecimal(s: string): (n: nat)
    requires forall k | 0 <= k < |s| :: IsDigit(s[k])
  {
    if s == [] then 0 else 10 * ParseDecimal(s[..|s| - 1]) + DigitValue(s[|s| - 1])
  }

  function DigitValue(c: char): (d: nat)
    requires IsDigit(c)
    ensures d < 10
  {
    c as int - '0' as int
  }

  lemma {:induction false} DecimalRoundTrip(n: nat)
    ensures ParseDecimal(Decimal(n)) == n
    decreases n
  {
    if n >= 10 {
      var r := Decimal(n);
      assert r[..|r| - 1] == Decimal(n / 10);
      DecimalRoundTrip(n / 10);
    }
  }

  /** `${n}` for an integer `n`. */
  function IntToString(n: int): (r: string)
  {
    if n < 0 then "-" + Decimal(-n) else Decimal(n)
  }

  /** Distinct integers render differently. */
  lemma IntToStringInjective(m: int, n: int)
    requires IntToString(m) == IntToString(n)
    ensures m == n
  {
    SignOfRendering(m);
    SignOfRendering(n);
    if m < 0 {
      assert Decimal(-m) == IntToString(m)[1..];
      DecimalRoundTrip(-m);
      DecimalRoundTrip(-n);
    } else {
      DecimalRoundTrip(m);
      DecimalRoundTrip(n);
    }
  }

  lemma SignOfRendering(n: int)
    ensures |IntToString(n)| > 0 && (IntToString(n)[0] == '-' <==> n < 0)
  {
    if n >= 0 {
      assert IsDigit(Decimal(n)[0]);
    }
  }
}
