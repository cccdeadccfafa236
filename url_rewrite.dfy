/** The background worker's URL derivations (background.js:34-50):
    `getHighestQualityUrl` and `getFallbackUrl`, each a chain of
    `String.prototype.replace` calls with a regular expression and no `g`
    flag, so that only the leftmost match is replaced.

    Each regular expression is given twice: declaratively, as the set of
    strings it matches (`IsToken`), and as the scanner that finds a match at
    a position (`MatchAt`) and the leftmost match (`FindFrom`). The lemmas
    `MatchAtSound` and `MatchAtComplete` tie the two together. */
module UrlRewrite {
  import opened Text

  /** The four regular expressions of background.js. */
  datatype Pattern =
    | SizeWH(ignoreCase: bool)  // /il_\d+x\d+\./i (line 37) and /il_\d+x\d+\./ (line 49)
    | SizeWN                    // /il_\d+xN\./i (line 38)
    | ImageExt                  // /\.(jpg|jpeg|png|gif)/ (line 42)

  /** A size pattern: one whose tokens start with `il_` and a digit. */
  predicate IsSizePattern(p: Pattern)
  {
    p.SizeWH? || p.SizeWN?
  }

  /** Character `c` matches the lower-case ASCII letter `lit` in the
      pattern; under the `i` flag its upper-case form matches as well. */
  predicate CharIs(c: char, lit: char, ignoreCase: bool)
    requires 'a' <= lit <= 'z'
  {
    c == lit || (ignoreCase && c as int == lit as int - 32)
  }

  predicate AllDigits(w: string)
  {
    forall k | 0 <= k < |w| :: IsDigit(w[k])
  }

  /** `il_` */
  predicate SizePrefix(w: string, ignoreCase: bool)
  {
    |w| >= 3 && CharIs(w[0], 'i', ignoreCase) && CharIs(w[1], 'l', ignoreCase) && w[2] == '_'
  }

  /** `w` is `il_<digits>x<digits>.` with its `x` at index `x`. */
  ghost predicate SplitsAt(w: string, x: int, ignoreCase: bool)
  {
    SizePrefix(w, ignoreCase) && 3 < x && x + 2 < |w| && CharIs(w[x], 'x', ignoreCase)
    && AllDigits(w[3..x]) && AllDigits(w[x + 1..|w| - 1]) && w[|w| - 1] == '.'
  }

  /** The strings pattern `p` matches in full. */
  ghost predicate IsToken(p: Pattern, w: string)
  {
    match p
    case SizeWH(ci) => exists x | 0 <= x < |w| :: SplitsAt(w, x, ci)
    case SizeWN =>
      |w| >= 7 && SizePrefix(w, true) && AllDigits(w[3..|w| - 3])
      && CharIs(w[|w| - 3], 'x', true) && CharIs(w[|w| - 2], 'n', true) && w[|w| - 1] == '.'
    case ImageExt => w == ".jpg" || w == ".jpeg" || w == ".png" || w == ".gif"
  }

  /** `s[i..j]` is a match of `p`. */
  ghost predicate TokenAt(p: Pattern, s: string, i: int, j: int)
  {
    0 <= i <= j <= |s| && IsToken(p, s[i..j])
  }

  /** Some substring of `s` is a match of `p`. */
  ghost predicate HasToken(p: Pattern, s: string)
  {
    exists i, j :: TokenAt(p, s, i, j)
  }

  /** At most one position of `s` starts a match of `p`. */
  ghost predicate AtMostOne(p: Pattern, s: string)
  {
    forall i1, j1, i2, j2 :: TokenAt(p, s, i1, j1) && TokenAt(p, s, i2, j2) ==> i1 == i2
  }

  // ---------------------------------------------------------------------------
  // The scanner

  /** End of the run of digits that starts at `i` (what a greedy `\d*` consumes). */
  function DigitsEnd(s: string, i: nat): (j: nat)
    requires i <= |s|
    ensures i <= j <= |s| && AllDigits(s[i..j]) && (j == |s| || !IsDigit(s[j]))
    decreases |s| - i
  {
    if i < |s| && IsDigit(s[i]) then DigitsEnd(s, i + 1) else i
  }

  /** The end of the match of `p` that starts at index `i` of `s`, if any.
      After `\d+` the pattern always continues with a non-digit, so the
      greedy run is the only one that can succeed, and the match found at
      `i` is unique. */
  function MatchAt(p: Pattern, s: string, i: nat): (r: Option<nat>)
    requires i <= |s|
    ensures r.Some? ==> i < r.value <= |s|
  {
    match p
    case SizeWH(ci) =>
      if i + 3 <= |s| && CharIs(s[i], 'i', ci) && CharIs(s[i + 1], 'l', ci) && s[i + 2] == '_' then
        var x := DigitsEnd(s, i + 3);
        if x > i + 3 && x < |s| && CharIs(s[x], 'x', ci) then
          var d := DigitsEnd(s, x + 1);
          if d > x + 1 && d < |s| && s[d] == '.' then Some(d + 1) else None
        else None
      else None
    case SizeWN =>
      if i + 3 <= |s| && CharIs(s[i], 'i', true) && CharIs(s[i + 1], 'l', true) && s[i + 2] == '_' then
        var x := DigitsEnd(s, i + 3);
        if x > i + 3 && x + 2 < |s| && CharIs(s[x], 'x', true) && CharIs(s[x + 1], 'n', true) && s[x + 2] == '.'
        then Some(x + 3)
        else None
      else None
    case ImageExt =>
      if OccursAt(s, ".jpg", i) then Some(i + 4)
      else if OccursAt(s, ".jpeg", i) then Some(i + 5)
      else if OccursAt(s, ".png", i) then Some(i + 4)
      else if OccursAt(s, ".gif", i) then Some(i + 4)
      else None
  }

  /** The leftmost index at or after `k` where `p` matches. */
  function FindFrom(p: Pattern, s: string, k: nat): (r: Option<nat>)
    requires k <= |s|
    ensures r.Some? ==> k <= r.value <= |s| && MatchAt(p, s, r.value).Some?
    ensures r.Some? ==> forall t | k <= t < r.value :: MatchAt(p, s, t).None?
    ensures r.None? ==> forall t | k <= t <= |s| :: MatchAt(p, s, t).None?
    decreases |s| - k
  {
    if MatchAt(p, s, k).Some? then Some(k)
    else if k == |s| then None
    else FindFrom(p, s, k + 1)
  }

  /** `s.replace(p, text)` for a regular expression `p` without the `g` flag
      and a replacement string without `$` patterns. */
  function ReplaceFirst(p: Pattern, s: string, text: string): string
  {
    match FindFrom(p, s, 0)
    case None => s
    case Some(i) => s[..i] + text + s[MatchAt(p, s, i).value..]
  }

  // ---------------------------------------------------------------------------
  // Scanner against the declarative patterns

  lemma {:induction false} DigitsEndAt(s: string, i: nat, j: nat)
    requires i <= j < |s| && AllDigits(s[i..j]) && !IsDigit(s[j])
    ensures DigitsEnd(s, i) == j
    decreases j - i
  {
    if i < j {
      assert IsDigit(s[i..j][0]);
      assert s[i + 1..j] == s[i..j][1..];
      DigitsEndAt(s, i + 1, j);
    }
  }

  /** A match the scanner reports is a match of the pattern. */
  lemma MatchAtSound(p: Pattern, s: string, i: nat)
    requires i <= |s| && MatchAt(p, s, i).Some?
    ensures TokenAt(p, s, i, MatchAt(p, s, i).value)
  {
    match p
    case SizeWH(ci) => SizeWHSound(ci, s, i);
    case SizeWN => SizeWNSound(s, i);
    case ImageExt =>
  }

  lemma SizeWHSound(ci: bool, s: string, i: nat)
    requires i <= |s| && MatchAt(SizeWH(ci), s, i).Some?
    ensures TokenAt(SizeWH(ci), s, i, MatchAt(SizeWH(ci), s, i).value)
  {
    var j := MatchAt(SizeWH(ci), s, i).value;
    var w := s[i..j];
    var x := DigitsEnd(s, i + 3);
    SliceOfSlice(s, i, j, 3, x - i);
    SliceOfSlice(s, i, j, x - i + 1, j - i - 1);
    assert SplitsAt(w, x - i, ci);
  }

  lemma SizeWNSound(s: string, i: nat)
    requires i <= |s| && MatchAt(SizeWN, s, i).Some?
    ensures TokenAt(SizeWN, s, i, MatchAt(SizeWN, s, i).value)
  {
    var j := MatchAt(SizeWN, s, i).value;
    SliceOfSlice(s, i, j, 3, j - i - 3);
  }

  /** Every match of the pattern that starts at `i` is the one the scanner reports. */
  lemma MatchAtComplete(p: Pattern, s: string, i: nat, j: nat)
    requires TokenAt(p, s, i, j)
    ensures MatchAt(p, s, i) == Some(j)
  {
    match p
    case SizeWH(ci) => SizeWHComplete(ci, s, i, j);
    case SizeWN => SizeWNComplete(s, i, j);
    case ImageExt => ImageExtComplete(s, i, j);
  }

  lemma ImageExtComplete(s: string, i: nat, j: nat)
    requires TokenAt(ImageExt, s, i, j)
    ensures MatchAt(ImageExt, s, i) == Some(j)
  {
    var w := s[i..j];
    // the second and fourth characters tell the four extensions apart
    if w == ".jpg" {
      assert OccursAt(s, ".jpg", i);
    } else if w == ".jpeg" {
      assert s[i + 3] == w[3] == 'e';
      NotAt(s, ".jpg", i, 3);
      assert OccursAt(s, ".jpeg", i);
    } else if w == ".png" {
      assert s[i + 1] == w[1] == 'p';
      NotAt(s, ".jpg", i, 1);
      NotAt(s, ".jpeg", i, 1);
      assert OccursAt(s, ".png", i);
    } else {
      assert w == ".gif";
      assert s[i + 1] == w[1] == 'g';
      NotAt(s, ".jpg", i, 1);
      NotAt(s, ".jpeg", i, 1);
      NotAt(s, ".png", i, 1);
      assert OccursAt(s, ".gif", i);
    }
  }

  /** `t` does not occur at `i` when the `k`-th characters differ. */
  lemma NotAt(s: string, t: string, i: nat, k: nat)
    requires k < |t| && (i + k < |s| ==> s[i + k] != t[k])
    ensures !OccursAt(s, t, i)
  {
    if i + |t| <= |s| {
      assert s[i..i + |t|][k] == s[i + k];
    }
  }

  lemma SizeWHComplete(ci: bool, s: string, i: nat, j: nat)
    requires TokenAt(SizeWH(ci), s, i, j)
    ensures MatchAt(SizeWH(ci), s, i) == Some(j)
  {
    var x :| 0 <= x < j - i && SplitsAt(s[i..j], x, ci);
    SplitsAtRuns(ci, s, i, j, x);
  }

  /** The two digit runs of a `SizeWH` match at `[i, j)` split at `i + x`,
      as the scanner sees them. */
  lemma SplitsAtRuns(ci: bool, s: string, i: nat, j: nat, x: int)
    requires i <= j <= |s| && 0 <= x < j - i && SplitsAt(s[i..j], x, ci)
    ensures i + 3 < i + x && i + x + 2 < j
    ensures CharIs(s[i], 'i', ci) && CharIs(s[i + 1], 'l', ci) && s[i + 2] == '_'
    ensures DigitsEnd(s, i + 3) == i + x && CharIs(s[i + x], 'x', ci)
    ensures DigitsEnd(s, i + x + 1) == j - 1 && s[j - 1] == '.'
  {
    var w := s[i..j];
    assert s[i] == w[0] && s[i + 1] == w[1] && s[i + 2] == w[2];
    SliceOfSlice(s, i, j, 3, x);
    assert s[i + x] == w[x];
    DigitsEndAt(s, i + 3, i + x);
    SliceOfSlice(s, i, j, x + 1, |w| - 1);
    assert s[j - 1] == w[|w| - 1];
    DigitsEndAt(s, i + x + 1, j - 1);
  }

  lemma SizeWNComplete(s: string, i: nat, j: nat)
    requires TokenAt(SizeWN, s, i, j)
    ensures MatchAt(SizeWN, s, i) == Some(j)
  {
    var w := s[i..j];
    SliceOfSlice(s, i, j, 3, |w| - 3);
    assert s[j - 3] == w[|w| - 3];
    DigitsEndAt(s, i + 3, j - 3);
  }

  /** The scanner finds no match exactly when there is none. */
  lemma FindNone(p: Pattern, s: string)
    requires FindFrom(p, s, 0).None?
    ensures !HasToken(p, s)
  {
    if HasToken(p, s) {
      var k, m :| TokenAt(p, s, k, m);
      MatchAtComplete(p, s, k, m);
      assert false;
    }
  }

  /** The match the scanner finds is a match, and the leftmost one. */
  lemma FindLeftmost(p: Pattern, s: string, i: nat)
    requires FindFrom(p, s, 0) == Some(i)
    ensures TokenAt(p, s, i, MatchAt(p, s, i).value)
    ensures forall k, m :: TokenAt(p, s, k, m) ==> i <= k
  {
    MatchAtSound(p, s, i);
    forall k, m | TokenAt(p, s, k, m) ensures i <= k {
      MatchAtComplete(p, s, k, m);
    }
  }

  /** Where `ReplaceFirst` puts its text: at the leftmost match, in place of
      that match and nothing else; and nowhere when there is no match. */
  lemma ReplaceFirstSpec(p: Pattern, s: string, text: string)
    ensures !HasToken(p, s) ==> ReplaceFirst(p, s, text) == s
    ensures HasToken(p, s) ==>
      exists i, j :: TokenAt(p, s, i, j) && (forall k, m :: TokenAt(p, s, k, m) ==> i <= k)
                     && ReplaceFirst(p, s, text) == s[..i] + text + s[j..]
  {
    match FindFrom(p, s, 0)
    case None =>
      FindNone(p, s);
    case Some(i) =>
      FindLeftmost(p, s, i);
  }

  /** The replacement at the leftmost match `[i, j)`, stated without the scanner. */
  lemma ReplaceFirstAt(p: Pattern, s: string, text: string, i: int, j: int)
    requires TokenAt(p, s, i, j) && forall k, m :: TokenAt(p, s, k, m) ==> i <= k
    ensures ReplaceFirst(p, s, text) == s[..i] + text + s[j..]
  {
    ReplaceFirstSpec(p, s, text);
    var i', j' :| TokenAt(p, s, i', j') && (forall k, m :: TokenAt(p, s, k, m) ==> i' <= k)
                  && ReplaceFirst(p, s, text) == s[..i'] + text + s[j'..];
    assert i == i';
    MatchAtComplete(p, s, i, j);
    MatchAtComplete(p, s, i', j');
  }

  // ---------------------------------------------------------------------------
  // Splicing text into a string creates no size token

  /** What every size token looks like: `i` or `I` only at its first
      character, `_` only at its third, a digit at its fourth. */
  lemma TokenShape(p: Pattern, w: string)
    requires IsSizePattern(p) && IsToken(p, w)
    ensures |w| >= 7 && (w[0] == 'i' || w[0] == 'I') && w[2] == '_' && IsDigit(w[3])
    ensures forall t | 1 <= t < |w| :: w[t] != 'i' && w[t] != 'I' && (w[t] == '_' ==> t == 2)
  {
    match p
    case SizeWH(ci) =>
      var x :| 0 <= x < |w| && SplitsAt(w, x, ci);
      assert IsDigit(w[3..x][0]);
      forall t | 3 <= t < |w| ensures IsDigit(w[t]) || w[t] in "xX." {
        if t < x {
          assert w[t] == w[3..x][t - 3];
        } else if x < t < |w| - 1 {
          assert w[t] == w[x + 1..|w| - 1][t - x - 1];
        }
      }
    case SizeWN =>
      forall t | 3 <= t < |w| ensures IsDigit(w[t]) || w[t] in "xXnN." {
        if t < |w| - 3 {
          assert w[t] == w[3..|w| - 3][t - 3];
        }
      }
      assert IsDigit(w[3..|w| - 3][0]);
  }

  /** Text that cannot take part in a size token: it begins with `i` or
      `_`, is not followed there by a digit, and holds no other `i`/`I`. */
  predicate Inert(r: string)
  {
    |r| >= 4 && (r[0] == 'i' || r[0] == '_') && !IsDigit(r[1]) && !IsDigit(r[3])
    && forall t | 1 <= t < |r| :: r[t] != 'i' && r[t] != 'I'
  }

  /** A size token of `a + r + b` lies wholly inside `a` or wholly inside `b`. */
  lemma SpliceToken(p: Pattern, a: string, r: string, b: string, k: int, m: int)
    requires IsSizePattern(p) && Inert(r) && TokenAt(p, a + r + b, k, m)
    ensures m <= |a| || |a| + |r| <= k
  {
    var s := a + r + b;
    var w := s[k..m];
    TokenShape(p, w);
    // where the characters of r land inside the token
    assert forall t | 0 <= t < |w| && |a| <= k + t < |a| + |r| :: w[t] == r[k + t - |a|];
    if k < |a| < m {
      TokenCharAt(p, w, |a| - k);
    }
  }

  lemma TokenCharAt(p: Pattern, w: string, t: int)
    requires IsSizePattern(p) && IsToken(p, w) && 1 <= t < |w|
    ensures w[t] != 'i' && w[t] != 'I' && (w[t] == '_' ==> t == 2)
  {
    TokenShape(p, w);
  }

  /** A size token of `s[..i] + text + s[j..]` is a size token of `s` that
      ends by `i` or starts at or after `j`, shifted accordingly. */
  lemma TokenAfterSplice(p: Pattern, s: string, i: int, j: int, text: string, k: int, m: int)
    requires IsSizePattern(p) && Inert(text) && 0 <= i <= j <= |s|
    requires TokenAt(p, s[..i] + text + s[j..], k, m)
    ensures (m <= i && TokenAt(p, s, k, m))
         || (k >= i + |text| && TokenAt(p, s, k - i - |text| + j, m - i - |text| + j))
  {
    var n := s[..i] + text + s[j..];
    SpliceToken(p, s[..i], text, s[j..], k, m);
    if m <= i {
      assert n[k..m] == s[k..m];
    } else {
      var d := j - i - |text|;
      assert n[k..m] == s[k + d..m + d];
    }
  }

  /** Replacing the only size token with inert text leaves none. */
  lemma ReplaceFirstClears(p: Pattern, s: string, text: string)
    requires IsSizePattern(p) && Inert(text) && AtMostOne(p, s)
    ensures !HasToken(p, ReplaceFirst(p, s, text))
  {
    ReplaceFirstSpec(p, s, text);
    if HasToken(p, s) {
      var i, j :| TokenAt(p, s, i, j) && (forall k, m :: TokenAt(p, s, k, m) ==> i <= k)
                  && ReplaceFirst(p, s, text) == s[..i] + text + s[j..];
      if HasToken(p, ReplaceFirst(p, s, text)) {
        var k, m :| TokenAt(p, ReplaceFirst(p, s, text), k, m);
        TokenAfterSplice(p, s, i, j, text, k, m);
      }
    }
  }

  /** Replacing the leftmost token of one size pattern with inert text
      creates no token of any size pattern. */
  lemma ReplaceFirstKeepsAbsent(p: Pattern, q: Pattern, s: string, text: string)
    requires IsSizePattern(p) && IsSizePattern(q) && Inert(text) && !HasToken(q, s)
    ensures !HasToken(q, ReplaceFirst(p, s, text))
  {
    ReplaceFirstSpec(p, s, text);
    if HasToken(p, s) {
      var i, j :| TokenAt(p, s, i, j) && (forall k, m :: TokenAt(p, s, k, m) ==> i <= k)
                  && ReplaceFirst(p, s, text) == s[..i] + text + s[j..];
      if HasToken(q, ReplaceFirst(p, s, text)) {
        var k, m :| TokenAt(q, ReplaceFirst(p, s, text), k, m);
        TokenAfterSplice(q, s, i, j, text, k, m);
        assert false;
      }
    }
  }

  /** ... nor turns one token of another size pattern into two. */
  lemma ReplaceFirstKeepsAtMostOne(p: Pattern, q: Pattern, s: string, text: string)
    requires IsSizePattern(p) && IsSizePattern(q) && Inert(text) && AtMostOne(q, s)
    ensures AtMostOne(q, ReplaceFirst(p, s, text))
  {
    ReplaceFirstSpec(p, s, text);
    if HasToken(p, s) {
      var i, j :| TokenAt(p, s, i, j) && (forall k, m :: TokenAt(p, s, k, m) ==> i <= k)
                  && ReplaceFirst(p, s, text) == s[..i] + text + s[j..];
      var n := ReplaceFirst(p, s, text);
      MatchAtComplete(p, s, i, j);
      forall k1, m1, k2, m2 | TokenAt(q, n, k1, m1) && TokenAt(q, n, k2, m2) ensures k1 == k2 {
        TokenAfterSplice(q, s, i, j, text, k1, m1);
        TokenAfterSplice(q, s, i, j, text, k2, m2);
      }
    }
  }

  // ---------------------------------------------------------------------------
  // getHighestQualityUrl and getFallbackUrl

  const FullToken := "il_fullxfull."
  const FullMarker := "fullxfull"

  /** `s.replace(/\.(jpg|jpeg|png|gif)/, '_fullxfull.$1')` (background.js:42). */
  function InsertBeforeExt(s: string): string
  {
    match FindFrom(ImageExt, s, 0)
    case None => s
    case Some(i) =>
      var j := MatchAt(ImageExt, s, i).value;
      s[..i] + "_fullxfull." + s[i + 1..j] + s[j..]
  }

  /** `getHighestQualityUrl` (background.js:34-46). */
  function HighestQualityUrl(url: string): string
  {
    var base := ReplaceFirst(SizeWN, ReplaceFirst(SizeWH(true), url, FullToken), FullToken);
    if Contains(base, FullMarker) then base else InsertBeforeExt(base)
  }

  /** `getFallbackUrl` (background.js:48-50). */
  function FallbackUrl(url: string): string
  {
    ReplaceFirst(SizeWH(false), url, "il_1140xN.")
  }

  /** `_fullxfull` goes immediately before the leftmost extension, and nothing else changes. */
  lemma InsertBeforeExtSpec(s: string)
    ensures !HasToken(ImageExt, s) ==> InsertBeforeExt(s) == s
    ensures HasToken(ImageExt, s) ==>
      exists i :: (exists j :: TokenAt(ImageExt, s, i, j))
                  && (forall k, m :: TokenAt(ImageExt, s, k, m) ==> i <= k)
                  && InsertBeforeExt(s) == s[..i] + "_fullxfull" + s[i..]
  {
    match FindFrom(ImageExt, s, 0)
    case None =>
      FindNone(ImageExt, s);
    case Some(i) =>
      var j := MatchAt(ImageExt, s, i).value;
      FindLeftmost(ImageExt, s, i);
      ExtStartsWithDot(s, i, j);
      InsertAtDot(s, i, j);
      assert InsertBeforeExt(s) == s[..i] + "_fullxfull" + s[i..];
      assert TokenAt(ImageExt, s, i, j);
  }

  lemma ExtStartsWithDot(s: string, i: int, j: int)
    requires TokenAt(ImageExt, s, i, j)
    ensures i < j && s[i] == '.'
  {
    assert s[i] == s[i..j][0];
  }

  lemma InsertAtDot(s: string, i: nat, j: nat)
    requires i < j <= |s| && s[i] == '.'
    ensures s[..i] + "_fullxfull." + s[i + 1..j] + s[j..] == s[..i] + "_fullxfull" + s[i..]
  {
    assert s[i..] == [s[i]] + s[i + 1..j] + s[j..];
  }

  lemma ContainsMarkerAt(a: string, r: string, b: string, off: nat)
    requires off + |FullMarker| <= |r| && r[off..off + |FullMarker|] == FullMarker
    ensures Contains(a + r + b, FullMarker)
  {
    var s := a + r + b;
    assert s[|a| + off..|a| + off + |FullMarker|] == r[off..off + |FullMarker|];
    assert OccursAt(s, FullMarker, |a| + off);
  }

  /** Where the replacement of a present match goes. */
  lemma ReplaceFirstSplit(p: Pattern, s: string, text: string) returns (i: int, j: int)
    requires HasToken(p, s)
    ensures 0 <= i <= j <= |s| && ReplaceFirst(p, s, text) == s[..i] + text + s[j..]
  {
    ReplaceFirstSpec(p, s, text);
    i, j :| TokenAt(p, s, i, j) && (forall k, m :: TokenAt(p, s, k, m) ==> i <= k)
            && ReplaceFirst(p, s, text) == s[..i] + text + s[j..];
  }

  /** Replacing a match with `il_fullxfull.` leaves `fullxfull` in the result. */
  lemma ReplacedContainsMarker(p: Pattern, s: string)
    requires HasToken(p, s)
    ensures Contains(ReplaceFirst(p, s, FullToken), FullMarker)
  {
    var i, j := ReplaceFirstSplit(p, s, FullToken);
    assert FullToken[3..3 + |FullMarker|] == FullMarker;
    ContainsMarkerAt(s[..i], FullToken, s[j..], 3);
  }

  /** With a size token present (in either form), its leftmost one becomes
      `il_fullxfull.`, the result contains `fullxfull`, and the extension
      step is skipped. */
  lemma UpgradeWithSizeToken(url: string)
    requires HasToken(SizeWH(true), url) || HasToken(SizeWN, url)
    ensures Contains(ReplaceFirst(SizeWN, ReplaceFirst(SizeWH(true), url, FullToken), FullToken), FullMarker)
    ensures HighestQualityUrl(url)
            == ReplaceFirst(SizeWN, ReplaceFirst(SizeWH(true), url, FullToken), FullToken)
  {
    var s1 := ReplaceFirst(SizeWH(true), url, FullToken);
    if HasToken(SizeWN, s1) {
      ReplacedContainsMarker(SizeWN, s1);
    } else {
      ReplaceFirstSpec(SizeWN, s1, FullToken);
      ReplaceFirstSpec(SizeWH(true), url, FullToken);
      ReplacedContainsMarker(SizeWH(true), url);
    }
  }

  /** Without a size token: unchanged when `fullxfull` is already there,
      otherwise `_fullxfull` is inserted before the leftmost extension, and
      unchanged when there is none. */
  lemma UpgradeWithoutSizeToken(url: string)
    requires !HasToken(SizeWH(true), url) && !HasToken(SizeWN, url)
    ensures Contains(url, FullMarker) ==> HighestQualityUrl(url) == url
    ensures !Contains(url, FullMarker) && !HasToken(ImageExt, url) ==> HighestQualityUrl(url) == url
    ensures !Contains(url, FullMarker) && HasToken(ImageExt, url) ==>
      exists i :: (exists j :: TokenAt(ImageExt, url, i, j))
                  && (forall k, m :: TokenAt(ImageExt, url, k, m) ==> i <= k)
                  && HighestQualityUrl(url) == url[..i] + "_fullxfull" + url[i..]
  {
    ReplaceFirstSpec(SizeWH(true), url, FullToken);
    ReplaceFirstSpec(SizeWN, url, FullToken);
    InsertBeforeExtSpec(url);
  }

  /** The upgraded URL has no size token left when the input had at most
      one of each form, whichever branch produced it. */
  lemma UpgradeLeavesNoSizeToken(url: string)
    requires AtMostOne(SizeWH(true), url) && AtMostOne(SizeWN, url)
    ensures !HasToken(SizeWH(true), HighestQualityUrl(url)) && !HasToken(SizeWN, HighestQualityUrl(url))
  {
    var s1 := ReplaceFirst(SizeWH(true), url, FullToken);
    var s2 := ReplaceFirst(SizeWN, s1, FullToken);
    ReplaceFirstClears(SizeWH(true), url, FullToken);
    ReplaceFirstKeepsAtMostOne(SizeWH(true), SizeWN, url, FullToken);
    ReplaceFirstClears(SizeWN, s1, FullToken);
    ReplaceFirstKeepsAbsent(SizeWN, SizeWH(true), s1, FullToken);
    if !Contains(s2, FullMarker) {
      InsertBeforeExtSpec(s2);
      if HasToken(ImageExt, s2) {
        var i :| (exists j :: TokenAt(ImageExt, s2, i, j))
                 && InsertBeforeExt(s2) == s2[..i] + "_fullxfull" + s2[i..];
        var u := InsertBeforeExt(s2);
        assert s2[..i] + "_fullxfull" + s2[i..] == s2[..i] + "_fullxfull" + s2[i..][0..];
        NoTokenAfterInsert(SizeWH(true), s2, i);
        NoTokenAfterInsert(SizeWN, s2, i);
      }
    }
  }

  lemma NoTokenAfterInsert(p: Pattern, s: string, i: int)
    requires IsSizePattern(p) && 0 <= i <= |s| && !HasToken(p, s)
    ensures !HasToken(p, s[..i] + "_fullxfull" + s[i..])
  {
    if HasToken(p, s[..i] + "_fullxfull" + s[i..]) {
      var k, m :| TokenAt(p, s[..i] + "_fullxfull" + s[i..], k, m);
      TokenAfterSplice(p, s, i, i, "_fullxfull", k, m);
      assert false;
    }
  }

  /** The upgraded URL contains `fullxfull` or has no extension left to
      insert it before. */
  lemma UpgradeMarkedOrNoExt(url: string)
    ensures Contains(HighestQualityUrl(url), FullMarker) || !HasToken(ImageExt, HighestQualityUrl(url))
  {
    var s2 := ReplaceFirst(SizeWN, ReplaceFirst(SizeWH(true), url, FullToken), FullToken);
    if !Contains(s2, FullMarker) {
      InsertBeforeExtSpec(s2);
      if HasToken(ImageExt, s2) {
        var i :| (exists j :: TokenAt(ImageExt, s2, i, j))
                 && InsertBeforeExt(s2) == s2[..i] + "_fullxfull" + s2[i..];
        assert "_fullxfull"[1..10] == FullMarker;
        ContainsMarkerAt(s2[..i], "_fullxfull", s2[i..], 1);
      }
    }
  }

  /** Upgrading an upgraded URL changes nothing, for inputs with at most
      one size token of each form. */
  lemma {:induction false} UpgradeIdempotent(url: string)
    requires AtMostOne(SizeWH(true), url) && AtMostOne(SizeWN, url)
    ensures HighestQualityUrl(HighestQualityUrl(url)) == HighestQualityUrl(url)
  {
    UpgradeLeavesNoSizeToken(url);
    UpgradeMarkedOrNoExt(url);
    UpgradeWithoutSizeToken(HighestQualityUrl(url));
  }

  /** The upgrade is not idempotent once a URL holds two size tokens: the
      first upgrade replaces only the first token, and the second upgrade
      then replaces the next one. */
  lemma UpgradeTwoTokensNotIdempotent(t1: string, t2: string)
    requires IsToken(SizeWH(true), t1) && IsToken(SizeWH(true), t2) && !HasToken(SizeWN, t1 + t2)
    ensures HighestQualityUrl(t1 + t2) == FullToken + t2
    ensures HighestQualityUrl(HighestQualityUrl(t1 + t2)) == FullToken + FullToken
    ensures HighestQualityUrl(HighestQualityUrl(t1 + t2)) != HighestQualityUrl(t1 + t2)
  {
    UpgradeFirstOf(t1, t2);
    UpgradeAfterFull(t2);
    FullTokenDiffers(t2);
  }

  /** `il_1x1.il_2x2.` upgrades to `il_fullxfull.il_2x2.`, which upgrades again. */
  lemma TwoTokensExample(t1: string, t2: string)
    requires t1 == "il_1x1." && t2 == "il_2x2."
    ensures HighestQualityUrl(HighestQualityUrl(t1 + t2)) != HighestQualityUrl(t1 + t2)
  {
    assert t1[3..4] == "1" && t1[5..6] == "1" && SplitsAt(t1, 4, true);
    assert t2[3..4] == "2" && t2[5..6] == "2" && SplitsAt(t2, 4, true);
    NoSizeWNWithoutN(t1 + t2);
    UpgradeTwoTokensNotIdempotent(t1, t2);
  }

  /** A string without `n` or `N` holds no `il_<W>xN.` token. */
  lemma NoSizeWNWithoutN(s: string)
    requires 'n' !in s && 'N' !in s
    ensures !HasToken(SizeWN, s)
  {
    forall i, j | 0 <= i <= j <= |s| ensures !TokenAt(SizeWN, s, i, j) {
      if j - i >= 2 {
        assert s[i..j][j - i - 2] == s[j - 2];
      }
    }
  }

  /** A leading size token is the one replaced. */
  lemma UpgradeFirstOf(t: string, b: string)
    requires IsToken(SizeWH(true), t) && !HasToken(SizeWN, t + b)
    ensures HighestQualityUrl(t + b) == FullToken + b && !HasToken(SizeWN, FullToken + b)
  {
    var s := t + b;
    assert s[0..|t|] == t && s[..0] + FullToken + s[|t|..] == FullToken + b;
    assert TokenAt(SizeWH(true), s, 0, |t|);
    ReplaceFirstAt(SizeWH(true), s, FullToken, 0, |t|);
    FullTokenInert();
    ReplaceFirstKeepsAbsent(SizeWH(true), SizeWN, s, FullToken);
    UpgradeWithSizeToken(s);
    ReplaceFirstSpec(SizeWN, FullToken + b, FullToken);
  }

  /** After `il_fullxfull.` no size token starts before the one that follows it. */
  lemma UpgradeAfterFull(t: string)
    requires IsToken(SizeWH(true), t) && !HasToken(SizeWN, FullToken + t)
    ensures HighestQualityUrl(FullToken + t) == FullToken + FullToken
  {
    var s := FullToken + t;
    var n := |FullToken|;
    assert s[n..n + |t|] == t && s[..n] + FullToken + s[n + |t|..] == FullToken + FullToken;
    assert TokenAt(SizeWH(true), s, n, n + |t|);
    FullTokenInert();
    forall k, m | TokenAt(SizeWH(true), s, k, m) ensures n <= k {
      assert [] + FullToken + t == s;
      SpliceToken(SizeWH(true), [], FullToken, t, k, m);
      TokenShape(SizeWH(true), s[k..m]);
    }
    ReplaceFirstAt(SizeWH(true), s, FullToken, n, n + |t|);
    ReplaceFirstKeepsAbsent(SizeWH(true), SizeWN, s, FullToken);
    UpgradeWithSizeToken(s);
    ReplaceFirstSpec(SizeWN, FullToken + FullToken, FullToken);
  }

  lemma FullTokenInert()
    ensures Inert(FullToken)
  {
  }

  lemma FullTokenDiffers(t: string)
    requires IsToken(SizeWH(true), t)
    ensures FullToken + t != FullToken + FullToken
  {
    TokenShape(SizeWH(true), t);
    assert (FullToken + t)[16] == t[3];
  }

  /** `getFallbackUrl` replaces the leftmost case-sensitive `il_<W>x<H>.`
      with `il_1140xN.` and leaves everything else, and returns the URL
      verbatim when it has no such token. */
  lemma FallbackUrlSpec(url: string)
    ensures !HasToken(SizeWH(false), url) ==> FallbackUrl(url) == url
    ensures HasToken(SizeWH(false), url) ==>
      exists i, j :: TokenAt(SizeWH(false), url, i, j)
                     && (forall k, m :: TokenAt(SizeWH(false), url, k, m) ==> i <= k)
                     && FallbackUrl(url) == url[..i] + "il_1140xN." + url[j..]
  {
    ReplaceFirstSpec(SizeWH(false), url, "il_1140xN.");
  }

  lemma DigitBeforeDot(w: string, x: int)
    requires SplitsAt(w, x, true)
    ensures IsDigit(w[|w| - 2])
  {
    assert w[|w| - 2] == w[x + 1..|w| - 1][|w| - x - 3];
  }

  /** A case-sensitive size token is also a case-insensitive one; the
      converse fails on upper-case forms, and `xN.` tokens match neither. */
  lemma SizeTokenForms(w: string)
    ensures IsToken(SizeWH(false), w) ==> IsToken(SizeWH(true), w)
    ensures IsToken(SizeWN, w) ==> !IsToken(SizeWH(true), w)
  {
    if IsToken(SizeWH(false), w) {
      var x :| 0 <= x < |w| && SplitsAt(w, x, false);
      assert SplitsAt(w, x, true);
    }
    if IsToken(SizeWH(true), w) {
      var x :| 0 <= x < |w| && SplitsAt(w, x, true);
      DigitBeforeDot(w, x);
    }
  }
}
