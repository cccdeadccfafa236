/** `generateFilename` (background.js:52-64): a title is lower-cased, every
    run of characters outside `[a-z0-9]` becomes one `_`, leading and
    trailing `_` are cut, and the result is framed as
    `etsy_<stem>[_<index>]_<timestamp>.jpg`. The clock is a parameter: the
    caller passes the string `new Date().toISOString()` would give. */
module Filename {
  import opened Text

  /** What a falsy title is replaced by (background.js:53). */
  const DefaultTitle := "etsy_image"

  /** `.toLowerCase()`, ASCII letters only. */
  function LowerCase(s: string): (r: string)
    ensures |r| == |s| && forall k | 0 <= k < |s| :: r[k] == LowerAscii(s[k])
  {
    if s == [] then [] else [LowerAscii(s[0])] + LowerCase(s[1..])
  }

  /** The letters and digits of `s`, in order. */
  function Alnums(s: string): string
  {
    if s == [] then []
    else if IsLowerAlnum(s[0]) then [s[0]] + Alnums(s[1..])
    else Alnums(s[1..])
  }

  lemma {:induction false} AlnumsAppend(a: string, b: string)
    ensures Alnums(a + b) == Alnums(a) + Alnums(b)
  {
    if a == [] {
      assert a + b == b;
    } else {
      assert (a + b)[1..] == a[1..] + b;
      AlnumsAppend(a[1..], b);
    }
  }

  /** `s` without its leading run of characters outside `[a-z0-9]`. */
  function SkipSeparators(s: string): (r: string)
    ensures |r| <= |s| && r == s[|s| - |r|..]
    ensures r == [] || IsLowerAlnum(r[0])
  {
    if s == [] || IsLowerAlnum(s[0]) then s else SkipSeparators(s[1..])
  }

  /** Only characters outside `[a-z0-9]` are skipped. */
  lemma {:induction false} SkipDropsSeparators(s: string)
    ensures forall k | 0 <= k < |s| - |SkipSeparators(s)| :: !IsLowerAlnum(s[k])
  {
    if s != [] && !IsLowerAlnum(s[0]) {
      SkipDropsSeparators(s[1..]);
      assert forall k | 1 <= k < |s| :: s[k] == s[1..][k - 1];
    }
  }

  /** Two `_` side by side at index `k`. */
  predicate DoubleAt(r: string, k: int)
  {
    0 <= k < |r| - 1 && r[k] == '_' && r[k + 1] == '_'
  }

  /** The text is `[a-z0-9_]*` with no two `_` side by side. */
  predicate Compact(r: string)
  {
    (forall k | 0 <= k < |r| :: IsLowerAlnum(r[k]) || r[k] == '_')
    && (forall k | 0 <= k < |r| :: !DoubleAt(r, k))
  }

  /** `.replace(/[^a-z0-9]+/g, '_')` (background.js:55): each maximal run of
      other characters becomes a single `_`. */
  function CollapseSeparators(s: string): (r: string)
    ensures s != [] && IsLowerAlnum(s[0]) ==> r != [] && r[0] == s[0]
    decreases |s|
  {
    if s == [] then []
    else if IsLowerAlnum(s[0]) then [s[0]] + CollapseSeparators(s[1..])
    else "_" + CollapseSeparators(SkipSeparators(s))
  }

  /** Collapsing leaves only `[a-z0-9_]`, with no two `_` side by side. */
  lemma {:induction false} CollapseIsCompact(s: string)
    ensures Compact(CollapseSeparators(s))
    decreases |s|
  {
    if s == [] {
    } else if IsLowerAlnum(s[0]) {
      CollapseIsCompact(s[1..]);
      CompactCons(s[0], CollapseSeparators(s[1..]));
    } else {
      var rest := SkipSeparators(s);
      assert |rest| <= |s[1..]| && rest == SkipSeparators(s[1..]);
      CollapseIsCompact(rest);
      CompactCons('_', CollapseSeparators(rest));
    }
  }

  lemma {:induction false} SkipKeepsAlnum(s: string)
    ensures Alnums(SkipSeparators(s)) == Alnums(s)
  {
    if s != [] && !IsLowerAlnum(s[0]) {
      SkipKeepsAlnum(s[1..]);
    }
  }

  /** Collapsing loses no letter or digit and adds none. */
  lemma {:induction false} CollapseKeepsAlnum(s: string)
    ensures Alnums(CollapseSeparators(s)) == Alnums(s)
    decreases |s|
  {
    if s == [] {
    } else if IsLowerAlnum(s[0]) {
      CollapseKeepsAlnum(s[1..]);
      assert ([s[0]] + CollapseSeparators(s[1..]))[1..] == CollapseSeparators(s[1..]);
    } else {
      var rest := SkipSeparators(s);
      SkipKeepsAlnum(s);
      CollapseKeepsAlnum(rest);
      assert ("_" + CollapseSeparators(rest))[1..] == CollapseSeparators(rest);
    }
  }

  lemma CompactCons(c: char, r: string)
    requires Compact(r) && (IsLowerAlnum(c) || c == '_')
    requires c == '_' ==> r == [] || r[0] != '_'
    ensures Compact([c] + r)
  {
    var cr := [c] + r;
    forall k | 0 <= k < |cr| ensures !DoubleAt(cr, k) {
      if k > 0 {
        assert DoubleAt(cr, k) ==> DoubleAt(r, k - 1);
      }
    }
  }

  lemma CompactSlice(s: string, i: int, j: int)
    requires Compact(s) && 0 <= i <= j <= |s|
    ensures Compact(s[i..j])
  {
    var w := s[i..j];
    forall k | 0 <= k < |w| ensures !DoubleAt(w, k) {
      assert DoubleAt(w, k) ==> DoubleAt(s, i + k);
    }
  }

  function TrimLeading(s: string): (r: string)
    ensures |r| <= |s| && r == s[|s| - |r|..]
    ensures r == [] || r[0] != '_'
    ensures forall k | 0 <= k < |s| - |r| :: s[k] == '_'
  {
    if s != [] && s[0] == '_' then TrimLeading(s[1..]) else s
  }

  function TrimTrailing(s: string): (r: string)
    ensures |r| <= |s| && r == s[..|r|]
    ensures r == [] || r[|r| - 1] != '_'
    ensures forall k | |r| <= k < |s| :: s[k] == '_'
  {
    if s != [] && s[|s| - 1] == '_' then TrimTrailing(s[..|s| - 1]) else s
  }

  /** `.replace(/^_+|_+$/g, '')` (background.js:56). */
  function TrimUnderscores(s: string): string
  {
    TrimTrailing(TrimLeading(s))
  }

  /** The title stem (background.js:53-56). */
  function CleanTitle(title: Option<string>): string
  {
    var t := if Truthy(title) then title.value else DefaultTitle;
    TrimUnderscores(CollapseSeparators(LowerCase(t)))
  }

  /** `index ? `_${index}` : ''` (background.js:62); 0 is the only falsy number modelled. */
  function IndexSuffix(index: Option<int>): string
  {
    if index.Some? && index.value != 0 then "_" + IntToString(index.value) else ""
  }

  /** Characters the `.` of a regular expression does not match. */
  predicate IsLineTerminator(c: char)
  {
    c == '\n' || c == '\r' || c == '\U{2028}' || c == '\U{2029}'
  }

  /** `.replace(/[:]/g, '-')` */
  function ColonsToDashes(s: string): (r: string)
    ensures |r| == |s|
    ensures forall k | 0 <= k < |s| :: r[k] == (if s[k] == ':' then '-' else s[k])
  {
    if s == [] then [] else [if s[0] == ':' then '-' else s[0]] + ColonsToDashes(s[1..])
  }

  /** End of the run of characters `.` matches, from `i` (a greedy `.*`). */
  function LineEnd(s: string, i: nat): (j: nat)
    requires i <= |s|
    ensures i <= j <= |s| && (j == |s| || IsLineTerminator(s[j]))
    ensures forall k | i <= k < j :: !IsLineTerminator(s[k])
    decreases |s| - i
  {
    if i < |s| && !IsLineTerminator(s[i]) then LineEnd(s, i + 1) else i
  }

  /** `/\..+/` can start matching at index `t`: a `.` followed by a
      character other than a line terminator. */
  predicate FractionAt(s: string, t: int)
  {
    0 <= t < |s| - 1 && s[t] == '.' && !IsLineTerminator(s[t + 1])
  }

  /** The leftmost `i` at or after `k` where `/\..+/` matches. */
  function FractionStart(s: string, k: nat): (r: Option<nat>)
    requires k <= |s|
    ensures r.Some? ==> k <= r.value && FractionAt(s, r.value)
    ensures r.Some? ==> forall t | k <= t < r.value :: !FractionAt(s, t)
    ensures r.None? ==> forall t | k <= t < |s| :: !FractionAt(s, t)
    decreases |s| - k
  {
    if k + 1 >= |s| then None
    else if FractionAt(s, k) then Some(k)
    else FractionStart(s, k + 1)
  }

  /** `.replace(/\..+/, '')` */
  function DropFraction(s: string): string
  {
    match FractionStart(s, 0)
    case None => s
    case Some(i) => s[..i] + s[LineEnd(s, i + 1)..]
  }

  /** The timestamp of background.js:58-60, from the ISO string of the clock. */
  function Timestamp(iso: string): string
  {
    DropFraction(ColonsToDashes(iso))
  }

  /** `generateFilename(title, index)` (background.js:52-64). */
  function GenerateFilename(title: Option<string>, index: Option<int>, iso: string): string
  {
    "etsy_" + CleanTitle(title) + IndexSuffix(index) + "_" + Timestamp(iso) + ".jpg"
  }

  // ---------------------------------------------------------------------------
  // Properties

  lemma TrimKeepsCompact(s: string)
    requires Compact(s)
    ensures Compact(TrimUnderscores(s))
  {
    var l := TrimLeading(s);
    CompactSlice(s, |s| - |l|, |s|);
    assert s[|s| - |l|..|s|] == l;
    CompactSlice(l, 0, |TrimTrailing(l)|);
  }

  lemma {:induction false} TrimLeadingKeepsAlnum(s: string)
    ensures Alnums(TrimLeading(s)) == Alnums(s)
  {
    if s != [] && s[0] == '_' {
      TrimLeadingKeepsAlnum(s[1..]);
    }
  }

  lemma {:induction false} TrimTrailingKeepsAlnum(s: string)
    ensures Alnums(TrimTrailing(s)) == Alnums(s)
  {
    if s != [] && s[|s| - 1] == '_' {
      assert s == s[..|s| - 1] + "_";
      AlnumsAppend(s[..|s| - 1], "_");
      TrimTrailingKeepsAlnum(s[..|s| - 1]);
    }
  }

  lemma TrimKeepsAlnum(s: string)
    ensures Alnums(TrimUnderscores(s)) == Alnums(s)
  {
    TrimLeadingKeepsAlnum(s);
    TrimTrailingKeepsAlnum(TrimLeading(s));
  }

  /** A clean stem: `[a-z0-9_]`, no `__`, no `_` at either end. */
  predicate IsStem(t: string)
  {
    Compact(t) && (t == [] || (t[0] != '_' && t[|t| - 1] != '_'))
  }

  /** The stem holds only `[a-z0-9_]`, never two `_` in a row, and neither
      starts nor ends with `_` (background.js:53-56). */
  lemma CleanTitleWellFormed(title: Option<string>)
    ensures IsStem(CleanTitle(title))
  {
    var t := if Truthy(title) then title.value else DefaultTitle;
    CollapseIsCompact(LowerCase(t));
    TrimGivesStem(CollapseSeparators(LowerCase(t)));
  }

  lemma TrimGivesStem(s: string)
    requires Compact(s)
    ensures IsStem(TrimUnderscores(s))
  {
    TrimKeepsCompact(s);
    var l := TrimLeading(s);
    var r := TrimTrailing(l);
    assert r != [] ==> r[0] == l[0];
  }

  /** The stem keeps exactly the title's letters and digits, lower-cased and
      in order: only separators are lost. */
  lemma CleanTitleKeepsAlnum(title: Option<string>)
    ensures Alnums(CleanTitle(title))
            == Alnums(LowerCase(if Truthy(title) then title.value else DefaultTitle))
  {
    var t := if Truthy(title) then title.value else DefaultTitle;
    CollapseKeepsAlnum(LowerCase(t));
    TrimKeepsAlnum(CollapseSeparators(LowerCase(t)));
  }

  lemma {:induction false} CollapseCompact(t: string)
    requires Compact(t)
    ensures CollapseSeparators(t) == t
    decreases |t|
  {
    if t != [] {
      CompactHead(t);
      CollapseCompact(t[1..]);
      assert [t[0]] + t[1..] == t;
    }
  }

  /** The first character of a compact string survives collapsing, and the
      rest is compact. */
  lemma CompactHead(t: string)
    requires Compact(t) && t != []
    ensures Compact(t[1..])
    ensures CollapseSeparators(t) == [t[0]] + CollapseSeparators(t[1..])
  {
    CompactSlice(t, 1, |t|);
    assert t[1..|t|] == t[1..];
    assert IsLowerAlnum(t[0]) || t[0] == '_';
    assert |t| > 1 ==> IsLowerAlnum(t[1]) || t[1] == '_';
    assert !DoubleAt(t, 0);
    CollapseStep(t);
  }

  /** Collapsing a string whose first character stays as it is. */
  lemma CollapseStep(t: string)
    requires t != [] && (IsLowerAlnum(t[0]) || (t[0] == '_' && (|t| == 1 || IsLowerAlnum(t[1]))))
    ensures CollapseSeparators(t) == [t[0]] + CollapseSeparators(t[1..])
  {
    if !IsLowerAlnum(t[0]) {
      assert CollapseSeparators(t) == "_" + CollapseSeparators(SkipSeparators(t));
      assert SkipSeparators(t) == SkipSeparators(t[1..]);
      assert SkipSeparators(t[1..]) == t[1..];
    }
  }

  /** Cleaning a clean stem gives it back, so the stem of a title is a
      fixed point of the cleaning. */
  lemma StemFixedPoint(t: string)
    requires IsStem(t)
    ensures TrimUnderscores(CollapseSeparators(LowerCase(t))) == t
  {
    assert LowerCase(t) == t by {
      assert forall k | 0 <= k < |t| :: LowerCase(t)[k] == t[k];
    }
    CollapseCompact(t);
  }

  /** A falsy title gives the stem `etsy_image`. */
  lemma DefaultStem(title: Option<string>)
    requires !Truthy(title)
    ensures CleanTitle(title) == DefaultTitle
  {
    assert IsStem(DefaultTitle) by {
      assert forall k | 0 <= k < |DefaultTitle| - 1 :: DefaultTitle[k] != '_' || DefaultTitle[k + 1] != '_';
    }
    StemFixedPoint(DefaultTitle);
  }

  lemma CollapseCons(c: char, t: string)
    requires IsLowerAlnum(c)
    ensures CollapseSeparators([c] + t) == [c] + CollapseSeparators(t)
  {
    assert ([c] + t)[1..] == t;
  }

  lemma {:induction false} CollapseAlnumPrefix(a: string, b: string)
    requires forall k | 0 <= k < |a| :: IsLowerAlnum(a[k])
    ensures CollapseSeparators(a + b) == a + CollapseSeparators(b)
  {
    if a == [] {
      assert a + b == b;
    } else {
      var c, tail := a[0], a[1..];
      assert IsLowerAlnum(c);
      assert forall k | 0 <= k < |tail| :: IsLowerAlnum(tail[k]) by {
        assert forall k | 0 <= k < |tail| :: tail[k] == a[k + 1];
      }
      CollapseAlnumPrefix(tail, b);
      ConsAppend(a, b);
      CollapseCons(c, tail + b);
      ConsAppend(a, CollapseSeparators(b));
    }
  }

  /** A maximal run of characters outside `[a-z0-9]` becomes exactly one
      `_`: with `CollapseAlnumPrefix`, a title collapses to its words of
      letters and digits joined by single `_`. */
  lemma CollapseSeparatorRun(x: string, b: string)
    requires x != [] && forall k | 0 <= k < |x| :: !IsLowerAlnum(x[k])
    requires b == [] || IsLowerAlnum(b[0])
    ensures CollapseSeparators(x + b) == "_" + CollapseSeparators(b)
  {
    assert (x + b)[0] == x[0];
    SkipRun(x, b);
  }

  lemma {:induction false} SkipRun(x: string, b: string)
    requires forall k | 0 <= k < |x| :: !IsLowerAlnum(x[k])
    requires b == [] || IsLowerAlnum(b[0])
    ensures SkipSeparators(x + b) == b
  {
    if x == [] {
      assert x + b == b;
    } else {
      assert (x + b)[0] == x[0];
      assert (x + b)[1..] == x[1..] + b;
      assert forall k | 0 <= k < |x[1..]| :: x[1..][k] == x[k + 1];
      SkipRun(x[1..], b);
    }
  }

  lemma ConsAppend(a: string, x: string)
    requires a != []
    ensures a + x == [a[0]] + (a[1..] + x)
  {
    assert a == [a[0]] + a[1..];
  }

  /** The `_<index>` part is present exactly for a truthy index and names it
      unambiguously. */
  lemma IndexSuffixSpec(index: Option<int>, other: Option<int>)
    ensures IndexSuffix(index) == "" <==> (index.None? || index.value == 0)
    ensures IndexSuffix(index) == IndexSuffix(other) && IndexSuffix(index) != "" ==> index == other
  {
    if IndexSuffix(index) == IndexSuffix(other) && IndexSuffix(index) != "" {
      assert IndexSuffix(index)[1..] == IntToString(index.value);
      assert IndexSuffix(other)[1..] == IntToString(other.value);
      IntToStringInjective(index.value, other.value);
    }
  }

  /** Two truthy indices that give the same filename for the same title and
      time are the same index. */
  lemma IndexDisambiguates(title: Option<string>, a: Option<int>, b: Option<int>, iso: string)
    requires a.Some? && a.value != 0 && b.Some? && b.value != 0
    requires GenerateFilename(title, a, iso) == GenerateFilename(title, b, iso)
    ensures a == b
  {
    var stem, time := CleanTitle(title), Timestamp(iso);
    CancelEnds3("etsy_" + stem, IndexSuffix(a), IndexSuffix(b), "_", time, ".jpg");
    IndexSuffixSpec(a, b);
  }

  /** The timestamp has no `:` (background.js:59). */
  lemma TimestampHasNoColon(iso: string)
    ensures forall k | 0 <= k < |Timestamp(iso)| :: Timestamp(iso)[k] != ':'
  {
    var c := ColonsToDashes(iso);
    match FractionStart(c, 0)
    case None =>
    case Some(i) =>
      var e := LineEnd(c, i + 1);
      assert Timestamp(iso) == c[..i] + c[e..];
      assert forall k | 0 <= k < |Timestamp(iso)| :: Timestamp(iso)[k] == (if k < i then c[k] else c[e + k - i]);
  }

  /** For a clock string without line breaks, the timestamp is the string
      up to its first `.`, colons turned to dashes (background.js:59-60). */
  lemma TimestampCutsAtFirstDot(iso: string, i: int)
    requires forall k | 0 <= k < |iso| :: !IsLineTerminator(iso[k])
    requires 0 <= i < |iso| - 1 && iso[i] == '.' && forall t | 0 <= t < i :: iso[t] != '.'
    ensures Timestamp(iso) == ColonsToDashes(iso)[..i]
  {
    var c := ColonsToDashes(iso);
    DashesKeepDots(iso, i);
    FirstFraction(c, i);
    LineEndAtEnd(c, i + 1);
    DropFractionToEnd(c, i);
  }

  lemma DropFractionToEnd(c: string, i: nat)
    requires i < |c| && FractionStart(c, 0) == Some(i) && LineEnd(c, i + 1) == |c|
    ensures DropFraction(c) == c[..i]
  {
    assert c[..i] + c[|c|..] == c[..i];
  }

  lemma DashesKeepDots(iso: string, i: int)
    requires forall k | 0 <= k < |iso| :: !IsLineTerminator(iso[k])
    requires 0 <= i < |iso| - 1 && iso[i] == '.' && forall t | 0 <= t < i :: iso[t] != '.'
    ensures var c := ColonsToDashes(iso);
      && FractionAt(c, i) && (forall t | 0 <= t < i :: c[t] != '.')
      && forall k | i + 1 <= k < |c| :: !IsLineTerminator(c[k])
  {
  }

  lemma FirstFraction(c: string, i: nat)
    requires FractionAt(c, i) && forall t | 0 <= t < i :: c[t] != '.'
    ensures FractionStart(c, 0) == Some(i)
  {
    var r := FractionStart(c, 0);
    assert r.Some? ==> c[r.value] == '.';
  }

  lemma {:induction false} LineEndAtEnd(s: string, i: nat)
    requires i <= |s| && forall k | i <= k < |s| :: !IsLineTerminator(s[k])
    ensures LineEnd(s, i) == |s|
    decreases |s| - i
  {
    if i < |s| {
      LineEndAtEnd(s, i + 1);
    }
  }

  /** ... and with no `.` before its last character it is kept whole. */
  lemma TimestampWithoutFraction(iso: string)
    requires forall t | 0 <= t < |iso| - 1 :: iso[t] != '.'
    ensures Timestamp(iso) == ColonsToDashes(iso)
  {
    var c := ColonsToDashes(iso);
    assert forall t | 0 <= t < |c| - 1 :: c[t] != '.';
  }
}
