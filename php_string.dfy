/**
 * The PHP string functions the generators are built from, on strings as sequences
 * of characters: `strpos`, `strrpos`, `str_contains`, `explode`, `implode`,
 * `str_replace`, `trim` with a character list, `empty` on strings, `strtolower`,
 * and decimal rendering of integers.
 */
module PhpString {
  import opened Wrappers

  /** `p` occurs in `s` at offset `i`. */
  predicate OccursAt(s: string, p: string, i: int) {
    0 <= i && i + |p| <= |s| && s[i..i + |p|] == p
  }

  /** `strpos($s, $p, $from)`: the first offset at or after `from` where `p` occurs. */
  function IndexOf(s: string, p: string, from: nat): (r: Option<nat>)
    ensures r.Some? ==> from <= r.value && OccursAt(s, p, r.value)
    ensures r.Some? ==> forall j :: from <= j < r.value ==> !OccursAt(s, p, j)
    ensures r.None? ==> forall j :: from <= j ==> !OccursAt(s, p, j)
    decreases |s| - from
  {
    if from + |p| > |s| then None
    else if s[from..from + |p|] == p then Some(from)
    else IndexOf(s, p, from + 1)
  }

  /** `str_contains($s, $p)`, also `strpos($s, $p) !== false`. */
  predicate Contains(s: string, p: string) {
    IndexOf(s, p, 0).Some?
  }

  lemma {:induction false} ContainsAt(s: string, p: string, i: int)
    requires OccursAt(s, p, i)
    ensures Contains(s, p)
  {
  }

  /** `strrpos($s, $c)` for a one-character needle. */
  function LastIndexOfChar(s: string, c: char): (r: Option<nat>)
    ensures r.Some? ==> r.value < |s| && s[r.value] == c && c !in s[r.value + 1..]
    ensures r.None? <==> c !in s
  {
    if |s| == 0 then None
    else if s[|s| - 1] == c then Some(|s| - 1)
    else
      var r := LastIndexOfChar(s[..|s| - 1], c);
      assert s == s[..|s| - 1] + [s[|s| - 1]];
      r
  }

  /** `str_starts_with($s, $p)`. */
  predicate StartsWith(s: string, p: string) {
    |p| <= |s| && s[..|p|] == p
  }

  /** `explode($d, $s)` for a non-empty delimiter. */
  function Split(s: string, d: string): (r: seq<string>)
    requires |d| > 0
    ensures |r| >= 1
    decreases |s|
  {
    match IndexOf(s, d, 0)
    case None => [s]
    case Some(i) => [s[..i]] + Split(s[i + |d|..], d)
  }

  /** `implode($sep, $parts)`. */
  function Join(parts: seq<string>, sep: string): string {
    if |parts| == 0 then ""
    else if |parts| == 1 then parts[0]
    else parts[0] + sep + Join(parts[1..], sep)
  }

  /**
   * `str_replace($search, $replace, $s)` for a non-empty search string: every occurrence,
   * left to right, without overlap, which is exactly splitting on it and joining back.
   */
  function ReplaceAll(s: string, search: string, replace: string): string
    requires |search| > 0
  {
    Join(Split(s, search), replace)
  }

  /** `p` has no proper non-empty border: no occurrence of `p` can overlap another. */
  predicate NoBorder(p: string) {
    forall j :: 0 < j < |p| ==> p[..j] != p[|p| - j..]
  }

  /** `trim`'s default character list " \t\n\r\0\x0B". */
  const TrimSet: set<char> := {' ', '\t', '\n', '\r', '\0', '\U{B}'}

  /** PCRE's `\s`: space, tab, newline, vertical tab, form feed, carriage return. */
  const RegexSpace: set<char> := {' ', '\t', '\n', '\U{B}', '\U{C}', '\r'}

  /** `ltrim($s, $cs)`. */
  function TrimLeft(s: string, cs: set<char>): (r: string)
    ensures |r| <= |s| && r == s[|s| - |r|..]
    ensures forall k :: 0 <= k < |s| - |r| ==> s[k] in cs
    ensures |r| > 0 ==> r[0] !in cs
  {
    if |s| > 0 && s[0] in cs then TrimLeft(s[1..], cs) else s
  }

  /** `rtrim($s, $cs)`. */
  function TrimRight(s: string, cs: set<char>): (r: string)
    ensures |r| <= |s| && r == s[..|r|]
    ensures forall k :: |r| <= k < |s| ==> s[k] in cs
    ensures |r| > 0 ==> r[|r| - 1] !in cs
  {
    if |s| > 0 && s[|s| - 1] in cs then TrimRight(s[..|s| - 1], cs) else s
  }

  /** `trim($s, $cs)`. */
  function TrimChars(s: string, cs: set<char>): string {
    TrimRight(TrimLeft(s, cs), cs)
  }

  /** `trim($s)`. */
  function Trim(s: string): string {
    TrimChars(s, TrimSet)
  }

  /** Every character of `s` is in `cs`. */
  predicate AllIn(s: string, cs: set<char>) {
    forall k :: 0 <= k < |s| ==> s[k] in cs
  }

  /** `empty($s)` on a string: "" and "0" are empty. */
  predicate PhpEmpty(s: string) {
    s == "" || s == "0"
  }

  /** `strtolower` on ASCII letters. */
  function ToLower(s: string): (r: string)
    ensures |r| == |s|
    ensures forall k :: 0 <= k < |s| ==> r[k] == LowerChar(s[k])
  {
    seq(|s|, k requires 0 <= k < |s| => LowerChar(s[k]))
  }

  function LowerChar(c: char): char {
    if 'A' <= c <= 'Z' then (c as int - 'A' as int + 'a' as int) as char else c
  }

  function DigitChar(d: nat): (r: char)
    requires d < 10
    ensures '0' <= r <= '9' && r as int - '0' as int == d
  {
    ('0' as int + d) as char
  }

  /** Decimal rendering of a natural number, as PHP's string interpolation writes it. */
  function NatToString(n: nat): (r: string)
    ensures |r| >= 1
    ensures forall k :: 0 <= k < |r| ==> '0' <= r[k] <= '9'
    ensures |r| > 1 ==> r[0] != '0'
  {
    if n < 10 then [DigitChar(n)] else NatToString(n / 10) + [DigitChar(n % 10)]
  }

  /** Decimal rendering of an integer, with a leading '-' when negative. */
  function IntToString(i: int): string {
    if i < 0 then "-" + NatToString(-i) else NatToString(i)
  }

  /** The value of a string of decimal digits. */
  function DigitsValue(s: string): nat
    requires forall k :: 0 <= k < |s| ==> '0' <= s[k] <= '9'
  {
    if |s| == 0 then 0 else 10 * DigitsValue(s[..|s| - 1]) + (s[|s| - 1] as int - '0' as int)
  }

  /** `NatToString` is read back by its digits' value: the rendering is faithful. */
  lemma {:induction false} NatToStringValue(n: nat)
    ensures DigitsValue(NatToString(n)) == n
  {
    var s := NatToString(n);
    if n >= 10 {
      NatToStringValue(n / 10);
      assert s[..|s| - 1] == NatToString(n / 10);
      assert s[|s| - 1] == DigitChar(n % 10);
      assert DigitsValue(s) == 10 * (n / 10) + n % 10;
    } else {
      assert s[..0] == [];
    }
  }

  /** No occurrence of `p` anywhere in `s`. */
  lemma {:induction false} NotContainsNowhere(s: string, p: string, j: int)
    requires !Contains(s, p)
    ensures !OccursAt(s, p, j)
  {
  }

  /**
   * When `a` holds no occurrence of a border-free `d`, the first occurrence of `d` in
   * `a + d + b` is the one right after `a`.
   */
  lemma {:induction false} FirstOccurrence(a: string, d: string, b: string)
    requires |d| > 0 && NoBorder(d) && !Contains(a, d)
    ensures IndexOf(a + d + b, d, 0) == Some(|a|)
  {
    var s := a + d + b;
    assert s[|a|..|a| + |d|] == d;
    assert OccursAt(s, d, |a|);
    forall j | 0 <= j < |a|
      ensures !OccursAt(s, d, j)
    {
      if j + |d| <= |a| {
        assert a[j..j + |d|] == s[j..j + |d|];
        NotContainsNowhere(a, d, j);
      } else {
        // the window at j would straddle the end of a: it would make d a border of itself
        var m := |a| - j;
        var k := |d| - m;
        var w := s[j..j + |d|];
        assert w[m..] == s[|a|..j + |d|] == d[..k];
        assert d[..k] != d[m..];
      }
    }
  }

  /** `implode` of one more part. */
  lemma {:induction false} JoinSnoc(ps: seq<string>, x: string, sep: string)
    requires |ps| >= 1
    ensures Join(ps + [x], sep) == Join(ps, sep) + sep + x
  {
    if |ps| == 1 {
      assert Join(ps + [x], sep) == ps[0] + sep + Join([x], sep);
    } else {
      JoinSnoc(ps[1..], x, sep);
      assert (ps + [x])[1..] == ps[1..] + [x];
    }
  }

  /** `explode` takes a string with no delimiter to itself alone. */
  lemma {:induction false} SplitNone(s: string, d: string)
    requires |d| > 0 && !Contains(s, d)
    ensures Split(s, d) == [s]
  {
    assert IndexOf(s, d, 0).None?;
  }

  /** `explode` undoes `implode` when no part holds the (border-free) delimiter. */
  lemma {:induction false} SplitJoin(ps: seq<string>, d: string)
    requires |ps| >= 1 && |d| > 0 && NoBorder(d)
    requires forall k :: 0 <= k < |ps| ==> !Contains(ps[k], d)
    ensures Split(Join(ps, d), d) == ps
  {
    if |ps| > 1 {
      var rest := Join(ps[1..], d);
      FirstOccurrence(ps[0], d, rest);
      var s := ps[0] + d + rest;
      assert Join(ps, d) == s;
      assert s[|ps[0]| + |d|..] == rest && s[..|ps[0]|] == ps[0];
      assert Split(s, d) == [ps[0]] + Split(rest, d);
      SplitJoin(ps[1..], d);
      assert ps == [ps[0]] + ps[1..];
    }
  }

  lemma {:induction false} JoinCons(x: string, tail: seq<string>, sep: string)
    requires |tail| >= 1
    ensures Join([x] + tail, sep) == x + sep + Join(tail, sep)
  {
    assert ([x] + tail)[1..] == tail;
  }

  lemma {:induction false} SplitAt(s: string, d: string, i: nat)
    requires |d| > 0 && IndexOf(s, d, 0) == Some(i)
    ensures i + |d| <= |s| && s[i..i + |d|] == d
    ensures Split(s, d) == [s[..i]] + Split(s[i + |d|..], d)
  {
    SplitOccurs(s, d, i);
    SplitFirst(s, d, i);
  }

  lemma {:induction false} SplitOccurs(s: string, d: string, i: nat)
    requires IndexOf(s, d, 0) == Some(i)
    ensures i + |d| <= |s| && s[i..i + |d|] == d
  {
    assert OccursAt(s, d, i);
  }

  lemma {:induction false} SplitFirst(s: string, d: string, i: nat)
    requires |d| > 0 && IndexOf(s, d, 0) == Some(i)
    ensures Split(s, d) == [s[..i]] + Split(s[i + |d|..], d)
  {
  }

  /** `implode` undoes `explode`. */
  lemma {:induction false} JoinSplit(s: string, d: string)
    requires |d| > 0
    ensures Join(Split(s, d), d) == s
    decreases |s|
  {
    var r := IndexOf(s, d, 0);
    if r.Some? {
      var i := r.value;
      var rest := s[i + |d|..];
      JoinSplit(rest, d);
      SplitAt(s, d, i);
      JoinCons(s[..i], Split(rest, d), d);
      assert Join(Split(s, d), d) == s[..i] + d + rest;
      Rejoin(s, i, i + |d|);
    }
  }

  /** A string is its three consecutive slices put back together. */
  lemma Rejoin(s: string, i: nat, j: nat)
    requires i <= j <= |s|
    ensures s[..i] + s[i..j] + s[j..] == s
  {
    assert s[..i] + s[i..j] == s[..j];
  }

  /** A slice of a slice is a slice of the whole. */
  lemma {:induction false} SliceOfSlice(s: string, lo: int, hi: int, a: int, b: int)
    requires 0 <= lo <= hi <= |s| && 0 <= a <= b <= hi - lo
    ensures s[lo..hi][a..b] == s[lo + a..lo + b]
  {
    assert forall x :: 0 <= x < b - a ==> s[lo..hi][a..b][x] == s[lo + a + x];
  }

  /** `str_replace` rewrites the first occurrence and carries on behind it. */
  lemma {:induction false} ReplaceFirst(s: string, search: string, replace: string, i: nat)
    requires |search| > 0 && IndexOf(s, search, 0) == Some(i)
    ensures i + |search| <= |s|
    ensures ReplaceAll(s, search, replace)
      == s[..i] + replace + ReplaceAll(s[i + |search|..], search, replace)
  {
    SplitAt(s, search, i);
    JoinCons(s[..i], Split(s[i + |search|..], search), replace);
  }

  /** `str_replace` leaves a string without the search string unchanged. */
  lemma {:induction false} ReplaceAbsent(s: string, search: string, replace: string)
    requires |search| > 0 && !Contains(s, search)
    ensures ReplaceAll(s, search, replace) == s
  {
  }

  /**
   * `str_replace` on a string holding exactly one occurrence of a border-free search
   * string replaces that occurrence and nothing else.
   */
  lemma {:induction false} ReplaceSingle(a: string, search: string, b: string, replace: string)
    requires |search| > 0 && NoBorder(search) && !Contains(a, search) && !Contains(b, search)
    ensures ReplaceAll(a + search + b, search, replace) == a + replace + b
  {
    SplitJoin([a, b], search);
    assert Join([a, b], search) == a + search + b by {
      assert Join([a, b], search) == a + search + Join([b], search);
    }
    assert Join([a, b], replace) == a + replace + Join([b], replace);
  }

  /** Leading characters from the list are all stripped by `ltrim`. */
  lemma {:induction false} TrimLeftSkip(w: string, s: string, cs: set<char>)
    requires AllIn(w, cs)
    ensures TrimLeft(w + s, cs) == TrimLeft(s, cs)
  {
    if |w| > 0 {
      assert w[0] in cs;
      assert (w + s)[0] == w[0] && (w + s)[1..] == w[1..] + s;
      assert TrimLeft(w + s, cs) == TrimLeft(w[1..] + s, cs);
      TrimLeftSkip(w[1..], s, cs);
    } else {
      assert w + s == s;
    }
  }

  /** Trailing characters from the list are all stripped by `rtrim`. */
  lemma {:induction false} TrimRightSkip(s: string, w: string, cs: set<char>)
    requires AllIn(w, cs)
    ensures TrimRight(s + w, cs) == TrimRight(s, cs)
  {
    if |w| > 0 {
      assert w[|w| - 1] in cs;
      assert (s + w)[|s + w| - 1] == w[|w| - 1] && (s + w)[..|s + w| - 1] == s + w[..|w| - 1];
      assert TrimRight(s + w, cs) == TrimRight(s + w[..|w| - 1], cs);
      TrimRightSkip(s, w[..|w| - 1], cs);
    } else {
      assert s + w == s;
    }
  }

  /** `trim(w1 . s . w2)` is `s` when the padding is from the list and `s`'s ends are not. */
  lemma {:induction false} TrimPadded(w1: string, s: string, w2: string, cs: set<char>)
    requires AllIn(w1, cs) && AllIn(w2, cs)
    requires |s| > 0 && s[0] !in cs && s[|s| - 1] !in cs
    ensures TrimChars(w1 + s + w2, cs) == s
  {
    var t := s + w2;
    TrimLeftSkip(w1, t, cs);
    assert w1 + s + w2 == w1 + t;
    TrimLeftStops(t, cs);
    TrimRightSkip(s, w2, cs);
    TrimRightStops(s, cs);
  }

  /** `ltrim` leaves a string alone that starts outside the list. */
  lemma {:induction false} TrimLeftStops(t: string, cs: set<char>)
    requires |t| > 0 && t[0] !in cs
    ensures TrimLeft(t, cs) == t
  {
  }

  /** `rtrim` leaves a string alone that ends outside the list. */
  lemma {:induction false} TrimRightStops(s: string, cs: set<char>)
    requires |s| > 0 && s[|s| - 1] !in cs
    ensures TrimRight(s, cs) == s
  {
  }

  /**
   * `str_replace` on a string whose search string first occurs at `i` and never again
   * after that occurrence replaces that occurrence and nothing else.
   */
  lemma {:induction false} ReplaceOnly(s: string, search: string, replace: string, i: nat)
    requires |search| > 0 && IndexOf(s, search, 0) == Some(i)
    requires !Contains(s[i + |search|..], search)
    ensures ReplaceAll(s, search, replace) == s[..i] + replace + s[i + |search|..]
  {
    var rest := s[i + |search|..];
    SplitAt(s, search, i);
    SplitNone(rest, search);
    assert Split(s, search) == [s[..i], rest];
    assert Join([s[..i], rest], replace) == s[..i] + replace + Join([rest], replace);
  }

  /** `str_replace` of a search string that first occurs right after `pre` and not in `post`. */
  lemma {:induction false} ReplaceInContext(pre: string, search: string, post: string, replace: string)
    requires |search| > 0 && IndexOf(pre + search + post, search, 0) == Some(|pre|)
    requires !Contains(post, search)
    ensures ReplaceAll(pre + search + post, search, replace) == pre + replace + post
  {
    var s := pre + search + post;
    assert s[..|pre|] == pre && s[|pre| + |search|..] == post;
    ReplaceOnly(s, search, replace, |pre|);
  }

  /** No character of `d` is in `cs`. */
  predicate Avoids(d: string, cs: set<char>) {
    forall k :: 0 <= k < |d| ==> d[k] !in cs
  }

  /**
   * A pattern with no character from `cs` cannot occur across a run of `cs` characters:
   * it occurs in `a + w + b` only if it occurs in `a` or in `b`.
   */
  lemma {:induction false} NotContainsAcross(a: string, w: string, b: string, d: string, cs: set<char>)
    requires |d| > 0 && AllIn(w, cs) && Avoids(d, cs)
    requires !Contains(a, d) && !Contains(b, d)
    requires |w| > 0 || a == "" || b == ""
    ensures !Contains(a + w + b, d)
  {
    var s := a + w + b;
    forall j | 0 <= j
      ensures !OccursAt(s, d, j)
    {
      if j + |d| <= |a| {
        assert s[j..j + |d|] == a[j..j + |d|];
        NotContainsNowhere(a, d, j);
      } else if j >= |a| + |w| {
        if j + |d| <= |s| {
          assert s[j..j + |d|] == b[j - |a| - |w|..j - |a| - |w| + |d|];
          NotContainsNowhere(b, d, j - |a| - |w|);
        }
      } else if |w| > 0 {
        var t := if j < |a| then |a| else j;
        if j + |d| <= |s| {
          assert s[t] == w[t - |a|];
          assert s[j..j + |d|][t - j] == s[t];
        }
      } else {
        assert b == "";
      }
    }
  }

  /** In `x + [c] + k` where `k` holds no `c`, the last `c` is the one after `x`. */
  lemma {:induction false} LastIndexAfter(x: string, c: char, k: string)
    requires c !in k
    ensures LastIndexOfChar(x + [c] + k, c) == Some(|x|)
  {
    var s := x + [c] + k;
    if |k| == 0 {
      assert s == x + [c];
    } else {
      var k' := k[..|k| - 1];
      assert s[|s| - 1] == k[|k| - 1];
      assert s[..|s| - 1] == x + [c] + k';
      LastIndexAfter(x, c, k');
    }
  }

  /** A one-character needle that does not occur is not found. */
  lemma {:induction false} NotFound(t: string, c: char)
    requires c !in t
    ensures IndexOf(t, [c], 0).None?
  {
    forall i | 0 <= i && i + 1 <= |t|
      ensures !OccursAt(t, [c], i)
    {
      assert t[i..i + 1][0] == t[i];
    }
  }

  /** The first `c` of `a + [c] + b` is the one right after `a` when `a` has none. */
  lemma {:induction false} FoundAfter(a: string, c: char, b: string)
    requires c !in a
    ensures IndexOf(a + [c] + b, [c], 0) == Some(|a|)
  {
    NotFound(a, c);
    FirstOccurrence(a, [c], b);
  }
}
