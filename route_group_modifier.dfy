/**
 * `RouteGroupModifier::appendToExistingRouteGroup`: adding a route line to an existing
 * `Route::group([...'prefix' => '/<prefix>'...], function () {` block of a routes file,
 * right under the group header, unless the block already holds that route.
 *
 * The header is found by a regular expression; its match is an input here, as the span
 * of the file it covers. The closing pattern `\n\s*});` is written out as a scan.
 */
module RouteGroupModifier {
  import opened Wrappers
  import opened PhpString

  const GroupEnd := "});"

  /** The first offset at or after `i` that is not PCRE whitespace. */
  function SkipSpaces(s: string, i: nat): (r: nat)
    requires i <= |s|
    ensures i <= r <= |s| && AllIn(s[i..r], RegexSpace)
    ensures r < |s| ==> s[r] !in RegexSpace
    decreases |s| - i
  {
    if i < |s| && s[i] in RegexSpace then SkipSpaces(s, i + 1) else i
  }

  /** `\n\s*});` matches at `j`; the result is the offset right behind the match. */
  function ClosingAt(s: string, j: nat): (r: Option<nat>)
    ensures r.Some? ==> j < |s| && s[j] == '\n' && r.value >= j + 4 && r.value <= |s|
    ensures r.Some? ==> OccursAt(s, GroupEnd, r.value - 3) && AllIn(s[j + 1..r.value - 3], RegexSpace)
  {
    if j < |s| && s[j] == '\n' then
      var q := SkipSpaces(s, j + 1);
      if OccursAt(s, GroupEnd, q) then Some(q + 3) else None
    else None
  }

  /** The leftmost match of `\n\s*});` at or after `from`: its start and its end. */
  function FindClosing(s: string, from: nat): (r: Option<(nat, nat)>)
    ensures r.Some? ==> from <= r.value.0 && ClosingAt(s, r.value.0) == Some(r.value.1)
    ensures r.Some? ==> forall j :: from <= j < r.value.0 ==> ClosingAt(s, j).None?
    ensures r.None? ==> forall j :: from <= j ==> ClosingAt(s, j).None?
    decreases |s| - from
  {
    if from >= |s| then None
    else match ClosingAt(s, from)
      case Some(e) => Some((from, e))
      case None => FindClosing(s, from + 1)
  }

  /**
   * The group section the route goes into: from the first occurrence of the header text to
   * the end of the first closing `});` behind it. `None` when no header matched or no
   * closing follows it.
   */
  function Section(s: string, header: Option<(nat, nat)>): (r: Option<(nat, nat)>)
    requires header.Some? ==> header.value.0 < header.value.1 <= |s|
    ensures r.Some? ==> header.Some?
    ensures r.Some? ==>
      var h := s[header.value.0..header.value.1];
      IndexOf(s, h, 0) == Some(r.value.0) && r.value.0 + |h| <= |s|
      && FindClosing(s, r.value.0).Some? && FindClosing(s, r.value.0).value.1 == r.value.1
      && r.value.0 + 4 <= r.value.1 <= |s| && OccursAt(s, GroupEnd, r.value.1 - 3)
    ensures r.None? && header.Some? ==>
      var h := s[header.value.0..header.value.1];
      Contains(s, h) && FindClosing(s, IndexOf(s, h, 0).value).None?
  {
    match header
    case None => None
    case Some((a, b)) =>
      var h := s[a..b];
      ContainsAt(s, h, a);
      var p := IndexOf(s, h, 0).value;
      match FindClosing(s, p)
      case None => None
      case Some((_, e)) => Some((p, e))
  }

  /**
   * `appendToExistingRouteGroup`: when the section is found and does not hold the route,
   * the header inside the section gets the route on a new line after it, and every
   * occurrence of the old section text in the file is replaced by the new one.
   */
  function AppendToGroup(s: string, header: Option<(nat, nat)>, route: string): (r: string)
    requires header.Some? ==> header.value.0 < header.value.1 <= |s|
    ensures Section(s, header).None? ==> r == s
    ensures Section(s, header).Some? ==>
      (Contains(s[Section(s, header).value.0..Section(s, header).value.1], route) ==> r == s)
  {
    match Section(s, header)
    case None => s
    case Some((p, e)) =>
      var h := s[header.value.0..header.value.1];
      var section := s[p..e];
      if Contains(section, route) then s
      else ReplaceAll(s, section, ReplaceAll(section, h, h + "\n" + route))
  }

  /** A string starting with `h` cannot occur where `h` does not. */
  lemma {:induction false} ExtensionFirst(s: string, h: string, t: string, p: nat)
    requires IndexOf(s, h, 0) == Some(p) && StartsWith(t, h) && OccursAt(s, t, p)
    ensures IndexOf(s, t, 0) == Some(p)
  {
    forall j | 0 <= j < p ensures !OccursAt(s, t, j) {
      if OccursAt(s, t, j) {
        assert s[j..j + |h|] == t[..|h|];
        assert OccursAt(s, h, j);
      }
    }
  }

  /** The closing `});` of the section lies behind the header when the header holds none. */
  lemma {:induction false} HeaderInSection(s: string, h: string, p: nat, e: nat)
    requires OccursAt(s, h, p) && p + 4 <= e <= |s| && OccursAt(s, GroupEnd, e - 3)
    requires !Contains(h, GroupEnd)
    ensures p + |h| <= e
  {
    if e < p + |h| {
      SliceOfSlice(s, p, p + |h|, e - 3 - p, e - p);
      ContainsAt(h, GroupEnd, e - 3 - p);
    }
  }

  /** Inside the section the header comes first, so the route lands right behind it. */
  lemma {:induction false} UpdatedSection(section: string, h: string, route: string)
    requires |h| > 0 && StartsWith(section, h)
    ensures ReplaceAll(section, h, h + "\n" + route)
      == h + "\n" + route + ReplaceAll(section[|h|..], h, h + "\n" + route)
  {
    assert OccursAt(section, h, 0);
    ReplaceFirst(section, h, h + "\n" + route, 0);
  }

  /** In the file the section comes first where the header does. */
  lemma {:induction false} UpdatedFile(s: string, h: string, p: nat, e: nat, updated: string)
    requires |h| > 0 && IndexOf(s, h, 0) == Some(p) && p + |h| <= e <= |s|
    ensures ReplaceAll(s, s[p..e], updated) == s[..p] + updated + ReplaceAll(s[e..], s[p..e], updated)
  {
    var section := s[p..e];
    assert section[..|h|] == s[p..p + |h|];
    ExtensionFirst(s, h, section, p);
    ReplaceFirst(s, section, updated, p);
  }

  /** The insertion, on the section found at `p..e` for the header text `h`. */
  lemma {:induction false} RouteAfterHeaderAt(s: string, h: string, p: nat, e: nat, route: string) returns (rest: string)
    requires |h| > 0 && IndexOf(s, h, 0) == Some(p) && p + 4 <= e <= |s|
    requires OccursAt(s, GroupEnd, e - 3) && !Contains(h, GroupEnd)
    ensures ReplaceAll(s, s[p..e], ReplaceAll(s[p..e], h, h + "\n" + route))
      == s[..p] + (h + "\n" + route) + rest
  {
    var ins := h + "\n" + route;
    HeaderInSection(s, h, p, e);
    var section := s[p..e];
    assert section[..|h|] == h;
    UpdatedSection(section, h, route);
    var updated := ReplaceAll(section, h, ins);
    UpdatedFile(s, h, p, e, updated);
    var x := ReplaceAll(section[|h|..], h, ins);
    var y := ReplaceAll(s[e..], section, updated);
    Regroup(s[..p], ins, x, y);
    rest := x + y;
  }

  lemma {:induction false} Regroup(a: string, b: string, c: string, d: string)
    ensures a + (b + c) + d == a + b + (c + d)
  {
  }

  lemma {:induction false} ConcatParts(a: string, b: string, c: string)
    ensures (a + b + c)[..|a|] == a && (a + b + c)[|a|..|a| + |b|] == b
  {
  }

  /**
   * When the route is inserted, the file up to the end of the header is unchanged and the
   * route follows the header on a new line.
   */
  lemma {:induction false} RouteAfterHeader(s: string, header: Option<(nat, nat)>, route: string)
    requires header.Some? && header.value.0 < header.value.1 <= |s|
    requires !Contains(s[header.value.0..header.value.1], GroupEnd)
    requires Section(s, header).Some?
    requires !Contains(s[Section(s, header).value.0..Section(s, header).value.1], route)
    ensures var h := s[header.value.0..header.value.1];
      var p := Section(s, header).value.0;
      var r := AppendToGroup(s, header, route);
      |r| >= p + |h| + 1 + |route| && r[..p] == s[..p] && r[p..p + |h| + 1 + |route|] == h + "\n" + route
  {
    var h := s[header.value.0..header.value.1];
    var (p, e) := Section(s, header).value;
    var rest := RouteAfterHeaderAt(s, h, p, e, route);
    ConcatParts(s[..p], h + "\n" + route, rest);
  }

  /** The rewrite depends on the header match only through its text. */
  lemma {:induction false} SameHeaderText(s: string, header: Option<(nat, nat)>, other: Option<(nat, nat)>, route: string)
    requires header.Some? && header.value.0 < header.value.1 <= |s|
    requires other.Some? && other.value.0 < other.value.1 <= |s|
    requires s[other.value.0..other.value.1] == s[header.value.0..header.value.1]
    ensures Section(s, other) == Section(s, header)
    ensures AppendToGroup(s, other, route) == AppendToGroup(s, header, route)
  {
  }

  /** Behind the inserted route the header text still comes first at `p`. */
  lemma {:induction false} HeaderStillFirst(s: string, h: string, p: nat, ins: string, rest: string)
    requires IndexOf(s, h, 0) == Some(p) && StartsWith(ins, h)
    ensures IndexOf(s[..p] + ins + rest, h, 0) == Some(p)
  {
    var r := s[..p] + ins + rest;
    var n := p + |h|;
    assert OccursAt(s, h, p);
    assert r[..n] == s[..n] by {
      assert r[..p] == s[..p];
      assert r[p..n] == ins[..|h|] == h == s[p..n];
    }
    assert OccursAt(r, h, p);
    forall q | 0 <= q < p ensures !OccursAt(r, h, q) {
      SliceOfSlice(r, 0, n, q, q + |h|);
      SliceOfSlice(s, 0, n, q, q + |h|);
      assert !OccursAt(s, h, q);
    }
  }

  /** A section starting with the inserted route line holds the route. */
  lemma {:induction false} SectionHoldsRoute(r: string, h: string, route: string, p: nat, e: nat)
    requires p + |h| + 1 + |route| <= |r| && r[p..p + |h| + 1 + |route|] == h + "\n" + route
    requires !Contains(h, GroupEnd) && !Contains(route, GroupEnd)
    requires p + 4 <= e <= |r| && OccursAt(r, GroupEnd, e - 3)
    ensures Contains(r[p..e], route)
  {
    var ins := h + "\n" + route;
    ClosingBehindRoute(r, h, route, p, e);
    RouteInSection(r, ins, p, e, |h| + 1, route);
  }

  /** The section's closing `});` cannot overlap the header and route line. */
  lemma {:induction false} ClosingBehindRoute(r: string, h: string, route: string, p: nat, e: nat)
    requires p + |h| + 1 + |route| <= |r| && r[p..p + |h| + 1 + |route|] == h + "\n" + route
    requires !Contains(h, GroupEnd) && !Contains(route, GroupEnd)
    requires p + 4 <= e <= |r| && OccursAt(r, GroupEnd, e - 3)
    ensures p + |h| + 1 + |route| < e
  {
    var ins := h + "\n" + route;
    if e <= p + |ins| {
      assert Avoids(GroupEnd, {'\n'});
      assert AllIn("\n", {'\n'});
      NotContainsAcross(h, "\n", route, GroupEnd, {'\n'});
      SliceOfSlice(r, p, p + |ins|, e - 3 - p, e - p);
      ContainsAt(ins, GroupEnd, e - 3 - p);
      assert false;
    }
  }

  /** Text that ends a piece lying inside a section is found in the section. */
  lemma {:induction false} RouteInSection(r: string, ins: string, p: nat, e: nat, off: nat, route: string)
    requires p + |ins| <= e <= |r| && r[p..p + |ins|] == ins
    requires off <= |ins| && ins[off..] == route
    ensures Contains(r[p..e], route)
  {
    SliceOfSlice(r, p, e, off, |ins|);
    SliceOfSlice(r, p, p + |ins|, off, |ins|);
    ContainsAt(r[p..e], route, off);
  }

  /**
   * Adding the same route twice gives the same file as adding it once, when neither the
   * header nor the route holds a `});`. The second run's header match is any span with
   * the same header text.
   */
  lemma {:induction false} AppendToGroupIdempotent(s: string, header: Option<(nat, nat)>, again: Option<(nat, nat)>, route: string)
    requires header.Some? && header.value.0 < header.value.1 <= |s|
    requires !Contains(s[header.value.0..header.value.1], GroupEnd) && !Contains(route, GroupEnd)
    requires var r := AppendToGroup(s, header, route);
      again.Some? && again.value.0 < again.value.1 <= |r|
      && r[again.value.0..again.value.1] == s[header.value.0..header.value.1]
    ensures var r := AppendToGroup(s, header, route);
      AppendToGroup(r, again, route) == r
  {
    var h := s[header.value.0..header.value.1];
    var r := AppendToGroup(s, header, route);
    if r == s {
      SameHeaderText(s, header, again, route);
    } else {
      InsertedRouteFound(s, header, again, route);
    }
  }

  /** After an insertion, the section found again starts at the header and holds the route. */
  lemma {:induction false} InsertedRouteFound(s: string, header: Option<(nat, nat)>, again: Option<(nat, nat)>, route: string)
    requires header.Some? && header.value.0 < header.value.1 <= |s|
    requires !Contains(s[header.value.0..header.value.1], GroupEnd) && !Contains(route, GroupEnd)
    requires var r := AppendToGroup(s, header, route);
      r != s && again.Some? && again.value.0 < again.value.1 <= |r|
      && r[again.value.0..again.value.1] == s[header.value.0..header.value.1]
    ensures var r := AppendToGroup(s, header, route);
      Section(r, again).Some? ==> Contains(r[Section(r, again).value.0..Section(r, again).value.1], route)
  {
    var h := s[header.value.0..header.value.1];
    var r := AppendToGroup(s, header, route);
    var p := Section(s, header).value.0;
    var rest := Appended(s, header, route);
    FoundAgain(s, h, p, route, rest, again);
  }

  /** The section of `s[..p] + h + "\n" + route + rest` found by the header text holds the route. */
  lemma {:induction false} FoundAgain(s: string, h: string, p: nat, route: string, rest: string, again: Option<(nat, nat)>)
    requires IndexOf(s, h, 0) == Some(p) && !Contains(h, GroupEnd) && !Contains(route, GroupEnd)
    requires var r := s[..p] + (h + "\n" + route) + rest;
      again.Some? && again.value.0 < again.value.1 <= |r| && r[again.value.0..again.value.1] == h
    ensures var r := s[..p] + (h + "\n" + route) + rest;
      Section(r, again).Some? ==> Contains(r[Section(r, again).value.0..Section(r, again).value.1], route)
  {
    var ins := h + "\n" + route;
    var r := s[..p] + ins + rest;
    ConcatParts(s[..p], ins, rest);
    HeaderStillFirst(s, h, p, ins, rest);
    SectionAgainAt(r, again, h, p);
    var sec := Section(r, again);
    if sec.Some? {
      SectionHoldsRoute(r, h, route, p, sec.value.1);
    }
  }

  /** A changed file is the part before the section, the header with the route, and the rest. */
  lemma {:induction false} Appended(s: string, header: Option<(nat, nat)>, route: string) returns (rest: string)
    requires header.Some? && header.value.0 < header.value.1 <= |s|
    requires !Contains(s[header.value.0..header.value.1], GroupEnd)
    requires AppendToGroup(s, header, route) != s
    ensures Section(s, header).Some?
    ensures var p := Section(s, header).value.0;
      AppendToGroup(s, header, route) == s[..p] + (s[header.value.0..header.value.1] + "\n" + route) + rest
  {
    var h := s[header.value.0..header.value.1];
    AppendedUnfold(s, header, route);
    var (p, e) := Section(s, header).value;
    rest := RouteAfterHeaderAt(s, h, p, e, route);
  }

  lemma {:induction false} AppendedUnfold(s: string, header: Option<(nat, nat)>, route: string)
    requires header.Some? && header.value.0 < header.value.1 <= |s|
    requires AppendToGroup(s, header, route) != s
    ensures Section(s, header).Some?
    ensures var (p, e) := Section(s, header).value;
      var h := s[header.value.0..header.value.1];
      AppendToGroup(s, header, route) == ReplaceAll(s, s[p..e], ReplaceAll(s[p..e], h, h + "\n" + route))
  {
  }

  /** A header match with the text `h` finds its section where `h` first occurs. */
  lemma {:induction false} SectionAgainAt(r: string, again: Option<(nat, nat)>, h: string, p: nat)
    requires again.Some? && again.value.0 < again.value.1 <= |r|
    requires r[again.value.0..again.value.1] == h && IndexOf(r, h, 0) == Some(p)
    ensures Section(r, again).Some? ==>
      Section(r, again).value.0 == p && p + 4 <= Section(r, again).value.1 <= |r|
      && OccursAt(r, GroupEnd, Section(r, again).value.1 - 3)
  {
  }
}
