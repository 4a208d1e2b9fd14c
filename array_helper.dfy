/**
 * ArrayHelper: reading the entries of a PHP array literal out of generated source text,
 * writing entries back as aligned `'key'  =>  value` lines, and replacing the array a
 * pattern located inside a file.
 *
 * The reader splits the text on `=>`, tracks a bracket level per piece (a piece holding
 * a `[` raises it by one, a piece holding a `]` lowers it by one, whatever the count),
 * and at level 0 marks the last single-quoted token before the arrow as a key with the
 * `{{@}}` marker; pieces between markers then pair up as key, value.
 */
module ArrayHelper {
  import opened Wrappers
  import opened PhpString
  import opened PhpArray

  const Arrow := "=>"
  const Marker := "{{@}}"
  const QuoteSet: set<char> := {'"', '\''}
  const BracketSet: set<char> := {'[', ']'}

  // ---------------------------------------------------------------- reading

  /**
   * Where `parseArrayString` takes its text from: the whole string (no pattern given),
   * or the first group of the pattern's match, `None` when the pattern does not match
   * or the group did not take part.
   */
  datatype Lookup = WholeContent | PatternGroup(group: Option<string>)

  /** The text the reader works on; brackets are trimmed from a group unless it is marked trimmed. */
  function ArrayContents(content: string, lookup: Lookup, isTrimmed: bool): Option<string> {
    match lookup
    case WholeContent => Some(content)
    case PatternGroup(None) => None
    case PatternGroup(Some(g)) => Some(if isTrimmed then g else TrimChars(g, BracketSet))
  }

  /** How a piece moves the bracket level: by presence of `[` and `]`, not by count. */
  function LevelDelta(part: string): int {
    (if '[' in part then 1 else 0) - (if ']' in part then 1 else 0)
  }

  /**
   * `preg_replace("/(')([^']*)(')$/", "{{@}}$1$2$3", $t)`: when `t` ends with a quoted
   * token, put the marker in front of its opening quote.
   */
  function MarkLastQuoted(t: string): string {
    if |t| > 0 && t[|t| - 1] == '\'' then
      match LastIndexOfChar(t[..|t| - 1], '\'')
      case Some(p) => t[..p] + Marker + t[p..]
      case None => t
    else t
  }

  /** One turn of the reader's loop over a piece that is not the last one. */
  function StepNonLast(state: (int, string), part: string): (int, string) {
    var level := state.0 + LevelDelta(part);
    var output := state.1 + part;
    (level, if level == 0 then MarkLastQuoted(Trim(output)) + Marker else output + Arrow)
  }

  /** Level and output after the reader's loop has consumed `parts`, none of them the last. */
  function ScanPrefix(parts: seq<string>): (int, string) {
    if |parts| == 0 then (0, "") else StepNonLast(ScanPrefix(parts[..|parts| - 1]), parts[|parts| - 1])
  }

  /** The reader's output: every piece but the last goes through a step; the last is appended. */
  function Scan(parts: seq<string>): string
    requires |parts| >= 1
  {
    ScanPrefix(parts[..|parts| - 1]).1 + parts[|parts| - 1]
  }

  /** `empty(trim($s))`. */
  predicate Blank(s: string) {
    PhpEmpty(Trim(s))
  }

  /** `array_filter` keeping the items that are not `empty()` once trimmed. */
  function NonBlank(items: seq<string>): (r: seq<string>)
    ensures |r| <= |items|
  {
    if |items| == 0 then []
    else
      var rest := NonBlank(items[1..]);
      if Blank(items[0]) then rest else [items[0]] + rest
  }

  /** A value as stored: trimmed, with a trailing comma added when it has none. */
  function NormalizeValue(v: string): (r: string)
    ensures |r| > 0 && r[|r| - 1] == ','
    ensures Trim(v) != "" ==> r[0] !in TrimSet
  {
    var t := Trim(v);
    if |t| > 0 && t[|t| - 1] == ',' then t else t + ","
  }

  /** The key a piece stands for: the piece without surrounding quotes. */
  function KeyOf(piece: string): string {
    TrimChars(piece, QuoteSet)
  }

  /** Pieces taken two by two as key and value; an odd last piece is dropped. */
  function PairUp(segs: seq<string>): (r: seq<(string, string)>)
    ensures |r| == |segs| / 2
  {
    seq(|segs| / 2, j requires 0 <= j < |segs| / 2 => (KeyOf(segs[2 * j]), NormalizeValue(segs[2 * j + 1])))
  }

  /** The pieces between markers that hold something. */
  function Segments(output: string): seq<string> {
    NonBlank(Split(output, Marker))
  }

  /** The entries of an array text: keys distinct, every value trimmed and ending with a comma. */
  function ParseText(contents: string): (r: Entries<string>)
    ensures DistinctKeys(r)
    ensures forall i :: 0 <= i < |r| ==> |r[i].1| > 0 && r[i].1[|r[i].1| - 1] == ','
  {
    var pairs := PairUp(Segments(Scan(Split(contents, Arrow))));
    FromPairsFacts(pairs);
    FromPairsMembers(pairs);
    PairUpValues(Segments(Scan(Split(contents, Arrow))));
    FromPairs(pairs)
  }

  lemma {:induction false} PairUpValues(segs: seq<string>)
    ensures forall p :: p in PairUp(segs) ==> |p.1| > 0 && p.1[|p.1| - 1] == ','
  {
  }

  /** `parseArrayString($content, $pattern, $isTrimed)`. */
  function ParseArrayStringSpec(content: string, lookup: Lookup, isTrimmed: bool): (r: Entries<string>)
    ensures lookup == PatternGroup(None) ==> r == []
    ensures lookup == WholeContent ==> r == ParseText(content)
  {
    match ArrayContents(content, lookup, isTrimmed)
    case None => []
    case Some(contents) => ParseText(contents)
  }

  lemma {:induction false} PairUpDropLast(segs: seq<string>, h: nat)
    requires |segs| == 2 * h + 1
    ensures PairUp(segs) == PairUp(segs[..|segs| - 1])
  {
    var a := PairUp(segs);
    var b := PairUp(segs[..|segs| - 1]);
    assert |a| == |b|;
    forall k | 0 <= k < |a|
      ensures a[k] == b[k]
    {
      assert segs[2 * k] == segs[..|segs| - 1][2 * k];
      assert segs[2 * k + 1] == segs[..|segs| - 1][2 * k + 1];
    }
  }

  lemma {:induction false} PairUpPrefix(segs: seq<string>, j: nat, h: nat)
    requires j == 2 * h && j + 2 <= |segs|
    ensures PairUp(segs[..j + 2]) == PairUp(segs[..j]) + [(KeyOf(segs[j]), NormalizeValue(segs[j + 1]))]
  {
    var a, b := PairUp(segs[..j + 2]), PairUp(segs[..j]);
    PairUpLength(segs[..j + 2], h + 1);
    PairUpLength(segs[..j], h);
    forall k | 0 <= k < h
      ensures a[k] == b[k]
    {
      PairUpSame(segs[..j + 2], segs[..j], k);
    }
    PairUpAt(segs[..j + 2], h);
    assert a == b + [a[h]];
  }

  lemma {:induction false} PairUpLength(segs: seq<string>, h: nat)
    requires |segs| == 2 * h
    ensures |PairUp(segs)| == h
  {
  }

  /** The `k`-th pair of the pieces: the key piece and the value piece at `2k` and `2k + 1`. */
  lemma {:induction false} PairUpAt(segs: seq<string>, k: nat)
    requires 2 * k + 1 < |segs|
    ensures k < |PairUp(segs)| && PairUp(segs)[k] == (KeyOf(segs[2 * k]), NormalizeValue(segs[2 * k + 1]))
  {
    HalfBound(|segs|, k);
    PairUpInRange(segs, k);
  }

  lemma {:induction false} PairUpInRange(segs: seq<string>, k: nat)
    requires k < |segs| / 2
    ensures PairUp(segs)[k] == (KeyOf(segs[2 * k]), NormalizeValue(segs[2 * k + 1]))
  {
  }

  lemma {:induction false} HalfBound(n: nat, k: nat)
    requires 2 * k + 1 < n
    ensures k < n / 2
  {
  }

  /** Two piece lists agreeing on the `k`-th pair's pieces agree on that pair. */
  lemma {:induction false} PairUpSame(x: seq<string>, y: seq<string>, k: nat)
    requires 2 * k + 1 < |x| && 2 * k + 1 < |y| && x[2 * k] == y[2 * k] && x[2 * k + 1] == y[2 * k + 1]
    ensures k < |PairUp(x)| && k < |PairUp(y)| && PairUp(x)[k] == PairUp(y)[k]
  {
    PairUpAt(x, k);
    PairUpAt(y, k);
  }

  lemma {:induction false} ScanPrefixSnoc(parts: seq<string>, i: nat)
    requires i < |parts|
    ensures ScanPrefix(parts[..i + 1]) == StepNonLast(ScanPrefix(parts[..i]), parts[i])
  {
    assert parts[..i + 1][..i] == parts[..i];
  }

  /**
   * The reader's first loop: the bracket-level scan over the pieces between arrows. The
   * last turn only appends its piece, so it is taken out of the loop.
   */
  method ScanPieces(parts: seq<string>) returns (output: string)
    requires |parts| >= 1
    ensures output == Scan(parts)
  {
    var level := 0;
    output := "";
    var i := 0;
    while i < |parts| - 1
      invariant 0 <= i <= |parts| - 1
      invariant (level, output) == ScanPrefix(parts[..i])
    {
      ScanPrefixSnoc(parts, i);
      level, output := ScanTurn(level, output, parts[i]);
      i := i + 1;
    }
    output := output + parts[i];
  }

  /** One turn of the first loop over a piece that is not the last one. */
  method ScanTurn(level: int, output: string, part: string) returns (level': int, output': string)
    ensures (level', output') == StepNonLast((level, output), part)
  {
    output' := output + part;
    level' := level;
    if '[' in part {
      level' := level' + 1;
    }
    if ']' in part {
      level' := level' - 1;
    }
    if level' == 0 {
      output' := MarkLastQuoted(Trim(output'));
    }
    output' := output' + (if level' == 0 then Marker else Arrow);
  }

  /** The reader's second loop: pieces two by two into the result array. */
  method PairPieces(segs: seq<string>) returns (result: Entries<string>)
    ensures result == FromPairs(PairUp(segs))
  {
    result := [];
    var j := 0;
    ghost var pairs := 0;
    while j < |segs|
      invariant j == 2 * pairs && 0 <= j <= |segs| + 1
      invariant result == FromPairs(PairUp(segs[..Capped(j, |segs|)]))
    {
      if j < |segs| && j + 1 < |segs| {
        result := PutPiecePair(result, segs, j, pairs);
      } else {
        OddPieceDropped(segs, j, pairs);
      }
      j := j + 2;
      pairs := pairs + 1;
    }
    assert segs[..|segs|] == segs;
  }

  function Capped(j: nat, n: nat): (r: nat)
    ensures r <= n && (j <= n ==> r == j)
  {
    if j <= n then j else n
  }

  /** One turn of the second loop that has a key piece and a value piece. */
  method PutPiecePair(result: Entries<string>, segs: seq<string>, j: nat, ghost h: nat) returns (r: Entries<string>)
    requires j == 2 * h && j + 1 < |segs| && result == FromPairs(PairUp(segs[..j]))
    ensures r == FromPairs(PairUp(segs[..j + 2]))
  {
    var value := segs[j + 1];
    PairUpPrefix(segs, j, h);
    FromPairsSnoc(PairUp(segs[..j]), (KeyOf(segs[j]), NormalizeValue(value)));
    r := Put(result, KeyOf(segs[j]), NormalizeValue(value));
  }

  /** A last piece without a partner adds nothing. */
  lemma {:induction false} OddPieceDropped(segs: seq<string>, j: nat, h: nat)
    requires j == 2 * h && j < |segs| <= j + 1
    ensures FromPairs(PairUp(segs[..j])) == FromPairs(PairUp(segs[..Capped(j + 2, |segs|)]))
  {
    assert segs[..j + 1] == segs;
    PairUpDropLast(segs, h);
    assert segs[..|segs| - 1] == segs[..j];
  }

  /** `parseArrayString($content, $pattern, $isTrimed)`. */
  method ParseArrayString(content: string, lookup: Lookup, isTrimmed: bool) returns (result: Entries<string>)
    ensures result == ParseArrayStringSpec(content, lookup, isTrimmed)
  {
    var contents: string;
    match lookup {
      case WholeContent =>
        contents := content;
      case PatternGroup(group) =>
        if group.None? {
          return [];
        }
        contents := if isTrimmed then group.value else TrimChars(group.value, BracketSet);
    }
    var output := ScanPieces(Split(contents, Arrow));
    result := PairPieces(NonBlank(Split(output, Marker)));
  }

  // ---------------------------------------------------------------- writing

  function Spaces(n: nat): (r: string)
    ensures |r| == n && forall k :: 0 <= k < n ==> r[k] == ' '
  {
    seq(n, _ => ' ')
  }

  /** `sprintf("%-{$width}s", $s)`: left-justified in a field of `width`, never cut. */
  function PadRight(s: string, width: nat): (r: string)
    ensures |r| == if |s| < width then width else |s|
    ensures r[..|s|] == s
    ensures forall k :: |s| <= k < |r| ==> r[k] == ' '
  {
    if |s| < width then s + Spaces(width - |s|) else s
  }

  const FormatArrow := "  =>  "

  /** One output line: margin, the quoted trimmed key padded to `width`, the arrow, the trimmed value. */
  function FormatLine(margin: string, key: string, value: string, width: nat): string {
    margin + PadRight("'" + Trim(key) + "'", width) + FormatArrow + Trim(value)
  }

  /** The lines for the entries whose key and value are not `empty()`, in order. */
  function FormatLines(entries: Entries<string>, margin: string, width: nat): (r: seq<string>)
    ensures |r| <= |entries|
  {
    if |entries| == 0 then []
    else
      var last := entries[|entries| - 1];
      FormatLines(entries[..|entries| - 1], margin, width)
        + if !PhpEmpty(last.0) && !PhpEmpty(last.1) then [FormatLine(margin, last.0, last.1, width)] else []
  }

  /** The longest key, in characters. */
  function MaxKeyLength(entries: Entries<string>): (r: nat)
    ensures forall i :: 0 <= i < |entries| ==> |entries[i].0| <= r
    ensures |entries| > 0 ==> exists i :: 0 <= i < |entries| && |entries[i].0| == r
  {
    if |entries| == 0 then 0
    else
      var m := MaxKeyLength(entries[..|entries| - 1]);
      var k := |entries[|entries| - 1].0|;
      if m < k then k else m
  }

  /** `formatKeyValuePairs($s, $leftMargin)`. */
  function FormatSpec(s: string, margin: string): string {
    FormatOf(ParseText(s), margin)
  }

  /** The lines of the entries, their keys padded to the longest key and its quotes. */
  function FormatOf(entries: Entries<string>, margin: string): string {
    Join(FormatLines(entries, margin, MaxKeyLength(entries) + 2), "\n")
  }

  /** The line an entry contributes: one when its key and value are not `empty()`, else none. */
  function LineFor(e: (string, string), margin: string, width: nat): seq<string> {
    if !PhpEmpty(e.0) && !PhpEmpty(e.1) then [FormatLine(margin, e.0, e.1, width)] else []
  }

  lemma {:induction false} FormatLinesSnoc(entries: Entries<string>, i: nat, margin: string, width: nat)
    requires i < |entries|
    ensures FormatLines(entries[..i + 1], margin, width)
      == FormatLines(entries[..i], margin, width) + LineFor(entries[i], margin, width)
  {
    assert entries[..i + 1][..i] == entries[..i];
  }

  /** The writer's two loops: the longest key, then the lines. */
  method FormatEntries(result: Entries<string>, margin: string) returns (r: string)
    ensures r == FormatOf(result, margin)
  {
    var maxKeyLength := LongestKey(result);
    var formattedPairs := FormatPairs(result, margin, maxKeyLength + 2);
    r := Join(formattedPairs, "\n");
  }

  /** The writer's first loop: the length of the longest key. */
  method LongestKey(result: Entries<string>) returns (maxKeyLength: nat)
    ensures maxKeyLength == MaxKeyLength(result)
  {
    maxKeyLength := 0;
    var i := 0;
    while i < |result|
      invariant 0 <= i <= |result|
      invariant maxKeyLength == MaxKeyLength(result[..i])
    {
      assert result[..i + 1][..i] == result[..i];
      if maxKeyLength < |result[i].0| {
        maxKeyLength := |result[i].0|;
      }
      i := i + 1;
    }
    assert result[..|result|] == result;
  }

  /** The writer's second loop: one line per entry whose key and value are not `empty()`. */
  method FormatPairs(result: Entries<string>, margin: string, width: nat) returns (formattedPairs: seq<string>)
    ensures formattedPairs == FormatLines(result, margin, width)
  {
    formattedPairs := [];
    var i := 0;
    while i < |result|
      invariant 0 <= i <= |result|
      invariant formattedPairs == FormatLines(result[..i], margin, width)
    {
      FormatLinesSnoc(result, i, margin, width);
      formattedPairs := formattedPairs + LineFor(result[i], margin, width);
      i := i + 1;
    }
    assert result[..|result|] == result;
  }

  /** `formatKeyValuePairs($s, $leftMargin)`. */
  method FormatKeyValuePairs(s: string, margin: string) returns (r: string)
    ensures r == FormatSpec(s, margin)
  {
    var result := ParseArrayString(s, WholeContent, true);
    r := FormatEntries(result, margin);
  }

  /** The trimmed key is never longer than the key. */
  lemma {:induction false} TrimNoLonger(s: string)
    ensures |Trim(s)| <= |s|
  {
  }

  /** `line` starts with the margin and has the arrow right after a key field of `width`. */
  predicate AlignedAt(line: string, margin: string, width: nat) {
    |line| >= |margin| + width + |FormatArrow|
    && line[..|margin|] == margin
    && line[|margin| + width..|margin| + width + |FormatArrow|] == FormatArrow
  }

  lemma {:induction false} FormatLineAligned(margin: string, key: string, value: string, width: nat)
    requires |key| + 2 <= width
    ensures AlignedAt(FormatLine(margin, key, value, width), margin, width)
  {
    TrimNoLonger(key);
    var padded := PadRight("'" + Trim(key) + "'", width);
    var line := margin + padded + FormatArrow + Trim(value);
    assert |padded| == width;
    assert line[..|margin|] == margin;
    assert line[|margin| + width..|margin| + width + |FormatArrow|] == FormatArrow;
  }

  lemma {:induction false} AlignedSnoc(before: seq<string>, line: string, margin: string, width: nat)
    requires forall i :: 0 <= i < |before| ==> AlignedAt(before[i], margin, width)
    requires AlignedAt(line, margin, width)
    ensures forall i :: 0 <= i < |before + [line]| ==> AlignedAt((before + [line])[i], margin, width)
  {
    forall i | 0 <= i < |before + [line]|
      ensures AlignedAt((before + [line])[i], margin, width)
    {
      if i < |before| {
        assert (before + [line])[i] == before[i];
      } else {
        assert (before + [line])[i] == line;
      }
    }
  }

  /**
   * Every line starts with the margin and has its arrow at the same column: the
   * margin's width plus the longest key plus the two quotes.
   */
  lemma {:induction false} FormatAligned(entries: Entries<string>, margin: string, width: nat)
    requires MaxKeyLength(entries) + 2 <= width
    ensures forall i :: 0 <= i < |FormatLines(entries, margin, width)| ==>
      AlignedAt(FormatLines(entries, margin, width)[i], margin, width)
  {
    if |entries| > 0 {
      var init := entries[..|entries| - 1];
      var last := entries[|entries| - 1];
      assert MaxKeyLength(init) <= MaxKeyLength(entries);
      FormatAligned(init, margin, width);
      var before := FormatLines(init, margin, width);
      var lines := FormatLines(entries, margin, width);
      if !PhpEmpty(last.0) && !PhpEmpty(last.1) {
        var line := FormatLine(margin, last.0, last.1, width);
        FormatLineAligned(margin, last.0, last.1, width);
        assert lines == before + [line];
        AlignedSnoc(before, line, margin, width);
      } else {
        assert lines == before;
      }
    }
  }

  // ---------------------------------------------------------------- replacing

  /**
   * What the old-array pattern matched: the whole matched text and its first group,
   * the bracketed old array.
   */
  datatype ArrayMatch = ArrayMatch(whole: string, group: string)

  /** `str_replace` with any search string: an empty one leaves the subject as it is. */
  function StrReplace(s: string, search: string, replace: string): (r: string)
    ensures !Contains(s, search) ==> r == s
  {
    if search == "" then s else ReplaceAll(s, search, replace)
  }

  // The first block comment in `s` (lazy `.*?`, dot matching newlines), if any.
  function FirstComment(s: string): (r: Option<string>)
    ensures r.Some? ==> StartsWith(r.value, "/*") && |r.value| >= 4 && r.value[|r.value| - 2..] == "*/"
    ensures r.Some? ==> Contains(s, r.value)
  {
    match IndexOf(s, "/*", 0)
    case None => None
    case Some(i) =>
      match IndexOf(s, "*/", i + 2)
      case None => None
      case Some(j) =>
        assert OccursAt(s, s[i..j + 2], i);
        Some(s[i..j + 2])
  }

  /** The new array, with the first comment found in the old array put in front of it. */
  function WithComment(group: string, newArray: string): string {
    match FirstComment(group)
    case Some(c) => "\n" + c + newArray
    case None => newArray
  }

  /** The old array holds something besides whitespace and brackets. */
  predicate HasContents(group: string) {
    TrimChars(group, TrimSet + BracketSet) != ""
  }

  /**
   * `replaceArray` as written: the old contents are the group with EVERY leading `[` and
   * trailing `]` trimmed, so a nested last element loses its closing brackets to the trim.
   */
  function ReplaceArrayAsWritten(file: string, newArray: string, found: Option<ArrayMatch>): (r: string)
    ensures found.None? ==> r == file
  {
    match found
    case None => file
    case Some(m) =>
      var contents := WithComment(m.group, newArray);
      var replacement :=
        if HasContents(m.group) then StrReplace(m.whole, TrimChars(m.group, BracketSet), contents)
        else StrReplace(m.whole, m.group, "[" + contents + "]");
      StrReplace(file, m.whole, replacement)
  }

  /** The group without its own outer bracket pair: at most one `[` and one `]` removed. */
  function Inner(group: string): (r: string)
    ensures |r| <= |group|
    ensures |group| >= 2 && group[0] == '[' && group[|group| - 1] == ']' ==> group == "[" + r + "]"
  {
    var a := if |group| > 0 && group[0] == '[' then group[1..] else group;
    if |a| > 0 && a[|a| - 1] == ']' then a[..|a| - 1] else a
  }

  /** `replaceArray`, with only the outer bracket pair taken off the old contents. */
  function ReplaceArray(file: string, newArray: string, found: Option<ArrayMatch>): (r: string)
    ensures found.None? ==> r == file
  {
    match found
    case None => file
    case Some(m) =>
      var contents := WithComment(m.group, newArray);
      var replacement :=
        if HasContents(m.group) then StrReplace(m.whole, Inner(m.group), contents)
        else StrReplace(m.whole, m.group, "[" + contents + "]");
      StrReplace(file, m.whole, replacement)
  }

  /**
   * When the old array `[inner]` holds something, the new contents take the place of
   * `inner` between the old brackets and nothing else in the file changes, provided the
   * matched text and `inner` each occur first where the pattern found them and not
   * again after.
   */
  lemma {:induction false} ReplaceArrayInPlace(file: string, newArray: string, m: ArrayMatch,
                            before: string, open: string, inner: string, close: string, after: string)
    requires file == before + m.whole + after && m.whole == open + inner + close
    requires m.group == "[" + inner + "]" && HasContents(m.group) && |inner| > 0
    requires IndexOf(file, m.whole, 0) == Some(|before|) && !Contains(after, m.whole)
    requires IndexOf(m.whole, inner, 0) == Some(|open|) && !Contains(close, inner)
    ensures ReplaceArray(file, newArray, Some(m)) == before + (open + WithComment(m.group, newArray) + close) + after
  {
    InnerOfBracketed(inner);
    var contents := WithComment(m.group, newArray);
    ReplaceInContext(open, inner, close, contents);
    ReplaceInContext(before, m.whole, after, open + contents + close);
  }

  lemma {:induction false} InnerOfBracketed(inner: string)
    ensures Inner("[" + inner + "]") == inner
  {
    var g := "[" + inner + "]";
    assert g[1..] == inner + "]";
    assert (inner + "]")[..|inner|] == inner;
  }

  /** `c` does not occur in `s`, so neither does any string starting with it. */
  lemma {:induction false} NotContainsByFirst(s: string, p: string)
    requires |p| > 0 && p[0] !in s
    ensures !Contains(s, p)
  {
    forall j | 0 <= j < |s|
      ensures !OccursAt(s, p, j)
    {
      NotOccursByFirst(s, p, j);
    }
  }

  lemma {:induction false} NotOccursByFirst(s: string, p: string, j: nat)
    requires j < |s| && |p| > 0 && s[j] != p[0]
    ensures !OccursAt(s, p, j)
  {
    if j + |p| <= |s| {
      assert s[j..j + |p|][0] == s[j];
    }
  }

  /** `p` first occurs at `i` in `s`. */
  lemma {:induction false} FirstAt(s: string, p: string, i: nat)
    requires OccursAt(s, p, i) && forall j :: 0 <= j < i ==> !OccursAt(s, p, j)
    ensures IndexOf(s, p, 0) == Some(i)
  {
  }

  /**
   * A nested last element, as in `[[1]]`: the written-as trim takes both closing
   * brackets, so the new contents land inside the stale inner pair, where removing
   * only the outer pair replaces the whole old contents.
   */
  lemma {:induction false} StrayBracket(file: string, newArray: string)
    requires file == "[[1]]" && newArray == "X"
    ensures ReplaceArrayAsWritten(file, newArray, Some(ArrayMatch(file, file))) == "[[X]]"
    ensures ReplaceArray(file, newArray, Some(ArrayMatch(file, file))) == "[X]"
  {
    StrayBracketWritten(file, newArray);
    StrayBracketFixed(file, newArray);
  }

  /** The pieces both versions share on `[[1]]`: no comment, contents present, the trim. */
  lemma {:induction false} StrayBracketNoComment(file: string, newArray: string)
    requires file == "[[1]]"
    ensures WithComment(file, newArray) == newArray
  {
    NotContainsByFirst(file, "/*");
  }

  lemma {:induction false} StrayBracketInner(file: string)
    requires file == "[[1]]"
    ensures Inner(file) == file[1..4]
  {
    var inner := file[1..4];
    InnerOfBracketed(inner);
    assert file == "[" + inner + "]";
  }

  lemma {:induction false} StrayBracketWritten(file: string, newArray: string)
    requires file == "[[1]]" && newArray == "X"
    ensures ReplaceArrayAsWritten(file, newArray, Some(ArrayMatch(file, file))) == "[[X]]"
  {
    StrayBracketNoComment(file, newArray);
    StrayBracketTrim(file);
    WrittenUnfold(file, newArray, ArrayMatch(file, file));
    var w := StrayBracketAsWritten(file, newArray);
    ReplaceSelf(file, w);
  }

  lemma {:induction false} StrayBracketFixed(file: string, newArray: string)
    requires file == "[[1]]" && newArray == "X"
    ensures ReplaceArray(file, newArray, Some(ArrayMatch(file, file))) == "[X]"
  {
    StrayBracketNoComment(file, newArray);
    StrayBracketTrim(file);
    StrayBracketInner(file);
    FixedUnfold(file, newArray, ArrayMatch(file, file));
    var w := StrayBracketCorrected(file, newArray);
    ReplaceSelf(file, w);
  }

  lemma {:induction false} WrittenUnfold(file: string, newArray: string, m: ArrayMatch)
    requires HasContents(m.group)
    ensures ReplaceArrayAsWritten(file, newArray, Some(m))
      == StrReplace(file, m.whole, StrReplace(m.whole, TrimChars(m.group, BracketSet), WithComment(m.group, newArray)))
  {
  }

  lemma {:induction false} FixedUnfold(file: string, newArray: string, m: ArrayMatch)
    requires HasContents(m.group)
    ensures ReplaceArray(file, newArray, Some(m))
      == StrReplace(file, m.whole, StrReplace(m.whole, Inner(m.group), WithComment(m.group, newArray)))
  {
  }

  /** Replacing a whole non-empty text by something gives that something. */
  lemma {:induction false} ReplaceSelf(s: string, w: string)
    requires |s| > 0
    ensures StrReplace(s, s, w) == w
  {
    FirstAt(s, s, 0);
    assert "" + s + "" == s;
    ReplaceInContext("", s, "", w);
    assert "" + w + "" == w;
  }

  lemma {:induction false} StrayBracketAsWritten(file: string, newArray: string) returns (r: string)
    requires file == "[[1]]" && newArray == "X"
    ensures r == StrReplace(file, file[2..3], newArray) && r == "[[X]]"
  {
    var one := file[2..3];
    assert file == file[..2] + one + file[3..];
    NotOccursByFirst(file, one, 0);
    NotOccursByFirst(file, one, 1);
    FirstAt(file, one, 2);
    NotContainsByFirst(file[3..], one);
    ReplaceInContext(file[..2], one, file[3..], newArray);
    r := file[..2] + newArray + file[3..];
  }

  lemma {:induction false} StrayBracketCorrected(file: string, newArray: string) returns (r: string)
    requires file == "[[1]]" && newArray == "X"
    ensures r == StrReplace(file, file[1..4], newArray) && r == "[X]"
  {
    var inner := file[1..4];
    assert file == file[..1] + inner + file[4..];
    assert file[0..3][1] != inner[1];
    FirstAt(file, inner, 1);
    NotContainsByFirst(file[4..], inner);
    ReplaceInContext(file[..1], inner, file[4..], newArray);
    r := file[..1] + newArray + file[4..];
  }

  lemma {:induction false} StrayBracketTrim(file: string)
    requires file == "[[1]]"
    ensures TrimChars(file, BracketSet) == file[2..3]
    ensures HasContents(file)
  {
    TrimOneInBrackets(file, BracketSet);
    TrimOneInBrackets(file, TrimSet + BracketSet);
  }

  lemma {:induction false} TrimOneInBrackets(file: string, cs: set<char>)
    requires file == "[[1]]" && '1' !in cs && '[' in cs && ']' in cs
    ensures TrimChars(file, cs) == file[2..3]
  {
    TrimLeftTwo(file, cs);
    TrimRightTwo(file[2..], cs);
    assert file[2..][..1] == file[2..3];
  }

  lemma {:induction false} TrimLeftTwo(s: string, cs: set<char>)
    requires |s| > 2 && s[0] in cs && s[1] in cs && s[2] !in cs
    ensures TrimLeft(s, cs) == s[2..]
  {
    assert s[1..][1..] == s[2..];
    assert TrimLeft(s[2..], cs) == s[2..];
    assert TrimLeft(s[1..], cs) == s[2..];
  }

  lemma {:induction false} TrimRightTwo(s: string, cs: set<char>)
    requires |s| > 2 && s[|s| - 1] in cs && s[|s| - 2] in cs && s[|s| - 3] !in cs
    ensures TrimRight(s, cs) == s[..|s| - 2]
  {
    var t := s[..|s| - 1];
    assert t[..|t| - 1] == s[..|s| - 2];
    assert TrimRight(s[..|s| - 2], cs) == s[..|s| - 2];
    assert TrimRight(t, cs) == s[..|s| - 2];
  }
}
