/**
 * The timestamp constants of a generated Eloquent model. A table without a `created_at`
 * (or `updated_at`) column gets a `const CREATED_AT = null;` (or `UPDATED_AT`) line. On
 * regeneration the old constant lines are removed, the current ones are written just
 * before the `protected $fillable` line, and every line is written back followed by a
 * newline.
 *
 * The removal patterns are matched line by line: a constant whose `\s` gaps span a line
 * break is not recognised by this model.
 */
module ModelGenerator {
  import opened Wrappers
  import opened PhpString
  import Structure

  /** A tab-indented declaration setting the constant `name` to `null`. */
  function ConstLine(name: string): string {
    "\tconst " + name + " = null;"
  }

  /** The constant line written for a table without a `created_at` column. */
  const CreatedAtLine: string := ConstLine("CREATED_AT")

  /** The constant line written for a table without an `updated_at` column. */
  const UpdatedAtLine: string := ConstLine("UPDATED_AT")

  /** `getTimestampsStatusProperties($table)`: the constant lines the table needs, a blank line apart. */
  function TimestampProperties(useCreatedAt: bool, useUpdatedAt: bool): string {
    var ps := (if !useCreatedAt then [CreatedAtLine] else []) + (if !useUpdatedAt then [UpdatedAtLine] else []);
    if |ps| == 0 then "" else Join(ps, "\n\n")
  }

  // ---------------------------------------------------------------- patterns, line by line

  /** The offset after the run of whitespace (`\s`) starting at `i`. */
  function SkipSpace(s: string, i: nat): (r: nat)
    requires i <= |s|
    ensures i <= r <= |s|
    ensures forall j :: i <= j < r ==> s[j] in RegexSpace
    ensures r < |s| ==> s[r] !in RegexSpace
    decreases |s| - i
  {
    if i < |s| && s[i] in RegexSpace then SkipSpace(s, i + 1) else i
  }

  /** `const\s+<name>\s*=\s*null\s*;` matches at offset `i` of the line. */
  predicate ConstAt(line: string, i: nat, name: string) {
    OccursAt(line, "const", i) && i + 5 < |line| && line[i + 5] in RegexSpace
    && var k := SkipSpace(line, i + 5);
    OccursAt(line, name, k)
    && var m := SkipSpace(line, k + |name|);
    OccursAt(line, "=", m)
    && var n := SkipSpace(line, m + 1);
    OccursAt(line, "null", n)
    && OccursAt(line, ";", SkipSpace(line, n + 4))
  }

  /** The line holds a `const <name> = null;` declaration. */
  predicate Marked(line: string, name: string) {
    exists i :: 0 <= i < |line| && ConstAt(line, i, name)
  }

  /** `preg_match('/^\s*protected\s*\$fillable/', $line)`. */
  predicate Fillable(line: string) {
    var i := SkipSpace(line, 0);
    OccursAt(line, "protected", i) && OccursAt(line, "$fillable", SkipSpace(line, i + 9))
  }

  /**
   * A line-wise removal: a line `marked` picks out that a newline ends is removed with that
   * newline, and with the blank line after it when a newline ends that one too.
   */
  function DropBy(segs: seq<string>, marked: string -> bool): (r: seq<string>)
    ensures |r| <= |segs|
    decreases |segs|
  {
    if |segs| == 0 then []
    else if |segs| > 1 && marked(segs[0]) then
      if |segs| > 2 && segs[1] == "" then DropBy(segs[2..], marked) else DropBy(segs[1..], marked)
    else [segs[0]] + DropBy(segs[1..], marked)
  }

  /** The lines holding `const <name> = null;`. */
  function MarkedBy(name: string): string -> bool {
    line => Marked(line, name)
  }

  /** `preg_replace('/.*const\s+<name>\s*=\s*null\s*;.*\n\n?/', '', ...)` on the lines of a text. */
  function DropMarked(segs: seq<string>, name: string): seq<string> {
    DropBy(segs, MarkedBy(name))
  }

  /** The lines left by the two replacements, `CREATED_AT` first. */
  function Removed(content: string): seq<string> {
    DropMarked(DropMarked(Split(content, "\n"), "CREATED_AT"), "UPDATED_AT")
  }

  /** The text after the two replacements. */
  function Stripped(content: string): string {
    Join(Removed(content), "\n")
  }

  /** What the loop writes for one line: the properties first when it is the fillable line. */
  function Piece(line: string, props: string): string {
    (if Fillable(line) && props != "" then props + "\n\n" else "") + line + "\n"
  }

  /** `Piece` with the properties fixed. */
  function PieceFor(props: string): string -> string {
    line => Piece(line, props)
  }

  /** The texts `piece` gives for the lines, one after another. */
  function Concat(lines: seq<string>, piece: string -> string): string {
    if |lines| == 0 then "" else Concat(lines[..|lines| - 1], piece) + piece(lines[|lines| - 1])
  }

  /** What the loop writes for the lines, in order. */
  function Emit(lines: seq<string>, props: string): string {
    Concat(lines, PieceFor(props))
  }

  /** `updateTimestampsStatusProperties($table, $content)`. */
  function Updated(useCreatedAt: bool, useUpdatedAt: bool, content: string): string {
    Emit(Split(Stripped(content), "\n"), TimestampProperties(useCreatedAt, useUpdatedAt))
  }

  /** `updateTimestampsStatusProperties($table, $content)`: the loop over the lines. */
  method UpdateTimestampsStatusProperties(table: Structure.Table, content: string) returns (newContent: string)
    ensures newContent == Updated(table.useCreatedAt, table.useUpdatedAt, content)
  {
    var lines := Split(Stripped(content), "\n");
    var props := TimestampProperties(table.useCreatedAt, table.useUpdatedAt);
    newContent := "";
    var i := 0;
    while i < |lines|
      invariant 0 <= i <= |lines|
      invariant newContent == Emit(lines[..i], props)
    {
      newContent := newContent + Piece(lines[i], props);
      assert lines[..i + 1][..i] == lines[..i];
      i := i + 1;
    }
    assert lines[..|lines|] == lines;
  }

  // ---------------------------------------------------------------- the properties

  /** The two constant lines differ, and neither holds the other. */
  lemma {:induction false} DistinctConstLines()
    ensures !Contains(CreatedAtLine, UpdatedAtLine) && !Contains(UpdatedAtLine, CreatedAtLine)
    ensures !Contains("", CreatedAtLine) && !Contains("", UpdatedAtLine)
  {
    assert CreatedAtLine[8] != UpdatedAtLine[8];
    forall j | 0 <= j
      ensures !OccursAt(CreatedAtLine, UpdatedAtLine, j) && !OccursAt(UpdatedAtLine, CreatedAtLine, j)
    {
      if j == 0 {
        assert CreatedAtLine[..|UpdatedAtLine|] == CreatedAtLine;
        assert UpdatedAtLine[..|CreatedAtLine|] == UpdatedAtLine;
      }
    }
  }

  /**
   * The properties hold the `CREATED_AT` line exactly when the table has no `created_at`
   * column, the `UPDATED_AT` line exactly when it has no `updated_at` column, and are empty
   * exactly when it has both.
   */
  lemma {:induction false} PropertiesContents(useCreatedAt: bool, useUpdatedAt: bool)
    ensures var props := TimestampProperties(useCreatedAt, useUpdatedAt);
      (props == "" <==> useCreatedAt && useUpdatedAt)
      && (Contains(props, CreatedAtLine) <==> !useCreatedAt)
      && (Contains(props, UpdatedAtLine) <==> !useUpdatedAt)
  {
    DistinctConstLines();
    var props := TimestampProperties(useCreatedAt, useUpdatedAt);
    if !useCreatedAt && !useUpdatedAt {
      BothConstants();
    } else if !useCreatedAt {
      assert props == CreatedAtLine;
      ContainsAt(props, CreatedAtLine, 0);
    } else if !useUpdatedAt {
      assert props == UpdatedAtLine;
      ContainsAt(props, UpdatedAtLine, 0);
    }
  }

  /** A table with neither timestamp gets both lines, a blank line apart. */
  lemma {:induction false} BothConstants()
    ensures TimestampProperties(false, false) == CreatedAtLine + "\n\n" + UpdatedAtLine
    ensures Contains(TimestampProperties(false, false), CreatedAtLine)
    ensures Contains(TimestampProperties(false, false), UpdatedAtLine)
  {
    var props := CreatedAtLine + "\n\n" + UpdatedAtLine;
    JoinCons(CreatedAtLine, [UpdatedAtLine], "\n\n");
    assert [CreatedAtLine] + [UpdatedAtLine] == [CreatedAtLine, UpdatedAtLine];
    var n := |CreatedAtLine| + 2;
    assert props[..|CreatedAtLine|] == CreatedAtLine;
    assert props[n..n + |UpdatedAtLine|] == UpdatedAtLine;
    ContainsAt(props, CreatedAtLine, 0);
    ContainsAt(props, UpdatedAtLine, n);
  }

  /** A line `\tconst <name> = null;` declares the constant, for a name that starts and ends with a letter. */
  lemma {:induction false} ConstLineMarked(name: string)
    requires |name| > 0 && name[0] !in RegexSpace && name[|name| - 1] !in RegexSpace
    ensures Marked(ConstLine(name), name)
  {
    var line := ConstLine(name);
    var e := 7 + |name|;
    ConstLineLayout(name);
    assert SkipSpace(line, 6) == 7;
    assert SkipSpace(line, e) == e + 1;
    assert SkipSpace(line, e + 2) == e + 3;
    assert SkipSpace(line, e + 7) == e + 7;
    assert ConstAt(line, 1, name);
  }

  /** Where the parts of a constant line sit. */
  lemma {:induction false} ConstLineLayout(name: string)
    ensures var line := ConstLine(name);
      var e := 7 + |name|;
      |line| == e + 8 && line[1..6] == "const" && line[6] == ' ' && line[7..e] == name
      && line[e] == ' ' && line[e + 1..e + 2] == "=" && line[e + 2] == ' '
      && line[e + 3] == 'n' && line[e + 3..e + 7] == "null" && line[e + 7..e + 8] == ";"
  {
    var pre, post := "\tconst ", " = null;";
    var line := pre + name + post;
    var e := 7 + |name|;
    assert line[..7] == pre && line[7..e] == name && line[e..] == post;
    assert line[1..6] == pre[1..6] == "const";
    assert line[6] == pre[6];
    assert line[e + 1..e + 2] == post[1..2] == "=";
    assert line[e + 3..e + 7] == post[3..7] == "null";
    assert line[e + 7] == post[7];
    assert line[e + 7..e + 8] == ";";
  }

  /** The lines the generator writes are the lines the removal recognises. */
  lemma {:induction false} GeneratedLinesMarked()
    ensures Marked(CreatedAtLine, "CREATED_AT") && Marked(UpdatedAtLine, "UPDATED_AT")
  {
    CreatedAtLineMarked();
    UpdatedAtLineMarked();
  }

  lemma {:induction false} CreatedAtLineMarked()
    ensures Marked(CreatedAtLine, "CREATED_AT")
  {
    var c := "CREATED_AT";
    assert c[0] == 'C' && c[|c| - 1] == 'T';
    ConstLineMarked(c);
  }

  lemma {:induction false} UpdatedAtLineMarked()
    ensures Marked(UpdatedAtLine, "UPDATED_AT")
  {
    var u := "UPDATED_AT";
    assert u[0] == 'U' && u[|u| - 1] == 'T';
    ConstLineMarked(u);
  }

  /** A text with no marked line before its last is left as it is by one removal. */
  lemma {:induction false} DropUnmarked(segs: seq<string>, marked: string -> bool)
    requires forall k :: 0 <= k < |segs| - 1 ==> !marked(segs[k])
    ensures DropBy(segs, marked) == segs
    decreases |segs|
  {
    if |segs| > 0 {
      DropUnmarked(segs[1..], marked);
      assert segs == [segs[0]] + segs[1..];
    }
  }

  /** After one removal no line but the last is marked. */
  lemma {:induction false} DropClean(segs: seq<string>, marked: string -> bool)
    ensures forall k :: 0 <= k < |DropBy(segs, marked)| - 1 ==> !marked(DropBy(segs, marked)[k])
    decreases |segs|
  {
    if |segs| > 1 && marked(segs[0]) {
      if |segs| > 2 && segs[1] == "" {
        DropClean(segs[2..], marked);
        assert DropBy(segs, marked) == DropBy(segs[2..], marked);
      } else {
        DropClean(segs[1..], marked);
        assert DropBy(segs, marked) == DropBy(segs[1..], marked);
      }
    } else if |segs| > 0 {
      DropClean(segs[1..], marked);
      var rt := DropBy(segs[1..], marked);
      assert DropBy(segs, marked) == [segs[0]] + rt;
    }
  }

  /**
   * A removal keeps the last line, and every other line it keeps is one of the lines
   * before the last.
   */
  lemma {:induction false} DropKeepsLast(segs: seq<string>, marked: string -> bool)
    requires |segs| > 0
    ensures |DropBy(segs, marked)| > 0
    ensures DropBy(segs, marked)[|DropBy(segs, marked)| - 1] == segs[|segs| - 1]
    ensures forall k :: 0 <= k < |DropBy(segs, marked)| - 1 ==> DropBy(segs, marked)[k] in segs[..|segs| - 1]
    decreases |segs|
  {
    if |segs| > 1 {
      if marked(segs[0]) {
        var skip := if |segs| > 2 && segs[1] == "" then 2 else 1;
        DropSkipped(segs, marked, skip);
      } else {
        DropKept(segs, marked);
      }
    }
  }

  /** `DropKeepsLast` when the first line is removed with the `skip - 1` lines after it. */
  lemma {:induction false} DropSkipped(segs: seq<string>, marked: string -> bool, skip: nat)
    requires |segs| > 1 && marked(segs[0])
    requires skip == if |segs| > 2 && segs[1] == "" then 2 else 1
    ensures |DropBy(segs, marked)| > 0
    ensures DropBy(segs, marked)[|DropBy(segs, marked)| - 1] == segs[|segs| - 1]
    ensures forall k :: 0 <= k < |DropBy(segs, marked)| - 1 ==> DropBy(segs, marked)[k] in segs[..|segs| - 1]
    decreases |segs|, 0
  {
    var tail := segs[skip..];
    assert DropBy(segs, marked) == DropBy(tail, marked);
    DropKeepsLast(tail, marked);
    var r := DropBy(tail, marked);
    forall k | 0 <= k < |r| - 1
      ensures r[k] in segs[..|segs| - 1]
    {
      var j :| 0 <= j < |tail| - 1 && tail[j] == r[k];
      assert segs[..|segs| - 1][j + skip] == r[k];
    }
  }

  /** `DropKeepsLast` when the first line stays. */
  lemma {:induction false} DropKept(segs: seq<string>, marked: string -> bool)
    requires |segs| > 1 && !marked(segs[0])
    ensures |DropBy(segs, marked)| > 0
    ensures DropBy(segs, marked)[|DropBy(segs, marked)| - 1] == segs[|segs| - 1]
    ensures forall k :: 0 <= k < |DropBy(segs, marked)| - 1 ==> DropBy(segs, marked)[k] in segs[..|segs| - 1]
    decreases |segs|, 0
  {
    var tail := segs[1..];
    var rt := DropBy(tail, marked);
    assert DropBy(segs, marked) == [segs[0]] + rt;
    DropKeepsLast(tail, marked);
    forall k | 0 <= k < |rt| - 1
      ensures rt[k] in segs[..|segs| - 1]
    {
      var j :| 0 <= j < |tail| - 1 && tail[j] == rt[k];
      assert segs[..|segs| - 1][j + 1] == rt[k];
    }
  }

  /** A line that is neither blank nor either constant. */
  predicate Plain(line: string) {
    line != "" && !Marked(line, "CREATED_AT") && !Marked(line, "UPDATED_AT")
  }

  /** The plain lines, in order. */
  function PlainLines(segs: seq<string>): seq<string> {
    if |segs| == 0 then [] else (if Plain(segs[0]) then [segs[0]] else []) + PlainLines(segs[1..])
  }

  /** A removal of lines that are never plain keeps the plain lines, in order. */
  lemma {:induction false} DropKeepsPlain(segs: seq<string>, marked: string -> bool)
    requires forall line :: marked(line) ==> !Plain(line)
    ensures PlainLines(DropBy(segs, marked)) == PlainLines(segs)
    decreases |segs|
  {
    if |segs| > 1 && marked(segs[0]) {
      if |segs| > 2 && segs[1] == "" {
        DropKeepsPlain(segs[2..], marked);
        assert DropBy(segs, marked) == DropBy(segs[2..], marked);
        assert segs[1..][1..] == segs[2..];
      } else {
        DropKeepsPlain(segs[1..], marked);
        assert DropBy(segs, marked) == DropBy(segs[1..], marked);
      }
    } else if |segs| > 0 {
      DropKeepsPlain(segs[1..], marked);
      var rt := DropBy(segs[1..], marked);
      assert DropBy(segs, marked) == [segs[0]] + rt;
      assert ([segs[0]] + rt)[1..] == rt;
    }
  }

  /** Only the blank line and the two constant lines are ever removed. */
  lemma {:induction false} ConstantsNotPlain(name: string)
    requires name == "CREATED_AT" || name == "UPDATED_AT"
    ensures forall line :: MarkedBy(name)(line) ==> !Plain(line)
  {
  }

  /** No line before the last holds either constant. */
  predicate NoConstantLines(segs: seq<string>) {
    forall k :: 0 <= k < |segs| - 1 ==> !Marked(segs[k], "CREATED_AT") && !Marked(segs[k], "UPDATED_AT")
  }

  /**
   * After both removals no line but the last holds either constant, the last line is
   * kept, and the plain lines are all still there in order.
   */
  lemma {:induction false} RemovedLines(content: string)
    ensures |Removed(content)| > 0
    ensures Removed(content)[|Removed(content)| - 1] == Split(content, "\n")[|Split(content, "\n")| - 1]
    ensures NoConstantLines(Removed(content))
    ensures PlainLines(Removed(content)) == PlainLines(Split(content, "\n"))
  {
    TwoPasses(Split(content, "\n"));
  }

  /** `RemovedLines` for any non-empty list of lines. */
  lemma {:induction false} TwoPasses(segs: seq<string>)
    requires |segs| > 0
    ensures var r := DropMarked(DropMarked(segs, "CREATED_AT"), "UPDATED_AT");
      |r| > 0 && r[|r| - 1] == segs[|segs| - 1] && NoConstantLines(r) && PlainLines(r) == PlainLines(segs)
  {
    var c := MarkedBy("CREATED_AT");
    var u := MarkedBy("UPDATED_AT");
    var r1 := DropBy(segs, c);
    var r := DropBy(r1, u);
    DropKeepsLast(segs, c);
    DropKeepsLast(r1, u);
    DropClean(segs, c);
    DropClean(r1, u);
    BothClean(r1, r);
    ConstantsNotPlain("CREATED_AT");
    ConstantsNotPlain("UPDATED_AT");
    DropKeepsPlain(segs, c);
    DropKeepsPlain(r1, u);
  }

  /** Lines kept from the first pass's lines before its last, and clean of the second constant, are clean of both. */
  lemma {:induction false} BothClean(r1: seq<string>, r: seq<string>)
    requires |r1| > 0
    requires forall k :: 0 <= k < |r1| - 1 ==> !MarkedBy("CREATED_AT")(r1[k])
    requires forall k :: 0 <= k < |r| - 1 ==> !MarkedBy("UPDATED_AT")(r[k])
    requires forall k :: 0 <= k < |r| - 1 ==> r[k] in r1[..|r1| - 1]
    ensures NoConstantLines(r)
  {
    forall k | 0 <= k < |r| - 1
      ensures !Marked(r[k], "CREATED_AT") && !Marked(r[k], "UPDATED_AT")
    {
      assert !MarkedBy("UPDATED_AT")(r[k]);
      var j :| 0 <= j < |r1| - 1 && r1[j] == r[k];
      assert !MarkedBy("CREATED_AT")(r1[j]);
    }
  }

  /** The texts for two runs of lines are the texts for each, one after the other. */
  lemma {:induction false} ConcatAppend(a: seq<string>, b: seq<string>, piece: string -> string)
    ensures Concat(a + b, piece) == Concat(a, piece) + Concat(b, piece)
    decreases |b|
  {
    if |b| == 0 {
      assert a + b == a;
    } else {
      var b' := b[..|b| - 1];
      assert (a + b)[..|a + b| - 1] == a + b';
      assert (a + b)[|a + b| - 1] == b[|b| - 1];
      ConcatAppend(a, b', piece);
    }
  }

  /** The loop's output for two runs of lines is the output for each, one after the other. */
  lemma {:induction false} EmitAppend(a: seq<string>, b: seq<string>, props: string)
    ensures Emit(a + b, props) == Emit(a, props) + Emit(b, props)
  {
    ConcatAppend(a, b, PieceFor(props));
  }

  /** The properties and a blank line go right before the fillable line; the rest is written around them. */
  lemma {:induction false} InsertedBeforeFillable(lines: seq<string>, props: string, k: nat)
    requires k < |lines| && Fillable(lines[k]) && props != ""
    ensures Emit(lines, props)
      == Emit(lines[..k], props) + props + "\n\n" + lines[k] + "\n" + Emit(lines[k + 1..], props)
  {
    assert lines == lines[..k] + [lines[k]] + lines[k + 1..];
    EmitAppend(lines[..k] + [lines[k]], lines[k + 1..], props);
    EmitAppend(lines[..k], [lines[k]], props);
    assert [lines[k]][..0] == [];
  }

  /** Without properties to write, or without a fillable line, each line is written back with a newline. */
  lemma {:induction false} EmitPlain(lines: seq<string>, props: string)
    requires |lines| > 0
    requires props == "" || forall k :: 0 <= k < |lines| ==> !Fillable(lines[k])
    ensures Emit(lines, props) == Join(lines, "\n") + "\n"
  {
    var init := lines[..|lines| - 1];
    var last := lines[|lines| - 1];
    assert Emit(lines, props) == Emit(init, props) + Piece(last, props);
    assert Piece(last, props) == last + "\n";
    if |init| > 0 {
      EmitPlain(init, props);
      JoinSnoc(init, lines[|lines| - 1], "\n");
      assert init + [lines[|lines| - 1]] == lines;
    }
  }

  /**
   * A text with no timestamp constant line, and either no fillable line or nothing to write,
   * comes back with one more newline at the end: the update is not idempotent.
   */
  lemma {:induction false} OnlyNewlineAdded(useCreatedAt: bool, useUpdatedAt: bool, content: string)
    requires NoConstantLines(Split(content, "\n"))
    requires TimestampProperties(useCreatedAt, useUpdatedAt) == ""
      || forall k :: 0 <= k < |Split(content, "\n")| ==> !Fillable(Split(content, "\n")[k])
    ensures Updated(useCreatedAt, useUpdatedAt, content) == content + "\n"
  {
    var segs := Split(content, "\n");
    DropUnmarked(segs, MarkedBy("CREATED_AT"));
    DropUnmarked(segs, MarkedBy("UPDATED_AT"));
    assert Removed(content) == segs;
    JoinSplit(content, "\n");
    EmitPlain(segs, TimestampProperties(useCreatedAt, useUpdatedAt));
  }

  /** For a table with both timestamps, `x` becomes `x\n` and then `x\n\n`. */
  lemma {:induction false} NotIdempotent()
    ensures Updated(true, true, "x") == "x\n"
    ensures Updated(true, true, "x\n") == "x\n\n"
  {
    FirstRun();
    SecondRun();
  }

  lemma {:induction false} FirstRun()
    ensures Updated(true, true, "x") == "x\n"
  {
    NotFound("x", '\n');
    assert Split("x", "\n") == ["x"];
    OnlyNewlineAdded(true, true, "x");
  }

  lemma {:induction false} SecondRun()
    ensures Updated(true, true, "x\n") == "x\n\n"
  {
    FoundAfter("x", '\n', "");
    assert "x" + "\n" + "" == "x\n";
    assert "x\n"[2..] == "" && "x\n"[..1] == "x";
    assert Split("", "\n") == [""];
    assert Split("x\n", "\n") == ["x", ""];
    OnlyNewlineAdded(true, true, "x\n");
  }
}
