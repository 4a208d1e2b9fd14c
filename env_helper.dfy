/**
 * `EnvHelper::setEnv`: reading `NAME=value` assignments out of the lines of a `.env` file.
 * The lines are given as they come from `fgets` (each with its newline, if any); opening
 * the file and handing the result to `putenv` are not part of this model.
 */
module EnvHelper {
  import opened Wrappers
  import opened PhpString
  import opened PhpArray

  /** The line's trimmed text starts with `#`. */
  predicate IsComment(line: string) {
    var t := Trim(line);
    |t| > 0 && t[0] == '#'
  }

  /** Comment lines and lines that trim to `""` or `"0"` (PHP's `empty`) are skipped. */
  predicate Skipped(line: string) {
    IsComment(line) || PhpEmpty(Trim(line))
  }

  /** `explode("#", $line, 2)[0]`: the text before the first `#`. */
  function BeforeHash(line: string): (r: string)
    ensures '#' !in r
    ensures StartsWith(line, r)
  {
    match IndexOf(line, "#", 0)
    case None =>
      NoHashBefore(line, |line|);
      assert line[..|line|] == line;
      line
    case Some(i) =>
      NoHashBefore(line, i);
      line[..i]
  }

  /** No `#` before the first place `strpos` finds one. */
  lemma {:induction false} NoHashBefore(line: string, n: nat)
    requires n <= |line| && forall k :: 0 <= k < n ==> !OccursAt(line, "#", k)
    ensures '#' !in line[..n]
  {
    forall k | 0 <= k < n
      ensures line[k] != '#'
    {
      assert !OccursAt(line, "#", k);
      assert line[k..k + 1][0] == line[k];
    }
  }

  /** Where a match of `(\s?)=(\s?)` starts, for an `=` at `p`: one whitespace before it joins it. */
  function MatchStart(t: string, p: nat): (r: nat)
    requires p < |t|
    ensures r <= p && p - r <= 1
  {
    if p > 0 && t[p - 1] in RegexSpace then p - 1 else p
  }

  /** Where a match of `(\s?)=(\s?)` ends, for an `=` at `p`: one whitespace after it joins it. */
  function MatchEnd(t: string, p: nat): (r: nat)
    requires p < |t|
    ensures p < r <= |t| && r - p <= 2
  {
    if p + 1 < |t| && t[p + 1] in RegexSpace then p + 2 else p + 1
  }

  /** The first piece `preg_split('/(\s?)\=(\s?)/', $t)` returns: the text before the first match. */
  function FirstPiece(t: string): string {
    match IndexOf(t, "=", 0)
    case None => t
    case Some(p) => t[..MatchStart(t, p)]
  }

  /** The second piece, if any: the text between the first match and the next one (or the end). */
  function SecondPiece(t: string): Option<string> {
    match IndexOf(t, "=", 0)
    case None => None
    case Some(p) => Some(FirstPiece(t[MatchEnd(t, p)..]))
  }

  /** The name and value one line assigns: both pieces trimmed, `""` for a missing value. */
  function Assignment(line: string): (string, string) {
    var text := BeforeHash(line);
    (Trim(FirstPiece(text)), match SecondPiece(text) case Some(v) => Trim(v) case None => "")
  }

  /** The assignments of the lines that are not skipped, in order. */
  function Assignments(lines: seq<string>): (r: seq<(string, string)>)
    ensures |r| <= |lines|
  {
    if |lines| == 0 then []
    else
      var l := lines[|lines| - 1];
      Assignments(lines[..|lines| - 1]) + if Skipped(l) then [] else [Assignment(l)]
  }

  /** One more line adds its assignment unless it is skipped. */
  lemma {:induction false} AssignmentsSnoc(lines: seq<string>, line: string)
    ensures Assignments(lines + [line]) == Assignments(lines) + if Skipped(line) then [] else [Assignment(line)]
  {
    assert (lines + [line])[..|lines|] == lines;
  }

  /** The variables `setEnv` collects: each assignment in turn, a later one replacing an earlier one. */
  function EnvVars(lines: seq<string>): Entries<string> {
    FromPairs(Assignments(lines))
  }

  /** The `while (($line = fgets($fopen)) !== false)` loop of `setEnv`. */
  method ReadVars(lines: seq<string>) returns (vars: Entries<string>)
    ensures vars == EnvVars(lines)
  {
    vars := [];
    var i := 0;
    assert lines[..0] == [];
    assert vars == EnvVars(lines[..0]);
    while i < |lines|
      invariant 0 <= i <= |lines|
      invariant vars == EnvVars(lines[..i])
    {
      vars := ReadLine(vars, lines[i]);
      ghost var done := lines[..i];
      EnvVarsSnoc(done, lines[i]);
      assert lines[..i + 1] == done + [lines[i]];
      i := i + 1;
    }
    assert lines[..|lines|] == lines;
  }

  /** The variables after reading one more line. */
  function Read(vars: Entries<string>, line: string): Entries<string> {
    if Skipped(line) then vars else Put(vars, Assignment(line).0, Assignment(line).1)
  }

  /** One turn of that loop: a skipped line is passed over, any other assigns its variable. */
  method ReadLine(vars: Entries<string>, line: string) returns (r: Entries<string>)
    ensures r == Read(vars, line)
  {
    if IsComment(line) || PhpEmpty(Trim(line)) {
      return vars;
    }
    var (name, value) := Assignment(line);
    r := Put(vars, name, value);
  }

  /** One more line updates the variables as `ReadLine` does. */
  lemma {:induction false} EnvVarsSnoc(lines: seq<string>, line: string)
    ensures EnvVars(lines + [line]) == Read(EnvVars(lines), line)
  {
    AssignmentsSnoc(lines, line);
    var a := Assignments(lines);
    if Skipped(line) {
      assert a + [] == a;
    } else {
      FromPairsSnoc(a, Assignment(line));
    }
  }

  /** A skipped line (a comment, or blank) changes nothing. */
  lemma {:induction false} SkippedLineIgnored(lines: seq<string>, line: string)
    requires Skipped(line)
    ensures EnvVars(lines + [line]) == EnvVars(lines)
  {
    AssignmentsSnoc(lines, line);
    var a := Assignments(lines);
    assert Assignments(lines + [line]) == a + [];
    assert a + [] == a;
  }

  /**
   * Every name is set once, and a line that is not skipped sets its name to its value,
   * whatever earlier lines said, leaving every other name as it was.
   */
  lemma {:induction false} LaterLineWins(lines: seq<string>, line: string)
    requires !Skipped(line)
    ensures var (name, value) := Assignment(line);
      DistinctKeys(EnvVars(lines + [line]))
      && Get(EnvVars(lines + [line]), name) == Some(value)
      && forall other :: other != name ==> Get(EnvVars(lines + [line]), other) == Get(EnvVars(lines), other)
  {
    var (name, value) := Assignment(line);
    AssignmentsSnoc(lines, line);
    FromPairsSnoc(Assignments(lines), (name, value));
    FromPairsFacts(Assignments(lines));
    PutFacts(EnvVars(lines), name, value);
  }

  /** What follows the first `#` of a line is a comment: the line assigns what the text before it does. */
  lemma {:induction false} InlineCommentDropped(text: string, comment: string)
    requires '#' !in text
    ensures Assignment(text + "#" + comment) == Assignment(text)
  {
    FoundAfter(text, '#', comment);
    assert (text + "#" + comment)[..|text|] == text;
    NotFound(text, '#');
  }

  /** A text without `=` names a variable and gives it the empty value. */
  lemma {:induction false} NoEqualsEmptyValue(line: string)
    requires '#' !in line && '=' !in line
    ensures Assignment(line) == (Trim(line), "")
  {
    NotFound(line, '#');
    NotFound(line, '=');
  }

  /** The text after an `=` less the one whitespace character the pattern takes with it. */
  function AfterMatch(rest: string): string {
    if |rest| > 0 && rest[0] in RegexSpace then rest[1..] else rest
  }

  /** Text appended after a non-empty value, or after an `=`, is kept past the match. */
  lemma {:induction false} AfterMatchExtend(value: string, tail: string)
    requires |value| > 0 || (|tail| > 0 && tail[0] == '=')
    ensures AfterMatch(value + tail) == AfterMatch(value) + tail
    ensures |AfterMatch(value)| > 0 ==> AfterMatch(value)[|AfterMatch(value)| - 1] == value[|value| - 1]
  {
    if |value| > 0 {
      assert (value + tail)[0] == value[0];
      assert (value + tail)[1..] == value[1..] + tail;
    } else {
      assert value + tail == tail;
    }
  }

  /** The two pieces of a text whose first `=` follows `name`. */
  lemma {:induction false} Pieces(name: string, rest: string)
    requires '=' !in name
    ensures FirstPiece(name + "=" + rest)
      == if |name| > 0 && name[|name| - 1] in RegexSpace then name[..|name| - 1] else name
    ensures SecondPiece(name + "=" + rest) == Some(FirstPiece(AfterMatch(rest)))
  {
    var t := name + "=" + rest;
    FoundAfter(name, '=', rest);
    var p := |name|;
    if p > 0 {
      assert t[p - 1] == name[p - 1];
      assert t[..p - 1] == name[..p - 1];
    }
    assert t[..p] == name;
    if |rest| > 0 {
      assert t[p + 1] == rest[0];
    }
    assert t[MatchEnd(t, p)..] == AfterMatch(rest);
  }

  /** A value without `=` that does not end in whitespace is its own first piece, whatever follows. */
  lemma {:induction false} ValuePiece(v: string, more: string)
    requires '=' !in v && (|v| > 0 ==> v[|v| - 1] !in RegexSpace)
    ensures FirstPiece(v + "=" + more) == v && FirstPiece(v) == v
  {
    Pieces(v, more);
    NotFound(v, '=');
  }

  /** The name a text `name=...` assigns: `name` less one trailing whitespace character, trimmed. */
  function NameOf(name: string): string {
    Trim(if |name| > 0 && name[|name| - 1] in RegexSpace then name[..|name| - 1] else name)
  }

  /** What a line `name=rest` without `#` assigns. */
  lemma {:induction false} AssignmentSplit(t: string, name: string, rest: string)
    requires t == name + "=" + rest && '#' !in t && '=' !in name
    ensures Assignment(t) == (NameOf(name), Trim(FirstPiece(AfterMatch(rest))))
  {
    NotFound(t, '#');
    Pieces(name, rest);
  }

  /** The value piece of `value=more` is that of `value` alone, when `value` does not end in whitespace. */
  lemma {:induction false} ValueOfRest(value: string, more: string)
    requires '=' !in value && (|value| > 0 ==> value[|value| - 1] !in RegexSpace)
    ensures FirstPiece(AfterMatch(value + "=" + more)) == FirstPiece(AfterMatch(value))
  {
    var tail := "=" + more;
    assert tail[0] == '=';
    AfterMatchExtend(value, tail);
    assert value + "=" + more == value + tail;
    var v := AfterMatch(value);
    assert '=' !in v;
    ValuePiece(v, more);
    assert v + tail == v + "=" + more;
  }

  /**
   * The text after a second `=` is lost: `NAME=value=more` assigns what `NAME=value` does,
   * when the value does not end in whitespace the pattern would take with that `=`.
   */
  lemma {:induction false} SecondEqualsLost(name: string, value: string, more: string)
    requires '#' !in name && '#' !in value && '#' !in more && '=' !in name && '=' !in value
    requires |value| > 0 ==> value[|value| - 1] !in RegexSpace
    ensures Assignment(name + "=" + value + "=" + more) == Assignment(name + "=" + value)
  {
    var rest := value + "=" + more;
    assert name + "=" + value + "=" + more == name + "=" + rest;
    AssignmentSplit(name + "=" + rest, name, rest);
    AssignmentSplit(name + "=" + value, name, value);
    ValueOfRest(value, more);
  }
}
