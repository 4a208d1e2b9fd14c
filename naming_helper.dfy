/**
 * `NamingHelper`'s title-casing of identifiers: camelCase words are separated by a space
 * before each capital, snake_case words by replacing `_` with a space and capitalising.
 */
module NamingHelper {
  import opened Wrappers
  import opened PhpString

  predicate IsUpper(c: char) {
    'A' <= c <= 'Z'
  }

  /** `ucfirst` on one character: ASCII lower-case letters become upper-case. */
  function UpperChar(c: char): (r: char)
    ensures 'a' <= c <= 'z' ==> 'A' <= r <= 'Z'
    ensures !('a' <= c <= 'z') ==> r == c
  {
    if 'a' <= c <= 'z' then (c as int - 'a' as int + 'A' as int) as char else c
  }

  /** `ucfirst($w)`. */
  function Ucfirst(w: string): (r: string)
    ensures |r| == |w| && (|w| > 0 ==> r[0] == UpperChar(w[0]) && r[1..] == w[1..])
  {
    if |w| == 0 then "" else [UpperChar(w[0])] + w[1..]
  }

  // ---------------------------------------------------------------- camelCase

  /** `t` with a space put before every capital letter. */
  function Spaced(t: string): (r: string)
    ensures |r| > 0 ==> !IsUpper(r[0])
  {
    if |t| == 0 then ""
    else (if IsUpper(t[0]) then " " + [t[0]] else [t[0]]) + Spaced(t[1..])
  }

  /**
   * `camelCaseToTitleCase($s)`: the pattern `(?<!^)([A-Z])` puts a space before every
   * capital letter except one at the very start.
   */
  function CamelCaseToTitleCase(s: string): string {
    if |s| == 0 then "" else [s[0]] + Spaced(s[1..])
  }

  /** The number of capital letters in `t`. */
  function UpperCount(t: string): nat {
    if |t| == 0 then 0 else (if IsUpper(t[0]) then 1 else 0) + UpperCount(t[1..])
  }

  /** Removing every space that comes right before a capital letter. */
  function Unspace(r: string): string {
    if |r| == 0 then ""
    else if |r| >= 2 && r[0] == ' ' && IsUpper(r[1]) then Unspace(r[1..])
    else [r[0]] + Unspace(r[1..])
  }

  lemma {:induction false} SpacedLength(t: string)
    ensures |Spaced(t)| == |t| + UpperCount(t)
  {
    if |t| > 0 {
      SpacedLength(t[1..]);
    }
  }

  lemma {:induction false} SpacedUnspace(t: string)
    ensures Unspace(Spaced(t)) == t
  {
    if |t| > 0 {
      var rest := Spaced(t[1..]);
      SpacedUnspace(t[1..]);
      if IsUpper(t[0]) {
        assert Spaced(t) == " " + ([t[0]] + rest);
        assert Unspace(Spaced(t)) == Unspace([t[0]] + rest);
        assert ([t[0]] + rest)[1..] == rest;
      } else {
        assert Spaced(t) == [t[0]] + rest;
        assert Spaced(t)[1..] == rest;
      }
    }
  }

  /**
   * The title-cased text is one character longer per capital letter after the first
   * position, and dropping the spaces before capitals gives the input back.
   */
  lemma {:induction false} CamelCaseRoundTrip(s: string)
    ensures |s| > 0 ==> |CamelCaseToTitleCase(s)| == |s| + UpperCount(s[1..])
    ensures Unspace(CamelCaseToTitleCase(s)) == s
  {
    if |s| > 0 {
      SpacedLength(s[1..]);
      SpacedUnspace(s[1..]);
      var r := CamelCaseToTitleCase(s);
      assert r[1..] == Spaced(s[1..]);
      assert s == [s[0]] + s[1..];
    }
  }

  // ---------------------------------------------------------------- snake_case

  /** `ucfirst` applied to every word. */
  function UcfirstAll(ws: seq<string>): (r: seq<string>)
    ensures |r| == |ws| && forall i :: 0 <= i < |ws| ==> r[i] == Ucfirst(ws[i])
  {
    seq(|ws|, i requires 0 <= i < |ws| => Ucfirst(ws[i]))
  }

  /** `snakeCaseToTitleCase($s)`: the words between `_`, each capitalised, joined with a space. */
  function SnakeCaseToTitleCase(s: string): string {
    Join(UcfirstAll(Split(s, "_")), " ")
  }

  /**
   * The same text character by character: `_` becomes a space, and a letter at the start or
   * right after `_` is capitalised.
   */
  function TitleCaseSpec(s: string): (r: string)
    ensures |r| == |s|
  {
    seq(|s|, i requires 0 <= i < |s| =>
      if s[i] == '_' then ' ' else if i == 0 || s[i - 1] == '_' then UpperChar(s[i]) else s[i])
  }

  /** The character-by-character title case holds no `_`. */
  lemma {:induction false} TitleCaseNoUnderscore(s: string)
    ensures '_' !in TitleCaseSpec(s)
  {
    var r := TitleCaseSpec(s);
    assert forall k :: 0 <= k < |r| ==> r[k] != '_';
  }

  /** A word without `_` followed by more text: the word is title-cased as by `ucfirst`. */
  lemma {:induction false} TitleWord(w: string, rest: string)
    requires '_' !in w
    ensures TitleCaseSpec(w + "_" + rest) == Ucfirst(w) + " " + TitleCaseSpec(rest)
  {
    var s := w + "_" + rest;
    var a := TitleCaseSpec(s);
    var b := Ucfirst(w) + " " + TitleCaseSpec(rest);
    forall i | 0 <= i < |s|
      ensures a[i] == b[i]
    {
      if i < |w| {
        assert s[i] == w[i];
        if i > 0 {
          assert s[i - 1] == w[i - 1];
          assert Ucfirst(w)[i] == Ucfirst(w)[1..][i - 1] == w[i];
        }
      } else if i > |w| {
        assert s[i] == rest[i - |w| - 1];
        if i > |w| + 1 { assert s[i - 1] == rest[i - |w| - 2]; }
      }
    }
  }

  /** The last word, without `_`, is title-cased as by `ucfirst`. */
  lemma {:induction false} TitleLastWord(w: string)
    requires '_' !in w
    ensures TitleCaseSpec(w) == Ucfirst(w)
  {
    var a := TitleCaseSpec(w);
    if |w| > 0 {
      forall i | 0 < i < |w|
        ensures a[i] == Ucfirst(w)[i]
      {
        assert Ucfirst(w)[i] == Ucfirst(w)[1..][i - 1];
      }
    }
  }

  /** No `_` before the first occurrence `strpos` finds. */
  lemma {:induction false} NoUnderscoreBefore(s: string, i: nat)
    requires i <= |s| && forall j :: 0 <= j < i ==> !OccursAt(s, "_", j)
    ensures '_' !in s[..i]
  {
    forall k | 0 <= k < i ensures s[k] != '_' {
      assert !OccursAt(s, "_", k);
    }
  }

  /** The first word, capitalised, then a space, then the title case of the rest. */
  lemma {:induction false} SnakeCaseFirstWord(s: string, i: nat)
    requires IndexOf(s, "_", 0) == Some(i)
    ensures i < |s| && s == s[..i] + "_" + s[i + 1..]
    ensures SnakeCaseToTitleCase(s) == Ucfirst(s[..i]) + " " + SnakeCaseToTitleCase(s[i + 1..])
  {
    var w, rest := s[..i], s[i + 1..];
    SplitAt(s, "_", i);
    assert s == w + "_" + rest;
    var ws := Split(rest, "_");
    assert UcfirstAll([w] + ws) == [Ucfirst(w)] + UcfirstAll(ws);
    JoinCons(Ucfirst(w), UcfirstAll(ws), " ");
  }

  /** One step of the induction: the first word, a space, the title case of the rest. */
  lemma {:induction false} SnakeCaseStep(s: string, i: nat)
    requires IndexOf(s, "_", 0) == Some(i)
    requires SnakeCaseToTitleCase(s[i + 1..]) == TitleCaseSpec(s[i + 1..])
    ensures SnakeCaseToTitleCase(s) == TitleCaseSpec(s)
  {
    SnakeCaseFirstWord(s, i);
    NoUnderscoreBefore(s, i);
    TitleWord(s[..i], s[i + 1..]);
  }

  /**
   * `snakeCaseToTitleCase` agrees with the character-by-character definition, so its result
   * has the input's length, holds no `_`, and capitalises exactly the word starts.
   */
  lemma {:induction false} SnakeCaseTitle(s: string)
    ensures SnakeCaseToTitleCase(s) == TitleCaseSpec(s)
    ensures |SnakeCaseToTitleCase(s)| == |s| && '_' !in SnakeCaseToTitleCase(s)
    decreases |s|
  {
    match IndexOf(s, "_", 0) {
      case None =>
        NoUnderscoreBefore(s, |s|);
        assert s[..|s|] == s;
        TitleLastWord(s);
      case Some(i) =>
        SnakeCaseTitle(s[i + 1..]);
        SnakeCaseStep(s, i);
    }
    TitleCaseNoUnderscore(s);
  }
}
