/**
 * `ClassModifier`: inserting generated methods into a PHP class body, and testing whether
 * a method of a given name is already declared.
 */
module ClassModifier {
  import opened Wrappers
  import opened PhpString

  /**
   * `appendFunction($classContent, $content)`: the content goes right before the last `}`.
   * The source runs under `strict_types`, so a class text without any `}` makes `substr`
   * reject the `false` offset: that error is `None`.
   */
  function AppendFunction(classContent: string, content: string): (r: Option<string>)
    ensures r.None? <==> '}' !in classContent
    ensures r.Some? ==> |r.value| == |classContent| + |content|
    ensures r.Some? ==>
      var p := LastIndexOfChar(classContent, '}').value;
      r.value[..p] == classContent[..p] && r.value[p..p + |content|] == content
      && r.value[p + |content|..] == classContent[p..]
  {
    match LastIndexOfChar(classContent, '}')
    case None => None
    case Some(p) => Some(classContent[..p] + content + classContent[p..])
  }

  const FunctionKeyword := "function"

  /**
   * The pattern `function\s*<name>\s*\(` matches `s` with `function` at `i`, the name at
   * `j` and the parenthesis at `k`; the name is taken literally.
   */
  predicate FunctionAt(s: string, name: string, i: int, j: int, k: int) {
    0 <= i && i + |FunctionKeyword| <= j && j + |name| <= k < |s|
    && s[i..i + |FunctionKeyword|] == FunctionKeyword
    && AllIn(s[i + |FunctionKeyword|..j], RegexSpace)
    && s[j..j + |name|] == name
    && AllIn(s[j + |name|..k], RegexSpace)
    && s[k] == '('
  }

  /** `functionIsExist($classContent, $functionName)`: the pattern matches somewhere. */
  predicate FunctionIsExist(classContent: string, name: string) {
    exists i, j, k | 0 <= i <= j <= k < |classContent| :: FunctionAt(classContent, name, i, j, k)
  }

  /** Cutting the inserted text out of the result gives the input back. */
  lemma {:induction false} AppendRestores(classContent: string, content: string)
    requires '}' in classContent
    ensures var r := AppendFunction(classContent, content).value;
      var p := LastIndexOfChar(classContent, '}').value;
      r[..p] + r[p + |content|..] == classContent
  {
    var p := LastIndexOfChar(classContent, '}').value;
    assert classContent == classContent[..p] + classContent[p..];
  }

  /** Appending nothing leaves the class as it was. */
  lemma {:induction false} AppendEmpty(classContent: string)
    requires '}' in classContent
    ensures AppendFunction(classContent, "") == Some(classContent)
  {
    var p := LastIndexOfChar(classContent, '}').value;
    assert classContent[..p] + "" + classContent[p..] == classContent;
  }

  /** When the inserted text holds no `}`, the class still closes on the same brace. */
  lemma {:induction false} ClosingBraceKept(classContent: string, content: string)
    requires '}' in classContent && '}' !in content
    ensures var p := LastIndexOfChar(classContent, '}').value;
      LastIndexOfChar(AppendFunction(classContent, content).value, '}') == Some(p + |content|)
  {
    var p := LastIndexOfChar(classContent, '}').value;
    var tail := classContent[p + 1..];
    assert classContent[p..] == ['}'] + tail;
    assert classContent[..p] + content + classContent[p..] == (classContent[..p] + content) + ['}'] + tail;
    LastIndexAfter(classContent[..p] + content, '}', tail);
  }

  /** A declaration inside `t` is still a declaration inside `a + t + b`. */
  lemma {:induction false} FunctionAtShift(a: string, t: string, b: string, name: string, i: int, j: int, k: int)
    requires FunctionAt(t, name, i, j, k)
    ensures FunctionAt(a + t + b, name, |a| + i, |a| + j, |a| + k)
  {
    var s := a + t + b;
    var n := |a|;
    assert s[n + i..n + i + |FunctionKeyword|] == t[i..i + |FunctionKeyword|];
    assert s[n + i + |FunctionKeyword|..n + j] == t[i + |FunctionKeyword|..j];
    assert s[n + j..n + j + |name|] == t[j..j + |name|];
    assert s[n + j + |name|..n + k] == t[j + |name|..k];
  }

  /** A declaration inside `t` is still a declaration inside `t + b`. */
  lemma {:induction false} FunctionAtExtend(t: string, b: string, name: string, i: int, j: int, k: int)
    requires FunctionAt(t, name, i, j, k)
    ensures FunctionAt(t + b, name, i, j, k)
  {
    var s := t + b;
    assert s[i..i + |FunctionKeyword|] == t[i..i + |FunctionKeyword|];
    assert s[i + |FunctionKeyword|..j] == t[i + |FunctionKeyword|..j];
    assert s[j..j + |name|] == t[j..j + |name|];
    assert s[j + |name|..k] == t[j + |name|..k];
  }

  /** After appending a text that declares `name`, the class declares `name`. */
  lemma {:induction false} AppendedFunctionExists(classContent: string, content: string, name: string)
    requires '}' in classContent && FunctionIsExist(content, name)
    ensures FunctionIsExist(AppendFunction(classContent, content).value, name)
  {
    var p := LastIndexOfChar(classContent, '}').value;
    var i, j, k :| 0 <= i <= j <= k < |content| && FunctionAt(content, name, i, j, k);
    FunctionAtShift(classContent[..p], content, classContent[p..], name, i, j, k);
  }

  /** No character of a match is a `}` when the name holds none. */
  lemma {:induction false} NoBraceInMatch(s: string, name: string, i: int, j: int, k: int, q: int)
    requires FunctionAt(s, name, i, j, k) && '}' !in name && i <= q <= k
    ensures s[q] != '}'
  {
    if q < i + |FunctionKeyword| {
      assert s[q] == s[i..i + |FunctionKeyword|][q - i];
    } else if q < j {
      assert s[q] == s[i + |FunctionKeyword|..j][q - i - |FunctionKeyword|];
    } else if q < j + |name| {
      assert s[q] == s[j..j + |name|][q - j];
    } else if q < k {
      assert s[q] == s[j + |name|..k][q - j - |name|];
    }
  }

  /** A match lying inside `s[lo..hi]` is a match of that slice. */
  lemma {:induction false} FunctionAtSlice(s: string, name: string, i: int, j: int, k: int, lo: int, hi: int)
    requires FunctionAt(s, name, i, j, k) && 0 <= lo <= i && k < hi <= |s|
    ensures FunctionAt(s[lo..hi], name, i - lo, j - lo, k - lo)
  {
    var n := |FunctionKeyword|;
    SliceOfSlice(s, lo, hi, i - lo, i - lo + n);
    SliceOfSlice(s, lo, hi, i - lo + n, j - lo);
    SliceOfSlice(s, lo, hi, j - lo, j - lo + |name|);
    SliceOfSlice(s, lo, hi, j - lo + |name|, k - lo);
  }

  /** A match before the insertion point stays where it was. */
  lemma {:induction false} KeptBefore(pre: string, content: string, post: string, name: string, i: int, j: int, k: int)
    requires FunctionAt(pre, name, i, j, k)
    ensures FunctionIsExist(pre + content + post, name)
  {
    FunctionAtExtend(pre, content + post, name, i, j, k);
    assert pre + (content + post) == pre + content + post;
  }

  /** A match after the insertion point moves right by the inserted length. */
  lemma {:induction false} KeptAfter(pre: string, content: string, post: string, name: string, i: int, j: int, k: int)
    requires FunctionAt(post, name, i, j, k)
    ensures FunctionIsExist(pre + content + post, name)
  {
    FunctionAtShift(pre + content, post, "", name, i, j, k);
    assert pre + content + post + "" == pre + content + post;
    var d := |pre + content|;
    assert FunctionAt(pre + content + post, name, d + i, d + j, d + k);
  }

  /** A match ending before the last `}` lies in the part kept in front of the insertion. */
  lemma {:induction false} MatchKeptBefore(classContent: string, content: string, name: string, p: int, i: int, j: int, k: int)
    requires 0 <= p <= |classContent| && FunctionAt(classContent, name, i, j, k) && k < p
    ensures FunctionIsExist(classContent[..p] + content + classContent[p..], name)
  {
    FunctionAtSlice(classContent, name, i, j, k, 0, p);
    assert classContent[0..p] == classContent[..p];
    KeptBefore(classContent[..p], content, classContent[p..], name, i, j, k);
  }

  /** A match starting after the last `}` lies in the part kept behind the insertion. */
  lemma {:induction false} MatchKeptAfter(classContent: string, content: string, name: string, p: int, i: int, j: int, k: int)
    requires 0 <= p <= i && FunctionAt(classContent, name, i, j, k)
    ensures FunctionIsExist(classContent[..p] + content + classContent[p..], name)
  {
    FunctionAtSlice(classContent, name, i, j, k, p, |classContent|);
    assert classContent[p..|classContent|] == classContent[p..];
    KeptAfter(classContent[..p], content, classContent[p..], name, i - p, j - p, k - p);
  }

  /** The match at `i, j, k` of the class text survives the insertion. */
  lemma {:induction false} MatchKept(classContent: string, content: string, name: string, i: int, j: int, k: int)
    requires '}' in classContent && '}' !in name && FunctionAt(classContent, name, i, j, k)
    ensures FunctionIsExist(AppendFunction(classContent, content).value, name)
  {
    var p := LastIndexOfChar(classContent, '}').value;
    assert AppendFunction(classContent, content).value == classContent[..p] + content + classContent[p..];
    if k < p {
      MatchKeptBefore(classContent, content, name, p, i, j, k);
    } else if p < i {
      MatchKeptAfter(classContent, content, name, p, i, j, k);
    } else {
      NoBraceInMatch(classContent, name, i, j, k, p);
      assert false;
    }
  }

  /** A declaration already in the class survives the insertion, when the name holds no `}`. */
  lemma {:induction false} ExistingFunctionKept(classContent: string, content: string, name: string)
    requires '}' in classContent && '}' !in name && FunctionIsExist(classContent, name)
    ensures FunctionIsExist(AppendFunction(classContent, content).value, name)
  {
    var i, j, k :| 0 <= i <= j <= k < |classContent| && FunctionAt(classContent, name, i, j, k);
    MatchKept(classContent, content, name, i, j, k);
  }

  /**
   * The guarded insertion the request generator performs: a validator method is appended
   * only when no method of its name is declared yet.
   */
  function AddFunctionIfAbsent(classContent: string, name: string, content: string): Option<string> {
    if FunctionIsExist(classContent, name) then Some(classContent)
    else AppendFunction(classContent, content)
  }

  /**
   * The guarded insertion is idempotent: once the method text declaring `name` is in, a
   * second run (with any method text) changes nothing.
   */
  lemma {:induction false} AddFunctionIdempotent(classContent: string, name: string, content: string, again: string)
    requires '}' in classContent && '}' !in name && FunctionIsExist(content, name)
    ensures var r := AddFunctionIfAbsent(classContent, name, content);
      r.Some? && AddFunctionIfAbsent(r.value, name, again) == r
  {
    if !FunctionIsExist(classContent, name) {
      AppendedFunctionExists(classContent, content, name);
    }
  }
}
