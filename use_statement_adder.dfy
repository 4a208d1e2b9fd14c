/**
 * `UseStatementAdder::add`: adding a `use` import to a PHP file unless the imported name
 * already occurs in it. The import goes before the first `use `, else after the
 * `namespace` declaration's `;`, else after the opening `<?php` tag.
 */
module UseStatementAdder {
  import opened Wrappers
  import opened PhpString

  /** The text `$s` with `t` inserted at offset `i` (`substr_replace($s, $t, $i, 0)`). */
  function InsertAt(s: string, t: string, i: nat): (r: string)
    requires i <= |s|
    ensures |r| == |s| + |t| && r[..i] == s[..i] && r[i..i + |t|] == t && r[i + |t|..] == s[i..]
  {
    s[..i] + t + s[i..]
  }

  /** No occurrence of `p` in `s` starts before `i`. */
  predicate NoneBefore(s: string, p: string, i: int) {
    forall j :: 0 <= j < i ==> !OccursAt(s, p, j)
  }

  /** The offset right behind the first `;` at or after `n` (`strpos($s, ';', $n) + 1`). */
  function AfterSemicolon(s: string, n: nat): (r: Option<nat>)
    requires n <= |s|
    ensures r.None? <==> ';' !in s[n..]
    ensures r.Some? ==> n < r.value <= |s| && s[r.value - 1] == ';' && ';' !in s[n..r.value - 1]
  {
    match IndexOf(s, ";", n)
    case Some(k) =>
      assert ';' !in s[n..k] by {
        forall x | n <= x < k ensures s[x] != ';' {
          assert !OccursAt(s, ";", x);
        }
      }
      assert s[k] == s[k..k + 1][0];
      Some(k + 1)
    case None =>
      assert ';' !in s[n..] by {
        forall x | n <= x < |s| ensures s[x] != ';' {
          assert !OccursAt(s, ";", x);
        }
      }
      None
  }

  /**
   * Where the import goes and what precedes it: right at the first `use ` with nothing
   * before it; otherwise after a blank line, either behind the first `;` at or after the
   * first `namespace` or behind the first `<?php`. `None` when the chosen anchor is missing.
   */
  function InsertionPoint(s: string): (r: Option<(nat, string)>)
    ensures r.Some? ==> r.value.0 <= |s|
  {
    match IndexOf(s, "use ", 0)
    case Some(i) => Some((i, ""))
    case None =>
      match IndexOf(s, "namespace", 0)
      case Some(n) =>
        (match AfterSemicolon(s, n)
         case Some(k) => Some((k, "\n\n"))
         case None => None)
      case None =>
        match IndexOf(s, "<?php", 0)
        case Some(q) => Some((q + 5, "\n\n"))
        case None => None
  }

  /**
   * Where the import goes: at the first `use ` with nothing before it; else behind the first
   * `;` after the first `namespace`; else behind the first `<?php`.
   */
  lemma {:induction false} InsertionPointChoice(s: string)
    ensures Contains(s, "use ") ==>
      var r := InsertionPoint(s);
      r.Some? && r.value.1 == "" && OccursAt(s, "use ", r.value.0) && NoneBefore(s, "use ", r.value.0)
    ensures !Contains(s, "use ") && Contains(s, "namespace") ==>
      var r := InsertionPoint(s);
      var n := IndexOf(s, "namespace", 0).value;
      NoneBefore(s, "namespace", n) && OccursAt(s, "namespace", n)
      && (r.None? <==> ';' !in s[n..])
      && (r.Some? ==> r.value.1 == "\n\n" && n < r.value.0 && s[r.value.0 - 1] == ';'
                      && ';' !in s[n..r.value.0 - 1])
    ensures !Contains(s, "use ") && !Contains(s, "namespace") ==>
      var r := InsertionPoint(s);
      (r.None? <==> !Contains(s, "<?php"))
      && (r.Some? ==> r.value.1 == "\n\n" && OccursAt(s, "<?php", r.value.0 - 5)
                      && NoneBefore(s, "<?php", r.value.0 - 5))
  {
  }

  /** The statement line written for the fully qualified name `fqn`. */
  function Statement(fqn: string): string {
    "use " + fqn + ";\n"
  }

  /**
   * `add($s, $fqn)`: the file unchanged when the trimmed name already occurs in it (an
   * empty name always occurs) or no anchor is found; otherwise the statement inserted at
   * the insertion point.
   */
  function Add(s: string, fqn: string): (r: string)
    ensures Contains(s, Trim(fqn)) || InsertionPoint(s).None? ==> r == s
    ensures !Contains(s, Trim(fqn)) && InsertionPoint(s).Some? ==>
      var (i, before) := InsertionPoint(s).value;
      var t := before + Statement(fqn);
      |r| == |s| + |t| && r[..i] == s[..i] && r[i..i + |t|] == t && r[i + |t|..] == s[i..]
  {
    if Contains(s, Trim(fqn)) then s
    else
      match InsertionPoint(s)
      case None => s
      case Some((i, before)) => InsertAt(s, before + Statement(fqn), i)
  }

  /** When an import is inserted, cutting it out again gives the file back. */
  lemma AddRestores(s: string, fqn: string)
    requires !Contains(s, Trim(fqn)) && InsertionPoint(s).Some?
    ensures var (i, before) := InsertionPoint(s).value;
      var t := before + Statement(fqn);
      var r := Add(s, fqn);
      r[..i] + r[i + |t|..] == s
  {
    var (i, before) := InsertionPoint(s).value;
    assert s == s[..i] + s[i..];
  }

  /** `trim` takes out a slice of its argument, starting at `a`. */
  lemma TrimIsSlice(s: string) returns (a: nat)
    ensures a + |Trim(s)| <= |s| && s[a..a + |Trim(s)|] == Trim(s)
  {
    var l := TrimLeft(s, TrimSet);
    a := |s| - |l|;
    assert l == s[a..];
    assert Trim(s) == l[..|Trim(s)|];
  }

  /** The statement holds the name it imports, trimmed, at offset `4 + a`. */
  lemma {:induction false} StatementHoldsName(before: string, fqn: string) returns (at: nat)
    ensures var t := before + Statement(fqn);
      at + |Trim(fqn)| <= |t| && t[at..at + |Trim(fqn)|] == Trim(fqn)
  {
    var a := TrimIsSlice(fqn);
    var n := |Trim(fqn)|;
    var head := before + "use ";
    var t := before + Statement(fqn);
    assert t == head + fqn + ";\n";
    at := |head| + a;
    SliceInside(head, fqn, ";\n", a, a + n);
  }

  /** A slice of the middle of a concatenation is the slice of the middle part. */
  lemma SliceInside(x: string, y: string, z: string, lo: nat, hi: nat)
    requires lo <= hi <= |y|
    ensures (x + y + z)[|x| + lo..|x| + hi] == y[lo..hi]
  {
    assert forall k :: |x| + lo <= k < |x| + hi ==> (x + y + z)[k] == y[k - |x|];
  }

  /** After an insertion the file holds the name, trimmed. */
  lemma {:induction false} AddedContainsName(s: string, fqn: string)
    requires !Contains(s, Trim(fqn)) && InsertionPoint(s).Some?
    ensures Contains(Add(s, fqn), Trim(fqn))
  {
    var (i, before) := InsertionPoint(s).value;
    var t := before + Statement(fqn);
    assert Add(s, fqn) == InsertAt(s, t, i);
    var at := StatementHoldsName(before, fqn);
    InsertedContains(s, t, i, at, Trim(fqn));
  }

  /** Text found inside an inserted piece is found in the result. */
  lemma {:induction false} InsertedContains(s: string, t: string, i: nat, at: nat, p: string)
    requires i <= |s| && at + |p| <= |t| && t[at..at + |p|] == p
    ensures Contains(InsertAt(s, t, i), p)
  {
    var r := InsertAt(s, t, i);
    SliceOfSlice(r, i, i + |t|, at, at + |p|);
    ContainsAt(r, p, i + at);
  }

  /** Adding the same import twice gives the same file as adding it once. */
  lemma AddIdempotent(s: string, fqn: string)
    ensures Add(Add(s, fqn), fqn) == Add(s, fqn)
  {
    if !Contains(s, Trim(fqn)) && InsertionPoint(s).Some? {
      AddedContainsName(s, fqn);
    }
  }
}
