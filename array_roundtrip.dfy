/**
 * Reading back what was written: array text laid out as `'key' => value` entries, with
 * any whitespace around the parts, is read by `ParseText` into exactly those entries,
 * and so is the text `formatKeyValuePairs` writes for them.
 */
module ArrayRoundTrip {
  import opened Wrappers
  import opened PhpString
  import opened PhpArray
  import opened ArrayHelper

  /** One entry as it sits in source text: `lead 'key' gap => pad value tail`. */
  datatype Laid = Laid(lead: string, key: string, gap: string, pad: string, value: string, tail: string)

  function Quoted(k: string): string {
    "'" + k + "'"
  }

  /** The text before an entry's arrow. */
  function Head(e: Laid): string {
    e.lead + Quoted(e.key) + e.gap
  }

  /** The text after an entry's arrow. */
  function Body(e: Laid): string {
    e.pad + e.value + e.tail
  }

  /** The entries one after another, each as head, arrow, body. */
  function Text(es: seq<Laid>): string {
    if |es| == 0 then "" else Text(es[..|es| - 1]) + (Head(es[|es| - 1]) + Arrow + Body(es[|es| - 1]))
  }

  /** The entries as an array: each key with its value. */
  function EntriesOf(es: seq<Laid>): (r: Entries<string>)
    ensures |r| == |es| && forall i :: 0 <= i < |es| ==> r[i] == (es[i].key, es[i].value)
  {
    seq(|es|, i requires 0 <= i < |es| => (es[i].key, es[i].value))
  }

  /** The characters that may surround a quoted key's content without being part of it. */
  const Filler: set<char> := TrimSet + {'\''}

  /** A key the reader can recognise: quoted with single quotes it holds no quote, bracket, arrow or marker. */
  predicate PlainKey(k: string) {
    && |k| > 0 && k[0] != '"' && k[|k| - 1] != '"'
    && '\'' !in k && '[' !in k && ']' !in k
    && !Contains(k, Arrow) && !Contains(k, Marker)
  }

  /**
   * A value the reader can recognise: trimmed, ending with a comma, with no arrow or marker,
   * and holding `]` exactly when it holds `[` (a one-line nested array, or none).
   */
  predicate PlainValue(v: string) {
    && |v| > 0 && v[0] !in TrimSet && v[|v| - 1] == ','
    && !Contains(v, Arrow) && !Contains(v, Marker)
    && ('[' in v <==> ']' in v)
  }

  predicate PlainLaid(e: Laid) {
    && PlainKey(e.key) && PlainValue(e.value)
    && AllIn(e.lead, TrimSet) && AllIn(e.gap, TrimSet) && AllIn(e.pad, TrimSet) && AllIn(e.tail, TrimSet)
  }

  /** Text the reader can recognise: plain entries with distinct keys. */
  predicate Readable(es: seq<Laid>) {
    (forall i :: 0 <= i < |es| ==> PlainLaid(es[i])) && DistinctKeys(EntriesOf(es))
  }

  // ---------------------------------------------------------------- pieces between arrows

  /**
   * The pieces `explode('=>', Text(es))` yields: the first head, then each body followed by
   * the next head, then the last body. One more entry extends the last piece by its head
   * and adds its body.
   */
  function Parts(es: seq<Laid>): (r: seq<string>)
    ensures |r| == |es| + 1
  {
    if |es| == 0 then [""]
    else
      var p := Parts(es[..|es| - 1]);
      p[..|es| - 1] + [p[|es| - 1] + Head(es[|es| - 1])] + [Body(es[|es| - 1])]
  }

  /** Joining after extending the last part and adding one more. */
  lemma {:induction false} JoinExtendSnoc(ps: seq<string>, x: string, y: string, sep: string)
    requires |ps| >= 1
    ensures Join(ps[..|ps| - 1] + [ps[|ps| - 1] + x] + [y], sep) == Join(ps, sep) + x + sep + y
  {
    var m := |ps|;
    var q := ps[..m - 1] + [ps[m - 1] + x];
    JoinSnoc(q, y, sep);
    if m > 1 {
      var init := ps[..m - 1];
      JoinSnoc(init, ps[m - 1] + x, sep);
      JoinSnoc(init, ps[m - 1], sep);
      assert init + [ps[m - 1]] == ps;
    }
  }

  lemma {:induction false} TextParts(es: seq<Laid>)
    ensures Text(es) == Join(Parts(es), Arrow)
  {
    if |es| > 0 {
      var n := |es|;
      var e := es[n - 1];
      var p := Parts(es[..n - 1]);
      var h, b := Head(e), Body(e);
      TextParts(es[..n - 1]);
      JoinExtendSnoc(p, h, b, Arrow);
      assert Join(Parts(es), Arrow) == Join(p, Arrow) + h + Arrow + b;
      Associate(Join(p, Arrow), h, Arrow, b);
    }
  }

  lemma {:induction false} Associate(t: string, h: string, a: string, b: string)
    ensures t + (h + a + b) == t + h + a + b
  {
  }

  // ---------------------------------------------------------------- no delimiter inside a piece

  /** Neither delimiter has a character of the filler, and neither overlaps itself. */
  lemma {:induction false} Delimiters()
    ensures Avoids(Arrow, Filler) && Avoids(Marker, Filler)
    ensures NoBorder(Arrow) && NoBorder(Marker)
    ensures !Contains("", Arrow) && !Contains("", Marker)
  {
    assert Arrow[..1][0] != Arrow[1..][0];
    forall j | 0 < j < |Marker|
      ensures Marker[..j] != Marker[|Marker| - j..]
    {
      if j == 1 {
        assert Marker[..j][0] != Marker[|Marker| - j..][0];
      } else {
        assert Marker[..j][1] != Marker[|Marker| - j..][1];
      }
    }
  }

  /** Filler holds neither delimiter. */
  lemma {:induction false} FillerAvoids(w: string, d: string)
    requires |d| > 0 && Avoids(d, Filler) && !Contains("", d) && AllIn(w, Filler)
    ensures !Contains(w, d)
  {
    NotContainsAcross("", w, "", d, Filler);
    assert "" + w + "" == w;
  }

  /** A head after text `w` free of a delimiter is free of it too. */
  lemma {:induction false} HeadAvoids(w: string, k: string, c: string, d: string)
    requires |d| > 0 && Avoids(d, Filler) && !Contains(k, d) && !Contains("", d)
    requires !Contains(w, d) && AllIn(c, TrimSet)
    ensures !Contains(w + "'" + k + "'" + c, d)
  {
    NotContainsAcross(w, "'", k, d, Filler);
    assert AllIn("'" + c, Filler);
    NotContainsAcross(w + "'" + k, "'" + c, "", d, Filler);
    assert w + "'" + k + ("'" + c) + "" == w + "'" + k + "'" + c;
  }

  /** A value between filler runs, `pad v tail`, free of a delimiter is free of it together. */
  lemma {:induction false} ValueAvoids(pad: string, v: string, tail: string, d: string)
    requires |d| > 0 && Avoids(d, Filler) && !Contains(v, d) && !Contains("", d)
    requires AllIn(pad, TrimSet) && AllIn(tail, TrimSet)
    ensures !Contains(pad + v + tail, d)
  {
    assert AllIn(pad, Filler) && AllIn(tail, Filler);
    NotContainsAcross("", pad, v, d, Filler);
    assert "" + pad + v == pad + v;
    NotContainsAcross(pad + v, tail, "", d, Filler);
    assert pad + v + tail + "" == pad + v + tail;
  }

  /** `d` is a delimiter the filler cannot hide. */
  predicate Delimiter(d: string) {
    |d| > 0 && Avoids(d, Filler) && !Contains("", d)
  }

  /** No key or value of the entries holds `d`. */
  predicate FreeOf(es: seq<Laid>, d: string) {
    forall i :: 0 <= i < |es| ==> !Contains(es[i].key, d) && !Contains(es[i].value, d)
  }

  predicate AllPlain(es: seq<Laid>) {
    forall i :: 0 <= i < |es| ==> PlainLaid(es[i])
  }

  lemma {:induction false} PartsFirst(es: seq<Laid>)
    requires 0 < |es|
    ensures Parts(es)[0] == Head(es[0])
  {
    var init := es[..|es| - 1];
    if |es| == 1 {
      assert Parts(es)[0] == "" + Head(es[0]);
    } else {
      PartsFirst(init);
      assert Parts(es)[0] == Parts(init)[0];
    }
  }

  lemma {:induction false} PartsMiddle(es: seq<Laid>, j: nat)
    requires 0 < j < |es|
    ensures Parts(es)[j] == Body(es[j - 1]) + Head(es[j])
  {
    var n := |es|;
    var init := es[..n - 1];
    if j < n - 1 {
      PartsMiddle(init, j);
      assert Parts(es)[j] == Parts(init)[j];
    } else {
      PartsLast(init);
    }
  }

  lemma {:induction false} PartsLast(es: seq<Laid>)
    requires 0 < |es|
    ensures Parts(es)[|es|] == Body(es[|es| - 1])
  {
  }

  lemma {:induction false} HeadFree(e: Laid, d: string)
    requires Delimiter(d) && AllIn(e.lead, TrimSet) && AllIn(e.gap, TrimSet) && !Contains(e.key, d)
    ensures !Contains(Head(e), d)
  {
    assert AllIn(e.lead, Filler);
    FillerAvoids(e.lead, d);
    HeadAvoids(e.lead, e.key, e.gap, d);
    assert Head(e) == e.lead + "'" + e.key + "'" + e.gap;
  }

  lemma {:induction false} BodyFree(e: Laid, c: string, d: string)
    requires Delimiter(d) && AllIn(e.pad, TrimSet) && AllIn(e.tail, TrimSet) && AllIn(c, TrimSet)
    requires !Contains(e.value, d)
    ensures !Contains(Body(e) + c, d)
  {
    ValueAvoids(e.pad, e.value, e.tail + c, d);
    assert Body(e) + c == e.pad + e.value + (e.tail + c);
  }

  lemma {:induction false} BodyHeadFree(e: Laid, f: Laid, d: string)
    requires Delimiter(d) && AllIn(e.pad, TrimSet) && AllIn(e.tail, TrimSet)
    requires AllIn(f.lead, TrimSet) && AllIn(f.gap, TrimSet)
    requires !Contains(e.value, d) && !Contains(f.key, d)
    ensures !Contains(Body(e) + Head(f), d)
  {
    var w := e.pad + e.value + (e.tail + f.lead);
    ValueAvoids(e.pad, e.value, e.tail + f.lead, d);
    HeadAvoids(w, f.key, f.gap, d);
    assert Body(e) + Head(f) == w + "'" + f.key + "'" + f.gap;
  }

  lemma {:induction false} PartsAvoid(es: seq<Laid>, d: string)
    requires AllPlain(es) && Delimiter(d) && FreeOf(es, d)
    ensures forall j :: 0 <= j < |Parts(es)| ==> !Contains(Parts(es)[j], d)
  {
    forall j | 0 <= j < |Parts(es)|
      ensures !Contains(Parts(es)[j], d)
    {
      PartFree(es, j, d);
    }
  }

  lemma {:induction false} PartFree(es: seq<Laid>, j: nat, d: string)
    requires AllPlain(es) && Delimiter(d) && FreeOf(es, d) && j <= |es|
    ensures !Contains(Parts(es)[j], d)
  {
    var n := |es|;
    if n == 0 {
      assert Parts(es)[j] == "";
    } else {
      if j == 0 {
        PartsFirst(es);
        HeadFree(es[0], d);
        assert !Contains(Parts(es)[j], d);
      } else if j < n {
        PartsMiddle(es, j);
        BodyHeadFree(es[j - 1], es[j], d);
        assert !Contains(Parts(es)[j], d);
      } else {
        PartsLast(es);
        BodyFree(es[n - 1], "", d);
        assert Body(es[n - 1]) + "" == Body(es[n - 1]);
        assert !Contains(Parts(es)[j], d);
      }
    }
  }

  // ---------------------------------------------------------------- pieces between markers

  /** What follows an entry's body before the next key: the next entry's lead, or nothing. */
  function Next(es: seq<Laid>, j: nat): string
    requires j < |es|
  {
    if j + 1 < |es| then es[j + 1].lead else ""
  }

  /**
   * The pieces between markers the reader produces for the first `m` entries: each quoted
   * key, then its body with what follows it.
   */
  function Segs(es: seq<Laid>, m: nat): (r: seq<string>)
    requires m <= |es|
    ensures |r| == 2 * m
  {
    if m == 0 then [] else Segs(es, m - 1) + [Quoted(es[m - 1].key), Body(es[m - 1]) + Next(es, m - 1)]
  }

  lemma {:induction false} SegsAt(es: seq<Laid>, m: nat, j: nat)
    requires j < m <= |es|
    ensures Segs(es, m)[2 * j] == Quoted(es[j].key)
    ensures Segs(es, m)[2 * j + 1] == Body(es[j]) + Next(es, j)
  {
    if j < m - 1 {
      SegsAt(es, m - 1, j);
    }
  }

  lemma {:induction false} SegsAvoid(es: seq<Laid>, m: nat, d: string)
    requires m <= |es| && AllPlain(es) && Delimiter(d) && FreeOf(es, d)
    ensures forall i :: 0 <= i < 2 * m ==> !Contains(Segs(es, m)[i], d)
  {
    forall i | 0 <= i < 2 * m
      ensures !Contains(Segs(es, m)[i], d)
    {
      SegFree(es, m, i, d);
    }
  }

  lemma {:induction false} SegFree(es: seq<Laid>, m: nat, i: nat, d: string)
    requires m <= |es| && AllPlain(es) && Delimiter(d) && FreeOf(es, d) && i < 2 * m
    ensures !Contains(Segs(es, m)[i], d)
  {
    Halves(i);
    var j := i / 2;
    if i == 2 * j {
      KeySegFree(es, m, j, d);
    } else {
      BodySegFree(es, m, j, d);
    }
  }

  lemma {:induction false} KeySegFree(es: seq<Laid>, m: nat, j: nat, d: string)
    requires m <= |es| && AllPlain(es) && Delimiter(d) && FreeOf(es, d) && j < m
    ensures !Contains(Segs(es, m)[2 * j], d)
  {
    SegsAt(es, m, j);
    SegKeyFree(es[j].key, d);
  }

  lemma {:induction false} BodySegFree(es: seq<Laid>, m: nat, j: nat, d: string)
    requires m <= |es| && AllPlain(es) && Delimiter(d) && FreeOf(es, d) && j < m
    ensures !Contains(Segs(es, m)[2 * j + 1], d)
  {
    SegsAt(es, m, j);
    NextFiller(es, j);
    BodyFree(es[j], Next(es, j), d);
  }

  lemma {:induction false} SegKeyFree(k: string, d: string)
    requires Delimiter(d) && !Contains(k, d)
    ensures !Contains(Quoted(k), d)
  {
    HeadAvoids("", k, "", d);
    assert Quoted(k) == "" + "'" + k + "'" + "";
  }

  // ---------------------------------------------------------------- the bracket-level scan

  lemma {:induction false} FillerNoBracket(w: string)
    requires AllIn(w, TrimSet)
    ensures '[' !in w && ']' !in w
  {
  }

  /** A head holds no bracket, so it leaves the level where it was. */
  lemma {:induction false} HeadLevel(e: Laid)
    requires AllIn(e.lead, TrimSet) && AllIn(e.gap, TrimSet) && '[' !in e.key && ']' !in e.key
    ensures '[' !in Head(e) && ']' !in Head(e)
  {
    FillerNoBracket(e.lead);
    FillerNoBracket(e.gap);
  }

  /** A body holds a bracket exactly when its value does. */
  lemma {:induction false} BodyLevel(e: Laid)
    requires AllIn(e.pad, TrimSet) && AllIn(e.tail, TrimSet)
    ensures ('[' in Body(e) <==> '[' in e.value) && (']' in Body(e) <==> ']' in e.value)
  {
    FillerNoBracket(e.pad);
    FillerNoBracket(e.tail);
  }

  /** Trimming a text that ends with a quote, followed by whitespace, drops just the whitespace. */
  lemma {:induction false} TrimQuotedTail(y: string, gap: string)
    requires |y| > 0 && y[0] !in TrimSet && y[|y| - 1] == '\'' && AllIn(gap, TrimSet)
    ensures Trim(y + gap) == y
  {
    assert (y + gap)[0] == y[0];
    assert TrimLeft(y + gap, TrimSet) == y + gap;
    TrimRightSkip(y, gap, TrimSet);
  }

  /** The marker goes in front of the quoted key that ends the text. */
  lemma {:induction false} MarkKey(x: string, k: string)
    requires '\'' !in k
    ensures MarkLastQuoted(x + Quoted(k)) == x + Marker + Quoted(k)
  {
    var t := x + Quoted(k);
    QuotedSlices(x, k);
    LastIndexAfter(x, '\'', k);
    MarkAt(t, |x|);
  }

  lemma {:induction false} QuotedSlices(x: string, k: string)
    ensures var t := x + Quoted(k);
      |t| > 0 && t[|t| - 1] == '\'' && t[..|t| - 1] == x + ['\''] + k
      && t[..|x|] == x && t[|x|..] == Quoted(k)
  {
    var t := x + Quoted(k);
    assert t == x + ['\''] + k + ['\''];
  }

  lemma {:induction false} MarkAt(t: string, p: nat)
    requires |t| > 0 && t[|t| - 1] == '\'' && LastIndexOfChar(t[..|t| - 1], '\'') == Some(p)
    ensures p < |t| && MarkLastQuoted(t) == t[..p] + Marker + t[p..]
  {
  }

  lemma {:induction false} Regroup(a: string, b: string, l: string, q: string, g: string)
    ensures a + (b + (l + q + g)) == a + (b + l) + q + g
  {
  }

  /** A step over the first head marks its key. */
  lemma {:induction false} StepFirst(h: string, lead: string, k: string, gap: string)
    requires h == lead + Quoted(k) + gap && LevelDelta(h) == 0
    requires AllIn(lead, TrimSet) && AllIn(gap, TrimSet) && '\'' !in k
    ensures StepNonLast((0, ""), h) == (0, Marker + Quoted(k) + Marker)
  {
    StepUnfold("", h);
    assert "" + h == h;
    TrimPadded(lead, Quoted(k), gap, TrimSet);
    MarkFirstKey(k);
  }

  lemma {:induction false} StepUnfold(a: string, part: string)
    requires LevelDelta(part) == 0
    ensures StepNonLast((0, a), part) == (0, MarkLastQuoted(Trim(a + part)) + Marker)
  {
  }

  lemma {:induction false} MarkFirstKey(k: string)
    requires '\'' !in k
    ensures MarkLastQuoted(Quoted(k)) == Marker + Quoted(k)
  {
    MarkKey("", k);
    assert "" + Quoted(k) == Quoted(k);
    assert "" + Marker + Quoted(k) == Marker + Quoted(k);
  }

  /** A step at level 0 over a piece that ends with a quoted key and whitespace marks that key. */
  lemma {:induction false} StepKey(a: string, part: string, x: string, k: string, g: string)
    requires LevelDelta(part) == 0 && a + part == x + Quoted(k) + g
    requires |x| > 0 && x[0] !in TrimSet && '\'' !in k && AllIn(g, TrimSet)
    ensures StepNonLast((0, a), part) == (0, x + Marker + Quoted(k) + Marker)
  {
    var y := x + Quoted(k);
    assert y[0] == x[0] && y[|y| - 1] == '\'';
    TrimQuotedTail(y, g);
    MarkKey(x, k);
  }

  /** The text the scan has produced after `m` pieces: the keys and bodies so far, marked. */
  function Scanned(es: seq<Laid>, m: nat): string
    requires 0 < m <= |es|
  {
    Join([""] + Segs(es, m - 1) + [Quoted(es[m - 1].key)], Marker) + Marker
  }

  lemma {:induction false} ScannedStart(es: seq<Laid>, m: nat)
    requires 0 < m <= |es|
    ensures |Scanned(es, m)| > 0 && Scanned(es, m)[0] !in TrimSet
  {
    var l := Segs(es, m - 1) + [Quoted(es[m - 1].key)];
    assert [""] + Segs(es, m - 1) + [Quoted(es[m - 1].key)] == [""] + l;
    JoinCons("", l, Marker);
  }

  lemma {:induction false} ScannedNext(es: seq<Laid>, m: nat)
    requires 0 < m < |es|
    ensures Scanned(es, m + 1) == Scanned(es, m) + (Body(es[m - 1]) + es[m].lead) + Marker + Quoted(es[m].key) + Marker
  {
    var e, f := es[m - 1], es[m];
    var before := [""] + Segs(es, m - 1) + [Quoted(e.key)];
    assert [""] + Segs(es, m) + [Quoted(f.key)] == before + [Body(e) + f.lead] + [Quoted(f.key)];
    JoinSnoc(before, Body(e) + f.lead, Marker);
    JoinSnoc(before + [Body(e) + f.lead], Quoted(f.key), Marker);
  }

  lemma {:induction false} ScannedFirst(es: seq<Laid>)
    requires 0 < |es|
    ensures Scanned(es, 1) == Marker + Quoted(es[0].key) + Marker
  {
    var q := Quoted(es[0].key);
    assert [""] + Segs(es, 0) + [q] == ["", q];
    assert Join(["", q], Marker) == "" + Marker + Join([q], Marker);
    assert "" + Marker + q == Marker + q;
  }

  lemma {:induction false} ScanPrefixOne(parts: seq<string>)
    requires |parts| >= 1
    ensures ScanPrefix(parts[..1]) == StepNonLast((0, ""), parts[0])
  {
    assert parts[..1][..0] == [];
  }

  lemma {:induction false} ScanFirst(es: seq<Laid>)
    requires 0 < |es| && PlainLaid(es[0])
    ensures ScanPrefix(Parts(es)[..1]) == (0, Scanned(es, 1))
  {
    var e := es[0];
    var h := Head(e);
    PartsFirst(es);
    ScanPrefixOne(Parts(es));
    HeadLevel(e);
    StepFirst(h, e.lead, e.key, e.gap);
    ScannedFirst(es);
  }

  /** One turn of the scan over a body followed by the next head. */
  lemma {:induction false} ScanStepAt(parts: seq<string>, m: nat, a: string, e: Laid, f: Laid)
    requires m < |parts| && ScanPrefix(parts[..m]) == (0, a) && parts[m] == Body(e) + Head(f)
    requires |a| > 0 && a[0] !in TrimSet
    requires PlainLaid(e) && PlainLaid(f)
    ensures ScanPrefix(parts[..m + 1]) == (0, a + (Body(e) + f.lead) + Marker + Quoted(f.key) + Marker)
  {
    var part := Body(e) + Head(f);
    ScanPrefixSnoc(parts, m);
    HeadLevel(f);
    BodyLevel(e);
    assert LevelDelta(part) == 0;
    var x := a + (Body(e) + f.lead);
    Regroup(a, Body(e), f.lead, Quoted(f.key), f.gap);
    StepKey(a, part, x, f.key, f.gap);
  }

  lemma {:induction false} ScanStep(es: seq<Laid>, m: nat)
    requires 0 < m < |es| && PlainLaid(es[m - 1]) && PlainLaid(es[m])
    requires ScanPrefix(Parts(es)[..m]) == (0, Scanned(es, m))
    ensures ScanPrefix(Parts(es)[..m + 1]) == (0, Scanned(es, m + 1))
  {
    PartsMiddle(es, m);
    ScannedStart(es, m);
    ScanStepAt(Parts(es), m, Scanned(es, m), es[m - 1], es[m]);
    ScannedNext(es, m);
  }

  lemma {:induction false} ScanAll(es: seq<Laid>, m: nat)
    requires 0 < m <= |es| && AllPlain(es)
    ensures ScanPrefix(Parts(es)[..m]) == (0, Scanned(es, m))
  {
    if m == 1 {
      ScanFirst(es);
    } else {
      ScanAll(es, m - 1);
      ScanStep(es, m - 1);
    }
  }

  lemma {:induction false} ScannedLast(es: seq<Laid>)
    requires 0 < |es|
    ensures Join([""] + Segs(es, |es|), Marker) == Scanned(es, |es|) + Body(es[|es| - 1])
  {
    var n := |es|;
    var e := es[n - 1];
    var before := [""] + Segs(es, n - 1) + [Quoted(e.key)];
    assert Body(e) + Next(es, n - 1) == Body(e);
    assert [""] + Segs(es, n) == before + [Body(e)];
    JoinSnoc(before, Body(e), Marker);
  }

  /** The reader's scan marks every key and leaves every body between markers. */
  lemma {:induction false} ScanText(es: seq<Laid>)
    requires 0 < |es| && AllPlain(es)
    ensures Scan(Parts(es)) == Join([""] + Segs(es, |es|), Marker)
  {
    var n := |es|;
    ScanAll(es, n);
    PartsLast(es);
    assert Parts(es)[..|Parts(es)| - 1] == Parts(es)[..n];
    ScannedLast(es);
  }

  // ---------------------------------------------------------------- pairing up

  /** The quoted key reads back as the key. */
  lemma {:induction false} KeyBack(k: string)
    requires PlainKey(k)
    ensures KeyOf(Quoted(k)) == k
  {
    TrimPadded("'", k, "'", QuoteSet);
  }

  /** A quoted key is not blank. */
  lemma {:induction false} QuotedKept(k: string)
    ensures !Blank(Quoted(k))
  {
    var q := Quoted(k);
    assert q[0] == '\'' && q[|q| - 1] == '\'';
    assert TrimLeft(q, TrimSet) == q;
  }

  /** A body, with whitespace after it, reads back as the value. */
  lemma {:induction false} ValueBack(e: Laid, c: string)
    requires PlainLaid(e) && AllIn(c, TrimSet)
    ensures Trim(Body(e) + c) == e.value && NormalizeValue(Body(e) + c) == e.value
    ensures !Blank(Body(e) + c)
  {
    ValueTrim(e, c);
    var v := e.value;
    assert v[|v| - 1] == ',' && "0"[0] == '0';
  }

  /** Trimming a body, with whitespace after it, leaves the value. */
  lemma {:induction false} ValueTrim(e: Laid, c: string)
    requires PlainLaid(e) && AllIn(c, TrimSet)
    ensures Trim(Body(e) + c) == e.value
  {
    var w := e.tail + c;
    FillerJoin(e.tail, c, TrimSet);
    TrimPadded(e.pad, e.value, w, TrimSet);
    assert Body(e) + c == e.pad + e.value + w;
  }

  lemma {:induction false} FillerJoin(a: string, b: string, cs: set<char>)
    requires AllIn(a, cs) && AllIn(b, cs)
    ensures AllIn(a + b, cs)
  {
    assert forall k :: |a| <= k < |a + b| ==> (a + b)[k] == b[k - |a|];
  }

  lemma {:induction false} NextFiller(es: seq<Laid>, j: nat)
    requires AllPlain(es) && j < |es|
    ensures PlainLaid(es[j]) && AllIn(Next(es, j), TrimSet)
  {
  }

  lemma {:induction false} NonBlankCons(a: seq<string>)
    requires |a| > 0
    ensures NonBlank(a) == (if Blank(a[0]) then [] else [a[0]]) + NonBlank(a[1..])
  {
  }

  /** The filter keeps a list none of whose items is blank. */
  lemma {:induction false} NonBlankKeepsAll(items: seq<string>)
    requires forall i :: 0 <= i < |items| ==> !Blank(items[i])
    ensures NonBlank(items) == items
  {
    if |items| > 0 {
      NonBlankKeepsAll(items[1..]);
      NonBlankCons(items);
      assert [items[0]] + items[1..] == items;
    }
  }

  /** An index is twice its half, or one more. */
  lemma {:induction false} Halves(i: nat)
    ensures i == 2 * (i / 2) || i == 2 * (i / 2) + 1
  {
  }

  /** The reader keeps every key and body piece. */
  lemma {:induction false} SegsKept(es: seq<Laid>, m: nat)
    requires m <= |es| && AllPlain(es)
    ensures NonBlank(Segs(es, m)) == Segs(es, m)
  {
    var segs := Segs(es, m);
    forall i | 0 <= i < 2 * m
      ensures !Blank(segs[i])
    {
      SegKept(es, m, i);
    }
    NonBlankKeepsAll(segs);
  }

  lemma {:induction false} SegKept(es: seq<Laid>, m: nat, i: nat)
    requires m <= |es| && AllPlain(es) && i < 2 * m
    ensures !Blank(Segs(es, m)[i])
  {
    Halves(i);
    var j := i / 2;
    if i == 2 * j {
      KeySegKept(es, m, j);
    } else {
      BodySegKept(es, m, j);
    }
  }

  lemma {:induction false} KeySegKept(es: seq<Laid>, m: nat, j: nat)
    requires m <= |es| && AllPlain(es) && j < m
    ensures !Blank(Segs(es, m)[2 * j])
  {
    SegsAt(es, m, j);
    PieceKept(es, j);
  }

  lemma {:induction false} BodySegKept(es: seq<Laid>, m: nat, j: nat)
    requires m <= |es| && AllPlain(es) && j < m
    ensures !Blank(Segs(es, m)[2 * j + 1])
  {
    SegsAt(es, m, j);
    PieceKept(es, j);
  }

  lemma {:induction false} PieceKept(es: seq<Laid>, j: nat)
    requires AllPlain(es) && j < |es|
    ensures !Blank(Quoted(es[j].key)) && !Blank(Body(es[j]) + Next(es, j))
  {
    NextFiller(es, j);
    QuotedKept(es[j].key);
    ValueBack(es[j], Next(es, j));
  }

  lemma {:induction false} SegsPairUp(es: seq<Laid>)
    requires AllPlain(es)
    ensures PairUp(Segs(es, |es|)) == EntriesOf(es)
  {
    var segs := Segs(es, |es|);
    forall j | 0 <= j < |es|
      ensures PairUp(segs)[j] == EntriesOf(es)[j]
    {
      NextFiller(es, j);
      SegsAt(es, |es|, j);
      PairedEntry(segs, es, j);
    }
  }

  lemma {:induction false} PairedEntry(segs: seq<string>, es: seq<Laid>, j: nat)
    requires |segs| == 2 * |es| && j < |es| && PlainLaid(es[j]) && AllIn(Next(es, j), TrimSet)
    requires segs[2 * j] == Quoted(es[j].key) && segs[2 * j + 1] == Body(es[j]) + Next(es, j)
    ensures PairUp(segs)[j] == EntriesOf(es)[j]
  {
    ArrayHelper.PairUpAt(segs, j);
    EntryBack(es[j], Next(es, j));
  }

  /** One key piece and its body piece read back as the entry. */
  lemma {:induction false} EntryBack(e: Laid, c: string)
    requires PlainLaid(e) && AllIn(c, TrimSet)
    ensures (KeyOf(Quoted(e.key)), NormalizeValue(Body(e) + c)) == (e.key, e.value)
  {
    KeyBack(e.key);
    ValueBack(e, c);
  }

  /** The reader's stages, one after another. */
  lemma {:induction false} ParseStages(contents: string, parts: seq<string>, out: string, segs: seq<string>)
    requires Split(contents, Arrow) == parts && Scan(parts) == out && Segments(out) == segs
    ensures ParseText(contents) == FromPairs(PairUp(segs))
  {
  }

  lemma {:induction false} ParseEmpty()
    ensures ParseText("") == []
  {
    Delimiters();
    SplitNone("", Arrow);
    assert Scan([""]) == "";
    SplitNone("", Marker);
    assert NonBlank([""]) == [];
    ParseStages("", [""], "", []);
  }

  /** Splitting the scanned text at the markers gives the key and body pieces back. */
  lemma {:induction false} SegmentsOfScan(es: seq<Laid>)
    requires AllPlain(es)
    ensures Segments(Join([""] + Segs(es, |es|), Marker)) == Segs(es, |es|)
  {
    var segs := Segs(es, |es|);
    Delimiters();
    SegsAvoid(es, |es|, Marker);
    assert forall k :: 0 <= k < |[""] + segs| ==> !Contains(([""] + segs)[k], Marker) by {
      forall k | 0 <= k < |[""] + segs|
        ensures !Contains(([""] + segs)[k], Marker)
      {
        if k > 0 {
          assert ([""] + segs)[k] == segs[k - 1];
        }
      }
    }
    SplitJoin([""] + segs, Marker);
    SegsKept(es, |es|);
    assert ([""] + segs)[1..] == segs;
  }

  /**
   * Read-back: text laid out as plain `'key' => value` entries, whatever whitespace
   * surrounds their parts, is read by the reader into exactly those entries, in order.
   */
  lemma {:induction false} ReadBack(es: seq<Laid>)
    requires Readable(es)
    ensures ParseText(Text(es)) == EntriesOf(es)
  {
    if |es| == 0 {
      ParseEmpty();
    } else {
      Delimiters();
      TextParts(es);
      PartsAvoid(es, Arrow);
      SplitJoin(Parts(es), Arrow);
      ScanText(es);
      SegmentsOfScan(es);
      ParseStages(Text(es), Parts(es), Join([""] + Segs(es, |es|), Marker), Segs(es, |es|));
      SegsPairUp(es);
      FromDistinctPairs(EntriesOf(es));
    }
  }

  // ---------------------------------------------------------------- what the writer writes

  /** Entries the writer lays out in a form the reader recognises. */
  predicate Writable(entries: Entries<string>) {
    && DistinctKeys(entries)
    && forall i :: 0 <= i < |entries| ==> WritableEntry(entries[i])
  }

  /** A plain key without surrounding whitespace that is not `"0"`, and a plain value. */
  predicate WritableEntry(e: (string, string)) {
    && PlainKey(e.0) && e.0[0] !in TrimSet && e.0[|e.0| - 1] !in TrimSet && e.0 != "0"
    && PlainValue(e.1)
  }

  /** The written line of an entry, seen as laid-out text: the margin (after a newline but on the first line), the padding and the arrow's spaces. */
  function LaidAt(e: (string, string), margin: string, width: nat, first: bool): Laid {
    var q := Quoted(e.0);
    Laid(if first then margin else "\n" + margin, e.0,
      Spaces(if |q| < width then width - |q| else 0) + "  ", "  ", e.1, "")
  }

  function LaidOf(entries: Entries<string>, margin: string, width: nat): (r: seq<Laid>)
    ensures |r| == |entries|
  {
    seq(|entries|, i requires 0 <= i < |entries| => LaidAt(entries[i], margin, width, i == 0))
  }

  /** A writable entry keeps its key and value through `trim`, and neither is `empty()`. */
  lemma {:induction false} WritableTrimmed(e: (string, string))
    requires WritableEntry(e)
    ensures Trim(e.0) == e.0 && Trim(e.1) == e.1 && !PhpEmpty(e.0) && !PhpEmpty(e.1)
  {
    TrimLeftStops(e.0, TrimSet);
    TrimRightStops(e.0, TrimSet);
    TrimLeftStops(e.1, TrimSet);
    TrimRightStops(e.1, TrimSet);
  }

  /** One written line is the laid-out entry, behind a newline unless it is the first. */
  lemma {:induction false} LineLaid(e: (string, string), margin: string, width: nat, first: bool)
    requires WritableEntry(e)
    ensures (if first then "" else "\n") + FormatLine(margin, e.0, e.1, width)
      == Head(LaidAt(e, margin, width, first)) + Arrow + Body(LaidAt(e, margin, width, first))
  {
    WritableTrimmed(e);
    var q := Quoted(e.0);
    var sp := Spaces(if |q| < width then width - |q| else 0);
    assert PadRight(q, width) == q + sp;
    ArrowSpaces();
    var nl := if first then "" else "\n";
    assert nl + margin == LaidAt(e, margin, width, first).lead;
    LineRegroup(nl, margin, q, sp, "  ", e.1);
  }

  /** The writer's arrow is the reader's arrow between two spaces on each side. */
  lemma ArrowSpaces()
    ensures FormatArrow == "  " + Arrow + "  "
  {
  }

  lemma LineRegroup(nl: string, margin: string, q: string, sp: string, x: string, v: string)
    ensures nl + (margin + (q + sp) + (x + Arrow + x) + v)
      == (nl + margin + q + (sp + x)) + Arrow + (x + v + "")
  {
  }

  /** The lines the writer joins are the laid-out entries one after another. */
  lemma {:induction false} FormatText(entries: Entries<string>, margin: string, width: nat)
    requires forall i :: 0 <= i < |entries| ==> WritableEntry(entries[i])
    ensures |FormatLines(entries, margin, width)| == |entries|
    ensures Join(FormatLines(entries, margin, width), "\n") == Text(LaidOf(entries, margin, width))
  {
    if |entries| > 0 {
      var n := |entries| - 1;
      var e := entries[n];
      FormatText(entries[..n], margin, width);
      LinesSnoc(entries, margin, width);
      LaidTextSnoc(entries, margin, width);
      LineLaid(e, margin, width, n == 0);
      JoinLine(FormatLines(entries[..n], margin, width), FormatLine(margin, e.0, e.1, width));
    }
  }

  /** A writable last entry adds its line. */
  lemma {:induction false} LinesSnoc(entries: Entries<string>, margin: string, width: nat)
    requires |entries| > 0 && WritableEntry(entries[|entries| - 1])
    ensures var e := entries[|entries| - 1];
      FormatLines(entries, margin, width)
        == FormatLines(entries[..|entries| - 1], margin, width) + [FormatLine(margin, e.0, e.1, width)]
  {
    WritableTrimmed(entries[|entries| - 1]);
  }

  /** The laid-out text of one more entry. */
  lemma {:induction false} LaidTextSnoc(entries: Entries<string>, margin: string, width: nat)
    requires |entries| > 0
    ensures var n := |entries| - 1;
      var l := LaidAt(entries[n], margin, width, n == 0);
      Text(LaidOf(entries, margin, width)) == Text(LaidOf(entries[..n], margin, width)) + (Head(l) + Arrow + Body(l))
  {
    var n := |entries| - 1;
    var es := LaidOf(entries, margin, width);
    assert es[..n] == LaidOf(entries[..n], margin, width);
  }

  /** Joining one more line puts a newline before it, unless it is the first. */
  lemma {:induction false} JoinLine(lines: seq<string>, line: string)
    ensures Join(lines + [line], "\n") == Join(lines, "\n") + ((if |lines| == 0 then "" else "\n") + line)
  {
    if |lines| == 0 {
      assert lines + [line] == [line];
    } else {
      JoinSnoc(lines, line, "\n");
    }
  }

  /** The laid-out entries of writable entries are readable and stand for those entries. */
  lemma {:induction false} LaidReadable(entries: Entries<string>, margin: string, width: nat)
    requires Writable(entries) && AllIn(margin, TrimSet)
    ensures Readable(LaidOf(entries, margin, width))
    ensures EntriesOf(LaidOf(entries, margin, width)) == entries
  {
    var es := LaidOf(entries, margin, width);
    forall i | 0 <= i < |es|
      ensures PlainLaid(es[i])
    {
      var q := Quoted(entries[i].0);
      var sp := Spaces(if |q| < width then width - |q| else 0);
      assert AllIn(sp + "  ", TrimSet);
      assert AllIn(es[i].lead, TrimSet);
    }
    assert EntriesOf(es) == entries;
  }

  /**
   * What `formatKeyValuePairs` writes for writable entries is read back into exactly those
   * entries, whatever whitespace margin it indents them by.
   */
  lemma {:induction false} FormatReadBack(entries: Entries<string>, margin: string)
    requires Writable(entries) && AllIn(margin, TrimSet)
    ensures ParseText(FormatOf(entries, margin)) == entries
  {
    var width := MaxKeyLength(entries) + 2;
    FormatText(entries, margin, width);
    LaidReadable(entries, margin, width);
    ReadBack(LaidOf(entries, margin, width));
  }

  /** Reformatting an array text whose entries are writable keeps its entries. */
  lemma {:induction false} FormatKeepsEntries(s: string, margin: string)
    requires Writable(ParseText(s)) && AllIn(margin, TrimSet)
    ensures ParseText(FormatSpec(s, margin)) == ParseText(s)
  {
    FormatReadBack(ParseText(s), margin);
  }
}
