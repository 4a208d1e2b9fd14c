/**
 * The reflected schema: the per-column entry texts (`Column`), tables with their relations
 * (`Table`) and the database (`Database`), whose constructor attaches the relations the
 * foreign keys imply. The generators merge freshly derived entries with the ones found in
 * an existing file: an entry is kept verbatim when its column did not change since the
 * previous snapshot and the existing file has it.
 */
module Structure {
  import opened Wrappers
  import opened PhpString
  import opened PhpArray
  import opened Constants
  import opened ColumnModel
  import opened ArrayHelper
  import opened ArrayRoundTrip
  import Rules = ValidationRuleGenerator
  import Fakers = FakerGenerator
  import NamingHelper

  // ---------------------------------------------------------------- column texts

  /** One `'key' => value` entry as a line of array source text. */
  function Entry(key: string, value: string): Laid {
    Laid("", key, " ", " ", value, "\n")
  }

  /** The text of one laid-out entry. */
  function EntryText(e: Laid): string {
    Head(e) + Arrow + Body(e)
  }

  /** A single-quoted rule string followed by a comma, as the rule entries write it. */
  function QuotedRule(rules: string): string {
    "'" + rules + "',"
  }

  /** `getStoreValidationRules()`: the column's store rules as an entry line. */
  function StoreRule(c: Column): string {
    EntryText(Entry(c.columnName, QuotedRule(Rules.Generate(c, false))))
  }

  /** `getBulkStoreValidationRules()`: the same rules under the key `list.*.<name>`. */
  function BulkStoreRule(c: Column): string {
    EntryText(Entry("list.*." + c.columnName, QuotedRule(Rules.Generate(c, false))))
  }

  /** `getUpdateValidationRules()`: the rules for updating, as an entry line. */
  function UpdateRule(c: Column): string {
    EntryText(Entry(c.columnName, QuotedRule(Rules.Generate(c, true))))
  }

  /** `getFaker()`: the faker as an entry line (two spaces before the arrow), and the model it needs. */
  function ColumnFaker(c: Column, className: string -> string, realText: real -> string): Fakers.FakerResult {
    var g := Fakers.Generate(c, className, realText);
    Fakers.FakerResult(EntryText(Laid("", c.columnName, "  ", " ", g.faker + ",", "\n")), g.model)
  }

  /**
   * The entry lines are written `'key' => value` and a newline; a faker line has two spaces
   * before the arrow.
   */
  lemma EntryLayout(key: string, value: string)
    ensures EntryText(Entry(key, value)) == "'" + key + "' => " + value + "\n"
    ensures EntryText(Laid("", key, "  ", " ", value, "\n")) == "'" + key + "'  => " + value + "\n"
  {
  }

  /**
   * `getColumnDescription()`: `nullable` or `required`, then `|` and the type rule when the
   * type has one; it is how the column's rule string starts, for storing and for updating.
   */
  function ColumnDescription(c: Column): (r: string)
    ensures StartsWith(Rules.Generate(c, false), r) && StartsWith(Rules.Generate(c, true), r)
    ensures StartsWith(r, Rules.Nullability(c))
  {
    var t := Rules.TypeValidation(c);
    var r := (if c.isNullable then "nullable" else "required") + (if t != "" then "|" + t else "");
    assert r == Join(Rules.DescriptionParts(c), "|") by {
      if t != "" {
        JoinCons(Rules.Nullability(c), [t], "|");
      }
    }
    Rules.DescriptionIsPrefix(c, false);
    Rules.DescriptionIsPrefix(c, true);
    r
  }

  // ---------------------------------------------------------------- relations

  /**
   * A relation between two tables, as the arguments its constructor receives. Its name and
   * its rendered method text come from the inflector and a stub file; both are parameters
   * (`relationName`, `render`) wherever they are used.
   */
  datatype Relation =
    | BelongsTo(localTable: string, referencedTable: string, localForeignKey: string, referencedKey: string)
    | HasMany(localTable: string, referencedTable: string, referencedForeignKey: string, localKey: string)

  /** The rendered texts of the relations, in order. */
  function RenderAll(rs: seq<Relation>, render: Relation -> string): (r: seq<string>)
    ensures |r| == |rs| && forall i :: 0 <= i < |rs| ==> r[i] == render(rs[i])
  {
    seq(|rs|, i requires 0 <= i < |rs| => render(rs[i]))
  }

  /** `array_diff($rs, $os)` is empty: every relation of `rs` renders like one of `os`. */
  predicate RelationsCovered(rs: seq<Relation>, os: seq<Relation>, render: Relation -> string) {
    forall i :: 0 <= i < |rs| ==> render(rs[i]) in RenderAll(os, render)
  }

  // ---------------------------------------------------------------- lookups

  /** The first column named `name`, as `getColumn` finds it. */
  function FindColumn(cols: seq<Column>, name: string): (r: Option<Column>)
    ensures r.Some? <==> exists i :: 0 <= i < |cols| && cols[i].columnName == name
    ensures r.Some? ==> exists i :: (0 <= i < |cols| && cols[i] == r.value && cols[i].columnName == name
      && forall k :: 0 <= k < i ==> cols[k].columnName != name)
  {
    if |cols| == 0 then None
    else if cols[0].columnName == name then
      Some(cols[0])
    else
      var r := FindColumn(cols[1..], name);
      assert forall i :: 1 <= i < |cols| ==> cols[i] == cols[1..][i - 1];
      r
  }

  /** The tables of an array of tables, as a set of objects. */
  function Objects(ts: Entries<Table>): set<Table> {
    set i | 0 <= i < |ts| :: ts[i].1
  }

  /** The first table named `name`, as `getTable` finds it. */
  function FindTable(ts: Entries<Table>, name: string): (r: Option<Table>)
    ensures r.Some? <==> exists i :: 0 <= i < |ts| && ts[i].1.tableName == name
    ensures r.Some? ==> exists i :: (0 <= i < |ts| && ts[i].1 == r.value && ts[i].1.tableName == name
      && forall k :: 0 <= k < i ==> ts[k].1.tableName != name)
  {
    if |ts| == 0 then None
    else if ts[0].1.tableName == name then Some(ts[0].1)
    else
      var r := FindTable(ts[1..], name);
      assert forall i :: 1 <= i < |ts| ==> ts[i] == ts[1..][i - 1];
      r
  }

  /**
   * `isChanged()`: a column changed when the previous snapshot has its table and a column
   * of its name that is not `equals` to it; with no snapshot, table or column it did not.
   */
  function IsChanged(c: Column, previous: Database?): (r: bool)
    ensures r ==> previous != null
    ensures previous != null ==>
      (r <==> (match FindTable(previous.tables, c.tableName)
               case None => false
               case Some(t) => match FindColumn(t.columns, c.columnName)
                 case None => false
                 case Some(pc) => !Equals(c, pc)))
  {
    if previous == null then false
    else
      match FindTable(previous.tables, c.tableName)
      case None => false
      case Some(t) =>
        match FindColumn(t.columns, c.columnName)
        case None => false
        case Some(pc) => !Equals(c, pc)
  }

  /** A column in the previous snapshot exactly as it is now has not changed. */
  lemma UnchangedWhenSame(c: Column, previous: Database)
    requires FindTable(previous.tables, c.tableName).Some?
    requires FindColumn(FindTable(previous.tables, c.tableName).value.columns, c.columnName) == Some(c)
    ensures !IsChanged(c, previous)
  {
    EqualsReflexive(c);
  }

  // ---------------------------------------------------------------- merging

  /** The columns whose names are not in `skip`, in order. */
  function Kept(cols: seq<Column>, skip: seq<string>): (r: seq<Column>)
    ensures |r| <= |cols|
  {
    if |cols| == 0 then []
    else
      var c := cols[|cols| - 1];
      Kept(cols[..|cols| - 1], skip) + if c.columnName in skip then [] else [c]
  }

  /** The kept columns are exactly the columns whose names are not skipped. */
  lemma {:induction false} KeptMembers(cols: seq<Column>, skip: seq<string>)
    ensures forall c :: c in Kept(cols, skip) <==> c in cols && c.columnName !in skip
  {
    if |cols| > 0 {
      var front := cols[..|cols| - 1];
      KeptMembers(front, skip);
      assert cols == front + [cols[|cols| - 1]];
    }
  }

  /** Which entry array a merge builds. */
  datatype Kind = StoreRules | BulkStoreRules | UpdateRules | ResourceArray

  /** The columns a merge leaves out. */
  function Skipped(kind: Kind): seq<string> {
    if kind == ResourceArray then ResourceColumns else FormRequestColumns
  }

  /** The key of a column's entry. */
  function EntryKey(kind: Kind, c: Column): string {
    if kind == BulkStoreRules then "list.*." + c.columnName else c.columnName
  }

  /** The freshly derived value of a column's entry. */
  function FreshValue(kind: Kind, c: Column): string {
    match kind
    case StoreRules => QuotedRule(Rules.Generate(c, false))
    case BulkStoreRules => QuotedRule(Rules.Generate(c, false))
    case UpdateRules => QuotedRule(Rules.Generate(c, true))
    case ResourceArray => "$this->" + c.columnName + ","
  }

  /** The existing entry is kept: the column did not change and the existing array has its key. */
  predicate KeepsOld(kind: Kind, c: Column, existing: Entries<string>, previous: Database?) {
    !IsChanged(c, previous) && HasKey(existing, EntryKey(kind, c))
  }

  /**
   * One column's entry: the existing value verbatim when it is kept, otherwise the fresh one,
   * written as the column methods write it.
   */
  function MergedEntry(kind: Kind, c: Column, existing: Entries<string>, previous: Database?): (r: Laid)
    ensures r.key == EntryKey(kind, c)
    ensures r.value == if KeepsOld(kind, c, existing, previous) then Get(existing, EntryKey(kind, c)).value else FreshValue(kind, c)
  {
    var key := EntryKey(kind, c);
    if KeepsOld(kind, c, existing, previous) then Entry(key, Get(existing, key).value) else Entry(key, FreshValue(kind, c))
  }

  /** The entries of the kept columns, in column order. */
  function MergedEntries(kind: Kind, cols: seq<Column>, existing: Entries<string>, previous: Database?): seq<Laid> {
    if |cols| == 0 then []
    else
      var c := cols[|cols| - 1];
      MergedEntries(kind, cols[..|cols| - 1], existing, previous)
        + if c.columnName in Skipped(kind) then [] else [MergedEntry(kind, c, existing, previous)]
  }

  /** The merged entries are those of the kept columns, one each, in order. */
  lemma {:induction false} MergedEntriesAt(kind: Kind, cols: seq<Column>, existing: Entries<string>, previous: Database?)
    ensures var ks := Kept(cols, Skipped(kind)); var r := MergedEntries(kind, cols, existing, previous);
      |r| == |ks| && forall k :: 0 <= k < |ks| ==> r[k] == MergedEntry(kind, ks[k], existing, previous)
  {
    if |cols| > 0 {
      MergedEntriesAt(kind, cols[..|cols| - 1], existing, previous);
    }
  }

  lemma MergedStep(kind: Kind, head: seq<Laid>, cols: seq<Column>, i: nat, existing: Entries<string>, previous: Database?)
    requires i < |cols|
    ensures Text(head + MergedEntries(kind, cols[..i + 1], existing, previous))
      == Text(head + MergedEntries(kind, cols[..i], existing, previous))
        + if cols[i].columnName in Skipped(kind) then "" else EntryText(MergedEntry(kind, cols[i], existing, previous))
  {
    assert cols[..i + 1][..i] == cols[..i];
    var done := head + MergedEntries(kind, cols[..i], existing, previous);
    if cols[i].columnName in Skipped(kind) {
      assert head + MergedEntries(kind, cols[..i + 1], existing, previous) == done;
      assert Text(done) + "" == Text(done);
    } else {
      var e := MergedEntry(kind, cols[i], existing, previous);
      assert head + MergedEntries(kind, cols[..i + 1], existing, previous) == done + [e];
      TextSnoc(done, e);
    }
  }

  /** The body of the merge loops for one column not skipped: the existing entry or the fresh one. */
  method ColumnEntry(kind: Kind, column: Column, existing: Entries<string>, previous: Database?) returns (text: string)
    ensures text == EntryText(MergedEntry(kind, column, existing, previous))
  {
    var key := EntryKey(kind, column);
    if !IsChanged(column, previous) && HasKey(existing, key) {
      text := EntryText(Entry(key, Get(existing, key).value));
    } else {
      match kind {
        case StoreRules => text := StoreRule(column);
        case BulkStoreRules => text := BulkStoreRule(column);
        case UpdateRules => text := UpdateRule(column);
        case ResourceArray => text := EntryText(Entry(key, "$this->" + column.columnName + ","));
      }
    }
  }

  lemma {:induction false} MergedKeysAt(kind: Kind, cols: seq<Column>, existing: Entries<string>, previous: Database?)
    ensures var ks := Kept(cols, Skipped(kind)); var r := MergedEntries(kind, cols, existing, previous);
      |r| == |ks| && forall k :: 0 <= k < |ks| ==> r[k].key == EntryKey(kind, ks[k])
  {
    if |cols| > 0 {
      MergedKeysAt(kind, cols[..|cols| - 1], existing, previous);
    }
  }

  /** The entry every bulk-store array starts with. */
  const ListEntry := Entry("list", QuotedRule("required|array"))

  /** All entries of a merge: the bulk-store header first, then the columns' entries. */
  function AllEntries(kind: Kind, cols: seq<Column>, existing: Entries<string>, previous: Database?): seq<Laid> {
    (if kind == BulkStoreRules then [ListEntry] else []) + MergedEntries(kind, cols, existing, previous)
  }

  lemma TextSnoc(es: seq<Laid>, e: Laid)
    ensures Text(es + [e]) == Text(es) + EntryText(e)
  {
    assert (es + [e])[..|es|] == es;
  }

  /** Every key a merge writes is `list` (bulk store only) or the key of a kept column: existing keys that are not columns are dropped. */
  lemma MergeKeys(kind: Kind, cols: seq<Column>, existing: Entries<string>, previous: Database?)
    ensures var es := AllEntries(kind, cols, existing, previous);
      forall i :: 0 <= i < |es| ==>
        (kind == BulkStoreRules && es[i].key == "list")
        || exists c :: c in cols && c.columnName !in Skipped(kind) && es[i].key == EntryKey(kind, c)
  {
    var es := AllEntries(kind, cols, existing, previous);
    var ks := Kept(cols, Skipped(kind));
    var ms := MergedEntries(kind, cols, existing, previous);
    var h := if kind == BulkStoreRules then 1 else 0;
    MergedKeysAt(kind, cols, existing, previous);
    KeptMembers(cols, Skipped(kind));
    forall i | h <= i < |es|
      ensures exists c :: c in cols && c.columnName !in Skipped(kind) && es[i].key == EntryKey(kind, c)
    {
      assert es[i] == ms[i - h];
      var c := ks[i - h];
      assert c in Kept(cols, Skipped(kind));
    }
  }

  // ---------------------------------------------------------------- faker entries

  /** A column's faker entry and model: the existing value without a model, or a fresh faker. */
  function FakerEntry(c: Column, existing: Entries<string>, previous: Database?,
                      className: string -> string, realText: real -> string): (r: (Laid, Option<string>))
    ensures r.0.key == c.columnName
    ensures KeepsOld(StoreRules, c, existing, previous) ==> r == (Entry(c.columnName, Get(existing, c.columnName).value), None)
    ensures !KeepsOld(StoreRules, c, existing, previous) ==> r.1 == Fakers.Generate(c, className, realText).model
  {
    if KeepsOld(StoreRules, c, existing, previous) then (Entry(c.columnName, Get(existing, c.columnName).value), None)
    else
      var g := Fakers.Generate(c, className, realText);
      (Laid("", c.columnName, "  ", " ", g.faker + ",", "\n"), g.model)
  }

  /** The faker entries of the factory's columns, in order. */
  function FakerEntries(cols: seq<Column>, existing: Entries<string>, previous: Database?,
                        className: string -> string, realText: real -> string): seq<Laid> {
    if |cols| == 0 then []
    else
      var c := cols[|cols| - 1];
      FakerEntries(cols[..|cols| - 1], existing, previous, className, realText)
        + if c.columnName in FactoryColumns then [] else [FakerEntry(c, existing, previous, className, realText).0]
  }

  /** The faker entries are those of the factory's columns, one each, in order. */
  lemma {:induction false} FakerEntriesAt(cols: seq<Column>, existing: Entries<string>, previous: Database?,
                                          className: string -> string, realText: real -> string)
    ensures var ks := Kept(cols, FactoryColumns); var r := FakerEntries(cols, existing, previous, className, realText);
      |r| == |ks| && forall k :: 0 <= k < |ks| ==> r[k] == FakerEntry(ks[k], existing, previous, className, realText).0
  {
    if |cols| > 0 {
      FakerEntriesAt(cols[..|cols| - 1], existing, previous, className, realText);
    }
  }

  lemma FakerTextStep(cols: seq<Column>, i: nat, existing: Entries<string>, previous: Database?,
                      className: string -> string, realText: real -> string)
    requires i < |cols|
    ensures Text(FakerEntries(cols[..i + 1], existing, previous, className, realText))
      == Text(FakerEntries(cols[..i], existing, previous, className, realText))
        + if cols[i].columnName in FactoryColumns then ""
          else EntryText(FakerEntry(cols[i], existing, previous, className, realText).0)
  {
    assert cols[..i + 1][..i] == cols[..i];
    var done := FakerEntries(cols[..i], existing, previous, className, realText);
    if cols[i].columnName in FactoryColumns {
      assert FakerEntries(cols[..i + 1], existing, previous, className, realText) == done;
      assert Text(done) + "" == Text(done);
    } else {
      var e := FakerEntry(cols[i], existing, previous, className, realText).0;
      assert FakerEntries(cols[..i + 1], existing, previous, className, realText) == done + [e];
      TextSnoc(done, e);
    }
  }

  lemma FakerModelStep(cols: seq<Column>, i: nat, existing: Entries<string>, previous: Database?,
                       className: string -> string, realText: real -> string)
    requires i < |cols|
    ensures var m := FakerEntry(cols[i], existing, previous, className, realText).1;
      FakerModels(cols[..i + 1], existing, previous, className, realText)
        == FakerModels(cols[..i], existing, previous, className, realText)
          + if cols[i].columnName !in FactoryColumns && ModelNamed(m) then [m.value] else []
  {
    assert cols[..i + 1][..i] == cols[..i];
  }

  /**
   * The body of the faker loop for one factory column: the existing entry, or a fresh faker
   * and, when it names one, its model.
   */
  method FakerLine(column: Column, existing: Entries<string>, previous: Database?,
                   className: string -> string, realText: real -> string) returns (text: string, models: seq<string>)
    ensures var e := FakerEntry(column, existing, previous, className, realText);
      text == EntryText(e.0) && models == if ModelNamed(e.1) then [e.1.value] else []
  {
    if !IsChanged(column, previous) && HasKey(existing, column.columnName) {
      text := EntryText(Entry(column.columnName, Get(existing, column.columnName).value));
      models := [];
    } else {
      var result := ColumnFaker(column, className, realText);
      text := result.faker;
      var model := result.model;
      models := [];
      if model.Some? && model.value != "" {
        models := [model.value];
      }
    }
  }

  /** `$model != null`: a model is named, and its name is not the empty string that PHP takes as loosely `null`. */
  predicate ModelNamed(m: Option<string>) {
    m.Some? && m.value != ""
  }

  /** The models the fresh foreign key fakers name, in column order, duplicates kept. */
  function FakerModels(cols: seq<Column>, existing: Entries<string>, previous: Database?,
                       className: string -> string, realText: real -> string): seq<string> {
    if |cols| == 0 then []
    else
      var c := cols[|cols| - 1];
      var m := FakerEntry(c, existing, previous, className, realText).1;
      FakerModels(cols[..|cols| - 1], existing, previous, className, realText)
        + if c.columnName !in FactoryColumns && ModelNamed(m) then [m.value] else []
  }

  /** Each model named comes from a freshly generated foreign key faker of a factory column. */
  lemma {:induction false} FakerModelsFrom(cols: seq<Column>, existing: Entries<string>, previous: Database?,
                                           className: string -> string, realText: real -> string)
    ensures forall m :: m in FakerModels(cols, existing, previous, className, realText) ==>
      exists c :: (c in cols && c.columnName !in FactoryColumns && c.foreignKey.Some?
        && !KeepsOld(StoreRules, c, existing, previous) && m == className(c.foreignKey.value.referencedTable) && m != "")
  {
    if |cols| > 0 {
      var front := cols[..|cols| - 1];
      FakerModelsFrom(front, existing, previous, className, realText);
      assert forall x :: x in front ==> x in cols;
    }
  }

  /** With nothing kept, every foreign key column of the factory names its model, in order. */
  lemma {:induction false} FreshFakerModels(cols: seq<Column>, previous: Database?, className: string -> string, realText: real -> string)
    ensures FakerModels(cols, [], previous, className, realText)
      == ForeignModels(Kept(cols, FactoryColumns), className)
  {
    if |cols| > 0 {
      var front := cols[..|cols| - 1];
      FreshFakerModels(front, previous, className, realText);
      var c := cols[|cols| - 1];
      var ks := Kept(front, FactoryColumns);
      FreshModel(c, previous, className, realText);
      if c.columnName !in FactoryColumns {
        assert Kept(cols, FactoryColumns) == ks + [c];
        ForeignModelsSnoc(ks, c, className);
      } else {
        assert Kept(cols, FactoryColumns) == ks;
        assert FakerModels(cols, [], previous, className, realText) == FakerModels(front, [], previous, className, realText) + [];
      }
    }
  }

  /** With no existing entries, a column's faker names a model exactly when it is a foreign key. */
  lemma FreshModel(c: Column, previous: Database?, className: string -> string, realText: real -> string)
    ensures FakerEntry(c, [], previous, className, realText).1
      == match c.foreignKey case Some(fk) => Some(className(fk.referencedTable)) case None => None
  {
    var none: Entries<string> := [];
    assert !HasKey(none, c.columnName);
  }

  /** The non-empty class names of the referenced tables of the foreign key columns, in order. */
  function ForeignModels(cols: seq<Column>, className: string -> string): seq<string> {
    if |cols| == 0 then []
    else
      var c := cols[|cols| - 1];
      ForeignModels(cols[..|cols| - 1], className) + ForeignModel(c, className)
  }

  /** The class name of a foreign key column's referenced table, unless it is empty. */
  function ForeignModel(c: Column, className: string -> string): seq<string> {
    match c.foreignKey
    case Some(fk) => if className(fk.referencedTable) == "" then [] else [className(fk.referencedTable)]
    case None => []
  }

  lemma ForeignModelsSnoc(cols: seq<Column>, c: Column, className: string -> string)
    ensures ForeignModels(cols + [c], className) == ForeignModels(cols, className) + ForeignModel(c, className)
  {
    assert (cols + [c])[..|cols|] == cols;
  }

  // ---------------------------------------------------------------- fillable

  /** One fillable line. */
  function FillableLine(c: Column): string {
    "\t\t'" + c.columnName + "',"
  }

  /** The fillable lines of the model's columns, in order. */
  function FillableLines(cols: seq<Column>): seq<string> {
    if |cols| == 0 then []
    else
      var c := cols[|cols| - 1];
      FillableLines(cols[..|cols| - 1]) + if c.columnName in ModelFillableColumns then [] else [FillableLine(c)]
  }

  /** One fillable line per fillable column, in order. */
  lemma {:induction false} FillableLinesAt(cols: seq<Column>)
    ensures var ks := Kept(cols, ModelFillableColumns); var r := FillableLines(cols);
      |r| == |ks| && forall k :: 0 <= k < |ks| ==> r[k] == FillableLine(ks[k])
  {
    if |cols| > 0 {
      FillableLinesAt(cols[..|cols| - 1]);
    }
  }

  /** The text the fillable loop builds: every line followed by a newline. */
  function Lined(ls: seq<string>): string {
    if |ls| == 0 then "" else Lined(ls[..|ls| - 1]) + ls[|ls| - 1] + "\n"
  }

  lemma FillableStep(cols: seq<Column>, i: nat)
    requires i < |cols|
    ensures Lined(FillableLines(cols[..i + 1])) == Lined(FillableLines(cols[..i]))
      + if cols[i].columnName in ModelFillableColumns then "" else FillableLine(cols[i]) + "\n"
  {
    assert cols[..i + 1][..i] == cols[..i];
    var ls := FillableLines(cols[..i]);
    if cols[i].columnName !in ModelFillableColumns {
      var l := FillableLine(cols[i]);
      assert FillableLines(cols[..i + 1]) == ls + [l];
      assert (ls + [l])[..|ls|] == ls;
      assert Lined(ls) + l + "\n" == Lined(ls) + (l + "\n");
    } else {
      assert FillableLines(cols[..i + 1]) == ls;
      assert Lined(ls) + "" == Lined(ls);
    }
  }

  /** The lines ended by newlines are the lines joined by newlines, plus one. */
  lemma {:induction false} LinedJoin(ls: seq<string>)
    requires |ls| > 0
    ensures Lined(ls) == Join(ls, "\n") + "\n"
  {
    var front := ls[..|ls| - 1];
    if |ls| > 1 {
      LinedJoin(front);
      JoinSnoc(front, ls[|ls| - 1], "\n");
      assert front + [ls[|ls| - 1]] == ls;
    } else {
      assert Lined(front) == "";
      assert "" + ls[0] == ls[0];
    }
  }

  // ---------------------------------------------------------------- validation attributes

  /** The characters `trim($x, '\t\n\r\0\x0B\',')` strips: the single-quoted list is taken literally. */
  const AttributeTrim: set<char> := {'\\', 't', 'n', 'r', '0', 'x', 'B', '\'', ','}

  /** The column names of the tables, table by table, in column order. */
  function AllColumnNames(ts: Entries<Table>): seq<string> {
    if |ts| == 0 then [] else AllColumnNames(ts[..|ts| - 1]) + Names(ts[|ts| - 1].1.columns)
  }

  function Names(cols: seq<Column>): (r: seq<string>)
    ensures |r| == |cols| && forall i :: 0 <= i < |cols| ==> r[i] == cols[i].columnName
  {
    seq(|cols|, i requires 0 <= i < |cols| => cols[i].columnName)
  }

  /** Each name once, at its first occurrence, leaving out the bookkeeping columns. */
  function FirstOccurrences(ns: seq<string>): seq<string> {
    if |ns| == 0 then []
    else
      var front := FirstOccurrences(ns[..|ns| - 1]);
      var n := ns[|ns| - 1];
      front + if n in front || n in ExtraColumns then [] else [n]
  }

  /** The names kept are those not bookkeeping, each once. */
  lemma {:induction false} FirstOccurrencesFacts(ns: seq<string>)
    ensures var r := FirstOccurrences(ns);
      (forall n :: n in r <==> n in ns && n !in ExtraColumns)
      && forall i, j :: 0 <= i < j < |r| ==> r[i] != r[j]
  {
    if |ns| > 0 {
      var front := ns[..|ns| - 1];
      FirstOccurrencesFacts(front);
      assert ns == front + [ns[|ns| - 1]];
    }
  }

  /** An existing attribute entry is kept when it is set and not blank once the listed characters are trimmed. */
  predicate KeepsAttribute(existing: Entries<string>, name: string) {
    HasKey(existing, name) && !PhpEmpty(TrimChars(Get(existing, name).value, AttributeTrim))
  }

  /** The attribute entry of one column name. */
  function AttributeEntry(name: string, existing: Entries<string>, lang: string): (r: Laid)
    ensures r.key == name
    ensures KeepsAttribute(existing, name) ==> r.value == Get(existing, name).value
    ensures !KeepsAttribute(existing, name) && lang == "en" ==> r.value == QuotedRule(NamingHelper.SnakeCaseToTitleCase(name))
    ensures !KeepsAttribute(existing, name) && lang != "en" ==> r.value == "'',"
  {
    if KeepsAttribute(existing, name) then Entry(name, Get(existing, name).value)
    else if lang == "en" then Entry(name, QuotedRule(NamingHelper.SnakeCaseToTitleCase(name)))
    else Entry(name, "'',")
  }

  /** The attribute entries of the names, in order. */
  function AttributeEntries(names: seq<string>, existing: Entries<string>, lang: string): (r: seq<Laid>)
    ensures |r| == |names| && forall i :: 0 <= i < |names| ==> r[i] == AttributeEntry(names[i], existing, lang)
  {
    seq(|names|, i requires 0 <= i < |names| => AttributeEntry(names[i], existing, lang))
  }

  // ---------------------------------------------------------------- relation inference

  /** The two relations one foreign key column implies, each with the table it is attached to. */
  function FkAttachments(all: Entries<Table>, t: Table, fks: Entries<Column>): (r: seq<(Table, Relation)>)
    requires forall j :: 0 <= j < |fks| ==> fks[j].1.foreignKey.Some? && HasKey(all, fks[j].1.foreignKey.value.referencedTable)
    ensures |r| == 2 * |fks|
    ensures forall k :: 0 <= k < |r| ==> r[k].1.localTable == r[k].0.tableName
    ensures forall k :: 0 <= k < |r| && r[k].1.BelongsTo? ==> r[k].0 == t
  {
    if |fks| == 0 then []
    else
      var col := fks[|fks| - 1].1;
      var fk := col.foreignKey.value;
      assert HasKey(all, fk.referencedTable);
      var ref := Get(all, fk.referencedTable).value;
      FkAttachments(all, t, fks[..|fks| - 1])
        + [(t, BelongsTo(t.tableName, ref.tableName, col.columnName, fk.referencedColumn)),
           (ref, HasMany(ref.tableName, t.tableName, col.columnName, fk.referencedColumn))]
  }

  /** Every referenced table of a foreign key of a non-pivot table is a key of the tables. */
  predicate References(all: Entries<Table>, ts: Entries<Table>) {
    forall i, j :: 0 <= i < |ts| && !ts[i].1.isPivot && 0 <= j < |ts[i].1.foreignKeysIndex| ==>
      ts[i].1.foreignKeysIndex[j].1.foreignKey.Some?
      && HasKey(all, ts[i].1.foreignKeysIndex[j].1.foreignKey.value.referencedTable)
  }

  /**
   * Every relation the constructor attaches, in attaching order: for each non-pivot table
   * and each of its foreign key columns, a `BelongsTo` on the table and a `HasMany` on the
   * referenced table.
   */
  function Attachments(all: Entries<Table>, ts: Entries<Table>): (r: seq<(Table, Relation)>)
    requires References(all, ts)
    ensures forall k :: 0 <= k < |r| ==> r[k].1.localTable == r[k].0.tableName
    ensures forall k :: 0 <= k < |r| && r[k].1.BelongsTo? ==> !r[k].0.isPivot && r[k].0 in Objects(ts)
  {
    if |ts| == 0 then []
    else
      var t := ts[|ts| - 1].1;
      var front := Attachments(all, ts[..|ts| - 1]);
      var more := if t.isPivot then [] else FkAttachments(all, t, t.foreignKeysIndex);
      assert forall x :: x in Objects(ts[..|ts| - 1]) ==> x in Objects(ts);
      front + more
  }

  /** The relations attached to `t`, in attaching order. */
  function RelationsFor(t: Table, atts: seq<(Table, Relation)>): seq<Relation> {
    if |atts| == 0 then []
    else RelationsFor(t, atts[..|atts| - 1]) + if atts[|atts| - 1].0 == t then [atts[|atts| - 1].1] else []
  }

  lemma {:induction false} RelationsForAppend(t: Table, a: seq<(Table, Relation)>, b: seq<(Table, Relation)>)
    ensures RelationsFor(t, a + b) == RelationsFor(t, a) + RelationsFor(t, b)
    decreases |b|
  {
    if |b| > 0 {
      var front := b[..|b| - 1];
      assert (a + b)[..|a + b| - 1] == a + front;
      RelationsForAppend(t, a, front);
    } else {
      assert a + b == a;
    }
  }

  /** How many of the attached relations are `BelongsTo`, and how many `HasMany`. */
  function CountBelongsTo(atts: seq<(Table, Relation)>): nat {
    if |atts| == 0 then 0 else CountBelongsTo(atts[..|atts| - 1]) + if atts[|atts| - 1].1.BelongsTo? then 1 else 0
  }

  function CountHasMany(atts: seq<(Table, Relation)>): nat {
    if |atts| == 0 then 0 else CountHasMany(atts[..|atts| - 1]) + if atts[|atts| - 1].1.HasMany? then 1 else 0
  }

  /** The number of foreign key columns of the non-pivot tables. */
  function ForeignKeyCount(ts: Entries<Table>): nat {
    if |ts| == 0 then 0
    else ForeignKeyCount(ts[..|ts| - 1]) + if ts[|ts| - 1].1.isPivot then 0 else |ts[|ts| - 1].1.foreignKeysIndex|
  }

  lemma {:induction false} CountsAppend(a: seq<(Table, Relation)>, b: seq<(Table, Relation)>)
    ensures CountBelongsTo(a + b) == CountBelongsTo(a) + CountBelongsTo(b)
    ensures CountHasMany(a + b) == CountHasMany(a) + CountHasMany(b)
    decreases |b|
  {
    if |b| > 0 {
      var front := b[..|b| - 1];
      assert (a + b)[..|a + b| - 1] == a + front;
      CountsAppend(a, front);
    } else {
      assert a + b == a;
    }
  }

  lemma {:induction false} FkCounts(all: Entries<Table>, t: Table, fks: Entries<Column>)
    requires forall j :: 0 <= j < |fks| ==> fks[j].1.foreignKey.Some? && HasKey(all, fks[j].1.foreignKey.value.referencedTable)
    ensures CountBelongsTo(FkAttachments(all, t, fks)) == |fks|
    ensures CountHasMany(FkAttachments(all, t, fks)) == |fks|
  {
    if |fks| > 0 {
      var front := FkAttachments(all, t, fks[..|fks| - 1]);
      var r := FkAttachments(all, t, fks);
      FkCounts(all, t, fks[..|fks| - 1]);
      var pair := r[|front|..];
      assert r == front + pair;
      CountsAppend(front, pair);
      assert pair[0].1.BelongsTo? && pair[1].1.HasMany?;
      CountsPair(pair);
    }
  }

  lemma CountsPair(pair: seq<(Table, Relation)>)
    requires |pair| == 2 && pair[0].1.BelongsTo? && pair[1].1.HasMany?
    ensures CountBelongsTo(pair) == 1 && CountHasMany(pair) == 1
  {
    var none: seq<(Table, Relation)> := [];
    assert pair[..1][..0] == none;
    assert CountBelongsTo(pair[..1]) == 1 && CountHasMany(pair[..1]) == 0;
  }

  /**
   * Relation inference attaches as many `BelongsTo` as `HasMany` relations: one of each per
   * foreign key column of a non-pivot table.
   */
  lemma {:induction false} AttachmentCounts(all: Entries<Table>, ts: Entries<Table>)
    requires References(all, ts)
    ensures CountBelongsTo(Attachments(all, ts)) == ForeignKeyCount(ts)
    ensures CountHasMany(Attachments(all, ts)) == ForeignKeyCount(ts)
  {
    if |ts| > 0 {
      var t := ts[|ts| - 1].1;
      AttachmentCounts(all, ts[..|ts| - 1]);
      var front := Attachments(all, ts[..|ts| - 1]);
      var more := if t.isPivot then [] else FkAttachments(all, t, t.foreignKeysIndex);
      CountsAppend(front, more);
      if !t.isPivot {
        FkCounts(all, t, t.foreignKeysIndex);
      }
    }
  }

  // ---------------------------------------------------------------- equality

  /** PHP's `==` between two `Column` objects: every property loosely equal. */
  predicate ColumnLooseSame(a: Column, b: Column) {
    && a.tableName == b.tableName && a.columnName == b.columnName && a.dataType == b.dataType
    && LooseEq(a.charMaxLength, b.charMaxLength) && a.isNullable == b.isNullable
    && LooseEq(a.precision, b.precision) && LooseEq(a.scale, b.scale)
    && a.isUnsigned == b.isUnsigned && a.key == b.key && a.values == b.values && a.foreignKey == b.foreignKey
  }

  /** PHP's `==` between two foreign key indexes: the same keys, each with a loosely equal column. */
  predicate IndexLooseSame(a: Entries<Column>, b: Entries<Column>) {
    |a| == |b| && forall i :: 0 <= i < |a| ==> Get(b, a[i].0).Some? && ColumnLooseSame(a[i].1, Get(b, a[i].0).value)
  }

  /** `hasEquivalentColumn`: some column of `cols` is `equals` to `c`. */
  predicate HasEquivalent(c: Column, cols: seq<Column>) {
    exists j :: 0 <= j < |cols| && Equals(c, cols[j])
  }

  // ---------------------------------------------------------------- classes

  class Table {
    const tableName: string
    const columns: seq<Column>
    const foreignKeysIndex: Entries<Column>
    const extraColumnsCount: int
    const isPivot: bool
    const useCreatedAt: bool
    const useUpdatedAt: bool
    var relations: seq<Relation>

    /**
     * The timestamp flags say whether a column has that exact name; a table is a pivot
     * when all its columns but the bookkeeping ones are foreign keys.
     */
    constructor(tableName: string, columns: seq<Column>, foreignKeysIndex: Entries<Column>, extraColumnsCount: int)
      ensures this.tableName == tableName && this.columns == columns
      ensures this.foreignKeysIndex == foreignKeysIndex && this.extraColumnsCount == extraColumnsCount
      ensures useCreatedAt <==> "created_at" in Names(columns)
      ensures useUpdatedAt <==> "updated_at" in Names(columns)
      ensures isPivot <==> |foreignKeysIndex| == |columns| - extraColumnsCount
      ensures relations == []
    {
      this.tableName := tableName;
      this.columns := columns;
      this.useCreatedAt := "created_at" in Names(columns);
      this.useUpdatedAt := "updated_at" in Names(columns);
      this.foreignKeysIndex := foreignKeysIndex;
      this.extraColumnsCount := extraColumnsCount;
      this.isPivot := |foreignKeysIndex| == |columns| - extraColumnsCount;
      this.relations := [];
    }

    /** `addRelation($relation)`: appended at the end. */
    method AddRelation(r: Relation)
      modifies this
      ensures relations == old(relations) + [r]
    {
      relations := relations + [r];
    }

    /** `getColumn($name)`: the first column of that name. */
    method GetColumn(name: string) returns (r: Option<Column>)
      ensures r == FindColumn(columns, name)
    {
      var i := 0;
      while i < |columns|
        invariant 0 <= i <= |columns|
        invariant FindColumn(columns[i..], name) == FindColumn(columns, name)
      {
        assert columns[i..][1..] == columns[i + 1..];
        if columns[i].columnName == name {
          return Some(columns[i]);
        }
        i := i + 1;
      }
      return None;
    }

    /** The loop shared by the rule and resource merges: the raw entry text, column by column. */
    method MergeText(kind: Kind, existing: Entries<string>, previous: Database?) returns (raw: string)
      ensures raw == Text(AllEntries(kind, columns, existing, previous))
    {
      var head: seq<Laid> := if kind == BulkStoreRules then [ListEntry] else [];
      raw := if kind == BulkStoreRules then EntryText(ListEntry) else "";
      assert raw == Text(head) by {
        if kind == BulkStoreRules {
          assert head == [] + [ListEntry];
          TextSnoc([], ListEntry);
        }
      }
      var i := 0;
      while i < |columns|
        invariant 0 <= i <= |columns|
        invariant raw == Text(head + MergedEntries(kind, columns[..i], existing, previous))
      {
        var column := columns[i];
        MergedStep(kind, head, columns, i, existing, previous);
        if column.columnName !in Skipped(kind) {
          var text := ColumnEntry(kind, column, existing, previous);
          raw := raw + text;
        }
        i := i + 1;
      }
      assert columns[..|columns|] == columns;
    }

    /** `getStoreValidationRules($existing)`. */
    method GetStoreValidationRules(existing: Entries<string>, previous: Database?) returns (r: string)
      ensures r == FormatSpec(Text(AllEntries(StoreRules, columns, existing, previous)), "\t\t\t")
    {
      var raw := MergeText(StoreRules, existing, previous);
      r := FormatKeyValuePairs(raw, "\t\t\t");
    }

    /** `getBulkStoreValidationRules($existing)`. */
    method GetBulkStoreValidationRules(existing: Entries<string>, previous: Database?) returns (r: string)
      ensures r == FormatSpec(Text(AllEntries(BulkStoreRules, columns, existing, previous)), "\t\t\t")
    {
      var raw := MergeText(BulkStoreRules, existing, previous);
      r := FormatKeyValuePairs(raw, "\t\t\t");
    }

    /** `getUpdateValidationRules($existing)`. */
    method GetUpdateValidationRules(existing: Entries<string>, previous: Database?) returns (r: string)
      ensures r == FormatSpec(Text(AllEntries(UpdateRules, columns, existing, previous)), "\t\t\t")
    {
      var raw := MergeText(UpdateRules, existing, previous);
      r := FormatKeyValuePairs(raw, "\t\t\t");
    }

    /** `getResourceArray($existing)`. */
    method GetResourceArray(existing: Entries<string>, previous: Database?) returns (r: string)
      ensures r == FormatSpec(Text(AllEntries(ResourceArray, columns, existing, previous)), "\t\t\t")
    {
      var raw := MergeText(ResourceArray, existing, previous);
      r := FormatKeyValuePairs(raw, "\t\t\t");
    }

    /** `getFakerArray($existing)`: the formatted faker entries and the models the fresh fakers need. */
    method GetFakerArray(existing: Entries<string>, previous: Database?, className: string -> string, realText: real -> string)
      returns (faker: string, models: seq<string>)
      ensures faker == FormatSpec(Text(FakerEntries(columns, existing, previous, className, realText)), "\t\t\t")
      ensures models == FakerModels(columns, existing, previous, className, realText)
    {
      var raw := "";
      models := [];
      var i := 0;
      while i < |columns|
        invariant 0 <= i <= |columns|
        invariant raw == Text(FakerEntries(columns[..i], existing, previous, className, realText))
        invariant models == FakerModels(columns[..i], existing, previous, className, realText)
      {
        var column := columns[i];
        FakerTextStep(columns, i, existing, previous, className, realText);
        FakerModelStep(columns, i, existing, previous, className, realText);
        if column.columnName !in FactoryColumns {
          var text, named := FakerLine(column, existing, previous, className, realText);
          raw := raw + text;
          models := models + named;
        }
        i := i + 1;
      }
      assert columns[..|columns|] == columns;
      faker := FormatKeyValuePairs(raw, "\t\t\t");
    }

    /** `getModelFillable()`: one quoted name per line, the last newline trimmed off. */
    method GetModelFillable() returns (r: string)
      ensures r == TrimRight(Lined(FillableLines(columns)), {'\n', '\r'})
    {
      var raw := "";
      var i := 0;
      while i < |columns|
        invariant 0 <= i <= |columns|
        invariant raw == Lined(FillableLines(columns[..i]))
      {
        FillableStep(columns, i);
        if columns[i].columnName !in ModelFillableColumns {
          raw := raw + (FillableLine(columns[i]) + "\n");
        }
        i := i + 1;
      }
      assert columns[..|columns|] == columns;
      r := TrimRight(raw, {'\n', '\r'});
    }

    /**
     * `equals($table)`: the same column count, name, foreign key index, bookkeeping count and
     * pivot flag, every relation of this table among the other's (by rendered text), and an
     * `equals` counterpart in the other table for every column.
     */
    predicate Same(other: Table, render: Relation -> string)
      reads this, other
    {
      && |columns| == |other.columns|
      && tableName == other.tableName
      && IndexLooseSame(foreignKeysIndex, other.foreignKeysIndex)
      && extraColumnsCount == other.extraColumnsCount
      && isPivot == other.isPivot
      && RelationsCovered(relations, other.relations, render)
      && forall i :: 0 <= i < |columns| ==> HasEquivalent(columns[i], other.columns)
    }

    /** `equals($table)`, with its loops. */
    method Equals(other: Table, render: Relation -> string) returns (b: bool)
      ensures b == Same(other, render)
    {
      if |columns| != |other.columns| {
        return false;
      }
      if tableName != other.tableName || !IndexLooseSame(foreignKeysIndex, other.foreignKeysIndex)
        || extraColumnsCount != other.extraColumnsCount || isPivot != other.isPivot
        || !RelationsCovered(relations, other.relations, render)
      {
        return false;
      }
      var i := 0;
      while i < |columns|
        invariant 0 <= i <= |columns|
        invariant forall k :: 0 <= k < i ==> HasEquivalent(columns[k], other.columns)
      {
        var found := HasEquivalentColumn(columns[i], other.columns);
        if !found {
          return false;
        }
        i := i + 1;
      }
      return true;
    }
  }

  /** `hasEquivalentColumn($column, $columns)`. */
  method HasEquivalentColumn(c: Column, cols: seq<Column>) returns (b: bool)
    ensures b == HasEquivalent(c, cols)
  {
    var j := 0;
    while j < |cols|
      invariant 0 <= j <= |cols|
      invariant forall k :: 0 <= k < j ==> !Equals(c, cols[k])
    {
      if Equals(c, cols[j]) {
        return true;
      }
      j := j + 1;
    }
    return false;
  }

  /** Two foreign key indexes with the same entries compare equal, when keys are distinct. */
  lemma IndexLooseSameReflexive(a: Entries<Column>)
    requires DistinctKeys(a)
    ensures IndexLooseSame(a, a)
  {
    forall i | 0 <= i < |a|
      ensures Get(a, a[i].0) == Some(a[i].1)
    {
      FindDistinct(a, i);
    }
  }

  /** A table equals itself (its index keys being distinct, as PHP array keys are). */
  lemma TableSameReflexive(t: Table, render: Relation -> string)
    requires DistinctKeys(t.foreignKeysIndex)
    ensures t.Same(t, render)
  {
    IndexLooseSameReflexive(t.foreignKeysIndex);
    forall i | 0 <= i < |t.columns|
      ensures HasEquivalent(t.columns[i], t.columns)
    {
      EqualsReflexive(t.columns[i]);
    }
  }

  class Database {
    const tables: Entries<Table>

    /**
     * The constructor stores the tables and attaches the inferred relations, once: every
     * table ends with the relations it had plus those attached to it, in attaching order.
     */
    constructor(tables: Entries<Table>)
      requires References(tables, tables)
      modifies Objects(tables)
      ensures this.tables == tables
      ensures forall t :: t in Objects(tables) ==>
        t.relations == old(t.relations) + RelationsFor(t, Attachments(tables, tables))
    {
      this.tables := tables;
      new;
      AddTableRelations();
    }

    /** `addTableRealtions()`: the loop over the tables, attaching each non-pivot table's relations. */
    method AddTableRelations()
      requires References(tables, tables)
      modifies Objects(tables)
      ensures forall t :: t in Objects(tables) ==>
        t.relations == old(t.relations) + RelationsFor(t, Attachments(tables, tables))
    {
      var i := 0;
      while i < |tables|
        invariant 0 <= i <= |tables|
        invariant forall t :: t in Objects(tables) ==>
          t.relations == Attach(t, old(t.relations), Attachments(tables, tables[..i]))
      {
        var table := tables[i].1;
        TableStep(tables, tables, i);
        ghost var done := Attachments(tables, tables[..i]);
        if !table.isPivot {
          ghost var more := FkAttachments(tables, table, table.foreignKeysIndex);
          assert table in Objects(tables);
          AttachForeignKeys(table);
          forall t | t in Objects(tables)
            ensures Attach(t, Attach(t, old(t.relations), done), more) == Attach(t, old(t.relations), done + more)
          {
            AttachAppend(t, old(t.relations), done, more);
          }
        } else {
          assert Attachments(tables, tables[..i + 1]) == done + [] == done;
        }
        i := i + 1;
      }
      assert tables[..|tables|] == tables;
      forall t | t in Objects(tables)
        ensures Attach(t, old(t.relations), Attachments(tables, tables))
          == old(t.relations) + RelationsFor(t, Attachments(tables, tables))
      {
        AttachIsAppend(t, old(t.relations), Attachments(tables, tables));
      }
    }

    /** The inner loop of `addTableRealtions()`: a `BelongsTo` on the table and a `HasMany` on the referenced table per foreign key. */
    method AttachForeignKeys(table: Table)
      requires forall k :: 0 <= k < |table.foreignKeysIndex| ==> (table.foreignKeysIndex[k].1.foreignKey.Some?
        && HasKey(tables, table.foreignKeysIndex[k].1.foreignKey.value.referencedTable))
      requires table in Objects(tables)
      modifies Objects(tables)
      ensures forall t :: t in Objects(tables) ==>
        t.relations == Attach(t, old(t.relations), FkAttachments(tables, table, table.foreignKeysIndex))
    {
      var fks := table.foreignKeysIndex;
      ghost var before := map t | t in Objects(tables) :: t.relations;
      assert fks[..0] == [];
      var j := 0;
      while j < |fks|
        invariant 0 <= j <= |fks|
        invariant forall t :: t in Objects(tables) ==>
          t.relations == Attach(t, before[t], FkAttachments(tables, table, fks[..j]))
      {
        AttachForeignKey(table, j, before);
        j := j + 1;
      }
      assert fks[..|fks|] == fks;
    }

    /** One turn of the inner loop of `addTableRealtions()`: the relations of the foreign key at `j`. */
    method AttachForeignKey(table: Table, j: nat, ghost before: map<Table, seq<Relation>>)
      requires j < |table.foreignKeysIndex|
      requires forall k :: 0 <= k < |table.foreignKeysIndex| ==> (table.foreignKeysIndex[k].1.foreignKey.Some?
        && HasKey(tables, table.foreignKeysIndex[k].1.foreignKey.value.referencedTable))
      requires table in Objects(tables)
      requires forall t :: t in Objects(tables) ==>
        (t in before && t.relations == Attach(t, before[t], FkAttachments(tables, table, table.foreignKeysIndex[..j])))
      modifies Objects(tables)
      ensures forall t :: t in Objects(tables) ==>
        t.relations == Attach(t, before[t], FkAttachments(tables, table, table.foreignKeysIndex[..j + 1]))
    {
      var fks := table.foreignKeysIndex;
      var col := fks[j].1;
      var fk := col.foreignKey.value;
      var referenced := Get(tables, fk.referencedTable).value;
      var bt := BelongsTo(table.tableName, referenced.tableName, col.columnName, fk.referencedColumn);
      var hm := HasMany(referenced.tableName, table.tableName, col.columnName, fk.referencedColumn);
      AttachStep(tables, table, fks, j);
      ReferencedObject(tables, fk.referencedTable);
      AttachPairAll(before, FkAttachments(tables, table, fks[..j]), (table, bt), (referenced, hm));
      AddRelationPair(table, bt, referenced, hm);
    }

    /** The two `addRelation` calls of one foreign key, in order. */
    method AddRelationPair(a: Table, ra: Relation, b: Table, rb: Relation)
      requires a in Objects(tables) && b in Objects(tables)
      modifies Objects(tables)
      ensures forall t :: t in Objects(tables) ==>
        t.relations == old(t.relations) + (if t == a then [ra] else []) + (if t == b then [rb] else [])
    {
      a.AddRelation(ra);
      b.AddRelation(rb);
    }

    /** `getTable($tableName)`: the first table of that name. */
    method GetTable(name: string) returns (r: Option<Table>)
      ensures r == FindTable(tables, name)
    {
      var i := 0;
      while i < |tables|
        invariant 0 <= i <= |tables|
        invariant FindTable(tables[i..], name) == FindTable(tables, name)
      {
        assert tables[i..][1..] == tables[i + 1..];
        if tables[i].1.tableName == name {
          return Some(tables[i].1);
        }
        i := i + 1;
      }
      return None;
    }

    /**
     * `equals($database)`: the same number of tables, and every table of this database has
     * an `equals` counterpart among the other's, wherever it stands.
     */
    predicate Same(other: Database, render: Relation -> string)
      reads this, other, Objects(tables), Objects(other.tables)
    {
      && |tables| == |other.tables|
      && forall i :: 0 <= i < |tables| ==> HasEquivalentTable(tables[i].1, other.tables, render)
    }

    /** `equals($database)`, with its loops. */
    method Equals(other: Database, render: Relation -> string) returns (b: bool)
      ensures b == Same(other, render)
    {
      if |tables| != |other.tables| {
        return false;
      }
      var i := 0;
      while i < |tables|
        invariant 0 <= i <= |tables|
        invariant forall k :: 0 <= k < i ==> HasEquivalentTable(tables[k].1, other.tables, render)
      {
        var found := FindEquivalentTable(tables[i].1, other.tables, render);
        if !found {
          return false;
        }
        i := i + 1;
      }
      return true;
    }

    /**
     * `getValidationAttributesArray($existing, $lang)`: every column name once, at its first
     * occurrence across the tables, except the bookkeeping columns; each keeps its existing entry
     * when that is set and not blank, else gets its title-cased name (in English) or an
     * empty string.
     */
    method GetValidationAttributesArray(existing: Entries<string>, lang: string) returns (r: string)
      ensures r == FormatSpec(Text(AttributeEntries(FirstOccurrences(AllColumnNames(tables)), existing, lang)), "\t\t")
    {
      var raw := "";
      var names: seq<string> := [];
      var i := 0;
      while i < |tables|
        invariant 0 <= i <= |tables|
        invariant names == FirstOccurrences(AllColumnNames(tables[..i]))
        invariant raw == Text(AttributeEntries(names, existing, lang))
      {
        var columns := tables[i].1.columns;
        ghost var prior := AllColumnNames(tables[..i]);
        NamesStart(prior, columns);
        var j := 0;
        while j < |columns|
          invariant 0 <= j <= |columns|
          invariant names == FirstOccurrences(prior + Names(columns[..j]))
          invariant raw == Text(AttributeEntries(names, existing, lang))
        {
          var name := columns[j].columnName;
          NameStep(prior, columns, j);
          if name !in names && name !in ExtraColumns {
            var text := AttributeLine(name, existing, lang);
            AttributeStep(names, name, existing, lang);
            raw := raw + text;
            names := names + [name];
          }
          j := j + 1;
        }
        TableNamesStep(tables, i);
        i := i + 1;
      }
      assert tables[..|tables|] == tables;
      r := FormatKeyValuePairs(raw, "\t\t");
    }
  }

  /** The body of the attribute loop for a new name: the existing entry, or a fresh one. */
  method AttributeLine(name: string, existing: Entries<string>, lang: string) returns (text: string)
    ensures text == EntryText(AttributeEntry(name, existing, lang))
  {
    if HasKey(existing, name) && !PhpEmpty(TrimChars(Get(existing, name).value, AttributeTrim)) {
      text := EntryText(Entry(name, Get(existing, name).value));
    } else if lang == "en" {
      text := EntryText(Entry(name, QuotedRule(NamingHelper.SnakeCaseToTitleCase(name))));
    } else {
      text := EntryText(Entry(name, "'',"));
    }
  }

  lemma NamesStart(prior: seq<string>, columns: seq<Column>)
    ensures FirstOccurrences(prior + Names(columns[..0])) == FirstOccurrences(prior)
  {
    assert prior + Names(columns[..0]) == prior;
  }

  lemma NameStep(prior: seq<string>, columns: seq<Column>, j: nat)
    requires j < |columns|
    ensures var ns := FirstOccurrences(prior + Names(columns[..j])); var name := columns[j].columnName;
      FirstOccurrences(prior + Names(columns[..j + 1]))
        == ns + if name in ns || name in ExtraColumns then [] else [name]
  {
    var name := columns[j].columnName;
    var before := prior + Names(columns[..j]);
    assert prior + Names(columns[..j + 1]) == before + [name];
    assert (before + [name])[..|before|] == before;
  }

  lemma TableNamesStep(ts: Entries<Table>, i: nat)
    requires i < |ts|
    ensures AllColumnNames(ts[..i + 1]) == AllColumnNames(ts[..i]) + Names(ts[i].1.columns[..|ts[i].1.columns|])
  {
    assert ts[..i + 1][..i] == ts[..i];
    assert ts[i].1.columns[..|ts[i].1.columns|] == ts[i].1.columns;
  }

  lemma AttributeStep(names: seq<string>, name: string, existing: Entries<string>, lang: string)
    ensures Text(AttributeEntries(names + [name], existing, lang))
      == Text(AttributeEntries(names, existing, lang)) + EntryText(AttributeEntry(name, existing, lang))
  {
    var es := AttributeEntries(names, existing, lang);
    assert AttributeEntries(names + [name], existing, lang) == es + [AttributeEntry(name, existing, lang)];
    TextSnoc(es, AttributeEntry(name, existing, lang));
  }

  /** One table's step of relation inference: its foreign keys' attachments, unless it is a pivot. */
  lemma TableStep(all: Entries<Table>, ts: Entries<Table>, i: nat)
    requires References(all, ts) && i < |ts|
    ensures References(all, ts[..i]) && References(all, ts[..i + 1])
    ensures var t := ts[i].1;
      !t.isPivot ==> forall k :: 0 <= k < |t.foreignKeysIndex| ==>
        t.foreignKeysIndex[k].1.foreignKey.Some? && HasKey(all, t.foreignKeysIndex[k].1.foreignKey.value.referencedTable)
    ensures var t := ts[i].1;
      Attachments(all, ts[..i + 1])
        == Attachments(all, ts[..i]) + if t.isPivot then [] else FkAttachments(all, t, t.foreignKeysIndex)
  {
    assert ts[..i + 1][..i] == ts[..i];
    var t := ts[i].1;
    if t.isPivot {
      assert Attachments(all, ts[..i + 1]) == Attachments(all, ts[..i]) + [];
    }
  }

  /** One foreign key column's step of relation inference: one relation each for the two tables. */
  lemma AttachStep(all: Entries<Table>, t: Table, fks: Entries<Column>, j: nat)
    requires j < |fks|
    requires forall k :: 0 <= k < |fks| ==> fks[k].1.foreignKey.Some? && HasKey(all, fks[k].1.foreignKey.value.referencedTable)
    ensures fks[j].1.foreignKey.Some? && HasKey(all, fks[j].1.foreignKey.value.referencedTable)
    ensures var col := fks[j].1; var fk := col.foreignKey.value; var ref := Get(all, fk.referencedTable).value;
      FkAttachments(all, t, fks[..j + 1]) == FkAttachments(all, t, fks[..j])
        + [(t, BelongsTo(t.tableName, ref.tableName, col.columnName, fk.referencedColumn)),
           (ref, HasMany(ref.tableName, t.tableName, col.columnName, fk.referencedColumn))]
  {
    assert fks[..j + 1][..j] == fks[..j];
  }

  /** A table found by key is one of the tables. */
  lemma ReferencedObject(all: Entries<Table>, k: string)
    requires HasKey(all, k)
    ensures Get(all, k).value in Objects(all)
  {
    var i := Find(all, k).value;
    assert all[i].1 == Get(all, k).value;
  }

  /** The relations attached to `t` after `prev`, in attaching order. */
  function Attach(t: Table, prev: seq<Relation>, atts: seq<(Table, Relation)>): seq<Relation> {
    if |atts| == 0 then prev
    else Attach(t, prev, atts[..|atts| - 1]) + if atts[|atts| - 1].0 == t then [atts[|atts| - 1].1] else []
  }

  /** Attaching a pair appends the first's relation, then the second's, to the table that gets them. */
  lemma AttachPair(t: Table, prev: seq<Relation>, atts: seq<(Table, Relation)>, x: (Table, Relation), y: (Table, Relation))
    ensures Attach(t, prev, atts + [x, y])
      == Attach(t, prev, atts) + (if x.0 == t then [x.1] else []) + (if y.0 == t then [y.1] else [])
  {
    assert (atts + [x, y])[..|atts| + 1] == atts + [x];
    assert (atts + [x])[..|atts|] == atts;
  }

  /** `AttachPair` for every table whose earlier relations `before` records. */
  lemma AttachPairAll(before: map<Table, seq<Relation>>, atts: seq<(Table, Relation)>, x: (Table, Relation), y: (Table, Relation))
    ensures forall t :: t in before ==>
      (Attach(t, before[t], atts + [x, y])
        == Attach(t, before[t], atts) + (if x.0 == t then [x.1] else []) + (if y.0 == t then [y.1] else []))
  {
    forall t | t in before
      ensures Attach(t, before[t], atts + [x, y])
        == Attach(t, before[t], atts) + (if x.0 == t then [x.1] else []) + (if y.0 == t then [y.1] else [])
    {
      AttachPair(t, before[t], atts, x, y);
    }
  }

  lemma {:induction false} AttachAppend(t: Table, prev: seq<Relation>, a: seq<(Table, Relation)>, b: seq<(Table, Relation)>)
    ensures Attach(t, Attach(t, prev, a), b) == Attach(t, prev, a + b)
    decreases |b|
  {
    if |b| > 0 {
      AttachAppend(t, prev, a, b[..|b| - 1]);
      assert (a + b)[..|a + b| - 1] == a + b[..|b| - 1];
    } else {
      assert a + b == a;
    }
  }

  lemma {:induction false} AttachIsAppend(t: Table, prev: seq<Relation>, atts: seq<(Table, Relation)>)
    ensures Attach(t, prev, atts) == prev + RelationsFor(t, atts)
  {
    if |atts| > 0 {
      AttachIsAppend(t, prev, atts[..|atts| - 1]);
    }
  }

  /** The relations a pair of attachments gives one table: the first's, then the second's. */
  lemma PairRelations(t: Table, a: Table, ra: Relation, b: Table, rb: Relation)
    ensures RelationsFor(t, [(a, ra), (b, rb)]) == (if t == a then [ra] else []) + (if t == b then [rb] else [])
  {
    var pair := [(a, ra), (b, rb)];
    var none: seq<(Table, Relation)> := [];
    assert pair[..1] == [(a, ra)];
    assert pair[..1][..0] == none;
    var first := if t == a then [ra] else [];
    assert RelationsFor(t, pair[..1]) == RelationsFor(t, none) + first;
    assert RelationsFor(t, none) + first == first;
  }

  /** `hasEquivalentTable($table, $tables)`: some table of `ts` is `equals` to `t`. */
  predicate HasEquivalentTable(t: Table, ts: Entries<Table>, render: Relation -> string)
    reads t, Objects(ts)
  {
    exists j :: 0 <= j < |ts| && t.Same(ts[j].1, render)
  }

  /** `hasEquivalentTable($table, $tables)`, with its loop. */
  method FindEquivalentTable(t: Table, ts: Entries<Table>, render: Relation -> string) returns (b: bool)
    ensures b == HasEquivalentTable(t, ts, render)
  {
    var j := 0;
    while j < |ts|
      invariant 0 <= j <= |ts|
      invariant forall k :: 0 <= k < j ==> !t.Same(ts[k].1, render)
    {
      var same := t.Equals(ts[j].1, render);
      if same {
        return true;
      }
      j := j + 1;
    }
    return false;
  }

  /** A database equals itself when every table's index keys are distinct. */
  lemma DatabaseSameReflexive(d: Database, render: Relation -> string)
    requires forall i :: 0 <= i < |d.tables| ==> DistinctKeys(d.tables[i].1.foreignKeysIndex)
    ensures d.Same(d, render)
  {
    forall i | 0 <= i < |d.tables|
      ensures HasEquivalentTable(d.tables[i].1, d.tables, render)
    {
      TableSameReflexive(d.tables[i].1, render);
    }
  }

  /**
   * Each attribute name appears once; every column name of the tables that is not a
   * bookkeeping column gets an entry.
   */
  lemma {:induction false} AttributeNames(ts: Entries<Table>, existing: Entries<string>, lang: string)
    ensures var es := AttributeEntries(FirstOccurrences(AllColumnNames(ts)), existing, lang);
      (forall i, j :: 0 <= i < j < |es| ==> es[i].key != es[j].key)
      && forall i, k :: 0 <= i < |ts| && 0 <= k < |ts[i].1.columns| && ts[i].1.columns[k].columnName !in ExtraColumns ==>
        exists m :: 0 <= m < |es| && es[m].key == ts[i].1.columns[k].columnName
  {
    var names := FirstOccurrences(AllColumnNames(ts));
    FirstOccurrencesFacts(AllColumnNames(ts));
    forall i, k | 0 <= i < |ts| && 0 <= k < |ts[i].1.columns| && ts[i].1.columns[k].columnName !in ExtraColumns
      ensures ts[i].1.columns[k].columnName in names
    {
      NameListed(ts, i, k);
    }
  }

  lemma {:induction false} NameListed(ts: Entries<Table>, i: nat, k: nat)
    requires i < |ts| && k < |ts[i].1.columns|
    ensures ts[i].1.columns[k].columnName in AllColumnNames(ts)
  {
    if i == |ts| - 1 {
      assert Names(ts[i].1.columns)[k] == ts[i].1.columns[k].columnName;
    } else {
      NameListed(ts[..|ts| - 1], i, k);
    }
  }
}
