/**
 * The Postman request body built for one table: a form field per column (form-data or
 * URL-encoded mode), or a JSON object of sample values (raw mode). The columns left out of
 * form requests (`id`, `created_at`, `updated_at`) never appear; in list mode the fields
 * address the first element of a `list` array.
 */
module RequestBodyGenerator {
  import opened Wrappers
  import opened PhpString
  import opened PhpArray
  import opened Constants
  import opened ColumnModel
  import Structure
  import Rules = ValidationRuleGenerator

  /** The body modes, by the names `generate` dispatches on. */
  datatype BodyMode = Formdata | Raw | Urlencoded {
    function Name(): string {
      match this
      case Formdata => "formdata"
      case Raw => "raw"
      case Urlencoded => "urlencoded"
    }
  }

  /** The raw option the raw mode sets. */
  const RawJson: string := "json"

  /** A form-data or URL-encoded field. */
  datatype Field = Field(key: string, value: string, description: string)

  /** The raw body data: the sample object itself, or `['list' => [object]]` in list mode. */
  datatype RawData = Object(entries: Entries<string>) | ListOf(entries: Entries<string>)

  /** A `Body`: its mode and the data of that mode, the others `null`. */
  datatype Body = Body(mode: BodyMode, formdata: Option<seq<Field>>, raw: Option<RawData>,
                       urlencoded: Option<seq<Field>>, options: Option<string>)

  /** A column that appears in the body. */
  predicate Included(c: Column) {
    c.columnName !in FormRequestColumns
  }

  /** The columns that appear in the body, in table order. */
  function Kept(cols: seq<Column>): (r: seq<Column>)
    ensures |r| <= |cols|
  {
    if |cols| == 0 then []
    else Kept(cols[..|cols| - 1]) + if Included(cols[|cols| - 1]) then [cols[|cols| - 1]] else []
  }

  /** The sample value of a column: its name followed by ` value`. */
  function SampleValue(name: string): string {
    name + " value"
  }

  /** The field key: the column name, or `list[0][<name>]` in list mode. */
  function FieldKey(name: string, isList: bool): string {
    if isList then "list[0][" + name + "]" else name
  }

  /** The field of one column. */
  function FieldOf(c: Column, isList: bool): Field {
    Field(FieldKey(c.columnName, isList), SampleValue(c.columnName), Structure.ColumnDescription(c))
  }

  /** The fields of the form-data and URL-encoded modes: one per kept column, in order. */
  function Fields(cols: seq<Column>, isList: bool): (r: seq<Field>)
    ensures |r| == |Kept(cols)|
  {
    var ks := Kept(cols);
    seq(|ks|, k requires 0 <= k < |ks| => FieldOf(ks[k], isList))
  }

  /** The raw sample object: each kept column's name assigned its sample value, in turn. */
  function RawObject(cols: seq<Column>): Entries<string> {
    if |cols| == 0 then []
    else
      var c := cols[|cols| - 1];
      var m := RawObject(cols[..|cols| - 1]);
      if Included(c) then Put(m, c.columnName, SampleValue(c.columnName)) else m
  }

  /** The body each mode builds. */
  function BodyFor(cols: seq<Column>, mode: BodyMode, isList: bool): Body {
    match mode
    case Formdata => Body(Formdata, Some(Fields(cols, isList)), None, None, None)
    case Raw =>
      var m := RawObject(cols);
      Body(Raw, None, Some(if isList then ListOf(m) else Object(m)), None, Some(RawJson))
    case Urlencoded => Body(Urlencoded, None, None, Some(Fields(cols, isList)), None)
  }

  /** One more column is kept exactly when it is not a form-request column. */
  lemma {:induction false} KeptSnoc(cols: seq<Column>, c: Column)
    ensures Kept(cols + [c]) == Kept(cols) + if Included(c) then [c] else []
  {
    assert (cols + [c])[..|cols|] == cols;
  }

  /** The fields after one more column. */
  lemma {:induction false} FieldsSnoc(cols: seq<Column>, c: Column, isList: bool)
    ensures Fields(cols + [c], isList) == Fields(cols, isList) + if Included(c) then [FieldOf(c, isList)] else []
  {
    KeptSnoc(cols, c);
  }

  /** The kept columns are exactly the columns of the table that are not form-request columns. */
  lemma {:induction false} KeptMembers(cols: seq<Column>)
    ensures forall c :: c in Kept(cols) <==> c in cols && Included(c)
  {
    if |cols| > 0 {
      var init := cols[..|cols| - 1];
      KeptMembers(init);
      assert cols == init + [cols[|cols| - 1]];
    }
  }

  /** Every field names a kept column: its value is that name with ` value`, its key the name or `list[0][name]`. */
  lemma {:induction false} FieldShape(cols: seq<Column>, isList: bool, k: nat)
    requires k < |Fields(cols, isList)|
    ensures var c := Kept(cols)[k];
      c in cols && c.columnName !in FormRequestColumns
      && Fields(cols, isList)[k].value == c.columnName + " value"
      && Fields(cols, isList)[k].key == (if isList then "list[0][" + c.columnName + "]" else c.columnName)
      && StartsWith(Rules.Generate(c, false), Fields(cols, isList)[k].description)
  {
    KeptMembers(cols);
    assert Kept(cols)[k] in Kept(cols);
  }

  /** In list mode the column name is read back from between `list[0][` and the final `]`. */
  lemma {:induction false} ListKeyName(name: string)
    ensures var key := FieldKey(name, true);
      |key| == |name| + 9 && key[..8] == "list[0][" && key[8..|key| - 1] == name && key[|key| - 1] == ']'
  {
  }

  /**
   * The raw object has one entry per kept column name, each holding that name with
   * ` value`, and no other entries.
   */
  lemma {:induction false} RawObjectEntries(cols: seq<Column>)
    ensures DistinctKeys(RawObject(cols))
    ensures forall name :: (Get(RawObject(cols), name)
      == if name in Structure.Names(Kept(cols)) then Some(SampleValue(name)) else None)
  {
    if |cols| > 0 {
      var init := cols[..|cols| - 1];
      var c := cols[|cols| - 1];
      RawObjectEntries(init);
      KeptSnoc(init, c);
      assert cols == init + [c];
      if Included(c) {
        PutFacts(RawObject(init), c.columnName, SampleValue(c.columnName));
        assert Structure.Names(Kept(init) + [c]) == Structure.Names(Kept(init)) + [c.columnName];
      } else {
        assert Kept(init) + [] == Kept(init);
      }
    }
  }

  /** Raw bodies carry the JSON option and the raw data only; the other modes carry no option. */
  lemma {:induction false} BodyShape(cols: seq<Column>, mode: BodyMode, isList: bool)
    ensures BodyFor(cols, mode, isList).mode == mode
    ensures BodyFor(cols, mode, isList).options == if mode == Raw then Some("json") else None
    ensures BodyFor(cols, mode, isList).formdata.Some? <==> mode == Formdata
    ensures BodyFor(cols, mode, isList).raw.Some? <==> mode == Raw
    ensures BodyFor(cols, mode, isList).urlencoded.Some? <==> mode == Urlencoded
    ensures mode == Raw ==> (BodyFor(cols, mode, isList).raw.value.ListOf? <==> isList)
  {
  }

  /** The generator for one table, body mode and list flag. */
  class Generator {
    const selectedTable: Structure.Table
    const bodyMode: BodyMode
    const isList: bool

    constructor(selectedTable: Structure.Table, bodyMode: BodyMode, isList: bool)
      ensures this.selectedTable == selectedTable && this.bodyMode == bodyMode && this.isList == isList
    {
      this.selectedTable := selectedTable;
      this.bodyMode := bodyMode;
      this.isList := isList;
    }

    /** `generate()`: the body of the chosen mode. */
    method Generate() returns (b: Body)
      ensures b == BodyFor(selectedTable.columns, bodyMode, isList)
    {
      match bodyMode
      case Formdata => b := FormdataBody();
      case Raw => b := RawBody();
      case Urlencoded => b := UrlencodedBody();
    }

    /** `formdata()`. */
    method FormdataBody() returns (b: Body)
      ensures b == BodyFor(selectedTable.columns, Formdata, isList)
    {
      var data := CollectFields(selectedTable.columns, isList);
      b := Body(Formdata, Some(data), None, None, None);
    }

    /** `urlencoded()`. */
    method UrlencodedBody() returns (b: Body)
      ensures b == BodyFor(selectedTable.columns, Urlencoded, isList)
    {
      var data := CollectFields(selectedTable.columns, isList);
      b := Body(Urlencoded, None, None, Some(data), None);
    }

    /** `raw()`. */
    method RawBody() returns (b: Body)
      ensures b == BodyFor(selectedTable.columns, Raw, isList)
    {
      var cols := selectedTable.columns;
      var temp: Entries<string> := [];
      var i := 0;
      while i < |cols|
        invariant 0 <= i <= |cols|
        invariant temp == RawObject(cols[..i])
      {
        var key := cols[i].columnName;
        if key !in FormRequestColumns {
          temp := Put(temp, key, key + " value");
        }
        assert cols[..i + 1][..i] == cols[..i];
        i := i + 1;
      }
      assert cols[..|cols|] == cols;
      var data := if isList then ListOf(temp) else Object(temp);
      b := Body(Raw, None, Some(data), None, Some(RawJson));
    }
  }

  /** The `foreach` of the form-data and URL-encoded modes: one field per kept column. */
  method CollectFields(cols: seq<Column>, isList: bool) returns (data: seq<Field>)
    ensures data == Fields(cols, isList)
  {
    data := [];
    var i := 0;
    while i < |cols|
      invariant 0 <= i <= |cols|
      invariant data == Fields(cols[..i], isList)
    {
      var key := cols[i].columnName;
      if key !in FormRequestColumns {
        var value := key + " value";
        var description := Structure.ColumnDescription(cols[i]);
        if isList {
          key := "list[0][" + key + "]";
        }
        data := data + [Field(key, value, description)];
      }
      FieldsSnoc(cols[..i], cols[i], isList);
      assert cols[..i + 1] == cols[..i] + [cols[i]];
      i := i + 1;
    }
    assert cols[..|cols|] == cols;
  }
}
