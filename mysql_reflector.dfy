/**
 * `MySQLReflector`: turning the rows of the catalog query into the structure model. The
 * rows are grouped by table in the order their tables first appear; each row becomes a
 * normalised `Column`, each group a `Table` with its foreign key index and its count of
 * bookkeeping columns, and the tables a `Database`. The query itself and the connection
 * are not part of this model: the rows are the input.
 */
module MySQLReflector {
  import opened Wrappers
  import opened PhpString
  import opened PhpArray
  import opened Constants
  import opened ColumnModel
  import Structure

  /**
   * One row of the catalog query, as `fetch_assoc` returns it. The numeric fields are
   * `null` or an integer; the referenced table and column are `null` when the column is
   * not part of a key with a reference.
   */
  datatype Row = Row(
    tableName: string,
    columnName: string,
    dataType: string,
    columnType: string,
    charMaxLength: Option<int>,
    precision: Option<int>,
    scale: Option<int>,
    columnKey: string,
    isNullable: string,
    isUnsigned: string,
    referencedTable: Option<string>,
    referencedColumn: Option<string>)

  // ---------------------------------------------------------------- data types

  /** The vendor types `getReflectedDataType` knows. */
  const VendorTypes: map<string, DataType> := map[
    "varchar" := STRING, "longtext" := STRING, "text" := STRING, "mediumtext" := STRING,
    "char" := STRING, "tinytext" := STRING, "binary" := STRING, "varbinary" := STRING,
    "blob" := STRING, "mediumblob" := STRING, "longblob" := STRING, "tinyblob" := STRING,
    "json" := JSON,
    "datetime" := DATE_TIME, "timestamp" := DATE_TIME, "date" := DATE, "time" := TIME, "year" := YEAR,
    "int" := INTEGER, "bigint" := BIG_INTEGER, "tinyint" := TINY_INTEGER, "smallint" := SMALL_INTEGER,
    "mediumint" := MEDIUM_INTEGER, "bit" := BIT,
    "float" := DECIMAL, "decimal" := DECIMAL, "double" := DECIMAL
  ]

  /** `getReflectedDataType($dataType)`: the mapped type, `NONE` for any other vendor type. */
  function ReflectedDataType(dataType: string): (r: DataType)
    ensures r == NONE <==> dataType !in VendorTypes
  {
    if dataType in VendorTypes then VendorTypes[dataType] else NONE
  }

  /** The vendor types read as strings. */
  const StringVendorTypes: set<string> := {"varchar", "longtext", "text", "mediumtext", "char", "tinytext",
                                           "binary", "varbinary", "blob", "mediumblob", "longblob", "tinyblob"}

  /** The vendor types read as strings are those listed. */
  lemma StringTypes(dataType: string)
    ensures ReflectedDataType(dataType) == STRING <==> dataType in StringVendorTypes
  {
    if dataType in StringVendorTypes {
      StringTypesListed(dataType);
    }
  }

  /** Every listed string type is read as a string. */
  lemma StringTypesListed(dataType: string)
    requires dataType in StringVendorTypes
    ensures ReflectedDataType(dataType) == STRING
  {
  }

  /** The vendor types read as integers of some width. */
  lemma IntegerTypes(dataType: string)
    ensures IsIntegerType(ReflectedDataType(dataType)) <==> dataType in {"int", "bigint", "tinyint", "smallint", "mediumint"}
  {
  }

  /** The vendor types read as dates or times. */
  lemma DateTypes(dataType: string)
    ensures IsDateType(ReflectedDataType(dataType)) <==> dataType in {"datetime", "timestamp", "date", "time", "year"}
  {
  }

  /** The vendor types read as decimals. */
  lemma DecimalTypes(dataType: string)
    ensures ReflectedDataType(dataType) == DECIMAL <==> dataType in {"float", "decimal", "double"}
  {
  }

  // ---------------------------------------------------------------- one column

  /** PHP's loose comparison of `int|null` with `null` (and `in_array` with `[null, 0, '0']`). */
  predicate LooseNull(x: Option<int>) {
    x == None || x == Some(0)
  }

  /** A length, precision or scale as the column keeps it: `null` for `null` and `0`. */
  function Normalised(x: Option<int>): Option<int> {
    if LooseNull(x) then None else x
  }

  /** `$s != null` on `string|null`: set and not the empty string. */
  predicate Present(s: Option<string>) {
    s.Some? && s.value != ""
  }

  /** Both referenced fields are set: the column is a foreign key. */
  predicate HasForeignKey(row: Row) {
    Present(row.referencedTable) && Present(row.referencedColumn)
  }

  /** The types whose values are listed in the column type. */
  predicate IsListType(dataType: string) {
    dataType == "set" || dataType == "enum"
  }

  /**
   * What `preg_match('/^<type>\((.+)\)$/', $columnType)` captures: the text between
   * `<type>(` and the final `)`, at least one character and no newline; `$` also matches
   * before one final newline.
   */
  function ListMatch(dataType: string, columnType: string): (r: Option<string>)
    ensures r.Some? ==> |r.value| > 0 && '\n' !in r.value
  {
    var body := if |columnType| > 0 && columnType[|columnType| - 1] == '\n' then columnType[..|columnType| - 1] else columnType;
    var head := dataType + "(";
    if |body| >= |head| + 2 && body[..|head|] == head && body[|body| - 1] == ')' && '\n' !in body[|head|..|body| - 1]
    then Some(body[|head|..|body| - 1])
    else None
  }

  /** The listed values: quotes removed, split at `,`, each trimmed. */
  function Values(inner: string): (r: seq<string>)
    ensures |r| >= 1
  {
    var parts := Split(ReplaceAll(inner, "'", ""), ",");
    seq(|parts|, k requires 0 <= k < |parts| => Trim(parts[k]))
  }

  /** The values of a `set` or `enum` column; none for other types or an unmatched column type. */
  function ListValues(dataType: string, columnType: string): seq<string> {
    if IsListType(dataType) then
      match ListMatch(dataType, columnType)
      case Some(inner) => Values(inner)
      case None => []
    else []
  }

  /** The column one row describes, in the table named `tableName`. */
  function ReflectColumn(tableName: string, row: Row): Column {
    Column(
      tableName,
      row.columnName,
      ReflectedDataType(row.dataType),
      if IsListType(row.dataType) then None else Normalised(row.charMaxLength),
      ToLower(row.isNullable) == "yes",
      row.isUnsigned == "yes",
      Normalised(row.precision),
      Normalised(row.scale),
      row.columnKey,
      ListValues(row.dataType, row.columnType),
      if HasForeignKey(row) then Some(ForeignKey(row.referencedTable.value, row.referencedColumn.value)) else None)
  }

  /**
   * The numbers a column keeps are loosely equal to the catalog's and never `0`, so the
   * normalisation is idempotent; `set` and `enum` columns have no length, other columns
   * no values; the foreign key is set exactly when both referenced fields are.
   */
  lemma ColumnNormalised(tableName: string, row: Row)
    ensures var c := ReflectColumn(tableName, row);
      && c.tableName == tableName && c.columnName == row.columnName
      && LooseEq(c.precision, row.precision) && c.precision != Some(0) && Normalised(c.precision) == c.precision
      && LooseEq(c.scale, row.scale) && c.scale != Some(0) && Normalised(c.scale) == c.scale
      && (IsListType(row.dataType) ==> c.charMaxLength == None)
      && (!IsListType(row.dataType) ==> LooseEq(c.charMaxLength, row.charMaxLength) && c.values == [])
      && (c.foreignKey.Some? <==> (row.referencedTable.Some? && row.referencedTable.value != ""
                                   && row.referencedColumn.Some? && row.referencedColumn.value != ""))
      && (c.foreignKey.Some? ==> (c.foreignKey.value.referencedTable == row.referencedTable.value
                                 && c.foreignKey.value.referencedColumn == row.referencedColumn.value))
  {
  }

  /** `is_nullable` is read without regard to case; `is_unsigned` must be exactly `yes`. */
  lemma NullableAnyCase(tableName: string, row: Row)
    ensures ReflectColumn(tableName, row.(isNullable := "YES")).isNullable
    ensures ReflectColumn(tableName, row.(isNullable := "Yes")).isNullable
    ensures !ReflectColumn(tableName, row.(isUnsigned := "YES")).isUnsigned
  {
    assert ToLower("YES") == "yes";
    assert ToLower("Yes") == "yes";
  }

  // ---------------------------------------------------------------- enum values

  /** `s` with every `c` removed. */
  function Without(s: string, c: char): (r: string)
    ensures c !in r
  {
    if |s| == 0 then "" else (if s[0] == c then "" else [s[0]]) + Without(s[1..], c)
  }

  lemma {:induction false} WithoutAppend(a: string, b: string, c: char)
    ensures Without(a + b, c) == Without(a, c) + Without(b, c)
  {
    if |a| > 0 {
      assert (a + b)[0] == a[0] && (a + b)[1..] == a[1..] + b;
      WithoutAppend(a[1..], b, c);
    } else {
      assert a + b == b;
    }
  }

  lemma {:induction false} WithoutAbsent(s: string, c: char)
    requires c !in s
    ensures Without(s, c) == s
  {
    if |s| > 0 {
      assert c !in s[1..];
      WithoutAbsent(s[1..], c);
    }
  }

  /** A one-character string occurs in `s` only where that character is. */
  lemma {:induction false} CharOccurs(s: string, c: char, i: nat)
    requires OccursAt(s, [c], i)
    ensures i < |s| && s[i] == c
  {
    assert s[i..i + 1][0] == s[i];
  }

  /** The first place `c` occurs in `s`. */
  function FirstAt(s: string, c: char): (i: nat)
    requires c in s
    ensures i < |s| && s[i] == c && c !in s[..i]
  {
    if s[0] == c then 0
    else
      var j := FirstAt(s[1..], c);
      assert s[..j + 1] == [s[0]] + s[1..][..j];
      j + 1
  }

  /** Splitting at the first `c` and joining back without separator. */
  lemma {:induction false} SplitFirstChar(a: string, c: char, b: string)
    requires c !in a
    ensures Join(Split(a + [c] + b, [c]), "") == a + Join(Split(b, [c]), "")
  {
    var s := a + [c] + b;
    FoundAfter(a, c, b);
    SplitFirst(s, [c], |a|);
    assert s[..|a|] == a && s[|a| + 1..] == b;
    JoinCons(a, Split(b, [c]), "");
  }

  /** `str_replace` of one character by nothing removes it. */
  lemma {:induction false} ReplaceCharRemoves(s: string, c: char)
    ensures ReplaceAll(s, [c], "") == Without(s, c)
    decreases |s|
  {
    if c !in s {
      NotFound(s, c);
      SplitNone(s, [c]);
      WithoutAbsent(s, c);
    } else {
      var i := FirstAt(s, c);
      var a, b := s[..i], s[i + 1..];
      assert s == a + [c] + b;
      SplitFirstChar(a, c, b);
      ReplaceCharRemoves(b, c);
      WithoutSplit(a, c, b);
    }
  }

  /** Removing `c` from `a + [c] + b` with no `c` in `a`. */
  lemma {:induction false} WithoutSplit(a: string, c: char, b: string)
    requires c !in a
    ensures Without(a + [c] + b, c) == a + Without(b, c)
  {
    WithoutAppend(a + [c], b, c);
    WithoutAppend(a, [c], c);
    WithoutAbsent(a, c);
    assert Without([c], c) == "" by { assert [c][1..] == ""; }
  }

  /** A value as the catalog lists it: between single quotes. */
  function Quoted(v: string): string {
    "'" + v + "'"
  }

  function QuotedAll(vs: seq<string>): (r: seq<string>)
    ensures |r| == |vs| && forall k :: 0 <= k < |vs| ==> r[k] == Quoted(vs[k])
  {
    seq(|vs|, k requires 0 <= k < |vs| => Quoted(vs[k]))
  }

  /** Removing the quotes from one quoted value. */
  lemma {:induction false} UnquoteOne(v: string)
    requires '\'' !in v
    ensures Without(Quoted(v), '\'') == v
  {
    WithoutAppend("'" + v, "'", '\'');
    WithoutAppend("'", v, '\'');
    WithoutAbsent(v, '\'');
    assert Without("'", '\'') == "" by { assert "'"[1..] == ""; }
  }

  /** Removing quotes around a `,`. */
  lemma {:induction false} UnquoteComma(a: string, b: string)
    ensures Without(a + "," + b, '\'') == Without(a, '\'') + "," + Without(b, '\'')
  {
    WithoutAppend(a + ",", b, '\'');
    WithoutAppend(a, ",", '\'');
    WithoutAbsent(",", '\'');
  }

  /** Removing the quotes from the listed values leaves the values joined by `,`. */
  lemma {:induction false} UnquoteJoin(vs: seq<string>)
    requires forall k :: 0 <= k < |vs| ==> '\'' !in vs[k]
    ensures Without(Join(QuotedAll(vs), ","), '\'') == Join(vs, ",")
  {
    var q := QuotedAll(vs);
    if |vs| == 1 {
      UnquoteOne(vs[0]);
    } else if |vs| > 1 {
      UnquoteJoin(vs[1..]);
      assert q[1..] == QuotedAll(vs[1..]);
      JoinCons(q[0], q[1..], ",");
      JoinCons(vs[0], vs[1..], ",");
      assert q == [q[0]] + q[1..] && vs == [vs[0]] + vs[1..];
      UnquoteComma(q[0], Join(q[1..], ","));
      UnquoteOne(vs[0]);
    }
  }

  /** The captured text with its quotes removed is the values joined by `,`. */
  lemma {:induction false} UnquotedInner(vs: seq<string>)
    requires forall k :: 0 <= k < |vs| ==> '\'' !in vs[k]
    ensures ReplaceAll(Join(QuotedAll(vs), ","), "'", "") == Join(vs, ",")
  {
    ReplaceCharRemoves(Join(QuotedAll(vs), ","), '\'');
    UnquoteJoin(vs);
  }

  /**
   * The values of a `set` or `enum` column come back as declared: for values that are
   * already trimmed, hold no quote, comma or newline, the column type `<type>('a','b',...)`
   * yields exactly those values, in order.
   */
  lemma {:induction false} ListValuesRoundTrip(dataType: string, vs: seq<string>)
    requires IsListType(dataType) && |vs| >= 1
    requires forall k :: 0 <= k < |vs| ==> '\'' !in vs[k] && ',' !in vs[k] && '\n' !in vs[k] && Trim(vs[k]) == vs[k]
    ensures ListValues(dataType, dataType + "(" + Join(QuotedAll(vs), ",") + ")") == vs
  {
    QuotedJoinShape(vs);
    ListValuesOf(dataType, Join(QuotedAll(vs), ","));
    ValuesOfJoin(vs);
  }

  /** The quoted values joined by `,` are not empty and hold no newline. */
  lemma {:induction false} QuotedJoinShape(vs: seq<string>)
    requires |vs| >= 1 && forall k :: 0 <= k < |vs| ==> '\n' !in vs[k]
    ensures |Join(QuotedAll(vs), ",")| > 0 && '\n' !in Join(QuotedAll(vs), ",")
  {
    JoinLength(QuotedAll(vs), ",");
    NoCharInJoin(QuotedAll(vs), ",", '\n');
  }

  /** A `set` or `enum` column type `<type>(inner)` lists the values of `inner`. */
  lemma {:induction false} ListValuesOf(dataType: string, inner: string)
    requires IsListType(dataType) && |inner| > 0 && '\n' !in inner
    ensures ListValues(dataType, dataType + "(" + inner + ")") == Values(inner)
  {
    ListMatchOf(dataType, inner);
  }

  /** The values of the quoted values joined by `,` are the values. */
  lemma {:induction false} ValuesOfJoin(vs: seq<string>)
    requires |vs| >= 1
    requires forall k :: 0 <= k < |vs| ==> '\'' !in vs[k] && ',' !in vs[k] && Trim(vs[k]) == vs[k]
    ensures Values(Join(QuotedAll(vs), ",")) == vs
  {
    UnquotedInner(vs);
    SplitValues(vs);
  }

  /** The column type `<type>(inner)` matches, capturing `inner`. */
  lemma {:induction false} ListMatchOf(dataType: string, inner: string)
    requires |inner| > 0 && '\n' !in inner
    ensures ListMatch(dataType, dataType + "(" + inner + ")") == Some(inner)
  {
    var head := dataType + "(";
    var ct := head + inner + ")";
    assert dataType + "(" + inner + ")" == ct;
    assert ct[|ct| - 1] == ')';
    assert ct[..|head|] == head && ct[|head|..|ct| - 1] == inner;
  }

  /** Splitting the joined values at `,` and trimming gives them back. */
  lemma {:induction false} SplitValues(vs: seq<string>)
    requires |vs| >= 1
    requires forall k :: 0 <= k < |vs| ==> ',' !in vs[k] && Trim(vs[k]) == vs[k]
    ensures var parts := Split(Join(vs, ","), ",");
      seq(|parts|, k requires 0 <= k < |parts| => Trim(parts[k])) == vs
  {
    forall k, i | 0 <= k < |vs| && OccursAt(vs[k], ",", i)
      ensures false
    {
      CharOccurs(vs[k], ',', i);
    }
    SplitJoin(vs, ",");
  }

  /** A joined list is at least as long as its first part. */
  lemma {:induction false} JoinLength(ps: seq<string>, sep: string)
    requires |ps| >= 1
    ensures |Join(ps, sep)| >= |ps[0]|
  {
    if |ps| > 1 {
      JoinCons(ps[0], ps[1..], sep);
      assert ps == [ps[0]] + ps[1..];
    }
  }

  /** A character in no part and not in the separator is not in the joined text. */
  lemma {:induction false} NoCharInJoin(ps: seq<string>, sep: string, c: char)
    requires c !in sep && forall k :: 0 <= k < |ps| ==> c !in ps[k]
    ensures c !in Join(ps, sep)
  {
    if |ps| > 1 {
      NoCharInJoin(ps[1..], sep, c);
    }
  }

  // ---------------------------------------------------------------- grouping

  /** The table names of the rows, in row order. */
  function TableNames(rows: seq<Row>): (r: seq<string>)
    ensures |r| == |rows| && forall k :: 0 <= k < |rows| ==> r[k] == rows[k].tableName
  {
    seq(|rows|, k requires 0 <= k < |rows| => rows[k].tableName)
  }

  /** The names, each once, in the order they first appear. */
  function Appearance(ns: seq<string>): seq<string> {
    if |ns| == 0 then []
    else
      var front := Appearance(ns[..|ns| - 1]);
      var n := ns[|ns| - 1];
      if n in front then front else front + [n]
  }

  /** The rows of one table, in row order. */
  function RowsOf(rows: seq<Row>, name: string): seq<Row> {
    if |rows| == 0 then []
    else RowsOf(rows[..|rows| - 1], name) + if rows[|rows| - 1].tableName == name then [rows[|rows| - 1]] else []
  }

  /** The group built so far for `name`, `[]` before its first row. */
  function GroupOf(m: Entries<seq<Row>>, name: string): seq<Row> {
    match Get(m, name)
    case Some(rs) => rs
    case None => []
  }

  /** `$groupedResults[$tableName][] = $row`, creating the group first if need be. */
  function AddRow(m: Entries<seq<Row>>, row: Row): Entries<seq<Row>> {
    Put(m, row.tableName, GroupOf(m, row.tableName) + [row])
  }

  /** The grouped rows after the whole loop. */
  function Grouped(rows: seq<Row>): Entries<seq<Row>> {
    if |rows| == 0 then [] else AddRow(Grouped(rows[..|rows| - 1]), rows[|rows| - 1])
  }

  /** The grouping loop of `getDatabaseInfo`. */
  method GroupRows(rows: seq<Row>) returns (groupedResults: Entries<seq<Row>>)
    ensures groupedResults == Grouped(rows)
  {
    groupedResults := [];
    var i := 0;
    while i < |rows|
      invariant 0 <= i <= |rows|
      invariant groupedResults == Grouped(rows[..i])
    {
      var row := rows[i];
      var tableName := row.tableName;
      GroupedSnoc(rows, i);
      if !HasKey(groupedResults, tableName) {
        NewGroup(groupedResults, row);
        groupedResults := Put(groupedResults, tableName, []);
      }
      groupedResults := Put(groupedResults, tableName, Get(groupedResults, tableName).value + [row]);
      i := i + 1;
    }
    assert rows[..|rows|] == rows;
  }

  /** The rows grouped one row further. */
  lemma GroupedSnoc(rows: seq<Row>, i: nat)
    requires i < |rows|
    ensures Grouped(rows[..i + 1]) == AddRow(Grouped(rows[..i]), rows[i])
  {
    assert rows[..i + 1][..i] == rows[..i];
  }

  /** For a table without a group yet, creating the empty group and then appending adds the row as `AddRow` does. */
  lemma NewGroup(m: Entries<seq<Row>>, row: Row)
    requires !HasKey(m, row.tableName)
    ensures var m1 := Put(m, row.tableName, []);
      Put(m1, row.tableName, Get(m1, row.tableName).value + [row]) == AddRow(m, row)
  {
    var k := row.tableName;
    var m1 := Put(m, k, []);
    assert m1 == m + [(k, [])];
    assert Find(m1, k) == Some(|m|);
  }

  /** The names that appear are those of the rows. */
  lemma {:induction false} AppearanceMembers(ns: seq<string>)
    ensures forall n :: n in Appearance(ns) <==> n in ns
    ensures forall i, j :: 0 <= i < j < |Appearance(ns)| ==> Appearance(ns)[i] != Appearance(ns)[j]
  {
    if |ns| > 0 {
      AppearanceMembers(ns[..|ns| - 1]);
      assert ns == ns[..|ns| - 1] + [ns[|ns| - 1]];
    }
  }

  /** A table without rows has an empty group. */
  lemma {:induction false} RowsOfAbsent(rows: seq<Row>, name: string)
    requires name !in TableNames(rows)
    ensures RowsOf(rows, name) == []
  {
    if |rows| > 0 {
      assert TableNames(rows[..|rows| - 1]) == TableNames(rows)[..|rows| - 1];
      RowsOfAbsent(rows[..|rows| - 1], name);
    }
  }

  /** The rows of a table are rows of the input with that table name. */
  lemma {:induction false} RowsOfMembers(rows: seq<Row>, name: string)
    ensures forall r :: r in RowsOf(rows, name) <==> r in rows && r.tableName == name
  {
    if |rows| > 0 {
      RowsOfMembers(rows[..|rows| - 1], name);
      assert rows == rows[..|rows| - 1] + [rows[|rows| - 1]];
    }
  }

  /** The keys after an assignment: unchanged for a key present, one more at the end otherwise. */
  lemma KeysPut<V>(m: Entries<V>, k: string, v: V)
    ensures Keys(Put(m, k, v)) == if HasKey(m, k) then Keys(m) else Keys(m) + [k]
  {
  }

  /** Each table's group holds that table's rows in row order; no table is grouped twice. */
  lemma {:induction false} GroupedGet(rows: seq<Row>)
    ensures DistinctKeys(Grouped(rows))
    ensures forall k :: Get(Grouped(rows), k) == if k in TableNames(rows) then Some(RowsOf(rows, k)) else None
  {
    if |rows| > 0 {
      var init := rows[..|rows| - 1];
      var row := rows[|rows| - 1];
      var m := Grouped(init);
      var k0 := row.tableName;
      GroupedGet(init);
      assert TableNames(rows) == TableNames(init) + [k0];
      PutFacts(m, k0, GroupOf(m, k0) + [row]);
      if k0 !in TableNames(init) {
        RowsOfAbsent(init, k0);
      }
      assert Grouped(rows) == Put(m, k0, GroupOf(m, k0) + [row]);
      forall k
        ensures Get(Grouped(rows), k) == if k in TableNames(rows) then Some(RowsOf(rows, k)) else None
      {
        if k != k0 {
          assert RowsOf(rows, k) == RowsOf(init, k) + [];
          assert Get(Grouped(rows), k) == Get(m, k);
          assert Get(m, k) == if k in TableNames(init) then Some(RowsOf(init, k)) else None;
          assert k in TableNames(rows) <==> k in TableNames(init);
          assert RowsOf(rows, k) == RowsOf(init, k);
        } else {
          assert RowsOf(rows, k) == RowsOf(init, k) + [row];
          assert GroupOf(m, k) == RowsOf(init, k);
          assert Get(Grouped(rows), k) == Some(GroupOf(m, k0) + [row]);
          assert k in TableNames(rows);
        }
      }
    }
  }

  /** The groups are keyed by the table names, each once, in the order the tables first appear. */
  lemma {:induction false} GroupedKeys(rows: seq<Row>)
    ensures Keys(Grouped(rows)) == Appearance(TableNames(rows))
  {
    if |rows| > 0 {
      var init := rows[..|rows| - 1];
      var row := rows[|rows| - 1];
      var m := Grouped(init);
      var k0 := row.tableName;
      GroupedKeys(init);
      GroupedGet(init);
      AppearanceMembers(TableNames(init));
      assert TableNames(rows)[..|rows| - 1] == TableNames(init);
      KeysPut(m, k0, GroupOf(m, k0) + [row]);
      assert HasKey(m, k0) <==> k0 in TableNames(init);
    }
  }

  /** No table is grouped twice. */
  lemma GroupedDistinct(rows: seq<Row>)
    ensures DistinctKeys(Grouped(rows))
  {
    GroupedGet(rows);
  }

  /** The group stored at each position holds the rows of the table named there. */
  lemma GroupAt(rows: seq<Row>, i: nat)
    requires i < |Grouped(rows)|
    ensures var (name, group) := Grouped(rows)[i];
      name in TableNames(rows) && group == RowsOf(rows, name)
  {
    GroupedGet(rows);
    FindDistinct(Grouped(rows), i);
  }

  // ---------------------------------------------------------------- one table

  /** The columns of a table, one per row, in row order. */
  function Columns(tableName: string, rows: seq<Row>): (r: seq<Column>)
    ensures |r| == |rows| && forall k :: 0 <= k < |rows| ==> r[k] == ReflectColumn(tableName, rows[k])
  {
    seq(|rows|, k requires 0 <= k < |rows| => ReflectColumn(tableName, rows[k]))
  }

  /** The number of bookkeeping columns among the rows. */
  function ExtraCount(rows: seq<Row>): nat {
    if |rows| == 0 then 0
    else ExtraCount(rows[..|rows| - 1]) + if rows[|rows| - 1].columnName in ExtraColumns then 1 else 0
  }

  /** The foreign key columns of the rows, each under its column name, in row order. */
  function ForeignKeyPairs(tableName: string, rows: seq<Row>): seq<(string, Column)> {
    if |rows| == 0 then []
    else
      var row := rows[|rows| - 1];
      ForeignKeyPairs(tableName, rows[..|rows| - 1])
        + if HasForeignKey(row) then [(row.columnName, ReflectColumn(tableName, row))] else []
  }

  /** The foreign key index: `array_merge` of each foreign key column under its name. */
  function ForeignKeysIndex(tableName: string, rows: seq<Row>): Entries<Column> {
    FromPairs(ForeignKeyPairs(tableName, rows))
  }

  /** Every bookkeeping column is counted once: the count is at most the number of columns, with equality only when all are. */
  lemma {:induction false} ExtraCountBound(rows: seq<Row>)
    ensures ExtraCount(rows) <= |rows|
    ensures ExtraCount(rows) == |rows| <==> forall k :: 0 <= k < |rows| ==> rows[k].columnName in ExtraColumns
  {
    if |rows| > 0 {
      var init := rows[..|rows| - 1];
      ExtraCountBound(init);
      assert forall k :: 0 <= k < |init| ==> init[k] == rows[k];
    }
  }

  /** The names of the foreign key columns, in row order. */
  function ForeignKeyNames(rows: seq<Row>): seq<string> {
    if |rows| == 0 then []
    else
      var row := rows[|rows| - 1];
      ForeignKeyNames(rows[..|rows| - 1]) + if HasForeignKey(row) then [row.columnName] else []
  }

  /** An index entry: a foreign key column of the table, under its own name. */
  predicate IndexedColumn(tableName: string, p: (string, Column)) {
    p.1.columnName == p.0 && p.1.tableName == tableName && p.1.foreignKey.Some?
  }

  /** A foreign key row's column is an index entry under the row's name, referencing the row's table. */
  lemma KeyedColumn(tableName: string, row: Row)
    requires HasForeignKey(row)
    ensures var c := ReflectColumn(tableName, row);
      IndexedColumn(tableName, (row.columnName, c)) && c.foreignKey.value.referencedTable == row.referencedTable.value
  {
  }

  /** The pairs are keyed by the foreign key column names. */
  lemma {:induction false} PairsKeys(tableName: string, rows: seq<Row>)
    ensures Keys(ForeignKeyPairs(tableName, rows)) == ForeignKeyNames(rows)
  {
    if |rows| > 0 {
      PairsKeys(tableName, rows[..|rows| - 1]);
    }
  }

  /** Every pair is a foreign key column under its own name. */
  lemma {:induction false} PairsIndexed(tableName: string, rows: seq<Row>)
    ensures forall i :: (0 <= i < |ForeignKeyPairs(tableName, rows)|
      ==> IndexedColumn(tableName, ForeignKeyPairs(tableName, rows)[i]))
  {
    if |rows| > 0 {
      var row := rows[|rows| - 1];
      var front := ForeignKeyPairs(tableName, rows[..|rows| - 1]);
      var ps := ForeignKeyPairs(tableName, rows);
      PairsIndexed(tableName, rows[..|rows| - 1]);
      if HasForeignKey(row) {
        KeyedColumn(tableName, row);
      }
      forall i | 0 <= i < |ps|
        ensures IndexedColumn(tableName, ps[i])
      {
        if i < |front| {
          assert ps[i] == front[i];
        }
      }
    }
  }

  /** Every foreign key row references a table among `names`. */
  predicate ReferencesAmong(rows: seq<Row>, names: seq<string>) {
    forall k :: 0 <= k < |rows| && HasForeignKey(rows[k]) ==> rows[k].referencedTable.value in names
  }

  /** A column whose foreign key references a table among `names`. */
  predicate RefersAmong(c: Column, names: seq<string>) {
    c.foreignKey.Some? && c.foreignKey.value.referencedTable in names
  }

  /** When every foreign key row references a table among `names`, so does every pair. */
  lemma {:induction false} PairsReference(tableName: string, rows: seq<Row>, names: seq<string>)
    requires ReferencesAmong(rows, names)
    ensures forall i :: (0 <= i < |ForeignKeyPairs(tableName, rows)|
      ==> RefersAmong(ForeignKeyPairs(tableName, rows)[i].1, names))
  {
    if |rows| > 0 {
      var init := rows[..|rows| - 1];
      assert forall k :: 0 <= k < |init| ==> init[k] == rows[k];
      var row := rows[|rows| - 1];
      var front := ForeignKeyPairs(tableName, init);
      var ps := ForeignKeyPairs(tableName, rows);
      PairsReference(tableName, init, names);
      if HasForeignKey(row) {
        KeyedColumn(tableName, row);
      }
      forall i | 0 <= i < |ps|
        ensures RefersAmong(ps[i].1, names)
      {
        if i < |front| {
          assert ps[i] == front[i];
        }
      }
    }
  }

  /** The index has one key for each foreign key column name, and no other. */
  lemma IndexKeys(tableName: string, rows: seq<Row>)
    ensures DistinctKeys(ForeignKeysIndex(tableName, rows))
    ensures forall n :: HasKey(ForeignKeysIndex(tableName, rows), n) <==> n in ForeignKeyNames(rows)
  {
    var ps := ForeignKeyPairs(tableName, rows);
    FromPairsFacts(ps);
    PairsKeys(tableName, rows);
    forall n
      ensures HasKey(FromPairs(ps), n) <==> n in ForeignKeyNames(rows)
    {
      if n in ForeignKeyNames(rows) {
        var i :| 0 <= i < |ps| && Keys(ps)[i] == n;
      }
    }
  }

  /** Every entry of the index is a foreign key column of the table under its own name. */
  lemma IndexEntries(tableName: string, rows: seq<Row>)
    ensures forall j :: (0 <= j < |ForeignKeysIndex(tableName, rows)|
      ==> IndexedColumn(tableName, ForeignKeysIndex(tableName, rows)[j]))
  {
    var ps := ForeignKeyPairs(tableName, rows);
    var index := ForeignKeysIndex(tableName, rows);
    FromPairsMembers(ps);
    PairsIndexed(tableName, rows);
    forall j | 0 <= j < |index|
      ensures IndexedColumn(tableName, index[j])
    {
      assert index[j] in ps;
      var i :| 0 <= i < |ps| && ps[i] == index[j];
    }
  }

  /** When every foreign key row references a table among `names`, so does every entry of the index. */
  lemma IndexReferences(tableName: string, rows: seq<Row>, names: seq<string>)
    requires ReferencesAmong(rows, names)
    ensures forall j :: (0 <= j < |ForeignKeysIndex(tableName, rows)|
      ==> RefersAmong(ForeignKeysIndex(tableName, rows)[j].1, names))
  {
    var ps := ForeignKeyPairs(tableName, rows);
    var index := ForeignKeysIndex(tableName, rows);
    FromPairsMembers(ps);
    PairsReference(tableName, rows, names);
    forall j | 0 <= j < |index|
      ensures RefersAmong(index[j].1, names)
    {
      assert index[j] in ps;
      var i :| 0 <= i < |ps| && ps[i] == index[j];
    }
  }

  /** The reflection of one table's rows. */
  method ReflectTable(tableName: string, tableColumns: seq<Row>) returns (t: Structure.Table)
    ensures fresh(t)
    ensures t.tableName == tableName && t.columns == Columns(tableName, tableColumns)
    ensures t.foreignKeysIndex == ForeignKeysIndex(tableName, tableColumns)
    ensures t.extraColumnsCount == ExtraCount(tableColumns)
    ensures t.relations == []
  {
    var columns: seq<Column> := [];
    var extraColumnsCount := 0;
    var foreignKeysIndex: Entries<Column> := [];
    var i := 0;
    while i < |tableColumns|
      invariant 0 <= i <= |tableColumns|
      invariant columns == Columns(tableName, tableColumns[..i])
      invariant extraColumnsCount == ExtraCount(tableColumns[..i])
      invariant foreignKeysIndex == ForeignKeysIndex(tableName, tableColumns[..i])
    {
      var row := tableColumns[i];
      var newColumn := ReflectColumn(tableName, row);
      columns := columns + [newColumn];
      if row.columnName in ExtraColumns {
        extraColumnsCount := extraColumnsCount + 1;
      }
      if newColumn.foreignKey != None {
        foreignKeysIndex := Put(foreignKeysIndex, row.columnName, newColumn);
      }
      TableStep(tableName, tableColumns, i);
      i := i + 1;
    }
    assert tableColumns[..|tableColumns|] == tableColumns;
    t := new Structure.Table(tableName, columns, foreignKeysIndex, extraColumnsCount);
  }

  /** One more row adds its column, counts it if it is a bookkeeping column and indexes it if it is a foreign key. */
  lemma TableStep(tableName: string, rows: seq<Row>, i: nat)
    requires i < |rows|
    ensures var done := rows[..i]; var row := rows[i]; var next := rows[..i + 1];
      && Columns(tableName, next) == Columns(tableName, done) + [ReflectColumn(tableName, row)]
      && ExtraCount(next) == ExtraCount(done) + (if row.columnName in ExtraColumns then 1 else 0)
      && ForeignKeysIndex(tableName, next)
        == if HasForeignKey(row) then Put(ForeignKeysIndex(tableName, done), row.columnName, ReflectColumn(tableName, row))
           else ForeignKeysIndex(tableName, done)
  {
    var next := rows[..i + 1];
    assert next[..i] == rows[..i] && next[i] == rows[i];
    ColumnsSnoc(tableName, next);
    IndexSnoc(tableName, next);
  }

  /** The columns of one more row. */
  lemma ColumnsSnoc(tableName: string, rows: seq<Row>)
    requires |rows| > 0
    ensures Columns(tableName, rows) == Columns(tableName, rows[..|rows| - 1]) + [ReflectColumn(tableName, rows[|rows| - 1])]
  {
  }

  /** The foreign key index of one more row. */
  lemma IndexSnoc(tableName: string, rows: seq<Row>)
    requires |rows| > 0
    ensures var row := rows[|rows| - 1]; var done := rows[..|rows| - 1];
      ForeignKeysIndex(tableName, rows)
        == if HasForeignKey(row) then Put(ForeignKeysIndex(tableName, done), row.columnName, ReflectColumn(tableName, row))
           else ForeignKeysIndex(tableName, done)
  {
    var row := rows[|rows| - 1];
    var ps := ForeignKeyPairs(tableName, rows[..|rows| - 1]);
    if HasForeignKey(row) {
      FromPairsSnoc(ps, (row.columnName, ReflectColumn(tableName, row)));
    } else {
      assert ps + [] == ps;
    }
  }

  // ---------------------------------------------------------------- the database

  /** Every foreign key names a table that has rows. */
  predicate Resolvable(rows: seq<Row>) {
    ReferencesAmong(rows, TableNames(rows))
  }

  /** The rows of one table of resolvable rows reference tables that have rows. */
  lemma GroupResolvable(rows: seq<Row>, name: string)
    requires Resolvable(rows)
    ensures ReferencesAmong(RowsOf(rows, name), TableNames(rows))
  {
    var group := RowsOf(rows, name);
    RowsOfMembers(rows, name);
    forall k | 0 <= k < |group| && HasForeignKey(group[k])
      ensures group[k].referencedTable.value in TableNames(rows)
    {
      assert group[k] in rows;
      var m :| 0 <= m < |rows| && rows[m] == group[k];
    }
  }

  /** A table built from the rows of the table `name`. */
  predicate BuiltFrom(t: Structure.Table, name: string, rows: seq<Row>) {
    && t.tableName == name
    && t.columns == Columns(name, RowsOf(rows, name))
    && t.foreignKeysIndex == ForeignKeysIndex(name, RowsOf(rows, name))
    && t.extraColumnsCount == ExtraCount(RowsOf(rows, name))
  }

  /** Every table of `tables` is built from the rows of the table it is stored under. */
  predicate AllBuiltFrom(tables: Entries<Structure.Table>, rows: seq<Row>) {
    forall i :: 0 <= i < |tables| ==> BuiltFrom(tables[i].1, tables[i].0, rows)
  }

  /** A table built from its rows, appended under its name, keeps every table built from its rows. */
  lemma BuiltFromSnoc(tables: Entries<Structure.Table>, rows: seq<Row>, name: string, t: Structure.Table)
    requires AllBuiltFrom(tables, rows) && BuiltFrom(t, name, rows)
    ensures AllBuiltFrom(tables + [(name, t)], rows)
  {
  }

  /** The next group's name is not a key yet, so assigning it appends. */
  lemma NewKey<U, V>(tables: Entries<U>, results: Entries<V>, i: nat)
    requires DistinctKeys(results) && i < |results|
    requires Keys(tables) == Keys(results[..i])
    ensures Find(tables, results[i].0).None?
    ensures Keys(results[..i + 1]) == Keys(results[..i]) + [results[i].0]
  {
    forall k | 0 <= k < |tables|
      ensures tables[k].0 != results[i].0
    {
      assert Keys(tables)[k] == results[k].0;
    }
  }

  /** The tables built from resolvable rows satisfy the database's reference precondition. */
  lemma TablesResolve(rows: seq<Row>, tables: Entries<Structure.Table>)
    requires Resolvable(rows)
    requires Keys(tables) == Keys(Grouped(rows))
    requires AllBuiltFrom(tables, rows)
    ensures Structure.References(tables, tables)
  {
    GroupedGet(rows);
    forall i, j | 0 <= i < |tables| && 0 <= j < |tables[i].1.foreignKeysIndex|
      ensures tables[i].1.foreignKeysIndex[j].1.foreignKey.Some?
      ensures HasKey(tables, tables[i].1.foreignKeysIndex[j].1.foreignKey.value.referencedTable)
    {
      var name := tables[i].0;
      GroupResolvable(rows, name);
      IndexReferences(name, RowsOf(rows, name), TableNames(rows));
      var target := tables[i].1.foreignKeysIndex[j].1.foreignKey.value.referencedTable;
      assert Get(Grouped(rows), target).Some?;
      FindSameKeys(tables, Grouped(rows), target);
    }
  }

  /** Each group holds the rows of the table it is stored under; no table is grouped twice. */
  predicate GroupsOf(results: Entries<seq<Row>>, rows: seq<Row>) {
    DistinctKeys(results) && forall i :: 0 <= i < |results| ==> results[i].1 == RowsOf(rows, results[i].0)
  }

  /** The grouped rows are the groups of the rows. */
  lemma GroupedGroups(rows: seq<Row>)
    ensures GroupsOf(Grouped(rows), rows)
  {
    GroupedDistinct(rows);
    forall i | 0 <= i < |Grouped(rows)|
      ensures Grouped(rows)[i].1 == RowsOf(rows, Grouped(rows)[i].0)
    {
      GroupAt(rows, i);
    }
  }

  /** Storing the table built from the next group under its name appends it, keeping the loop's invariant. */
  lemma TableAppended(tables: Entries<Structure.Table>, results: Entries<seq<Row>>, rows: seq<Row>, i: nat, t: Structure.Table)
    requires GroupsOf(results, rows) && i < |results|
    requires Keys(tables) == Keys(results[..i]) && AllBuiltFrom(tables, rows)
    requires t.tableName == results[i].0 && t.columns == Columns(t.tableName, results[i].1)
    requires t.foreignKeysIndex == ForeignKeysIndex(t.tableName, results[i].1)
    requires t.extraColumnsCount == ExtraCount(results[i].1)
    ensures Put(tables, results[i].0, t) == tables + [(results[i].0, t)]
    ensures Keys(tables + [(results[i].0, t)]) == Keys(results[..i + 1])
    ensures AllBuiltFrom(tables + [(results[i].0, t)], rows)
  {
    NewKey(tables, results, i);
    BuiltFromSnoc(tables, rows, results[i].0, t);
  }

  /** The loop of `reflect()`: each group reflected into a table under its name, in group order. */
  method ReflectGroups(rows: seq<Row>, results: Entries<seq<Row>>) returns (tables: Entries<Structure.Table>)
    requires GroupsOf(results, rows)
    ensures Keys(tables) == Keys(results)
    ensures AllBuiltFrom(tables, rows)
    ensures forall i :: 0 <= i < |tables| ==> fresh(tables[i].1) && tables[i].1.relations == []
  {
    tables := [];
    var i := 0;
    while i < |results|
      invariant 0 <= i <= |results| && |tables| == i
      invariant Keys(tables) == Keys(results[..i])
      invariant AllBuiltFrom(tables, rows)
      invariant forall k :: 0 <= k < i ==> fresh(tables[k].1) && tables[k].1.relations == []
    {
      var (tableName, tableColumns) := results[i];
      var newTable := ReflectTable(tableName, tableColumns);
      TableAppended(tables, results, rows, i, newTable);
      tables := Put(tables, tableName, newTable);
      i := i + 1;
    }
    assert results[..|results|] == results;
  }

  /**
   * `reflect()`: the rows grouped by table, each group reflected into a table keyed by
   * its name, in the order the tables first appear, and the database built over them,
   * which attaches the inferred relations.
   */
  method Reflect(rows: seq<Row>) returns (db: Structure.Database)
    requires Resolvable(rows)
    ensures Keys(db.tables) == Appearance(TableNames(rows))
    ensures Structure.References(db.tables, db.tables)
    ensures AllBuiltFrom(db.tables, rows)
    ensures forall t :: t in Structure.Objects(db.tables) ==>
      t.relations == Structure.RelationsFor(t, Structure.Attachments(db.tables, db.tables))
  {
    var results := GroupRows(rows);
    GroupedKeys(rows);
    GroupedGroups(rows);
    var tables := ReflectGroups(rows, results);
    TablesResolve(rows, tables);
    db := new Structure.Database(tables);
  }
}
