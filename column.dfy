/**
 * `Column` and `ForeignKey`: the reflected description of one table column. Every field
 * is set once when the column is built and never changes, so a column is a value.
 */
module ColumnModel {
  import opened Wrappers
  import opened Constants

  /** The table and column a foreign key column refers to. */
  datatype ForeignKey = ForeignKey(referencedTable: string, referencedColumn: string)

  /**
   * A column. `values` lists the members of an `enum` or `set` column and is empty for any
   * other type; `key` is the catalog's `column_key` (`PRI`, `UNI`, `MUL` or empty).
   */
  datatype Column = Column(
    tableName: string,
    columnName: string,
    dataType: DataType,
    charMaxLength: Option<int>,
    isNullable: bool,
    isUnsigned: bool,
    precision: Option<int>,
    scale: Option<int>,
    key: string,
    values: seq<string>,
    foreignKey: Option<ForeignKey>)

  /** PHP's loose `==` on `int|null`: `null == 0` holds. */
  predicate LooseEq(a: Option<int>, b: Option<int>) {
    a == b || (a == None && b == Some(0)) || (a == Some(0) && b == None)
  }

  /** Every member of `xs` is a member of `ys`: `array_diff($xs, $ys)` is empty. */
  predicate NoneMissing(xs: seq<string>, ys: seq<string>) {
    forall i :: 0 <= i < |xs| ==> xs[i] in ys
  }

  /**
   * `Column::equals`: the scalar fields compare with `==` and the foreign key by value,
   * but of the enum values only this column's must all be among the other's.
   */
  predicate Equals(c: Column, other: Column) {
    && c.tableName == other.tableName
    && c.columnName == other.columnName
    && c.dataType == other.dataType
    && LooseEq(c.charMaxLength, other.charMaxLength)
    && c.isNullable == other.isNullable
    && LooseEq(c.precision, other.precision)
    && LooseEq(c.scale, other.scale)
    && c.isUnsigned == other.isUnsigned
    && c.key == other.key
    && c.foreignKey == other.foreignKey
    && NoneMissing(c.values, other.values)
  }

  /** A column equals itself. */
  lemma EqualsReflexive(c: Column)
    ensures Equals(c, c)
  {
  }

  /** Equality of columns chains. */
  lemma EqualsTransitive(a: Column, b: Column, c: Column)
    requires Equals(a, b) && Equals(b, c)
    ensures Equals(a, c)
  {
  }

  /** A column with one enum value more is not equal to the narrower one, though the converse holds. */
  lemma EqualsNotSymmetric(c: Column, extra: string)
    requires extra !in c.values
    ensures var wider := c.(values := c.values + [extra]);
      Equals(c, wider) && !Equals(wider, c)
  {
    var wider := c.(values := c.values + [extra]);
    assert wider.values[|c.values|] == extra;
  }
}
