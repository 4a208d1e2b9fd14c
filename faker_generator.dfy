/**
 * `FakerGenerator`: the factory expression that produces sample data for one column, and
 * the model class a foreign key column needs. Numeric bounds are PHP numbers: an integer
 * or a float. Floats are kept as reals and how PHP writes them out is a parameter.
 */
module FakerGenerator {
  import opened Wrappers
  import opened PhpString
  import opened Constants
  import opened ColumnModel

  /** A PHP number: an `int`, or a `float` taken as the real it denotes. */
  datatype Num = IntNum(i: int) | RealNum(r: real) {
    function Value(): real {
      match this
      case IntNum(i) => i as real
      case RealNum(r) => r
    }
  }

  /** `pow(10, $e)`: exact for any integer exponent. */
  function Pow10(e: int): (r: real)
    ensures r > 0.0
    decreases if e < 0 then -e else e
  {
    if e == 0 then 1.0
    else if e > 0 then 10.0 * Pow10(e - 1)
    else Pow10(e + 1) / 10.0
  }

  /** `pow(2, $p)` for a non-negative exponent. */
  function Pow2(p: nat): (r: nat)
    ensures r >= 1
  {
    if p == 0 then 1 else 2 * Pow2(p - 1)
  }

  /**
   * The `$numMin`/`$numMax` pair: from precision and scale when both are known (the largest
   * value with that many digits, and its negation unless unsigned), otherwise from the
   * integer type's range, defaulting to 1000 and 0.
   */
  function Bounds(c: Column): (r: (Num, Num))
    ensures c.precision.Some? && c.scale.Some? ==>
      r.1 == RealNum(Pow10(c.precision.value - c.scale.value) - Pow10(-c.scale.value))
      && r.0 == if c.isUnsigned then IntNum(0) else RealNum(-r.1.r)
    ensures !(c.precision.Some? && c.scale.Some?) ==>
      r.1 == IntNum(NumericMax(c.dataType).GetOr(1000))
      && r.0 == IntNum(if c.isUnsigned then 0 else NumericMin(c.dataType).GetOr(0))
  {
    if c.precision.Some? && c.scale.Some? then
      var numMax := Pow10(c.precision.value - c.scale.value) - Pow10(-c.scale.value);
      (if c.isUnsigned then IntNum(0) else RealNum(-numMax), RealNum(numMax))
    else
      var numMax := match NumericMax(c.dataType) case Some(m) => m case None => 1000;
      var numMin := if c.isUnsigned then 0 else match NumericMin(c.dataType) case Some(m) => m case None => 0;
      (IntNum(numMin), IntNum(numMax))
  }

  /** `pow(2, $precision) - 1`, a null precision counting as 0; a negative one gives a float. */
  function BitMax(precision: Option<int>): (r: Num)
    ensures precision.GetOr(0) >= 0 ==> r == IntNum(Pow2(precision.GetOr(0)) - 1)
    ensures precision.GetOr(0) < 0 ==> r == RealNum(1.0 / Pow2(-precision.GetOr(0)) as real - 1.0)
  {
    var p := precision.GetOr(0);
    if p >= 0 then IntNum(Pow2(p) - 1) else RealNum(1.0 / Pow2(-p) as real - 1.0)
  }

  /** The faker call chosen by column type. */
  datatype TypeFaker =
    | Text(charMax: Option<int>)
    | NumberBetween(min: Num, max: Num)
    | Boolean
    | RandomFloat(digits: int, min: Num, max: Num)
    | JsonElement
    | Date(format: string)

  /** `getTypeFaker($column)`: the faker for the column's type, or none for an unmapped type. */
  function TypeFakerOf(c: Column): (r: Option<TypeFaker>)
    ensures r.None? <==> c.dataType == NONE
    ensures c.dataType == STRING ==> r == Some(Text(c.charMaxLength))
    ensures IsIntegerType(c.dataType) ==> r == Some(NumberBetween(Bounds(c).0, Bounds(c).1))
    ensures c.dataType == BIT ==>
      r == if c.precision == Some(1) then Some(Boolean) else Some(NumberBetween(IntNum(0), BitMax(c.precision)))
    ensures c.dataType == DECIMAL ==> r == Some(RandomFloat(c.scale.GetOr(2), Bounds(c).0, Bounds(c).1))
    ensures IsDateType(c.dataType) ==> r == Some(Date(DateFormat(c.dataType).value))
  {
    var (numMin, numMax) := Bounds(c);
    match c.dataType
    case STRING => Some(Text(c.charMaxLength))
    case TINY_INTEGER => Some(NumberBetween(numMin, numMax))
    case SMALL_INTEGER => Some(NumberBetween(numMin, numMax))
    case MEDIUM_INTEGER => Some(NumberBetween(numMin, numMax))
    case INTEGER => Some(NumberBetween(numMin, numMax))
    case BIG_INTEGER => Some(NumberBetween(numMin, numMax))
    case BIT =>
      if c.precision.Some? && c.precision.value != 0 && c.precision.value == 1 then Some(Boolean)
      else Some(NumberBetween(IntNum(0), BitMax(c.precision)))
    case DECIMAL => Some(RandomFloat(match c.scale case Some(s) => s case None => 2, numMin, numMax))
    case JSON => Some(JsonElement)
    case DATE_TIME => Some(Date("Y-m-d H:i:s"))
    case DATE => Some(Date("Y-m-d"))
    case TIME => Some(Date("H:i:s"))
    case YEAR => Some(Date("Y"))
    case NONE => None
  }

  /** A number as string interpolation writes it: integers exactly, floats by `realText`. */
  function NumText(n: Num, realText: real -> string): string {
    match n
    case IntNum(i) => IntToString(i)
    case RealNum(r) => realText(r)
  }

  /** The PHP expression text of a type faker. */
  function TypeFakerCode(f: TypeFaker, realText: real -> string): string {
    match f
    case Text(charMax) => "$this->faker->text(" + (match charMax case Some(n) => IntToString(n) case None => "") + ")"
    case NumberBetween(lo, hi) => "$this->faker->numberBetween(" + NumText(lo, realText) + ", " + NumText(hi, realText) + ")"
    case Boolean => "$this->faker->boolean"
    case RandomFloat(d, lo, hi) =>
      "$this->faker->randomFloat(" + IntToString(d) + ", " + NumText(lo, realText) + ", " + NumText(hi, realText) + ")"
    case JsonElement => "$this->faker->randomElement([json_encode(['key' => 'value']), json_encode(['foo' => 'bar'])])"
    case Date(fmt) => "$this->faker->date('" + fmt + "')"
  }

  function Quote(v: string): string {
    "'" + v + "'"
  }

  /** The enum values, each single-quoted, in declared order. */
  function QuotedValues(values: seq<string>): (r: seq<string>)
    ensures |r| == |values| && forall i :: 0 <= i < |values| ==> r[i] == Quote(values[i])
  {
    seq(|values|, i requires 0 <= i < |values| => Quote(values[i]))
  }

  /** The faker a set or enum column gets: a random one of its values. */
  function EnumFaker(values: seq<string>): string {
    "$this->faker->randomElement([" + Join(QuotedValues(values), ", ") + "])"
  }

  /** The faker a foreign key column gets: a random id of the referenced model. */
  function ForeignKeyFaker(className: string): string {
    className + "::all()->pluck('id')->random()"
  }

  /** `generate($column)`'s result: the faker expression and the model class it needs, if any. */
  datatype FakerResult = FakerResult(faker: string, model: Option<string>)

  /**
   * `generate($column)`: a foreign key column gets a random referenced id and names the
   * referenced model (its class name, computed by `className`); otherwise a faker known for
   * the column's name; otherwise a random enum value; otherwise the type's faker; else `''`.
   */
  function Generate(c: Column, className: string -> string, realText: real -> string): (r: FakerResult)
    ensures r.model.Some? <==> c.foreignKey.Some?
    ensures c.foreignKey.Some? ==>
      var cls := className(c.foreignKey.value.referencedTable);
      r.model == Some(cls) && r.faker == ForeignKeyFaker(cls)
    ensures c.foreignKey.None? && c.columnName in ColumnNameFaker ==> r.faker == ColumnNameFaker[c.columnName]
    ensures c.foreignKey.None? && c.columnName !in ColumnNameFaker && |c.values| > 0 ==> r.faker == EnumFaker(c.values)
    ensures c.foreignKey.None? && c.columnName !in ColumnNameFaker && |c.values| == 0 ==>
      r.faker == match TypeFakerOf(c) case Some(f) => TypeFakerCode(f, realText) case None => "''"
  {
    match c.foreignKey
    case Some(fk) =>
      var cls := className(fk.referencedTable);
      FakerResult(ForeignKeyFaker(cls), Some(cls))
    case None =>
      if c.columnName in ColumnNameFaker then FakerResult(ColumnNameFaker[c.columnName], None)
      else if |c.values| > 0 then FakerResult(EnumFaker(c.values), None)
      else match TypeFakerOf(c)
        case Some(f) => FakerResult(TypeFakerCode(f, realText), None)
        case None => FakerResult("''", None)
  }

  // ---------------------------------------------------------------- properties

  /** Powers of ten grow with the exponent. */
  lemma {:induction false} Pow10Monotone(a: int, b: int)
    requires a <= b
    ensures Pow10(a) <= Pow10(b)
    decreases b - a
  {
    if a < b {
      Pow10Monotone(a, b - 1);
      Pow10Step(b - 1);
    }
  }

  lemma Pow10Step(e: int)
    ensures Pow10(e + 1) == 10.0 * Pow10(e)
  {
  }

  /**
   * With a non-negative precision the decimal bounds enclose zero: the largest value with
   * `p` digits of which `s` follow the point is never negative, and the lower bound is 0 or
   * its negation.
   */
  lemma DecimalBoundsEncloseZero(c: Column)
    requires c.precision.Some? && c.scale.Some? && c.precision.value >= 0
    ensures Bounds(c).0.Value() <= 0.0 <= Bounds(c).1.Value()
    ensures Bounds(c).0.Value() == if c.isUnsigned then 0.0 else -Bounds(c).1.Value()
  {
    Pow10Monotone(-c.scale.value, c.precision.value - c.scale.value);
  }

  /** An integer column without a scale gets its type's full range, or from 0 when unsigned. */
  lemma IntegerBounds(c: Column)
    requires IsIntegerType(c.dataType) && c.scale.None?
    ensures Bounds(c).0.Value() <= 0.0 < Bounds(c).1.Value()
    ensures Bounds(c).1.Value() == NumericMax(c.dataType).value as real
    ensures !c.isUnsigned ==> Bounds(c).0.Value() == NumericMin(c.dataType).value as real
    ensures NumericMin(c.dataType).value == -NumericMax(c.dataType).value - 1
  {
  }

  /** A `p`-bit column's upper bound is the largest `p`-bit number. */
  lemma BitBound(p: nat)
    ensures BitMax(Some(p)) == IntNum(Pow2(p) - 1) && BitMax(Some(p)).i >= 0
    ensures BitMax(None) == IntNum(0)
  {
  }

  /** A quoted value holds `, ` only if the value does. */
  lemma QuoteAvoids(v: string)
    requires !Contains(v, ", ")
    ensures !Contains(Quote(v), ", ")
  {
    NotContainsAcross("", "'", v, ", ", {'\''});
    assert "" + "'" + v == "'" + v;
    NotContainsAcross("'" + v, "'", "", ", ", {'\''});
    assert "'" + v + "'" + "" == Quote(v);
  }

  /**
   * The enum faker lists every value, quoted and in declared order: splitting its list on
   * `, ` gives the quoted values back, when no value holds `, `.
   */
  lemma EnumListReadBack(values: seq<string>)
    requires |values| > 0 && forall i :: 0 <= i < |values| ==> !Contains(values[i], ", ")
    ensures var f := EnumFaker(values);
      var list := Join(QuotedValues(values), ", ");
      f == "$this->faker->randomElement([" + list + "])" && Split(list, ", ") == QuotedValues(values)
  {
    var qs := QuotedValues(values);
    forall i | 0 <= i < |qs|
      ensures !Contains(qs[i], ", ")
    {
      QuoteAvoids(values[i]);
    }
    assert NoBorder(", ") by {
      forall j | 0 < j < 2
        ensures ", "[..j] != ", "[2 - j..]
      {
        assert ", "[..j][0] == ',' && ", "[2 - j..][0] == ' ';
      }
    }
    SplitJoin(qs, ", ");
  }
}
