/**
 * `ValidationRuleGenerator`: the Laravel validation rule string derived from one column,
 * as `|`-separated parts in a fixed order: nullability, type, allowed values, foreign
 * key existence, uniqueness.
 */
module ValidationRuleGenerator {
  import opened Wrappers
  import opened PhpString
  import opened Constants
  import opened ColumnModel

  /** PHP's `$x != null` on `int|null`: false for null and for 0. */
  predicate NonZero(x: Option<int>) {
    x.Some? && x.value != 0
  }

  /** `getTypeValidation($column)`: the rule for the column's type, or "" when it has none. */
  function TypeValidation(c: Column): (r: string)
    ensures r == "" <==> c.dataType == NONE
  {
    match c.dataType
    case STRING => if NonZero(c.charMaxLength) then "string|max:" + IntToString(c.charMaxLength.value) else "string"
    case TINY_INTEGER => "integer"
    case SMALL_INTEGER => "integer"
    case MEDIUM_INTEGER => "integer"
    case INTEGER => "integer"
    case BIG_INTEGER => "integer"
    case BIT => if NonZero(c.precision) && c.precision.value == 1 then "boolean" else "integer"
    case DECIMAL => "numeric"
    case JSON => "json"
    case DATE_TIME => "date|date_format:Y-m-d H:i:s"
    case DATE => "date|date_format:Y-m-d"
    case TIME => "date_format:H:i:s"
    case YEAR => "date_format:Y"
    case NONE => ""
  }

  /**
   * The type rules: strings with a non-zero maximum length carry it, every integer type
   * gives `integer`, a one-bit column is boolean, and the date types carry their format.
   */
  lemma TypeRules(c: Column)
    ensures var r := TypeValidation(c);
      && (c.dataType == STRING ==>
        r == if NonZero(c.charMaxLength) then "string|max:" + IntToString(c.charMaxLength.value) else "string")
      && (IsIntegerType(c.dataType) ==> r == "integer")
      && (c.dataType == BIT ==> r == if c.precision == Some(1) then "boolean" else "integer")
      && (c.dataType in {DATE_TIME, DATE} ==> r == "date|date_format:" + DateFormat(c.dataType).value)
      && (c.dataType in {TIME, YEAR} ==> r == "date_format:" + DateFormat(c.dataType).value)
  {
  }

  /** The first rule: `nullable` or `required`. */
  function Nullability(c: Column): string {
    if c.isNullable then "nullable" else "required"
  }

  /** The column's key makes it unique: `in_array($key, ['UNI', 'PRI'])`. */
  predicate IsUniqueKey(key: string) {
    key == "UNI" || key == "PRI"
  }

  /** The `unique` rule, with the record's own id excluded when updating. */
  function UniqueRule(c: Column, forUpdate: bool): string {
    var base := "unique:" + c.tableName + "," + c.columnName;
    if forUpdate then base + IdExclusion else base
  }

  /** What an update appends to the `unique` rule so that the record's own row is ignored. */
  const IdExclusion: string := ",' . $this->id . ',id"

  /** The rule parts, in order; each part is optional except the first. */
  function RuleParts(c: Column, forUpdate: bool): (r: seq<string>)
    ensures |r| >= 1 && r[0] == Nullability(c)
    ensures forall i :: 0 <= i < |r| ==> r[i] != ""
  {
    var ds, ks := DescriptionParts(c), KeyParts(c, forUpdate);
    assert forall i :: |ds| <= i < |ds + ks| ==> (ds + ks)[i] == ks[i - |ds|];
    ds + ks
  }

  /** The parts after the description: allowed values, foreign key existence, uniqueness. */
  function KeyParts(c: Column, forUpdate: bool): (r: seq<string>)
    ensures forall i :: 0 <= i < |r| ==> r[i] != ""
  {
    ReferenceParts(c) + (if IsUniqueKey(c.key) then [UniqueRule(c, forUpdate)] else [])
  }

  /** The allowed values and the foreign key existence parts. */
  function ReferenceParts(c: Column): (r: seq<string>)
    ensures forall i :: 0 <= i < |r| ==> r[i] != ""
  {
    (if |c.values| > 0 then ["in:" + Join(c.values, ",")] else [])
    + (match c.foreignKey
       case Some(fk) => ["exists:" + fk.referencedTable + "," + fk.referencedColumn]
       case None => [])
  }

  /** No type rule ends with `|`. */
  lemma TypeValidationEnd(c: Column)
    ensures var t := TypeValidation(c); t == "" || t[|t| - 1] != '|'
  {
    var t := TypeValidation(c);
    if c.dataType == STRING && NonZero(c.charMaxLength) {
      var digits := IntToString(c.charMaxLength.value);
      assert t == "string|max:" + digits;
      assert t[|t| - 1] == digits[|digits| - 1];
    }
  }

  /** `generate($column, $forUpdate)`: the parts joined with `|`. */
  function Generate(c: Column, forUpdate: bool): string {
    Join(RuleParts(c, forUpdate), "|")
  }

  /** The parts a column gets whatever its keys: nullability and, when there is one, the type. */
  function DescriptionParts(c: Column): (r: seq<string>)
    ensures 1 <= |r| <= 2 && r[0] == Nullability(c) && forall i :: 0 <= i < |r| ==> r[i] != ""
  {
    [Nullability(c)] + (if TypeValidation(c) != "" then [TypeValidation(c)] else [])
  }

  // ---------------------------------------------------------------- properties

  /** Joining two non-empty runs of parts puts one separator between their joins. */
  lemma {:induction false} JoinAppend(ps: seq<string>, qs: seq<string>, sep: string)
    requires |ps| >= 1 && |qs| >= 1
    ensures Join(ps + qs, sep) == Join(ps, sep) + sep + Join(qs, sep)
  {
    if |ps| == 1 {
      JoinCons(ps[0], qs, sep);
      assert [ps[0]] + qs == ps + qs;
    } else {
      JoinAppend(ps[1..], qs, sep);
      assert (ps + qs)[1..] == ps[1..] + qs;
    }
  }

  /**
   * The column description `nullable`/`required`, with `|` and the type rule when there is
   * one, is a prefix of the column's rule string, and what follows it is empty or starts a
   * new part.
   */
  lemma DescriptionIsPrefix(c: Column, forUpdate: bool)
    ensures var d := Join(DescriptionParts(c), "|");
      var g := Generate(c, forUpdate);
      StartsWith(g, d) && (|g| == |d| || StartsWith(g[|d|..], "|"))
  {
    var ds := DescriptionParts(c);
    var rest := KeyParts(c, forUpdate);
    var d := Join(ds, "|");
    var g := Generate(c, forUpdate);
    assert RuleParts(c, forUpdate) == ds + rest;
    if |rest| > 0 {
      JoinAppend(ds, rest, "|");
      assert g == d + ("|" + Join(rest, "|"));
      assert g[..|d|] == d;
      assert g[|d|..] == "|" + Join(rest, "|");
    } else {
      assert ds + rest == ds;
    }
  }

  /** The rule string starts with its nullability rule. */
  lemma StartsWithNullability(c: Column, forUpdate: bool)
    ensures StartsWith(Generate(c, forUpdate), Nullability(c))
  {
    var ps := RuleParts(c, forUpdate);
    if |ps| > 1 {
      JoinCons(ps[0], ps[1..], "|");
      assert [ps[0]] + ps[1..] == ps;
    }
  }

  /** No part of the rule string is empty, so the string never starts or ends with `|`. */
  lemma {:induction false} JoinNonEmptyEnds(ps: seq<string>)
    requires |ps| >= 1 && forall i :: 0 <= i < |ps| ==> ps[i] != ""
    ensures var g := Join(ps, "|"); |g| > 0 && g[0] == ps[0][0] && g[|g| - 1] == ps[|ps| - 1][|ps[|ps| - 1]| - 1]
  {
    if |ps| > 1 {
      JoinNonEmptyEnds(ps[1..]);
      assert ps[1..][|ps| - 2] == ps[|ps| - 1];
    }
  }

  /**
   * The rule string is never empty and never starts with `|`; it ends with the last character
   * of its last part, so with no allowed values, foreign key or unique key it ends with the
   * type rule or the nullability rule, neither of which ends with `|`.
   */
  lemma RulesWellFormed(c: Column, forUpdate: bool)
    ensures var g := Generate(c, forUpdate); |g| > 0 && g[0] != '|'
    ensures var g := Generate(c, forUpdate); var ps := RuleParts(c, forUpdate);
      g[|g| - 1] == ps[|ps| - 1][|ps[|ps| - 1]| - 1]
    ensures |c.values| == 0 && c.foreignKey.None? && !IsUniqueKey(c.key) ==>
      var g := Generate(c, forUpdate); g[|g| - 1] != '|'
  {
    var ps := RuleParts(c, forUpdate);
    JoinNonEmptyEnds(ps);
    assert ps[0][0] in {'n', 'r'};
    if |c.values| == 0 && c.foreignKey.None? && !IsUniqueKey(c.key) {
      var t := TypeValidation(c);
      assert KeyParts(c, forUpdate) == [];
      assert ps == DescriptionParts(c);
      TypeValidationEnd(c);
    }
  }

  /**
   * The update rules differ from the store rules only for a unique column, and then only by
   * the id-exclusion suffix at the end.
   */
  lemma UpdateDiffersBySuffix(c: Column)
    ensures !IsUniqueKey(c.key) ==> Generate(c, true) == Generate(c, false)
    ensures IsUniqueKey(c.key) ==> Generate(c, true) == Generate(c, false) + IdExclusion
  {
    var pre := DescriptionParts(c) + ReferenceParts(c);
    if IsUniqueKey(c.key) {
      var base := UniqueRule(c, false);
      assert RuleParts(c, false) == pre + [base];
      assert RuleParts(c, true) == pre + [base + IdExclusion];
      JoinSuffix(pre, base, IdExclusion, "|");
    } else {
      assert RuleParts(c, false) == pre == RuleParts(c, true);
    }
  }

  /** Extending the last part extends the joined rules by the same text. */
  lemma JoinSuffix(pre: seq<string>, last: string, suffix: string, sep: string)
    requires |pre| >= 1
    ensures Join(pre + [last + suffix], sep) == Join(pre + [last], sep) + suffix
  {
    JoinSnoc(pre, last + suffix, sep);
    JoinSnoc(pre, last, sep);
  }
}
