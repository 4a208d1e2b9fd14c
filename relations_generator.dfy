/**
 * `RelationsGenerator::generate`: the relation methods of a model class. Each relation of
 * the table whose method is not declared in the model file yet is rendered, its Eloquent
 * relation class is imported if absent, and all rendered methods go in together before the
 * class's last `}`. A relation's method name and rendered text come from the inflector and
 * the stub files; they are parameters here.
 */
module RelationsGenerator {
  import opened Wrappers
  import opened PhpString
  import opened ClassModifier
  import opened UseStatementAdder
  import opened Structure

  /** The class imported for a `BelongsTo` relation. */
  const BelongsToClass: string := "Illuminate\\Database\\Eloquent\\Relations\\BelongsTo"

  /** The class imported for a `HasMany` relation. */
  const HasManyClass: string := "Illuminate\\Database\\Eloquent\\Relations\\HasMany"

  /** The class a relation's method returns. */
  function ImportOf(r: Relation): string {
    match r
    case BelongsTo(_, _, _, _) => BelongsToClass
    case HasMany(_, _, _, _) => HasManyClass
  }

  /**
   * The loop over the relations: the model text (with the imports added so far) and the
   * rendered methods still to be inserted.
   */
  function Pass(content: string, rels: seq<Relation>, name: Relation -> string, render: Relation -> string): (string, string) {
    if |rels| == 0 then (content, "")
    else
      Step(Pass(content, rels[..|rels| - 1], name, render), rels[|rels| - 1], name, render)
  }

  /** One turn of the loop: a relation whose method is not declared yet gets its import and its text. */
  function Step(state: (string, string), r: Relation, name: Relation -> string, render: Relation -> string): (string, string) {
    Turn(state, FunctionIsExist(state.0, name(r)), Add(state.0, ImportOf(r)), render(r))
  }

  /** A turn given whether the method is declared, the text with its import, and its rendering. */
  function Turn(state: (string, string), declared: bool, imported: string, text: string): (string, string) {
    if declared then state else (imported, state.1 + text)
  }

  /** A turn whose import is present already only adds the rendering, if anything. */
  lemma {:induction false} TurnKeeps(content: string, pending: string, declared: bool, text: string)
    ensures Turn((content, pending), declared, content, text) == (content, pending + if declared then "" else text)
  {
    if declared {
      assert pending + "" == pending;
    }
  }

  /** `generate()`: the model text with the missing relation methods inserted; `None` when it has no `}`. */
  function Generated(content: string, rels: seq<Relation>, name: Relation -> string, render: Relation -> string): Option<string> {
    var (c, pending) := Pass(content, rels, name, render);
    AppendFunction(c, pending)
  }

  /** The generator over one model file. */
  class Generator {
    var modelFileContent: string

    constructor(modelFileContent: string)
      ensures this.modelFileContent == modelFileContent
    {
      this.modelFileContent := modelFileContent;
    }

    /**
     * `generate(['selectedTable' => $selectedTable])`. The import generator keeps its own
     * copy of the file text; it stays equal to the model text throughout.
     */
    method Generate(selectedTable: Table, name: Relation -> string, render: Relation -> string) returns (r: Option<string>)
      modifies this
      ensures modelFileContent == Pass(old(modelFileContent), selectedTable.relations, name, render).0
      ensures r == Generated(old(modelFileContent), selectedTable.relations, name, render)
    {
      var rels := selectedTable.relations;
      var relations := "";
      var uses := modelFileContent;
      ghost var start := modelFileContent;
      var i := 0;
      while i < |rels|
        invariant 0 <= i <= |rels|
        invariant uses == modelFileContent
        invariant (modelFileContent, relations) == Pass(start, rels[..i], name, render)
      {
        var rel := rels[i];
        assert rels[..i + 1][..i] == rels[..i];
        if !FunctionIsExist(modelFileContent, name(rel)) {
          if rel.BelongsTo? {
            uses := Add(uses, BelongsToClass);
            modelFileContent := uses;
          }
          if rel.HasMany? {
            uses := Add(uses, HasManyClass);
            modelFileContent := uses;
          }
          relations := relations + render(rel);
        }
        i := i + 1;
      }
      assert rels[..|rels|] == rels;
      r := AppendFunction(modelFileContent, relations);
    }
  }

  // ---------------------------------------------------------------- properties

  /** Both relation classes are imported already. */
  predicate ImportsPresent(content: string) {
    Contains(content, Trim(BelongsToClass)) && Contains(content, Trim(HasManyClass))
  }

  /** The rendered texts of the relations whose methods `content` does not declare, in order. */
  function Missing(content: string, rels: seq<Relation>, name: Relation -> string, render: Relation -> string): string {
    if |rels| == 0 then ""
    else
      var r := rels[|rels| - 1];
      Missing(content, rels[..|rels| - 1], name, render) + if FunctionIsExist(content, name(r)) then "" else render(r)
  }

  /**
   * With both imports in place the model text is not touched, and the methods inserted are
   * those of the relations the original text does not declare, in order. The check looks
   * only at the model text, not at the methods pending, so a relation name repeated in one
   * pass is rendered twice.
   */
  lemma {:induction false} PassWithImports(content: string, rels: seq<Relation>, name: Relation -> string, render: Relation -> string)
    requires ImportsPresent(content)
    ensures Pass(content, rels, name, render) == (content, Missing(content, rels, name, render))
  {
    if |rels| > 0 {
      var init := rels[..|rels| - 1];
      var r := rels[|rels| - 1];
      PassWithImports(content, init, name, render);
      ImportKept(content, r);
      StepWithImports(content, Missing(content, init, name, render), r, name, render);
    }
  }

  /** One turn that adds no import leaves the model text alone. */
  lemma {:induction false} StepWithImports(content: string, pending: string, r: Relation, name: Relation -> string, render: Relation -> string)
    requires Add(content, ImportOf(r)) == content
    ensures Step((content, pending), r, name, render)
      == (content, pending + if FunctionIsExist(content, name(r)) then "" else render(r))
  {
    TurnKeeps(content, pending, FunctionIsExist(content, name(r)), render(r));
  }

  /** An import already present is not added again. */
  lemma {:induction false} ImportKept(content: string, r: Relation)
    requires ImportsPresent(content)
    ensures Add(content, ImportOf(r)) == content
  {
    assert Contains(content, Trim(ImportOf(r)));
  }

  /** Two relations with one method name, both missing, are both rendered. */
  lemma {:induction false} DuplicatesBothEmitted(content: string, r1: Relation, r2: Relation, name: Relation -> string, render: Relation -> string)
    requires ImportsPresent(content) && name(r1) == name(r2) && !FunctionIsExist(content, name(r1))
    ensures Pass(content, [r1, r2], name, render).1 == render(r1) + render(r2)
  {
    PassWithImports(content, [r1, r2], name, render);
    MissingTwo(content, r1, r2, name, render);
  }

  /** The missing text of two relations, neither declared. */
  lemma {:induction false} MissingTwo(content: string, r1: Relation, r2: Relation, name: Relation -> string, render: Relation -> string)
    requires !FunctionIsExist(content, name(r1)) && !FunctionIsExist(content, name(r2))
    ensures Missing(content, [r1, r2], name, render) == render(r1) + render(r2)
  {
    assert [r1, r2][..1] == [r1];
    assert [r1][..0] == [];
    assert Missing(content, [r1], name, render) == "" + render(r1);
  }

  /** When every relation's method is declared already, nothing changes. */
  lemma {:induction false} AllPresent(content: string, rels: seq<Relation>, name: Relation -> string, render: Relation -> string)
    requires forall k :: 0 <= k < |rels| ==> FunctionIsExist(content, name(rels[k]))
    ensures Pass(content, rels, name, render) == (content, "")
    ensures '}' in content ==> Generated(content, rels, name, render) == Some(content)
  {
    if |rels| > 0 {
      AllPresent(content, rels[..|rels| - 1], name, render);
    }
    if '}' in content {
      AppendEmpty(content);
    }
  }

  /** A declaration in `t` is a declaration in `t + b`. */
  lemma {:induction false} ExistsExtend(t: string, b: string, n: string)
    requires FunctionIsExist(t, n)
    ensures FunctionIsExist(t + b, n)
  {
    var i, j, k :| 0 <= i <= j <= k < |t| && FunctionAt(t, n, i, j, k);
    FunctionAtExtend(t, b, n, i, j, k);
  }

  /** A declaration in `t` is a declaration in `a + t`. */
  lemma {:induction false} ExistsShift(a: string, t: string, n: string)
    requires FunctionIsExist(t, n)
    ensures FunctionIsExist(a + t, n)
  {
    var i, j, k :| 0 <= i <= j <= k < |t| && FunctionAt(t, n, i, j, k);
    FunctionAtShift(a, t, "", n, i, j, k);
    assert a + t + "" == a + t;
  }

  /** Every missing relation's method is declared by the text inserted, when each rendering declares its name. */
  lemma {:induction false} MissingDeclared(content: string, rels: seq<Relation>, name: Relation -> string, render: Relation -> string)
    requires forall k :: 0 <= k < |rels| ==> FunctionIsExist(render(rels[k]), name(rels[k]))
    ensures forall k :: (0 <= k < |rels| && !FunctionIsExist(content, name(rels[k]))
      ==> FunctionIsExist(Missing(content, rels, name, render), name(rels[k])))
  {
    if |rels| > 0 {
      var init := rels[..|rels| - 1];
      var r := rels[|rels| - 1];
      var front := Missing(content, init, name, render);
      var added := if FunctionIsExist(content, name(r)) then "" else render(r);
      MissingDeclared(content, init, name, render);
      forall k | 0 <= k < |rels| && !FunctionIsExist(content, name(rels[k]))
        ensures FunctionIsExist(front + added, name(rels[k]))
      {
        if k < |init| {
          assert init[k] == rels[k];
          ExistsExtend(front, added, name(rels[k]));
        } else {
          ExistsShift(front, render(r), name(r));
        }
      }
    }
  }

  /** The class text after an insertion still has a `}`. */
  lemma {:induction false} BraceKept(classContent: string, content: string)
    requires '}' in classContent
    ensures '}' in AppendFunction(classContent, content).value
  {
    var p := LastIndexOfChar(classContent, '}').value;
    var r := AppendFunction(classContent, content).value;
    assert r[p + |content|] == classContent[p] == '}';
  }

  /**
   * Generating twice gives what generating once gives, when the imports are in place, every
   * rendering declares its relation's name, and no name holds a `}`.
   */
  lemma {:induction false} GenerateIdempotent(content: string, rels: seq<Relation>, name: Relation -> string, render: Relation -> string)
    requires ImportsPresent(content) && '}' in content
    requires forall k :: 0 <= k < |rels| ==> FunctionIsExist(render(rels[k]), name(rels[k])) && '}' !in name(rels[k])
    ensures var g := Generated(content, rels, name, render);
      g.Some? && Generated(g.value, rels, name, render) == g
  {
    PassWithImports(content, rels, name, render);
    var pending := Missing(content, rels, name, render);
    var g := AppendFunction(content, pending).value;
    MissingDeclared(content, rels, name, render);
    forall k | 0 <= k < |rels|
      ensures FunctionIsExist(g, name(rels[k]))
    {
      if FunctionIsExist(content, name(rels[k])) {
        ExistingFunctionKept(content, pending, name(rels[k]));
      } else {
        AppendedFunctionExists(content, pending, name(rels[k]));
      }
    }
    BraceKept(content, pending);
    AllPresent(g, rels, name, render);
  }
}
