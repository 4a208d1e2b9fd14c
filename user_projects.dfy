/**
 * `UserProjectsService`: the registry of the user's projects, kept in the projects file as
 * a JSON object keyed by project name. The file is held here as the decoded PHP array; each
 * operation reads it, changes one project's record and writes it back. `compareTables`
 * diffs two database snapshots into a table-name to `NEW`/`MODIFIED` map that is merged
 * into the project's `tables_status`.
 */
module UserProjects {
  import opened Wrappers
  import opened PhpArray
  import opened PhpString
  import opened Structure

  /** A table's status since the previous snapshot. */
  datatype Status = NEW | MODIFIED

  /**
   * One project's record. Every field may be missing, as in the decoded JSON: assigning
   * into a project that is not in the file creates a record with only that field.
   */
  datatype Project = Project(
    path: Option<string>,
    isNew: Option<bool>,
    request: Option<Entries<string>>,
    tablesStatus: Option<Entries<Status>>,
    postman: Option<Entries<string>>)

  /** The record PHP creates when assigning into a project that is not in the file. */
  const Absent: Project := Project(None, None, None, None, None)

  // ---------------------------------------------------------------- compareTables

  /** `array_combine(array_column($tables, 'tableName'), $tables)`: the tables keyed by their own names. */
  function Assoc(ts: Entries<Table>): Entries<Table> {
    FromPairs(seq(|ts|, i requires 0 <= i < |ts| => (ts[i].1.tableName, ts[i].1)))
  }

  /** A table found by key is one of the array's tables. */
  lemma GetObject(ts: Entries<Table>, k: string)
    requires HasKey(ts, k)
    ensures Get(ts, k).value in Objects(ts)
  {
    assert ts[Find(ts, k).value].1 in Objects(ts);
  }

  /** The keyed tables have distinct names, those of the list's tables. */
  lemma AssocKeys(ts: Entries<Table>)
    ensures DistinctKeys(Assoc(ts))
    ensures forall k :: HasKey(Assoc(ts), k) <==> exists i :: 0 <= i < |ts| && ts[i].1.tableName == k
  {
    var ps := seq(|ts|, i requires 0 <= i < |ts| => (ts[i].1.tableName, ts[i].1));
    FromPairsFacts(ps);
    assert forall i | 0 <= i < |ts| :: ps[i].0 == ts[i].1.tableName;
  }

  /** The keyed tables are tables of the list. */
  lemma AssocObjects(ts: Entries<Table>)
    ensures Objects(Assoc(ts)) <= Objects(ts)
  {
    var ps := seq(|ts|, i requires 0 <= i < |ts| => (ts[i].1.tableName, ts[i].1));
    FromPairsMembers(ps);
    forall t | t in Objects(Assoc(ts))
      ensures t in Objects(ts)
    {
      var i :| 0 <= i < |Assoc(ts)| && Assoc(ts)[i].1 == t;
      var j :| 0 <= j < |ps| && ps[j] == Assoc(ts)[i];
      assert ts[j].1 == t;
    }
  }

  /** The tables of a prefix are tables of the array. */
  lemma ObjectsPrefix(ts: Entries<Table>, n: nat)
    requires n <= |ts|
    ensures Objects(ts[..n]) <= Objects(ts)
  {
    forall t | t in Objects(ts[..n])
      ensures t in Objects(ts)
    {
      var i :| 0 <= i < n && ts[..n][i].1 == t;
      assert ts[i].1 == t;
    }
  }

  /**
   * The result of the comparison loop after the tables of `news`: a table only in `news` is
   * `NEW`, one in both that is not `equals` to its old version is `MODIFIED`.
   */
  function Diff(olds: Entries<Table>, news: Entries<Table>, render: Relation -> string): Entries<Status>
    reads Objects(olds), Objects(news)
  {
    if |news| == 0 then []
    else
      ObjectsPrefix(news, |news| - 1);
      Verdict(Diff(olds, news[..|news| - 1], render), olds, news[|news| - 1].0, news[|news| - 1].1, render)
  }

  /** One turn of the comparison: the status of the new table `t` stored under `k`, if it has one. */
  function Verdict(result: Entries<Status>, olds: Entries<Table>, k: string, t: Table, render: Relation -> string): Entries<Status>
    reads t, Objects(olds)
  {
    match Get(olds, k)
    case None => Put(result, k, NEW)
    case Some(o) =>
      GetObject(olds, k);
      if t.Same(o, render) then result else Put(result, k, MODIFIED)
  }

  /** `compareTables($oldDB, $newDB)`, with its loop over the new tables. */
  method CompareTables(oldDB: Database, newDB: Database, render: Relation -> string) returns (result: Entries<Status>)
    ensures result == Diff(Assoc(oldDB.tables), Assoc(newDB.tables), render)
  {
    result := [];
    var oldAssoc := Assoc(oldDB.tables);
    var newAssoc := Assoc(newDB.tables);
    AssocObjects(oldDB.tables);
    AssocObjects(newDB.tables);
    var i := 0;
    while i < |newAssoc|
      invariant 0 <= i <= |newAssoc|
      invariant result == Diff(oldAssoc, newAssoc[..i], render)
    {
      ObjectsPrefix(newAssoc, i);
      result := CompareOne(result, oldAssoc, newAssoc[i].0, newAssoc[i].1, render);
      assert unchanged(Objects(oldDB.tables), Objects(newDB.tables));
      DiffAt(oldAssoc, newAssoc, render, i);
      i := i + 1;
    }
    assert newAssoc[..|newAssoc|] == newAssoc;
  }

  /** The body of the comparison loop for the new table `newObj` under `key`. */
  method CompareOne(result: Entries<Status>, oldAssoc: Entries<Table>, key: string, newObj: Table, render: Relation -> string)
    returns (r: Entries<Status>)
    ensures r == Verdict(result, oldAssoc, key, newObj, render)
  {
    r := result;
    match Get(oldAssoc, key) {
      case Some(oldObj) =>
        var same := newObj.Equals(oldObj, render);
        if !same {
          r := Put(r, key, MODIFIED);
        }
      case None =>
        r := Put(r, key, NEW);
    }
  }

  /**
   * What the comparison reports for each name: `NEW` exactly for a table only in `news`,
   * `MODIFIED` exactly for one in both whose new version is not `equals` to the old, and
   * nothing for any other name (an unchanged table, or one only in `olds`).
   */
  lemma {:induction false} DiffFacts(olds: Entries<Table>, news: Entries<Table>, render: Relation -> string, k: string)
    requires DistinctKeys(news)
    ensures DistinctKeys(Diff(olds, news, render))
    ensures Get(Diff(olds, news, render), k) == Some(NEW) <==> HasKey(news, k) && !HasKey(olds, k)
    ensures Get(Diff(olds, news, render), k) == Some(MODIFIED) <==>
      (HasKey(news, k) && HasKey(olds, k) && !Get(news, k).value.Same(Get(olds, k).value, render))
    ensures HasKey(Diff(olds, news, render), k) ==> HasKey(news, k)
  {
    if |news| > 0 {
      var init := news[..|news| - 1];
      var last := news[|news| - 1];
      var front := Diff(olds, init, render);
      assert news == init + [last];
      assert DistinctKeys(init);
      DiffFacts(olds, init, render, k);
      DiffFacts(olds, init, render, last.0);
      assert !HasKey(init, last.0) by {
        assert forall j :: 0 <= j < |init| ==> init[j].0 != last.0;
      }
      GetSnoc(init, last, k);
      match Get(olds, last.0) {
        case None =>
          assert Diff(olds, news, render) == Put(front, last.0, NEW);
          PutFacts(front, last.0, NEW);
        case Some(o) =>
          if last.1.Same(o, render) {
            assert Diff(olds, news, render) == front;
          } else {
            assert Diff(olds, news, render) == Put(front, last.0, MODIFIED);
            PutFacts(front, last.0, MODIFIED);
          }
      }
    }
  }

  /** One turn of the comparison loop over the table at position `i`. */
  lemma DiffAt(olds: Entries<Table>, news: Entries<Table>, render: Relation -> string, i: nat)
    requires i < |news|
    ensures Diff(olds, news[..i + 1], render) == Verdict(Diff(olds, news[..i], render), olds, news[i].0, news[i].1, render)
  {
    assert news[..i + 1][..i] == news[..i];
  }

  /** Comparing a database's tables with themselves reports nothing, when every table equals itself. */
  lemma {:induction false} CompareSelf(ts: Entries<Table>, render: Relation -> string)
    requires DistinctKeys(ts)
    requires forall i :: 0 <= i < |ts| ==> DistinctKeys(ts[i].1.foreignKeysIndex)
    ensures Diff(ts, ts, render) == []
  {
    var d := Diff(ts, ts, render);
    if |d| > 0 {
      var k := d[0].0;
      assert HasKey(d, k);
      DiffFacts(ts, ts, render, k);
      var t := Get(ts, k).value;
      GetObject(ts, k);
      var i :| 0 <= i < |ts| && ts[i].1 == t;
      TableSameReflexive(t, render);
      assert Get(d, k).Some?;
      match Get(d, k).value {
        case NEW =>
        case MODIFIED =>
      }
      assert false;
    }
  }

  // ---------------------------------------------------------------- the projects file

  /** The statuses a record holds, none when it has no `tables_status`. */
  function StatusesOf(p: Project): Entries<Status> {
    match p.tablesStatus
    case Some(ts) => ts
    case None => []
  }

  /** A project's record, or the record PHP creates on assignment when it is absent. */
  function ProjectOr(file: Entries<Project>, name: string): Project {
    match Get(file, name)
    case Some(p) => p
    case None => Absent
  }

  /** `$statuses[$key] = $value` for every pair of `list`, in order. */
  function Assign(statuses: Entries<Status>, list: Entries<Status>): Entries<Status> {
    if |list| == 0 then statuses
    else Put(Assign(statuses, list[..|list| - 1]), list[|list| - 1].0, list[|list| - 1].1)
  }

  /** A record with the statuses of `list` merged into its `tables_status`. */
  function WithStatuses(p: Project, list: Entries<Status>): Project {
    p.(tablesStatus := Some(Assign(StatusesOf(p), list)))
  }

  /** The file after `updateTablesStatus` with the comparison `list`: untouched when `list` is empty. */
  function Updated(file: Entries<Project>, name: string, list: Entries<Status>): Entries<Project> {
    if |list| == 0 then file else Put(file, name, WithStatuses(ProjectOr(file, name), list))
  }

  /** `getTablesStatus($projectName)`. */
  function StatusesIn(file: Entries<Project>, name: string): Entries<Status> {
    match Get(file, name)
    case Some(p) => StatusesOf(p)
    case None => []
  }

  /** The file after `deleteTableStatus($projectName, $tableName)`. */
  function Deleted(file: Entries<Project>, name: string, table: string): Entries<Project> {
    match Get(file, name)
    case Some(p) =>
      if HasKey(StatusesOf(p), table) then Put(file, name, p.(tablesStatus := Some(Remove(StatusesOf(p), table))))
      else file
    case None => file
  }

  /** The `request` map a new project starts with. */
  const RawRequests: Entries<string> := [("bulk_store", "RAW"), ("store", "RAW")]

  /**
   * The record `addNewProjectOrUpdate` writes: the whole record is replaced, so a project
   * that was registered already loses its statuses and Postman settings.
   */
  function Registered(path: string, existing: bool): Project {
    Project(Some(path), Some(!existing), Some(if existing then [] else RawRequests), None, None)
  }

  /** The file after registering `name` at `path`. */
  function Register(file: Entries<Project>, name: string, path: string): Entries<Project> {
    Put(file, name, Registered(path, HasKey(file, name)))
  }

  /** A decoded file: PHP arrays have distinct keys, the file's and each record's statuses'. */
  predicate ValidFile(file: Entries<Project>) {
    DistinctKeys(file) && forall i :: 0 <= i < |file| ==> DistinctKeys(StatusesOf(file[i].1))
  }

  /** The service over the projects file. */
  class UserProjectsService {
    /** The decoded contents of the projects file. */
    var file: Entries<Project>
    /** `$userProjects`, the copy the service last loaded or wrote. */
    var userProjects: Entries<Project>

    predicate Valid()
      reads this
    {
      ValidFile(file)
    }

    constructor(file: Entries<Project>)
      requires ValidFile(file)
      ensures Valid() && this.file == file && userProjects == []
    {
      this.file := file;
      userProjects := [];
    }

    /** `setUserProjects()`: load the file. */
    method SetUserProjects()
      modifies this
      ensures file == old(file) && userProjects == file
    {
      userProjects := file;
    }

    /**
     * `addNewProjectOrUpdate`, from the project name `getProjectName` found (`None` when the
     * directory is not a Laravel project) and the stored path. The name is tested with a
     * loose `== false`, so the names `""` and `"0"` are turned away as well.
     */
    method AddNewProjectOrUpdate(projectName: Option<string>, path: string) returns (r: Option<string>)
      requires Valid()
      modifies this
      ensures Valid()
      ensures projectName.None? || PhpEmpty(projectName.value) ==>
        r.None? && file == old(file) && userProjects == old(userProjects)
      ensures projectName.Some? && !PhpEmpty(projectName.value) ==>
        r == projectName && file == Register(old(file), projectName.value, path) && userProjects == file
    {
      if projectName.None? || PhpEmpty(projectName.value) {
        return None;
      }
      var name := projectName.value;
      var isNew := false;
      var requestBodyType: Entries<string> := [];
      if !HasKey(file, name) {
        isNew := true;
        requestBodyType := RawRequests;
      }
      RegisterValid(file, name, path);
      file := Put(file, name, Project(Some(path), Some(isNew), Some(requestBodyType), None, None));
      userProjects := file;
      r := projectName;
    }

    /** `updateTablesStatus($oldDB, $newDB, $projectName)`. */
    method UpdateTablesStatus(oldDB: Database, newDB: Database, projectName: string, render: Relation -> string)
      requires Valid()
      modifies this
      ensures Valid()
      ensures file == Updated(old(file), projectName, Diff(Assoc(oldDB.tables), Assoc(newDB.tables), render))
      ensures userProjects == old(userProjects)
    {
      var list := CompareTables(oldDB, newDB, render);
      AssocObjects(oldDB.tables);
      AssocObjects(newDB.tables);
      if |list| > 0 {
        file := MergeStatuses(file, projectName, list);
      }
      assert unchanged(Objects(oldDB.tables), Objects(newDB.tables));
    }

    /** `getTablesStatus($projectName)`. */
    function GetTablesStatus(projectName: string): (r: Entries<Status>)
      reads this
      ensures !HasKey(file, projectName) ==> r == []
      ensures HasKey(file, projectName) ==> r == StatusesOf(Get(file, projectName).value)
    {
      StatusesIn(file, projectName)
    }

    /** `deleteTableStatus($projectName, $tableName)`. */
    method DeleteTableStatus(projectName: string, tableName: string)
      requires Valid()
      modifies this
      ensures Valid()
      ensures file == Deleted(old(file), projectName, tableName) && userProjects == old(userProjects)
    {
      DeletedFacts(file, projectName, tableName);
      match Get(file, projectName)
      case Some(p) =>
        var statuses := StatusesOf(p);
        if HasKey(statuses, tableName) {
          file := Put(file, projectName, p.(tablesStatus := Some(Remove(statuses, tableName))));
        }
      case None =>
    }
  }

  /** The loop of `updateTablesStatus`: each pair of `list` assigned into the project's statuses. */
  method MergeStatuses(file: Entries<Project>, projectName: string, list: Entries<Status>) returns (out: Entries<Project>)
    requires ValidFile(file) && |list| > 0
    ensures out == Updated(file, projectName, list) && ValidFile(out)
  {
    out := file;
    var i := 0;
    while i < |list|
      invariant 0 <= i <= |list|
      invariant i == 0 ==> out == file
      invariant i > 0 ==> out == Put(file, projectName, WithStatuses(ProjectOr(file, projectName), list[..i]))
      invariant ValidFile(out)
    {
      var key := list[i].0;
      var value := list[i].1;
      var project := ProjectOr(out, projectName);
      var statuses := StatusesOf(project);
      if i == 0 {
        MergeFirst(file, projectName, list[0]);
        assert list[..1] == [list[0]];
      } else {
        MergeNext(file, projectName, list, i);
      }
      PutStatusValid(out, projectName, key, value);
      out := Put(out, projectName, project.(tablesStatus := Some(Put(statuses, key, value))));
      i := i + 1;
    }
    assert list[..|list|] == list;
  }

  /** The first turn of the merge loop assigns the first pair. */
  lemma MergeFirst(file: Entries<Project>, name: string, x: (string, Status))
    ensures var p := ProjectOr(file, name);
      Put(file, name, p.(tablesStatus := Some(Put(StatusesOf(p), x.0, x.1)))) == Put(file, name, WithStatuses(p, [x]))
  {
    var p := ProjectOr(file, name);
    assert [x][..0] == [];
    assert Assign(StatusesOf(p), [x]) == Put(Assign(StatusesOf(p), []), x.0, x.1);
  }

  /** A later turn of the merge loop assigns the next pair into the statuses merged so far. */
  lemma MergeNext(file: Entries<Project>, name: string, list: Entries<Status>, i: nat)
    requires DistinctKeys(file) && 0 < i < |list|
    ensures var p0 := ProjectOr(file, name);
      var before := Put(file, name, WithStatuses(p0, list[..i]));
      var p := ProjectOr(before, name);
      Put(before, name, p.(tablesStatus := Some(Put(StatusesOf(p), list[i].0, list[i].1))))
        == Put(file, name, WithStatuses(p0, list[..i + 1]))
  {
    var p0 := ProjectOr(file, name);
    PutFacts(file, name, WithStatuses(p0, list[..i]));
    assert list[..i + 1][..i] == list[..i];
    PutPut(file, name, WithStatuses(p0, list[..i]), WithStatuses(p0, list[..i + 1]));
  }

  /** Assigning one status into a project of a decoded file keeps it decoded. */
  lemma PutStatusValid(file: Entries<Project>, name: string, key: string, value: Status)
    requires ValidFile(file)
    ensures var p := ProjectOr(file, name);
      ValidFile(Put(file, name, p.(tablesStatus := Some(Put(StatusesOf(p), key, value)))))
  {
    var p := ProjectOr(file, name);
    ProjectOrValid(file, name);
    PutFacts(StatusesOf(p), key, value);
    PutValid(file, name, p.(tablesStatus := Some(Put(StatusesOf(p), key, value))));
  }

  /** The record read from a decoded file has distinct status keys. */
  lemma ProjectOrValid(file: Entries<Project>, name: string)
    requires ValidFile(file)
    ensures DistinctKeys(StatusesOf(ProjectOr(file, name)))
  {
    if HasKey(file, name) {
      var i := Find(file, name).value;
      assert ProjectOr(file, name) == file[i].1;
    }
  }

  /** Storing a record whose statuses have distinct keys keeps the file decoded. */
  lemma PutValid(file: Entries<Project>, name: string, p: Project)
    requires ValidFile(file) && DistinctKeys(StatusesOf(p))
    ensures ValidFile(Put(file, name, p))
  {
    PutFacts(file, name, p);
  }

  /** Registering keeps the file decoded. */
  lemma RegisterValid(file: Entries<Project>, name: string, path: string)
    requires ValidFile(file)
    ensures ValidFile(Register(file, name, path))
  {
    PutValid(file, name, Registered(path, HasKey(file, name)));
  }

  // ---------------------------------------------------------------- properties

  /**
   * After a non-empty update the project's status for every name of `list` is the one
   * `list` gives, every other status is as it was, and every other project is untouched.
   */
  lemma {:induction false} UpdatedFacts(file: Entries<Project>, name: string, list: Entries<Status>, k: string, other: string)
    requires ValidFile(file) && other != name
    ensures Get(StatusesIn(Updated(file, name, list), name), k)
      == if HasKey(list, k) then Get(list, k) else Get(StatusesIn(file, name), k)
    ensures Get(Updated(file, name, list), other) == Get(file, other)
  {
    if |list| > 0 {
      var p := ProjectOr(file, name);
      PutFacts(file, name, WithStatuses(p, list));
      ProjectOrValid(file, name);
      AssignGet(StatusesOf(p), list, k);
      if !HasKey(file, name) {
        assert StatusesIn(file, name) == [];
      }
    }
  }

  /** The status assigned last for a name wins; names not assigned keep their status. */
  lemma {:induction false} AssignGet(statuses: Entries<Status>, list: Entries<Status>, k: string)
    requires DistinctKeys(statuses)
    ensures DistinctKeys(Assign(statuses, list))
    ensures Get(Assign(statuses, list), k) == if HasKey(list, k) then Get(list, k) else Get(statuses, k)
  {
    if |list| > 0 {
      var init := list[..|list| - 1];
      var last := list[|list| - 1];
      AssignGet(statuses, init, k);
      PutFacts(Assign(statuses, init), last.0, last.1);
      assert list == init + [last];
      GetSnoc(init, last, k);
    }
  }

  /** An empty comparison writes nothing. */
  lemma EmptyDiffNoWrite(file: Entries<Project>, name: string)
    ensures Updated(file, name, []) == file
  {
  }

  /**
   * Deleting a table's status removes that entry only: it is absent afterwards, the
   * project's other statuses and all other projects are as they were, and deleting an
   * absent status changes nothing.
   */
  lemma DeletedFacts(file: Entries<Project>, name: string, table: string)
    requires ValidFile(file)
    ensures ValidFile(Deleted(file, name, table))
    ensures !HasKey(StatusesIn(Deleted(file, name, table), name), table)
    ensures forall k :: k != table ==> Get(StatusesIn(Deleted(file, name, table), name), k) == Get(StatusesIn(file, name), k)
    ensures forall n :: n != name ==> Get(Deleted(file, name, table), n) == Get(file, n)
    ensures !HasKey(StatusesIn(file, name), table) ==> Deleted(file, name, table) == file
  {
    if HasKey(file, name) {
      var p := Get(file, name).value;
      ProjectOrValid(file, name);
      var ts := StatusesOf(p);
      if HasKey(ts, table) {
        var q := p.(tablesStatus := Some(Remove(ts, table)));
        RemoveFacts(ts, table);
        PutValid(file, name, q);
        PutFacts(file, name, q);
      }
    }
  }

  /** The statuses of a project not in the file are empty. */
  lemma StatusesAbsent(file: Entries<Project>, name: string)
    requires !HasKey(file, name)
    ensures StatusesIn(file, name) == []
  {
  }

  /**
   * Registering replaces the whole record: a new project is new and gets the raw request
   * types; an existing one is no longer new, has no request types, and loses its statuses
   * and Postman settings. Every other project is untouched.
   */
  lemma RegisterFacts(file: Entries<Project>, name: string, path: string, other: string)
    requires ValidFile(file) && other != name
    ensures var p := Get(Register(file, name, path), name);
      && p.Some? && p.value.path == Some(path)
      && p.value.isNew == Some(!HasKey(file, name))
      && p.value.request == Some(if HasKey(file, name) then [] else RawRequests)
      && p.value.tablesStatus.None? && p.value.postman.None?
    ensures StatusesIn(Register(file, name, path), name) == []
    ensures Get(Register(file, name, path), other) == Get(file, other)
  {
    PutFacts(file, name, Registered(path, HasKey(file, name)));
  }

  /** Registering a project twice leaves it registered as not new, with no request types. */
  lemma RegisterTwice(file: Entries<Project>, name: string, path: string)
    requires ValidFile(file)
    ensures Get(Register(Register(file, name, path), name, path), name) == Some(Registered(path, true))
  {
    var once := Register(file, name, path);
    PutFacts(file, name, Registered(path, HasKey(file, name)));
    RegisterValid(file, name, path);
    PutFacts(once, name, Registered(path, true));
  }
}
