/**
 * `DatabaseCachManager`: the two persisted snapshot slots of the reflected database. Each
 * run's database becomes the latest snapshot when it differs from the one stored, the
 * snapshot it replaces becomes the previous one, and the project's table statuses record
 * what changed between them. The slots are held in memory here, not serialized to files.
 */
module DatabaseCache {
  import opened Wrappers
  import opened PhpArray
  import opened Structure
  import opened UserProjects

  /** The two snapshot slots; `None` is a file that does not exist. */
  class DatabaseCachManager {
    var latest: Option<Database>
    var previous: Option<Database>

    constructor(latest: Option<Database>, previous: Option<Database>)
      ensures this.latest == latest && this.previous == previous
    {
      this.latest := latest;
      this.previous := previous;
    }

    /**
     * `update($currentDatabase, $userProjectsService)`. A first run stores the database and
     * diffs it against an empty one; a run whose database is not `equals` to the latest
     * diffs the two and shifts the slots; a run whose database is `equals` to it changes
     * nothing, so the previous snapshot stays as it was.
     */
    method Update(current: Database, service: UserProjectsService, projectName: string, render: Relation -> string)
      requires service.Valid()
      modifies this, service
      ensures service.Valid() && service.userProjects == old(service.userProjects)
      ensures previous == old(previous) || previous == old(latest)
      ensures latest == Some(current) || latest == old(latest)
      ensures old(latest).None? ==>
        && latest == Some(current) && previous == old(previous)
        && service.file == Updated(old(service.file), projectName, Diff([], Assoc(current.tables), render))
      ensures old(latest).Some? && old(current.Same(latest.value, render)) ==>
        && latest == old(latest) && previous == old(previous) && service.file == old(service.file)
      ensures old(latest).Some? && !old(current.Same(latest.value, render)) ==>
        && latest == Some(current) && previous == old(latest)
        && service.file == Updated(old(service.file), projectName,
          Diff(Assoc(old(latest).value.tables), Assoc(current.tables), render))
    {
      // The service does not touch the slots, so they are written before it rather than after.
      match latest {
        case None =>
          latest := Some(current);
          var empty := new Database([]);
          assert Assoc(empty.tables) == [];
          service.UpdateTablesStatus(empty, current, projectName, render);
        case Some(latestDB) =>
          var same := current.Equals(latestDB, render);
          if !same {
            previous := Some(latestDB);
            latest := Some(current);
            service.UpdateTablesStatus(latestDB, current, projectName, render);
          }
      }
    }

    /** `getPreviousVersion()`: the previous snapshot, `null` when there is none. */
    function GetPreviousVersion(): (r: Option<Database>)
      reads this
      ensures r.None? <==> previous.None?
      ensures r.Some? ==> r.value == previous.value
    {
      previous
    }
  }

  // ---------------------------------------------------------------- properties

  /**
   * On a first run every table of the current database is reported `NEW`, and nothing
   * else is reported.
   */
  lemma {:induction false} FirstRunAllNew(ts: Entries<Table>, render: Relation -> string, k: string)
    ensures (exists i :: 0 <= i < |ts| && ts[i].1.tableName == k) ==> Get(Diff([], Assoc(ts), render), k) == Some(NEW)
    ensures (forall i :: 0 <= i < |ts| ==> ts[i].1.tableName != k) ==> Get(Diff([], Assoc(ts), render), k) == None
  {
    AssocKeys(ts);
    DiffFacts([], Assoc(ts), render, k);
    if Get(Diff([], Assoc(ts), render), k).Some? {
      match Get(Diff([], Assoc(ts), render), k).value {
        case NEW =>
        case MODIFIED =>
      }
    }
  }
}
