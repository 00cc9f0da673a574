/** `migrateTasksIfNeeded` and the decision part of `loadTasks`: bringing the
    array read from storage up to the current record shape. */
module Migration {
  import opened Tasks

  /** The `completed` field of an older record: a boolean, or anything else
      (a string, a number, or no field at all). */
  datatype Flag = Bool(b: bool) | NotBool

  /** One element of the array parsed from storage. */
  datatype Raw =
    | Shaped(task: Task)                             // an object with the current fields
    | Legacy(text: Option<string>, completed: Flag)  // an object from before ids existed
    | Nullish                                        // null or another falsy element

  /** `task && task.id`: the record already has a truthy id. */
  predicate HasId(r: Raw) {
    r.Shaped? && r.task.id != ""
  }

  /** `task && task.text ? task.text : ''`. */
  function LegacyText(r: Raw): string {
    match r
    case Shaped(t) => t.text
    case Legacy(text, _) => if Truthy(text) then text.value else ""
    case Nullish => ""
  }

  /** `task && typeof task.completed === 'boolean' ? task.completed : false`. */
  function LegacyCompleted(r: Raw): bool {
    match r
    case Shaped(t) => t.completed
    case Legacy(_, Bool(b)) => b
    case Legacy(_, NotBool) => false
    case Nullish => false
  }

  /** The record built for an element without a truthy id. */
  function Upgrade(r: Raw, id: string, now: string): Task {
    Task(id, LegacyText(r), LegacyCompleted(r), "medium", None, now)
  }

  /** The callback given to `map`. */
  function Normalize(r: Raw, id: string, now: string): Task {
    if HasId(r) then r.task else Upgrade(r, id, now)
  }

  /** The `{ normalized, migrated }` pair returned by the migration. */
  datatype MigrationResult = MigrationResult(normalized: seq<Task>, migrated: bool)

  /** Every id the caller supplies for an upgraded record is non-empty (the
      source builds it as a timestamp, a dash and random digits). */
  predicate NonEmptyIds(ids: seq<string>) {
    forall i :: 0 <= i < |ids| ==> ids[i] != ""
  }

  /** `migrateTasksIfNeeded(raw)`: `ids[i]` is the id generated if element `i`
      needs upgrading and `now` the timestamp. Elements with an id are kept as
      they are, in place; every other element is replaced by an upgraded
      record; `migrated` records whether any element was upgraded. */
  function Migrate(raw: seq<Raw>, ids: seq<string>, now: string): (m: MigrationResult)
    requires |ids| == |raw| && NonEmptyIds(ids)
    ensures |m.normalized| == |raw|
    ensures forall i :: 0 <= i < |raw| && HasId(raw[i]) ==> m.normalized[i] == raw[i].task
    ensures forall i :: 0 <= i < |raw| && !HasId(raw[i]) ==>
      var t := m.normalized[i];
      && t.id == ids[i] && t.text == LegacyText(raw[i]) && t.completed == LegacyCompleted(raw[i])
      && t.priority == "medium" && t.dueDate == None && t.createdAt == now
    ensures forall i :: 0 <= i < |raw| ==> m.normalized[i].id != ""
    ensures m.migrated <==> exists i :: 0 <= i < |raw| && !HasId(raw[i])
  {
    if raw == [] then MigrationResult([], false)
    else
      var rest := Migrate(raw[1..], ids[1..], now);
      assert forall i :: 1 <= i < |raw| ==> raw[i] == raw[1..][i - 1];
      MigrationResult([Normalize(raw[0], ids[0], now)] + rest.normalized, !HasId(raw[0]) || rest.migrated)
  }

  /** The same pass as the source runs it: a map over the array whose callback
      sets the captured `migrated` flag. */
  method MigrateTasksIfNeeded(raw: seq<Raw>, ids: seq<string>, now: string)
      returns (normalized: seq<Task>, migrated: bool)
    requires |ids| == |raw| && NonEmptyIds(ids)
    ensures MigrationResult(normalized, migrated) == Migrate(raw, ids, now)
  {
    migrated := false;
    normalized := [];
    for i := 0 to |raw|
      invariant |normalized| == i
      invariant forall j :: 0 <= j < i ==> normalized[j] == Normalize(raw[j], ids[j], now)
      invariant migrated <==> exists j :: 0 <= j < i && !HasId(raw[j])
    {
      var task := raw[i];
      if HasId(task) {
        normalized := normalized + [task.task];
      } else {
        migrated := true;
        normalized := normalized + [Upgrade(task, ids[i], now)];
      }
    }
  }

  /** The records of a task list, read back from storage as they were written. */
  function Stored(tasks: seq<Task>): (raw: seq<Raw>)
    ensures |raw| == |tasks| && forall i :: 0 <= i < |tasks| ==> raw[i] == Shaped(tasks[i])
  {
    seq(|tasks|, i requires 0 <= i < |tasks| => Shaped(tasks[i]))
  }

  /** Migration is idempotent: migrating what a migration produced (after it
      was written back) returns the same records and reports no upgrade,
      whatever ids and timestamp the second pass is given. */
  lemma MigrateIdempotent(raw: seq<Raw>, ids: seq<string>, now: string, ids': seq<string>, now': string)
    requires |ids| == |raw| && NonEmptyIds(ids)
    requires |ids'| == |raw| && NonEmptyIds(ids')
    ensures var m := Migrate(raw, ids, now);
      Migrate(Stored(m.normalized), ids', now') == MigrationResult(m.normalized, false)
  {
    var m := Migrate(raw, ids, now);
    var m' := Migrate(Stored(m.normalized), ids', now');
    assert forall i :: 0 <= i < |raw| ==> HasId(Stored(m.normalized)[i]);
    assert m'.normalized == m.normalized;
  }

  /** A list whose records all have ids is returned unchanged, with no upgrade. */
  lemma MigrateCurrentUnchanged(tasks: seq<Task>, ids: seq<string>, now: string)
    requires |ids| == |tasks| && NonEmptyIds(ids)
    requires forall i :: 0 <= i < |tasks| ==> tasks[i].id != ""
    ensures Migrate(Stored(tasks), ids, now) == MigrationResult(tasks, false)
  {
    var m := Migrate(Stored(tasks), ids, now);
    assert forall i :: 0 <= i < |tasks| ==> HasId(Stored(tasks)[i]);
    assert m.normalized == tasks;
  }

  /** What `JSON.parse` made of the stored string (parsing itself is not modelled). */
  datatype Parsed = Unparseable | NotAnArray | AnArray(items: seq<Raw>)

  /** The task list `loadTasks` installs, and whether it writes it back. */
  datatype Loaded = Loaded(tasks: seq<Task>, save: bool)

  /** `loadTasks` without the storage access: `saved` is what the storage slot
      held and `parsed` what parsing it gave. Nothing usable (no slot, an empty
      string, a parse failure, a value that is not an array) gives an empty list
      that is not written back; an array is migrated and written back exactly
      when some element needed upgrading. */
  function LoadTasks(saved: Option<string>, parsed: Parsed, ids: seq<string>, now: string): (r: Loaded)
    requires parsed.AnArray? ==> |ids| == |parsed.items| && NonEmptyIds(ids)
    ensures !(Truthy(saved) && parsed.AnArray?) ==> r.tasks == [] && !r.save
    ensures Truthy(saved) && parsed.AnArray? ==>
      |r.tasks| == |parsed.items| &&
      (r.save <==> exists i :: 0 <= i < |parsed.items| && !HasId(parsed.items[i]))
    ensures Truthy(saved) && parsed.AnArray? ==> r.tasks == Migrate(parsed.items, ids, now).normalized
    ensures forall i :: 0 <= i < |r.tasks| ==> r.tasks[i].id != ""
  {
    if !Truthy(saved) then Loaded([], false)
    else
      match parsed
      case Unparseable => Loaded([], false)
      case NotAnArray => var m := Migrate([], [], now); Loaded(m.normalized, m.migrated)
      case AnArray(items) => var m := Migrate(items, ids, now); Loaded(m.normalized, m.migrated)
  }
}
