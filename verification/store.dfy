/** The in-memory task list and the operations that change it: add by text,
    add the suggestions, toggle and delete by index, and hydration from
    storage. */
module Store {
  import opened Text
  import opened Tasks
  import opened Migration

  /** `tasks.some(t => t.text === s)`. */
  predicate HasText(tasks: seq<Task>, s: string) {
    exists i :: 0 <= i < |tasks| && tasks[i].text == s
  }

  /** How many tasks carry the text `s`. */
  function CountText(tasks: seq<Task>, s: string): (n: nat)
    ensures n <= |tasks|
    ensures n > 0 <==> HasText(tasks, s)
  {
    if tasks == [] then 0
    else
      var init := tasks[..|tasks| - 1];
      assert forall i :: 0 <= i < |init| ==> init[i] == tasks[i];
      CountText(init, s) + (if tasks[|tasks| - 1].text == s then 1 else 0)
  }

  /** The list after `addTaskByText(text, dueDate, priority)`: `id` and
      `createdAt` are the fresh id and timestamp a new record would get. */
  function WithTaskAdded(tasks: seq<Task>, text: string, dueDate: Option<string>,
                         priority: Option<string>, id: string, createdAt: string): (r: seq<Task>)
    ensures |tasks| <= |r| <= |tasks| + 1 && r[..|tasks|] == tasks
  {
    var cleaned := Trim(text);
    if cleaned == "" || HasText(tasks, cleaned) then tasks
    else tasks + [CreateTaskObject(cleaned, if Truthy(dueDate) then dueDate else None, priority, id, createdAt)]
  }

  /** Adding changes nothing exactly when the trimmed text is empty or some
      task already has exactly that text. */
  lemma AddRejects(tasks: seq<Task>, text: string, dueDate: Option<string>,
                   priority: Option<string>, id: string, createdAt: string)
    ensures WithTaskAdded(tasks, text, dueDate, priority, id, createdAt) == tasks
      <==> Trim(text) == "" || HasText(tasks, Trim(text))
  {
    var r := WithTaskAdded(tasks, text, dueDate, priority, id, createdAt);
    if !(Trim(text) == "" || HasText(tasks, Trim(text))) {
      assert |r| == |tasks| + 1;
    }
  }

  /** A successful add appends exactly one record and keeps every earlier one.
      The new record has the trimmed text, is open, has the given priority or
      "medium", the given due date or none, and the supplied id and timestamp. */
  lemma AddAppends(tasks: seq<Task>, text: string, dueDate: Option<string>,
                   priority: Option<string>, id: string, createdAt: string)
    requires Trim(text) != "" && !HasText(tasks, Trim(text))
    ensures var r := WithTaskAdded(tasks, text, dueDate, priority, id, createdAt);
      && |r| == |tasks| + 1 && r[..|tasks|] == tasks
      && var t := r[|tasks|];
      && t.text == Trim(text) && !t.completed && t.id == id && t.createdAt == createdAt
      && t.priority == (if Truthy(priority) then priority.value else "medium")
      && t.dueDate == (if Truthy(dueDate) then dueDate else None)
  {
  }

  /** Adding a text with high priority to an empty list and then the same
      text (up to surrounding whitespace) with low priority leaves the single
      high-priority record of the first add. */
  lemma DuplicateAddScenario(text: string, text': string, id1: string, id2: string, at1: string, at2: string)
    requires Trim(text) != "" && Trim(text') == Trim(text)
    ensures var once := WithTaskAdded([], text, None, Some("high"), id1, at1);
      WithTaskAdded(once, text', None, Some("low"), id2, at2)
        == [Task(id1, Trim(text), false, "high", None, at1)]
  {
    var once := WithTaskAdded([], text, None, Some("high"), id1, at1);
    assert once == [Task(id1, Trim(text), false, "high", None, at1)];
    assert HasText(once, Trim(text')) by { assert once[0].text == Trim(text'); }
  }

  /** No two tasks share a text. */
  predicate DistinctTexts(tasks: seq<Task>) {
    forall i, j :: 0 <= i < j < |tasks| ==> tasks[i].text != tasks[j].text
  }

  /** Every text is non-empty and already trimmed. */
  predicate CleanTexts(tasks: seq<Task>) {
    forall i :: 0 <= i < |tasks| ==> tasks[i].text != "" && Trim(tasks[i].text) == tasks[i].text
  }

  /** Adding keeps texts distinct and clean, whatever the input text. */
  lemma AddKeepsTextsDistinctAndClean(tasks: seq<Task>, text: string, dueDate: Option<string>,
                                      priority: Option<string>, id: string, createdAt: string)
    ensures var r := WithTaskAdded(tasks, text, dueDate, priority, id, createdAt);
      (DistinctTexts(tasks) ==> DistinctTexts(r)) && (CleanTexts(tasks) ==> CleanTexts(r))
  {
    var r := WithTaskAdded(tasks, text, dueDate, priority, id, createdAt);
    if r != tasks {
      var n, t := |tasks|, Trim(text);
      assert t != "" && !HasText(tasks, t);
      assert |r| == n + 1 && r[n].text == t;
      assert forall i :: 0 <= i < n ==> r[i] == tasks[i];
      if DistinctTexts(tasks) {
        forall i, j | 0 <= i < j < |r|
          ensures r[i].text != r[j].text
        {
          if j < n {
            assert r[j] == tasks[j];
          }
        }
      }
      if CleanTexts(tasks) {
        TrimIdempotent(text);
        forall i | 0 <= i < |r|
          ensures r[i].text != "" && Trim(r[i].text) == r[i].text
        {
          if i < n {
            assert r[i] == tasks[i];
          }
        }
      }
    }
  }

  /** How the count of one text changes when a text is added: it goes from 0
      to 1 for the trimmed text if that is non-empty and absent, and is
      otherwise unchanged. */
  lemma AddCount(tasks: seq<Task>, text: string, dueDate: Option<string>,
                 priority: Option<string>, id: string, createdAt: string, s: string)
    ensures CountText(WithTaskAdded(tasks, text, dueDate, priority, id, createdAt), s)
      == if s == Trim(text) && s != "" && CountText(tasks, s) == 0 then 1 else CountText(tasks, s)
  {
    var r := WithTaskAdded(tasks, text, dueDate, priority, id, createdAt);
    if r != tasks {
      assert r[..|r| - 1] == tasks;
    }
  }

  /** The texts `addSuggestedTasks` offers, in order. */
  const Suggestions: seq<string> := ["Morning exercise", "Study for 1 hour", "Drink enough water"]

  /** Adding each text in turn with no due date and "medium" priority;
      `ids[k]` and `stamps[k]` are what the k-th add would use. */
  function WithAllAdded(tasks: seq<Task>, texts: seq<string>, ids: seq<string>, stamps: seq<string>): seq<Task>
    requires |ids| == |texts| && |stamps| == |texts|
  {
    if texts == [] then tasks
    else
      var n := |texts| - 1;
      WithTaskAdded(WithAllAdded(tasks, texts[..n], ids[..n], stamps[..n]),
                    texts[n], None, Some("medium"), ids[n], stamps[n])
  }

  /** The list after `addSuggestedTasks()`. */
  function WithSuggestionsAdded(tasks: seq<Task>, ids: seq<string>, stamps: seq<string>): seq<Task>
    requires |ids| == |Suggestions| && |stamps| == |Suggestions|
  {
    WithAllAdded(tasks, Suggestions, ids, stamps)
  }

  /** Adding only ever appends. */
  lemma {:induction false} AllAddedExtends(tasks: seq<Task>, texts: seq<string>, ids: seq<string>, stamps: seq<string>)
    requires |ids| == |texts| && |stamps| == |texts|
    ensures var r := WithAllAdded(tasks, texts, ids, stamps);
      |tasks| <= |r| <= |tasks| + |texts| && r[..|tasks|] == tasks
  {
    if texts != [] {
      var n := |texts| - 1;
      AllAddedExtends(tasks, texts[..n], ids[..n], stamps[..n]);
      var m := WithAllAdded(tasks, texts[..n], ids[..n], stamps[..n]);
      var r := WithTaskAdded(m, texts[n], None, Some("medium"), ids[n], stamps[n]);
      assert r[..|m|] == m;
      assert r[..|tasks|] == m[..|tasks|];
    }
  }

  /** Adding texts that are all already present (after trimming) changes nothing. */
  lemma {:induction false} AllAddedPresent(tasks: seq<Task>, texts: seq<string>, ids: seq<string>, stamps: seq<string>)
    requires |ids| == |texts| && |stamps| == |texts|
    requires forall k :: 0 <= k < |texts| ==> HasText(tasks, Trim(texts[k]))
    ensures WithAllAdded(tasks, texts, ids, stamps) == tasks
  {
    if texts != [] {
      var n := |texts| - 1;
      AllAddedPresent(tasks, texts[..n], ids[..n], stamps[..n]);
    }
  }

  /** After adding trimmed, non-empty, pairwise distinct texts, each of them
      occurs as often as before if it was present, and exactly once if not;
      every other text keeps its count. */
  lemma {:induction false} AllAddedCounts(tasks: seq<Task>, texts: seq<string>, ids: seq<string>,
                                          stamps: seq<string>, s: string)
    requires |ids| == |texts| && |stamps| == |texts|
    requires forall k :: 0 <= k < |texts| ==> texts[k] != "" && Trim(texts[k]) == texts[k]
    requires forall k, l :: 0 <= k < l < |texts| ==> texts[k] != texts[l]
    ensures CountText(WithAllAdded(tasks, texts, ids, stamps), s)
      == if s in texts && CountText(tasks, s) == 0 then 1 else CountText(tasks, s)
  {
    if texts != [] {
      var n := |texts| - 1;
      var init, t := texts[..n], texts[n];
      assert forall k :: 0 <= k < n ==> init[k] == texts[k];
      AllAddedCounts(tasks, init, ids[..n], stamps[..n], s);
      var m := WithAllAdded(tasks, init, ids[..n], stamps[..n]);
      AddTrimmedCount(m, t, ids[n], stamps[n], s);
      InitOrLast(texts, s);
      if s == t {
        assert s !in init;
      }
    }
  }

  /** An element of a non-empty sequence is in its prefix or is its last element. */
  lemma InitOrLast<T>(xs: seq<T>, x: T)
    requires xs != []
    ensures x in xs <==> x in xs[..|xs| - 1] || x == xs[|xs| - 1]
  {
    assert xs == xs[..|xs| - 1] + [xs[|xs| - 1]];
  }

  /** `AddCount` for one of those texts, added as a suggestion is. */
  lemma AddTrimmedCount(tasks: seq<Task>, t: string, id: string, createdAt: string, s: string)
    requires t != "" && Trim(t) == t
    ensures CountText(WithTaskAdded(tasks, t, None, Some("medium"), id, createdAt), s)
      == if s == t && CountText(tasks, s) == 0 then 1 else CountText(tasks, s)
  {
    AddCount(tasks, t, None, Some("medium"), id, createdAt, s);
  }

  /** `addSuggestedTasks` leaves every suggestion present exactly once if it
      was absent, leaves its count alone if it was present, and changes the
      count of no other text. */
  lemma SuggestionsCounted(tasks: seq<Task>, ids: seq<string>, stamps: seq<string>, s: string)
    requires |ids| == |Suggestions| && |stamps| == |Suggestions|
    ensures var r := WithSuggestionsAdded(tasks, ids, stamps);
      && |tasks| <= |r| && r[..|tasks|] == tasks
      && CountText(r, s) == if s in Suggestions && CountText(tasks, s) == 0 then 1 else CountText(tasks, s)
  {
    SuggestionsTrimmed();
    SuggestionsDistinct();
    AllAddedCounts(tasks, Suggestions, ids, stamps, s);
    AllAddedExtends(tasks, Suggestions, ids, stamps);
  }

  /** In a list whose texts are distinct, every text occurs at most once. */
  lemma {:induction false} DistinctCountAtMostOne(tasks: seq<Task>, s: string)
    requires DistinctTexts(tasks)
    ensures CountText(tasks, s) <= 1
  {
    if tasks != [] {
      var n := |tasks| - 1;
      var init := tasks[..n];
      assert forall i :: 0 <= i < n ==> init[i] == tasks[i];
      DistinctCountAtMostOne(init, s);
      if tasks[n].text == s {
        assert !HasText(init, s);
      }
    }
  }

  /** Starting from a list with distinct texts, `addSuggestedTasks` leaves
      every suggestion present exactly once. */
  lemma SuggestionsOnceEach(tasks: seq<Task>, ids: seq<string>, stamps: seq<string>, s: string)
    requires |ids| == |Suggestions| && |stamps| == |Suggestions|
    requires DistinctTexts(tasks) && s in Suggestions
    ensures CountText(WithSuggestionsAdded(tasks, ids, stamps), s) == 1
  {
    SuggestionsCounted(tasks, ids, stamps, s);
    DistinctCountAtMostOne(tasks, s);
  }

  /** Each suggestion is non-empty and trimmed. */
  lemma SuggestionTrimmed(k: nat)
    requires k < |Suggestions|
    ensures Suggestions[k] != "" && Trim(Suggestions[k]) == Suggestions[k]
  {
    var s := Suggestions[k];
    assert !IsWhitespace(s[0]) && !IsWhitespace(s[|s| - 1]);
    TrimFixedPoint(s);
  }

  lemma SuggestionsTrimmed()
    ensures forall k :: 0 <= k < |Suggestions| ==> Suggestions[k] != "" && Trim(Suggestions[k]) == Suggestions[k]
  {
    forall k | 0 <= k < |Suggestions|
      ensures Suggestions[k] != "" && Trim(Suggestions[k]) == Suggestions[k]
    {
      SuggestionTrimmed(k);
    }
  }

  /** The suggestions are pairwise distinct. */
  lemma SuggestionsDistinct()
    ensures forall k, l :: 0 <= k < l < |Suggestions| ==> Suggestions[k] != Suggestions[l]
  {
    assert Suggestions[0][0] != Suggestions[1][0];
    assert Suggestions[0][0] != Suggestions[2][0];
    assert Suggestions[1][0] != Suggestions[2][0];
  }

  /** `addSuggestedTasks` is idempotent: a second run, whatever ids and
      timestamps it would use, changes nothing. */
  lemma SuggestionsIdempotent(tasks: seq<Task>, ids: seq<string>, stamps: seq<string>,
                              ids': seq<string>, stamps': seq<string>)
    requires |ids| == |Suggestions| && |stamps| == |Suggestions|
    requires |ids'| == |Suggestions| && |stamps'| == |Suggestions|
    ensures var once := WithSuggestionsAdded(tasks, ids, stamps);
      WithSuggestionsAdded(once, ids', stamps') == once
  {
    var once := WithSuggestionsAdded(tasks, ids, stamps);
    SuggestionsTrimmed();
    forall k | 0 <= k < |Suggestions|
      ensures HasText(once, Trim(Suggestions[k]))
    {
      SuggestionsCounted(tasks, ids, stamps, Suggestions[k]);
    }
    AllAddedPresent(once, Suggestions, ids', stamps');
  }

  /** The list after clicking the text of the task at `index`. */
  function Toggled(tasks: seq<Task>, index: nat): seq<Task>
    requires index < |tasks|
  {
    tasks[index := tasks[index].(completed := !tasks[index].completed)]
  }

  /** Toggling flips `completed` of one record and touches nothing else;
      toggling the same index twice restores the list. */
  lemma ToggleFlipsOne(tasks: seq<Task>, index: nat)
    requires index < |tasks|
    ensures var r := Toggled(tasks, index);
      && |r| == |tasks|
      && (forall j :: 0 <= j < |tasks| && j != index ==> r[j] == tasks[j])
      && r[index].completed == !tasks[index].completed
      && r[index].(completed := tasks[index].completed) == tasks[index]
      && Toggled(r, index) == tasks
  {
  }

  /** The list after clicking the delete button of the task at `index`. */
  function Deleted(tasks: seq<Task>, index: nat): seq<Task>
    requires index < |tasks|
  {
    tasks[..index] + tasks[index + 1..]
  }

  /** Deleting removes exactly the record at `index` and keeps the others in
      their order. */
  lemma DeleteRemovesOne(tasks: seq<Task>, index: nat)
    requires index < |tasks|
    ensures var r := Deleted(tasks, index);
      && |r| == |tasks| - 1
      && (forall j :: 0 <= j < index ==> r[j] == tasks[j])
      && (forall j :: index <= j < |r| ==> r[j] == tasks[j + 1])
      && multiset(r) + multiset{tasks[index]} == multiset(tasks)
  {
    var r := Deleted(tasks, index);
    assert tasks == tasks[..index] + [tasks[index]] + tasks[index + 1..];
  }

  /** Toggling and deleting keep texts distinct and clean. */
  lemma ToggleDeleteKeepTexts(tasks: seq<Task>, index: nat)
    requires index < |tasks|
    ensures DistinctTexts(tasks) ==> DistinctTexts(Toggled(tasks, index)) && DistinctTexts(Deleted(tasks, index))
    ensures CleanTexts(tasks) ==> CleanTexts(Toggled(tasks, index)) && CleanTexts(Deleted(tasks, index))
  {
    DeleteRemovesOne(tasks, index);
  }

  /** `tasks.some(t => t.text === s)` as the loop it is. */
  method SomeHasText(tasks: seq<Task>, s: string) returns (found: bool)
    ensures found <==> exists i :: 0 <= i < |tasks| && tasks[i].text == s
  {
    found := false;
    var i := 0;
    while i < |tasks| && !found
      invariant 0 <= i <= |tasks|
      invariant found <==> exists j :: 0 <= j < i && tasks[j].text == s
    {
      found := tasks[i].text == s;
      i := i + 1;
    }
  }

  /** The task list of the page, with the operations the page's event
      handlers perform on it. */
  class TaskStore {
    var tasks: seq<Task>

    constructor ()
      ensures tasks == []
    {
      tasks := [];
    }

    /** `loadTasks`: installs the stored list (migrated), and returns whether
        the migrated list must be written back. */
    method Load(saved: Option<string>, parsed: Parsed, ids: seq<string>, now: string) returns (save: bool)
      requires parsed.AnArray? ==> |ids| == |parsed.items| && NonEmptyIds(ids)
      modifies this
      ensures Loaded(tasks, save) == LoadTasks(saved, parsed, ids, now)
    {
      if !Truthy(saved) {
        tasks := [];
        return false;
      }
      match parsed
      case Unparseable =>
        tasks := [];
        save := false;
      case NotAnArray =>
        tasks, save := MigrateTasksIfNeeded([], [], now);
      case AnArray(items) =>
        tasks, save := MigrateTasksIfNeeded(items, ids, now);
    }

    /** `addTaskByText(text, dueDate, priority)`. */
    method AddTaskByText(text: string, dueDate: Option<string>, priority: Option<string>,
                         id: string, createdAt: string)
      requires id != ""
      modifies this
      ensures tasks == WithTaskAdded(old(tasks), text, dueDate, priority, id, createdAt)
    {
      var cleaned := Trim(text);
      if cleaned == "" {
        return;
      }
      var duplicate := SomeHasText(tasks, cleaned);
      if duplicate {
        return;
      }
      var due := if Truthy(dueDate) then dueDate else None;
      tasks := tasks + [CreateTaskObject(cleaned, due, priority, id, createdAt)];
    }

    /** `addSuggestedTasks()`: one add per suggestion, in order. */
    method AddSuggestedTasks(ids: seq<string>, stamps: seq<string>)
      requires |ids| == |Suggestions| && |stamps| == |Suggestions| && NonEmptyIds(ids)
      modifies this
      ensures tasks == WithSuggestionsAdded(old(tasks), ids, stamps)
    {
      AddEach(Suggestions, ids, stamps);
    }

    /** `texts.forEach(s => addTaskByText(s, null, 'medium'))`. */
    method AddEach(texts: seq<string>, ids: seq<string>, stamps: seq<string>)
      requires |ids| == |texts| && |stamps| == |texts| && NonEmptyIds(ids)
      modifies this
      ensures tasks == WithAllAdded(old(tasks), texts, ids, stamps)
    {
      for k := 0 to |texts|
        invariant tasks == WithAllAdded(old(tasks), texts[..k], ids[..k], stamps[..k])
      {
        assert texts[..k + 1][..k] == texts[..k];
        assert ids[..k + 1][..k] == ids[..k] && stamps[..k + 1][..k] == stamps[..k];
        AddTaskByText(texts[k], None, Some("medium"), ids[k], stamps[k]);
      }
      assert texts[..|texts|] == texts;
      assert ids[..|texts|] == ids && stamps[..|texts|] == stamps;
    }

    /** The click handler on a task's text: flips `completed` of the task at
        the index it was rendered with. */
    method ToggleCompleted(index: nat)
      requires index < |tasks|
      modifies this
      ensures tasks == Toggled(old(tasks), index)
    {
      tasks := tasks[index := tasks[index].(completed := !tasks[index].completed)];
    }

    /** The delete button's handler: `tasks.splice(index, 1)`. */
    method DeleteTask(index: nat)
      requires index < |tasks|
      modifies this
      ensures tasks == Deleted(old(tasks), index)
    {
      tasks := tasks[..index] + tasks[index + 1..];
    }
  }
}
