/**
  src/taskmanager/TaskManager.java: the list of tasks in insertion order and the id
  allocator, with the operations that change them (load, addTask, deleteTask,
  markCompleted) and those that only read them (save, findById, the sorted and
  filtered views, getCount). The file itself is a parameter: load receives the
  lines of the file, or None when it does not exist, and save returns the lines it
  would write.
*/
module TaskStore {
  import opened Wrappers
  import opened Strings
  import opened Dates
  import opened Tasks
  import opened TaskViews
  import opened TaskFile
  import opened JavaInt

  // ---------------------------------------------------------------- markCompleted on values

  /** The records after the first task with this id, if there is one, is marked completed. */
  function MarkFirstCompleted(rs: seq<TaskRecord>, id: int): (r: seq<TaskRecord>)
    ensures |r| == |rs|
  {
    if rs == [] then []
    else if rs[0].id == id then [rs[0].(completed := true)] + rs[1..]
    else [rs[0]] + MarkFirstCompleted(rs[1..], id)
  }

  /** Only the first task with the id changes, and only its completed flag. */
  lemma {:induction false} MarkFirstCompletedAt(rs: seq<TaskRecord>, id: int, k: nat)
    requires k < |rs| && rs[k].id == id && forall j :: 0 <= j < k ==> rs[j].id != id
    ensures MarkFirstCompleted(rs, id) == rs[k := rs[k].(completed := true)]
  {
    if k > 0 {
      MarkFirstCompletedAt(rs[1..], id, k - 1);
      assert rs[1..][k - 1 := rs[k].(completed := true)] == rs[k := rs[k].(completed := true)][1..];
    }
  }

  /** With no task of that id nothing changes. */
  lemma {:induction false} MarkFirstCompletedAbsent(rs: seq<TaskRecord>, id: int)
    requires forall j :: 0 <= j < |rs| ==> rs[j].id != id
    ensures MarkFirstCompleted(rs, id) == rs
  {
    if rs != [] {
      MarkFirstCompletedAbsent(rs[1..], id);
    }
  }

  /** Marking the same id twice gives what marking it once gives. */
  lemma {:induction false} MarkFirstCompletedIdempotent(rs: seq<TaskRecord>, id: int)
    ensures MarkFirstCompleted(MarkFirstCompleted(rs, id), id) == MarkFirstCompleted(rs, id)
  {
    if rs != [] && rs[0].id != id {
      MarkFirstCompletedIdempotent(rs[1..], id);
    }
  }

  // ---------------------------------------------------------------- the store

  class TaskManager {
    const storagePath: string
    var tasks: seq<Task>
    var nextId: int

    /**
      Each handle occurs once, every stored id is below the allocator, and every
      stored title is trimmed.
    */
    ghost predicate Valid()
      reads this, tasks
    {
      Distinct(tasks)
      && (forall i :: 0 <= i < |tasks| ==> tasks[i].id < nextId)
      && (forall i :: 0 <= i < |tasks| ==> tasks[i].Valid())
    }

    /** The field values of the stored tasks, in list order. */
    function Records(): seq<TaskRecord>
      reads this, tasks
    {
      Values(tasks)
    }

    constructor (storagePath: string)
      ensures Valid()
      ensures this.storagePath == storagePath && tasks == [] && nextId == 1
    {
      this.storagePath := storagePath;
      tasks := [];
      nextId := 1;
    }

    /**
      load: clear the list (not the allocator); then, for each line, trim it, skip it
      when blank or when fromCsv rejects it, else append the task and move nextId
      past its id. file is None when the storage file does not exist.
    */
    method Load(file: Option<seq<string>>)
      modifies this
      ensures Valid()
      ensures forall t :: t in tasks ==> fresh(t)
      ensures file.None? ==> tasks == [] && nextId == old(nextId)
      ensures file.Some? ==> var end := LoadLines(LoadState([], old(nextId)), file.value);
        Records() == end.records && nextId == end.nextId
      ensures nextId >= old(nextId)
    {
      tasks := [];
      if file.None? {
        return;
      }
      var lines := file.value;
      ghost var start := LoadState([], nextId);
      ghost var ps := ParsedLines(lines);
      var i := 0;
      while i < |lines|
        invariant 0 <= i <= |lines|
        invariant Valid()
        invariant LoadState(Records(), nextId) == AcceptAll(start, ps[..i])
        invariant forall t :: t in tasks ==> fresh(t)
      {
        assert ParseLine(lines[i]) == ps[i];
        assert ps[..i + 1][..i] == ps[..i];
        LoadOneLine(lines[i]);
        i := i + 1;
      }
      assert ps[..i] == ps;
      LoadLinesByParses(start, lines, ps);
      AcceptAllKeepsIdsBelow(start, ps);
    }

    /** One pass of load's loop: the line is trimmed, skipped when blank or malformed, else its task is appended. */
    method LoadOneLine(line: string)
      requires Valid()
      modifies this
      ensures Valid()
      ensures LoadState(Records(), nextId) == Accept(old(LoadState(Records(), nextId)), ParseLine(line))
      ensures forall t :: t in tasks ==> t in old(tasks) || fresh(t)
    {
      var trimmed := Trim(line);
      if trimmed == [] {
        return;
      }
      var result := FromCsv(trimmed);
      if result.Err? {
        return;
      }
      AddLoaded(result.value);
    }

    /** The rest of load's loop body: a Task for the parsed fields is appended and nextId moves past its id. */
    method AddLoaded(r: TaskRecord)
      requires Valid() && IsTrimmed(r.title)
      modifies this
      ensures Valid()
      ensures LoadState(Records(), nextId) == Accept(old(LoadState(Records(), nextId)), Some(r))
      ensures forall t :: t in tasks ==> t in old(tasks) || fresh(t)
    {
      TrimOfTrimmed(r.title);
      var t := new Task(r.id, r.title, r.priority, r.dueDate, r.completed);
      tasks := tasks + [t];
      nextId := Max(nextId, r.id + 1);
    }

    /** save: the toCsv line of every task, in list order. */
    method Save() returns (lines: seq<string>)
      ensures lines == SaveLines(Records())
    {
      lines := [];
      for i := 0 to |tasks|
        invariant |lines| == i
        invariant forall k :: 0 <= k < i ==> lines[k] == ToCsv(tasks[k].Value())
      {
        lines := lines + [ToCsv(tasks[i].Value())];
      }
    }

    /** addTask: a new task with the next id, not completed, appended at the end. */
    method AddTask(title: string, priority: Priority, dueDate: Option<CalendarDate>) returns (t: Task)
      requires Valid()
      modifies this
      ensures Valid()
      ensures fresh(t) && tasks == old(tasks) + [t]
      ensures t.Value() == TaskRecord(old(nextId), Trim(title), priority, dueDate, false)
      ensures Records() == old(Records()) + [t.Value()]
      ensures nextId == old(nextId) + 1 && Count() == old(Count()) + 1
      ensures forall i :: 0 <= i < |old(tasks)| ==> tasks[i].id < t.id
    {
      t := new Task(nextId, title, priority, dueDate, false);
      nextId := nextId + 1;
      tasks := tasks + [t];
    }

    /** deleteTask: removes every task with this id, reporting whether anything was removed. */
    method DeleteTask(id: int) returns (removed: bool)
      requires Valid()
      modifies this
      ensures Valid()
      ensures tasks == WithoutId(old(tasks), id) && nextId == old(nextId)
      ensures removed <==> !(forall j :: 0 <= j < |old(tasks)| ==> old(tasks)[j].id != id)
      ensures removed <==> Count() < old(Count())
      ensures !removed ==> tasks == old(tasks)
    {
      var before := |tasks|;
      WithoutIdUnchanged(tasks, id);
      WithoutIdDistinct(tasks, id);
      tasks := WithoutId(tasks, id);
      removed := |tasks| != before;
    }

    /** findById: the first task with this id, or none. */
    function FindById(id: int): (r: Option<Task>)
      reads this
      ensures r.None? <==> forall j :: 0 <= j < |tasks| ==> tasks[j].id != id
      ensures r.Some? ==> exists k :: (0 <= k < |tasks| && tasks[k] == r.value && r.value.id == id
        && forall j :: 0 <= j < k ==> tasks[j].id != id)
    {
      match FirstIndexWithId(tasks, id)
      case None => None
      case Some(k) => Some(tasks[k])
    }

    /** markCompleted: marks the task findById returns as completed; true iff there was one. */
    method MarkCompleted(id: int) returns (found: bool)
      requires Valid()
      modifies tasks
      ensures Valid()
      ensures found <==> !(forall j :: 0 <= j < |tasks| ==> tasks[j].id != id)
      ensures Records() == MarkFirstCompleted(old(Records()), id)
    {
      ghost var before := Records();
      ghost var first := FirstIndexWithId(tasks, id);
      var ot := FindById(id);
      found := ot.Some?;
      if ot.Some? {
        var k := first.value;
        var t := ot.value;
        t.SetCompleted(true);
        forall j | 0 <= j < |tasks| && j != k
          ensures tasks[j].Value() == before[j]
        {
          assert tasks[j] != tasks[k];
        }
        assert Records() == before[k := before[k].(completed := true)];
        MarkFirstCompletedAt(before, id, k);
      } else {
        MarkFirstCompletedAbsent(before, id);
      }
    }

    /** listAllSortedByDueDate: due date ascending with no date last, then priority LOW to HIGH; stable. */
    function ListAllSortedByDueDate(): (r: seq<Task>)
      reads this, tasks
      ensures multiset(r) == multiset(tasks)
      ensures SortedBy(ByDueDate, r)
      ensures forall k :: WithKey(r, k) == WithKey(tasks, k)
    {
      Sort(ByDueDate, tasks)
    }

    /** listAllSortedByPriority: priority HIGH to LOW, then due date ascending with no date last; stable. */
    function ListAllSortedByPriority(): (r: seq<Task>)
      reads this, tasks
      ensures multiset(r) == multiset(tasks)
      ensures SortedBy(ByPriority, r)
      ensures forall k :: WithKey(r, k) == WithKey(tasks, k)
    {
      Sort(ByPriority, tasks)
    }

    /** searchByTitle: the tasks whose lower-cased title contains the lower-cased keyword, in list order. */
    function SearchByTitle(keyword: string): (r: seq<Task>)
      reads this, tasks
      ensures IsSubsequence(r, tasks)
      ensures forall i :: 0 <= i < |r| ==> r[i] in tasks && TitleMatches(r[i], Lower(keyword))
      ensures forall j :: 0 <= j < |tasks| && TitleMatches(tasks[j], Lower(keyword)) ==> tasks[j] in r
    {
      Matching(tasks, Lower(keyword))
    }

    /** getCount. */
    function Count(): nat
      reads this
    {
      |tasks|
    }
  }

  /**
    A restart of the application: save writes the list, load reads it back. Every
    task returns in order with its title sanitised, and the allocator stays put.
  */
  method SaveAndReload(m: TaskManager)
    requires m.Valid() && forall i :: 0 <= i < |m.tasks| ==> InIntRange(m.tasks[i].id)
    modifies m
    ensures m.Valid()
    ensures m.Records() == SanitizedAll(old(m.Records())) && m.nextId == old(m.nextId)
  {
    ghost var before := m.Records();
    var lines := m.Save();
    m.Load(Some(lines));
    LoadSavedLines(LoadState([], old(m.nextId)), before);
    NextIdAfterBelow(old(m.nextId), before);
  }

  /** Two addTask calls in a row hand out two different handles with increasing ids. */
  method AddTwo(m: TaskManager, first: string, second: string, priority: Priority) returns (a: Task, b: Task)
    requires m.Valid()
    modifies m
    ensures m.Valid()
    ensures a != b && a.id < b.id && b.id < m.nextId
    ensures m.Records() == old(m.Records()) + [a.Value(), b.Value()]
  {
    a := m.AddTask(first, priority, None);
    b := m.AddTask(second, priority, None);
  }

  /** A second markCompleted on the same id reports the same and changes nothing more. */
  method MarkCompletedTwice(m: TaskManager, id: int) returns (once: bool, twice: bool)
    requires m.Valid()
    modifies m.tasks
    ensures m.Valid()
    ensures once == twice
    ensures m.Records() == MarkFirstCompleted(old(m.Records()), id)
  {
    once := m.MarkCompleted(id);
    twice := m.MarkCompleted(id);
    MarkFirstCompletedIdempotent(old(m.Records()), id);
  }
}
