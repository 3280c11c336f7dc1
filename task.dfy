/**
  One task (src/taskmanager/Task.java): its priority scale, the value of its
  fields, the five-field '|'-separated line it is stored as, and the mutable
  Task object the store and the edit flow share.
*/
module Tasks {
  import opened Wrappers
  import opened Strings
  import opened JavaInt
  import opened Dates

  const DELIMITER: char := '|'

  /** Task.Priority; the declaration order LOW, MEDIUM, HIGH is its natural order. */
  datatype Priority = LOW | MEDIUM | HIGH {
    /** Enum.ordinal(). */
    function Ordinal(): (n: nat)
      ensures n <= 2
    {
      match this
      case LOW => 0
      case MEDIUM => 1
      case HIGH => 2
    }

    /** Enum.name(). */
    function Name(): (s: string)
      ensures DELIMITER !in s
    {
      match this
      case LOW => "LOW"
      case MEDIUM => "MEDIUM"
      case HIGH => "HIGH"
    }
  }

  lemma OrdinalInjective(p: Priority, q: Priority)
    ensures p.Ordinal() == q.Ordinal() <==> p == q
  {
  }

  /** Priority.valueOf: the constant with exactly this name (case-sensitive); None stands for IllegalArgumentException. */
  function ParsePriority(s: string): (r: Option<Priority>)
    ensures r.Some? <==> s == "LOW" || s == "MEDIUM" || s == "HIGH"
    ensures r.Some? ==> r.value.Name() == s
  {
    if s == "LOW" then Some(LOW)
    else if s == "MEDIUM" then Some(MEDIUM)
    else if s == "HIGH" then Some(HIGH)
    else None
  }

  lemma ParsePriorityName(p: Priority)
    ensures ParsePriority(p.Name()) == Some(p)
  {
  }

  /** Boolean.toString. */
  function FormatBoolean(b: bool): (s: string)
    ensures DELIMITER !in s && |s| >= 4 && s[|s| - 1] == 'e'
  {
    if b then "true" else "false"
  }

  /** Boolean.parseBoolean: true exactly for "true" in any letter case, false for every other text. */
  function ParseBoolean(s: string): (b: bool)
    ensures b <==> |s| == 4 && Lower(s) == "true"
  {
    EqualsIgnoreCase(s, "true")
  }

  lemma ParseFormatBoolean(b: bool)
    ensures ParseBoolean(FormatBoolean(b)) == b
  {
    assert Lower("true") == "true";
  }

  /** The values of a Task's fields; None as due date stands for Java's null. */
  datatype TaskRecord = TaskRecord(id: int, title: string, priority: Priority, dueDate: Option<CalendarDate>, completed: bool)

  /** The title as a stored line carries it once it has been read back: every '|' a space, then trimmed. */
  function SanitizedTitle(title: string): (r: string)
    ensures IsTrimmed(r) && DELIMITER !in r
    ensures IsTrimmed(title) && DELIMITER !in title ==> r == title
  {
    var replaced := ReplaceChar(title, DELIMITER, ' ');
    var r := Trim(replaced);
    TrimKeepsAbsent(replaced, DELIMITER);
    CleanTitleUnchanged(title);
    r
  }

  lemma CleanTitleUnchanged(title: string)
    ensures IsTrimmed(title) && DELIMITER !in title ==> Trim(ReplaceChar(title, DELIMITER, ' ')) == title
  {
    if IsTrimmed(title) && DELIMITER !in title {
      ReplaceAbsent(title, DELIMITER, ' ');
      TrimOfTrimmed(title);
    }
  }

  function DateField(d: Option<CalendarDate>): (s: string)
    ensures DELIMITER !in s
  {
    match d
    case None => ""
    case Some(date) => FormatDate(date)
  }

  /** The five fields of Task.toCsv, in order: id, title with '|' replaced by ' ', priority name, date or "", completed. */
  function CsvFields(t: TaskRecord): (fields: seq<string>)
    ensures |fields| == 5
    ensures forall k :: 0 <= k < 5 ==> DELIMITER !in fields[k]
  {
    [FormatInt(t.id), ReplaceChar(t.title, DELIMITER, ' '), t.priority.Name(), DateField(t.dueDate), FormatBoolean(t.completed)]
  }

  /**
    Task.toCsv: the five fields, id first, written one after another with '|' between
    them. Since the title cannot contribute a delimiter, the line splits back into
    exactly those five fields.
  */
  function ToCsv(t: TaskRecord): (line: string)
    ensures Split(line, DELIMITER) == CsvFields(t)
  {
    SplitJoin(CsvFields(t), DELIMITER);
    Join(CsvFields(t), DELIMITER)
  }

  /** The line starts with the id's first character and ends with the last letter of "true"/"false", so trim() leaves it whole. */
  lemma ToCsvIsTrimmed(t: TaskRecord)
    ensures IsTrimmed(ToCsv(t)) && ToCsv(t) != []
  {
    JoinLast(CsvFields(t), DELIMITER);
  }

  /** Why Task.fromCsv rejects a line. */
  datatype CsvError = FieldCount(count: nat) | BadId(text: string) | BadPriority(text: string) | BadDate(text: string)

  /**
    Task.fromCsv: split on '|' keeping empty fields, demand exactly five, then parse
    the id, the priority name and the date (empty = no date); the completed field
    never fails; the title is trimmed by the Task constructor.
  */
  function FromCsv(line: string): (r: Result<TaskRecord, CsvError>)
    ensures r.Ok? ==> InIntRange(r.value.id) && IsTrimmed(r.value.title)
  {
    var parts := Split(line, DELIMITER);
    if |parts| != 5 then Err(FieldCount(|parts|))
    else
      match ParseInt(parts[0])
      case None => Err(BadId(parts[0]))
      case Some(id) =>
        match ParsePriority(parts[2])
        case None => Err(BadPriority(parts[2]))
        case Some(p) =>
          if parts[3] == "" then
            Ok(TaskRecord(id, Trim(parts[1]), p, None, ParseBoolean(parts[4])))
          else
            match ParseDate(parts[3])
            case None => Err(BadDate(parts[3]))
            case Some(d) =>
              Ok(TaskRecord(id, Trim(parts[1]), p, Some(d), ParseBoolean(parts[4])))
  }

  /**
    What fromCsv accepts and what it returns: exactly five fields, a decimal int id,
    a priority name and an empty or ISO date; the id, priority and date are the ones
    written, the title is the second field trimmed, and completed is whether the last
    field reads "true" in any letter case.
  */
  lemma FromCsvFields(line: string)
    ensures var parts, r := Split(line, DELIMITER), FromCsv(line);
      r.Ok? <==> |parts| == 5 && ParseInt(parts[0]).Some? && ParsePriority(parts[2]).Some? && (parts[3] == "" || ParseDate(parts[3]).Some?)
    ensures var parts, r := Split(line, DELIMITER), FromCsv(line);
      r.Ok? ==> (ParseInt(parts[0]) == Some(r.value.id) && r.value.title == Trim(parts[1])
        && r.value.priority.Name() == parts[2] && DateField(r.value.dueDate) == parts[3]
        && r.value.completed == EqualsIgnoreCase(parts[4], "true"))
    ensures |Split(line, DELIMITER)| != 5 ==> FromCsv(line) == Err(FieldCount(|Split(line, DELIMITER)|))
  {
  }

  /** The record fromCsv returns for the line toCsv wrote: the same fields, the title sanitised. */
  function Sanitized(t: TaskRecord): TaskRecord {
    t.(title := SanitizedTitle(t.title))
  }

  /** Round trip: reading back a written task gives the same id, priority, due date and completed flag, and the sanitised title. */
  lemma CsvRoundTrip(t: TaskRecord)
    requires InIntRange(t.id)
    ensures FromCsv(ToCsv(t)) == Ok(Sanitized(t))
  {
    var parts := Split(ToCsv(t), DELIMITER);
    ParseFormatInt(t.id);
    assert ParseInt(parts[0]) == Some(t.id);
    ParsePriorityName(t.priority);
    assert ParsePriority(parts[2]) == Some(t.priority);
    ParseFormatBoolean(t.completed);
    assert ParseBoolean(parts[4]) == t.completed;
    if t.dueDate.Some? {
      ParseFormatDate(t.dueDate.value);
      assert ParseDate(parts[3]) == t.dueDate;
    }
  }

  /** A task whose title is trimmed and free of '|' survives the round trip unchanged. */
  lemma CsvRoundTripExact(t: TaskRecord)
    requires InIntRange(t.id) && IsTrimmed(t.title) && DELIMITER !in t.title
    ensures FromCsv(ToCsv(t)) == Ok(t)
  {
    CsvRoundTrip(t);
  }

  /** Task: the id is fixed at construction; the other fields are changed in place by the setters. */
  class Task {
    const id: int
    var title: string
    var priority: Priority
    var dueDate: Option<CalendarDate>
    var completed: bool

    /** The constructor and setTitle only ever store a trimmed title. */
    ghost predicate Valid()
      reads this
    {
      IsTrimmed(title)
    }

    function Value(): TaskRecord
      reads this
    {
      TaskRecord(id, title, priority, dueDate, completed)
    }

    constructor (id: int, title: string, priority: Priority, dueDate: Option<CalendarDate>, completed: bool)
      ensures Valid()
      ensures Value() == TaskRecord(id, Trim(title), priority, dueDate, completed)
    {
      this.id := id;
      this.title := Trim(title);
      this.priority := priority;
      this.dueDate := dueDate;
      this.completed := completed;
    }

    method SetTitle(title: string)
      requires Valid()
      modifies this
      ensures Valid()
      ensures Value() == old(Value()).(title := Trim(title))
    {
      this.title := Trim(title);
    }

    method SetPriority(priority: Priority)
      requires Valid()
      modifies this
      ensures Valid()
      ensures Value() == old(Value()).(priority := priority)
    {
      this.priority := priority;
    }

    method SetDueDate(dueDate: Option<CalendarDate>)
      requires Valid()
      modifies this
      ensures Valid()
      ensures Value() == old(Value()).(dueDate := dueDate)
    {
      this.dueDate := dueDate;
    }

    method SetCompleted(completed: bool)
      requires Valid()
      modifies this
      ensures Valid()
      ensures Value() == old(Value()).(completed := completed)
    {
      this.completed := completed;
    }

    /** Task.equals: the same object, or a Task with the same id. */
    predicate Equals(o: Task?)
      ensures Equals(o) <==> o != null && o.id == id
    {
      this == o || (o != null && o.id == id)
    }
  }

  /** The field values of a list of tasks, position by position. */
  function Values(s: seq<Task>): (r: seq<TaskRecord>)
    reads s
    ensures |r| == |s| && forall i :: 0 <= i < |s| ==> r[i] == s[i].Value()
  {
    seq(|s|, i requires 0 <= i < |s| reads s => s[i].Value())
  }

  /** Task equality is an equivalence on tasks. */
  lemma EqualsById(a: Task, b: Task?, c: Task?)
    ensures a.Equals(a)
    ensures b != null ==> (a.Equals(b) <==> b.Equals(a))
    ensures b != null && a.Equals(b) && b.Equals(c) ==> a.Equals(c)
  {
  }
}
