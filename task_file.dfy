/**
  The storage side of src/taskmanager/TaskManager.java as functions on lines of
  text: the loop body of load (trim, skip blank, parse, skip malformed, advance the
  id allocator), the lines save writes, and what loading saved lines gives back.
*/
module TaskFile {
  import opened Wrappers
  import opened Strings
  import opened JavaInt
  import opened Tasks

  /** What load has built so far: the parsed tasks in order, and the id allocator. */
  datatype LoadState = LoadState(records: seq<TaskRecord>, nextId: int)

  function Max(a: int, b: int): (m: int)
    ensures m >= a && m >= b && (m == a || m == b)
  {
    if a >= b then a else b
  }

  /** What one line of the file yields: nothing for a blank line or one fromCsv rejects, else the parsed task. */
  function ParseLine(line: string): (p: Option<TaskRecord>)
    ensures p.Some? ==> InIntRange(p.value.id) && IsTrimmed(p.value.title)
    ensures Trim(line) == [] ==> p == None
  {
    var trimmed := Trim(line);
    if trimmed == [] then None
    else
      match FromCsv(trimmed)
      case Err(_) => None
      case Ok(t) => Some(t)
  }

  /** Every task's id is below the allocator. */
  predicate IdsBelow(records: seq<TaskRecord>, nextId: int) {
    forall i :: 0 <= i < |records| ==> records[i].id < nextId
  }

  /** Taking a parsed line into the state: the task is appended and nextId becomes the larger of nextId and one past the task's id, in unbounded integers. */
  function Accept(st: LoadState, p: Option<TaskRecord>): (r: LoadState)
    ensures p.None? ==> r == st
    ensures p.Some? ==> r.records == st.records + [p.value] && p.value.id < r.nextId
    ensures r.nextId >= st.nextId && (r.nextId == st.nextId || (p.Some? && r.nextId == p.value.id + 1))
    ensures IdsBelow(st.records, st.nextId) ==> IdsBelow(r.records, r.nextId)
  {
    match p
    case None => st
    case Some(t) => LoadState(st.records + [t], Max(st.nextId, t.id + 1))
  }

  /**
    One pass of load's loop: at most one task is appended, its id below the new
    allocator; the allocator never moves back; a blank line changes nothing.
  */
  function LoadLine(st: LoadState, line: string): (r: LoadState)
    ensures st.records <= r.records && |r.records| <= |st.records| + 1
    ensures |r.records| == |st.records| + 1 ==> r.records[|st.records|].id < r.nextId
    ensures r.nextId >= st.nextId
    ensures IdsBelow(st.records, st.nextId) ==> IdsBelow(r.records, r.nextId)
    ensures Trim(line) == [] ==> r == st
  {
    Accept(st, ParseLine(line))
  }

  function AcceptAll(st: LoadState, ps: seq<Option<TaskRecord>>): LoadState {
    if ps == [] then st else Accept(AcceptAll(st, ps[..|ps| - 1]), ps[|ps| - 1])
  }

  function ParseAll(lines: seq<string>): (ps: seq<Option<TaskRecord>>)
    ensures |ps| == |lines| && forall i :: 0 <= i < |lines| ==> ps[i] == ParseLine(lines[i])
  {
    seq(|lines|, i requires 0 <= i < |lines| => ParseLine(lines[i]))
  }

  /**
    load's loop over the lines of the file, from first to last: it keeps what was
    loaded before, adds at most one task per line, only moves the allocator forward,
    and leaves every loaded id below it.
  */
  function LoadLines(st: LoadState, lines: seq<string>): (r: LoadState)
    ensures st.records <= r.records && |r.records| <= |st.records| + |lines|
    ensures r.nextId >= st.nextId
    ensures IdsBelow(st.records, st.nextId) ==> IdsBelow(r.records, r.nextId)
  {
    AcceptAllKeepsIdsBelow(st, ParseAll(lines));
    AcceptAll(st, ParseAll(lines))
  }

  /** Loading no lines changes nothing; loading one more line is one more pass of the loop. */
  lemma LoadLinesSnoc(st: LoadState, lines: seq<string>, line: string)
    ensures LoadLines(st, []) == st
    ensures LoadLines(st, lines + [line]) == LoadLine(LoadLines(st, lines), line)
  {
    var ps := ParseAll(lines + [line]);
    assert ps[..|lines|] == ParseAll(lines);
  }

  /** The parse of each line, given position by position. */
  lemma ParsedLines(lines: seq<string>) returns (ps: seq<Option<TaskRecord>>)
    ensures |ps| == |lines|
    ensures forall k {:trigger ParseLine(lines[k])} :: 0 <= k < |lines| ==> ps[k] == ParseLine(lines[k])
  {
    ps := ParseAll(lines);
  }

  /** Loading the lines is accepting their parses one after the other. */
  lemma LoadLinesByParses(st: LoadState, lines: seq<string>, ps: seq<Option<TaskRecord>>)
    requires |ps| == |lines|
    requires forall k {:trigger ParseLine(lines[k])} :: 0 <= k < |lines| ==> ps[k] == ParseLine(lines[k])
    ensures LoadLines(st, lines) == AcceptAll(st, ps)
  {
    assert ParseAll(lines) == ps;
  }

  /** load skips a line that fromCsv rejects. */
  lemma LoadRejectedLine(st: LoadState, line: string)
    requires Trim(line) != [] && FromCsv(Trim(line)).Err?
    ensures LoadLine(st, line) == st
  {
  }

  /** load appends the task a line parses to and moves the allocator past its id. */
  lemma LoadAcceptedLine(st: LoadState, line: string, t: TaskRecord)
    requires ParseLine(line) == Some(t)
    ensures LoadLine(st, line) == LoadState(st.records + [t], Max(st.nextId, t.id + 1))
  {
  }

  lemma {:induction false} AcceptAllKeepsIdsBelow(st: LoadState, ps: seq<Option<TaskRecord>>)
    ensures var end := AcceptAll(st, ps);
      st.records <= end.records && |end.records| <= |st.records| + |ps| && end.nextId >= st.nextId
    ensures var end := AcceptAll(st, ps);
      IdsBelow(st.records, st.nextId) ==> IdsBelow(end.records, end.nextId)
  {
    if ps != [] {
      AcceptAllKeepsIdsBelow(st, ps[..|ps| - 1]);
    }
  }

  /** The lines save writes: the toCsv text of each task, in stored order. */
  function SaveLines(records: seq<TaskRecord>): (lines: seq<string>)
    ensures |lines| == |records| && forall i :: 0 <= i < |records| ==> lines[i] == ToCsv(records[i])
  {
    seq(|records|, i requires 0 <= i < |records| => ToCsv(records[i]))
  }

  /** The allocator after reading back these tasks. */
  function NextIdAfter(nextId: int, records: seq<TaskRecord>): (n: int)
    ensures n >= nextId && IdsBelow(records, n)
  {
    if records == [] then nextId
    else Max(NextIdAfter(nextId, records[..|records| - 1]), records[|records| - 1].id + 1)
  }

  /** Reading back ids that are all below the allocator leaves it where it was. */
  lemma {:induction false} NextIdAfterBelow(nextId: int, records: seq<TaskRecord>)
    requires IdsBelow(records, nextId)
    ensures NextIdAfter(nextId, records) == nextId
  {
    if records != [] {
      NextIdAfterBelow(nextId, records[..|records| - 1]);
    }
  }

  function SanitizedAll(records: seq<TaskRecord>): (r: seq<TaskRecord>)
    ensures |r| == |records| && forall i :: 0 <= i < |records| ==> r[i] == Sanitized(records[i])
  {
    seq(|records|, i requires 0 <= i < |records| => Sanitized(records[i]))
  }

  /** Sanitising tasks whose titles are already clean changes nothing. */
  lemma SanitizedAllClean(records: seq<TaskRecord>)
    requires forall i :: 0 <= i < |records| ==> IsTrimmed(records[i].title) && DELIMITER !in records[i].title
    ensures SanitizedAll(records) == records
  {
    forall i | 0 <= i < |records|
      ensures SanitizedAll(records)[i] == records[i]
    {
      CleanTitleUnchanged(records[i].title);
    }
  }

  /** Sanitising titles leaves the ids, hence the allocator, alone. */
  lemma {:induction false} NextIdAfterSanitized(nextId: int, records: seq<TaskRecord>)
    ensures NextIdAfter(nextId, SanitizedAll(records)) == NextIdAfter(nextId, records)
  {
    if records != [] {
      var n := |records| - 1;
      assert SanitizedAll(records)[..n] == SanitizedAll(records[..n]);
      NextIdAfterSanitized(nextId, records[..n]);
    }
  }

  /** A written line survives load's trim and parses back to the sanitised task. */
  lemma ParseSavedLine(t: TaskRecord)
    requires InIntRange(t.id)
    ensures ParseLine(ToCsv(t)) == Some(Sanitized(t))
  {
    ToCsvIsTrimmed(t);
    TrimOfTrimmed(ToCsv(t));
    CsvRoundTrip(t);
  }

  function Parsed(records: seq<TaskRecord>): (ps: seq<Option<TaskRecord>>)
    ensures |ps| == |records| && forall i :: 0 <= i < |records| ==> ps[i] == Some(records[i])
  {
    seq(|records|, i requires 0 <= i < |records| => Some(records[i]))
  }

  /** Accepting only parsed tasks appends them all and moves the allocator past each id. */
  lemma {:induction false} AcceptAllParsed(st: LoadState, records: seq<TaskRecord>)
    ensures AcceptAll(st, Parsed(records)) == LoadState(st.records + records, NextIdAfter(st.nextId, records))
  {
    if records != [] {
      var n := |records| - 1;
      assert Parsed(records)[..n] == Parsed(records[..n]);
      AcceptAllParsed(st, records[..n]);
      assert st.records + records == (st.records + records[..n]) + [records[n]];
    }
  }

  /**
    Loading the lines that save wrote gives back every task, in order, with only the
    title sanitised, and moves the allocator past every id.
  */
  lemma LoadSavedLines(st: LoadState, records: seq<TaskRecord>)
    requires forall i :: 0 <= i < |records| ==> InIntRange(records[i].id)
    ensures LoadLines(st, SaveLines(records)) == LoadState(st.records + SanitizedAll(records), NextIdAfter(st.nextId, records))
  {
    var sanitized := SanitizedAll(records);
    forall i | 0 <= i < |records| {
      ParseSavedLine(records[i]);
    }
    assert ParseAll(SaveLines(records)) == Parsed(sanitized);
    AcceptAllParsed(st, sanitized);
    NextIdAfterSanitized(st.nextId, records);
  }

  /** With trimmed, '|'-free titles the tasks come back exactly as they were saved. */
  lemma LoadSavedLinesExact(st: LoadState, records: seq<TaskRecord>)
    requires forall i :: 0 <= i < |records| ==> InIntRange(records[i].id) && IsTrimmed(records[i].title) && DELIMITER !in records[i].title
    ensures LoadLines(st, SaveLines(records)).records == st.records + records
  {
    LoadSavedLines(st, records);
    SanitizedAllClean(records);
  }

  // ---------------------------------------------------------------- the allocator in Java int

  /** The loop body exactly as the Java code computes it: one past the id is a 32-bit sum, which wraps around at Integer.MAX_VALUE. */
  function LoadLineAsWritten(st: LoadState, line: string): (r: LoadState)
    ensures r.records == LoadLine(st, line).records
    ensures InIntRange(st.nextId) ==> InIntRange(r.nextId)
    ensures ParseLine(line).None? || ParseLine(line).value.id < MAX_INT ==> r == LoadLine(st, line)
  {
    match ParseLine(line)
    case None => st
    case Some(t) => LoadState(st.records + [t], Max(st.nextId, Wrap(t.id + 1)))
  }

  /**
    A stored line with id 2147483647 is loaded, but Integer.MAX_VALUE + 1 wraps to
    Integer.MIN_VALUE, so the allocator stays where it was and the loaded id is not
    below it: later addTask calls hand out ids that can collide with it.
  */
  lemma AsWrittenMaxIdNotBelowNextId(t: TaskRecord)
    requires t.id == MAX_INT && IsTrimmed(t.title) && DELIMITER !in t.title
    ensures var end := LoadLineAsWritten(LoadState([], 1), ToCsv(t));
      end == LoadState([t], 1) && !IdsBelow(end.records, end.nextId)
  {
    ParseSavedLine(t);
    CleanTitleUnchanged(t.title);
    WrapMaxPlusOne();
    var end := LoadLineAsWritten(LoadState([], 1), ToCsv(t));
    assert end.records[0].id >= end.nextId;
  }

  /** The model's load step keeps the bound that the Java arithmetic loses. */
  lemma MaxIdBelowNextId(t: TaskRecord)
    requires t.id == MAX_INT && IsTrimmed(t.title) && DELIMITER !in t.title
    ensures var end := LoadLine(LoadState([], 1), ToCsv(t));
      end == LoadState([t], MAX_INT + 1) && IdsBelow(end.records, end.nextId)
  {
    ParseSavedLine(t);
    CleanTitleUnchanged(t.title);
  }
}
