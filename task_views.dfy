/**
  The read-only views of the task list in src/taskmanager/TaskManager.java: the two
  stable sorts, the case-insensitive title search, and the id-based lookup and
  filter that findById and deleteTask use. All work on the list of Task handles
  and return fresh lists of the same handles.
*/
module TaskViews {
  import opened Wrappers
  import opened Strings
  import opened Dates
  import opened Tasks

  /** r is s with some elements left out, the rest in their order. */
  ghost predicate IsSubsequence<T>(r: seq<T>, s: seq<T>)
    decreases |s|
  {
    if r == [] then true
    else if s == [] then false
    else (r[0] == s[0] && IsSubsequence(r[1..], s[1..])) || IsSubsequence(r, s[1..])
  }

  /** No handle occurs twice. */
  ghost predicate Distinct<T>(s: seq<T>) {
    forall i, j :: 0 <= i < j < |s| ==> s[i] != s[j]
  }

  // ---------------------------------------------------------------- lookup by id

  /** The position of the first task with this id, the one a filtered stream's first element is. */
  function FirstIndexWithId(s: seq<Task>, id: int): (r: Option<nat>)
    ensures r.Some? ==> r.value < |s| && s[r.value].id == id && forall j :: 0 <= j < r.value ==> s[j].id != id
    ensures r.None? <==> forall j :: 0 <= j < |s| ==> s[j].id != id
  {
    if s == [] then None
    else if s[0].id == id then Some(0)
    else match FirstIndexWithId(s[1..], id)
      case None => None
      case Some(i) => Some(i + 1)
  }

  /** The list left after every task with this id is removed, the others kept in order. */
  function WithoutId(s: seq<Task>, id: int): (r: seq<Task>)
    ensures IsSubsequence(r, s)
    ensures forall i :: 0 <= i < |r| ==> r[i] in s && r[i].id != id
    ensures forall j :: 0 <= j < |s| && s[j].id != id ==> s[j] in r
    ensures |r| <= |s|
  {
    if s == [] then []
    else
      var rest := WithoutId(s[1..], id);
      if s[0].id == id then
        assert rest == [] || IsSubsequence(rest, s[1..]);
        rest
      else
        var r := [s[0]] + rest;
        assert r[0] == s[0] && r[1..] == rest;
        r
  }

  /** removeIf reports a change exactly when some task had the id; with none, the list is left as it was. */
  lemma {:induction false} WithoutIdUnchanged(s: seq<Task>, id: int)
    ensures |WithoutId(s, id)| == |s| <==> forall j :: 0 <= j < |s| ==> s[j].id != id
    ensures (forall j :: 0 <= j < |s| ==> s[j].id != id) ==> WithoutId(s, id) == s
  {
    if s != [] {
      WithoutIdUnchanged(s[1..], id);
      assert forall j :: 1 <= j < |s| ==> s[j] == s[1..][j - 1];
    }
  }

  /** Removing tasks cannot make a handle occur twice. */
  lemma {:induction false} WithoutIdDistinct(s: seq<Task>, id: int)
    requires Distinct(s)
    ensures Distinct(WithoutId(s, id))
  {
    if s != [] {
      WithoutIdDistinct(s[1..], id);
      var rest := WithoutId(s[1..], id);
      if s[0].id != id {
        var r := [s[0]] + rest;
        assert s[0] !in s[1..];
        forall i, j | 0 <= i < j < |r|
          ensures r[i] != r[j]
        {
          if i == 0 {
            assert r[j] in s[1..];
          }
        }
      }
    }
  }

  // ---------------------------------------------------------------- search

  /** The lower-cased title contains the already lower-cased keyword. */
  predicate TitleMatches(t: Task, lowerKeyword: string)
    reads t
  {
    Contains(Lower(t.title), lowerKeyword)
  }

  /** The tasks, in order, whose lower-cased title contains the keyword k. */
  function Matching(s: seq<Task>, lowerKeyword: string): (r: seq<Task>)
    reads s
    ensures IsSubsequence(r, s)
    ensures forall i :: 0 <= i < |r| ==> r[i] in s && TitleMatches(r[i], lowerKeyword)
    ensures forall j :: 0 <= j < |s| && TitleMatches(s[j], lowerKeyword) ==> s[j] in r
  {
    if s == [] then []
    else
      var rest := Matching(s[1..], lowerKeyword);
      if TitleMatches(s[0], lowerKeyword) then [s[0]] + rest else rest
  }

  /** Every title contains the empty keyword, so the filter keeps the whole list. */
  lemma {:induction false} MatchingEmptyKeyword(s: seq<Task>)
    ensures Matching(s, "") == s
  {
    if s != [] {
      ContainsEmpty(Lower(s[0].title));
      MatchingEmptyKeyword(s[1..]);
    }
  }

  // ---------------------------------------------------------------- sorting

  /** The two fields both comparators look at. */
  datatype SortKey = SortKey(dueDate: Option<CalendarDate>, priority: Priority)

  function KeyOf(t: Task): SortKey
    reads t
  {
    SortKey(t.dueDate, t.priority)
  }

  /** The two orders of the store's sorted listings. */
  datatype Ordering =
    | ByDueDate   // due date first, tasks without one last; then priority, LOW first
    | ByPriority  // priority first, HIGH first; then due date, tasks without one last

  /** Enum.compareTo: declaration order, LOW < MEDIUM < HIGH. */
  function ComparePriorities(a: Priority, b: Priority): (c: int)
    ensures c == 0 <==> a == b
    ensures c == -1 <==> (a == LOW && b != LOW) || (a == MEDIUM && b == HIGH)
    ensures c == 1 <==> (b == LOW && a != LOW) || (b == MEDIUM && a == HIGH)
  {
    CompareInts(a.Ordinal(), b.Ordinal())
  }

  /** Due dates compared in calendar order, a missing date after every date. */
  function CompareDueDates(a: Option<CalendarDate>, b: Option<CalendarDate>): (c: int)
    ensures -1 <= c <= 1
    ensures c == 0 <==> a == b
    ensures a.None? && b.Some? ==> c == 1
    ensures a.Some? && b.None? ==> c == -1
    ensures a.Some? && b.Some? ==> c == CompareDates(a.value, b.value)
  {
    match (a, b)
    case (None, None) => 0
    case (None, Some(_)) => 1
    case (Some(_), None) => -1
    case (Some(x), Some(y)) => CompareDates(x, y)
  }

  /** The comparator of each listing, as the sign of its result. */
  function CompareKeys(o: Ordering, a: SortKey, b: SortKey): (c: int)
    ensures -1 <= c <= 1
    ensures c == 0 <==> a == b
  {
    match o
    case ByDueDate =>
      var c := CompareDueDates(a.dueDate, b.dueDate);
      if c != 0 then c else ComparePriorities(a.priority, b.priority)
    case ByPriority =>
      var c := ComparePriorities(b.priority, a.priority);
      if c != 0 then c else CompareDueDates(a.dueDate, b.dueDate)
  }

  /** Both comparators are total orders on keys: antisymmetric and transitive. */
  lemma CompareKeysAntisymmetric(o: Ordering, a: SortKey, b: SortKey)
    ensures CompareKeys(o, a, b) == -CompareKeys(o, b, a)
  {
    if a.dueDate.Some? && b.dueDate.Some? {
      CompareDatesAntisymmetric(a.dueDate.value, b.dueDate.value);
    }
  }

  lemma CompareKeysTransitive(o: Ordering, a: SortKey, b: SortKey, c: SortKey)
    requires CompareKeys(o, a, b) <= 0 && CompareKeys(o, b, c) <= 0
    ensures CompareKeys(o, a, c) <= 0
  {
    if a.dueDate.Some? && b.dueDate.Some? && c.dueDate.Some? {
      CompareDatesTransitive(a.dueDate.value, b.dueDate.value, c.dueDate.value);
    }
  }

  predicate Precedes(o: Ordering, a: Task, b: Task)
    reads a, b
  {
    CompareKeys(o, KeyOf(a), KeyOf(b)) <= 0
  }

  /** Every task compares at most equal to every later one. */
  predicate SortedBy(o: Ordering, s: seq<Task>)
    reads s
  {
    forall i, j :: 0 <= i < j < |s| ==> Precedes(o, s[i], s[j])
  }

  /** The tasks of s whose sort key is k, in their order in s. */
  function WithKey(s: seq<Task>, k: SortKey): seq<Task>
    reads s
  {
    if s == [] then []
    else (if KeyOf(s[0]) == k then [s[0]] else []) + WithKey(s[1..], k)
  }

  lemma WithKeyCons(x: Task, s: seq<Task>, k: SortKey)
    ensures WithKey([x] + s, k) == (if KeyOf(x) == k then [x] else []) + WithKey(s, k)
  {
    assert ([x] + s)[1..] == s;
  }

  /** Places x before the first task it does not compare greater than, so it stays ahead of every equal key. */
  function Insert(o: Ordering, x: Task, s: seq<Task>): (r: seq<Task>)
    reads x, s
    ensures multiset(r) == multiset(s) + multiset{x}
    ensures SortedBy(o, s) ==> SortedBy(o, r)
    ensures forall k :: WithKey(r, k) == (if KeyOf(x) == k then [x] else []) + WithKey(s, k)
  {
    if s == [] || CompareKeys(o, KeyOf(x), KeyOf(s[0])) <= 0 then
      InsertFrontSorted(o, x, s);
      InsertFrontWithKey(x, s);
      [x] + s
    else
      var rest := Insert(o, x, s[1..]);
      assert s == [s[0]] + s[1..];
      InsertLaterSorted(o, x, s, rest);
      InsertLaterWithKey(x, s, rest);
      [s[0]] + rest
  }

  lemma InsertFrontSorted(o: Ordering, x: Task, s: seq<Task>)
    requires s == [] || CompareKeys(o, KeyOf(x), KeyOf(s[0])) <= 0
    ensures SortedBy(o, s) ==> SortedBy(o, [x] + s)
  {
    if SortedBy(o, s) && s != [] {
      forall j | 0 <= j < |s|
        ensures Precedes(o, x, s[j])
      {
        if j > 0 {
          CompareKeysTransitive(o, KeyOf(x), KeyOf(s[0]), KeyOf(s[j]));
        }
      }
    }
  }

  lemma InsertFrontWithKey(x: Task, s: seq<Task>)
    ensures forall k :: WithKey([x] + s, k) == (if KeyOf(x) == k then [x] else []) + WithKey(s, k)
  {
    forall k {
      WithKeyCons(x, s, k);
    }
  }

  lemma InsertLaterSorted(o: Ordering, x: Task, s: seq<Task>, rest: seq<Task>)
    requires s != [] && CompareKeys(o, KeyOf(x), KeyOf(s[0])) > 0
    requires multiset(rest) == multiset(s[1..]) + multiset{x}
    requires SortedBy(o, s[1..]) ==> SortedBy(o, rest)
    ensures multiset([s[0]] + rest) == multiset(s) + multiset{x}
    ensures SortedBy(o, s) ==> SortedBy(o, [s[0]] + rest)
  {
    assert s == [s[0]] + s[1..];
    if SortedBy(o, s) {
      CompareKeysAntisymmetric(o, KeyOf(x), KeyOf(s[0]));
      forall j | 0 <= j < |rest|
        ensures Precedes(o, s[0], rest[j])
      {
        assert rest[j] in multiset(rest);
        if rest[j] != x {
          assert rest[j] in multiset(s[1..]);
          var m :| 0 <= m < |s[1..]| && s[1..][m] == rest[j];
          assert s[m + 1] == rest[j];
        }
      }
      var r := [s[0]] + rest;
      forall i, j | 0 <= i < j < |r|
        ensures Precedes(o, r[i], r[j])
      {
        if i > 0 {
          assert r[i] == rest[i - 1] && r[j] == rest[j - 1];
        }
      }
    }
  }

  lemma InsertLaterWithKey(x: Task, s: seq<Task>, rest: seq<Task>)
    requires s != [] && KeyOf(x) != KeyOf(s[0])
    requires forall k :: WithKey(rest, k) == (if KeyOf(x) == k then [x] else []) + WithKey(s[1..], k)
    ensures forall k :: WithKey([s[0]] + rest, k) == (if KeyOf(x) == k then [x] else []) + WithKey(s, k)
  {
    forall k
      ensures WithKey([s[0]] + rest, k) == (if KeyOf(x) == k then [x] else []) + WithKey(s, k)
    {
      WithKeyCons(s[0], rest, k);
      WithKeyCons(s[0], s[1..], k);
      assert [s[0]] + s[1..] == s;
    }
  }

  /**
    A stable sort (Stream.sorted): the result is a permutation of s, ordered by the
    comparator, and tasks with equal keys keep their relative order.
  */
  function Sort(o: Ordering, s: seq<Task>): (r: seq<Task>)
    reads s
    ensures multiset(r) == multiset(s)
    ensures SortedBy(o, r)
    ensures forall k :: WithKey(r, k) == WithKey(s, k)
  {
    if s == [] then []
    else
      var rest := Sort(o, s[1..]);
      MembersOfPermutation(rest, s);
      var r := Insert(o, s[0], rest);
      SortStep(s, rest, r);
      r
  }

  lemma MembersOfPermutation(rest: seq<Task>, s: seq<Task>)
    requires s != [] && multiset(rest) == multiset(s[1..])
    ensures forall i :: 0 <= i < |rest| ==> rest[i] in s
  {
    forall i | 0 <= i < |rest|
      ensures rest[i] in s
    {
      assert rest[i] in multiset(rest);
      assert rest[i] in s[1..];
    }
  }

  lemma SortStep(s: seq<Task>, rest: seq<Task>, r: seq<Task>)
    requires s != []
    requires multiset(rest) == multiset(s[1..])
    requires forall k :: WithKey(rest, k) == WithKey(s[1..], k)
    requires multiset(r) == multiset(rest) + multiset{s[0]}
    requires forall k :: WithKey(r, k) == (if KeyOf(s[0]) == k then [s[0]] else []) + WithKey(rest, k)
    ensures multiset(r) == multiset(s)
    ensures forall k :: WithKey(r, k) == WithKey(s, k)
  {
    assert s == [s[0]] + s[1..];
    InsertFrontWithKey(s[0], s[1..]);
  }
}
