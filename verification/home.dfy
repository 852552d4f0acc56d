/** The home screen: two lists, the todos still to commit (section 0) and
    the todos committed today (section 1), changed by adding, committing,
    resetting and deleting. Each change is first written to the on-device
    store; the store's answer is an input, and when it reports an error the
    lists stay as they were. */
module Home {
  import opened Optional
  import opened Time
  import Text

  type Uuid = nat

  /** A todo as the home screen keeps it in memory. */
  datatype Todo = Todo(text: string, isDone: bool, createdAt: int, updatedAt: int, uuid: Uuid)

  /** The two lists behind the table: `todos` is section 0, `done` is
      section 1. */
  datatype HomeState = HomeState(todos: seq<Todo>, done: seq<Todo>)

  /** What the on-device store answers when a change is written: the change
      was saved; fetching or saving threw an error, which is caught; or the
      fetch by uuid found no record, so reading its first element traps. */
  datatype StoreReply = Saved | StoreError | NotFound

  /** Result of a change that may trap. */
  datatype Outcome = Next(state: HomeState) | Crashed

  /** How a row may be edited. */
  datatype EditingStyle = DeleteStyle | NoStyle

  /** Section 0 holds only open todos and section 1 only committed ones. */
  predicate Valid(s: HomeState)
  {
    && (forall i :: 0 <= i < |s.todos| ==> !s.todos[i].isDone)
    && (forall i :: 0 <= i < |s.done| ==> s.done[i].isDone)
  }

  /** Number of todos on screen. */
  function Total(s: HomeState): nat
  {
    |s.todos| + |s.done|
  }

  /** The uuids of a list, as a bag. */
  function UuidBag(ts: seq<Todo>): multiset<Uuid>
  {
    if |ts| == 0 then multiset{} else UuidBag(ts[..|ts| - 1]) + multiset{ts[|ts| - 1].uuid}
  }

  /** The uuids of both lists together. */
  function Uuids(s: HomeState): multiset<Uuid>
  {
    UuidBag(s.todos) + UuidBag(s.done)
  }

  /** `ts` without its element at `row`. */
  function RemoveAt(ts: seq<Todo>, row: nat): (r: seq<Todo>)
    requires row < |ts|
    ensures |r| == |ts| - 1
    ensures forall i :: 0 <= i < row ==> r[i] == ts[i]
    ensures forall i :: row <= i < |r| ==> r[i] == ts[i + 1]
  {
    ts[..row] + ts[row + 1..]
  }

  lemma {:induction false} UuidBagConcat(a: seq<Todo>, b: seq<Todo>)
    ensures UuidBag(a + b) == UuidBag(a) + UuidBag(b)
  {
    if |b| > 0 {
      assert (a + b)[..|a + b| - 1] == a + b[..|b| - 1];
      UuidBagConcat(a, b[..|b| - 1]);
    } else {
      assert a + b == a;
    }
  }

  /** Removing a row removes exactly that row's uuid. */
  lemma {:induction false} RemoveAtBag(ts: seq<Todo>, row: nat)
    requires row < |ts|
    ensures UuidBag(RemoveAt(ts, row)) + multiset{ts[row].uuid} == UuidBag(ts)
  {
    var a, x, b := ts[..row], ts[row], ts[row + 1..];
    assert ts[..row + 1] == a + [x];
    assert ts == ts[..row + 1] + b;
    assert RemoveAt(ts, row) == a + b;
    UuidBagConcat(a + [x], b);
    UuidBagConcat(a, [x]);
    UuidBagConcat(a, b);
    SingletonBag(x);
  }

  lemma SingletonBag(x: Todo)
    ensures UuidBag([x]) == multiset{x.uuid}
  {
    assert [x][..0] == [];
  }

  /** Search-bar submission. Text that is missing or only whitespace adds
      nothing; so does a failed save. Otherwise one open todo with the
      trimmed text, created and updated `now`, is appended to section 0. */
  function Add(s: HomeState, text: Option<string>, now: int, uuid: Uuid, saved: bool): (r: HomeState)
    ensures r.done == s.done
    ensures text.None? || Text.AllWhitespace(text.value) || !saved ==> r == s
    ensures text.Some? && !Text.AllWhitespace(text.value) && saved ==>
      && |r.todos| == |s.todos| + 1
      && r.todos[..|s.todos|] == s.todos
      && var t := r.todos[|s.todos|];
         && t.text == Text.Trim(text.value) && t.text != []
         && !t.isDone && t.createdAt == now && t.updatedAt == now && t.uuid == uuid
  {
    match text
    case None => s
    case Some(raw) =>
      var trimmed := Text.Trim(raw);
      if trimmed == [] || !saved then s
      else s.(todos := s.todos + [Todo(trimmed, false, now, now, uuid)])
  }

  /** Leading swipe "commit" on row `row` of section 0. Once saved, the todo
      leaves section 0 and is appended to section 1 marked done and
      updated `now`. */
  function Commit(s: HomeState, row: nat, now: int, reply: StoreReply): (r: Outcome)
    requires row < |s.todos|
    ensures reply == StoreError ==> r == Next(s)
    ensures r.Crashed? <==> reply == NotFound
    ensures reply == Saved ==>
      && r.Next?
      && r.state.todos == RemoveAt(s.todos, row)
      && |r.state.done| == |s.done| + 1
      && r.state.done[..|s.done|] == s.done
      && var t := r.state.done[|s.done|];
         && t.isDone && t.updatedAt == now
         && t == s.todos[row].(isDone := true, updatedAt := now)
  {
    match reply
    case NotFound => Crashed
    case StoreError => Next(s)
    case Saved =>
      var todo := s.todos[row].(isDone := true, updatedAt := now);
      Next(HomeState(RemoveAt(s.todos, row), s.done + [todo]))
  }

  /** Leading swipe "reset" on row `row` of section 1. Once saved, the todo
      leaves section 1 and is appended to section 0 marked open and
      updated `now`. */
  function Reset(s: HomeState, row: nat, now: int, reply: StoreReply): (r: Outcome)
    requires row < |s.done|
    ensures reply == StoreError ==> r == Next(s)
    ensures r.Crashed? <==> reply == NotFound
    ensures reply == Saved ==>
      && r.Next?
      && r.state.done == RemoveAt(s.done, row)
      && |r.state.todos| == |s.todos| + 1
      && r.state.todos[..|s.todos|] == s.todos
      && var t := r.state.todos[|s.todos|];
         && !t.isDone && t.updatedAt == now
         && t == s.done[row].(isDone := false, updatedAt := now)
  {
    match reply
    case NotFound => Crashed
    case StoreError => Next(s)
    case Saved =>
      var todo := s.done[row].(isDone := false, updatedAt := now);
      Next(HomeState(s.todos + [todo], RemoveAt(s.done, row)))
  }

  /** Rows of section 0 can be deleted; rows of section 1 cannot. */
  function EditingStyleFor(section: int): (r: EditingStyle)
    ensures r == DeleteStyle <==> section == 0
  {
    if section == 0 then DeleteStyle else NoStyle
  }

  /** Swipe-delete of row `row`. Only section 0 is affected: once the store
      has deleted the record, the row leaves section 0. */
  function Delete(s: HomeState, section: int, row: nat, reply: StoreReply): (r: Outcome)
    requires section == 0 ==> row < |s.todos|
    ensures section != 0 || reply == StoreError ==> r == Next(s)
    ensures r.Crashed? <==> section == 0 && reply == NotFound
    ensures section == 0 && reply == Saved ==>
      r == Next(HomeState(RemoveAt(s.todos, row), s.done))
  {
    if section != 0 then Next(s)
    else
      match reply
      case NotFound => Crashed
      case StoreError => Next(s)
      case Saved => Next(s.(todos := RemoveAt(s.todos, row)))
  }

  /** Number of sections in the table. */
  const SectionCount: int := 2

  /** Rows shown in a section: the open todos, the committed todos, and
      nothing elsewhere. */
  function NumberOfRows(s: HomeState, section: int): (n: nat)
    ensures n <= Total(s)
    ensures !(0 <= section < SectionCount) ==> n == 0
  {
    if section == 0 then |s.todos| else if section == 1 then |s.done| else 0
  }

  /** The app icon's badge: the number of open todos. */
  function Badge(s: HomeState): (b: nat)
    ensures b == NumberOfRows(s, 0) <= Total(s)
  {
    |s.todos|
  }

  /** The table shows every todo once: section 0 shows the open todos and
      section 1 the committed ones, so their rows add up to the total;
      sections outside the table are empty, and the badge counts the rows
      of section 0. */
  lemma RowCounts(s: HomeState)
    ensures NumberOfRows(s, 0) == |s.todos| && NumberOfRows(s, 1) == |s.done|
    ensures NumberOfRows(s, 0) + NumberOfRows(s, 1) == Total(s)
    ensures forall section :: !(0 <= section < SectionCount) ==> NumberOfRows(s, section) == 0
    ensures Badge(s) == NumberOfRows(s, 0)
  {
  }

  /** A record in the on-device store. Every attribute but `isDone` is
      optional there. */
  datatype StoredTodo = StoredTodo(text: Option<string>, isDone: bool, createdAt: Option<int>,
                                   updatedAt: Option<int>, uuid: Option<Uuid>)

  /** A record that has every attribute the screen reads. */
  predicate Complete(rec: StoredTodo)
  {
    rec.text.Some? && rec.createdAt.Some? && rec.updatedAt.Some? && rec.uuid.Some?
  }

  function ToTodo(rec: StoredTodo): Todo
    requires Complete(rec)
  {
    Todo(rec.text.value, rec.isDone, rec.createdAt.value, rec.updatedAt.value, rec.uuid.value)
  }

  /** The predicate of the first fetch: not done. */
  predicate IsOpen(rec: StoredTodo)
  {
    !rec.isDone
  }

  /** The predicate of the second fetch: done, and last updated inside the
      half-open interval from the start of today to the start of tomorrow. */
  predicate DoneToday(rec: StoredTodo, now: int)
  {
    rec.isDone && rec.updatedAt.Some?
    && StartOfDay(now) <= rec.updatedAt.value < StartOfDay(now) + DayLength
  }

  /** A record the fetch with predicate `open` (or, when `open` is false,
      the done-today predicate) returns and the conversion keeps. */
  predicate Keeps(rec: StoredTodo, open: bool, now: int)
  {
    Complete(rec) && (if open then IsOpen(rec) else DoneToday(rec, now))
  }

  /** Positions of the kept records, in store order: strictly increasing,
      and holding exactly the positions of the records the fetch keeps. */
  function KeptIndices(records: seq<StoredTodo>, open: bool, now: int): (idx: seq<nat>)
    ensures |idx| <= |records|
    ensures forall k :: 0 <= k < |idx| ==> idx[k] < |records| && Keeps(records[idx[k]], open, now)
    ensures forall k, l :: 0 <= k < l < |idx| ==> idx[k] < idx[l]
    ensures forall i :: 0 <= i < |records| && Keeps(records[i], open, now) ==> i in idx
  {
    if |records| == 0 then []
    else
      var n := |records| - 1;
      var init := records[..n];
      var rest := KeptIndices(init, open, now);
      assert forall i :: 0 <= i < n ==> records[i] == init[i];
      if Keeps(records[n], open, now) then rest + [n] else rest
  }

  /** A fetch followed by dropping records that lack an attribute: one todo
      per kept record, in store order, so equal records give equal rows
      and none is merged away. */
  function Collect(records: seq<StoredTodo>, open: bool, now: int): (r: seq<Todo>)
    ensures |r| == |KeptIndices(records, open, now)|
    ensures forall k :: 0 <= k < |r| ==>
              r[k] == ToTodo(records[KeptIndices(records, open, now)[k]])
  {
    if |records| == 0 then []
    else
      var init := records[..|records| - 1];
      var rec := records[|records| - 1];
      var rest := Collect(init, open, now);
      KeptIndicesSnoc(records, open, now);
      if Keeps(rec, open, now) then rest + [ToTodo(rec)] else rest
  }

  /** Reading one more record appends its position exactly when it is
      kept. */
  lemma KeptIndicesSnoc(records: seq<StoredTodo>, open: bool, now: int)
    requires |records| > 0
    ensures KeptIndices(records, open, now)
            == var n := |records| - 1;
               KeptIndices(records[..n], open, now) + (if Keeps(records[n], open, now) then [n] else [])
  {
  }

  /** A todo is in a rebuilt list exactly when some kept record converts
      to it. */
  lemma CollectMembers(records: seq<StoredTodo>, open: bool, now: int, t: Todo)
    ensures t in Collect(records, open, now) <==>
      exists i :: 0 <= i < |records| && Keeps(records[i], open, now) && ToTodo(records[i]) == t
  {
    var r := Collect(records, open, now);
    var idx := KeptIndices(records, open, now);
    if t in r {
      var k :| 0 <= k < |r| && r[k] == t;
      assert Keeps(records[idx[k]], open, now);
    }
    if exists i :: 0 <= i < |records| && Keeps(records[i], open, now) && ToTodo(records[i]) == t {
      var i :| 0 <= i < |records| && Keeps(records[i], open, now) && ToTodo(records[i]) == t;
      var k :| 0 <= k < |idx| && idx[k] == i;
      assert r[k] == t;
    }
  }

  /** Rebuilds both lists from the store. A failing fetch traps. Otherwise
      section 0 has one row per complete open record and section 1 one row
      per complete record done today, each in store order, and the badge
      counts the rows of section 0. */
  function FetchTodos(records: seq<StoredTodo>, now: int, fetched: bool): (r: Outcome)
    ensures r.Crashed? <==> !fetched
    ensures r.Next? ==> var idx := KeptIndices(records, true, now);
      |r.state.todos| == |idx| && Badge(r.state) == |idx|
      && forall k :: 0 <= k < |idx| ==> r.state.todos[k] == ToTodo(records[idx[k]])
    ensures r.Next? ==> var idx := KeptIndices(records, false, now);
      |r.state.done| == |idx|
      && forall k :: 0 <= k < |idx| ==> r.state.done[k] == ToTodo(records[idx[k]])
  {
    if !fetched then Crashed
    else Next(HomeState(Collect(records, true, now), Collect(records, false, now)))
  }

  /** After a rebuild both sections are valid: section 0 holds exactly the
      complete records not done, and section 1 exactly the complete done
      records updated in the half-open interval [start of today, start of
      tomorrow). */
  lemma FetchTodosMembers(records: seq<StoredTodo>, now: int)
    ensures Valid(FetchTodos(records, now, true).state)
    ensures forall t :: t in FetchTodos(records, now, true).state.todos <==>
      exists i :: 0 <= i < |records| && Complete(records[i]) && !records[i].isDone
                  && ToTodo(records[i]) == t
    ensures forall t :: t in FetchTodos(records, now, true).state.done <==>
      exists i :: 0 <= i < |records| && Complete(records[i]) && records[i].isDone
                  && StartOfDay(now) <= records[i].updatedAt.value < StartOfDay(now) + DayLength
                  && ToTodo(records[i]) == t
  {
    var s := FetchTodos(records, now, true).state;
    forall t
      ensures t in s.todos <==> exists i :: 0 <= i < |records| && Keeps(records[i], true, now) && ToTodo(records[i]) == t
    {
      CollectMembers(records, true, now, t);
    }
    forall t
      ensures t in s.done <==> exists i :: 0 <= i < |records| && Keeps(records[i], false, now) && ToTodo(records[i]) == t
    {
      CollectMembers(records, false, now, t);
    }
    assert forall i :: 0 <= i < |s.todos| ==> s.todos[i] in s.todos;
    assert forall i :: 0 <= i < |s.done| ==> s.done[i] in s.done;
  }

  /** Two identical open records give two rows and a badge of two: the
      rebuild does not merge equal todos. */
  lemma RebuildKeepsDuplicates(rec: StoredTodo, now: int)
    requires Complete(rec) && !rec.isDone
    ensures FetchTodos([rec, rec], now, true).Next?
    ensures |FetchTodos([rec, rec], now, true).state.todos| == 2
    ensures Badge(FetchTodos([rec, rec], now, true).state) == 2
  {
    var idx := KeptIndices([rec, rec], true, now);
    assert Keeps([rec, rec][0], true, now) && Keeps([rec, rec][1], true, now);
    assert 0 in idx && 1 in idx;
  }

  /** The done-today filter agrees with the calendar: a done record is kept
      exactly when its last update falls on today's day. */
  lemma DoneTodayIsSameDay(rec: StoredTodo, now: int)
    requires rec.isDone && rec.updatedAt.Some?
    ensures DoneToday(rec, now) <==> DayOf(rec.updatedAt.value) == DayOf(now)
  {
    DayOfBounds(rec.updatedAt.value, DayOf(now));
  }

  /** Adding keeps the sections valid, and grows the screen by at most one
      todo, the badge with it. */
  lemma AddPreserves(s: HomeState, text: Option<string>, now: int, uuid: Uuid, saved: bool)
    requires Valid(s)
    ensures Valid(Add(s, text, now, uuid, saved))
    ensures Total(Add(s, text, now, uuid, saved)) == Total(s)
            || Total(Add(s, text, now, uuid, saved)) == Total(s) + 1
    ensures Badge(Add(s, text, now, uuid, saved))
            == Badge(s) + (if text.Some? && !Text.AllWhitespace(text.value) && saved then 1 else 0)
  {
  }

  /** Committing keeps the sections valid and moves one todo between them:
      the total and the bag of uuids are unchanged, section 0 and the badge
      shrink by one and section 1 grows by one. */
  lemma CommitPreserves(s: HomeState, row: nat, now: int, reply: StoreReply)
    requires Valid(s) && row < |s.todos|
    requires reply != NotFound
    ensures Valid(Commit(s, row, now, reply).state)
    ensures Total(Commit(s, row, now, reply).state) == Total(s)
    ensures Uuids(Commit(s, row, now, reply).state) == Uuids(s)
    ensures reply == Saved ==>
      && NumberOfRows(Commit(s, row, now, reply).state, 0) == NumberOfRows(s, 0) - 1
      && NumberOfRows(Commit(s, row, now, reply).state, 1) == NumberOfRows(s, 1) + 1
      && Badge(Commit(s, row, now, reply).state) == Badge(s) - 1
  {
    if reply == Saved {
      var t := s.todos[row].(isDone := true, updatedAt := now);
      var r := HomeState(RemoveAt(s.todos, row), s.done + [t]);
      assert Commit(s, row, now, reply).state == r;
      RemoveAtBag(s.todos, row);
      UuidBagConcat(s.done, [t]);
      SingletonBag(t);
      assert Uuids(r) == UuidBag(RemoveAt(s.todos, row)) + UuidBag(s.done) + multiset{t.uuid};
    }
  }

  /** Resetting keeps the sections valid and moves one todo between them:
      the total and the bag of uuids are unchanged, section 1 shrinks by one
      and section 0 and the badge grow by one. */
  lemma ResetPreserves(s: HomeState, row: nat, now: int, reply: StoreReply)
    requires Valid(s) && row < |s.done|
    requires reply != NotFound
    ensures Valid(Reset(s, row, now, reply).state)
    ensures Total(Reset(s, row, now, reply).state) == Total(s)
    ensures Uuids(Reset(s, row, now, reply).state) == Uuids(s)
    ensures reply == Saved ==>
      && NumberOfRows(Reset(s, row, now, reply).state, 1) == NumberOfRows(s, 1) - 1
      && NumberOfRows(Reset(s, row, now, reply).state, 0) == NumberOfRows(s, 0) + 1
      && Badge(Reset(s, row, now, reply).state) == Badge(s) + 1
  {
    if reply == Saved {
      var t := s.done[row].(isDone := false, updatedAt := now);
      var r := HomeState(s.todos + [t], RemoveAt(s.done, row));
      assert Reset(s, row, now, reply).state == r;
      RemoveAtBag(s.done, row);
      UuidBagConcat(s.todos, [t]);
      SingletonBag(t);
      assert Uuids(r) == UuidBag(s.todos) + multiset{t.uuid} + UuidBag(RemoveAt(s.done, row));
    }
  }

  /** Deleting keeps the sections valid, never touches section 1, and
      removes exactly one uuid from section 0 when it succeeds. */
  lemma DeletePreserves(s: HomeState, section: int, row: nat, reply: StoreReply)
    requires Valid(s) && (section == 0 ==> row < |s.todos|)
    requires !(section == 0 && reply == NotFound)
    ensures Valid(Delete(s, section, row, reply).state)
    ensures Delete(s, section, row, reply).state.done == s.done
    ensures section == 0 && reply == Saved ==>
      && Total(Delete(s, section, row, reply).state) == Total(s) - 1
      && Uuids(Delete(s, section, row, reply).state) + multiset{s.todos[row].uuid} == Uuids(s)
      && Badge(Delete(s, section, row, reply).state) == Badge(s) - 1
  {
    if section == 0 && reply == Saved {
      RemoveAtBag(s.todos, row);
    }
  }

  /** Committing a todo and then resetting it (the last row of section 1)
      gives back the original section 1, and section 0 holds the same todos
      with the moved one at the end, open again and updated at the reset. */
  lemma CommitThenReset(s: HomeState, row: nat, t1: int, t2: int)
    requires Valid(s) && row < |s.todos|
    ensures var c := Commit(s, row, t1, Saved).state;
      && Reset(c, |s.done|, t2, Saved).Next?
      && Reset(c, |s.done|, t2, Saved).state.done == s.done
      && Reset(c, |s.done|, t2, Saved).state.todos
         == RemoveAt(s.todos, row) + [s.todos[row].(updatedAt := t2)]
  {
    var c := Commit(s, row, t1, Saved).state;
    assert RemoveAt(c.done, |s.done|) == s.done;
  }

}
