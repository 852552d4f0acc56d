/** The profile screen's contribution window: thirty-five calendar days
    ending today, oldest first, each with the number of todos the signed-in
    user completed on that day. The remote document store is an input list
    of documents; its query is the filter `Query`, and the callback that
    counts the answer is `Tally` followed by `BuildWindow`. */
module Profile {
  import opened Optional
  import opened Time

  /** Number of days (and cells) in the window. */
  const WindowLength: nat := 35

  /** How many days before today the window starts. */
  const OriginDaysBack: int := 34

  /** A document of the `todos` collection, reduced to the fields the query
      and the callback read. `updatedAt` is `None` when the field is missing
      or is not a timestamp. */
  datatype Document = Document(userId: string, isDone: bool, updatedAt: Option<int>)

  /** One cell of the window: the first instant of its day and the number
      of commits on that day. */
  datatype Contribution = Contribution(date: int, commit: int)

  /** What the screen holds after a refresh: a list of contributions, or
      nothing at all because the callback trapped on an index out of range. */
  datatype ProfileView = Shown(contributions: seq<Contribution>) | Crashed

  /** Start of the day 34 days before `now`: the window's first day. */
  function WindowOrigin(now: int): (r: int)
    ensures r % DayLength == 0
    ensures DayOf(r) == DayOf(now) - OriginDaysBack
    ensures r + OriginDaysBack * DayLength == StartOfDay(now)
  {
    DayOfShift(now, -OriginDaysBack);
    StartOfDay(now - OriginDaysBack * DayLength)
  }

  /** The store query's filter: this user's completed todos last updated no
      earlier than the window's origin. */
  predicate Matches(d: Document, uid: string, origin: int)
  {
    d.userId == uid && d.isDone && d.updatedAt.Some? && d.updatedAt.value >= origin
  }

  /** The query's answer: the matching documents, in store order. */
  function Query(store: seq<Document>, uid: string, origin: int): (r: seq<Document>)
    ensures |r| <= |store|
    ensures forall d :: d in r <==> d in store && Matches(d, uid, origin)
  {
    if |store| == 0 then []
    else
      var rest := Query(store[..|store| - 1], uid, origin);
      var d := store[|store| - 1];
      assert store == store[..|store| - 1] + [d];
      if Matches(d, uid, origin) then rest + [d] else rest
  }

  /** Slot of the window an instant falls in: whole days from the origin's
      day to the instant's day. */
  function Offset(t: int, origin: int): int
  {
    DayOf(t) - DayOf(origin)
  }

  /** Document `d` carries a timestamp whose slot is `k`. */
  predicate Lands(d: Document, origin: int, k: int)
  {
    d.updatedAt.Some? && Offset(d.updatedAt.value, origin) == k
  }

  /** Reference count: how many documents land in slot `k`. */
  function CountOn(docs: seq<Document>, origin: int, k: int): nat
  {
    if |docs| == 0 then 0
    else CountOn(docs[..|docs| - 1], origin, k) + (if Lands(docs[|docs| - 1], origin, k) then 1 else 0)
  }

  /** How many documents carry a timestamp at all. */
  function Stamped(docs: seq<Document>): nat
  {
    if |docs| == 0 then 0
    else Stamped(docs[..|docs| - 1]) + (if docs[|docs| - 1].updatedAt.Some? then 1 else 0)
  }

  /** A document the counting loop can index without trapping: no
      timestamp, or one whose slot lies inside the window. */
  predicate Indexable(d: Document, origin: int)
  {
    d.updatedAt.None? || 0 <= Offset(d.updatedAt.value, origin) < WindowLength as int
  }

  /** The callback's counting loop over the query's answer. Every document
      with a timestamp adds one to its slot; documents without one are
      skipped; a slot outside the window traps, which is `None`. */
  function Tally(docs: seq<Document>, origin: int): (r: Option<seq<int>>)
    ensures r.Some? <==> forall i :: 0 <= i < |docs| ==> Indexable(docs[i], origin)
    ensures r.Some? ==> |r.value| == WindowLength
    ensures r.Some? ==> forall k :: 0 <= k < WindowLength ==> r.value[k] == CountOn(docs, origin, k)
  {
    if |docs| == 0 then Some(seq(WindowLength, _ => 0))
    else
      var d := docs[|docs| - 1];
      match Tally(docs[..|docs| - 1], origin)
      case None => None
      case Some(counts) =>
        match d.updatedAt
        case None => Some(counts)
        case Some(t) =>
          var k := Offset(t, origin);
          if 0 <= k < WindowLength then Some(counts[k := counts[k] + 1]) else None
  }

  function Sum(s: seq<int>): int
  {
    if |s| == 0 then 0 else Sum(s[..|s| - 1]) + s[|s| - 1]
  }

  /** Adding one to a single slot adds one to the total. */
  lemma {:induction false} SumIncrement(s: seq<int>, k: int)
    requires 0 <= k < |s|
    ensures Sum(s[k := s[k] + 1]) == Sum(s) + 1
  {
    var n := |s| - 1;
    var s' := s[k := s[k] + 1];
    assert s'[..n] == if k == n then s[..n] else s[..n][k := s[k] + 1];
    if k < n {
      SumIncrement(s[..n], k);
    }
  }

  /** Conservation: when no document traps, the slots add up to the number
      of documents that carry a timestamp. */
  lemma {:induction false} TallyConserves(docs: seq<Document>, origin: int)
    requires Tally(docs, origin).Some?
    ensures Sum(Tally(docs, origin).value) == Stamped(docs)
  {
    if |docs| == 0 {
      var z: seq<int> := seq(WindowLength, _ => 0);
      assert forall n :: 0 <= n <= WindowLength ==> Sum(z[..n]) == 0 by {
        forall n | 0 <= n <= WindowLength
          ensures Sum(z[..n]) == 0
        {
          ZeroPrefixSum(z, n);
        }
      }
      assert z[..WindowLength] == z;
    } else {
      var init := docs[..|docs| - 1];
      var d := docs[|docs| - 1];
      TallyConserves(init, origin);
      var counts := Tally(init, origin).value;
      if d.updatedAt.Some? {
        SumIncrement(counts, Offset(d.updatedAt.value, origin));
      }
    }
  }

  lemma {:induction false} ZeroPrefixSum(z: seq<int>, n: nat)
    requires n <= |z|
    requires forall i :: 0 <= i < |z| ==> z[i] == 0
    ensures Sum(z[..n]) == 0
  {
    if n > 0 {
      assert z[..n][..n - 1] == z[..n - 1];
      ZeroPrefixSum(z, n - 1);
    }
  }

  /** When every document carries a timestamp, all of them are counted. */
  lemma {:induction false} AllStamped(docs: seq<Document>)
    requires forall d :: d in docs ==> d.updatedAt.Some?
    ensures Stamped(docs) == |docs|
  {
    if |docs| > 0 {
      assert docs[|docs| - 1] in docs;
      AllStamped(docs[..|docs| - 1]);
    }
  }

  /** A document without a timestamp changes no slot. */
  lemma UnstampedIsSkipped(docs: seq<Document>, d: Document, origin: int)
    requires d.updatedAt.None?
    ensures Tally(docs + [d], origin) == Tally(docs, origin)
  {
    assert (docs + [d])[..|docs|] == docs;
  }

  /** The window the callback publishes: cell `i` is the start of the
      `i`-th day after the origin and holds that slot's count. */
  function BuildWindow(counts: seq<int>, origin: int): (r: seq<Contribution>)
    requires |counts| == WindowLength
    ensures |r| == WindowLength
    ensures forall i :: 0 <= i < |r| ==> r[i].commit == counts[i]
    ensures forall i :: 0 <= i < |r| ==> DayOf(r[i].date) == DayOf(origin) + i
    ensures origin % DayLength == 0 ==> forall i :: 0 <= i < |r| ==> StartOfDay(r[i].date) == r[i].date
    ensures forall i, j :: 0 <= i < j < |r| ==> r[i].date < r[j].date
  {
    var r := seq(WindowLength, i requires 0 <= i < WindowLength => Contribution(origin + i * DayLength, counts[i]));
    assert forall i :: 0 <= i < |r| ==> DayOf(r[i].date) == DayOf(origin) + i by {
      forall i | 0 <= i < |r|
        ensures DayOf(r[i].date) == DayOf(origin) + i
      {
        DayOfShift(origin, i);
      }
    }
    assert origin % DayLength == 0 ==> forall i :: 0 <= i < |r| ==> StartOfDay(r[i].date) == r[i].date by {
      if origin % DayLength == 0 {
        forall i | 0 <= i < |r|
          ensures StartOfDay(r[i].date) == r[i].date
        {
          DayOfShift(origin, i);
          assert origin == DayOf(origin) * DayLength;
        }
      }
    }
    r
  }

  /** The whole refresh. Without a signed-in user, or when the store
      delivers no snapshot, the screen keeps `prior`. Otherwise the user's
      completed todos since the origin are counted per day and published as
      a new window, unless one of them is dated after today, which traps. */
  function FetchData(prior: seq<Contribution>, now: int, user: Option<string>,
                     store: seq<Document>, snapshotDelivered: bool): (r: ProfileView)
    ensures user.None? || !snapshotDelivered ==> r == Shown(prior)
  {
    if user.None? || !snapshotDelivered then Shown(prior)
    else
      var origin := WindowOrigin(now);
      match Tally(Query(store, user.value, origin), origin)
      case None => Crashed
      case Some(counts) => Shown(BuildWindow(counts, origin))
  }

  /** How many documents in the store are `uid`'s completed todos last
      updated on day `day`. */
  function DoneOnDay(store: seq<Document>, uid: string, day: int): nat
  {
    if |store| == 0 then 0
    else
      var d := store[|store| - 1];
      DoneOnDay(store[..|store| - 1], uid, day)
        + (if d.userId == uid && d.isDone && d.updatedAt.Some? && DayOf(d.updatedAt.value) == day then 1 else 0)
  }

  /** Slot `k >= 0` of the query's answer counts exactly the user's
      completed todos of day `origin + k`: the query's lower bound drops
      nothing that lands inside the window. */
  lemma {:induction false} QuerySlotCount(store: seq<Document>, uid: string, origin: int, k: int)
    requires origin % DayLength == 0
    requires 0 <= k
    ensures CountOn(Query(store, uid, origin), origin, k) == DoneOnDay(store, uid, DayOf(origin) + k)
  {
    if |store| > 0 {
      var init := store[..|store| - 1];
      var d := store[|store| - 1];
      QuerySlotCount(init, uid, origin, k);
      var q := Query(init, uid, origin);
      if Matches(d, uid, origin) {
        assert (q + [d])[..|q|] == q;
      } else if d.userId == uid && d.isDone && d.updatedAt.Some? {
        var t := d.updatedAt.value;
        assert t < origin;
        DayOfBounds(origin, DayOf(origin));
        DayOfBounds(t, DayOf(t));
        assert DayOf(t) < DayOf(origin);
      }
    }
  }

  /** Every document in the query's answer is indexable exactly when none
      of the user's completed todos is dated on or after tomorrow. */
  lemma QueryIndexable(store: seq<Document>, uid: string, now: int)
    ensures (forall i :: 0 <= i < |Query(store, uid, WindowOrigin(now))| ==>
               Indexable(Query(store, uid, WindowOrigin(now))[i], WindowOrigin(now)))
        <==> (forall d :: d in store && Matches(d, uid, WindowOrigin(now)) ==>
               d.updatedAt.value < StartOfDay(now) + DayLength)
  {
    var origin := WindowOrigin(now);
    var q := Query(store, uid, origin);
    var tomorrow := StartOfDay(now) + DayLength;
    forall d | d in q
      ensures d in store && Matches(d, uid, origin)
      ensures Indexable(d, origin) <==> d.updatedAt.value < tomorrow
    {
      var t := d.updatedAt.value;
      DayOfMonotone(origin, t);
      DayOfBounds(t, DayOf(now));
      DayOfBounds(t, DayOf(t));
      DayOfBounds(now, DayOf(now));
    }
    var allIndexable := forall i :: 0 <= i < |q| ==> Indexable(q[i], origin);
    var noneLate := forall d :: d in store && Matches(d, uid, origin) ==> d.updatedAt.value < tomorrow;
    assert allIndexable ==> noneLate by {
      if allIndexable {
        forall d | d in store && Matches(d, uid, origin)
          ensures d.updatedAt.value < tomorrow
        {
          assert d in q;
          var i :| 0 <= i < |q| && q[i] == d;
        }
      }
    }
    assert noneLate ==> allIndexable by {
      if noneLate {
        forall i | 0 <= i < |q|
          ensures Indexable(q[i], origin)
        {
          assert q[i] in q;
        }
      }
    }
    // The same two conditions, spelled as in the contract.
    assert allIndexable == (forall i :: 0 <= i < |Query(store, uid, WindowOrigin(now))| ==>
               Indexable(Query(store, uid, WindowOrigin(now))[i], WindowOrigin(now)));
    assert noneLate == (forall d :: d in store && Matches(d, uid, WindowOrigin(now)) ==>
               d.updatedAt.value < StartOfDay(now) + DayLength);
  }

  /** The refresh, end to end. With a user and a snapshot it traps exactly
      when some completed todo of the user is dated on or after tomorrow;
      otherwise the new window has 35 cells, one per day from 34 days ago
      up to today in increasing order, each holding the number of the
      user's completed todos last updated that day. */
  lemma FetchDataWindow(prior: seq<Contribution>, now: int, uid: string,
                        store: seq<Document>)
    ensures FetchData(prior, now, Some(uid), store, true).Crashed?
        <==> exists d :: d in store && Matches(d, uid, WindowOrigin(now))
                          && d.updatedAt.value >= StartOfDay(now) + DayLength
    ensures FetchData(prior, now, Some(uid), store, true).Shown? ==>
      var w := FetchData(prior, now, Some(uid), store, true).contributions;
      && |w| == WindowLength
      && DayOf(w[0].date) == DayOf(now) - OriginDaysBack
      && DayOf(w[|w| - 1].date) == DayOf(now)
      && (forall i :: 0 <= i < |w| ==> StartOfDay(w[i].date) == w[i].date)
      && (forall i, j :: 0 <= i < j < |w| ==> w[i].date < w[j].date)
      && (forall i :: 0 <= i < |w| ==> w[i].commit == DoneOnDay(store, uid, DayOf(w[i].date)))
  {
    var origin := WindowOrigin(now);
    QueryIndexable(store, uid, now);
    var r := FetchData(prior, now, Some(uid), store, true);
    if r.Shown? {
      var w := r.contributions;
      var counts := Tally(Query(store, uid, origin), origin).value;
      forall i | 0 <= i < |w|
        ensures w[i].commit == DoneOnDay(store, uid, DayOf(w[i].date))
      {
        QuerySlotCount(store, uid, origin, i);
      }
    }
  }

  /** The new window's commits add up to the number of the user's
      completed todos dated inside the window. */
  lemma FetchDataTotal(prior: seq<Contribution>, now: int, uid: string,
                       store: seq<Document>)
    requires FetchData(prior, now, Some(uid), store, true).Shown?
    ensures Sum(seq(WindowLength, i requires 0 <= i < WindowLength =>
                  FetchData(prior, now, Some(uid), store, true).contributions[i].commit))
            == |Query(store, uid, WindowOrigin(now))|
  {
    var origin := WindowOrigin(now);
    var q := Query(store, uid, origin);
    var counts := Tally(q, origin).value;
    TallyConserves(q, origin);
    AllStamped(q);
    var w := FetchData(prior, now, Some(uid), store, true).contributions;
    assert seq(WindowLength, i requires 0 <= i < WindowLength => w[i].commit) == counts;
  }

  /** The trap, concretely: one completed todo stamped at the first
      instant of tomorrow is enough. */
  lemma TomorrowTraps(prior: seq<Contribution>, now: int, uid: string)
    ensures FetchData(prior, now, Some(uid), [Document(uid, true, Some(StartOfDay(now) + DayLength))], true)
            == Crashed
  {
    var d := Document(uid, true, Some(StartOfDay(now) + DayLength));
    assert d in [d];
    FetchDataWindow(prior, now, uid, [d]);
  }

}
