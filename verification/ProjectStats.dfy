/**
 Sequenced statistics snapshots of one hosted project (domain/dal/webproject_stat.go).

 A snapshot carries absolute counts. Deliveries may be repeated, delayed and reordered; the row lock makes each
 of them one step. The HLL blobs and the descriptive columns travel with the counts and are not modelled.
 */
module ProjectStats {
  import opened Common

  datatype Counts = Counts(pv: int, uv: int)

  datatype Day = Day(project: int, date: string, counts: Counts, snapshotSeq: nat)

  datatype Snapshot = Snapshot(project: int, seqNo: nat, counts: Counts, days: seq<Day>)

  datatype Total = Total(counts: Counts, lastSeq: nat)

  datatype Rows = Rows(total: Option<Total>, daily: map<string, Day>)

  datatype Error = InvalidSnapshot | Inconsistent | Regression

  predicate Below(a: Counts, b: Counts) { a.pv <= b.pv && a.uv <= b.uv }

  // ---------------------------------------------------------------- PersistWebProjectStats

  function InputError(s: Snapshot): Option<Error> {
    if s.project <= 0 || s.seqNo == 0 then Some(InvalidSnapshot)
    else if exists i | 0 <= i < |s.days| :: s.days[i].project != s.project || s.days[i].snapshotSeq > s.seqNo then Some(Inconsistent)
    else None
  }

  predicate DayRegresses(daily: map<string, Day>, day: Day) {
    day.date in daily && !Below(daily[day.date].counts, day.counts)
  }

  predicate AnyRegression(daily: map<string, Day>, days: seq<Day>) {
    exists i | 0 <= i < |days| :: DayRegresses(daily, days[i])
  }

  /** INSERT ... ON DUPLICATE KEY UPDATE, row by row. */
  function Upserted(daily: map<string, Day>, days: seq<Day>): map<string, Day> {
    if days == [] then daily else Upserted(daily, days[..|days| - 1])[days[|days| - 1].date := days[|days| - 1]]
  }

  /** A first snapshot seeds the total row with its own counts under sequence 0. */
  function StoredTotal(rows: Rows, s: Snapshot): Total {
    if rows.total.Some? then rows.total.value else Total(s.counts, 0)
  }

  function Persist(rows: Rows, s: Snapshot): (Rows, Result<bool, Error>) {
    var stored := StoredTotal(rows, s);
    if InputError(s).Some? then (rows, Err(InputError(s).value))
    else if stored.lastSeq >= s.seqNo then (rows.(total := Some(stored)), Ok(false))
    else if !Below(stored.counts, s.counts) || AnyRegression(rows.daily, s.days) then (rows, Err(Regression))
    else (Rows(Some(Total(s.counts, s.seqNo)), Upserted(rows.daily, s.days)), Ok(true))
  }

  class StatTables {
    var total: Option<Total>
    var daily: map<string, Day>

    ghost function Contents(): Rows
      reads this
    {
      Rows(total, daily)
    }

    method CheckSnapshot(s: Snapshot) returns (error: Option<Error>)
      ensures error == InputError(s)
    {
      if s.project <= 0 || s.seqNo == 0 { return Some(InvalidSnapshot); }
      for i := 0 to |s.days|
        invariant forall j | 0 <= j < i :: s.days[j].project == s.project && s.days[j].snapshotSeq <= s.seqNo
      {
        if s.days[i].project != s.project || s.days[i].snapshotSeq > s.seqNo { return Some(Inconsistent); }
      }
      return None;
    }

    method UpsertDays(days: seq<Day>)
      modifies `daily
      ensures daily == Upserted(old(daily), days)
    {
      for i := 0 to |days|
        invariant daily == Upserted(old(daily), days[..i])
      {
        ghost var upto := days[..i + 1];
        assert upto[..|upto| - 1] == days[..i] && upto[|upto| - 1] == days[i];
        daily := daily[days[i].date := days[i]];
      }
      assert days[..|days|] == days;
    }

    method PersistWebProjectStats(s: Snapshot) returns (r: Result<bool, Error>)
      modifies this
      ensures (Contents(), r) == Persist(old(Contents()), s)
    {
      var error := CheckSnapshot(s);
      if error.Some? { return Err(error.value); }
      var before := total;
      if total.None? { total := Some(Total(s.counts, 0)); }
      var stored := total.value;
      if stored.lastSeq >= s.seqNo { return Ok(false); }
      if s.counts.pv < stored.counts.pv || s.counts.uv < stored.counts.uv { total := before; return Err(Regression); }
      for i := 0 to |s.days|
        invariant total == Some(stored) && daily == old(daily)
        invariant forall j | 0 <= j < i :: !DayRegresses(daily, s.days[j])
      {
        if DayRegresses(daily, s.days[i]) { total := before; return Err(Regression); }
      }
      UpsertDays(s.days);
      total := Some(Total(s.counts, s.seqNo));
      return Ok(true);
    }
  }

  // ---------------------------------------------------------------- any input

  lemma {:induction false} UpsertedRows(daily: map<string, Day>, days: seq<Day>)
    ensures forall date | date in daily :: date in Upserted(daily, days)
    ensures forall date | date in Upserted(daily, days) ::
      (date in daily && Upserted(daily, days)[date] == daily[date]) || exists i :: IsDay(days, i, date) && Upserted(daily, days)[date] == days[i]
    ensures forall i, date | IsDay(days, i, date) ::
      date in Upserted(daily, days) && exists j :: IsDay(days, j, date) && Upserted(daily, days)[date] == days[j]
  {
    if days != [] {
      var front := days[..|days| - 1];
      UpsertedRows(daily, front);
      forall i, date | IsDay(front, i, date) ensures IsDay(days, i, date) { }
      assert IsDay(days, |days| - 1, days[|days| - 1].date);
      forall i, date | IsDay(days, i, date) && i < |front| ensures IsDay(front, i, date) { }
    }
  }

  predicate IsDay(days: seq<Day>, i: int, date: string) { 0 <= i < |days| && days[i].date == date }

  /** Whatever is delivered, the stored sequence and counts never decrease, no day row disappears, and the
      answer says whether the stored sequence moved. */
  lemma CountsNeverDecrease(rows: Rows, s: Snapshot)
    requires rows.total.Some?
    ensures var (after, r) := Persist(rows, s);
      && after.total.Some? && after.total.value.lastSeq >= rows.total.value.lastSeq && Below(rows.total.value.counts, after.total.value.counts)
      && (r == Ok(true) <==> after.total.value.lastSeq > rows.total.value.lastSeq)
      && (r != Ok(true) ==> after == rows)
      && forall date | date in rows.daily :: date in after.daily && Below(rows.daily[date].counts, after.daily[date].counts)
  {
    UpsertedRows(rows.daily, s.days);
    var (after, r) := Persist(rows, s);
    forall date | date in rows.daily ensures date in after.daily && Below(rows.daily[date].counts, after.daily[date].counts) {
      if r == Ok(true) && after.daily[date] != rows.daily[date] {
        var i :| IsDay(s.days, i, date) && after.daily[date] == s.days[i];
        assert !DayRegresses(rows.daily, s.days[i]);
      }
    }
  }

  predicate SoundSnapshot(s: Snapshot) {
    s.project > 0 && s.seqNo > 0 && forall i | 0 <= i < |s.days| :: s.days[i].project == s.project && s.days[i].snapshotSeq <= s.seqNo
  }

  /** A snapshot is applied exactly when it is sound, newer than the last one applied and counts nothing less than the stored
      rows; it is skipped exactly when it is sound and not newer. Applied, it becomes the total row and replaces the rows of its
      own days; refused, it changes nothing. */
  lemma PersistDecides(rows: Rows, s: Snapshot)
    ensures var (after, r) := Persist(rows, s);
      && (r == Ok(true) <==>
            && SoundSnapshot(s)
            && (rows.total.Some? ==>
                  && rows.total.value.lastSeq < s.seqNo
                  && rows.total.value.counts.pv <= s.counts.pv && rows.total.value.counts.uv <= s.counts.uv)
            && forall i | 0 <= i < |s.days| && s.days[i].date in rows.daily ::
                 var was := rows.daily[s.days[i].date].counts; was.pv <= s.days[i].counts.pv && was.uv <= s.days[i].counts.uv)
      && (r == Ok(false) <==> SoundSnapshot(s) && rows.total.Some? && rows.total.value.lastSeq >= s.seqNo)
      && (r.Err? ==> after == rows)
      && (r == Ok(true) ==>
            && after.total == Some(Total(s.counts, s.seqNo))
            && (forall date :: date in after.daily <==> date in rows.daily || exists i :: IsDay(s.days, i, date))
            && (forall i, date | IsDay(s.days, i, date) :: exists j :: IsDay(s.days, j, date) && after.daily[date] == s.days[j])
            && forall date | date in rows.daily && !(exists i :: IsDay(s.days, i, date)) :: after.daily[date] == rows.daily[date])
  {
    UpsertedRows(rows.daily, s.days);
    assert AnyRegression(rows.daily, s.days) <==> exists i :: 0 <= i < |s.days| && DayRegresses(rows.daily, s.days[i]);
    hide Upserted;
  }

  // ---------------------------------------------------------------- counters that only grow, in any order

  /** Two snapshots of one project: the later one counts at least as much, in total and on every common day;
      one sequence number stands for one snapshot. */
  ghost predicate Ordered(a: Snapshot, b: Snapshot) {
    && (a.seqNo == b.seqNo ==> a == b)
    && (a.seqNo <= b.seqNo ==> Below(a.counts, b.counts) && DaysBelow(a.days, b.days))
  }

  predicate DaysBelow(a: seq<Day>, b: seq<Day>) {
    forall i, j | 0 <= i < |a| && 0 <= j < |b| && a[i].date == b[j].date :: Below(a[i].counts, b[j].counts)
  }

  ghost predicate Growing(deliveries: seq<Snapshot>) {
    && (forall i | 0 <= i < |deliveries| :: InputError(deliveries[i]).None?)
    && forall i, j | 0 <= i < |deliveries| && 0 <= j < |deliveries| :: Ordered(deliveries[i], deliveries[j])
  }

  function Deliver(deliveries: seq<Snapshot>): Rows {
    if deliveries == [] then Rows(None, map[]) else Persist(Deliver(deliveries[..|deliveries| - 1]), deliveries[|deliveries| - 1]).0
  }

  function AnswerTo(deliveries: seq<Snapshot>, n: nat): Result<bool, Error>
    requires n < |deliveries|
  {
    Persist(Deliver(deliveries[..n]), deliveries[n]).1
  }

  predicate IsLatest(deliveries: seq<Snapshot>, k: int) {
    0 <= k < |deliveries| && forall i | 0 <= i < |deliveries| :: deliveries[i].seqNo <= deliveries[k].seqNo
  }

  predicate CameFrom(deliveries: seq<Snapshot>, row: Day, upTo: nat, i: int, j: int) {
    0 <= i < |deliveries| && deliveries[i].seqNo <= upTo && 0 <= j < |deliveries[i].days| && deliveries[i].days[j] == row
  }

  /** The total row is the latest snapshot delivered; each day row comes from a delivered snapshot not after it. */
  ghost predicate StatInv(deliveries: seq<Snapshot>, rows: Rows) {
    if deliveries == [] then rows == Rows(None, map[])
    else
      && rows.total.Some?
      && (exists k :: IsLatest(deliveries, k) && rows.total.value == Total(deliveries[k].counts, deliveries[k].seqNo))
      && forall date | date in rows.daily ::
           rows.daily[date].date == date && exists i, j :: CameFrom(deliveries, rows.daily[date], rows.total.value.lastSeq, i, j)
  }

  lemma NothingRegresses(front: seq<Snapshot>, s: Snapshot, rows: Rows)
    requires Growing(front + [s]) && StatInv(front, rows)
    ensures Persist(rows, s).1.Ok?
    ensures StatInv(front + [s], Persist(rows, s).0)
  {
    var all := front + [s];
    var n := |front|;
    assert all[n] == s;
    if front == [] {
      assert IsLatest(all, 0);
      NewDaysComeFrom(front, s, rows);
    } else {
      var k :| IsLatest(front, k) && rows.total.value == Total(front[k].counts, front[k].seqNo);
      assert all[k] == front[k] && Ordered(all[k], all[n]) && Ordered(all[n], all[k]);
      if rows.total.value.lastSeq >= s.seqNo {
        hide Growing;
        assert IsLatest(all, k);
        KeptDaysComeFrom(front, s, rows);
      } else {
        NewDaysDoNotRegress(front, s, rows);
        hide Growing, AnyRegression;
        assert IsLatest(all, n);
        NewDaysComeFrom(front, s, rows);
      }
    }
  }

  lemma NewDaysDoNotRegress(front: seq<Snapshot>, s: Snapshot, rows: Rows)
    requires Growing(front + [s]) && StatInv(front, rows) && front != [] && rows.total.value.lastSeq < s.seqNo
    ensures !AnyRegression(rows.daily, s.days)
  {
    forall d | 0 <= d < |s.days| ensures !DayRegresses(rows.daily, s.days[d]) {
      if s.days[d].date in rows.daily {
        var i, j :| CameFrom(front, rows.daily[s.days[d].date], rows.total.value.lastSeq, i, j);
        assert Ordered((front + [s])[i], (front + [s])[|front|]);
        assert DaysBelow(front[i].days, s.days);
      }
    }
  }

  lemma KeptDaysComeFrom(front: seq<Snapshot>, s: Snapshot, rows: Rows)
    requires StatInv(front, rows) && front != []
    ensures forall date | date in rows.daily :: exists i, j :: CameFrom(front + [s], rows.daily[date], rows.total.value.lastSeq, i, j)
  {
    forall date | date in rows.daily ensures exists i, j :: CameFrom(front + [s], rows.daily[date], rows.total.value.lastSeq, i, j) {
      var i, j :| CameFrom(front, rows.daily[date], rows.total.value.lastSeq, i, j);
      assert CameFrom(front + [s], rows.daily[date], rows.total.value.lastSeq, i, j);
    }
  }

  lemma NewDaysComeFrom(front: seq<Snapshot>, s: Snapshot, rows: Rows)
    requires StatInv(front, rows) && (front == [] || rows.total.value.lastSeq <= s.seqNo)
    ensures forall date | date in Upserted(rows.daily, s.days) :: Upserted(rows.daily, s.days)[date].date == date
    ensures forall date | date in Upserted(rows.daily, s.days) ::
      exists i, j :: CameFrom(front + [s], Upserted(rows.daily, s.days)[date], s.seqNo, i, j)
  {
    UpsertedRows(rows.daily, s.days);
    var daily := Upserted(rows.daily, s.days);
    forall date | date in daily ensures daily[date].date == date && exists i, j :: CameFrom(front + [s], daily[date], s.seqNo, i, j) {
      if date in rows.daily && daily[date] == rows.daily[date] {
        var i, j :| CameFrom(front, rows.daily[date], rows.total.value.lastSeq, i, j);
        assert CameFrom(front + [s], daily[date], s.seqNo, i, j);
      } else {
        var j :| IsDay(s.days, j, date) && daily[date] == s.days[j];
        assert CameFrom(front + [s], daily[date], s.seqNo, |front|, j);
      }
    }
  }

  lemma {:induction false} DeliveriesKeepInv(deliveries: seq<Snapshot>)
    requires Growing(deliveries)
    ensures StatInv(deliveries, Deliver(deliveries))
    ensures deliveries != [] ==> AnswerTo(deliveries, |deliveries| - 1).Ok?
  {
    if deliveries != [] {
      var front, s := deliveries[..|deliveries| - 1], deliveries[|deliveries| - 1];
      assert deliveries == front + [s];
      assert forall i | 0 <= i < |front| :: front[i] == deliveries[i];
      DeliveriesKeepInv(front);
      NothingRegresses(front, s, Deliver(front));
    }
  }

  /** In any order and with any repeats no delivery fails. */
  lemma NoDeliveryFails(deliveries: seq<Snapshot>, n: nat)
    requires Growing(deliveries) && n < |deliveries|
    ensures AnswerTo(deliveries, n).Ok?
  {
    var upTo := deliveries[..n + 1];
    assert forall i | 0 <= i < |upTo| :: upTo[i] == deliveries[i];
    DeliveriesKeepInv(upTo);
    assert upTo[..n] == deliveries[..n];
  }

  /** The total row ends as the highest-sequence snapshot delivered, whatever the order. */
  lemma TotalIsTheLatest(deliveries: seq<Snapshot>, k: nat)
    requires Growing(deliveries) && IsLatest(deliveries, k)
    ensures Deliver(deliveries).total == Some(Total(deliveries[k].counts, deliveries[k].seqNo))
  {
    DeliveriesKeepInv(deliveries);
    var j :| IsLatest(deliveries, j) && Deliver(deliveries).total.value == Total(deliveries[j].counts, deliveries[j].seqNo);
    assert Ordered(deliveries[j], deliveries[k]);
  }

  /** A sequence is applied at most once: an applied delivery comes after everything delivered before it. */
  lemma AppliedOnce(deliveries: seq<Snapshot>, m: nat, n: nat)
    requires Growing(deliveries) && m < n < |deliveries| && AnswerTo(deliveries, n) == Ok(true)
    ensures deliveries[m].seqNo < deliveries[n].seqNo
  {
    var upTo := deliveries[..n];
    assert forall i | 0 <= i < |upTo| :: upTo[i] == deliveries[i];
    DeliveriesKeepInv(upTo);
    var k :| IsLatest(upTo, k) && Deliver(upTo).total.value == Total(upTo[k].counts, upTo[k].seqNo);
    assert upTo[m].seqNo <= upTo[k].seqNo;
  }

  /** Unlike the total row, a day row can be lost to reordering: a late snapshot is skipped with its days. */
  lemma LateDaysAreLost()
    ensures exists a: Snapshot, b: Snapshot :: Growing([a, b]) && Deliver([a, b]).daily != Deliver([b, a]).daily
  {
    var a := Snapshot(1, 1, Counts(1, 1), [Day(1, "d1", Counts(1, 1), 1)]);
    var b := Snapshot(1, 2, Counts(2, 1), [Day(1, "d2", Counts(1, 1), 2)]);
    assert Growing([a, b]);
    LateDays(a, b);
  }

  lemma UpsertOne(daily: map<string, Day>, day: Day)
    ensures Upserted(daily, [day]) == daily[day.date := day]
  {
    assert [day][..0] == [];
  }

  lemma LateDays(a: Snapshot, b: Snapshot)
    requires a == Snapshot(1, 1, Counts(1, 1), [Day(1, "d1", Counts(1, 1), 1)])
    requires b == Snapshot(1, 2, Counts(2, 1), [Day(1, "d2", Counts(1, 1), 2)])
    ensures "d1" in Deliver([a, b]).daily && "d1" !in Deliver([b, a]).daily
  {
    DeliverTwo(a, b);
    DeliverTwo(b, a);
    UpsertOne(map[], a.days[0]);
    UpsertOne(map[], b.days[0]);
    UpsertedRows(Deliver([a]).daily, b.days);
  }

  lemma DeliverTwo(a: Snapshot, b: Snapshot)
    ensures Deliver([a]) == Persist(Rows(None, map[]), a).0 && Deliver([a, b]) == Persist(Deliver([a]), b).0
  {
    hide Persist;
    assert [a][..0] == [] && [a, b][..1] == [a];
  }

  lemma {:induction false} UpsertedOver(daily: map<string, Day>, days: seq<Day>, date: string)
    requires date in Upserted(map[], days)
    ensures date in Upserted(daily, days) && Upserted(daily, days)[date] == Upserted(map[], days)[date]
  {
    if days != [] && days[|days| - 1].date != date { UpsertedOver(daily, days[..|days| - 1], date); }
  }

  /** The day rows of the latest snapshot stand as it carried them. */
  lemma {:induction false} LatestDaysStand(deliveries: seq<Snapshot>, k: nat, date: string)
    requires Growing(deliveries) && IsLatest(deliveries, k) && date in Upserted(map[], deliveries[k].days)
    ensures date in Deliver(deliveries).daily && Deliver(deliveries).daily[date] == Upserted(map[], deliveries[k].days)[date]
  {
    var front, s := deliveries[..|deliveries| - 1], deliveries[|deliveries| - 1];
    assert deliveries == front + [s];
    GrowingFront(front, s);
    DeliveriesKeepInv(front);
    var rows := Deliver(front);
    LastDelivery(front, s);
    if front == [] || rows.total.value.lastSeq < s.seqNo {
      if front != [] { SameAsLatest(front, k, s, rows); }
      hide Growing, StatInv, Deliver;
      UpsertedOver(rows.daily, s.days, date);
    } else {
      var j :| IsLatest(front, j) && rows.total.value == Total(front[j].counts, front[j].seqNo);
      SameSnapshot(front, s, j, k);
      LatestDaysStand(front, j, date);
    }
  }

  lemma GrowingFront(front: seq<Snapshot>, s: Snapshot)
    requires Growing(front + [s])
    ensures Growing(front)
  {
    assert forall i | 0 <= i < |front| :: front[i] == (front + [s])[i];
  }

  /** A delivery is applied when it is newer than what is stored, and skipped otherwise. */
  lemma LastDelivery(front: seq<Snapshot>, s: Snapshot)
    requires Growing(front + [s])
    ensures front != [] ==> Deliver(front).total.Some?
    ensures Deliver(front + [s]).daily ==
      if front == [] || Deliver(front).total.value.lastSeq < s.seqNo then Upserted(Deliver(front).daily, s.days) else Deliver(front).daily
  {
    hide Growing, AnyRegression, Upserted, IsLatest, CameFrom, Below;
    assert (front + [s])[..|front|] == front && (front + [s])[|front|] == s;
    GrowingFront(front, s);
    DeliveriesKeepInv(front);
    NothingRegresses(front, s, Deliver(front));
  }

  lemma SameSnapshot(front: seq<Snapshot>, s: Snapshot, j: nat, k: nat)
    requires Growing(front + [s]) && IsLatest(front, j) && IsLatest(front + [s], k) && s.seqNo <= front[j].seqNo
    ensures front[j] == (front + [s])[k]
  {
    var all := front + [s];
    assert all[j] == front[j] && all[|front|] == s && Ordered(all[j], all[k]);
    if k < |front| { assert all[k] == front[k]; }
  }

  lemma SameAsLatest(front: seq<Snapshot>, k: nat, s: Snapshot, rows: Rows)
    requires Growing(front + [s]) && StatInv(front, rows) && front != [] && rows.total.value.lastSeq < s.seqNo && IsLatest(front + [s], k)
    ensures (front + [s])[k] == s
  {
    var j :| IsLatest(front, j) && rows.total.value == Total(front[j].counts, front[j].seqNo);
    assert (front + [s])[|front|] == s;
    assert forall i | 0 <= i < |front| :: front[i].seqNo <= front[j].seqNo;
  }

  /** When the latest snapshot carries every day of the others, the day rows end as its own, whatever the order. */
  lemma CumulativeDaysAreTheLatest(deliveries: seq<Snapshot>, k: nat)
    requires Growing(deliveries) && IsLatest(deliveries, k)
    requires LatestCarriesAll(deliveries, k)
    ensures Deliver(deliveries).daily == Upserted(map[], deliveries[k].days)
  {
    DeliveriesKeepInv(deliveries);
    var rows, latest := Deliver(deliveries), Upserted(map[], deliveries[k].days);
    forall date | date in latest ensures date in rows.daily && rows.daily[date] == latest[date] { LatestDaysStand(deliveries, k, date); }
    forall date | date in rows.daily ensures date in latest {
      var i, j :| CameFrom(deliveries, rows.daily[date], rows.total.value.lastSeq, i, j);
      assert IsDay(deliveries[i].days, j, date);
    }
  }

  // ---------------------------------------------------------------- exactly when the order of delivery matters

  /** The latest snapshot carries every date that any of them carries. */
  ghost predicate LatestCarriesAll(deliveries: seq<Snapshot>, k: nat)
    requires k < |deliveries|
  {
    forall i, d, date | 0 <= i < |deliveries| && IsDay(deliveries[i].days, d, date) :: date in Upserted(map[], deliveries[k].days)
  }

  ghost predicate Reordering(a: seq<Snapshot>, b: seq<Snapshot>) { multiset(a) == multiset(b) }

  lemma ReorderedElements(a: seq<Snapshot>, b: seq<Snapshot>, j: nat) returns (i: nat)
    requires Reordering(a, b) && j < |b|
    ensures i < |a| && a[i] == b[j]
  {
    assert b[j] in multiset(b);
    assert b[j] in a;
    i :| 0 <= i < |a| && a[i] == b[j];
  }

  lemma GrowingReordered(a: seq<Snapshot>, b: seq<Snapshot>)
    requires Growing(a) && Reordering(a, b)
    ensures Growing(b)
  {
    forall j | 0 <= j < |b| ensures InputError(b[j]).None? { var i := ReorderedElements(a, b, j); }
    forall j, l | 0 <= j < |b| && 0 <= l < |b| ensures Ordered(b[j], b[l]) {
      var i := ReorderedElements(a, b, j);
      var m := ReorderedElements(a, b, l);
      assert Ordered(a[i], a[m]);
    }
  }

  /** The i-th delivery made first. */
  function MovedFirst(xs: seq<Snapshot>, i: nat): seq<Snapshot>
    requires i < |xs|
  {
    [xs[i]] + xs[..i] + xs[i + 1..]
  }

  lemma MovedFirstIsReordering(xs: seq<Snapshot>, i: nat)
    requires i < |xs|
    ensures Reordering(xs, MovedFirst(xs, i))
  {
    assert xs == xs[..i] + [xs[i]] + xs[i + 1..];
  }

  /** The days of the first delivery are stored and never disappear. */
  lemma {:induction false} FirstDaysStay(deliveries: seq<Snapshot>, date: string)
    requires deliveries != [] && Growing(deliveries) && date in Upserted(map[], deliveries[0].days)
    ensures date in Deliver(deliveries).daily && Deliver(deliveries).total.Some?
  {
    var front, s := deliveries[..|deliveries| - 1], deliveries[|deliveries| - 1];
    assert deliveries == front + [s];
    GrowingFront(front, s);
    LastDelivery(front, s);
    DeliveriesKeepInv(deliveries);
    if front != [] {
      FirstDaysStay(front, date);
      CountsNeverDecrease(Deliver(front), s);
    }
  }

  /** When the latest snapshot is delivered first, everything after it is skipped. */
  lemma {:induction false} NothingAfterLatest(deliveries: seq<Snapshot>)
    requires Growing(deliveries) && IsLatest(deliveries, 0)
    ensures Deliver(deliveries).daily == Upserted(map[], deliveries[0].days)
  {
    var front, s := deliveries[..|deliveries| - 1], deliveries[|deliveries| - 1];
    assert deliveries == front + [s];
    GrowingFront(front, s);
    LastDelivery(front, s);
    if front != [] {
      NothingAfterLatest(front);
      TotalIsTheLatest(front, 0);
    }
  }

  lemma DaysAreKeys(s: Snapshot, d: int, date: string)
    requires IsDay(s.days, d, date)
    ensures date in Upserted(map[], s.days)
  {
    UpsertedRows(map[], s.days);
  }

  /** A day the latest snapshot lacks is kept when its own snapshot comes first, and lost when the latest does. */
  lemma LackingDayMatters(deliveries: seq<Snapshot>, k: nat, i: nat, d: int, date: string)
    requires Growing(deliveries) && IsLatest(deliveries, k) && i < |deliveries|
    requires IsDay(deliveries[i].days, d, date) && date !in Upserted(map[], deliveries[k].days)
    ensures Deliver(MovedFirst(deliveries, i)).daily != Deliver(MovedFirst(deliveries, k)).daily
  {
    var early, late := MovedFirst(deliveries, i), MovedFirst(deliveries, k);
    MovedFirstIsReordering(deliveries, i);
    MovedFirstIsReordering(deliveries, k);
    GrowingReordered(deliveries, early);
    GrowingReordered(deliveries, late);
    DaysAreKeys(deliveries[i], d, date);
    FirstDaysStay(early, date);
    forall j | 0 <= j < |late| ensures late[j].seqNo <= late[0].seqNo { var m := ReorderedElements(deliveries, late, j); }
    NothingAfterLatest(late);
  }

  /** Delivered in any other order the days are the same, when the latest snapshot carries them all. */
  lemma CarriedDaysIgnoreOrder(deliveries: seq<Snapshot>, k: nat, other: seq<Snapshot>)
    requires Growing(deliveries) && IsLatest(deliveries, k) && LatestCarriesAll(deliveries, k) && Reordering(deliveries, other)
    ensures Deliver(other).daily == Deliver(deliveries).daily
  {
    GrowingReordered(deliveries, other);
    assert deliveries[k] in multiset(deliveries);
    assert deliveries[k] in other;
    var l :| 0 <= l < |other| && other[l] == deliveries[k];
    forall j | 0 <= j < |other| ensures other[j].seqNo <= other[l].seqNo { var m := ReorderedElements(deliveries, other, j); }
    forall j, d, date | 0 <= j < |other| && IsDay(other[j].days, d, date) ensures date in Upserted(map[], other[l].days) {
      var m := ReorderedElements(deliveries, other, j);
    }
    CumulativeDaysAreTheLatest(deliveries, k);
    CumulativeDaysAreTheLatest(other, l);
  }

  /** The day rows are independent of the order of delivery if and only if the latest snapshot carries every date of
      the others. */
  lemma OrderMattersExactly(deliveries: seq<Snapshot>, k: nat)
    requires Growing(deliveries) && IsLatest(deliveries, k)
    ensures LatestCarriesAll(deliveries, k) <==>
      forall other | Reordering(deliveries, other) :: Deliver(other).daily == Deliver(deliveries).daily
  {
    if LatestCarriesAll(deliveries, k) {
      forall other | Reordering(deliveries, other) ensures Deliver(other).daily == Deliver(deliveries).daily {
        CarriedDaysIgnoreOrder(deliveries, k, other);
      }
    } else {
      var i, d, date :| 0 <= i < |deliveries| && IsDay(deliveries[i].days, d, date) && date !in Upserted(map[], deliveries[k].days);
      LackingDayMatters(deliveries, k, i, d, date);
      MovedFirstIsReordering(deliveries, i);
      MovedFirstIsReordering(deliveries, k);
    }
  }
}
