/** The teacher's attendance session (src/app/teacher/page.tsx): the class roster,
    the Present/Late/Absent override, the simulated RFID arrival, and the
    summary and live-arrivals views derived from the roster. */
module Attendance {
  import opened Wrappers
  import Keyed

  datatype Status = Present | Late | Absent

  /** A moment as the page reads it from a `Date`: milliseconds since the epoch
      (`getTime()`) and the minute of the local hour (`getMinutes()`). */
  datatype Instant = Instant(millis: int, minuteOfHour: int)

  datatype Student = Student(
    id: int,
    name: string,
    rollNumber: string,
    rfidTag: string,
    status: Status,
    checkIn: Option<Instant>)

  /** Status and check-in time agree: a student is absent exactly when there is no check-in time. */
  predicate InStep(s: Student)
  {
    s.status == Absent <==> s.checkIn.None?
  }

  predicate RosterInStep(roster: seq<Student>)
  {
    forall i :: 0 <= i < |roster| ==> InStep(roster[i])
  }

  predicate UniqueIds(roster: seq<Student>)
  {
    forall i, j :: 0 <= i < j < |roster| ==> roster[i].id != roster[j].id
  }

  /** The fields an attendance change never touches. */
  predicate SameStudent(a: Student, b: Student)
  {
    a.id == b.id && a.name == b.name && a.rollNumber == b.rollNumber && a.rfidTag == b.rfidTag
  }

  /** `new Date('2024-01-15Thh:mm:00')`, where `midnight` is the epoch time of local
      midnight that day (it depends on the time zone the page runs in). */
  function At(midnight: int, hour: int, minute: int): Instant
  {
    Instant(midnight + (hour * 60 + minute) * 60000, minute)
  }

  /** The roster the page starts from. */
  function InitialRoster(midnight: int): (r: seq<Student>)
    ensures |r| == 4 && UniqueIds(r) && RosterInStep(r)
  {
    [ Student(1, "Alice Johnson", "CS2021001", "RFID001234", Present, Some(At(midnight, 11, 5))),
      Student(2, "Bob Smith", "CS2021002", "RFID001235", Late, Some(At(midnight, 11, 15))),
      Student(3, "Carol Davis", "CS2021003", "RFID001236", Absent, None),
      Student(4, "David Wilson", "CS2021004", "RFID001237", Present, Some(At(midnight, 11, 2))) ]
  }

  // ---------------------------------------------------------------------------
  // Manual override
  // ---------------------------------------------------------------------------

  function Overridden(s: Student, status: Status, now: Instant): Student
  {
    s.(status := status, checkIn := if status == Absent then None else Some(now))
  }

  /** `handleMarkStatus`: every record with the id takes the chosen status; absent
      clears the check-in time, present and late stamp it with `now`. */
  function MarkStatus(roster: seq<Student>, id: int, status: Status, now: Instant): (r: seq<Student>)
    ensures |r| == |roster|
    ensures forall i :: 0 <= i < |roster| && roster[i].id != id ==> r[i] == roster[i]
    ensures forall i :: 0 <= i < |roster| && roster[i].id == id ==>
              && SameStudent(r[i], roster[i])
              && r[i].status == status
              && (status == Absent ==> r[i].checkIn == None)
              && (status != Absent ==> r[i].checkIn == Some(now))
  {
    Keyed.Update(roster, (s: Student) => s.id, id, (s: Student) => Overridden(s, status, now))
  }

  /** An override never breaks the agreement between status and check-in time. */
  lemma MarkStatusKeepsInStep(roster: seq<Student>, id: int, status: Status, now: Instant)
    requires RosterInStep(roster)
    ensures RosterInStep(MarkStatus(roster, id, status, now))
  {
  }

  /** Marking an id that is not on the roster changes nothing. */
  lemma MarkUnknownIdIsNoop(roster: seq<Student>, id: int, status: Status, now: Instant)
    requires forall i :: 0 <= i < |roster| ==> roster[i].id != id
    ensures MarkStatus(roster, id, status, now) == roster
  {
  }

  // ---------------------------------------------------------------------------
  // Simulated RFID arrival
  // ---------------------------------------------------------------------------

  /** The page's lateness rule: an arrival after minute 5 of the hour is late. */
  function ArrivalStatus(now: Instant): (st: Status)
    ensures st != Absent
    ensures st == Late <==> now.minuteOfHour > 5
  {
    if now.minuteOfHour > 5 then Late else Present
  }

  /** `after` is `before` checked in by the reader at `now`. */
  predicate ArrivedFrom(before: Student, after: Student, now: Instant)
  {
    SameStudent(after, before) && after.status == ArrivalStatus(now) && after.checkIn == Some(now)
  }

  /** The arrival update: every record with the id is checked in at `now`. */
  function Arrive(roster: seq<Student>, id: int, now: Instant): (r: seq<Student>)
    ensures |r| == |roster|
    ensures forall i :: 0 <= i < |roster| && roster[i].id != id ==> r[i] == roster[i]
    ensures forall i :: 0 <= i < |roster| && roster[i].id == id ==> ArrivedFrom(roster[i], r[i], now)
  {
    Keyed.Update(roster, (s: Student) => s.id, id,
                 (s: Student) => s.(status := ArrivalStatus(now), checkIn := Some(now)))
  }

  /** `students.filter(s => s.status === 'absent')`. */
  function Absentees(roster: seq<Student>): (r: seq<Student>)
    ensures forall i :: 0 <= i < |r| ==> r[i].status == Absent && r[i] in roster
    ensures forall i :: 0 <= i < |roster| && roster[i].status == Absent ==> roster[i] in r
  {
    Keyed.Keep(roster, (s: Student) => s.status == Absent)
  }

  /** One tick of the simulated reader. `fires` stands for `Math.random() > 0.7` and
      `pick` for `Math.floor(Math.random() * absentStudents.length)`. With nobody
      absent, or when the coin does not fire, nothing changes; otherwise the picked
      absentee's id is checked in. */
  function Tick(roster: seq<Student>, fires: bool, pick: nat, now: Instant): (r: seq<Student>)
    requires fires && |Absentees(roster)| > 0 ==> pick < |Absentees(roster)|
    ensures |r| == |roster|
    ensures !fires || |Absentees(roster)| == 0 ==> r == roster
    ensures fires && |Absentees(roster)| > 0 ==>
              var id := Absentees(roster)[pick].id;
              forall i :: 0 <= i < |roster| ==>
                if roster[i].id == id then ArrivedFrom(roster[i], r[i], now) else r[i] == roster[i]
    ensures forall i :: 0 <= i < |roster| && r[i] != roster[i] ==> ArrivedFrom(roster[i], r[i], now)
    ensures forall i :: 0 <= i < |roster| && r[i] != roster[i] ==>
              exists j :: 0 <= j < |roster| && roster[j].id == roster[i].id && roster[j].status == Absent
    ensures forall i, j :: 0 <= i < |roster| && 0 <= j < |roster| && r[i] != roster[i] && r[j] != roster[j] ==>
              roster[i].id == roster[j].id
  {
    var absent := Absentees(roster);
    if fires && |absent| > 0 then
      var target := absent[pick];
      assert target in roster;
      Arrive(roster, target.id, now)
    else
      roster
  }

  /** On a roster with distinct ids a tick checks in at most one student, and only one
      who was absent. */
  lemma TickChecksInOneAbsentee(roster: seq<Student>, fires: bool, pick: nat, now: Instant)
    requires UniqueIds(roster)
    requires fires && |Absentees(roster)| > 0 ==> pick < |Absentees(roster)|
    ensures var r := Tick(roster, fires, pick, now);
            forall i :: 0 <= i < |roster| && r[i] != roster[i] ==> roster[i].status == Absent
    ensures var r := Tick(roster, fires, pick, now);
            forall i, j :: 0 <= i < j < |roster| ==> r[i] == roster[i] || r[j] == roster[j]
  {
    var r := Tick(roster, fires, pick, now);
    forall i | 0 <= i < |roster| && r[i] != roster[i]
      ensures roster[i].status == Absent
    {
      var j :| 0 <= j < |roster| && roster[j].id == roster[i].id && roster[j].status == Absent;
      assert i == j;
    }
  }

  /** A tick never breaks the agreement between status and check-in time. */
  lemma TickKeepsInStep(roster: seq<Student>, fires: bool, pick: nat, now: Instant)
    requires RosterInStep(roster)
    requires fires && |Absentees(roster)| > 0 ==> pick < |Absentees(roster)|
    ensures RosterInStep(Tick(roster, fires, pick, now))
  {
    var r := Tick(roster, fires, pick, now);
    forall i | 0 <= i < |r|
      ensures InStep(r[i])
    {
      if r[i] != roster[i] {
        assert ArrivedFrom(roster[i], r[i], now);
      }
    }
  }

  // ---------------------------------------------------------------------------
  // Summary
  // ---------------------------------------------------------------------------

  function HasStatus(st: Status): Student -> bool
  {
    (s: Student) => s.status == st
  }

  /** `students.filter(s => s.status === st).length`. */
  function CountOf(roster: seq<Student>, st: Status): nat
  {
    |Keyed.Keep(roster, HasStatus(st))|
  }

  /** Every student is counted exactly once among present, late and absent. */
  lemma {:induction false} CountsPartitionRoster(roster: seq<Student>)
    ensures CountOf(roster, Present) + CountOf(roster, Late) + CountOf(roster, Absent) == |roster|
    decreases |roster|
  {
    if |roster| > 0 {
      CountsPartitionRoster(roster[1..]);
    }
  }

  /** Students who came, on time or late. */
  function Attended(roster: seq<Student>): (n: nat)
    ensures n <= |roster|
  {
    CountsPartitionRoster(roster);
    CountOf(roster, Present) + CountOf(roster, Late)
  }

  /** p is `Math.round(100 * a / n)`: 100a/n lies in [p - 1/2, p + 1/2), so halves round up. */
  predicate RoundsTo(p: int, a: int, n: int)
  {
    (2 * p - 1) * n <= 200 * a < (2 * p + 1) * n
  }

  /** `Math.round(100 * a / n)` in exact arithmetic. */
  function RoundedPercent(a: nat, n: nat): (r: int)
    requires n > 0
    ensures RoundsTo(r, a, n)
  {
    var q := (200 * a + n) / (2 * n);
    var m := (200 * a + n) % (2 * n);
    assert 200 * a + n == q * (2 * n) + m;
    assert (2 * q - 1) * n == q * (2 * n) - n;
    assert (2 * q + 1) * n == q * (2 * n) + n;
    q
  }

  /** A percentage rounded from a fraction no larger than one lies in 0 .. 100. */
  lemma RoundedPercentInRange(a: nat, n: nat, p: int)
    requires 0 < n && a <= n
    requires RoundsTo(p, a, n)
    ensures 0 <= p <= 100
  {
    assert (2 * p - 201) * n <= 0;
    SignOfFactor(2 * p - 201, n);
    assert (2 * p + 1) * n > 0;
    SignOfFactor(2 * p + 1, n);
  }

  /** With a positive factor n, the sign of x * n is the sign of x. */
  lemma SignOfFactor(x: int, n: int)
    requires n > 0
    ensures x * n <= 0 ==> x <= 0
    ensures x * n > 0 ==> x > 0
  {
    if x > 0 {
      assert x * n == (x - 1) * n + n;
    }
  }

  /** The attendance rate `Math.round(((present + late) / students.length) * 100)`.
      The page divides without a guard, so an empty roster shows NaN, modelled as None. */
  function AttendanceRate(roster: seq<Student>): (r: Option<int>)
    ensures r.None? <==> |roster| == 0
    ensures r.Some? ==> 0 <= r.value <= 100
    ensures r.Some? ==> RoundsTo(r.value, Attended(roster), |roster|)
  {
    if |roster| == 0 then None
    else
      var a := Attended(roster);
      var p := RoundedPercent(a, |roster|);
      RoundedPercentInRange(a, |roster|, p);
      Some(p)
  }

  /** The starting roster (two present, one late, one absent) shows a rate of 75%. */
  lemma InitialRosterRate(midnight: int)
    ensures CountOf(InitialRoster(midnight), Present) == 2
    ensures CountOf(InitialRoster(midnight), Late) == 1
    ensures AttendanceRate(InitialRoster(midnight)) == Some(75)
  {
    var r := InitialRoster(midnight);
    StatusCountsOfFour(r[0], r[1], r[2], r[3]);
    assert r == [r[0], r[1], r[2], r[3]];
    ThreeOfFourIsSeventyFive(r);
  }

  /** Counting a present, a late, an absent and a present student. */
  lemma StatusCountsOfFour(a: Student, b: Student, c: Student, d: Student)
    requires a.status == Present && b.status == Late && c.status == Absent && d.status == Present
    ensures CountOf([a, b, c, d], Present) == 2 && CountOf([a, b, c, d], Late) == 1
  {
    var r := [a, b, c, d];
    assert r[1..] == [b, c, d] && r[1..][1..] == [c, d] && r[1..][1..][1..] == [d];
    assert Keyed.Kept([d], HasStatus(Present)) == [d];
    assert Keyed.Kept([c, d], HasStatus(Present)) == [d];
    assert Keyed.Kept([b, c, d], HasStatus(Present)) == [d];
    assert Keyed.Kept(r, HasStatus(Present)) == [a, d];
    assert Keyed.Kept([d], HasStatus(Late)) == [];
    assert Keyed.Kept([c, d], HasStatus(Late)) == [];
    assert Keyed.Kept([b, c, d], HasStatus(Late)) == [b];
    assert Keyed.Kept(r, HasStatus(Late)) == [b];
  }

  /** Three attending out of four rounds to 75%. */
  lemma ThreeOfFourIsSeventyFive(roster: seq<Student>)
    requires |roster| == 4 && Attended(roster) == 3
    ensures AttendanceRate(roster) == Some(75)
  {
    var rate := AttendanceRate(roster);
    assert rate.Some? && RoundsTo(rate.value, 3, 4);
  }

  // ---------------------------------------------------------------------------
  // Live RFID arrivals
  // ---------------------------------------------------------------------------

  /** The sort key `checkInTime?.getTime() || 0`. */
  function Stamp(s: Student): int
  {
    match s.checkIn
    case Some(t) => t.millis
    case None => 0
  }

  predicate NewestFirst(xs: seq<Student>)
  {
    forall i, j :: 0 <= i < j < |xs| ==> Stamp(xs[j]) <= Stamp(xs[i])
  }

  /** Puts x before the first element that is not newer than it. */
  function InsertByStamp(x: Student, xs: seq<Student>): (r: seq<Student>)
    requires NewestFirst(xs)
    ensures |r| == |xs| + 1
    ensures r[0] == x || (|xs| > 0 && r[0] == xs[0])
    ensures NewestFirst(r)
    ensures multiset(r) == multiset(xs) + multiset{x}
  {
    if |xs| == 0 then [x]
    else if Stamp(xs[0]) <= Stamp(x) then ConsNewestFirst(x, xs); [x] + xs
    else
      assert NewestFirst(xs[1..]) by { assert forall k :: 0 <= k < |xs| - 1 ==> xs[1..][k] == xs[k + 1]; }
      var rest := InsertByStamp(x, xs[1..]);
      assert xs == [xs[0]] + xs[1..];
      assert Stamp(rest[0]) <= Stamp(xs[0]);
      ConsNewestFirst(xs[0], rest);
      [xs[0]] + rest
  }

  /** A student checked in no earlier than the head can go on top of a newest-first list. */
  lemma ConsNewestFirst(y: Student, ys: seq<Student>)
    requires NewestFirst(ys)
    requires |ys| > 0 ==> Stamp(ys[0]) <= Stamp(y)
    ensures NewestFirst([y] + ys)
  {
    var r := [y] + ys;
    assert forall k :: 1 <= k < |r| ==> r[k] == ys[k - 1];
  }

  /** The comparator `(a, b) => stamp(b) - stamp(a)`: newest check-in first. */
  function SortNewestFirst(xs: seq<Student>): (r: seq<Student>)
    ensures |r| == |xs|
    ensures NewestFirst(r)
    ensures multiset(r) == multiset(xs)
  {
    if |xs| == 0 then []
    else
      assert xs == [xs[0]] + xs[1..];
      InsertByStamp(xs[0], SortNewestFirst(xs[1..]))
  }

  /** Every element of the sorted list comes from the input. */
  lemma SortedFromInput(xs: seq<Student>, i: int)
    requires 0 <= i < |SortNewestFirst(xs)|
    ensures SortNewestFirst(xs)[i] in xs
  {
    var r := SortNewestFirst(xs);
    assert r[i] in multiset(r);
  }

  /** `students.filter(s => s.checkInTime)`. */
  function CheckedIn(roster: seq<Student>): (r: seq<Student>)
    ensures forall i :: 0 <= i < |r| ==> r[i].checkIn.Some? && r[i] in roster
    ensures forall i :: 0 <= i < |roster| && roster[i].checkIn.Some? ==> roster[i] in r
  {
    Keyed.Keep(roster, (s: Student) => s.checkIn.Some?)
  }

  const LiveArrivalsShown: nat := 10

  /** The "Live RFID Arrivals" card: checked-in students, newest first, at most ten. */
  function LiveArrivals(roster: seq<Student>): (r: seq<Student>)
    ensures |r| == if |CheckedIn(roster)| < LiveArrivalsShown then |CheckedIn(roster)| else LiveArrivalsShown
    ensures forall i :: 0 <= i < |r| ==> r[i].checkIn.Some? && r[i] in roster
    ensures NewestFirst(r)
    ensures multiset(r) <= multiset(CheckedIn(roster))
    ensures |CheckedIn(roster)| <= LiveArrivalsShown ==> multiset(r) == multiset(CheckedIn(roster))
  {
    var sorted := SortNewestFirst(CheckedIn(roster));
    var r := if |sorted| < LiveArrivalsShown then sorted else sorted[..LiveArrivalsShown];
    assert sorted == r + sorted[|r|..];
    assert multiset(sorted) == multiset(r) + multiset(sorted[|r|..]);
    forall i | 0 <= i < |r|
      ensures r[i].checkIn.Some? && r[i] in roster
    {
      SortedFromInput(CheckedIn(roster), i);
    }
    r
  }

  /** Whoever is checked in but left off the card checked in no later than anyone shown. */
  lemma LiveArrivalsAreTheNewest(roster: seq<Student>, s: Student)
    ensures s in roster && s.checkIn.Some? && s !in LiveArrivals(roster) ==>
              forall i :: 0 <= i < |LiveArrivals(roster)| ==> Stamp(s) <= Stamp(LiveArrivals(roster)[i])
  {
    if s in roster && s.checkIn.Some? && s !in LiveArrivals(roster) {
      var checked := CheckedIn(roster);
      var sorted := SortNewestFirst(checked);
      var r := LiveArrivals(roster);
      assert s in multiset(checked);
      assert s in multiset(sorted);
      var k :| 0 <= k < |sorted| && sorted[k] == s;
      assert r == sorted[..|r|];
      assert k >= |r|;
    }
  }
}
