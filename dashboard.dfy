/** The dashboard: four figures and the list of students whose parents are to be called. */
module DashboardView {
  import opened Types
  import opened Seqs

  /** A student is flagged when they have more recorded absences than this. */
  const CALL_THRESHOLD: nat := 2

  /** The number of transactions that reference student `id`. */
  function CountFor(ts: seq<Transaction>, id: string): nat {
    multiset(Map(ts, TransactionStudentId))[id]
  }

  /** A newly recorded transaction adds one to its student's tally and to no one else's. */
  lemma RecordedAbsenceCounts(ts: seq<Transaction>, t: Transaction, id: string)
    ensures CountFor([t] + ts, id) == CountFor(ts, id) + (if id == t.studentId then 1 else 0)
  {
    assert Map([t] + ts, TransactionStudentId) == [t.studentId] + Map(ts, TransactionStudentId);
  }

  /** The transactions dated exactly `today` (the date strings are compared, not parsed). */
  function AbsentsToday(ts: seq<Transaction>, today: string): (n: nat)
    ensures n == multiset(Map(ts, TransactionDate))[today]
  {
    var onToday := (t: Transaction) => t.date == today;
    CountIsMultiplicity(ts, TransactionDate, today, onToday);
    |Filter(ts, onToday)|
  }

  /** The transactions whose reason is exactly "Pulang sebelum waktunya". */
  function EarlyDepartures(ts: seq<Transaction>): (n: nat)
    ensures n == multiset(Map(ts, TransactionReason))[EARLY_DEPARTURE]
  {
    var early := (t: Transaction) => t.reason == EARLY_DEPARTURE;
    CountIsMultiplicity(ts, TransactionReason, EARLY_DEPARTURE, early);
    |Filter(ts, early)|
  }

  /** What a tally over `ids` holds: exactly those ids as keys, each with its number of occurrences. */
  ghost predicate TallyOf(counts: map<string, nat>, order: seq<string>, ids: seq<string>) {
    && (forall id :: id in counts <==> id in ids)
    && (forall id :: id in counts ==> counts[id] == multiset(ids)[id] > 0)
    && order == Dedup(ids)
  }

  lemma TallyKeys(counts: map<string, nat>, ids: seq<string>, id: string, v: nat)
    requires forall x :: x in counts <==> x in ids
    ensures forall x :: x in counts[id := v] <==> x in ids + [id]
  {
  }

  lemma TallyMultiplicities(counts: map<string, nat>, ids: seq<string>, id: string)
    requires forall x :: x in counts <==> x in ids
    requires forall x :: x in counts ==> counts[x] == multiset(ids)[x] > 0
    ensures var c := counts[id := (if id in counts then counts[id] else 0) + 1];
      forall x :: x in c ==> c[x] == multiset(ids + [id])[x] > 0
  {
    assert multiset(ids + [id]) == multiset(ids) + multiset{id};
    if id !in counts {
      assert id !in multiset(ids);
    }
  }

  /** Counting one more occurrence of `id` keeps the tally exact. */
  lemma TallyStep(counts: map<string, nat>, order: seq<string>, ids: seq<string>, id: string)
    requires TallyOf(counts, order, ids)
    ensures TallyOf(counts[id := (if id in counts then counts[id] else 0) + 1],
                    if id in counts then order else order + [id], ids + [id])
  {
    TallyKeys(counts, ids, id, (if id in counts then counts[id] else 0) + 1);
    TallyMultiplicities(counts, ids, id);
    DedupSnoc(ids, id);
  }

  /** A tally in progress: the count per student id and the order in which the ids were first seen. */
  datatype Tallied = Tallied(counts: map<string, nat>, order: seq<string>)

  /** Counting `id` once more: a missing (or zero) entry starts from 0 and is incremented; a new id joins the order. */
  function Bump(t: Tallied, id: string): Tallied {
    Tallied(t.counts[id := (if id in t.counts && t.counts[id] != 0 then t.counts[id] else 0) + 1],
            if id in t.counts then t.order else t.order + [id])
  }

  /** The tally of `ids` counted from left to right. */
  function Tally(ids: seq<string>): Tallied {
    if ids == [] then Tallied(map[], []) else Bump(Tally(ids[..|ids| - 1]), ids[|ids| - 1])
  }

  lemma TallySnoc(ids: seq<string>, id: string)
    ensures Tally(ids + [id]) == Bump(Tally(ids), id)
  {
    assert (ids + [id])[..|ids|] == ids;
  }

  /** The left-to-right tally holds exactly the ids, each with its number of occurrences, in first-seen order. */
  lemma {:induction false} TallyCounts(ids: seq<string>)
    ensures TallyOf(Tally(ids).counts, Tally(ids).order, ids)
  {
    if ids != [] {
      var prev := ids[..|ids| - 1];
      var id := ids[|ids| - 1];
      assert ids == prev + [id];
      TallyCounts(prev);
      TallySnoc(prev, id);
      var t := Tally(prev);
      assert id in t.counts ==> t.counts[id] != 0;
      assert Bump(t, id) == Tallied(t.counts[id := (if id in t.counts then t.counts[id] else 0) + 1],
                                    if id in t.counts then t.order else t.order + [id]);
      TallyStep(t.counts, t.order, prev, id);
    }
  }

  /**
   * The per-student tally built by one pass over the transactions, with the
   * order in which its keys were inserted (the order `Object.keys` reports).
   */
  method ViolationCounts(ts: seq<Transaction>) returns (counts: map<string, nat>, order: seq<string>)
    ensures Tallied(counts, order) == Tally(Map(ts, TransactionStudentId))
    ensures forall id :: id in counts <==> id in Map(ts, TransactionStudentId)
    ensures forall id :: id in counts ==> counts[id] == CountFor(ts, id)
    ensures order == Dedup(Map(ts, TransactionStudentId))
  {
    counts := map[];
    order := [];
    var i := 0;
    while i < |ts|
      invariant 0 <= i <= |ts|
      invariant Tallied(counts, order) == Tally(Map(ts[..i], TransactionStudentId))
    {
      var id := ts[i].studentId;
      MapSnoc(ts, TransactionStudentId, i);
      TallySnoc(Map(ts[..i], TransactionStudentId), id);
      // a new key joins the insertion order; a missing (or zero) entry starts from 0, then is incremented
      order := if id in counts then order else order + [id];
      counts := counts[id := (if id in counts && counts[id] != 0 then counts[id] else 0) + 1];
      i := i + 1;
    }
    assert ts[..i] == ts;
    TallyCounts(Map(ts, TransactionStudentId));
  }

  /** A line of the parent-call list: the student's record with their tally. */
  datatype CallEntry = CallEntry(id: string, name: string, className: string, count: nat)

  function CallEntryId(e: CallEntry): string { e.id }

  /**
   * The ids of `order` whose tally exceeds the threshold, each joined to the
   * first student with that id; ids with no student are dropped.
   */
  function ParentCallList(students: seq<Student>, order: seq<string>, counts: map<string, nat>): (r: seq<CallEntry>)
    ensures forall id :: id in Map(r, CallEntryId) <==>
      id in order && id in counts && counts[id] > CALL_THRESHOLD && FindStudent(students, id).Some?
    ensures forall e :: e in r ==>
      (e.id in counts && e.count == counts[e.id] && FindStudent(students, e.id) == Some(Student(e.id, e.name, e.className)))
    ensures Distinct(order) ==> Distinct(Map(r, CallEntryId))
  {
    if order == [] then []
    else
      var id := order[0];
      var rest := ParentCallList(students, order[1..], counts);
      assert order == [id] + order[1..];
      assert Distinct(order) ==> Distinct(order[1..]) && id !in order[1..] by {
        if Distinct(order) { DistinctTail(order); }
      }
      if id in counts && counts[id] > CALL_THRESHOLD && FindStudent(students, id).Some? then
        var s := FindStudent(students, id).value;
        var r := [CallEntry(s.id, s.name, s.className, counts[id])] + rest;
        assert Map(r, CallEntryId) == [id] + Map(rest, CallEntryId);
        r
      else
        rest
  }

  datatype Stats = Stats(totalStudents: nat, absentsToday: nat, earlyDepartures: nat, parentCalls: nat)

  /**
   * What the dashboard shows for the given students, transactions and date:
   * a student is listed exactly when a live student has that id and more than
   * two transactions reference it, with their exact count, and no one twice.
   */
  method Render(students: seq<Student>, ts: seq<Transaction>, today: string) returns (stats: Stats, calls: seq<CallEntry>)
    ensures stats.totalStudents == |students|
    ensures stats.absentsToday == multiset(Map(ts, TransactionDate))[today]
    ensures stats.earlyDepartures == multiset(Map(ts, TransactionReason))[EARLY_DEPARTURE]
    ensures stats.parentCalls == |calls|
    ensures forall id :: id in Map(calls, CallEntryId) <==>
      (exists i :: 0 <= i < |students| && students[i].id == id) && CountFor(ts, id) > CALL_THRESHOLD
    ensures forall e :: e in calls ==>
      (e.count == CountFor(ts, e.id) && FindStudent(students, e.id) == Some(Student(e.id, e.name, e.className)))
    ensures Distinct(Map(calls, CallEntryId))
  {
    var counts, order := ViolationCounts(ts);
    calls := ParentCallList(students, order, counts);
    stats := Stats(|students|, AbsentsToday(ts, today), EarlyDepartures(ts), |calls|);
    forall id ensures id in counts <==> CountFor(ts, id) > 0 {
      assert id in Map(ts, TransactionStudentId) <==> CountFor(ts, id) > 0;
    }
  }
}
