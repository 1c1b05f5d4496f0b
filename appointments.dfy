/**
 * The appointment list of the agenda screen and the pure operations on it:
 * the `filter` that deletes by value, the `filter` that gives one day's rows,
 * and the index arithmetic that relates a day's rows to the whole list.
 */
module Appointments {
  import opened Wrappers

  /** An appointment: an ISO `YYYY-MM-DD` date, an `HH:MM` time and a free-text label. */
  datatype Appointment = Appointment(date: string, time: string, description: string)

  /** `s.filter(p)`: the elements of `s` that satisfy `p`, in their order in `s`. */
  function Keep(s: seq<Appointment>, p: Appointment -> bool): (r: seq<Appointment>)
    ensures |r| <= |s|
    ensures forall k :: 0 <= k < |r| ==> r[k] in s && p(r[k])
  {
    if s == [] then []
    else (if p(s[0]) then [s[0]] else []) + Keep(s[1..], p)
  }

  /** Filtering keeps exactly the elements that satisfy the test. */
  lemma {:induction false} KeepMembers(s: seq<Appointment>, p: Appointment -> bool, x: Appointment)
    ensures x in Keep(s, p) <==> x in s && p(x)
  {
    if s != [] {
      KeepMembers(s[1..], p, x);
      assert x in s <==> x == s[0] || x in s[1..];
    }
  }

  /** Filtering a concatenation filters each part: the relative order of what is kept is the original order. */
  lemma {:induction false} KeepConcat(s: seq<Appointment>, t: seq<Appointment>, p: Appointment -> bool)
    ensures Keep(s + t, p) == Keep(s, p) + Keep(t, p)
  {
    if s == [] {
      assert s + t == t;
    } else {
      assert (s + t)[0] == s[0] && (s + t)[1..] == s[1..] + t;
      KeepConcat(s[1..], t, p);
    }
  }

  /** Filtering counts: each element keeps all of its copies that satisfy the test and none of the others. */
  lemma {:induction false} KeepMultiset(s: seq<Appointment>, p: Appointment -> bool, x: Appointment)
    ensures multiset(Keep(s, p))[x] == if p(x) then multiset(s)[x] else 0
  {
    if s != [] {
      KeepMultiset(s[1..], p, x);
      assert s == [s[0]] + s[1..];
    }
  }

  /** Filtering a list all of whose elements pass gives it back unchanged. */
  lemma {:induction false} KeepAllPass(s: seq<Appointment>, p: Appointment -> bool)
    requires forall k :: 0 <= k < |s| ==> p(s[k])
    ensures Keep(s, p) == s
  {
    if s != [] {
      KeepAllPass(s[1..], p);
    }
  }

  /** The test for one field triple: `date === d && time === t && description === x`. */
  predicate Matches(a: Appointment, date: string, time: string, description: string) {
    a.date == date && a.time == time && a.description == description
  }

  /** The test the delete filter keeps: the negation of `Matches`. */
  function NotMatching(date: string, time: string, description: string): Appointment -> bool {
    (a: Appointment) => !Matches(a, date, time, description)
  }

  /** The test the per-day list keeps: `appointment.date === date`. */
  function OnDate(date: string): Appointment -> bool {
    (a: Appointment) => a.date == date
  }

  /** The list `handleDeleteAppointment` stores: every appointment with the given triple removed. */
  function DeleteMatching(s: seq<Appointment>, date: string, time: string, description: string): (r: seq<Appointment>)
    ensures |r| <= |s|
    ensures forall k :: 0 <= k < |r| ==> r[k] in s && !Matches(r[k], date, time, description)
  {
    Keep(s, NotMatching(date, time, description))
  }

  /** The rows the day modal shows for `date`: the appointments on that date, in list order. */
  function DayView(s: seq<Appointment>, date: string): (r: seq<Appointment>)
    ensures |r| <= |s|
    ensures forall k :: 0 <= k < |r| ==> r[k] in s && r[k].date == date
  {
    Keep(s, OnDate(date))
  }

  /** How many appointments carry the given triple. */
  function CountMatching(s: seq<Appointment>, date: string, time: string, description: string): (n: nat)
    ensures n <= |s|
    ensures n == 0 <==> forall k :: 0 <= k < |s| ==> !Matches(s[k], date, time, description)
  {
    if s == [] then 0
    else (if Matches(s[0], date, time, description) then 1 else 0) + CountMatching(s[1..], date, time, description)
  }

  /**
   * Delete removes every appointment with the triple and no other: an element
   * is in the result exactly when it was in the list and does not match, and
   * each surviving appointment keeps all of its copies.
   */
  lemma DeleteRemovesExactlyMatches(s: seq<Appointment>, date: string, time: string, description: string, x: Appointment)
    ensures x in DeleteMatching(s, date, time, description) <==> x in s && !Matches(x, date, time, description)
    ensures multiset(DeleteMatching(s, date, time, description))[x]
         == if Matches(x, date, time, description) then 0 else multiset(s)[x]
  {
    KeepMembers(s, NotMatching(date, time, description), x);
    KeepMultiset(s, NotMatching(date, time, description), x);
  }

  /** Delete removes all N matching appointments, not just one: the list shrinks by exactly their number. */
  lemma {:induction false} DeleteRemovesAllCopies(s: seq<Appointment>, date: string, time: string, description: string)
    ensures |DeleteMatching(s, date, time, description)| == |s| - CountMatching(s, date, time, description)
  {
    if s != [] {
      DeleteRemovesAllCopies(s[1..], date, time, description);
    }
  }

  /** Delete keeps the survivors in their original relative order: it works part by part. */
  lemma DeleteKeepsOrder(s: seq<Appointment>, t: seq<Appointment>, date: string, time: string, description: string)
    ensures DeleteMatching(s + t, date, time, description)
         == DeleteMatching(s, date, time, description) + DeleteMatching(t, date, time, description)
  {
    KeepConcat(s, t, NotMatching(date, time, description));
  }

  /** After a delete no appointment with the triple remains, and deleting the same triple again changes nothing. */
  lemma DeleteIdempotent(s: seq<Appointment>, date: string, time: string, description: string)
    ensures CountMatching(DeleteMatching(s, date, time, description), date, time, description) == 0
    ensures DeleteMatching(DeleteMatching(s, date, time, description), date, time, description)
         == DeleteMatching(s, date, time, description)
  {
    var r := DeleteMatching(s, date, time, description);
    KeepAllPass(r, NotMatching(date, time, description));
  }

  /** A list with no appointment carrying the triple is left as it is. */
  lemma DeleteWithoutMatchesIsIdentity(s: seq<Appointment>, date: string, time: string, description: string)
    requires CountMatching(s, date, time, description) == 0
    ensures DeleteMatching(s, date, time, description) == s
  {
    KeepAllPass(s, NotMatching(date, time, description));
  }

  /**
   * Adding an appointment and then deleting its triple gives the original
   * list back, provided no appointment already carried that triple.
   */
  lemma AddThenDeleteRestores(s: seq<Appointment>, x: Appointment)
    requires CountMatching(s, x.date, x.time, x.description) == 0
    ensures DeleteMatching(s + [x], x.date, x.time, x.description) == s
  {
    DeleteKeepsOrder(s, [x], x.date, x.time, x.description);
    DeleteWithoutMatchesIsIdentity(s, x.date, x.time, x.description);
    assert DeleteMatching([x], x.date, x.time, x.description) == [];
  }

  /** The day's rows are exactly the appointments on that date, in list order, with all their copies. */
  lemma DayViewIsDateFilter(s: seq<Appointment>, t: seq<Appointment>, date: string, x: Appointment)
    ensures x in DayView(s, date) <==> x in s && x.date == date
    ensures multiset(DayView(s, date))[x] == if x.date == date then multiset(s)[x] else 0
    ensures DayView(s + t, date) == DayView(s, date) + DayView(t, date)
  {
    KeepMembers(s, OnDate(date), x);
    KeepMultiset(s, OnDate(date), x);
    KeepConcat(s, t, OnDate(date));
  }

  /** When every appointment is on the shown date, the day's rows are the whole list. */
  lemma DayViewOfOneDay(s: seq<Appointment>, date: string)
    requires forall k :: 0 <= k < |s| ==> s[k].date == date
    ensures DayView(s, date) == s
  {
    KeepAllPass(s, OnDate(date));
  }

  /** The position in the whole list of the row shown `k`-th for `date`. */
  function ListPosition(s: seq<Appointment>, date: string, k: nat): (i: nat)
    requires k < |DayView(s, date)|
    ensures k <= i < |s|
    ensures s[i] == DayView(s, date)[k] && s[i].date == date
    ensures |DayView(s[..i], date)| == k
  {
    var rest := DayView(s[1..], date);
    assert DayView(s, date) == (if s[0].date == date then [s[0]] else []) + rest;
    if s[0].date == date && k == 0 then
      0
    else
      var k' := if s[0].date == date then k - 1 else k;
      var j := ListPosition(s[1..], date, k');
      DayViewPrefixStep(s, date, j);
      1 + j
  }

  /** The day's rows among the first `j + 1` appointments: the first one's row, if any, then those among the next `j`. */
  lemma DayViewPrefixStep(s: seq<Appointment>, date: string, j: nat)
    requires j < |s|
    ensures |DayView(s[..1 + j], date)| == (if s[0].date == date then 1 else 0) + |DayView(s[1..][..j], date)|
  {
    assert s[..1 + j] == [s[0]] + s[1..][..j];
    KeepConcat([s[0]], s[1..][..j], OnDate(date));
  }

  /**
   * The edit button passes a row's position among the day's rows and the
   * handler reads and writes the whole list at that position: the two agree
   * exactly when every appointment up to that position is on the shown date.
   */
  lemma {:induction false} ListPositionIsRowIff(s: seq<Appointment>, date: string, k: nat)
    requires k < |DayView(s, date)|
    ensures ListPosition(s, date, k) == k <==> forall j :: 0 <= j <= k ==> s[j].date == date
  {
    if s[0].date == date && k > 0 {
      ListPositionIsRowIff(s[1..], date, k - 1);
      assert (forall j :: 0 <= j <= k - 1 ==> s[1..][j].date == date)
         <==> (forall j :: 1 <= j <= k ==> s[j].date == date);
    }
  }

  /** A concrete list where the row shown first for a date is not the list's first appointment. */
  lemma RowIndexReadsAnotherAppointment()
    ensures var a := Appointment("2024-03-01", "09:00", "Dentist");
            var b := Appointment("2024-03-02", "10:30", "Gym");
            DayView([a, b], b.date) == [b] && [a, b][0] == a && a != b
  {
    var a := Appointment("2024-03-01", "09:00", "Dentist");
    var b := Appointment("2024-03-02", "10:30", "Gym");
    assert DayView([b], b.date) == [b] by {
      DayViewOfOneDay([b], b.date);
    }
    assert [a, b][1..] == [b];
  }

  /**
   * Where an edit that was in progress at index `i` should point after a
   * delete: at the same appointment's new position, or nowhere when the
   * delete removed it.
   */
  function EditIndexAfterDelete(s: seq<Appointment>, i: nat, date: string, time: string, description: string): Option<nat>
    requires i < |s|
  {
    if Matches(s[i], date, time, description) then None
    else Some(|DeleteMatching(s[..i], date, time, description)|)
  }

  /** The re-pointed index designates the appointment that was being edited, and is cleared only when it was deleted. */
  lemma EditIndexFollowsAppointment(s: seq<Appointment>, i: nat, date: string, time: string, description: string)
    requires i < |s|
    ensures var r := DeleteMatching(s, date, time, description);
            match EditIndexAfterDelete(s, i, date, time, description)
            case None => Matches(s[i], date, time, description)
            case Some(j) => j < |r| && r[j] == s[i]
  {
    if !Matches(s[i], date, time, description) {
      assert s == s[..i] + ([s[i]] + s[i + 1..]);
      DeleteKeepsOrder(s[..i], [s[i]] + s[i + 1..], date, time, description);
      DeleteKeepsOrder([s[i]], s[i + 1..], date, time, description);
      assert DeleteMatching([s[i]], date, time, description) == [s[i]];
    }
  }

  /**
   * As the handlers are written, a delete leaves the editing index as it was.
   * For an appointment that survives the delete, that unchanged index still
   * designates it exactly when no appointment before it was deleted.
   */
  lemma StaleIndexStillRight(s: seq<Appointment>, i: nat, date: string, time: string, description: string)
    requires i < |s| && !Matches(s[i], date, time, description)
    ensures EditIndexAfterDelete(s, i, date, time, description) == Some(i)
        <==> CountMatching(s[..i], date, time, description) == 0
  {
    DeleteRemovesAllCopies(s[..i], date, time, description);
  }

  /**
   * As the handlers are written, a delete leaves the editing index as it was;
   * the next save then replaces whatever now sits there. Here the edit was
   * opened on "Gym" at index 1, "Dentist" is deleted, and the save overwrites
   * "Swim" while "Gym" survives unedited.
   */
  lemma StaleEditIndexOverwritesAnother()
    ensures var a := Appointment("2024-03-01", "09:00", "Dentist");
            var b := Appointment("2024-03-01", "10:30", "Gym");
            var c := Appointment("2024-03-01", "18:00", "Swim");
            var x := Appointment("2024-03-01", "11:00", "Gym");
            var kept := DeleteMatching([a, b, c], a.date, a.time, a.description);
            kept == [b, c] && kept[1 := x] == [b, x] && c !in kept[1 := x]
  {
    var a := Appointment("2024-03-01", "09:00", "Dentist");
    var b := Appointment("2024-03-01", "10:30", "Gym");
    var c := Appointment("2024-03-01", "18:00", "Swim");
    var p := NotMatching(a.date, a.time, a.description);
    assert [a, b, c][1..] == [b, c] && [b, c][1..] == [c] && [c][1..] == [];
    assert Keep([c], p) == [c];
    assert Keep([b, c], p) == [b, c];
    assert Keep([a, b, c], p) == [b, c];
  }
}
