/**
 * The calendar's marker table: which dates carry a dot, and today's blue dot.
 */
module Markers {
  import opened Wrappers
  import opened Appointments

  /** The marking object the calendar widget receives for one date. */
  datatype Marker = Marker(marked: bool, dotColor: Option<string>)

  /** `{ marked: true, dotColor: "blue" }`, the entry written for today. */
  const TodayMarker: Marker := Marker(true, Some("blue"))

  /** `{ marked: true }`, the entry written for a date that has an appointment. */
  const DateMarker: Marker := Marker(true, None)

  /** The dates on which some appointment falls. */
  function DatesOf(s: seq<Appointment>): set<string> {
    set a | a in s :: a.date
  }

  /**
   * The table the screen hands to the calendar: today and every appointment
   * date are keys; an appointment date gets the plain marker, which also
   * replaces today's blue one when today has an appointment.
   */
  function MarkerTable(s: seq<Appointment>, today: string): (marks: map<string, Marker>)
    ensures marks.Keys == {today} + DatesOf(s)
    ensures forall a :: a in s ==> marks[a.date] == DateMarker
    ensures marks[today] == TodayMarker <==> today !in DatesOf(s)
  {
    map d | d in {today} + DatesOf(s) :: if d in DatesOf(s) then DateMarker else TodayMarker
  }

  /**
   * The table is what the `forEach` builds: today's blue marker for an empty
   * list, and one more appointment writes the plain marker over its date.
   */
  lemma MarkerTableSteps(s: seq<Appointment>, a: Appointment, today: string)
    ensures MarkerTable([], today) == map[today := TodayMarker]
    ensures MarkerTable(s + [a], today) == MarkerTable(s, today)[a.date := DateMarker]
  {
    assert DatesOf([]) == {};
    assert DatesOf(s + [a]) == DatesOf(s) + {a.date} by {
      forall d | d in DatesOf(s + [a]) ensures d in DatesOf(s) + {a.date} {
        var b :| b in s + [a] && b.date == d;
      }
      forall d | d in DatesOf(s) + {a.date} ensures d in DatesOf(s + [a]) {
        if d != a.date {
          var b :| b in s && b.date == d;
          assert b in s + [a];
        } else {
          assert a in s + [a];
        }
      }
    }
  }

  /**
   * `updateMarkedDates` without its clock and its state update: start with
   * today's blue marker, then write the plain marker for each appointment's
   * date, in list order.
   */
  method ComputeMarks(s: seq<Appointment>, today: string) returns (marks: map<string, Marker>)
    ensures marks == MarkerTable(s, today)
    ensures marks.Keys == {today} + DatesOf(s)
    ensures forall d :: d in DatesOf(s) ==> marks[d] == DateMarker
    ensures marks[today] == TodayMarker <==> today !in DatesOf(s)
  {
    marks := map[today := TodayMarker];
    for k := 0 to |s|
      invariant marks.Keys == {today} + DatesOf(s[..k])
      invariant forall d :: d in DatesOf(s[..k]) ==> marks[d] == DateMarker
      invariant today !in DatesOf(s[..k]) ==> marks[today] == TodayMarker
    {
      assert DatesOf(s[..k + 1]) == DatesOf(s[..k]) + {s[k].date} by {
        assert s[..k + 1] == s[..k] + [s[k]];
      }
      marks := marks[s[k].date := DateMarker];
    }
    assert s[..|s|] == s;
  }
}
