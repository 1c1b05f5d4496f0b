/**
 * The text the agenda screen uses for times of day: the zero-padded values the
 * hour and minute pickers offer, the `HH:MM` string a saved appointment
 * stores, and the JavaScript `split` that takes such a string apart again when
 * an appointment is opened for editing.
 */
module ClockText {

  /** The decimal digit character for `d`. */
  function DigitChar(d: nat): (c: char)
    requires d < 10
    ensures IsDigit(c) && DigitValue(c) == d
  {
    (48 + d) as char
  }

  predicate IsDigit(c: char) {
    '0' <= c <= '9'
  }

  function DigitValue(c: char): nat
    requires IsDigit(c)
  {
    c as int - 48
  }

  /** `n.toString()` for a non-negative integer: its decimal digits, most significant first. */
  function ToDecimal(n: nat): (s: string)
    ensures 1 <= |s|
    ensures forall k :: 0 <= k < |s| ==> IsDigit(s[k])
    ensures n < 10 <==> |s| == 1
    decreases n
  {
    if n < 10 then [DigitChar(n)] else ToDecimal(n / 10) + [DigitChar(n % 10)]
  }

  /** `s.padStart(width, fill)` with a one-character fill: `s` itself when it is long enough. */
  function PadStart(s: string, width: nat, fill: char): (r: string)
    ensures |r| == if |s| < width then width else |s|
    ensures r[|r| - |s|..] == s
    ensures forall k :: 0 <= k < |r| - |s| ==> r[k] == fill
  {
    if |s| < width then seq(width - |s|, _ => fill) + s else s
  }

  /**
   * The i-th entry of a time picker: `i.toString().padStart(2, "0")`. Every
   * entry below 100 is exactly two digits, the tens digit first.
   */
  function PickerValue(i: nat): (v: string)
    ensures i < 100 ==> v == [DigitChar(i / 10), DigitChar(i % 10)]
  {
    if i < 100 then
      PaddedDecimalBelowHundred(i);
      PadStart(ToDecimal(i), 2, '0')
    else
      PadStart(ToDecimal(i), 2, '0')
  }

  lemma PaddedDecimalBelowHundred(i: nat)
    requires i < 100
    ensures PadStart(ToDecimal(i), 2, '0') == [DigitChar(i / 10), DigitChar(i % 10)]
  {
    if i < 10 {
      assert i / 10 == 0 && i % 10 == i;
      assert ToDecimal(i) == [DigitChar(i)];
    } else {
      assert i / 10 < 10;
      assert ToDecimal(i) == ToDecimal(i / 10) + [DigitChar(i % 10)];
      assert ToDecimal(i / 10) == [DigitChar(i / 10)];
    }
  }

  /** `Array.from({ length: count }, (_, i) => i.toString().padStart(2, "0"))`. */
  function PickerValues(count: nat): (vs: seq<string>)
    ensures |vs| == count
    ensures forall i :: 0 <= i < count ==> vs[i] == PickerValue(i)
    ensures count <= 100 ==> forall i :: 0 <= i < count ==> IsTwoDigits(vs[i]) && TwoDigitValue(vs[i]) == i
  {
    if count <= 100 then
      PickerValuesReadBack(count);
      seq(count, i requires 0 <= i => PickerValue(i))
    else
      seq(count, i requires 0 <= i => PickerValue(i))
  }

  lemma PickerValuesReadBack(count: nat)
    requires count <= 100
    ensures forall i :: 0 <= i < count ==> IsTwoDigits(PickerValue(i)) && TwoDigitValue(PickerValue(i)) == i
  {
    forall i | 0 <= i < count
      ensures IsTwoDigits(PickerValue(i)) && TwoDigitValue(PickerValue(i)) == i
    {
      PickerValueReadsBack(i);
    }
  }

  /** The values the hour picker offers, "00" to "23". */
  const Hours: seq<string> := PickerValues(24)

  /** The values the minute picker offers, "00" to "59". */
  const Minutes: seq<string> := PickerValues(60)

  /** Two decimal digits. */
  predicate IsTwoDigits(s: string) {
    |s| == 2 && IsDigit(s[0]) && IsDigit(s[1])
  }

  /** The number two decimal digits spell. */
  function TwoDigitValue(s: string): nat
    requires IsTwoDigits(s)
  {
    10 * DigitValue(s[0]) + DigitValue(s[1])
  }

  /** Two-digit strings that spell the same number are the same string. */
  lemma TwoDigitValueInjective(a: string, b: string)
    requires IsTwoDigits(a) && IsTwoDigits(b) && TwoDigitValue(a) == TwoDigitValue(b)
    ensures a == b
  {
    assert DigitValue(a[0]) == DigitValue(b[0]) && DigitValue(a[1]) == DigitValue(b[1]);
  }

  /** Two digits never hold the time separator. */
  lemma TwoDigitsHaveNoColon(s: string)
    requires IsTwoDigits(s)
    ensures ':' !in s
  {
  }

  /** A picker entry below 100 is two digits that read back as its own number. */
  lemma PickerValueReadsBack(i: nat)
    requires i < 100
    ensures IsTwoDigits(PickerValue(i)) && TwoDigitValue(PickerValue(i)) == i
  {
    var v := PickerValue(i);
    assert DigitValue(v[0]) == i / 10 && DigitValue(v[1]) == i % 10;
  }

  /** Two picker entries are equal only when they are the same entry, so the picker keys are unique. */
  lemma PickerValuesDistinct(count: nat, i: nat, j: nat)
    requires count <= 100 && i < count && j < count
    ensures PickerValues(count)[i] == PickerValues(count)[j] <==> i == j
  {
    PickerValueReadsBack(i);
    PickerValueReadsBack(j);
  }

  /** A picker entry is two digits, so it never holds the time separator. */
  lemma PickerValueHasNoColon(s: string, count: nat)
    requires count <= 100 && s in PickerValues(count)
    ensures IsTwoDigits(s) && ':' !in s
  {
    var i :| 0 <= i < count && PickerValues(count)[i] == s;
    PickerValueReadsBack(i);
    TwoDigitsHaveNoColon(s);
  }

  /** Two digits below `count` are the picker entry for the number they spell. */
  lemma TwoDigitsArePickerValue(s: string, count: nat)
    requires IsTwoDigits(s) && TwoDigitValue(s) < count <= 100
    ensures s in PickerValues(count)
  {
    var v := TwoDigitValue(s);
    PickerValueReadsBack(v);
    TwoDigitValueInjective(PickerValue(v), s);
    assert PickerValues(count)[v] == s;
  }

  /** The picker with `count` entries offers exactly the two-digit strings that spell a number below `count`. */
  lemma PickerValuesAreTwoDigitsBelow(s: string, count: nat)
    requires count <= 100
    ensures s in PickerValues(count) <==> IsTwoDigits(s) && TwoDigitValue(s) < count
  {
    if s in PickerValues(count) {
      var i :| 0 <= i < count && PickerValues(count)[i] == s;
      PickerValueReadsBack(i);
    }
    if IsTwoDigits(s) && TwoDigitValue(s) < count {
      TwoDigitsArePickerValue(s, count);
    }
  }

  /**
   * The stored time of an appointment: the template string `${hour}:${minute}`.
   * For an hour and a minute without a colon, `split(":")` gives back exactly
   * those two fields, which is how an appointment is reopened for editing.
   */
  function FormatTime(hour: string, minute: string): (t: string)
    ensures ':' !in hour && ':' !in minute ==> Split(t, ':') == [hour, minute]
  {
    if ':' !in hour && ':' !in minute then
      SplitJoin([hour, minute], ':');
      assert Join([hour, minute], ':') == hour + ":" + minute;
      hour + ":" + minute
    else
      hour + ":" + minute
  }

  /** A 24-hour, zero-padded `HH:MM` time of day. */
  predicate IsClockTime(t: string) {
    && |t| == 5
    && t[2] == ':'
    && IsTwoDigits(t[..2]) && TwoDigitValue(t[..2]) < 24
    && IsTwoDigits(t[3..]) && TwoDigitValue(t[3..]) < 60
  }

  /** Joining two-digit hour and minute fields in range gives an `HH:MM` time with those halves. */
  lemma JoinedDigitsAreClockTime(h: string, m: string)
    requires IsTwoDigits(h) && TwoDigitValue(h) < 24
    requires IsTwoDigits(m) && TwoDigitValue(m) < 60
    ensures IsClockTime(FormatTime(h, m))
    ensures FormatTime(h, m)[..2] == h && FormatTime(h, m)[3..] == m
  {
    var t := FormatTime(h, m);
    assert t[..2] == h && t[3..] == m;
  }

  /** A time built from the pickers' values is an `HH:MM` string whose halves are those values. */
  lemma FormattedTimeIsClockTime(h: string, m: string)
    requires h in Hours && m in Minutes
    ensures IsClockTime(FormatTime(h, m))
    ensures FormatTime(h, m)[..2] == h && FormatTime(h, m)[3..] == m
  {
    PickerValuesAreTwoDigitsBelow(h, 24);
    PickerValuesAreTwoDigitsBelow(m, 60);
    JoinedDigitsAreClockTime(h, m);
  }

  /** The halves of an `HH:MM` time are values the pickers offer, and the time is their join. */
  lemma ClockTimeHalves(t: string)
    requires IsClockTime(t)
    ensures t[..2] in Hours && t[3..] in Minutes
    ensures t == FormatTime(t[..2], t[3..])
  {
    ClockTimeFieldsArePickerValues(t);
    ClockTimeIsJoinOfFields(t);
  }

  lemma ClockTimeIsJoinOfFields(t: string)
    requires IsClockTime(t)
    ensures t == FormatTime(t[..2], t[3..])
  {
    assert t == t[..2] + [t[2]] + t[3..];
  }

  lemma ClockTimeFieldsArePickerValues(t: string)
    requires IsClockTime(t)
    ensures t[..2] in Hours && t[3..] in Minutes
  {
    TwoDigitsArePickerValue(t[..2], 24);
    TwoDigitsArePickerValue(t[3..], 60);
  }

  /**
   * Joining an hour and a minute the pickers offer gives an `HH:MM` time, and
   * every `HH:MM` time is such a join: the two describe the same strings.
   */
  lemma ClockTimeIsPickerJoin(t: string)
    ensures IsClockTime(t) <==> exists h, m :: h in Hours && m in Minutes && t == FormatTime(h, m)
  {
    if IsClockTime(t) {
      ClockTimeHalves(t);
    }
    if exists h, m :: h in Hours && m in Minutes && t == FormatTime(h, m) {
      var h, m :| h in Hours && m in Minutes && t == FormatTime(h, m);
      FormattedTimeIsClockTime(h, m);
    }
  }

  /**
   * `s.split(sep)` for a one-character separator: the pieces between
   * occurrences of `sep`, in order; there is always at least one piece.
   */
  function Split(s: string, sep: char): (parts: seq<string>)
    ensures 1 <= |parts|
    ensures forall k :: 0 <= k < |parts| ==> sep !in parts[k]
  {
    if s == [] then [""]
    else if s[0] == sep then [""] + Split(s[1..], sep)
    else
      var rest := Split(s[1..], sep);
      [[s[0]] + rest[0]] + rest[1..]
  }

  /** `parts.join(sep)`: the pieces with one separator between neighbours. */
  function Join(parts: seq<string>, sep: char): string
    requires 1 <= |parts|
  {
    if |parts| == 1 then parts[0] else parts[0] + [sep] + Join(parts[1..], sep)
  }

  /** Joining the pieces of a split gives the original string back. */
  lemma {:induction false} JoinSplit(s: string, sep: char)
    ensures Join(Split(s, sep), sep) == s
  {
    if s == [] {
    } else if s[0] == sep {
      JoinSplit(s[1..], sep);
    } else {
      JoinSplit(s[1..], sep);
      var rest := Split(s[1..], sep);
      if |rest| == 1 {
        assert Join(Split(s, sep), sep) == [s[0]] + rest[0];
      } else {
        assert Split(s, sep)[1..] == rest[1..];
        assert Join(Split(s, sep), sep) == [s[0]] + rest[0] + [sep] + Join(rest[1..], sep);
      }
    }
  }

  /** A split passes over a leading piece that holds no separator. */
  lemma {:induction false} SplitFreePrefix(p: string, t: string, sep: char)
    requires sep !in p
    ensures Split(p + t, sep) == [p + Split(t, sep)[0]] + Split(t, sep)[1..]
  {
    var tail := Split(t, sep);
    if p != [] {
      assert (p + t)[0] == p[0] && (p + t)[1..] == p[1..] + t;
      SplitFreePrefix(p[1..], t, sep);
      assert [p[0]] + (p[1..] + tail[0]) == p + tail[0];
    } else {
      assert p + t == t && p + tail[0] == tail[0];
      assert tail == [tail[0]] + tail[1..];
    }
  }

  /** Splitting a join of separator-free pieces gives the pieces back. */
  lemma {:induction false} SplitJoin(parts: seq<string>, sep: char)
    requires 1 <= |parts|
    requires forall k :: 0 <= k < |parts| ==> sep !in parts[k]
    ensures Split(Join(parts, sep), sep) == parts
  {
    if |parts| == 1 {
      SplitFreePrefix(parts[0], [], sep);
      assert parts[0] + [] == parts[0];
    } else {
      var tail := Join(parts[1..], sep);
      SplitJoin(parts[1..], sep);
      assert Split([sep] + tail, sep) == [""] + Split(tail, sep);
      SplitFreePrefix(parts[0], [sep] + tail, sep);
      assert parts[0] + [sep] + tail == parts[0] + ([sep] + tail);
      assert parts[0] + "" == parts[0];
      assert parts == [parts[0]] + parts[1..];
    }
  }
}
