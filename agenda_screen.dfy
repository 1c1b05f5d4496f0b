/**
 * The state of the `AgendaScreen` component and its event handlers. Each
 * `useState` slot is a field; each handler is a method that assigns the
 * fields its setters assign. Rendering, storage and the clock stay outside:
 * the current date is a parameter where the screen reads the clock.
 */
module Screen {
  import opened Wrappers
  import opened ClockText
  import opened Appointments
  import opened Markers

  class AgendaScreen {
    var selectedDate: string
    var showModal: bool
    var appointments: seq<Appointment>
    var newDescription: string
    var markedDates: map<string, Marker>
    var showInputs: bool
    var selectedHour: string
    var selectedMinute: string
    /** The list index of the appointment being edited, or `None` (`null`) when a save adds a new one. */
    var editing: Option<nat>

    /**
     * The hour and minute fields hold picker values (two digits below 24 and
     * below 60, which is what the pickers offer), every stored time is an
     * `HH:MM` time, and an edit in progress designates an element of the list.
     */
    ghost predicate Valid()
      reads this
    {
      && IsTwoDigits(selectedHour) && TwoDigitValue(selectedHour) < 24
      && IsTwoDigits(selectedMinute) && TwoDigitValue(selectedMinute) < 60
      && (forall k :: 0 <= k < |appointments| ==> IsClockTime(appointments[k].time))
      && (editing.Some? ==> editing.value < |appointments|)
    }

    /** The initial `useState` values. */
    constructor ()
      ensures Valid()
      ensures selectedDate == "" && !showModal && appointments == [] && newDescription == ""
      ensures markedDates == map[] && !showInputs && editing == None
      ensures selectedHour == "00" && selectedMinute == "00"
    {
      selectedDate := "";
      showModal := false;
      appointments := [];
      newDescription := "";
      markedDates := map[];
      showInputs := false;
      selectedHour := "00";
      selectedMinute := "00";
      editing := None;
    }

    /** `handleDateSelect`: a tap on a calendar day selects it and opens the day modal. */
    method SelectDate(date: string)
      requires Valid()
      modifies this`selectedDate, this`showModal
      ensures Valid()
      ensures selectedDate == date && showModal
    {
      selectedDate := date;
      showModal := true;
    }

    /**
     * `handleEditAppointment`: load the appointment at list index `i` into the
     * form. The hour and minute fields get the two halves of its `HH:MM` time,
     * which are picker values and which join back to the stored time.
     */
    method BeginEdit(i: nat)
      requires Valid()
      requires i < |appointments|
      modifies this`editing, this`selectedHour, this`selectedMinute, this`newDescription, this`showInputs
      ensures Valid()
      ensures editing == Some(i) && showInputs
      ensures selectedHour == appointments[i].time[..2] && selectedMinute == appointments[i].time[3..]
      ensures FormatTime(selectedHour, selectedMinute) == appointments[i].time
      ensures newDescription == appointments[i].description
    {
      var time := appointments[i].time;
      ClockTimeIsJoinOfFields(time);
      TwoDigitsHaveNoColon(time[..2]);
      TwoDigitsHaveNoColon(time[3..]);
      editing := Some(i);
      selectedHour := Split(time, ':')[0];
      selectedMinute := Split(time, ':')[1];
      newDescription := appointments[i].description;
      showInputs := true;
    }

    /**
     * `handleAddAppointment`: build an appointment from the selected date, the
     * picked hour and minute and the description; append it, or, while an edit
     * is in progress, replace the edited element and end the edit. Either way
     * the form and the modal close.
     */
    method Save()
      requires Valid()
      modifies this`appointments, this`editing, this`showInputs, this`showModal
      ensures Valid()
      ensures var saved := Appointment(selectedDate, FormatTime(selectedHour, selectedMinute), newDescription);
              match old(editing)
              case None => appointments == old(appointments) + [saved]
              case Some(i) => i < |old(appointments)| && appointments == old(appointments)[i := saved]
      ensures IsClockTime(FormatTime(selectedHour, selectedMinute))
      ensures old(editing) == None ==>
                DayRows() == old(DayRows()) + [Appointment(selectedDate, FormatTime(selectedHour, selectedMinute), newDescription)]
      ensures editing == None && !showInputs && !showModal
    {
      var edited := Appointment(selectedDate, FormatTime(selectedHour, selectedMinute), newDescription);
      JoinedDigitsAreClockTime(selectedHour, selectedMinute);
      KeepConcat(appointments, [edited], OnDate(selectedDate));
      assert Keep([edited], OnDate(selectedDate)) == [edited];
      if editing.Some? {
        var updated := appointments;
        updated := updated[editing.value := edited];
        appointments := updated;
        editing := None;
      } else {
        appointments := appointments + [edited];
      }
      showInputs := false;
      showModal := false;
    }

    /**
     * `handleDeleteAppointment`: keep only the appointments whose triple
     * differs from the given one. An edit in progress is moved to the edited
     * appointment's new position, or ended when that appointment was deleted
     * (the handler as written leaves the index unchanged; see
     * `StaleEditIndexOverwritesAnother`).
     */
    method Delete(date: string, time: string, description: string)
      requires Valid()
      modifies this`appointments, this`editing
      ensures Valid()
      ensures appointments == DeleteMatching(old(appointments), date, time, description)
      ensures match old(editing)
              case None => editing == None
              case Some(i) => i < |old(appointments)| && editing == EditIndexAfterDelete(old(appointments), i, date, time, description)
    {
      var before := appointments;
      var after := DeleteMatching(before, date, time, description);
      forall k | 0 <= k < |after|
        ensures IsClockTime(after[k].time)
      {
        DeleteRemovesExactlyMatches(before, date, time, description, after[k]);
      }
      if editing.Some? {
        EditIndexFollowsAppointment(before, editing.value, date, time, description);
        editing := EditIndexAfterDelete(before, editing.value, date, time, description);
      }
      appointments := after;
    }

    /** `handleCloseModal`. */
    method CloseModal()
      requires Valid()
      modifies this`showModal
      ensures Valid() && !showModal
    {
      showModal := false;
    }

    /** `handleShowInputs`: open or close the form; either way any edit in progress ends. */
    method ToggleInputs()
      requires Valid()
      modifies this`showInputs, this`editing
      ensures Valid()
      ensures showInputs == !old(showInputs) && editing == None
    {
      showInputs := !showInputs;
      editing := None;
    }

    /**
     * The hour picker's `onValueChange`: it only ever passes one of its entries,
     * which are exactly the two-digit strings below 24 (`PickerValuesAreTwoDigitsBelow`).
     */
    method SetHour(hour: string)
      requires Valid()
      requires IsTwoDigits(hour) && TwoDigitValue(hour) < 24
      modifies this`selectedHour
      ensures Valid() && selectedHour == hour
    {
      selectedHour := hour;
    }

    /**
     * The minute picker's `onValueChange`: it only ever passes one of its entries,
     * which are exactly the two-digit strings below 60 (`PickerValuesAreTwoDigitsBelow`).
     */
    method SetMinute(minute: string)
      requires Valid()
      requires IsTwoDigits(minute) && TwoDigitValue(minute) < 60
      modifies this`selectedMinute
      ensures Valid() && selectedMinute == minute
    {
      selectedMinute := minute;
    }

    /** The description input's `onChangeText`. */
    method SetDescription(text: string)
      requires Valid()
      modifies this`newDescription
      ensures Valid() && newDescription == text
    {
      newDescription := text;
    }

    /** `updateMarkedDates`, with the current UTC date `today` passed in instead of read from the clock. */
    method UpdateMarkedDates(today: string)
      requires Valid()
      modifies this`markedDates
      ensures Valid()
      ensures markedDates == MarkerTable(appointments, today)
    {
      var marks := ComputeMarks(appointments, today);
      markedDates := marks;
    }

    /** The rows of the day modal: the appointments on the selected date. */
    function DayRows(): (rows: seq<Appointment>)
      reads this
      ensures |rows| <= |appointments|
      ensures forall k :: 0 <= k < |rows| ==> rows[k] in appointments && rows[k].date == selectedDate
    {
      DayView(appointments, selectedDate)
    }
  }

  /**
   * Saving a new appointment and then opening it for editing puts the hour,
   * minute and description that were saved back into the form, leaves the
   * list with the new appointment at its end, keeps the selected date and the
   * markers, and leaves the modal closed.
   */
  method ReopenAfterSave(screen: AgendaScreen)
    requires screen.Valid() && screen.editing == None
    modifies screen
    ensures screen.Valid()
    ensures screen.appointments == old(screen.appointments)
              + [Appointment(old(screen.selectedDate), FormatTime(old(screen.selectedHour), old(screen.selectedMinute)), old(screen.newDescription))]
    ensures screen.selectedHour == old(screen.selectedHour) && screen.selectedMinute == old(screen.selectedMinute)
    ensures screen.newDescription == old(screen.newDescription)
    ensures screen.editing == Some(|old(screen.appointments)|) && screen.showInputs
    ensures screen.selectedDate == old(screen.selectedDate) && screen.markedDates == old(screen.markedDates)
    ensures !screen.showModal
  {
    var last := |screen.appointments|;
    JoinedDigitsAreClockTime(screen.selectedHour, screen.selectedMinute);
    screen.Save();
    screen.BeginEdit(last);
  }
}
