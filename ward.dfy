/**
 * The page-level state of app.js as an object: the `beds` array, the
 * `currentBedId` chosen by the last click, and the snapshot kept in local
 * storage. Each transition changes the beds field by field, as the source
 * does, saves the snapshot and returns the event handed to `syncData`.
 */
module WardApp {
  import opened Wrappers
  import opened DurationFormatter
  import opened BedState
  import opened SyncDispatcher

  /** The dialog `handleBedClick` opens. */
  datatype Menu = AdmissionForm | ActionMenu

  class Ward {
    /** The single source of truth; index `i` holds bed `i + 1`. */
    var beds: seq<Bed>
    /** The bed the user last clicked (`null` before any click). */
    var currentBedId: Option<int>
    /** The value stored under `STORAGE_KEY`, as the bed array it encodes. */
    var stored: Option<seq<Bed>>

    ghost predicate Valid()
      reads this
    {
      WellFormed(beds)
    }

    /** The page as loaded: `beds` starts empty (app.js:12), nothing is selected. */
    constructor (stored: Option<seq<Bed>>)
      ensures beds == [] && currentBedId == None && this.stored == stored
    {
      beds := [];
      currentBedId := None;
      this.stored := stored;
    }

    /**
     * `init` (app.js:19-35): restore the saved array if there is one,
     * otherwise push `TOTAL_BEDS` empty beds with ids 1, 2, ... in order.
     */
    method Init()
      modifies this`beds
      ensures stored.Some? ==> beds == stored.value
      ensures stored.None? ==> beds == old(beds) + FreshBeds(TOTAL_BEDS)
      ensures stored.None? && old(beds) == [] ==> Valid()
    {
      if stored.Some? {
        beds := stored.value;
      } else {
        var i := 1;
        while i <= TOTAL_BEDS
          invariant 1 <= i <= TOTAL_BEDS + 1
          invariant beds == old(beds) + FreshBeds(i - 1)
        {
          beds := beds + [Bed(i, Empty, None)];
          i := i + 1;
        }
        FreshIsWellFormed();
      }
    }

    /** `saveState`: the snapshot is overwritten with the whole array. */
    method SaveState()
      modifies this`stored
      ensures stored == Some(beds)
    {
      stored := Some(beds);
    }

    /**
     * `handleBedClick` (app.js:92-108): remember the bed and open the
     * admission form for an empty bed, the action menu otherwise.
     */
    method HandleBedClick(bedId: int) returns (menu: Menu)
      requires 1 <= bedId <= |beds|
      modifies this`currentBedId
      ensures currentBedId == Some(bedId)
      ensures menu == AdmissionForm <==> beds[bedId - 1].status == Empty
    {
      currentBedId := Some(bedId);
      if beds[bedId - 1].status == Empty {
        menu := AdmissionForm;
      } else {
        menu := ActionMenu;
      }
    }

    /**
     * The admission form's submit handler (app.js:114-142), reachable only
     * from the form opened on an empty bed. `now` is the admission instant
     * in milliseconds; `visitDate` and `visitTime` are its locale strings.
     */
    method Admit(name: string, mrn: string, diagnosis: string, visitDate: string, visitTime: string, now: int)
      returns (event: Event)
      requires Valid()
      requires currentBedId.Some? && 1 <= currentBedId.value <= |beds|
      requires beds[currentBedId.value - 1].status == Empty
      modifies this`beds, this`stored
      ensures Valid()
      ensures var p := Patient(name, mrn, diagnosis, visitDate, visitTime, now);
              beds == AdmitBeds(old(beds), currentBedId.value, p) &&
              event == AdmitEvent(currentBedId.value, p)
      ensures stored == Some(beds)
    {
      var p := Patient(name, mrn, diagnosis, visitDate, visitTime, now);
      var index := currentBedId.value - 1;
      beds := beds[index := beds[index].(status := Occupied)];
      beds := beds[index := beds[index].(patient := Some(p))];
      SaveState();
      event := AdmitEvent(currentBedId.value, p);
    }

    /**
     * `performCheckOut` (app.js:148-167), reachable only from the action
     * menu of an occupied bed. When the user does not confirm nothing
     * happens; otherwise the stay is formatted from the patient's admission
     * instant, the event is built from the record, and the bed is cleared.
     */
    method CheckOut(confirmed: bool, now: int) returns (event: Option<Event>)
      requires Valid()
      requires currentBedId.Some? && 1 <= currentBedId.value <= |beds|
      requires beds[currentBedId.value - 1].status == Occupied
      requires beds[currentBedId.value - 1].patient.value.timestamp <= now
      modifies this`beds, this`stored
      ensures Valid()
      ensures !confirmed ==> beds == old(beds) && stored == old(stored) && event == None
      ensures confirmed ==>
                var p := old(beds)[currentBedId.value - 1].patient.value;
                beds == DischargeBeds(old(beds), currentBedId.value) &&
                stored == Some(beds) &&
                event == Some(DischargeEvent(currentBedId.value, p, FormatDuration(now - p.timestamp)))
    {
      if !confirmed {
        return None;
      }
      ghost var before := beds;
      var index := currentBedId.value - 1;
      var patient := beds[index].patient.value;
      var duration := FormatDuration(now - patient.timestamp);
      event := Some(DischargeEvent(index + 1, patient, duration));
      beds := beds[index := beds[index].(status := Empty)];
      beds := beds[index := beds[index].(patient := None)];
      assert beds[index] == Bed(index + 1, Empty, None);
      assert beds == before[index := Bed(index + 1, Empty, None)];
      DischargeKeepsInvariant(before, index + 1);
      SaveState();
    }

    /**
     * `executeTransfer` (app.js:201-219), reachable only from a button of
     * the transfer list of an occupied bed: `toId` is one of the offered
     * targets. The same patient record moves; the source is cleared.
     */
    method ExecuteTransfer(fromId: int, toId: int) returns (event: Event)
      requires Valid()
      requires 1 <= fromId <= |beds| && beds[fromId - 1].status == Occupied
      requires toId in TargetIds(beds)
      modifies this`beds, this`stored
      ensures Valid()
      ensures 1 <= toId <= |beds| && fromId != toId
      ensures beds == TransferBeds(old(beds), fromId, toId)
      ensures beds[toId - 1].patient == old(beds)[fromId - 1].patient
      ensures event == TransferEvent(fromId, toId, old(beds)[fromId - 1].patient.value)
      ensures stored == Some(beds)
    {
      TargetsAreEmptyBeds(beds);
      ghost var before := beds;
      var fromIndex := fromId - 1;
      var toIndex := toId - 1;
      beds := beds[toIndex := beds[toIndex].(patient := beds[fromIndex].patient)];
      beds := beds[toIndex := beds[toIndex].(status := Occupied)];
      beds := beds[fromIndex := beds[fromIndex].(patient := None)];
      beds := beds[fromIndex := beds[fromIndex].(status := Empty)];
      assert beds == TransferBeds(before, fromId, toId);
      TransferKeepsInvariant(before, fromId, toId);
      event := Payload(TRANSFER, fromId, beds[toIndex].patient.value, None, "To Bed " + NatToString(toId));
      SaveState();
    }
  }

  /**
   * The board from a fresh start through an admission into bed 3 and its
   * discharge an hour, a minute and a second later.
   */
  method AdmitDischargeScenario(t: int) {
    var ward := new Ward(None);
    ward.Init();
    ghost var initial := ward.beds;
    assert initial == FreshBeds(TOTAL_BEDS);
    var menu := ward.HandleBedClick(3);
    assert menu == AdmissionForm;
    var admitted := ward.Admit("A", "001", "flu", "d", "h", t);
    ghost var p := Patient("A", "001", "flu", "d", "h", t);
    assert admitted == AdmitEvent(3, p);
    menu := ward.HandleBedClick(3);
    assert menu == ActionMenu;
    var discharged := ward.CheckOut(true, t + 3661000);
    FormatExamples();
    assert discharged.value.action == DISCHARGE && discharged.value.duration == Some("00:01:01:01");
    AdmitThenDischarge(initial, 3, p);
    assert ward.beds == initial;
  }
}
