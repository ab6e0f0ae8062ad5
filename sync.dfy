/**
 * The outbound event record built by `syncData` (app.js:278-292). The POST
 * that carries it and the status indicator are not modelled; the record is
 * the value the transitions hand to the dispatcher.
 */
module SyncDispatcher {
  import opened Wrappers
  import opened BedState

  /** The `action` field; the constructor names are the strings sent. */
  datatype Action = ADMIT | DISCHARGE | TRANSFER

  /** The flat record sent for one transition; `duration == None` is `null`. */
  datatype Event = Event(action: Action, bedId: int, name: string, mrn: string,
                         diagnosis: string, visitDate: string, visitTime: string,
                         duration: Option<string>)

  /** The diagnosis sent: the patient's own, with ` (notes)` appended when notes is non-empty. */
  function Annotate(diagnosis: string, notes: string): string {
    diagnosis + (if notes != "" then " (" + notes + ")" else "")
  }

  /** Reads the notes back from the annotated tail of a diagnosis. */
  function Annotation(tail: string): string {
    if |tail| >= 3 && tail[..2] == " (" && tail[|tail| - 1] == ')' then tail[2..|tail| - 1] else ""
  }

  /**
   * The payload of `syncData(action, bedId, patient, duration, notes)`. The
   * patient's fields are copied; the diagnosis keeps the patient's own as a
   * prefix and the notes can be read back from what follows it.
   */
  function Payload(action: Action, bedId: int, patient: Patient, duration: Option<string>, notes: string): (e: Event)
    ensures e.action == action && e.bedId == bedId && e.duration == duration
    ensures e.name == patient.name && e.mrn == patient.mrn
    ensures e.visitDate == patient.visitDate && e.visitTime == patient.visitTime
    ensures |patient.diagnosis| <= |e.diagnosis| && e.diagnosis[..|patient.diagnosis|] == patient.diagnosis
    ensures Annotation(e.diagnosis[|patient.diagnosis|..]) == notes
    ensures e.diagnosis == patient.diagnosis <==> notes == ""
  {
    var d := Annotate(patient.diagnosis, notes);
    assert d[|patient.diagnosis|..] == if notes != "" then " (" + notes + ")" else "";
    Event(action, bedId, patient.name, patient.mrn, d, patient.visitDate, patient.visitTime, duration)
  }

  /**
   * The event of an admission (app.js:141): `syncData("ADMIT", bedId,
   * patient)`, so the duration takes its default "" and there are no notes.
   */
  function AdmitEvent(bedId: int, patient: Patient): (e: Event)
    ensures e.action == ADMIT && e.bedId == bedId
    ensures e.name == patient.name && e.mrn == patient.mrn
    ensures e.visitDate == patient.visitDate && e.visitTime == patient.visitTime
    ensures e.diagnosis == patient.diagnosis && e.duration == Some("")
  {
    Payload(ADMIT, bedId, patient, Some(""), "")
  }

  /** The event of a discharge (app.js:158): the formatted stay as duration, no notes. */
  function DischargeEvent(bedId: int, patient: Patient, duration: string): (e: Event)
    ensures e.action == DISCHARGE && e.bedId == bedId
    ensures e.name == patient.name && e.mrn == patient.mrn
    ensures e.visitDate == patient.visitDate && e.visitTime == patient.visitTime
    ensures e.diagnosis == patient.diagnosis && e.duration == Some(duration)
  {
    Payload(DISCHARGE, bedId, patient, Some(duration), "")
  }

  /**
   * The event of a transfer (app.js:214): the source bed's id, an explicit
   * `null` duration (a default parameter applies only to `undefined`) and
   * the notes "To Bed <target>", from which the target's number reads back.
   */
  function TransferEvent(fromId: int, toId: nat, patient: Patient): (e: Event)
    ensures e.action == TRANSFER && e.bedId == fromId && e.duration == None
    ensures e.name == patient.name && e.mrn == patient.mrn
    ensures e.visitDate == patient.visitDate && e.visitTime == patient.visitTime
    ensures |patient.diagnosis| < |e.diagnosis| && e.diagnosis[..|patient.diagnosis|] == patient.diagnosis
    ensures var notes := Annotation(e.diagnosis[|patient.diagnosis|..]);
            |notes| > 7 && notes[..7] == "To Bed " &&
            DurationFormatter.AllDigits(notes[7..]) && DurationFormatter.DigitsValue(notes[7..]) == toId &&
            (|notes| > 8 ==> notes[7] != '0')
  {
    var notes := "To Bed " + DurationFormatter.NatToString(toId);
    assert notes[7..] == DurationFormatter.NatToString(toId);
    Payload(TRANSFER, fromId, patient, None, notes)
  }
}
