/**
 * The ward's bed collection as a value: the records kept in the `beds`
 * array of app.js, the three transitions as functions on that array, the
 * empty-bed filter that offers transfer targets, and the per-bed timer
 * reading.
 */
module BedState {
  import opened Wrappers
  import opened DurationFormatter

  /** Number of beds on the board (app.js:6). */
  const TOTAL_BEDS := 9

  datatype Status = Empty | Occupied

  /**
   * The patient record created at admission. `timestamp` is the admission
   * instant in epoch milliseconds; `visitDate` and `visitTime` are the
   * locale strings printed from that same instant.
   */
  datatype Patient = Patient(name: string, mrn: string, diagnosis: string,
                             visitDate: string, visitTime: string, timestamp: int)

  /** One bed record `{id, status, patient}`; `patient == None` is `null`. */
  datatype Bed = Bed(id: int, status: Status, patient: Option<Patient>)

  /** The invariant of every bed: occupied exactly when it holds a patient. */
  predicate Coherent(b: Bed) {
    b.status == Occupied <==> b.patient.Some?
  }

  /** `TOTAL_BEDS` beds where index `i` holds bed `i + 1`. */
  predicate Numbered(beds: seq<Bed>) {
    |beds| == TOTAL_BEDS && forall i :: 0 <= i < |beds| ==> beds[i].id == i + 1
  }

  predicate WellFormed(beds: seq<Bed>) {
    Numbered(beds) && forall i :: 0 <= i < |beds| ==> Coherent(beds[i])
  }

  /** The beds pushed by the fresh-state branch of `init`, ids 1..n. */
  function FreshBeds(n: nat): (beds: seq<Bed>)
    ensures |beds| == n
    ensures forall i :: 0 <= i < n ==> beds[i] == Bed(i + 1, Empty, None)
  {
    if n == 0 then [] else FreshBeds(n - 1) + [Bed(n, Empty, None)]
  }

  /** A fresh board satisfies the invariant and has every bed empty. */
  lemma FreshIsWellFormed()
    ensures WellFormed(FreshBeds(TOTAL_BEDS))
    ensures forall i :: 0 <= i < TOTAL_BEDS ==> FreshBeds(TOTAL_BEDS)[i].status == Empty
  {
  }

  // ---------------------------------------------------------------------------
  // The three transitions, as the new value of the array
  // ---------------------------------------------------------------------------

  /** Admission into bed `id`: occupied, holding `p`; every other bed as before. */
  function AdmitBeds(beds: seq<Bed>, id: int, p: Patient): (r: seq<Bed>)
    requires 1 <= id <= |beds|
    ensures |r| == |beds|
    ensures r[id - 1] == Bed(beds[id - 1].id, Occupied, Some(p))
    ensures forall i :: 0 <= i < |beds| && i != id - 1 ==> r[i] == beds[i]
  {
    beds[id - 1 := beds[id - 1].(status := Occupied, patient := Some(p))]
  }

  /** Discharge of bed `id`: empty, no patient; every other bed as before. */
  function DischargeBeds(beds: seq<Bed>, id: int): (r: seq<Bed>)
    requires 1 <= id <= |beds|
    ensures |r| == |beds|
    ensures r[id - 1] == Bed(beds[id - 1].id, Empty, None)
    ensures forall i :: 0 <= i < |beds| && i != id - 1 ==> r[i] == beds[i]
  {
    beds[id - 1 := beds[id - 1].(status := Empty, patient := None)]
  }

  /**
   * Transfer from bed `from` to bed `to`, in the order app.js:206-211 writes
   * it: the target takes the source's patient record and becomes occupied,
   * then the source is cleared.
   */
  function TransferBeds(beds: seq<Bed>, from: int, to: int): (r: seq<Bed>)
    requires 1 <= from <= |beds| && 1 <= to <= |beds|
    ensures |r| == |beds|
    ensures from != to ==> r[to - 1] == Bed(beds[to - 1].id, Occupied, beds[from - 1].patient)
    ensures r[from - 1] == Bed(beds[from - 1].id, Empty, None)
    ensures forall i :: 0 <= i < |beds| && i != from - 1 && i != to - 1 ==> r[i] == beds[i]
  {
    var moved := beds[to - 1 := beds[to - 1].(patient := beds[from - 1].patient, status := Occupied)];
    moved[from - 1 := moved[from - 1].(patient := None, status := Empty)]
  }

  lemma AdmitKeepsInvariant(beds: seq<Bed>, id: int, p: Patient)
    requires WellFormed(beds) && 1 <= id <= |beds|
    ensures WellFormed(AdmitBeds(beds, id, p))
  {
  }

  lemma DischargeKeepsInvariant(beds: seq<Bed>, id: int)
    requires WellFormed(beds) && 1 <= id <= |beds|
    ensures WellFormed(DischargeBeds(beds, id))
  {
  }

  /** Transfer keeps the invariant when its source is occupied. */
  lemma TransferKeepsInvariant(beds: seq<Bed>, from: int, to: int)
    requires WellFormed(beds) && 1 <= from <= |beds| && 1 <= to <= |beds|
    requires beds[from - 1].status == Occupied
    ensures WellFormed(TransferBeds(beds, from, to))
  {
  }

  /** Admitting into an empty bed and discharging it restores the board exactly. */
  lemma AdmitThenDischarge(beds: seq<Bed>, id: int, p: Patient)
    requires WellFormed(beds) && 1 <= id <= |beds| && beds[id - 1].status == Empty
    ensures DischargeBeds(AdmitBeds(beds, id, p), id) == beds
  {
  }

  // ---------------------------------------------------------------------------
  // No patient is duplicated or lost
  // ---------------------------------------------------------------------------

  function Holds(b: Bed, p: Patient): nat {
    if b.patient == Some(p) then 1 else 0
  }

  /** How many beds hold the patient record `p`. */
  function Holding(beds: seq<Bed>, p: Patient): nat {
    if beds == [] then 0 else Holding(beds[..|beds| - 1], p) + Holds(beds[|beds| - 1], p)
  }

  lemma {:induction false} HoldingUpdate(beds: seq<Bed>, i: nat, b: Bed, p: Patient)
    requires i < |beds|
    ensures Holding(beds[i := b], p) + Holds(beds[i], p) == Holding(beds, p) + Holds(b, p)
  {
    var n := |beds|;
    var u := beds[i := b];
    if i == n - 1 {
      assert u[..n - 1] == beds[..n - 1];
    } else {
      assert u[..n - 1] == beds[..n - 1][i := b];
      HoldingUpdate(beds[..n - 1], i, b, p);
    }
  }

  /**
   * A transfer between two different beds, into an empty one, moves the
   * patient record: every record is held by as many beds after as before,
   * so none is duplicated and none is lost.
   */
  lemma TransferConservesPatients(beds: seq<Bed>, from: int, to: int, p: Patient)
    requires 1 <= from <= |beds| && 1 <= to <= |beds| && from != to
    requires beds[to - 1].patient == None
    ensures Holding(TransferBeds(beds, from, to), p) == Holding(beds, p)
  {
    var moved := beds[to - 1 := beds[to - 1].(patient := beds[from - 1].patient, status := Occupied)];
    var cleared := moved[from - 1 := moved[from - 1].(patient := None, status := Empty)];
    HoldingUpdate(beds, to - 1, moved[to - 1], p);
    HoldingUpdate(moved, from - 1, cleared[from - 1], p);
  }

  // ---------------------------------------------------------------------------
  // Transfer targets: beds.filter(b => b.status === 'empty')
  // ---------------------------------------------------------------------------

  /** The empty beds, in array order. */
  function EmptyBeds(beds: seq<Bed>): (r: seq<Bed>)
    ensures |r| <= |beds|
    ensures forall b :: b in r <==> b in beds && b.status == Empty
  {
    if beds == [] then []
    else (if beds[0].status == Empty then [beds[0]] else []) + EmptyBeds(beds[1..])
  }

  /** Ids strictly increasing along the sequence. */
  predicate Ascending(beds: seq<Bed>) {
    forall i, j :: 0 <= i < j < |beds| ==> beds[i].id < beds[j].id
  }

  lemma {:induction false} FilterKeepsOrder(beds: seq<Bed>)
    requires Ascending(beds)
    ensures Ascending(EmptyBeds(beds))
  {
    if beds != [] {
      FilterKeepsOrder(beds[1..]);
      var rest := EmptyBeds(beds[1..]);
      forall j | 0 <= j < |rest| ensures beds[0].id < rest[j].id {
        assert rest[j] in beds[1..];
      }
    }
  }

  /** The ids offered as transfer targets (the buttons of app.js:189-196). */
  function TargetIds(beds: seq<Bed>): seq<int> {
    var e := EmptyBeds(beds);
    seq(|e|, i requires 0 <= i < |e| => e[i].id)
  }

  lemma {:induction false} FilterAllEmpty(beds: seq<Bed>)
    requires forall i :: 0 <= i < |beds| ==> beds[i].status == Empty
    ensures EmptyBeds(beds) == beds
  {
    if beds != [] {
      FilterAllEmpty(beds[1..]);
      assert [beds[0]] + beds[1..] == beds;
    }
  }

  /** On a fresh board every bed, 1 to 9 in order, is offered. */
  lemma FreshTargets()
    ensures |TargetIds(FreshBeds(TOTAL_BEDS))| == TOTAL_BEDS
    ensures forall i :: 0 <= i < TOTAL_BEDS ==> TargetIds(FreshBeds(TOTAL_BEDS))[i] == i + 1
  {
    FilterAllEmpty(FreshBeds(TOTAL_BEDS));
  }

  /** The offered targets are exactly the ids of the empty beds. */
  lemma TargetsAreEmptyBeds(beds: seq<Bed>)
    requires Numbered(beds)
    ensures forall id :: id in TargetIds(beds) <==> 1 <= id <= |beds| && beds[id - 1].status == Empty
  {
    var e := EmptyBeds(beds);
    var t := TargetIds(beds);
    forall id ensures id in t <==> 1 <= id <= |beds| && beds[id - 1].status == Empty {
      if id in t {
        var k :| 0 <= k < |t| && t[k] == id;
        assert e[k] in beds;
      }
      if 1 <= id <= |beds| && beds[id - 1].status == Empty {
        assert beds[id - 1] in e;
        var k :| 0 <= k < |e| && e[k] == beds[id - 1];
        assert t[k] == id;
      }
    }
  }

  /** The targets are offered in ascending id order, each once. */
  lemma TargetsAscending(beds: seq<Bed>)
    requires Numbered(beds)
    ensures forall i, j :: 0 <= i < j < |TargetIds(beds)| ==> TargetIds(beds)[i] < TargetIds(beds)[j]
  {
    FilterKeepsOrder(beds);
  }

  /** No target is offered exactly when every bed is occupied. */
  lemma NoTargetsIffFull(beds: seq<Bed>)
    requires Numbered(beds)
    ensures TargetIds(beds) == [] <==> forall i :: 0 <= i < |beds| ==> beds[i].status == Occupied
  {
    var e := EmptyBeds(beds);
    if e != [] {
      assert e[0] in beds;
    }
  }

  /**
   * `openTransferMode` (app.js:181-196): refused (`None`, the alert) when
   * there is no empty bed, otherwise the target ids.
   */
  function OpenTransferMode(beds: seq<Bed>): (r: Option<seq<int>>)
    ensures r.None? <==> forall i :: 0 <= i < |beds| ==> beds[i].status == Occupied
    ensures r.Some? ==> r.value == TargetIds(beds) && r.value != []
  {
    var e := EmptyBeds(beds);
    if |e| == 0 then
      assert forall i :: 0 <= i < |beds| ==> beds[i] !in e;
      None
    else
      assert e[0] in beds;
      Some(TargetIds(beds))
  }

  // ---------------------------------------------------------------------------
  // The timer reading of one bed (updateTimers)
  // ---------------------------------------------------------------------------

  datatype Reading = Reading(text: string, severity: Severity)

  /**
   * What the timer of a bed shows at instant `now` (app.js:228-244): nothing
   * for an empty bed, otherwise the formatted stay and its severity.
   */
  function TimerReading(b: Bed, now: int): (r: Option<Reading>)
    requires Coherent(b)
    requires b.patient.Some? ==> b.patient.value.timestamp <= now
    ensures r.Some? <==> b.status == Occupied
    ensures r.Some? ==> r.value.text == FormatDuration(now - b.patient.value.timestamp)
    ensures r.Some? ==> ParseDuration(r.value.text) == Some(Decompose(now - b.patient.value.timestamp))
    ensures r.Some? ==> r.value.severity == Classify(now - b.patient.value.timestamp)
  {
    if b.status == Occupied then
      var diff := now - b.patient.value.timestamp;
      FormatParse(diff);
      Some(Reading(FormatDuration(diff), Classify(diff)))
    else None
  }

  /**
   * A transfer does not restart the clock: at any instant the target bed
   * shows what the source bed showed before the move.
   */
  lemma TransferKeepsClock(beds: seq<Bed>, from: int, to: int, now: int)
    requires WellFormed(beds) && 1 <= from <= |beds| && 1 <= to <= |beds| && from != to
    requires beds[from - 1].status == Occupied && beds[from - 1].patient.value.timestamp <= now
    ensures TransferBeds(beds, from, to)[to - 1].patient == beds[from - 1].patient
    ensures TimerReading(TransferBeds(beds, from, to)[to - 1], now) == TimerReading(beds[from - 1], now)
  {
  }
}
