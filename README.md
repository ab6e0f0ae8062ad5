# Emergency ward bed board: the bed-occupancy engine

This project models the bed-occupancy engine of the ward board in `app.js`
and proves properties of it in Dafny. The board has `TOTAL_BEDS = 9` bed
records `{id, status, patient}`, and index `i` holds bed `i + 1`. The engine
consists of:

- three transitions that change the records in place: admission,
  discharge (check-out) and transfer;
- the empty-bed filter, which decides which beds are offered as transfer
  targets;
- the elapsed-time formatter `formatDuration` (`dd:hh:mm:ss`);
- the 2-hour and 4-hour severity thresholds of the live timer;
- the event record that `syncData` sends after each transition.

Every bed keeps one invariant: it is occupied exactly when it holds a
patient. A transfer moves the same patient record, with its admission
`timestamp`, to the new bed, so moving a patient does not restart the
length-of-stay clock.

Files:

- `wrappers.dfy`: `Option`, where `None` stands for `null`.
- `duration.dfy` (module `DurationFormatter`):
  - `formatDuration`, and the severity rule as `Classify`;
  - `ParseDuration`, a reader for the text. It is not in the source. It is
    used to prove that the text loses no information.
- `beds.dfy` (module `BedState`):
  - the `Patient` and `Bed` records and the invariant;
  - the three transitions, each as a function giving the new bed array;
  - the empty-bed filter;
  - the timer reading of one bed.
- `sync.dfy` (module `SyncDispatcher`): the outbound payload, and the event
  that each transition builds.
- `ward.dfy` (module `WardApp`):
  - class `Ward`, which holds the page state that the source keeps in
    module-level variables: `beds`, `currentBedId` and the local-storage
    snapshot;
  - `Init`, whose loop is proved to append `FreshBeds(9)` when nothing
    is stored; `HandleBedClick`, which records the clicked bed and picks the
    dialog; `SaveState`, which overwrites the snapshot;
  - `Admit`, `CheckOut` and `ExecuteTransfer`, which update the beds field
    by field, as the source does. Each is proved against its transition
    function in `BedState` (`AdmitBeds`, `DischargeBeds`, `TransferBeds`).
  - `AdmitDischargeScenario`: a client that starts from a fresh board,
    admits a patient to bed 3, and discharges them 3661000 ms later. It
    gets the event duration `00:01:01:01` and the starting board back, using
    only the contracts.

Preconditions: the source has no run-time guards. The user interface
offers each action only where it applies, and the model states those
conditions as `requires` clauses:

- admission only on an empty bed (app.js:96-100);
- check-out and transfer only from the action menu of an occupied bed
  (app.js:101-106);
- transfer targets only from the empty-bed list (app.js:181, 189-194).

Line 12 (`let beds =;`) is not valid syntax. The `push` calls in `init`
show that it is an empty array, and the `Ward` constructor models it that
way.

Behaviour of the code worth noting:

- The transfer call passes `null` explicitly as `duration`. A JavaScript
  default parameter applies only to `undefined`, so a TRANSFER event has a
  `null` duration, not `""`. ADMIT events have `""` (the default), and
  DISCHARGE events have the formatted stay.
- The transitions check nothing themselves. Admitting into an occupied
  bed, or transferring into one, cannot be reached through the user
  interface, so the model states these cases as preconditions and has no
  error path for them.
- The source does not guard against transferring a bed onto itself. That
  would clear the bed and lose the patient. The user interface rules it
  out, because the source bed is occupied and the target is empty.
  `ExecuteTransfer` proves `fromId != toId` from its preconditions.

## Model

| member | source | states |
|---|---|---|
| `DurationFormatter.Decompose` | app.js:252-256 | elapsed ms splits into days, hours < 24, minutes < 60, seconds < 60 whose total is exactly `floor(ms / 1000)` seconds |
| `DurationFormatter.DecomposeUnique` | app.js:252-256 | any normalised clock with that many seconds is the decomposition, so the displayed fields are determined by the elapsed whole seconds |
| `DurationFormatter.NatToString` | app.js:258 | `n.toString()` is a digit string of value `n`, one character exactly for `n < 10`, with no leading zero |
| `DurationFormatter.Pad` | app.js:258 | `padStart(2, '0')` gives at least two digits (exactly two below 100) denoting `n`, with no leading zero when longer than two |
| `DurationFormatter.FormatDuration` | app.js:250-265 | `formatDuration` with both of its branches; its contract is stated by `FormatIsFourFields` (fixed four-field text) and `FormatParse` (the text reads back as the decomposition) |
| `DurationFormatter.FormatIsFourFields` | app.js:260-264 | both branches of `formatDuration` give the same fixed four-field `dd:hh:mm:ss` rendering; the days-zero branch agrees with padding 0 |
| `DurationFormatter.RenderParse` | app.js:262 | the four-field rendering reads back as the clock it came from |
| `DurationFormatter.FormatParse` | app.js:250-265 | round trip: the text of `formatDuration(ms)` reads back as the decomposition, whose fields add up to `floor(ms / 1000)` seconds |
| `DurationFormatter.FormatExamples` | app.js:250-265 | `formatDuration(0) = "00:00:00:00"`, `formatDuration(3661000) = "00:01:01:01"`, 90000000 ms starts with day field `01` |
| `DurationFormatter.Classify` | app.js:237-244 | critical iff the wait is at least 4 h, warning iff at least 2 h and under 4 h, normal iff under 2 h (lower bounds inclusive) |
| `DurationFormatter.ClassifyMonotone` | app.js:237-244 | a longer wait is never classified less severe |
| `DurationFormatter.ClassifyMatchesClock` | app.js:232-244 | the colour agrees with the displayed clock: critical iff days > 0 or hours >= 4, warning iff no days and hours 2 or 3 |
| `BedState.FreshBeds` | app.js:26-34 | the fresh-state branch yields exactly n beds, index i holding `{id: i+1, status: empty, patient: null}` |
| `BedState.FreshIsWellFormed` | app.js:24-34 | a fresh board has `TOTAL_BEDS` beds numbered 1..9 in index order, all empty, and satisfies the invariant |
| `BedState.AdmitBeds` | app.js:131-133 | admission makes bed b occupied with the new patient, keeps its id, and leaves every other bed unchanged |
| `BedState.DischargeBeds` | app.js:151-162 | discharge leaves bed b empty with no patient, keeps its id, and leaves every other bed unchanged |
| `BedState.TransferBeds` | app.js:201-211 | transfer puts the source's patient record at the target (occupied), clears the source, and leaves every other bed unchanged |
| `BedState.AdmitKeepsInvariant` | app.js:132-133 | admission keeps "occupied iff patient present" and the numbering for every bed |
| `BedState.DischargeKeepsInvariant` | app.js:161-162 | discharge keeps the invariant and the numbering |
| `BedState.TransferKeepsInvariant` | app.js:206-211 | transfer from an occupied bed keeps the invariant and the numbering |
| `BedState.AdmitThenDischarge` | app.js:131-162 | admitting into an empty bed and then discharging it restores the whole board exactly |
| `BedState.TransferConservesPatients` | app.js:205-211 | a transfer between different beds into an empty one leaves every patient record held by as many beds as before: moved, never duplicated or lost |
| `BedState.EmptyBeds` | app.js:181 | the filter keeps exactly the empty beds of the array |
| `BedState.FreshTargets` | app.js:181 | on a fresh board the offered targets are beds 1 to 9 in order |
| `BedState.TargetIds` | app.js:189-196 | the ids on the transfer buttons, in filter order; its contract is stated by `TargetsAreEmptyBeds`, `TargetsAscending` and `NoTargetsIffFull` |
| `BedState.TargetsAreEmptyBeds` | app.js:181-194 | an id is offered as a transfer target iff it names an empty bed |
| `BedState.TargetsAscending` | app.js:181-194 | targets are offered in strictly ascending id order |
| `BedState.NoTargetsIffFull` | app.js:181-186 | the target list is empty iff every bed is occupied |
| `BedState.OpenTransferMode` | app.js:174-199 | transfer mode is refused (alert) iff every bed is occupied; otherwise the offered list is exactly `TargetIds`: the empty beds' ids, ascending |
| `BedState.TimerReading` | app.js:228-244 | an occupied bed shows a reading, an empty one none; the text is `FormatDuration(now - timestamp)`, which reads back as the decomposition of `now - timestamp` and the severity is `Classify(now - timestamp)` |
| `BedState.TransferKeepsClock` | app.js:169-173 | after a transfer the target holds the same patient record and shows, at any instant, the reading the source showed: the stay is not reset |
| `SyncDispatcher.Payload` | app.js:283-292 | the event copies action, bed id, duration, name, mrn, visitDate and visitTime; its diagnosis starts with the patient's, equals it iff notes are empty, and the notes read back from the ` (notes)` tail |
| `SyncDispatcher.AdmitEvent` | app.js:141 | an ADMIT event carries the bed id, the patient's name, MRN, visit date and visit time, the diagnosis unchanged and duration `""` |
| `SyncDispatcher.DischargeEvent` | app.js:155-158 | a DISCHARGE event carries the bed id, the patient's name, MRN, visit date and visit time, the diagnosis unchanged and the given duration |
| `SyncDispatcher.TransferEvent` | app.js:214 | a TRANSFER event carries the source bed id, the patient's name, MRN, visit date and visit time, and a `null` duration, and its diagnosis note is `To Bed <n>` with the digits reading back as the target id and no leading zero |
| `WardApp.Ward.constructor` | app.js:12 | the page starts with no beds, no bed selected and the stored snapshot it was given |
| `WardApp.Ward.Init` | app.js:19-35 | with a stored snapshot the beds are that snapshot; otherwise the loop appends `FreshBeds(9)`, a valid board when started from `[]` |
| `WardApp.Ward.SaveState` | app.js:270-272 | the snapshot is overwritten with the whole bed array |
| `WardApp.Ward.HandleBedClick` | app.js:92-108 | records the clicked bed and opens the admission form iff the bed is empty, otherwise the action menu |
| `WardApp.Ward.Admit` | app.js:114-142 | the board becomes `AdmitBeds` with a patient stamped `now`, stays valid, is saved, and the ADMIT event is returned |
| `WardApp.Ward.CheckOut` | app.js:148-167 | unconfirmed: nothing changes; confirmed: the event with the stay formatted from the patient's timestamp, then the board becomes `DischargeBeds`, stays valid and is saved |
| `WardApp.Ward.ExecuteTransfer` | app.js:201-219 | for a target from the empty-bed list: the board becomes `TransferBeds` with the identical record at the target, stays valid, is saved, and the TRANSFER event is returned |

## Left out

- Rendering (`renderGrid`, the DOM side of `handleBedClick`, `closeModal`,
  the colour assignments to `el.style`): user-interface only. The colour
  rule is kept as `Classify`, and the per-bed reading as `TimerReading`.
- `fetch` to the logging endpoint, and the status indicator updated by its
  `.then`/`.catch`: network input and output with no readable response.
  Only the payload value is modelled. Each transition returns its payload
  as an out-parameter.
- `localStorage` and `JSON.parse`/`JSON.stringify`: foreign persistence and
  serialisation. The stored value is modelled as the bed array it encodes
  (the field `stored`). Decoding arbitrary saved text, and its validity, is
  not modelled.
- `setInterval` polling, and the `confirm`/`alert` dialogs. The answer to
  `confirm` is the `confirmed` parameter of `CheckOut`. The alert is the
  `None` result of `OpenTransferMode`.
- `Date`, `toLocaleDateString` and `toLocaleTimeString` are
  locale-dependent. `visitDate` and `visitTime` are opaque string
  parameters, and the current instant is an integer parameter `now`.
- The floating-point division `diff / 3600000` in the colour rule is
  modelled as the equivalent integer comparison on milliseconds.
- Negative elapsed time (clock skew): the source does not handle it.
  `FormatDuration` takes `ms >= 0`, and `CheckOut` and `TimerReading`
  require `now` not before the admission instant.
- The bed records are values in a sequence. Object identity and aliasing of
  the bed and patient objects are not modelled: no other reference to them
  is kept. "The identical patient record" is modelled as an equal value.
