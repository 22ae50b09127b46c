# Hospital record store, modelled in Dafny

This project models the `Hospital` record store of a small clinical
scheduling system (`hms.cpp`). The store is in memory. It has three tables,
patients, doctors and appointments, each kept in insertion order. It also has
three id counters that start at 1. The operations are:

- add, update and delete for patients;
- add and delete for doctors;
- create, cancel and mark-done for appointments;
- list and search, which produce `|`-separated, newline-terminated text;
- `getStats`, which produces a JSON object with six fixed keys.

The model is functional. `Hospital.Store` is an immutable datatype. Every
mutating operation is a pure function from a store to a `Reply(store, result)`.
Appointment status is the enum `Records.Status`. Its text form is one of the
three literals the source assigns. The `Hospital.Valid` predicate states the
consistency the operations keep:

- every stored id was issued by its counter, so it is positive and below the counter;
- ids increase along each table, so they are unique within it;
- every appointment names a live patient and a doctor id that was issued.

The doctor of an appointment may since have been deleted.

The text outputs are paired with readers. A reader splits on `\n`, then on
`|`, and parses the integers; this is how the browser front end consumes the
text. The readers exist so that the layout of each row can be stated as a
round trip. The readers are not part of the source.

Modules, one per concern:

| file | module | contents |
|---|---|---|
| seqs.dfy | `Options`, `Seqs` | option type; order-preserving filter, first-match search, map |
| text.dfy | `Text` | ASCII lowercasing, substring search, decimal integers, split/join |
| wire.dfy | `Wire` | the row/line text format and its reader |
| records.dfy | `Records` | `Patient`, `Doctor`, `Appointment`, `Status`, row encodings |
| hospital.dfy | `Hospital` | the store, its invariant, all mutating operations |
| invariants.dfy | `Invariants` | exact effects on consistent stores; consistency preserved |
| queries.dfy | `Queries` | list and search operations |
| stats.dfy | `Stats` | `getStats` (a loop, as in the source) and its JSON text |
| sessions.dfy | `Sessions` | sequences of calls: ids increase and are never reused |

## Model

| member | source | states |
|---|---|---|
| Hospital.FindPatient | hms.cpp:50-53 | Returns the index of the first patient with the id. Returns none exactly when no patient has it. |
| Hospital.FindDoctor | hms.cpp:54-57 | Returns the index of the first doctor with the id. Returns none exactly when no doctor has it. |
| Hospital.FindAppointment | hms.cpp:58-61 | Returns the index of the first appointment with the id. Returns none exactly when no appointment has it. |
| Invariants.InitialValid | hms.cpp:43-48 | The empty store, with every counter at 1, is consistent. |
| Invariants.IdsUnique | hms.cpp:46-48 | On a consistent store, no two rows of one table share an id. |
| Hospital.AddPatient | hms.cpp:65-74 | `addPatient` returns the patient counter's value and advances the counter by one. It appends a row with that id and the given fields. The id is then held by a patient. Nothing else changes. |
| Invariants.AddPatientFresh | hms.cpp:65-74 | `addPatient` returns the counter's value. That value is positive, above every stored patient id, and held by no patient. The row is appended last and the counter moves one past it. Nothing else changes and consistency is kept. |
| Hospital.UpdatePatient | hms.cpp:76-84 | Succeeds exactly when a patient with the id exists. On failure the store is unchanged. Otherwise only the patient table changes, with the same length, order and ids. Rows with other ids are untouched, and the new field values are present under the id. |
| Invariants.UpdatePatientExact | hms.cpp:76-84 | On a consistent store, exactly the row with the id is replaced by the new values, in place. Consistency is kept. |
| Hospital.DeletePatient | hms.cpp:86-96 | Succeeds exactly when a patient with the id exists, and changes nothing otherwise. On success the remaining patients are exactly those without the id. The remaining appointments are exactly those whose patient is not the id, whatever their status. Every surviving row keeps all of its copies, so a repeated row is not collapsed. Both tables keep their relative order. Doctors and counters are untouched. |
| Invariants.DeletePatientReferential | hms.cpp:92-94 | The cascade keeps every surviving appointment pointing at a live patient. |
| Invariants.DeletePatientKeepsValid | hms.cpp:86-96 | After the call, no patient and no appointment refers to the id, and the store is consistent. |
| Hospital.AddDoctor | hms.cpp:125-133 | `addDoctor` returns the doctor counter's value and advances the counter by one. It appends a row with that id and the given fields. The id is then held by a doctor. Nothing else changes. |
| Invariants.AddDoctorFresh | hms.cpp:125-133 | `addDoctor` returns a fresh positive doctor id above every stored one. The row is appended last and the counter advances. Nothing else changes and consistency is kept. |
| Hospital.DeleteDoctor | hms.cpp:135-145 | Succeeds exactly when a doctor with the id exists, and changes nothing otherwise. On success the remaining doctors are exactly those without the id, every copy kept, in order. The appointment table keeps its length and order. Every appointment keeps all fields but status. Status becomes cancelled exactly for that doctor's appointments. |
| Invariants.DeleteDoctorKeepsValid | hms.cpp:135-145 | After the call, the doctor is gone and the store is consistent. On success, that doctor's appointments are all cancelled and none is removed. |
| Hospital.CreateAppointment | hms.cpp:176-178 | If the patient or the doctor is missing, it returns -1 and the store is unchanged, counter included. |
| Invariants.CreateAppointmentSpec | hms.cpp:176-188 | It returns -1 exactly when the patient or the doctor is missing. Otherwise the id is positive, fresh and above every stored appointment id. A `Scheduled` row with the given fields is appended last and the counter advances. Consistency is kept. |
| Hospital.CancelAppointment | hms.cpp:190-196 | Succeeds exactly when the id exists, and changes nothing otherwise. Only the appointment table changes, and its length stays the same. Rows with other ids are untouched. Every row keeps its id, patient, doctor, date-time and reason. A row with the id is now cancelled, whatever its previous status. |
| Hospital.MarkAppointmentDone | hms.cpp:198-204 | The same as cancel, with status done. Every row keeps all fields but status. |
| Invariants.SetStatusExact | hms.cpp:190-204 | On a consistent store, exactly the appointment with the id gets the new status. Consistency is kept. |
| Invariants.CancelAppointmentIdempotent | hms.cpp:190-196 | Cancelling twice equals cancelling once. |
| Invariants.MarkAppointmentDoneIdempotent | hms.cpp:198-204 | Marking done twice equals marking done once. |
| Records.StatusText | hms.cpp:38 | Each status has one of the three literals, and reading the literal back gives the status. |
| Records.PatientFields | hms.cpp:102-103 | A patient row has six fields in the order id, name, age, gender, address, phone. The id and age are written in canonical decimal, as `operator<<` writes them. The patient is recovered from them. |
| Records.DoctorFields | hms.cpp:151-152 | A doctor row has five fields in the order id, name, age, gender, specialization. The id and age are written in canonical decimal. The doctor is recovered from them. |
| Records.AppointmentFields | hms.cpp:210-211 | An appointment row has six fields in the order id, patient_id, doctor_id, datetime, reason, status. The three ids are written in canonical decimal. The appointment is recovered from them. |
| Wire.RenderThenRead | hms.cpp:101-105 | Rows written as `|`-joined, `\n`-terminated lines read back as the same rows, one per line, when no field contains a delimiter. |
| Queries.ListPatients | hms.cpp:98-106 | `listPatients` writes nothing exactly when there are no patients. Otherwise its output ends with a newline. |
| Queries.ListPatientsReadBack | hms.cpp:98-106 | `listPatients` emits one line per patient, in table order. Split back into fields, each line is exactly that patient's row fields, with the id and age in canonical decimal. It reads back as the patient table. |
| Queries.ListDoctors | hms.cpp:147-155 | `listDoctors` writes nothing exactly when there are no doctors. Otherwise its output ends with a newline. |
| Queries.ListDoctorsReadBack | hms.cpp:147-155 | `listDoctors` emits one line per doctor, in table order. Split back into fields, each line is exactly that doctor's row fields, with the id and age in canonical decimal. It reads back as the doctor table. |
| Queries.ListAppointments | hms.cpp:206-214 | `listAppointments` writes nothing exactly when there are no appointments. Otherwise its output ends with a newline. |
| Queries.ListAppointmentsReadBack | hms.cpp:206-214 | `listAppointments` emits one line per appointment, in table order. Split back into fields, each line is exactly that appointment's row fields, with the three ids in canonical decimal. It reads back as the appointment table, status included. |
| Text.Contains | hms.cpp:116 | True exactly when the needle occurs at some position of the haystack. |
| Text.LowerSpec | hms.cpp:111 | Lowercasing maps only `A`-`Z` to `a`-`z`, leaves every other character, and is idempotent. |
| Text.ParseIntToString | hms.cpp:102 | The decimal form of an integer, with a sign when negative, reads back as the integer. |
| Text.IntToStringInjective | hms.cpp:116 | Two integers have the same decimal form exactly when they are equal. |
| Queries.MatchingPatients | hms.cpp:108-122 | The selected patients keep table order. A patient is selected exactly when the lowercased term occurs in its lowercased name, or the term equals its decimal id. Each selected row appears as often as in the table. |
| Queries.SearchPatients | hms.cpp:108-122 | `searchPatients` writes nothing exactly when no patient matches the term. Otherwise its output ends with a newline. |
| Queries.SearchPatientsReadBack | hms.cpp:113-121 | `searchPatients` prints exactly the selected patients, as list lines whose fields are exactly those rows' fields. It reads back as the selection. |
| Queries.SearchPatientsEmptyTerm | hms.cpp:110-116 | With an empty term, the search output equals `listPatients`. |
| Queries.SearchPatientsById | hms.cpp:116 | Searching a stored patient's id selects that patient. Any other patient is selected only if its name contains the term, so id 1 does not select id 10. |
| Queries.AddThenSearchPatientById | hms.cpp:108-122 | Searching the id of a just-added patient yields exactly that patient, provided no earlier patient's name contains the number. |
| Queries.MatchingDoctors | hms.cpp:157-173 | The same rule as for patients, with the specialization searched as well as the name. Each selected row appears as often as in the table. |
| Queries.SearchDoctors | hms.cpp:157-173 | `searchDoctors` writes nothing exactly when no doctor matches the term. Otherwise its output ends with a newline. |
| Queries.SearchDoctorsReadBack | hms.cpp:162-171 | `searchDoctors` prints exactly the selected doctors, as list lines whose fields are exactly those rows' fields. It reads back as the selection. |
| Queries.SearchDoctorsEmptyTerm | hms.cpp:159-167 | With an empty term, the search output equals `listDoctors`. |
| Queries.SearchDoctorsById | hms.cpp:167 | Searching a stored doctor's id selects that doctor. Any other doctor is selected only if its name or specialization contains the term. |
| Stats.StatusCountsSum | hms.cpp:221-226 | The scheduled, done and cancelled counts add up to the number of appointments. |
| Stats.CountsOf | hms.cpp:218-226 | The counts from a full scan satisfy scheduled + done + cancelled = appointments. |
| Stats.ReadMembersOf | hms.cpp:227-236 | Each of the six `"key":value` members reads back as its value under its own key and contains no ','. |
| Stats.ParseStatsJson | hms.cpp:227-236 | The statistics object has six keys in fixed order and reads back as the counts. |
| Stats.GetStats | hms.cpp:216-237 | The counting loop yields the table sizes and the per-status counts. The resulting text reads back as those counts. |
| Sessions.ApplyKeepsValid | hms.cpp:63-237 | Every mutating call keeps the store consistent. |
| Sessions.SessionKeepsValid | hms.cpp:63-237 | Every store that a sequence of calls passes through from a consistent start is consistent. |
| Sessions.ApplyCounters | hms.cpp:46-48 | Counters never decrease. A call that issues an id issues the counter's value and moves that counter one past it. |
| Sessions.StepCounter | hms.cpp:46-48 | No single call of a sequence lowers any of the three counters. |
| Sessions.CountersMonotone | hms.cpp:46-48 | Over a sequence of calls, each counter at a later point is at least its value at any earlier point. |
| Sessions.IssuedIdsIncrease | hms.cpp:46-48 | Within a sequence of calls, ids of one kind are issued in strictly increasing order, deletions notwithstanding. |
| Sessions.IssuedIdIsFresh | hms.cpp:46-48 | An issued id is held by no row of its table at the moment of issue or at any earlier point, so ids are never reused. |
| Sessions.AliceBobScenario | hms.cpp:65-237 | The worked example: add Alice, add Bob, book, mark done, then delete Alice. The stats become 1/1/1/0/1/0, and after the delete the appointment table is empty. |

## Left out

- The `extern "C"` functions and the `last_return` buffer (hms.cpp:240-301) are foreign-call glue. The model takes plain strings, so null-to-empty coercion does not arise, and each result is returned directly.
- `global_mutex` and the lock guards serve concurrency only. Each operation is modelled as one atomic step, and a session is a total order of such steps.
- 32-bit `int` arithmetic is not modelled. Ids, counters and ages are unbounded integers, so counter overflow after 2^31 - 1 insertions is not modelled.
- `::tolower` depends on the locale. The model lowercases ASCII only (`A`-`Z` to `a`-`z`).
- script.js is the browser UI (DOM, local storage, dialogs). It is not part of this model.
- Hospital.UpdatePatient: its own contract does not say which row changes when several rows share the id. The source changes the first. Invariants.UpdatePatientExact pins the effect down on consistent stores, the only ones the operations produce.
- Hospital.CancelAppointment: when several rows share the id, its own contract does not say which one is cancelled. The source changes the first. It does say that no row changes anything but its status. Invariants.SetStatusExact pins down which row changes on consistent stores, where ids are unique.
- Hospital.MarkAppointmentDone: as for Hospital.CancelAppointment.
- Hospital.CreateAppointment: its own contract covers only the refusal. The success case is stated by Invariants.CreateAppointmentSpec, which needs a consistent store so that the counter is never -1.
- Queries.ListPatients: its own contract gives only emptiness and the final newline. The exact line fields, canonical integers included, are stated by Queries.ListPatientsReadBack, which needs delimiter-free fields.
- Queries.ListDoctors: its own contract gives only emptiness and the final newline. The exact line fields, canonical integers included, are stated by Queries.ListDoctorsReadBack, which needs delimiter-free fields.
- Queries.ListAppointments: its own contract gives only emptiness and the final newline. The exact line fields, canonical integers included, are stated by Queries.ListAppointmentsReadBack, which needs delimiter-free fields.
- Queries.SearchPatients: its own contract gives only emptiness and the final newline. The exact line fields, canonical integers included, are stated by Queries.SearchPatientsReadBack, which needs delimiter-free fields.
- Queries.SearchDoctors: its own contract gives only emptiness and the final newline. The exact line fields, canonical integers included, are stated by Queries.SearchDoctorsReadBack, which needs delimiter-free fields.
- Queries.ListPatientsReadBack: the round trip holds only when no text field contains `|` or a newline. The source does no escaping. The same limit applies to the other read-back lemmas.
- Queries.AddThenSearchPatientById: "exactly one row" needs the side condition that no earlier patient's name contains the digits. The code also selects name matches, so without that condition the search may return more rows.

## Notes on behaviour kept as written

- `deletePatient` and `deleteDoctor` use `remove_if`. They remove every row carrying the id, not just the first. Update, cancel, mark-done and the existence checks of `createAppointment` use the first match. The model keeps both choices.
- Cancel and mark-done have no guard on the previous status. So a cancelled appointment whose doctor was deleted can later be marked done. The model keeps this. For that reason it does not claim that appointments of deleted doctors stay cancelled.
- Deleting a patient removes that patient's appointments. Deleting a doctor only cancels that doctor's appointments. Both cascades are modelled as written.
