/** The record store (`class Hospital`): three tables kept in insertion
    order and three id counters. Every operation is one atomic step from a
    store to a `Reply` carrying the next store and the caller's result; the
    global lock that makes the source's operations atomic is thereby implicit. */
module Hospital {
  import opened Options
  import opened Seqs
  import opened Records

  datatype Store = Store(
    patients: seq<Patient>,
    doctors: seq<Doctor>,
    appointments: seq<Appointment>,
    nextPatient: int,
    nextDoctor: int,
    nextAppointment: int)

  /** The store after an operation, and what the operation returns. */
  datatype Reply<T> = Reply(store: Store, result: T)

  /** A freshly constructed store: empty tables, every counter at 1. */
  const Initial: Store := Store([], [], [], 1, 1, 1)

  /** What `createAppointment` returns when it refuses. */
  const Refused: int := -1

  function PatientId(p: Patient): int { p.id }
  function DoctorId(d: Doctor): int { d.id }
  function AppointmentId(a: Appointment): int { a.id }

  predicate HasPatient(s: Store, id: int)
  {
    exists i :: 0 <= i < |s.patients| && s.patients[i].id == id
  }

  predicate HasDoctor(s: Store, id: int)
  {
    exists i :: 0 <= i < |s.doctors| && s.doctors[i].id == id
  }

  predicate HasAppointment(s: Store, id: int)
  {
    exists i :: 0 <= i < |s.appointments| && s.appointments[i].id == id
  }

  // ----- the consistency the operations maintain -----

  /** Every stored id was issued by its counter: positive and below it. */
  ghost predicate IdsIssued(s: Store)
  {
    && s.nextPatient >= 1 && s.nextDoctor >= 1 && s.nextAppointment >= 1
    && (forall i :: 0 <= i < |s.patients| ==> 1 <= s.patients[i].id < s.nextPatient)
    && (forall i :: 0 <= i < |s.doctors| ==> 1 <= s.doctors[i].id < s.nextDoctor)
    && (forall i :: 0 <= i < |s.appointments| ==> 1 <= s.appointments[i].id < s.nextAppointment)
  }

  /** Ids increase along each table, so they are unique within it. */
  ghost predicate IdsOrdered(s: Store)
  {
    IncreasingBy(PatientId, s.patients) && IncreasingBy(DoctorId, s.doctors) && IncreasingBy(AppointmentId, s.appointments)
  }

  /** Every appointment names a live patient and a doctor id that was issued
      (the doctor itself may have been deleted since). */
  ghost predicate Referential(s: Store)
  {
    && (forall i :: 0 <= i < |s.appointments| ==> HasPatient(s, s.appointments[i].patientId))
    && (forall i :: 0 <= i < |s.appointments| ==> 1 <= s.appointments[i].doctorId < s.nextDoctor)
  }

  ghost predicate Valid(s: Store)
  {
    IdsIssued(s) && IdsOrdered(s) && Referential(s)
  }

  // ----- lookups (first match, as the source's find* loops) -----

  function PatientIs(id: int): Patient -> bool { (p: Patient) => p.id == id }
  function DoctorIs(id: int): Doctor -> bool { (d: Doctor) => d.id == id }
  function AppointmentIs(id: int): Appointment -> bool { (a: Appointment) => a.id == id }

  function FindPatient(s: Store, id: int): (r: Option<nat>)
    ensures r.Some? ==> r.value < |s.patients| && s.patients[r.value].id == id
    ensures r.Some? ==> forall j :: 0 <= j < r.value ==> s.patients[j].id != id
    ensures r.None? <==> !HasPatient(s, id)
  {
    FirstIndex(PatientIs(id), s.patients)
  }

  function FindDoctor(s: Store, id: int): (r: Option<nat>)
    ensures r.Some? ==> r.value < |s.doctors| && s.doctors[r.value].id == id
    ensures r.Some? ==> forall j :: 0 <= j < r.value ==> s.doctors[j].id != id
    ensures r.None? <==> !HasDoctor(s, id)
  {
    FirstIndex(DoctorIs(id), s.doctors)
  }

  function FindAppointment(s: Store, id: int): (r: Option<nat>)
    ensures r.Some? ==> r.value < |s.appointments| && s.appointments[r.value].id == id
    ensures r.Some? ==> forall j :: 0 <= j < r.value ==> s.appointments[j].id != id
    ensures r.None? <==> !HasAppointment(s, id)
  {
    FirstIndex(AppointmentIs(id), s.appointments)
  }

  // ----- patients -----

  /** Issues the next patient id and appends the row. */
  function AddPatient(s: Store, name: string, age: int, gender: string, address: string, phone: string): (r: Reply<int>)
    ensures r.result == s.nextPatient && r.store.nextPatient == s.nextPatient + 1
    ensures r.store.patients == s.patients + [Patient(r.result, name, age, gender, address, phone)]
    ensures r.store == s.(patients := r.store.patients, nextPatient := r.store.nextPatient)
    ensures HasPatient(r.store, r.result)
  {
    var p := Patient(s.nextPatient, name, age, gender, address, phone);
    assert (s.patients + [p])[|s.patients|] == p;
    Reply(s.(patients := s.patients + [p], nextPatient := s.nextPatient + 1), p.id)
  }

  /** Overwrites every field but the id of the first patient with `id`. */
  function UpdatePatient(s: Store, id: int, name: string, age: int, gender: string, address: string, phone: string): (r: Reply<bool>)
    ensures r.result <==> HasPatient(s, id)
    ensures !r.result ==> r.store == s
    ensures r.store == s.(patients := r.store.patients)
    ensures |r.store.patients| == |s.patients|
    ensures forall i :: 0 <= i < |s.patients| ==> r.store.patients[i].id == s.patients[i].id
    ensures forall i :: 0 <= i < |s.patients| && s.patients[i].id != id ==> r.store.patients[i] == s.patients[i]
    ensures r.result ==> Patient(id, name, age, gender, address, phone) in r.store.patients
  {
    match FindPatient(s, id)
    case None => Reply(s, false)
    case Some(k) =>
      Reply(s.(patients := s.patients[k := Patient(id, name, age, gender, address, phone)]), true)
  }

  function PatientIsNot(id: int): Patient -> bool { (p: Patient) => p.id != id }
  function NotOfPatient(id: int): Appointment -> bool { (a: Appointment) => a.patientId != id }

  /** Removes every patient with `id` and, with them, every appointment of
      that patient whatever its status; fails without effect if there is none. */
  function DeletePatient(s: Store, id: int): (r: Reply<bool>)
    ensures r.result <==> HasPatient(s, id)
    ensures !r.result ==> r.store == s
    ensures r.store == s.(patients := r.store.patients, appointments := r.store.appointments)
    ensures forall p :: p in r.store.patients <==> p in s.patients && p.id != id
    ensures r.result ==> forall a :: a in r.store.appointments <==> a in s.appointments && a.patientId != id
    ensures forall p :: multiset(r.store.patients)[p] == if p.id != id then multiset(s.patients)[p] else 0
    ensures r.result ==> forall a :: multiset(r.store.appointments)[a] == if a.patientId != id then multiset(s.appointments)[a] else 0
    ensures IsSubsequence(r.store.patients, s.patients)
    ensures IsSubsequence(r.store.appointments, s.appointments)
  {
    FilterIsSubsequence(PatientIsNot(id), s.patients);
    FilterIsSubsequence(NotOfPatient(id), s.appointments);
    FilterCounts(PatientIsNot(id), s.patients);
    FilterCounts(NotOfPatient(id), s.appointments);
    SubsequenceReflexive(s.appointments);
    if !HasPatient(s, id) then
      assert Filter(PatientIsNot(id), s.patients) == s.patients by {
        FilterKeepsAll(PatientIsNot(id), s.patients);
      }
      Reply(s, false)
    else
      Reply(s.(patients := Filter(PatientIsNot(id), s.patients),
               appointments := Filter(NotOfPatient(id), s.appointments)), true)
  }

  // ----- doctors -----

  /** Issues the next doctor id and appends the row. */
  function AddDoctor(s: Store, name: string, age: int, gender: string, specialization: string): (r: Reply<int>)
    ensures r.result == s.nextDoctor && r.store.nextDoctor == s.nextDoctor + 1
    ensures r.store.doctors == s.doctors + [Doctor(r.result, name, age, gender, specialization)]
    ensures r.store == s.(doctors := r.store.doctors, nextDoctor := r.store.nextDoctor)
    ensures HasDoctor(r.store, r.result)
  {
    var d := Doctor(s.nextDoctor, name, age, gender, specialization);
    assert (s.doctors + [d])[|s.doctors|] == d;
    Reply(s.(doctors := s.doctors + [d], nextDoctor := s.nextDoctor + 1), d.id)
  }

  function DoctorIsNot(id: int): Doctor -> bool { (d: Doctor) => d.id != id }
  function CancelIfOfDoctor(id: int): Appointment -> Appointment
  {
    (a: Appointment) => if a.doctorId == id then a.(status := Cancelled) else a
  }

  /** Removes every doctor with `id`; that doctor's appointments stay in the
      table but are cancelled. Fails without effect if there is no such doctor. */
  function DeleteDoctor(s: Store, id: int): (r: Reply<bool>)
    ensures r.result <==> HasDoctor(s, id)
    ensures !r.result ==> r.store == s
    ensures r.store == s.(doctors := r.store.doctors, appointments := r.store.appointments)
    ensures forall d :: d in r.store.doctors <==> d in s.doctors && d.id != id
    ensures forall d :: multiset(r.store.doctors)[d] == if d.id != id then multiset(s.doctors)[d] else 0
    ensures IsSubsequence(r.store.doctors, s.doctors)
    ensures |r.store.appointments| == |s.appointments|
    ensures forall i :: 0 <= i < |s.appointments| ==>
      r.store.appointments[i].(status := s.appointments[i].status) == s.appointments[i]
    ensures forall i :: 0 <= i < |s.appointments| ==>
      r.store.appointments[i].status ==
        (if r.result && s.appointments[i].doctorId == id then Cancelled else s.appointments[i].status)
  {
    FilterIsSubsequence(DoctorIsNot(id), s.doctors);
    FilterCounts(DoctorIsNot(id), s.doctors);
    if !HasDoctor(s, id) then
      assert Filter(DoctorIsNot(id), s.doctors) == s.doctors by {
        FilterKeepsAll(DoctorIsNot(id), s.doctors);
      }
      Reply(s, false)
    else
      Reply(s.(doctors := Filter(DoctorIsNot(id), s.doctors),
               appointments := Map(CancelIfOfDoctor(id), s.appointments)), true)
  }

  // ----- appointments -----

  /** Books a scheduled appointment if both parties exist, otherwise refuses
      with `Refused` and changes nothing, the counter included. */
  function CreateAppointment(s: Store, patientId: int, doctorId: int, datetime: string, reason: string): (r: Reply<int>)
    ensures !(HasPatient(s, patientId) && HasDoctor(s, doctorId)) ==> r == Reply(s, Refused)
  {
    if FindPatient(s, patientId).None? || FindDoctor(s, doctorId).None? then Reply(s, Refused)
    else
      var a := Appointment(s.nextAppointment, patientId, doctorId, datetime, reason, Scheduled);
      Reply(s.(appointments := s.appointments + [a], nextAppointment := s.nextAppointment + 1), a.id)
  }

  /** Forces the status of the first appointment with `id`, whatever it was. */
  function SetStatus(s: Store, id: int, status: Status): (r: Reply<bool>)
    ensures r.result <==> HasAppointment(s, id)
    ensures !r.result ==> r.store == s
    ensures r.store == s.(appointments := r.store.appointments)
    ensures |r.store.appointments| == |s.appointments|
    ensures forall i :: 0 <= i < |s.appointments| ==>
      r.store.appointments[i].(status := s.appointments[i].status) == s.appointments[i]
    ensures forall i :: 0 <= i < |s.appointments| && s.appointments[i].id != id ==>
      r.store.appointments[i] == s.appointments[i]
    ensures r.result ==> exists i :: 0 <= i < |s.appointments| && s.appointments[i].id == id && r.store.appointments[i].status == status
  {
    match FindAppointment(s, id)
    case None => Reply(s, false)
    case Some(k) =>
      Reply(s.(appointments := s.appointments[k := s.appointments[k].(status := status)]), true)
  }

  function CancelAppointment(s: Store, id: int): (r: Reply<bool>)
    ensures r.result <==> HasAppointment(s, id)
    ensures !r.result ==> r.store == s
    ensures r.store == s.(appointments := r.store.appointments)
    ensures |r.store.appointments| == |s.appointments|
    ensures forall i :: 0 <= i < |s.appointments| ==>
      r.store.appointments[i].(status := s.appointments[i].status) == s.appointments[i]
    ensures forall i :: 0 <= i < |s.appointments| && s.appointments[i].id != id ==>
      r.store.appointments[i] == s.appointments[i]
    ensures r.result ==> exists i :: 0 <= i < |s.appointments| && s.appointments[i].id == id && r.store.appointments[i].status == Cancelled
  {
    SetStatus(s, id, Cancelled)
  }

  function MarkAppointmentDone(s: Store, id: int): (r: Reply<bool>)
    ensures r.result <==> HasAppointment(s, id)
    ensures !r.result ==> r.store == s
    ensures r.store == s.(appointments := r.store.appointments)
    ensures |r.store.appointments| == |s.appointments|
    ensures forall i :: 0 <= i < |s.appointments| ==>
      r.store.appointments[i].(status := s.appointments[i].status) == s.appointments[i]
    ensures forall i :: 0 <= i < |s.appointments| && s.appointments[i].id != id ==>
      r.store.appointments[i] == s.appointments[i]
    ensures r.result ==> exists i :: 0 <= i < |s.appointments| && s.appointments[i].id == id && r.store.appointments[i].status == Done
  {
    SetStatus(s, id, Done)
  }
}
