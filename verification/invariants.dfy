/** What each store operation guarantees on a consistent store: the exact
    effect (ids are unique there, so "the first row with this id" is "the row
    with this id") and that consistency is kept. */
module Invariants {
  import opened Seqs
  import opened Records
  import opened Hospital

  lemma InitialValid()
    ensures Valid(Initial)
  {
  }

  /** On a consistent store no two rows of a table share an id. */
  lemma IdsUnique(s: Store)
    requires Valid(s)
    ensures forall i, j :: 0 <= i < |s.patients| && 0 <= j < |s.patients| && s.patients[i].id == s.patients[j].id ==> i == j
    ensures forall i, j :: 0 <= i < |s.doctors| && 0 <= j < |s.doctors| && s.doctors[i].id == s.doctors[j].id ==> i == j
    ensures forall i, j :: 0 <= i < |s.appointments| && 0 <= j < |s.appointments| && s.appointments[i].id == s.appointments[j].id ==> i == j
  {
  }

  // ----- patients -----

  /** `addPatient` returns the counter's value, which no stored patient
      carries and which exceeds every stored patient id; the row is appended
      last, the counter moves past it, and nothing else changes. */
  lemma AddPatientFresh(s: Store, name: string, age: int, gender: string, address: string, phone: string)
    requires Valid(s)
    ensures var r := AddPatient(s, name, age, gender, address, phone);
      && r.result >= 1
      && r.result == s.nextPatient && r.store.nextPatient == r.result + 1
      && (forall i :: 0 <= i < |s.patients| ==> s.patients[i].id < r.result)
      && !HasPatient(s, r.result)
      && |r.store.patients| == |s.patients| + 1
      && r.store.patients[..|s.patients|] == s.patients
      && r.store.patients[|s.patients|] == Patient(r.result, name, age, gender, address, phone)
      && r.store == s.(patients := r.store.patients, nextPatient := r.store.nextPatient)
      && Valid(r.store)
  {
  }

  /** On a consistent store `updatePatient` rewrites exactly the row with the
      given id, keeps its id and position, and keeps the store consistent. */
  lemma UpdatePatientExact(s: Store, id: int, name: string, age: int, gender: string, address: string, phone: string)
    requires Valid(s)
    ensures var r := UpdatePatient(s, id, name, age, gender, address, phone);
      && |r.store.patients| == |s.patients|
      && (forall i :: 0 <= i < |s.patients| ==>
            r.store.patients[i] == (if s.patients[i].id == id then Patient(id, name, age, gender, address, phone) else s.patients[i]))
      && Valid(r.store)
  {
  }

  /** Rows kept by a filter carry ids that were already issued. */
  lemma DeletePatientIssued(s: Store, id: int)
    requires IdsIssued(s)
    ensures IdsIssued(DeletePatient(s, id).store)
  {
    FilterKeepsRange(PatientIsNot(id), PatientId, s.patients, 1, s.nextPatient);
    FilterKeepsRange(NotOfPatient(id), AppointmentId, s.appointments, 1, s.nextAppointment);
  }

  lemma DeletePatientOrdered(s: Store, id: int)
    requires IdsOrdered(s)
    ensures IdsOrdered(DeletePatient(s, id).store)
  {
    if HasPatient(s, id) {
      FilterKeepsIncreasing(PatientIsNot(id), PatientId, s.patients);
      FilterKeepsIncreasing(NotOfPatient(id), AppointmentId, s.appointments);
    }
  }

  /** The cascade removes exactly the appointments whose patient goes, so
      every surviving appointment still names a live patient. */
  lemma DeletePatientReferential(s: Store, id: int)
    requires Referential(s)
    ensures Referential(DeletePatient(s, id).store)
  {
  }

  /** After `deletePatient` no patient and no appointment refers to the id
      any more, and the store is still consistent: the cascade is what keeps
      every appointment's patient alive. */
  lemma DeletePatientKeepsValid(s: Store, id: int)
    requires Valid(s)
    ensures var r := DeletePatient(s, id);
      && !HasPatient(r.store, id)
      && (forall i :: 0 <= i < |r.store.appointments| ==> r.store.appointments[i].patientId != id)
      && Valid(r.store)
  {
    var t := DeletePatient(s, id).store;
    DeletePatientIssued(s, id);
    DeletePatientOrdered(s, id);
    DeletePatientReferential(s, id);
    forall k | 0 <= k < |t.patients| ensures t.patients[k].id != id {
      assert t.patients[k] in t.patients;
    }
    forall i | 0 <= i < |t.appointments| ensures t.appointments[i].patientId != id {
      assert t.appointments[i] in t.appointments;
      if !HasPatient(s, id) {
        assert HasPatient(s, s.appointments[i].patientId);
      }
    }
  }

  // ----- doctors -----

  /** `addDoctor` issues a fresh doctor id above every stored one, appends the
      row last and keeps the store consistent. */
  lemma AddDoctorFresh(s: Store, name: string, age: int, gender: string, specialization: string)
    requires Valid(s)
    ensures var r := AddDoctor(s, name, age, gender, specialization);
      && r.result >= 1
      && r.result == s.nextDoctor && r.store.nextDoctor == r.result + 1
      && (forall i :: 0 <= i < |s.doctors| ==> s.doctors[i].id < r.result)
      && !HasDoctor(s, r.result)
      && |r.store.doctors| == |s.doctors| + 1
      && r.store.doctors[..|s.doctors|] == s.doctors
      && r.store.doctors[|s.doctors|] == Doctor(r.result, name, age, gender, specialization)
      && r.store == s.(doctors := r.store.doctors, nextDoctor := r.store.nextDoctor)
      && Valid(r.store)
  {
  }

  lemma DeleteDoctorIssued(s: Store, id: int)
    requires IdsIssued(s)
    ensures IdsIssued(DeleteDoctor(s, id).store)
  {
  }

  lemma DeleteDoctorOrdered(s: Store, id: int)
    requires IdsOrdered(s)
    ensures IdsOrdered(DeleteDoctor(s, id).store)
  {
    var t := DeleteDoctor(s, id).store;
    if HasDoctor(s, id) {
      FilterKeepsIncreasing(DoctorIsNot(id), DoctorId, s.doctors);
    }
    forall i, j | 0 <= i < j < |t.appointments| ensures AppointmentId(t.appointments[i]) < AppointmentId(t.appointments[j]) {
      assert t.appointments[i].(status := s.appointments[i].status) == s.appointments[i];
      assert t.appointments[j].(status := s.appointments[j].status) == s.appointments[j];
      assert AppointmentId(s.appointments[i]) < AppointmentId(s.appointments[j]);
    }
  }

  /** The soft cascade keeps appointment rows, their patients and their
      doctor ids, so references stay as they were. */
  lemma DeleteDoctorReferential(s: Store, id: int)
    requires Referential(s)
    ensures Referential(DeleteDoctor(s, id).store)
  {
  }

  /** After `deleteDoctor` the doctor is gone, every appointment with that
      doctor is cancelled (its row kept), and the store is still consistent. */
  lemma DeleteDoctorKeepsValid(s: Store, id: int)
    requires Valid(s)
    ensures var r := DeleteDoctor(s, id);
      && !HasDoctor(r.store, id)
      && |r.store.appointments| == |s.appointments|
      && (r.result ==> forall i :: 0 <= i < |s.appointments| && s.appointments[i].doctorId == id ==>
            r.store.appointments[i].status == Cancelled)
      && Valid(r.store)
  {
    var t := DeleteDoctor(s, id).store;
    DeleteDoctorIssued(s, id);
    DeleteDoctorOrdered(s, id);
    DeleteDoctorReferential(s, id);
    forall k | 0 <= k < |t.doctors| ensures t.doctors[k].id != id {
      assert t.doctors[k] in t.doctors;
    }
  }

  // ----- appointments -----

  /** `createAppointment` refuses exactly when the patient or the doctor is
      missing; otherwise it returns a fresh positive id (never the refusal
      sentinel), appends a scheduled row last and keeps the store consistent. */
  lemma CreateAppointmentSpec(s: Store, patientId: int, doctorId: int, datetime: string, reason: string)
    requires Valid(s)
    ensures var r := CreateAppointment(s, patientId, doctorId, datetime, reason);
      && (r.result == Refused <==> !(HasPatient(s, patientId) && HasDoctor(s, doctorId)))
      && (r.result != Refused ==>
            && r.result >= 1
            && r.result == s.nextAppointment && r.store.nextAppointment == r.result + 1
            && (forall i :: 0 <= i < |s.appointments| ==> s.appointments[i].id < r.result)
            && !HasAppointment(s, r.result)
            && |r.store.appointments| == |s.appointments| + 1
            && r.store.appointments[..|s.appointments|] == s.appointments
            && r.store.appointments[|s.appointments|] == Appointment(r.result, patientId, doctorId, datetime, reason, Scheduled)
            && r.store == s.(appointments := r.store.appointments, nextAppointment := r.store.nextAppointment))
      && Valid(r.store)
  {
  }

  /** On a consistent store a status change hits exactly the appointment with
      the given id, changes nothing but its status, and keeps consistency. */
  lemma SetStatusExact(s: Store, id: int, status: Status)
    requires Valid(s)
    ensures var r := SetStatus(s, id, status);
      && (forall i :: 0 <= i < |s.appointments| ==>
            r.store.appointments[i].status == (if s.appointments[i].id == id then status else s.appointments[i].status))
      && Valid(r.store)
  {
  }

  /** Forcing a status twice is the same as forcing it once: `cancelAppointment`
      and `markAppointmentDone` are idempotent. */
  lemma SetStatusIdempotent(s: Store, id: int, status: Status)
    ensures SetStatus(SetStatus(s, id, status).store, id, status) == SetStatus(s, id, status)
  {
  }

  lemma CancelAppointmentIdempotent(s: Store, id: int)
    ensures CancelAppointment(CancelAppointment(s, id).store, id) == CancelAppointment(s, id)
  {
    SetStatusIdempotent(s, id, Cancelled);
  }

  lemma MarkAppointmentDoneIdempotent(s: Store, id: int)
    ensures MarkAppointmentDone(MarkAppointmentDone(s, id).store, id) == MarkAppointmentDone(s, id)
  {
    SetStatusIdempotent(s, id, Done);
  }
}
