/** Sequences of store calls. Every mutating call is an `Op`; a session is a
    list of them applied one after another (the source's lock makes each call
    atomic, so a session is a total order of atomic steps). */
module Sessions {
  import opened Options
  import opened Records
  import opened Hospital
  import opened Queries
  import opened Stats
  import Invariants

  datatype Op =
    | AddPatientOp(name: string, age: int, gender: string, address: string, phone: string)
    | UpdatePatientOp(id: int, name: string, age: int, gender: string, address: string, phone: string)
    | DeletePatientOp(id: int)
    | AddDoctorOp(name: string, age: int, gender: string, specialization: string)
    | DeleteDoctorOp(id: int)
    | CreateAppointmentOp(patientId: int, doctorId: int, datetime: string, reason: string)
    | CancelAppointmentOp(id: int)
    | MarkAppointmentDoneOp(id: int)

  /** What a mutating call returns: a new id (or the refusal sentinel), or a
      success flag. */
  datatype Answer = NewId(id: int) | Flag(ok: bool)

  datatype Kind = PatientKind | DoctorKind | AppointmentKind

  function Apply(s: Store, op: Op): Reply<Answer>
  {
    match op
    case AddPatientOp(n, a, g, ad, ph) => var r := AddPatient(s, n, a, g, ad, ph); Reply(r.store, NewId(r.result))
    case UpdatePatientOp(id, n, a, g, ad, ph) => var r := UpdatePatient(s, id, n, a, g, ad, ph); Reply(r.store, Flag(r.result))
    case DeletePatientOp(id) => var r := DeletePatient(s, id); Reply(r.store, Flag(r.result))
    case AddDoctorOp(n, a, g, sp) => var r := AddDoctor(s, n, a, g, sp); Reply(r.store, NewId(r.result))
    case DeleteDoctorOp(id) => var r := DeleteDoctor(s, id); Reply(r.store, Flag(r.result))
    case CreateAppointmentOp(p, d, dt, rs) => var r := CreateAppointment(s, p, d, dt, rs); Reply(r.store, NewId(r.result))
    case CancelAppointmentOp(id) => var r := CancelAppointment(s, id); Reply(r.store, Flag(r.result))
    case MarkAppointmentDoneOp(id) => var r := MarkAppointmentDone(s, id); Reply(r.store, Flag(r.result))
  }

  function NextId(s: Store, k: Kind): int
  {
    match k
    case PatientKind => s.nextPatient
    case DoctorKind => s.nextDoctor
    case AppointmentKind => s.nextAppointment
  }

  /** The ids stored in the table of kind `k`. */
  predicate Holds(s: Store, k: Kind, id: int)
  {
    match k
    case PatientKind => HasPatient(s, id)
    case DoctorKind => HasDoctor(s, id)
    case AppointmentKind => HasAppointment(s, id)
  }

  /** The id a call issued, and for which table, if it issued one. */
  function Issued(op: Op, answer: Answer): Option<(Kind, int)>
  {
    match (op, answer)
    case (AddPatientOp(_, _, _, _, _), NewId(id)) => Some((PatientKind, id))
    case (AddDoctorOp(_, _, _, _), NewId(id)) => Some((DoctorKind, id))
    case (CreateAppointmentOp(_, _, _, _), NewId(id)) => if id == Refused then None else Some((AppointmentKind, id))
    case _ => None
  }

  /** Every call keeps the store consistent. */
  lemma ApplyKeepsValid(s: Store, op: Op)
    requires Valid(s)
    ensures Valid(Apply(s, op).store)
  {
    match op
    case AddPatientOp(n, a, g, ad, ph) => Invariants.AddPatientFresh(s, n, a, g, ad, ph);
    case UpdatePatientOp(id, n, a, g, ad, ph) => Invariants.UpdatePatientExact(s, id, n, a, g, ad, ph);
    case DeletePatientOp(id) => Invariants.DeletePatientKeepsValid(s, id);
    case AddDoctorOp(n, a, g, sp) => Invariants.AddDoctorFresh(s, n, a, g, sp);
    case DeleteDoctorOp(id) => Invariants.DeleteDoctorKeepsValid(s, id);
    case CreateAppointmentOp(p, d, dt, rs) => Invariants.CreateAppointmentSpec(s, p, d, dt, rs);
    case CancelAppointmentOp(id) => Invariants.SetStatusExact(s, id, Cancelled);
    case MarkAppointmentDoneOp(id) => Invariants.SetStatusExact(s, id, Done);
  }

  /** Counters never go down; a call that issues an id issues the counter's
      value and moves that counter one past it. */
  lemma ApplyCounters(s: Store, op: Op)
    ensures forall k :: NextId(s, k) <= NextId(Apply(s, op).store, k)
    ensures var r := Apply(s, op);
      Issued(op, r.result).Some? ==>
        var (k, id) := Issued(op, r.result).value;
        id == NextId(s, k) && NextId(r.store, k) == id + 1
  {
  }

  /** The stores a session passes through, starting from `s`. */
  function States(s: Store, ops: seq<Op>): (ss: seq<Store>)
    ensures |ss| == |ops| + 1 && ss[0] == s
    ensures forall i :: 0 <= i < |ops| ==> ss[i + 1] == Apply(ss[i], ops[i]).store
    decreases |ops|
  {
    if |ops| == 0 then [s] else [s] + States(Apply(s, ops[0]).store, ops[1..])
  }

  /** What the `i`-th call of the session returned. */
  function AnswerAt(s: Store, ops: seq<Op>, i: nat): Answer
    requires i < |ops|
  {
    Apply(States(s, ops)[i], ops[i]).result
  }

  /** Every store a session passes through from a consistent start is consistent. */
  lemma SessionKeepsValid(s: Store, ops: seq<Op>)
    requires Valid(s)
    ensures forall i :: 0 <= i <= |ops| ==> Valid(States(s, ops)[i])
  {
    var ss := States(s, ops);
    var i := 0;
    while i < |ops|
      invariant 0 <= i <= |ops|
      invariant forall j :: 0 <= j <= i ==> Valid(ss[j])
    {
      ApplyKeepsValid(ss[i], ops[i]);
      i := i + 1;
    }
  }

  /** The `j`-th call of a session does not lower the counter of kind `k`. */
  lemma StepCounter(s: Store, ops: seq<Op>, j: nat, k: Kind)
    requires 0 < j <= |ops|
    ensures NextId(States(s, ops)[j - 1], k) <= NextId(States(s, ops)[j], k)
  {
    var ss := States(s, ops);
    ApplyCounters(ss[j - 1], ops[j - 1]);
  }

  lemma {:induction false} CountersMonotone(s: Store, ops: seq<Op>, i: nat, j: nat, k: Kind)
    requires i <= j <= |ops|
    ensures NextId(States(s, ops)[i], k) <= NextId(States(s, ops)[j], k)
    decreases j - i
  {
    if i < j {
      StepCounter(s, ops, j, k);
      CountersMonotone(s, ops, i, j - 1, k);
    }
  }

  /** Ids of one kind are issued in strictly increasing order over a session,
      deletions notwithstanding. */
  lemma IssuedIdsIncrease(s: Store, ops: seq<Op>, i: nat, j: nat)
    requires i < j < |ops|
    requires Issued(ops[i], AnswerAt(s, ops, i)).Some? && Issued(ops[j], AnswerAt(s, ops, j)).Some?
    requires Issued(ops[i], AnswerAt(s, ops, i)).value.0 == Issued(ops[j], AnswerAt(s, ops, j)).value.0
    ensures Issued(ops[i], AnswerAt(s, ops, i)).value.1 < Issued(ops[j], AnswerAt(s, ops, j)).value.1
  {
    var ss := States(s, ops);
    var k := Issued(ops[i], AnswerAt(s, ops, i)).value.0;
    ApplyCounters(ss[i], ops[i]);
    ApplyCounters(ss[j], ops[j]);
    CountersMonotone(s, ops, i + 1, j, k);
  }

  /** An issued id is not in use at the moment it is issued nor at any
      earlier point of the session: ids are never reused. */
  lemma IssuedIdIsFresh(s: Store, ops: seq<Op>, i: nat, j: nat)
    requires Valid(s)
    requires j <= i < |ops|
    requires Issued(ops[i], AnswerAt(s, ops, i)).Some?
    ensures var (k, id) := Issued(ops[i], AnswerAt(s, ops, i)).value;
      !Holds(States(s, ops)[j], k, id)
  {
    var ss := States(s, ops);
    var (k, id) := Issued(ops[i], AnswerAt(s, ops, i)).value;
    SessionKeepsValid(s, ops);
    ApplyCounters(ss[i], ops[i]);
    CountersMonotone(s, ops, j, i, k);
    var t := ss[j];
    assert IdsIssued(t);
  }

  /** The worked example: a patient and a doctor, one appointment marked done,
      then the patient deleted together with the appointment. */
  lemma AliceBobScenario()
    ensures
      var r1 := AddPatient(Initial, "Alice", 30, "F", "1 Rd", "555");
      var r2 := AddDoctor(r1.store, "Bob", 40, "M", "Cardiology");
      var r3 := CreateAppointment(r2.store, 1, 1, "2024-01-01T10:00", "checkup");
      var r4 := MarkAppointmentDone(r3.store, 1);
      var r5 := DeletePatient(r4.store, 1);
      && r1.result == 1 && r2.result == 1 && r3.result == 1 && r4.result
      && CountsOf(r4.store) == Counts(1, 1, 1, 0, 1, 0)
      && r5.result
      && ListAppointments(r5.store) == ""
      && CountsOf(r5.store) == Counts(0, 1, 0, 0, 0, 0)
  {
    var alice := Patient(1, "Alice", 30, "F", "1 Rd", "555");
    var bob := Doctor(1, "Bob", 40, "M", "Cardiology");
    var booked := Appointment(1, 1, 1, "2024-01-01T10:00", "checkup", Scheduled);
    var r1 := AddPatient(Initial, "Alice", 30, "F", "1 Rd", "555");
    assert r1.store == Store([alice], [], [], 2, 1, 1);
    var r2 := AddDoctor(r1.store, "Bob", 40, "M", "Cardiology");
    assert r2.store == Store([alice], [bob], [], 2, 2, 1);
    assert HasPatient(r2.store, 1) && HasDoctor(r2.store, 1) by {
      assert r2.store.patients[0].id == 1 && r2.store.doctors[0].id == 1;
    }
    var r3 := CreateAppointment(r2.store, 1, 1, "2024-01-01T10:00", "checkup");
    assert r3.store == Store([alice], [bob], [booked], 2, 2, 2);
    var r4 := MarkAppointmentDone(r3.store, 1);
    assert r3.store.appointments[0].id == 1;
    assert r4.store == Store([alice], [bob], [booked.(status := Done)], 2, 2, 2);
    var r5 := DeletePatient(r4.store, 1);
    assert r4.store.patients[0].id == 1;
    assert r5.store.appointments == [] by {
      assert r5.store.appointments == Seqs.Filter(NotOfPatient(1), r4.store.appointments);
    }
    assert r5.store == Store([], [bob], [], 2, 2, 2);
  }
}
