/** The three record kinds of the store and their row encodings: the field
    order of each row and how a reader turns a row back into a record. */
module Records {
  import opened Options
  import opened Text
  import opened Wire

  /** The three values the source ever assigns to an appointment's status. */
  datatype Status = Scheduled | Done | Cancelled

  function ParseStatus(t: string): Option<Status>
  {
    if t == "scheduled" then Some(Scheduled)
    else if t == "done" then Some(Done)
    else if t == "cancelled" then Some(Cancelled)
    else None
  }

  /** The literal stored for each status; reading it back names the status. */
  function StatusText(st: Status): (t: string)
    ensures ParseStatus(t) == Some(st)
    ensures CleanField(t)
  {
    match st
    case Scheduled => "scheduled"
    case Done => "done"
    case Cancelled => "cancelled"
  }

  datatype Patient = Patient(id: int, name: string, age: int, gender: string, address: string, phone: string)

  datatype Doctor = Doctor(id: int, name: string, age: int, gender: string, specialization: string)

  datatype Appointment = Appointment(id: int, patientId: int, doctorId: int, datetime: string, reason: string, status: Status)

  /** Rendered integers never contain a delimiter. */
  lemma IntToStringClean(n: int)
    ensures CleanField(IntToString(n))
  {
    IntToStringAvoids(n, FieldSep);
    IntToStringAvoids(n, RowEnd);
  }

  // ----- patients: id|name|age|gender|address|phone -----

  function PatientFromFields(f: seq<string>): Option<Patient>
  {
    if |f| != 6 then None
    else match (ParseInt(f[0]), ParseInt(f[2]))
      case (Some(id), Some(age)) => Some(Patient(id, f[1], age, f[3], f[4], f[5]))
      case _ => None
  }

  /** The fields of a patient row; a reader recovers the patient from them. */
  function PatientFields(p: Patient): (f: seq<string>)
    ensures |f| == 6 && f[1] == p.name && f[3] == p.gender && f[4] == p.address && f[5] == p.phone
    ensures f[0] == IntToString(p.id) && f[2] == IntToString(p.age)
    ensures PatientFromFields(f) == Some(p)
  {
    ParseIntToString(p.id);
    ParseIntToString(p.age);
    [IntToString(p.id), p.name, IntToString(p.age), p.gender, p.address, p.phone]
  }

  predicate PatientClean(p: Patient)
  {
    CleanField(p.name) && CleanField(p.gender) && CleanField(p.address) && CleanField(p.phone)
  }

  lemma PatientFieldsClean(p: Patient)
    requires PatientClean(p)
    ensures forall j :: 0 <= j < |PatientFields(p)| ==> CleanField(PatientFields(p)[j])
  {
    IntToStringClean(p.id);
    IntToStringClean(p.age);
  }

  // ----- doctors: id|name|age|gender|specialization -----

  function DoctorFromFields(f: seq<string>): Option<Doctor>
  {
    if |f| != 5 then None
    else match (ParseInt(f[0]), ParseInt(f[2]))
      case (Some(id), Some(age)) => Some(Doctor(id, f[1], age, f[3], f[4]))
      case _ => None
  }

  /** The fields of a doctor row; a reader recovers the doctor from them. */
  function DoctorFields(d: Doctor): (f: seq<string>)
    ensures |f| == 5 && f[1] == d.name && f[3] == d.gender && f[4] == d.specialization
    ensures f[0] == IntToString(d.id) && f[2] == IntToString(d.age)
    ensures DoctorFromFields(f) == Some(d)
  {
    ParseIntToString(d.id);
    ParseIntToString(d.age);
    [IntToString(d.id), d.name, IntToString(d.age), d.gender, d.specialization]
  }

  predicate DoctorClean(d: Doctor)
  {
    CleanField(d.name) && CleanField(d.gender) && CleanField(d.specialization)
  }

  lemma DoctorFieldsClean(d: Doctor)
    requires DoctorClean(d)
    ensures forall j :: 0 <= j < |DoctorFields(d)| ==> CleanField(DoctorFields(d)[j])
  {
    IntToStringClean(d.id);
    IntToStringClean(d.age);
  }

  // ----- appointments: id|patient_id|doctor_id|datetime|reason|status -----

  function AppointmentFromFields(f: seq<string>): Option<Appointment>
  {
    if |f| != 6 then None
    else match (ParseInt(f[0]), ParseInt(f[1]), ParseInt(f[2]), ParseStatus(f[5]))
      case (Some(id), Some(pid), Some(did), Some(st)) => Some(Appointment(id, pid, did, f[3], f[4], st))
      case _ => None
  }

  /** The fields of an appointment row; a reader recovers the appointment. */
  function AppointmentFields(a: Appointment): (f: seq<string>)
    ensures |f| == 6 && f[3] == a.datetime && f[4] == a.reason
    ensures f[..3] == [IntToString(a.id), IntToString(a.patientId), IntToString(a.doctorId)]
    ensures AppointmentFromFields(f) == Some(a)
  {
    ParseIntToString(a.id);
    ParseIntToString(a.patientId);
    ParseIntToString(a.doctorId);
    [IntToString(a.id), IntToString(a.patientId), IntToString(a.doctorId), a.datetime, a.reason, StatusText(a.status)]
  }

  predicate AppointmentClean(a: Appointment)
  {
    CleanField(a.datetime) && CleanField(a.reason)
  }

  lemma AppointmentFieldsClean(a: Appointment)
    requires AppointmentClean(a)
    ensures forall j :: 0 <= j < |AppointmentFields(a)| ==> CleanField(AppointmentFields(a)[j])
  {
    IntToStringClean(a.id);
    IntToStringClean(a.patientId);
    IntToStringClean(a.doctorId);
  }
}
