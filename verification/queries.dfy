/** The read-only operations of the store: listing and searching the tables
    in the '|'/'\n' text format, and the statistics object. Each listing is
    paired with the reader a consumer applies to it. */
module Queries {
  import opened Options
  import opened Seqs
  import opened Text
  import opened Wire
  import opened Records
  import opened Hospital
  import Invariants

  /** Reading back a rendered table gives back its records, in order,
      provided every row's fields are free of delimiters. */
  lemma ReadBackTable<T>(fields: T -> seq<string>, decode: seq<string> -> Option<T>, rows: seq<T>)
    requires forall i :: 0 <= i < |rows| ==> decode(fields(rows[i])) == Some(rows[i])
    requires CleanRows(Map(fields, rows))
    ensures Collect(Map(decode, ReadRows(Render(Map(fields, rows))))) == Some(rows)
  {
    RenderThenRead(Map(fields, rows));
    CollectMapInverse(decode, fields, rows);
  }

  // ----- patients -----

  function ListPatients(s: Store): (r: string)
    ensures r == "" <==> |s.patients| == 0
    ensures r != "" ==> r[|r| - 1] == '\n'
  {
    Render(Map(PatientFields, s.patients))
  }

  /** A consumer's reading of patient rows. */
  function ReadPatients(text: string): Option<seq<Patient>>
  {
    Collect(Map(PatientFromFields, ReadRows(text)))
  }

  lemma PatientRowsClean(ps: seq<Patient>)
    requires forall i :: 0 <= i < |ps| ==> PatientClean(ps[i])
    ensures CleanRows(Map(PatientFields, ps))
  {
    forall i | 0 <= i < |ps| ensures forall j :: 0 <= j < |PatientFields(ps[i])| ==> CleanField(PatientFields(ps[i])[j]) {
      PatientFieldsClean(ps[i]);
    }
  }

  /** `listPatients` writes one row per patient, in table order, with the
      fields id|name|age|gender|address|phone: reading it back yields the
      table itself whenever no text field contains '|' or '\n'. */
  lemma ListPatientsReadBack(s: Store)
    requires forall i :: 0 <= i < |s.patients| ==> PatientClean(s.patients[i])
    ensures ReadRows(ListPatients(s)) == Map(PatientFields, s.patients)
    ensures ReadPatients(ListPatients(s)) == Some(s.patients)
    ensures |ReadRows(ListPatients(s))| == |s.patients|
  {
    PatientRowsClean(s.patients);
    RenderThenRead(Map(PatientFields, s.patients));
    ReadBackTable(PatientFields, PatientFromFields, s.patients);
  }

  /** The search rule: the term, lowercased, occurs in the lowercased name,
      or the term is exactly the decimal form of the id. */
  predicate PatientMatches(term: string, p: Patient)
  {
    Contains(Lower(p.name), Lower(term)) || IntToString(p.id) == term
  }

  function PatientMatcher(term: string): Patient -> bool
  {
    (p: Patient) => PatientMatches(term, p)
  }

  /** The patients a search selects: the matching rows, in table order. */
  function MatchingPatients(s: Store, term: string): (ms: seq<Patient>)
    ensures IsSubsequence(ms, s.patients)
    ensures forall p :: p in ms <==> p in s.patients && PatientMatches(term, p)
    ensures forall p :: multiset(ms)[p] == if PatientMatches(term, p) then multiset(s.patients)[p] else 0
  {
    FilterIsSubsequence(PatientMatcher(term), s.patients);
    FilterCounts(PatientMatcher(term), s.patients);
    Filter(PatientMatcher(term), s.patients)
  }

  function SearchPatients(s: Store, term: string): (r: string)
    ensures r == "" <==> forall p :: p in s.patients ==> !PatientMatches(term, p)
    ensures r != "" ==> r[|r| - 1] == '\n'
  {
    Render(Map(PatientFields, MatchingPatients(s, term)))
  }

  /** `searchPatients` prints exactly the matching patients, as list rows. */
  lemma SearchPatientsReadBack(s: Store, term: string)
    requires forall i :: 0 <= i < |s.patients| ==> PatientClean(s.patients[i])
    ensures ReadRows(SearchPatients(s, term)) == Map(PatientFields, MatchingPatients(s, term))
    ensures ReadPatients(SearchPatients(s, term)) == Some(MatchingPatients(s, term))
  {
    var ms := MatchingPatients(s, term);
    forall i | 0 <= i < |ms| ensures PatientClean(ms[i]) {
      assert ms[i] in ms;
    }
    PatientRowsClean(ms);
    RenderThenRead(Map(PatientFields, ms));
    ReadBackTable(PatientFields, PatientFromFields, ms);
  }

  /** An empty term is a substring of every name: the search lists everything. */
  lemma SearchPatientsEmptyTerm(s: Store)
    ensures SearchPatients(s, "") == ListPatients(s)
  {
    forall i | 0 <= i < |s.patients| ensures PatientMatcher("")(s.patients[i]) {
      ContainsEmpty(Lower(s.patients[i].name));
    }
    FilterKeepsAll(PatientMatcher(""), s.patients);
  }

  /** Searching for the decimal id of a stored patient selects that patient
      and otherwise only patients whose name contains the term: the id path
      is an exact comparison, so id 1 does not select ids 10, 11, .... */
  lemma SearchPatientsById(s: Store, k: nat)
    requires Valid(s)
    requires k < |s.patients|
    ensures var term := IntToString(s.patients[k].id);
      forall q :: q in MatchingPatients(s, term) <==>
        q == s.patients[k] || (q in s.patients && Contains(Lower(q.name), Lower(term)))
  {
    var term := IntToString(s.patients[k].id);
    Invariants.IdsUnique(s);
    forall q | q in s.patients && q != s.patients[k] ensures IntToString(q.id) != term {
      IntToStringInjective(q.id, s.patients[k].id);
    }
  }

  /** A patient just added is found by its id; when no earlier patient's name
      contains that number, it is the only result. */
  lemma AddThenSearchPatientById(s: Store, name: string, age: int, gender: string, address: string, phone: string)
    requires Valid(s)
    requires forall i :: 0 <= i < |s.patients| ==> !Contains(Lower(s.patients[i].name), Lower(IntToString(s.nextPatient)))
    ensures var r := AddPatient(s, name, age, gender, address, phone);
      MatchingPatients(r.store, IntToString(r.result)) == [Patient(r.result, name, age, gender, address, phone)]
  {
    var r := AddPatient(s, name, age, gender, address, phone);
    var term := IntToString(r.result);
    var p := Patient(r.result, name, age, gender, address, phone);
    Invariants.AddPatientFresh(s, name, age, gender, address, phone);
    forall i | 0 <= i < |s.patients| ensures !PatientMatcher(term)(s.patients[i]) {
      IntToStringInjective(s.patients[i].id, r.result);
    }
    assert r.store.patients == s.patients + [p];
    FilterAppend(PatientMatcher(term), s.patients, p);
  }

  // ----- doctors -----

  function ListDoctors(s: Store): (r: string)
    ensures r == "" <==> |s.doctors| == 0
    ensures r != "" ==> r[|r| - 1] == '\n'
  {
    Render(Map(DoctorFields, s.doctors))
  }

  function ReadDoctors(text: string): Option<seq<Doctor>>
  {
    Collect(Map(DoctorFromFields, ReadRows(text)))
  }

  lemma DoctorRowsClean(ds: seq<Doctor>)
    requires forall i :: 0 <= i < |ds| ==> DoctorClean(ds[i])
    ensures CleanRows(Map(DoctorFields, ds))
  {
    forall i | 0 <= i < |ds| ensures forall j :: 0 <= j < |DoctorFields(ds[i])| ==> CleanField(DoctorFields(ds[i])[j]) {
      DoctorFieldsClean(ds[i]);
    }
  }

  /** `listDoctors` writes one id|name|age|gender|specialization row per
      doctor, in table order; reading it back yields the table. */
  lemma ListDoctorsReadBack(s: Store)
    requires forall i :: 0 <= i < |s.doctors| ==> DoctorClean(s.doctors[i])
    ensures ReadRows(ListDoctors(s)) == Map(DoctorFields, s.doctors)
    ensures ReadDoctors(ListDoctors(s)) == Some(s.doctors)
    ensures |ReadRows(ListDoctors(s))| == |s.doctors|
  {
    DoctorRowsClean(s.doctors);
    RenderThenRead(Map(DoctorFields, s.doctors));
    ReadBackTable(DoctorFields, DoctorFromFields, s.doctors);
  }

  /** As for patients, with the specialization searched as well as the name. */
  predicate DoctorMatches(term: string, d: Doctor)
  {
    Contains(Lower(d.name), Lower(term)) || Contains(Lower(d.specialization), Lower(term)) || IntToString(d.id) == term
  }

  function DoctorMatcher(term: string): Doctor -> bool
  {
    (d: Doctor) => DoctorMatches(term, d)
  }

  function MatchingDoctors(s: Store, term: string): (ms: seq<Doctor>)
    ensures IsSubsequence(ms, s.doctors)
    ensures forall d :: d in ms <==> d in s.doctors && DoctorMatches(term, d)
    ensures forall d :: multiset(ms)[d] == if DoctorMatches(term, d) then multiset(s.doctors)[d] else 0
  {
    FilterIsSubsequence(DoctorMatcher(term), s.doctors);
    FilterCounts(DoctorMatcher(term), s.doctors);
    Filter(DoctorMatcher(term), s.doctors)
  }

  function SearchDoctors(s: Store, term: string): (r: string)
    ensures r == "" <==> forall d :: d in s.doctors ==> !DoctorMatches(term, d)
    ensures r != "" ==> r[|r| - 1] == '\n'
  {
    Render(Map(DoctorFields, MatchingDoctors(s, term)))
  }

  /** `searchDoctors` prints exactly the matching doctors, as list rows. */
  lemma SearchDoctorsReadBack(s: Store, term: string)
    requires forall i :: 0 <= i < |s.doctors| ==> DoctorClean(s.doctors[i])
    ensures ReadRows(SearchDoctors(s, term)) == Map(DoctorFields, MatchingDoctors(s, term))
    ensures ReadDoctors(SearchDoctors(s, term)) == Some(MatchingDoctors(s, term))
  {
    var ms := MatchingDoctors(s, term);
    forall i | 0 <= i < |ms| ensures DoctorClean(ms[i]) {
      assert ms[i] in ms;
    }
    DoctorRowsClean(ms);
    RenderThenRead(Map(DoctorFields, ms));
    ReadBackTable(DoctorFields, DoctorFromFields, ms);
  }

  lemma SearchDoctorsEmptyTerm(s: Store)
    ensures SearchDoctors(s, "") == ListDoctors(s)
  {
    forall i | 0 <= i < |s.doctors| ensures DoctorMatcher("")(s.doctors[i]) {
      ContainsEmpty(Lower(s.doctors[i].name));
    }
    FilterKeepsAll(DoctorMatcher(""), s.doctors);
  }

  /** Searching for the decimal id of a stored doctor selects that doctor and
      otherwise only doctors whose name or specialization contains the term. */
  lemma SearchDoctorsById(s: Store, k: nat)
    requires Valid(s)
    requires k < |s.doctors|
    ensures var term := IntToString(s.doctors[k].id);
      forall q :: q in MatchingDoctors(s, term) <==>
        q == s.doctors[k] ||
        (q in s.doctors && (Contains(Lower(q.name), Lower(term)) || Contains(Lower(q.specialization), Lower(term))))
  {
    var term := IntToString(s.doctors[k].id);
    Invariants.IdsUnique(s);
    forall q | q in s.doctors && q != s.doctors[k] ensures IntToString(q.id) != term {
      IntToStringInjective(q.id, s.doctors[k].id);
    }
  }

  // ----- appointments -----

  function ListAppointments(s: Store): (r: string)
    ensures r == "" <==> |s.appointments| == 0
    ensures r != "" ==> r[|r| - 1] == '\n'
  {
    Render(Map(AppointmentFields, s.appointments))
  }

  function ReadAppointments(text: string): Option<seq<Appointment>>
  {
    Collect(Map(AppointmentFromFields, ReadRows(text)))
  }

  /** `listAppointments` writes one id|patient_id|doctor_id|datetime|reason|status
      row per appointment, in table order; reading it back yields the table,
      status included. */
  lemma ListAppointmentsReadBack(s: Store)
    requires forall i :: 0 <= i < |s.appointments| ==> AppointmentClean(s.appointments[i])
    ensures ReadRows(ListAppointments(s)) == Map(AppointmentFields, s.appointments)
    ensures ReadAppointments(ListAppointments(s)) == Some(s.appointments)
    ensures |ReadRows(ListAppointments(s))| == |s.appointments|
  {
    var appts := s.appointments;
    forall i | 0 <= i < |appts| ensures forall j :: 0 <= j < |AppointmentFields(appts[i])| ==> CleanField(AppointmentFields(appts[i])[j]) {
      AppointmentFieldsClean(appts[i]);
    }
    RenderThenRead(Map(AppointmentFields, appts));
    ReadBackTable(AppointmentFields, AppointmentFromFields, appts);
  }
}
