/** `getStats`: table sizes and appointment counts per status, reported as a
    JSON object with six fixed keys in a fixed order. */
module Stats {
  import opened Options
  import opened Text
  import opened Records
  import opened Hospital

  datatype Counts = Counts(patients: nat, doctors: nat, appointments: nat, scheduled: nat, done: nat, cancelled: nat)

  /** How many appointments of `appts` have `status`. */
  function CountStatus(appts: seq<Appointment>, status: Status): nat
    decreases |appts|
  {
    if |appts| == 0 then 0
    else CountStatus(appts[..|appts| - 1], status) + (if appts[|appts| - 1].status == status then 1 else 0)
  }

  /** Every appointment has exactly one of the three statuses, so the three
      counts add up to the number of appointments. */
  lemma {:induction false} StatusCountsSum(appts: seq<Appointment>)
    ensures CountStatus(appts, Scheduled) + CountStatus(appts, Done) + CountStatus(appts, Cancelled) == |appts|
    decreases |appts|
  {
    if |appts| > 0 {
      StatusCountsSum(appts[..|appts| - 1]);
    }
  }

  /** The counts a full scan of the store yields. */
  function CountsOf(s: Store): (c: Counts)
    ensures c.scheduled + c.done + c.cancelled == c.appointments
  {
    StatusCountsSum(s.appointments);
    Counts(|s.patients|, |s.doctors|, |s.appointments|,
           CountStatus(s.appointments, Scheduled), CountStatus(s.appointments, Done), CountStatus(s.appointments, Cancelled))
  }

  function Quoted(key: string): string
  {
    "\"" + key + "\""
  }

  const Keys: seq<string> := ["patients", "doctors", "appointments", "scheduled", "done", "cancelled"]

  function Values(c: Counts): seq<nat>
  {
    [c.patients, c.doctors, c.appointments, c.scheduled, c.done, c.cancelled]
  }

  /** One `"key":value` member. */
  function Member(key: string, value: nat): string
  {
    Join([Quoted(key), IntToString(value)], ':')
  }

  function Members(c: Counts): (ms: seq<string>)
    ensures |ms| == 6
  {
    seq(6, i requires 0 <= i < 6 => Member(Keys[i], Values(c)[i]))
  }

  /** `{"patients":P,"doctors":D,"appointments":A,"scheduled":S,"done":N,"cancelled":C}` */
  function StatsJson(c: Counts): string
  {
    "{" + Join(Members(c), ',') + "}"
  }

  /** The value of one member, if it has the expected key and a
      non-negative integer value. */
  function ReadMember(text: string, key: string): Option<nat>
  {
    var kv := Split(text, ':');
    if |kv| != 2 || kv[0] != Quoted(key) then None
    else match ParseInt(kv[1])
      case Some(n) => if n >= 0 then Some(n as nat) else None
      case None => None
  }

  /** A reader for the statistics object: exactly the six keys, in order. */
  function ParseStats(text: string): Option<Counts>
  {
    if |text| < 2 || text[0] != '{' || text[|text| - 1] != '}' then None
    else
      var ms := Split(text[1..|text| - 1], ',');
      if |ms| != 6 then None
      else match (ReadMember(ms[0], Keys[0]), ReadMember(ms[1], Keys[1]), ReadMember(ms[2], Keys[2]),
                  ReadMember(ms[3], Keys[3]), ReadMember(ms[4], Keys[4]), ReadMember(ms[5], Keys[5]))
        case (Some(p), Some(d), Some(a), Some(sc), Some(dn), Some(cn)) => Some(Counts(p, d, a, sc, dn, cn))
        case _ => None
  }

  lemma ReadMemberOf(key: string, value: nat)
    requires ':' !in key && ',' !in key
    ensures ReadMember(Member(key, value), key) == Some(value)
    ensures ',' !in Member(key, value)
  {
    IntToStringAvoids(value, ':');
    IntToStringAvoids(value, ',');
    ParseIntToString(value);
    SplitJoin([Quoted(key), IntToString(value)], ':');
    JoinAvoids([Quoted(key), IntToString(value)], ':', ',');
  }

  /** Every member of the object reads back as its value and carries no ','. */
  lemma ReadMembersOf(c: Counts)
    ensures forall i :: 0 <= i < 6 ==> ReadMember(Members(c)[i], Keys[i]) == Some(Values(c)[i]) && ',' !in Members(c)[i]
  {
    forall i | 0 <= i < 6 ensures ReadMember(Members(c)[i], Keys[i]) == Some(Values(c)[i]) && ',' !in Members(c)[i] {
      ReadMemberOf(Keys[i], Values(c)[i]);
    }
  }

  /** The statistics text reads back as the counts it was written from. */
  lemma ParseStatsJson(c: Counts)
    ensures ParseStats(StatsJson(c)) == Some(c)
  {
    var ms := Members(c);
    ReadMembersOf(c);
    SplitJoin(ms, ',');
    var text := StatsJson(c);
    assert text[1..|text| - 1] == Join(ms, ',');
  }

  /** The source's `getStats`: one scan over the appointments counting each
      status, then the JSON object. Its counts are those of a full scan, they
      add up, and a reader recovers them from the text. */
  method GetStats(s: Store) returns (text: string)
    ensures text == StatsJson(CountsOf(s))
    ensures ParseStats(text) == Some(CountsOf(s))
  {
    var scheduled, done, cancelled := 0, 0, 0;
    var i := 0;
    while i < |s.appointments|
      invariant 0 <= i <= |s.appointments|
      invariant scheduled == CountStatus(s.appointments[..i], Scheduled)
      invariant done == CountStatus(s.appointments[..i], Done)
      invariant cancelled == CountStatus(s.appointments[..i], Cancelled)
    {
      assert s.appointments[..i + 1][..i] == s.appointments[..i];
      var a := s.appointments[i];
      if a.status == Scheduled {
        scheduled := scheduled + 1;
      } else if a.status == Done {
        done := done + 1;
      } else if a.status == Cancelled {
        cancelled := cancelled + 1;
      }
      i := i + 1;
    }
    assert s.appointments[..i] == s.appointments;
    var c := Counts(|s.patients|, |s.doctors|, |s.appointments|, scheduled, done, cancelled);
    text := StatsJson(c);
    ParseStatsJson(c);
  }
}
