/** Medications and today's dose schedule.

    Every active medication is expanded into one dose per scheduled time,
    each dose is marked taken when a log exists for it today, and the doses
    are listed by time of day with a stable sort. Clock times `HH:MM` are
    minutes since midnight: the zero-padded format makes the string order the
    source compares by agree with the numeric order. Dates are day numbers. */
module Medications {
  import opened Wrappers

  type Time = int
  type Day = int

  /** A scheduled recurring treatment; `frequency` is an informational label. */
  datatype Medication = Medication(id: string, name: string, dosage: string, frequency: string,
                                   times: seq<Time>, active: bool)

  /** Proof that the dose of `medicationId` at `time` on `date` was taken. */
  datatype MedLog = MedLog(id: nat, medicationId: string, date: Day, time: Time, taken: bool)

  /** One entry of today's schedule: the medication, one of its times, and
      whether that dose is logged. */
  datatype Dose = Dose(med: Medication, scheduledTime: Time, isTaken: bool)

  /** The medication form; a saved medication is always created active. */
  datatype MedicationForm = MedicationForm(name: string, dosage: string, frequency: string, times: seq<Time>)

  const Morning: Time := 8 * 60
  const Noon: Time := 12 * 60

  /** A fresh form's schedule: `['08:00']`. */
  const InitialTimes: seq<Time> := [Morning]

  predicate LogFor(l: MedLog, medId: string, date: Day, time: Time) {
    l.medicationId == medId && l.date == date && l.time == time
  }

  /** `medLogs.some(l => l.medicationId === medId && l.date === today && l.time === time)` */
  predicate IsLogged(logs: seq<MedLog>, medId: string, today: Day, time: Time) {
    exists i :: 0 <= i < |logs| && LogFor(logs[i], medId, today, time)
  }

  /** `med.times.map(time => ({ ...med, scheduledTime: time, isTaken: ... }))` */
  function DosesOf(m: Medication, logs: seq<MedLog>, today: Day): (r: seq<Dose>)
    ensures |r| == |m.times|
    ensures forall i :: 0 <= i < |r| ==> r[i].med == m && r[i].scheduledTime == m.times[i]
                                         && (r[i].isTaken <==> IsLogged(logs, m.id, today, m.times[i]))
  {
    seq(|m.times|, i requires 0 <= i < |m.times| => Dose(m, m.times[i], IsLogged(logs, m.id, today, m.times[i])))
  }

  /** `medications.filter(m => m.active).map(...).flat()`: the unsorted doses. */
  function Expand(meds: seq<Medication>, logs: seq<MedLog>, today: Day): (r: seq<Dose>)
    ensures forall i :: 0 <= i < |r| ==> r[i].med in meds && r[i].med.active
  {
    if meds == [] then []
    else (if meds[0].active then DosesOf(meds[0], logs, today) else []) + Expand(meds[1..], logs, today)
  }

  /** Inserts `d` before the first dose that is not earlier than it. */
  function InsertByTime(d: Dose, s: seq<Dose>): (r: seq<Dose>)
    ensures |r| == |s| + 1
    ensures multiset(r) == multiset(s) + multiset{d}
  {
    if s == [] || d.scheduledTime <= s[0].scheduledTime then [d] + s
    else
      assert s == [s[0]] + s[1..];
      [s[0]] + InsertByTime(d, s[1..])
  }

  /** `.sort((a, b) => a.scheduledTime.localeCompare(b.scheduledTime))`: a
      stable sort by time of day. */
  function SortByTime(s: seq<Dose>): (r: seq<Dose>)
    ensures |r| == |s|
    ensures multiset(r) == multiset(s)
  {
    if s == [] then []
    else
      assert s == [s[0]] + s[1..];
      InsertByTime(s[0], SortByTime(s[1..]))
  }

  /** The dashboard's medication list for `today`. */
  function TodaysMeds(meds: seq<Medication>, logs: seq<MedLog>, today: Day): (r: seq<Dose>)
    ensures ByTime(r)
    ensures multiset(r) == multiset(Expand(meds, logs, today))
  {
    SortOrders(Expand(meds, logs, today));
    SortByTime(Expand(meds, logs, today))
  }

  predicate ByTime(s: seq<Dose>) {
    forall i, j :: 0 <= i < j < |s| ==> s[i].scheduledTime <= s[j].scheduledTime
  }

  /** The doses scheduled at time `t`, in list order. */
  function At(s: seq<Dose>, t: Time): (r: seq<Dose>)
    ensures forall d :: d in r <==> d in s && d.scheduledTime == t
  {
    if s == [] then []
    else (if s[0].scheduledTime == t then [s[0]] else []) + At(s[1..], t)
  }

  /** The doses of medication `m`, in list order. */
  function Of(s: seq<Dose>, m: Medication): (r: seq<Dose>)
    ensures forall d :: d in r <==> d in s && d.med == m
  {
    if s == [] then []
    else (if s[0].med == m then [s[0]] else []) + Of(s[1..], m)
  }

  /** How many times `m` is listed. */
  function Occurrences(meds: seq<Medication>, m: Medication): nat {
    if meds == [] then 0 else (if meds[0] == m then 1 else 0) + Occurrences(meds[1..], m)
  }

  // ----- the stable sort -----

  lemma {:induction false} InsertSorted(d: Dose, s: seq<Dose>)
    requires ByTime(s)
    ensures ByTime(InsertByTime(d, s))
  {
    if s != [] && d.scheduledTime > s[0].scheduledTime {
      InsertSorted(d, s[1..]);
      var r := InsertByTime(d, s[1..]);
      forall k | 0 <= k < |r| ensures s[0].scheduledTime <= r[k].scheduledTime {
        assert r[k] in multiset(r);
        if r[k] != d {
          assert r[k] in multiset(s[1..]);
          var m :| 0 <= m < |s[1..]| && s[1..][m] == r[k];
          assert s[m + 1] == r[k];
        }
      }
      assert InsertByTime(d, s) == [s[0]] + r;
    }
  }

  /** Insertion keeps every time's doses in order and puts `d` in front of
      the doses already at its time. */
  lemma {:induction false} InsertAt(d: Dose, s: seq<Dose>, t: Time)
    ensures At(InsertByTime(d, s), t) == (if d.scheduledTime == t then [d] else []) + At(s, t)
  {
    if s != [] && d.scheduledTime > s[0].scheduledTime {
      var r := InsertByTime(d, s[1..]);
      assert InsertByTime(d, s) == [s[0]] + r;
      assert ([s[0]] + r)[1..] == r;
      InsertAt(d, s[1..], t);
      var head := if s[0].scheduledTime == t then [s[0]] else [];
      assert At([s[0]] + r, t) == head + At(r, t);
      assert At(s, t) == head + At(s[1..], t);
      if d.scheduledTime == t {
        assert head == [];
        assert At(r, t) == [d] + At(s[1..], t);
      } else {
        assert At(r, t) == [] + At(s[1..], t) == At(s[1..], t);
      }
    } else {
      assert InsertByTime(d, s) == [d] + s;
      assert ([d] + s)[1..] == s;
    }
  }

  lemma {:induction false} InsertOf(d: Dose, s: seq<Dose>, m: Medication)
    ensures |Of(InsertByTime(d, s), m)| == (if d.med == m then 1 else 0) + |Of(s, m)|
  {
    if s != [] && d.scheduledTime > s[0].scheduledTime {
      InsertOf(d, s[1..], m);
      assert InsertByTime(d, s)[1..] == InsertByTime(d, s[1..]);
    } else {
      assert ([d] + s)[1..] == s;
    }
  }

  /** The sort orders by time and is a permutation. */
  lemma {:induction false} SortOrders(s: seq<Dose>)
    ensures ByTime(SortByTime(s))
    ensures multiset(SortByTime(s)) == multiset(s)
  {
    if s != [] {
      SortOrders(s[1..]);
      InsertSorted(s[0], SortByTime(s[1..]));
    }
  }

  /** The sort is stable: the doses sharing a time keep their relative order. */
  lemma {:induction false} SortStable(s: seq<Dose>, t: Time)
    ensures At(SortByTime(s), t) == At(s, t)
  {
    if s != [] {
      SortStable(s[1..], t);
      InsertAt(s[0], SortByTime(s[1..]), t);
    }
  }

  /** The sort keeps the number of doses of each medication. */
  lemma {:induction false} SortKeepsCounts(s: seq<Dose>, m: Medication)
    ensures |Of(SortByTime(s), m)| == |Of(s, m)|
  {
    if s != [] {
      SortKeepsCounts(s[1..], m);
      InsertOf(s[0], SortByTime(s[1..]), m);
    }
  }

  // ----- the expansion -----

  lemma {:induction false} ExpandMembers(meds: seq<Medication>, logs: seq<MedLog>, today: Day, d: Dose)
    requires d in Expand(meds, logs, today)
    ensures d.med in meds && d.med.active && d.scheduledTime in d.med.times
    ensures d.isTaken <==> IsLogged(logs, d.med.id, today, d.scheduledTime)
  {
    if meds != [] {
      var head := if meds[0].active then DosesOf(meds[0], logs, today) else [];
      if d in head {
        var i :| 0 <= i < |head| && head[i] == d;
      } else {
        ExpandMembers(meds[1..], logs, today, d);
      }
    }
  }

  lemma {:induction false} OfAppend(s: seq<Dose>, u: seq<Dose>, m: Medication)
    ensures Of(s + u, m) == Of(s, m) + Of(u, m)
  {
    if s != [] {
      OfAppend(s[1..], u, m);
      assert (s + u)[1..] == s[1..] + u;
    } else {
      assert s + u == u;
    }
  }

  lemma {:induction false} OfUniform(s: seq<Dose>, m: Medication, n: Medication)
    requires forall i :: 0 <= i < |s| ==> s[i].med == n
    ensures Of(s, m) == if n == m then s else []
  {
    if s != [] {
      OfUniform(s[1..], m, n);
    }
  }

  lemma HeadCount(m0: Medication, logs: seq<MedLog>, today: Day, m: Medication)
    ensures |Of(if m0.active then DosesOf(m0, logs, today) else [], m)| == if m0 == m && m.active then |m.times| else 0
  {
    OfUniform(if m0.active then DosesOf(m0, logs, today) else [], m, m0);
  }

  /** The doses `m` contributes: its time count for each active listing. */
  function ScheduledCount(meds: seq<Medication>, m: Medication): nat {
    if meds == [] then 0
    else (if meds[0] == m && m.active then |m.times| else 0) + ScheduledCount(meds[1..], m)
  }

  lemma {:induction false} ScheduledCountIs(meds: seq<Medication>, m: Medication)
    ensures ScheduledCount(meds, m) == if m.active then Occurrences(meds, m) * |m.times| else 0
  {
    if meds != [] {
      ScheduledCountIs(meds[1..], m);
      var o := if meds[0] == m then 1 else 0;
      assert (o + Occurrences(meds[1..], m)) * |m.times| == o * |m.times| + Occurrences(meds[1..], m) * |m.times|;
    }
  }

  lemma {:induction false} ExpandCount(meds: seq<Medication>, logs: seq<MedLog>, today: Day, m: Medication)
    ensures |Of(Expand(meds, logs, today), m)| == ScheduledCount(meds, m)
  {
    if meds != [] {
      var head := if meds[0].active then DosesOf(meds[0], logs, today) else [];
      var rest := Expand(meds[1..], logs, today);
      assert Expand(meds, logs, today) == head + rest;
      ExpandCount(meds[1..], logs, today, m);
      OfAppend(head, rest, m);
      HeadCount(meds[0], logs, today, m);
    }
  }

  // ----- what today's schedule promises -----

  /** Every listed dose belongs to an active medication, at one of its times,
      and is marked taken exactly when some log records that medication at
      that time today. */
  lemma TodaysMedsDoses(meds: seq<Medication>, logs: seq<MedLog>, today: Day)
    ensures forall d :: d in TodaysMeds(meds, logs, today) ==>
              d.med in meds && d.med.active && d.scheduledTime in d.med.times
              && (d.isTaken <==> IsLogged(logs, d.med.id, today, d.scheduledTime))
  {
    var e := Expand(meds, logs, today);
    SortOrders(e);
    forall d | d in TodaysMeds(meds, logs, today)
      ensures d.med in meds && d.med.active && d.scheduledTime in d.med.times
              && (d.isTaken <==> IsLogged(logs, d.med.id, today, d.scheduledTime))
    {
      assert d in multiset(SortByTime(e));
      ExpandMembers(meds, logs, today, d);
    }
  }

  /** An inactive medication contributes nothing; an active one contributes
      exactly one dose per scheduled time, duplicates included, for each
      time it is listed. */
  lemma TodaysMedsCount(meds: seq<Medication>, logs: seq<MedLog>, today: Day, m: Medication)
    ensures |Of(TodaysMeds(meds, logs, today), m)| == if m.active then Occurrences(meds, m) * |m.times| else 0
  {
    SortKeepsCounts(Expand(meds, logs, today), m);
    ExpandCount(meds, logs, today, m);
    ScheduledCountIs(meds, m);
  }

  /** How many times `t` is listed in `times`. */
  function TimesAt(times: seq<Time>, t: Time): nat {
    if times == [] then 0
    else TimesAt(times[..|times| - 1], t) + (if times[|times| - 1] == t then 1 else 0)
  }

  /** The dose of `m` at `t`: the only value a listed dose of `m` at `t` can take. */
  function DoseAt(m: Medication, logs: seq<MedLog>, today: Day, t: Time): Dose {
    Dose(m, t, IsLogged(logs, m.id, today, t))
  }

  lemma {:induction false} DosesOfCount(m0: Medication, logs: seq<MedLog>, today: Day, m: Medication, t: Time, n: nat)
    requires n <= |m0.times|
    ensures multiset(DosesOf(m0, logs, today)[..n])[DoseAt(m, logs, today, t)]
            == if m0 == m then TimesAt(m0.times[..n], t) else 0
  {
    if n > 0 {
      var ds := DosesOf(m0, logs, today);
      DosesOfCount(m0, logs, today, m, t, n - 1);
      assert ds[..n] == ds[..n - 1] + [ds[n - 1]];
      assert m0.times[..n][..n - 1] == m0.times[..n - 1];
      assert ds[n - 1] == DoseAt(m, logs, today, t) <==> m0 == m && m0.times[n - 1] == t;
    }
  }

  lemma {:induction false} ExpandPerTime(meds: seq<Medication>, logs: seq<MedLog>, today: Day, m: Medication, t: Time)
    ensures multiset(Expand(meds, logs, today))[DoseAt(m, logs, today, t)]
            == if m.active then Occurrences(meds, m) * TimesAt(m.times, t) else 0
  {
    if meds != [] {
      var m0 := meds[0];
      var head := if m0.active then DosesOf(m0, logs, today) else [];
      var d := DoseAt(m, logs, today, t);
      ExpandPerTime(meds[1..], logs, today, m, t);
      assert Expand(meds, logs, today) == head + Expand(meds[1..], logs, today);
      DosesOfCount(m0, logs, today, m, t, |m0.times|);
      assert DosesOf(m0, logs, today)[..|m0.times|] == DosesOf(m0, logs, today);
      assert m0.times[..|m0.times|] == m0.times;
      assert multiset(head)[d] == if m0.active && m0 == m then TimesAt(m.times, t) else 0;
      var o := if m0 == m then 1 else 0;
      assert (o + Occurrences(meds[1..], m)) * TimesAt(m.times, t)
             == o * TimesAt(m.times, t) + Occurrences(meds[1..], m) * TimesAt(m.times, t);
    }
  }

  /** Every scheduled time of an active medication gets its own dose in
      today's list, once for each time it is scheduled at that time (so
      duplicated times give duplicated doses); an inactive medication has
      none. `TodaysMedsDoses` shows that a listed dose of `m` at `t` is
      exactly `DoseAt(m, logs, today, t)`. */
  lemma TodaysMedsPerTime(meds: seq<Medication>, logs: seq<MedLog>, today: Day, m: Medication, t: Time)
    ensures multiset(TodaysMeds(meds, logs, today))[DoseAt(m, logs, today, t)]
            == if m.active then Occurrences(meds, m) * TimesAt(m.times, t) else 0
  {
    ExpandPerTime(meds, logs, today, m, t);
  }

  /** The list is in time-of-day order, and the doses due at the same time
      appear in the order of their medications. */
  lemma TodaysMedsOrder(meds: seq<Medication>, logs: seq<MedLog>, today: Day)
    ensures ByTime(TodaysMeds(meds, logs, today))
    ensures forall t :: At(TodaysMeds(meds, logs, today), t) == At(Expand(meds, logs, today), t)
  {
    SortOrders(Expand(meds, logs, today));
    forall t ensures At(TodaysMeds(meds, logs, today), t) == At(Expand(meds, logs, today), t) {
      SortStable(Expand(meds, logs, today), t);
    }
  }

  /** A medication taken at 08:00 today and due again at 20:00 lists two
      doses: the morning one taken, the evening one not. */
  lemma MorningTakenEveningDue(m: Medication, log: MedLog, today: Day)
    requires m.active && m.times == [Morning, 20 * 60]
    requires log.medicationId == m.id && log.date == today && log.time == Morning
    ensures TodaysMeds([m], [log], today) == [Dose(m, Morning, true), Dose(m, 20 * 60, false)]
  {
    var e := Expand([m], [log], today);
    assert [m][1..] == [];
    assert e == DosesOf(m, [log], today) + Expand([], [log], today);
    assert IsLogged([log], m.id, today, Morning) by {
      assert LogFor([log][0], m.id, today, Morning);
    }
    assert e == [Dose(m, Morning, true), Dose(m, 20 * 60, false)];
    assert SortByTime(e[1..]) == [e[1]];
  }

  // ----- the medication form -----

  /** The edits the form offers on its time list. */
  datatype TimeEdit = SetTime(index: nat, time: Time) | RemoveTime(index: nat) | AddTime

  /** The time inputs change existing slots; the remove button is only
      rendered for slots after the first. */
  predicate Offered(times: seq<Time>, edit: TimeEdit) {
    match edit
    case SetTime(i, _) => i < |times|
    case RemoveTime(i) => 0 < i < |times|
    case AddTime => true
  }

  /** `times.filter((_, idx) => idx !== i)` */
  function WithoutIndex(times: seq<Time>, i: nat): (r: seq<Time>)
    ensures i < |times| ==> |r| == |times| - 1 && forall k :: 0 <= k < |r| ==> r[k] == times[if k < i then k else k + 1]
    ensures i >= |times| ==> r == times
  {
    if i < |times| then times[..i] + times[i + 1..] else times
  }

  /** One edit: a time input overwrites only its own slot, the remove button
      drops one slot, and the add button appends a `12:00` slot. */
  function ApplyEdit(times: seq<Time>, edit: TimeEdit): (r: seq<Time>)
    ensures |times| - 1 <= |r| <= |times| + 1
    ensures edit.SetTime? && edit.index < |times| ==>
              |r| == |times| && r[edit.index] == edit.time
              && forall j :: 0 <= j < |times| && j != edit.index ==> r[j] == times[j]
    ensures edit.RemoveTime? && edit.index < |times| ==> |r| == |times| - 1
    ensures edit.RemoveTime? ==> r == WithoutIndex(times, edit.index)
    ensures edit.AddTime? ==> |r| == |times| + 1 && r[..|times|] == times && r[|times|] == Noon
  {
    match edit
    case SetTime(i, t) => if i < |times| then times[i := t] else times
    case RemoveTime(i) => WithoutIndex(times, i)
    case AddTime => times + [Noon]
  }

  /** Each edit changes the number of slots by at most one. */
  function ApplyEdits(times: seq<Time>, edits: seq<TimeEdit>): (r: seq<Time>)
    ensures |times| - |edits| <= |r| <= |times| + |edits|
    decreases |edits|
  {
    if edits == [] then times else ApplyEdits(ApplyEdit(times, edits[0]), edits[1..])
  }

  /** Edits the form offers, applied one after another. */
  predicate AllOffered(times: seq<Time>, edits: seq<TimeEdit>)
    decreases |edits|
  {
    edits == [] || (Offered(times, edits[0]) && AllOffered(ApplyEdit(times, edits[0]), edits[1..]))
  }

  /** No sequence of offered edits empties the schedule. */
  lemma {:induction false} EditsKeepTimes(times: seq<Time>, edits: seq<TimeEdit>)
    requires times != [] && AllOffered(times, edits)
    ensures ApplyEdits(times, edits) != []
    decreases |edits|
  {
    if edits != [] {
      var next := ApplyEdit(times, edits[0]);
      assert next != [] by {
        match edits[0]
        case SetTime(i, t) =>
        case RemoveTime(i) => assert |next| == |times| - 1;
        case AddTime =>
      }
      EditsKeepTimes(next, edits[1..]);
    }
  }

  /** `handleSaveMedication`: without a signed-in user nothing is written;
      otherwise the form is stored as an active medication under the id the
      store assigns. */
  function SaveMedication(signedIn: bool, form: MedicationForm, id: string): (r: Option<Medication>)
    ensures r.Some? <==> signedIn
    ensures r.Some? ==> r.value.active && r.value.id == id && r.value.times == form.times
                        && r.value.name == form.name && r.value.dosage == form.dosage
                        && r.value.frequency == form.frequency
  {
    if signedIn then Some(Medication(id, form.name, form.dosage, form.frequency, form.times, true)) else None
  }

  /** A form built by offered edits from a fresh one has at least one time. */
  lemma FormHasTimes(edits: seq<TimeEdit>)
    requires AllOffered(InitialTimes, edits)
    ensures ApplyEdits(InitialTimes, edits) != []
  {
    EditsKeepTimes(InitialTimes, edits);
  }

  /** A medication saved from a form built by offered edits is scheduled at
      least once a day: it shows in today's list once per time on the form. */
  lemma SavedMedicationScheduled(form: MedicationForm, edits: seq<TimeEdit>, id: string,
                                 logs: seq<MedLog>, today: Day)
    requires AllOffered(InitialTimes, edits) && form.times == ApplyEdits(InitialTimes, edits)
    ensures SaveMedication(true, form, id).Some?
    ensures var m := SaveMedication(true, form, id).value;
            |Of(TodaysMeds([m], logs, today), m)| == |form.times| > 0
  {
    FormHasTimes(edits);
    var m := SaveMedication(true, form, id).value;
    assert Occurrences([m], m) == 1 by {
      assert [m][1..] == [];
    }
    TodaysMedsCount([m], logs, today, m);
    assert m.active && m.times == form.times;
    assert Occurrences([m], m) * |m.times| == |form.times|;
  }
}
