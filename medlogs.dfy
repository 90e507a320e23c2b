/** The medication-log collection and the "taken" toggle on a scheduled dose.

    Pressing a dose's check mark looks for today's log of that medication at
    that time: an existing log is deleted, otherwise a new log is added with
    `taken` set. The store assigns document ids; here they come from a
    counter, so a new log's id is larger than every id in use. */
module MedicationLogs {
  import opened Wrappers
  import opened Medications

  /** The dose a log stands for. */
  datatype DoseKey = DoseKey(medicationId: string, date: Day, time: Time)

  function KeyOf(l: MedLog): DoseKey {
    DoseKey(l.medicationId, l.date, l.time)
  }

  /** `medLogs.find(...)`: the index of the first log of that dose. */
  function FindLog(logs: seq<MedLog>, medId: string, date: Day, time: Time): (r: Option<nat>)
    ensures r.None? <==> !IsLogged(logs, medId, date, time)
    ensures r.Some? ==> r.value < |logs| && LogFor(logs[r.value], medId, date, time)
                        && forall j :: 0 <= j < r.value ==> !LogFor(logs[j], medId, date, time)
  {
    if logs == [] then None
    else if LogFor(logs[0], medId, date, time) then Some(0)
    else
      var r := FindLog(logs[1..], medId, date, time);
      assert r.None? <==> !IsLogged(logs, medId, date, time) by {
        if IsLogged(logs, medId, date, time) {
          var i :| 0 <= i < |logs| && LogFor(logs[i], medId, date, time);
          assert logs[1..][i - 1] == logs[i];
        }
      }
      if r.None? then None
      else
        assert forall j :: 0 < j <= r.value ==> logs[j] == logs[1..][j - 1];
        Some(r.value + 1)
  }

  /** Deleting the document with id `id`. */
  function RemoveId(logs: seq<MedLog>, id: nat): (r: seq<MedLog>)
    ensures |r| <= |logs|
  {
    if logs == [] then []
    else (if logs[0].id == id then [] else [logs[0]]) + RemoveId(logs[1..], id)
  }

  /** The log collection after the toggle of dose (`medId`, `date`, `time`),
      with `freshId` the id the store gives a new document. */
  function ApplyToggle(logs: seq<MedLog>, freshId: nat, medId: string, date: Day, time: Time): (r: seq<MedLog>)
    ensures IsLogged(logs, medId, date, time) ==> |r| < |logs|
    ensures !IsLogged(logs, medId, date, time) ==>
              |r| == |logs| + 1 && r[..|logs|] == logs && LogFor(r[|logs|], medId, date, time) && r[|logs|].taken
  {
    match FindLog(logs, medId, date, time)
    case Some(i) =>
      RemoveIdShrinks(logs, i);
      RemoveId(logs, logs[i].id)
    case None => logs + [MedLog(freshId, medId, date, time, true)]
  }

  /** Deleting an id in use removes at least one log. */
  lemma {:induction false} RemoveIdShrinks(logs: seq<MedLog>, i: nat)
    requires i < |logs|
    ensures |RemoveId(logs, logs[i].id)| < |logs|
  {
    if i > 0 {
      assert logs[1..][i - 1] == logs[i];
      RemoveIdShrinks(logs[1..], i - 1);
    }
  }

  predicate UniqueIds(logs: seq<MedLog>) {
    forall i, j :: 0 <= i < j < |logs| ==> logs[i].id != logs[j].id
  }

  predicate IdsBelow(logs: seq<MedLog>, bound: nat) {
    forall i :: 0 <= i < |logs| ==> logs[i].id < bound
  }

  /** At most one log per dose. */
  predicate OnePerDose(logs: seq<MedLog>) {
    forall i, j :: 0 <= i < j < |logs| ==> KeyOf(logs[i]) != KeyOf(logs[j])
  }

  /** The logs of one dose, in order. */
  function WithKey(logs: seq<MedLog>, k: DoseKey): (r: seq<MedLog>)
    ensures forall l :: l in r <==> l in logs && KeyOf(l) == k
  {
    if logs == [] then []
    else (if KeyOf(logs[0]) == k then [logs[0]] else []) + WithKey(logs[1..], k)
  }

  lemma {:induction false} WithKeyAppend(s: seq<MedLog>, u: seq<MedLog>, k: DoseKey)
    ensures WithKey(s + u, k) == WithKey(s, k) + WithKey(u, k)
  {
    if s == [] {
      assert s + u == u;
    } else {
      assert (s + u)[1..] == s[1..] + u;
      WithKeyAppend(s[1..], u, k);
    }
  }

  lemma {:induction false} NoSuchId(logs: seq<MedLog>, id: nat)
    requires forall j :: 0 <= j < |logs| ==> logs[j].id != id
    ensures RemoveId(logs, id) == logs
  {
    if logs != [] {
      NoSuchId(logs[1..], id);
      assert logs == [logs[0]] + logs[1..];
    }
  }

  /** With unique ids, deleting by id removes exactly the one log carrying it. */
  lemma RemoveUniqueId(logs: seq<MedLog>, i: nat)
    requires UniqueIds(logs) && i < |logs|
    ensures RemoveId(logs, logs[i].id) == logs[..i] + logs[i + 1..]
  {
    RemoveOnlyId(logs, i);
  }

  /** Deleting the id carried by log `i` alone drops just that log. */
  lemma {:induction false} RemoveOnlyId(logs: seq<MedLog>, i: nat)
    requires i < |logs| && forall j :: 0 <= j < |logs| && j != i ==> logs[j].id != logs[i].id
    ensures RemoveId(logs, logs[i].id) == logs[..i] + logs[i + 1..]
  {
    var id := logs[i].id;
    var tail := logs[1..];
    assert RemoveId(logs, id) == (if logs[0].id == id then [] else [logs[0]]) + RemoveId(tail, id);
    if i == 0 {
      assert forall j :: 0 <= j < |tail| ==> tail[j] == logs[j + 1];
      NoSuchId(tail, id);
    } else {
      assert tail[i - 1] == logs[i];
      assert forall j :: 0 <= j < |tail| ==> tail[j] == logs[j + 1];
      RemoveOnlyId(tail, i - 1);
      assert tail[..i - 1] + tail[i..] == logs[1..i] + logs[i + 1..];
      assert [logs[0]] + logs[1..i] == logs[..i];
    }
  }

  /** Dropping one log keeps the others' keys out of the other doses. */
  lemma DropOther(logs: seq<MedLog>, i: nat, k: DoseKey)
    requires i < |logs| && KeyOf(logs[i]) != k
    ensures WithKey(logs[..i] + logs[i + 1..], k) == WithKey(logs, k)
  {
    assert logs == logs[..i] + ([logs[i]] + logs[i + 1..]);
    WithKeyAppend(logs[..i], [logs[i]] + logs[i + 1..], k);
    WithKeyAppend([logs[i]], logs[i + 1..], k);
    WithKeyAppend(logs[..i], logs[i + 1..], k);
  }

  /** Dropping one log keeps ids unique and bounded and doses unrepeated. */
  lemma DropKeeps(logs: seq<MedLog>, i: nat, bound: nat)
    requires i < |logs|
    ensures var r := logs[..i] + logs[i + 1..];
            (UniqueIds(logs) ==> UniqueIds(r)) && (IdsBelow(logs, bound) ==> IdsBelow(r, bound))
            && (OnePerDose(logs) ==> OnePerDose(r))
  {
    var r := logs[..i] + logs[i + 1..];
    assert forall j :: 0 <= j < |r| ==> r[j] == logs[if j < i then j else j + 1];
  }

  /** The toggle of a logged dose deletes exactly its first log; the toggle
      of an unlogged dose appends one new `taken` log under the fresh id. */
  lemma ToggleEffect(logs: seq<MedLog>, freshId: nat, medId: string, date: Day, time: Time)
    requires UniqueIds(logs)
    ensures var r := ApplyToggle(logs, freshId, medId, date, time);
            if IsLogged(logs, medId, date, time) then
              exists i :: 0 <= i < |logs| && LogFor(logs[i], medId, date, time)
                          && (forall j :: 0 <= j < i ==> !LogFor(logs[j], medId, date, time))
                          && r == logs[..i] + logs[i + 1..]
            else r == logs + [MedLog(freshId, medId, date, time, true)]
  {
    var f := FindLog(logs, medId, date, time);
    if f.Some? {
      RemoveUniqueId(logs, f.value);
    }
  }

  /** The logs of every other dose are untouched. */
  lemma ToggleKeepsOtherDoses(logs: seq<MedLog>, freshId: nat, medId: string, date: Day, time: Time, k: DoseKey)
    requires UniqueIds(logs) && k != DoseKey(medId, date, time)
    ensures WithKey(ApplyToggle(logs, freshId, medId, date, time), k) == WithKey(logs, k)
  {
    var added := MedLog(freshId, medId, date, time, true);
    match FindLog(logs, medId, date, time)
    case Some(i) =>
      RemoveUniqueId(logs, i);
      DropOther(logs, i, k);
    case None =>
      WithKeyAppend(logs, [added], k);
      assert WithKey([added], k) == [] by {
        assert KeyOf(added) != k;
      }
  }

  /** With at most one log per dose, the toggle flips whether the dose is
      logged, and keeps at most one log per dose. */
  lemma ToggleFlips(logs: seq<MedLog>, freshId: nat, medId: string, date: Day, time: Time)
    requires UniqueIds(logs) && OnePerDose(logs)
    ensures var r := ApplyToggle(logs, freshId, medId, date, time);
            (IsLogged(r, medId, date, time) <==> !IsLogged(logs, medId, date, time))
            && OnePerDose(r)
  {
    var r := ApplyToggle(logs, freshId, medId, date, time);
    var k := DoseKey(medId, date, time);
    match FindLog(logs, medId, date, time)
    case Some(i) =>
      RemoveUniqueId(logs, i);
      assert forall j :: 0 <= j < |r| ==> r[j] == logs[if j < i then j else j + 1];
      forall j | 0 <= j < |r| ensures !LogFor(r[j], medId, date, time) {
        var q := if j < i then j else j + 1;
        assert r[j] == logs[q] && q != i;
        assert KeyOf(logs[i]) == k;
        if q < i { assert KeyOf(logs[q]) != KeyOf(logs[i]); } else { assert KeyOf(logs[i]) != KeyOf(logs[q]); }
      }
      DropKeeps(logs, i, 0);
    case None =>
      assert r[|logs|] == MedLog(freshId, medId, date, time, true);
      assert LogFor(r[|logs|], medId, date, time);
      forall a, b | 0 <= a < b < |r| ensures KeyOf(r[a]) != KeyOf(r[b]) {
        if b == |logs| {
          assert r[a] == logs[a];
          assert !LogFor(logs[a], medId, date, time);
        } else {
          assert r[a] == logs[a] && r[b] == logs[b];
        }
      }
  }

  /** New ids stay unique and below the next counter value. */
  lemma ToggleKeepsIds(logs: seq<MedLog>, freshId: nat, medId: string, date: Day, time: Time)
    requires UniqueIds(logs) && IdsBelow(logs, freshId)
    ensures var r := ApplyToggle(logs, freshId, medId, date, time);
            UniqueIds(r) && IdsBelow(r, freshId + 1)
  {
    var r := ApplyToggle(logs, freshId, medId, date, time);
    match FindLog(logs, medId, date, time)
    case Some(i) =>
      RemoveUniqueId(logs, i);
      DropKeeps(logs, i, freshId + 1);
    case None =>
      forall a, b | 0 <= a < b < |r| ensures r[a].id != r[b].id {
        assert r[a] == logs[a];
      }
  }

  /** Taking an untaken dose and then undoing it restores the collection. */
  lemma ToggleTwice(logs: seq<MedLog>, f1: nat, f2: nat, medId: string, date: Day, time: Time)
    requires UniqueIds(logs) && IdsBelow(logs, f1) && !IsLogged(logs, medId, date, time)
    ensures ApplyToggle(ApplyToggle(logs, f1, medId, date, time), f2, medId, date, time) == logs
  {
    var once := ApplyToggle(logs, f1, medId, date, time);
    assert once == logs + [MedLog(f1, medId, date, time, true)];
    ToggleKeepsIds(logs, f1, medId, date, time);
    var f := FindLog(once, medId, date, time);
    assert LogFor(once[|logs|], medId, date, time);
    assert forall j :: 0 <= j < |logs| ==> once[j] == logs[j];
    assert f.value == |logs|;
    RemoveUniqueId(once, |logs|);
    assert once[..|logs|] == logs;
  }

  /** Three presses leave the same collection as one, up to the new id. */
  lemma ToggleThrice(logs: seq<MedLog>, f1: nat, f2: nat, f3: nat, medId: string, date: Day, time: Time)
    requires UniqueIds(logs) && IdsBelow(logs, f1) && !IsLogged(logs, medId, date, time)
    ensures ApplyToggle(ApplyToggle(ApplyToggle(logs, f1, medId, date, time), f2, medId, date, time),
                        f3, medId, date, time)
            == ApplyToggle(logs, f3, medId, date, time)
  {
    ToggleTwice(logs, f1, f2, medId, date, time);
  }

  /** After a toggle, today's list shows the pressed dose with its mark
      flipped, for every medication carrying that id. */
  lemma ToggleFlipsDose(meds: seq<Medication>, logs: seq<MedLog>, freshId: nat, medId: string, today: Day, time: Time)
    requires UniqueIds(logs) && OnePerDose(logs)
    ensures forall d :: d in TodaysMeds(meds, ApplyToggle(logs, freshId, medId, today, time), today)
                        && d.med.id == medId && d.scheduledTime == time
                        ==> (d.isTaken <==> !IsLogged(logs, medId, today, time))
  {
    ToggleFlips(logs, freshId, medId, today, time);
    TodaysMedsDoses(meds, ApplyToggle(logs, freshId, medId, today, time), today);
  }

  /** The `medication_logs` collection as the client sees it. */
  class LogStore {
    var logs: seq<MedLog>
    /** The id the next added log receives. */
    var nextId: nat

    ghost predicate Valid()
      reads this
    {
      UniqueIds(logs) && IdsBelow(logs, nextId)
    }

    constructor()
      ensures Valid() && logs == [] && nextId == 0
    {
      logs := [];
      nextId := 0;
    }

    /** `toggleMedTaken(medId, timeSlot)` on day `today`; nothing happens
        without a signed-in user. */
    method Toggle(signedIn: bool, medId: string, today: Day, timeSlot: Time)
      requires Valid()
      modifies this
      ensures Valid()
      ensures !signedIn ==> logs == old(logs) && nextId == old(nextId)
      ensures signedIn ==> logs == ApplyToggle(old(logs), old(nextId), medId, today, timeSlot)
      ensures signedIn ==> nextId == if old(IsLogged(logs, medId, today, timeSlot)) then old(nextId) else old(nextId) + 1
      ensures signedIn && old(OnePerDose(logs)) ==>
                OnePerDose(logs) && (IsLogged(logs, medId, today, timeSlot) <==> !old(IsLogged(logs, medId, today, timeSlot)))
    {
      if !signedIn {
        return;
      }
      ToggleKeepsIds(logs, nextId, medId, today, timeSlot);
      if OnePerDose(logs) {
        ToggleFlips(logs, nextId, medId, today, timeSlot);
      }
      var existing := FindLog(logs, medId, today, timeSlot);
      match existing
      case Some(i) =>
        RemoveUniqueId(logs, i);
        DropKeeps(logs, i, nextId);
        logs := RemoveId(logs, logs[i].id);
      case None =>
        logs := logs + [MedLog(nextId, medId, today, timeSlot, true)];
        nextId := nextId + 1;
    }
  }
}
