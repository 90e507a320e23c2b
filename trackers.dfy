/** Tracker definitions: the user-defined measurement templates, the
    "effective types" fallback for trackers saved before multi-field trackers
    existed, the tracker-builder form's type toggle and save validation, and
    the lookup of an entry's tracker with its fallback label. */
module Trackers {
  import opened Wrappers

  /** The field kinds a tracker can combine (the `DATA_TYPES` table). */
  datatype FieldKind = Scale5 | Scale10 | Number | Boolean | Duration | Text

  /** A stored tracker definition. `types` is absent on legacy trackers, which
      only carry the single `dataType`; icon and colour are presentation only. */
  datatype Tracker = Tracker(id: string, name: string, types: Option<seq<FieldKind>>, dataType: FieldKind)

  /** The tracker-builder form: a name and the selected field kinds, in
      selection order. */
  datatype TrackerForm = TrackerForm(name: string, types: seq<FieldKind>)

  /** The record written to the store by a successful save. */
  datatype TrackerRecord = TrackerRecord(name: string, types: seq<FieldKind>, dataType: FieldKind)

  /** What a press of "save" does: nothing without a signed-in user, an alert
      for a missing name or an empty type list, otherwise one store write. */
  datatype SaveOutcome = NotSignedIn | MissingName | NoTypes | Write(record: TrackerRecord)

  const UnknownTrackerLabel: string := "Unknown Tracker"
  const UnknownLabel: string := "Unknown"

  /** `tracker.types || [tracker.dataType]`. A present list is used even when
      it is empty, since an empty JavaScript array is truthy. */
  function EffectiveTypes(t: Tracker): (r: seq<FieldKind>)
    ensures t.types.None? ==> r == [t.dataType]
    ensures t.types.Some? ==> r == t.types.value
    ensures r == [] <==> t.types == Some([])
    ensures (t.types.None? || (t.types.value != [] && t.types.value[0] == t.dataType)) ==>
              r != [] && r[0] == t.dataType
  {
    match t.types
    case Some(ts) => ts
    case None => [t.dataType]
  }

  /** `s.filter(x => x !== k)`: every occurrence of `k` dropped, the rest in order. */
  function Without(s: seq<FieldKind>, k: FieldKind): (r: seq<FieldKind>)
    ensures forall x :: x in r <==> x in s && x != k
    ensures |r| <= |s|
    ensures k !in s ==> r == s
  {
    if s == [] then []
    else if s[0] == k then Without(s[1..], k)
    else [s[0]] + Without(s[1..], k)
  }

  /** The builder's field-kind toggle: a selected kind is removed (every
      occurrence), an unselected one is appended at the end. */
  function ToggleTrackerType(types: seq<FieldKind>, k: FieldKind): (r: seq<FieldKind>)
    ensures k in r <==> k !in types
    ensures forall x :: x != k ==> (x in r <==> x in types)
    ensures k !in types ==> r == types + [k]
    ensures k in types ==> r == Without(types, k)
    ensures types != [] && k != types[0] ==> r != [] && r[0] == types[0]
  {
    if k in types then Without(types, k) else types + [k]
  }

  /** Filtering distributes over concatenation. */
  lemma {:induction false} WithoutAppend(s: seq<FieldKind>, t: seq<FieldKind>, k: FieldKind)
    ensures Without(s + t, k) == Without(s, k) + Without(t, k)
  {
    if s == [] {
      assert s + t == t;
    } else {
      assert (s + t)[0] == s[0];
      assert (s + t)[1..] == s[1..] + t;
      WithoutAppend(s[1..], t, k);
    }
  }

  /** Toggling a kind leaves the other kinds exactly as they were, in the same order. */
  lemma ToggleKeepsOthers(types: seq<FieldKind>, k: FieldKind)
    ensures Without(ToggleTrackerType(types, k), k) == Without(types, k)
  {
    if k !in types {
      WithoutAppend(types, [k], k);
      assert Without([k], k) == [];
    } else {
      assert k !in Without(types, k);
    }
  }

  /** Selecting an unselected kind and then deselecting it restores the list. */
  lemma ToggleTwiceFromAbsent(types: seq<FieldKind>, k: FieldKind)
    requires k !in types
    ensures ToggleTrackerType(ToggleTrackerType(types, k), k) == types
  {
    WithoutAppend(types, [k], k);
    assert Without([k], k) == [];
  }

  /** No kind is selected twice. */
  predicate Distinct(s: seq<FieldKind>) {
    forall i, j :: 0 <= i < j < |s| ==> s[i] != s[j]
  }

  lemma {:induction false} WithoutKeepsDistinct(s: seq<FieldKind>, k: FieldKind)
    requires Distinct(s)
    ensures Distinct(Without(s, k))
  {
    if s != [] {
      WithoutKeepsDistinct(s[1..], k);
      var tail := Without(s[1..], k);
      assert s[0] !in s[1..] by {
        forall j | 0 <= j < |s| - 1 ensures s[1..][j] != s[0] {
          assert s[1..][j] == s[j + 1];
        }
      }
      if s[0] != k {
        var r := [s[0]] + tail;
        forall i, j | 0 <= i < j < |r| ensures r[i] != r[j] {
          if i == 0 {
            assert r[0] == s[0];
            assert r[j] == tail[j - 1] && tail[j - 1] in tail;
            assert tail[j - 1] in s[1..];
          } else {
            assert r[i] == tail[i - 1] && r[j] == tail[j - 1];
          }
        }
      }
    }
  }

  /** A list without repeats keeps that property under the toggle. */
  lemma ToggleKeepsDistinct(types: seq<FieldKind>, k: FieldKind)
    requires Distinct(types)
    ensures Distinct(ToggleTrackerType(types, k))
  {
    if k in types {
      WithoutKeepsDistinct(types, k);
    } else {
      var r := types + [k];
      forall i, j | 0 <= i < j < |r| ensures r[i] != r[j] {
        if j == |types| {
          assert r[i] == types[i] && types[i] in types;
        } else {
          assert r[i] == types[i] && r[j] == types[j];
        }
      }
    }
  }

  /** `handleSaveTracker`: the signed-in check, then the two validation
      alerts, in that order, before any write; the written record takes
      its legacy `dataType` from the first selected kind. */
  function SaveTracker(signedIn: bool, form: TrackerForm): (r: SaveOutcome)
    ensures r.Write? <==> signedIn && form.name != [] && form.types != []
    ensures !signedIn ==> r == NotSignedIn
    ensures signedIn && form.name == [] ==> r == MissingName
    ensures signedIn && form.name != [] && form.types == [] ==> r == NoTypes
    ensures r.Write? ==> r.record.name == form.name && r.record.types == form.types
                         && r.record.dataType == form.types[0]
  {
    if !signedIn then NotSignedIn
    else if form.name == [] then MissingName
    else if form.types == [] then NoTypes
    else Write(TrackerRecord(form.name, form.types, form.types[0]))
  }

  /** The tracker the store publishes for a written record under its assigned id. */
  function Stored(id: string, rec: TrackerRecord): (t: Tracker)
    ensures t.id == id && t.name == rec.name && t.types == Some(rec.types)
  {
    Tracker(id, rec.name, Some(rec.types), rec.dataType)
  }

  /** Every successfully saved tracker has a non-empty effective type list
      whose head is its legacy `dataType`, so old and new readers agree. */
  lemma SavedTrackerTypes(signedIn: bool, form: TrackerForm, id: string)
    requires SaveTracker(signedIn, form).Write?
    ensures var t := Stored(id, SaveTracker(signedIn, form).record);
            EffectiveTypes(t) == form.types && |EffectiveTypes(t)| > 0
            && EffectiveTypes(t)[0] == t.dataType
  {
  }

  /** `trackers.find(t => t.id === trackerId)`: the first tracker with that id. */
  function ResolveTracker(trackers: seq<Tracker>, trackerId: string): (r: Option<Tracker>)
    ensures r.None? <==> forall i :: 0 <= i < |trackers| ==> trackers[i].id != trackerId
    ensures r.Some? ==> exists i :: 0 <= i < |trackers| && trackers[i] == r.value
                                    && trackers[i].id == trackerId
                                    && forall j :: 0 <= j < i ==> trackers[j].id != trackerId
  {
    if trackers == [] then None
    else if trackers[0].id == trackerId then Some(trackers[0])
    else
      var r := ResolveTracker(trackers[1..], trackerId);
      assert r.Some? ==> exists i :: 0 <= i < |trackers| && trackers[i] == r.value
                                     && trackers[i].id == trackerId
                                     && forall j :: 0 <= j < i ==> trackers[j].id != trackerId
      by {
        if r.Some? {
          var i :| 0 <= i < |trackers| - 1 && trackers[1..][i] == r.value
                   && trackers[1..][i].id == trackerId
                   && forall j :: 0 <= j < i ==> trackers[1..][j].id != trackerId;
          assert trackers[i + 1] == r.value;
          assert forall j :: 0 < j < i + 1 ==> trackers[j] == trackers[1..][j - 1];
        }
      }
      r
  }

  /** The name shown for an entry's tracker, or `fallback` when the entry is
      orphaned (its tracker was deleted); resolution never fails. */
  function TrackerLabel(trackers: seq<Tracker>, trackerId: string, fallback: string): (shown: string)
    ensures (forall i :: 0 <= i < |trackers| ==> trackers[i].id != trackerId) ==> shown == fallback
    ensures (exists i :: 0 <= i < |trackers| && trackers[i].id == trackerId) ==>
              exists i :: 0 <= i < |trackers| && trackers[i].id == trackerId && shown == trackers[i].name
  {
    match ResolveTracker(trackers, trackerId)
    case Some(t) => t.name
    case None => fallback
  }

  /** The tracker list after the store deletes the tracker with id `id`. */
  function DeleteTracker(trackers: seq<Tracker>, id: string): (r: seq<Tracker>)
    ensures forall t :: t in r <==> t in trackers && t.id != id
  {
    if trackers == [] then []
    else if trackers[0].id == id then DeleteTracker(trackers[1..], id)
    else [trackers[0]] + DeleteTracker(trackers[1..], id)
  }

  /** An orphaned entry is labelled "Unknown Tracker" on the dashboard and
      "Unknown" in the history table. */
  lemma OrphanLabels(trackers: seq<Tracker>, trackerId: string)
    requires forall i :: 0 <= i < |trackers| ==> trackers[i].id != trackerId
    ensures TrackerLabel(trackers, trackerId, UnknownTrackerLabel) == "Unknown Tracker"
    ensures TrackerLabel(trackers, trackerId, UnknownLabel) == "Unknown"
  {
  }

  ghost predicate DistinctIds(trackers: seq<Tracker>) {
    forall i, j :: 0 <= i < j < |trackers| ==> trackers[i].id != trackers[j].id
  }

  /** Resolving an entry created against a stored tracker yields that tracker
      and its name; once the tracker is deleted, the same entry resolves to
      nothing and shows the fallback label instead of failing. */
  lemma ResolveRoundTrip(trackers: seq<Tracker>, t: Tracker, fallback: string)
    requires DistinctIds(trackers) && t in trackers
    ensures ResolveTracker(trackers, t.id) == Some(t)
    ensures TrackerLabel(trackers, t.id, fallback) == t.name
    ensures ResolveTracker(DeleteTracker(trackers, t.id), t.id) == None
    ensures TrackerLabel(DeleteTracker(trackers, t.id), t.id, fallback) == fallback
  {
    var r := ResolveTracker(trackers, t.id);
    var k :| 0 <= k < |trackers| && trackers[k] == t;
    var i :| 0 <= i < |trackers| && trackers[i] == r.value && trackers[i].id == t.id
             && forall j :: 0 <= j < i ==> trackers[j].id != t.id;
    assert i == k;
    var d := DeleteTracker(trackers, t.id);
    assert forall i :: 0 <= i < |d| ==> d[i] in d;
  }
}
