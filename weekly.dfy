/** The weekly report: entries of the last week are reduced to one numeric
    reading each by a fixed field priority, grouped per tracker, and each
    non-empty group is shown as an average, a weekly total or an occurrence
    count, depending on the kind of its first reading. */
module Weekly {
  import opened Wrappers
  import opened Entries
  import Trackers

  /** The kind of a reading; `LegacyNumber` marks readings taken from the untyped
      `value` field. */
  datatype GraphType = Scale5 | Scale10 | Number | Duration | Boolean | LegacyNumber

  datatype Reading = Reading(kind: GraphType, value: real)

  /** One tracker's group: the tracker, its readings' values in entry order,
      and the kind of its first reading. */
  datatype Bucket = Bucket(tracker: Trackers.Tracker, values: seq<real>, graphType: Option<GraphType>)

  /** What a group's card shows. */
  datatype Stat =
    | AverageScore(average: real, scaleMax: real)
    | WeeklyTotal(total: real, dailyAverage: real)
    | TimesOccurred(total: real, count: nat)

  /** The entries dated no earlier than `weekAgo`, in order. There is no
      upper bound: an entry dated in the future is kept. */
  function WeeklyEntries(entries: seq<Entry>, weekAgo: int): (r: seq<Entry>)
    ensures forall e :: e in r <==> e in entries && e.date >= weekAgo
    ensures |r| <= |entries|
    ensures |entries| == 1 ==> r == if entries[0].date >= weekAgo then entries else []
  {
    if entries == [] then []
    else
      var init := entries[..|entries| - 1];
      var last := entries[|entries| - 1];
      assert entries == init + [last];
      WeeklyEntries(init, weekAgo) + (if last.date >= weekAgo then [last] else [])
  }

  /** One more entry is kept at the end iff it is recent enough. */
  lemma WeeklyEntriesSnoc(s: seq<Entry>, x: Entry, weekAgo: int)
    ensures WeeklyEntries(s + [x], weekAgo) == WeeklyEntries(s, weekAgo) + (if x.date >= weekAgo then [x] else [])
  {
    assert (s + [x])[..|s|] == s;
  }

  /** The filter distributes over concatenation: the kept entries stay in
      their order, duplicates included. */
  lemma {:induction false} WeeklyEntriesAppend(a: seq<Entry>, b: seq<Entry>, weekAgo: int)
    ensures WeeklyEntries(a + b, weekAgo) == WeeklyEntries(a, weekAgo) + WeeklyEntries(b, weekAgo)
  {
    if b == [] {
      assert a + b == a;
    } else {
      var init := b[..|b| - 1];
      var last := b[|b| - 1];
      assert b == init + [last];
      assert a + b == (a + init) + [last];
      var kept := if last.date >= weekAgo then [last] else [];
      WeeklyEntriesSnoc(a + init, last, weekAgo);
      WeeklyEntriesSnoc(init, last, weekAgo);
      WeeklyEntriesAppend(a, init, weekAgo);
      var wa, wi := WeeklyEntries(a, weekAgo), WeeklyEntries(init, weekAgo);
      assert WeeklyEntries(a + b, weekAgo) == (wa + wi) + kept;
      assert WeeklyEntries(b, weekAgo) == wi + kept;
      ConcatAssoc(wa, wi, kept);
    }
  }

  lemma ConcatAssoc(x: seq<Entry>, y: seq<Entry>, z: seq<Entry>)
    ensures (x + y) + z == x + (y + z)
  {
  }

  function Bit(b: bool): real {
    if b then 1.0 else 0.0
  }

  /** The reading an entry contributes: the first present field among
      `scale5`, `scale10`, `number`, `duration`, `boolean` (as 1 or 0) and the
      legacy `value` (a boolean as 1 or 0, text through `parse`, which is
      JavaScript's `Number` with NaN as `None`). No reading when none of them
      is present or the legacy text is not a number. */
  function Classify(e: Entry, parse: string -> Option<real>): (r: Option<Reading>)
    ensures e.scale5.Some? ==> r == Some(Reading(Scale5, e.scale5.value))
    ensures e.scale5.None? && e.scale10.Some? ==> r == Some(Reading(Scale10, e.scale10.value))
    ensures e.scale5.None? && e.scale10.None? && e.number.Some? ==> r == Some(Reading(Number, e.number.value))
    ensures r.Some? && r.value.kind == Duration ==> e.duration == Some(r.value.value)
    ensures r.Some? && r.value.kind in {Boolean, LegacyNumber} ==>
              e.scale5.None? && e.scale10.None? && e.number.None? && e.duration.None?
    ensures r.Some? && r.value.kind == Boolean ==> e.boolean.Some? && r.value.value == Bit(e.boolean.value)
    ensures r.None? <==> e.scale5.None? && e.scale10.None? && e.number.None? && e.duration.None?
                         && e.boolean.None?
                         && (e.value.None? || (e.value.value.LegacyText? && parse(e.value.value.s).None?))
    ensures e.scale5.None? && e.scale10.None? && e.number.None? && e.duration.Some? ==>
              r == Some(Reading(Duration, e.duration.value))
    ensures e.scale5.None? && e.scale10.None? && e.number.None? && e.duration.None? && e.boolean.Some? ==>
              r == Some(Reading(Boolean, Bit(e.boolean.value)))
    ensures e.scale5.None? && e.scale10.None? && e.number.None? && e.duration.None? && e.boolean.None?
            && e.value.Some? && e.value.value.LegacyBool? ==>
              r == Some(Reading(LegacyNumber, Bit(e.value.value.b)))
    ensures e.scale5.None? && e.scale10.None? && e.number.None? && e.duration.None? && e.boolean.None?
            && e.value.Some? && e.value.value.LegacyText? && parse(e.value.value.s).Some? ==>
              r == Some(Reading(LegacyNumber, parse(e.value.value.s).value))
  {
    if e.scale5.Some? then Some(Reading(Scale5, e.scale5.value))
    else if e.scale10.Some? then Some(Reading(Scale10, e.scale10.value))
    else if e.number.Some? then Some(Reading(Number, e.number.value))
    else if e.duration.Some? then Some(Reading(Duration, e.duration.value))
    else if e.boolean.Some? then Some(Reading(Boolean, Bit(e.boolean.value)))
    else
      match e.value
      case None => None
      case Some(LegacyBool(b)) => Some(Reading(LegacyNumber, Bit(b)))
      case Some(LegacyText(s)) =>
        match parse(s)
        case None => None
        case Some(x) => Some(Reading(LegacyNumber, x))
  }

  /** The readings of tracker `id` among `es`, in entry order. */
  function Readings(es: seq<Entry>, id: string, parse: string -> Option<real>): (r: seq<Reading>)
    ensures |r| <= |es|
    ensures (forall i :: 0 <= i < |es| ==> es[i].trackerId != id) ==> r == []
  {
    if es == [] then []
    else
      var last := es[|es| - 1];
      Readings(es[..|es| - 1], id, parse)
      + (if last.trackerId == id && Classify(last, parse).Some? then [Classify(last, parse).value] else [])
  }

  function Values(rs: seq<Reading>): (v: seq<real>)
    ensures |v| == |rs| && forall i :: 0 <= i < |rs| ==> v[i] == rs[i].value
  {
    seq(|rs|, i requires 0 <= i < |rs| => rs[i].value)
  }

  function FirstKind(rs: seq<Reading>): Option<GraphType> {
    if rs == [] then None else Some(rs[0].kind)
  }

  /** The last tracker with id `id`: later trackers overwrite earlier ones
      when the groups are keyed by id. */
  function LastWithId(trackers: seq<Trackers.Tracker>, id: string): (r: Option<Trackers.Tracker>)
    ensures r.None? <==> forall i :: 0 <= i < |trackers| ==> trackers[i].id != id
    ensures r.Some? ==> r.value.id == id
    ensures r.Some? ==> exists i :: 0 <= i < |trackers| && trackers[i] == r.value && trackers[i].id == id
                                    && forall j :: i < j < |trackers| ==> trackers[j].id != id
  {
    if trackers == [] then None
    else
      var last := trackers[|trackers| - 1];
      if last.id == id then Some(last)
      else
        var init := trackers[..|trackers| - 1];
        assert forall j :: 0 <= j < |init| ==> init[j] == trackers[j];
        LastWithId(init, id)
  }

  /** The group the report builds for tracker `t` from the week's entries. */
  function GroupOf(t: Trackers.Tracker, weekly: seq<Entry>, parse: string -> Option<real>): Bucket {
    var rs := Readings(weekly, t.id, parse);
    Bucket(t, Values(rs), FirstKind(rs))
  }

  /** A group holds its tracker and one value per reading, and has a kind
      exactly when it has values. */
  lemma GroupShape(t: Trackers.Tracker, weekly: seq<Entry>, parse: string -> Option<real>)
    ensures var g := GroupOf(t, weekly, parse);
            g.tracker == t && |g.values| == |Readings(weekly, t.id, parse)|
            && (g.graphType.None? <==> g.values == [])
  {
  }

  predicate HasTracker(trackers: seq<Trackers.Tracker>, id: string) {
    exists i :: 0 <= i < |trackers| && trackers[i].id == id
  }

  lemma LastWithIdStep(trackers: seq<Trackers.Tracker>, i: nat, id: string)
    requires i < |trackers|
    ensures LastWithId(trackers[..i + 1], id)
            == if trackers[i].id == id then Some(trackers[i]) else LastWithId(trackers[..i], id)
    ensures HasTracker(trackers[..i + 1], id) <==> trackers[i].id == id || HasTracker(trackers[..i], id)
  {
    assert trackers[..i + 1][..i] == trackers[..i];
    assert forall j :: 0 <= j < i ==> trackers[..i + 1][j] == trackers[..i][j];
  }

  /** `values.push(val)`, and the group's kind set by its first reading. */
  function Extend(g: Bucket, r: Reading): (h: Bucket)
    ensures h.tracker == g.tracker && h.values == g.values + [r.value]
    ensures h.graphType == if g.graphType.None? then Some(r.kind) else g.graphType
  {
    Bucket(g.tracker, g.values + [r.value], if g.graphType.None? then Some(r.kind) else g.graphType)
  }

  /** The readings pushed one after another onto a group. */
  function ExtendAll(g: Bucket, rs: seq<Reading>): Bucket {
    if rs == [] then g else Extend(ExtendAll(g, rs[..|rs| - 1]), rs[|rs| - 1])
  }

  /** Pushing readings keeps the group's kind once set, and otherwise the
      first pushed reading sets it; the values are appended in order. */
  lemma {:induction false} ExtendKeepsFirstKind(g: Bucket, rs: seq<Reading>)
    ensures ExtendAll(g, rs)
            == Bucket(g.tracker, g.values + Values(rs), if g.graphType.None? then FirstKind(rs) else g.graphType)
  {
    if rs == [] {
      assert g.values + Values(rs) == g.values;
    } else {
      var init := rs[..|rs| - 1];
      ExtendKeepsFirstKind(g, init);
      assert Values(rs) == Values(init) + [rs[|rs| - 1].value];
      assert init != [] ==> init[0] == rs[0];
    }
  }

  /** A tracker's group is the empty group with its week's readings pushed
      in entry order. */
  lemma GroupIsPushedReadings(t: Trackers.Tracker, weekly: seq<Entry>, parse: string -> Option<real>)
    ensures GroupOf(t, weekly, parse) == ExtendAll(Bucket(t, [], None), Readings(weekly, t.id, parse))
  {
    ExtendKeepsFirstKind(Bucket(t, [], None), Readings(weekly, t.id, parse));
  }

  /** One more entry extends its tracker's group by its reading, if any,
      and leaves every other group as it was. */
  lemma GroupOfStep(t: Trackers.Tracker, es: seq<Entry>, k: nat, parse: string -> Option<real>)
    requires k < |es|
    ensures GroupOf(t, es[..k + 1], parse)
            == if es[k].trackerId == t.id && Classify(es[k], parse).Some? then
                 Extend(GroupOf(t, es[..k], parse), Classify(es[k], parse).value)
               else GroupOf(t, es[..k], parse)
  {
    assert es[..k + 1][..k] == es[..k];
    var rs := Readings(es[..k], t.id, parse);
    var c := Classify(es[k], parse);
    if es[k].trackerId == t.id && c.Some? {
      assert Values(rs + [c.value]) == Values(rs) + [c.value.value];
      assert rs != [] ==> (rs + [c.value])[0] == rs[0];
    } else {
      assert Readings(es[..k + 1], t.id, parse) == rs + [];
    }
  }

  /** `trackers.forEach(t => groups[t.id] = { ...t, values: [] })` */
  method EmptyGroups(trackers: seq<Trackers.Tracker>) returns (groups: map<string, Bucket>)
    ensures forall id :: id in groups <==> HasTracker(trackers, id)
    ensures forall id :: id in groups ==>
              LastWithId(trackers, id).Some? && groups[id] == Bucket(LastWithId(trackers, id).value, [], None)
  {
    groups := map[];
    var i := 0;
    while i < |trackers|
      invariant 0 <= i <= |trackers|
      invariant forall id :: id in groups <==> HasTracker(trackers[..i], id)
      invariant forall id :: id in groups ==>
                  LastWithId(trackers[..i], id).Some? && groups[id] == Bucket(LastWithId(trackers[..i], id).value, [], None)
    {
      var t := trackers[i];
      forall id ensures LastWithId(trackers[..i + 1], id)
                        == (if t.id == id then Some(t) else LastWithId(trackers[..i], id))
                        && (HasTracker(trackers[..i + 1], id) <==> t.id == id || HasTracker(trackers[..i], id)) {
        LastWithIdStep(trackers, i, id);
      }
      groups := groups[t.id := Bucket(t, [], None)];
      i := i + 1;
    }
    assert trackers[..i] == trackers;
  }

  /** One pass of the entry loop: an entry of a known tracker with a reading
      extends that tracker's group; anything else changes nothing. */
  method AddEntry(groups: map<string, Bucket>, e: Entry, parse: string -> Option<real>)
    returns (next: map<string, Bucket>)
    ensures next.Keys == groups.Keys
    ensures forall id :: id in next ==>
              next[id] == if id == e.trackerId && Classify(e, parse).Some? then Extend(groups[id], Classify(e, parse).value)
                          else groups[id]
  {
    next := groups;
    if e.trackerId in groups {
      var c := Classify(e, parse);
      if c.Some? {
        next := groups[e.trackerId := Extend(groups[e.trackerId], c.value)];
      }
    }
  }

  /** Every group is the one the report specifies for the entries `es`. */
  predicate GroupsMatch(groups: map<string, Bucket>, trackers: seq<Trackers.Tracker>, es: seq<Entry>,
                        parse: string -> Option<real>)
  {
    forall id :: id in groups ==>
      LastWithId(trackers, id).Some? && groups[id] == GroupOf(LastWithId(trackers, id).value, es, parse)
  }

  /** The entry loop keeps every group equal to its specification. */
  lemma GroupsStep(trackers: seq<Trackers.Tracker>, weekly: seq<Entry>, k: nat, parse: string -> Option<real>,
                   before: map<string, Bucket>, after: map<string, Bucket>)
    requires k < |weekly| && GroupsMatch(before, trackers, weekly[..k], parse)
    requires after.Keys == before.Keys
    requires forall id :: id in after ==>
               after[id] == if id == weekly[k].trackerId && Classify(weekly[k], parse).Some? then
                              Extend(before[id], Classify(weekly[k], parse).value)
                            else before[id]
    ensures GroupsMatch(after, trackers, weekly[..k + 1], parse)
  {
    forall id | id in after
      ensures LastWithId(trackers, id).Some?
              && after[id] == GroupOf(LastWithId(trackers, id).value, weekly[..k + 1], parse)
    {
      assert id in before;
      GroupOfStep(LastWithId(trackers, id).value, weekly, k, parse);
    }
  }

  /** The group map: one empty group per tracker id, then every week's entry
      with a reading appended to its tracker's group; entries whose tracker
      is gone are skipped. */
  method GroupWeekly(trackers: seq<Trackers.Tracker>, entries: seq<Entry>, weekAgo: int,
                     parse: string -> Option<real>) returns (groups: map<string, Bucket>)
    ensures forall id :: id in groups <==> HasTracker(trackers, id)
    ensures forall id :: id in groups ==>
              LastWithId(trackers, id).Some?
              && groups[id] == GroupOf(LastWithId(trackers, id).value, WeeklyEntries(entries, weekAgo), parse)
  {
    groups := EmptyGroups(trackers);
    var weekly := WeeklyEntries(entries, weekAgo);
    var k := 0;
    assert weekly[..k] == [];
    assert forall t: Trackers.Tracker :: GroupOf(t, weekly[..k], parse) == Bucket(t, [], None);
    while k < |weekly|
      invariant 0 <= k <= |weekly|
      invariant forall id :: id in groups <==> HasTracker(trackers, id)
      invariant GroupsMatch(groups, trackers, weekly[..k], parse)
    {
      var e := weekly[k];
      ghost var before := groups;
      groups := AddEntry(groups, e, parse);
      GroupsStep(trackers, weekly, k, parse, before, groups);
      k := k + 1;
    }
    assert weekly[..k] == weekly;
  }

  function Sum(v: seq<real>): real {
    if v == [] then 0.0 else Sum(v[..|v| - 1]) + v[|v| - 1]
  }

  /** A group's card: nothing without readings; an average against the
      scale's maximum for rating scales; a weekly total and its daily average
      for amounts; the number of `yes` answers out of all for yes/no
      trackers. */
  function Statistic(b: Bucket): (r: Option<Stat>)
    ensures r.Some? ==> |b.values| > 0 && b.graphType.Some?
    ensures |b.values| > 0 && b.graphType.Some? ==> r.Some?
    ensures r.Some? ==> (r.value.AverageScore? <==> b.graphType.value in {Scale5, Scale10})
                        && (r.value.TimesOccurred? <==> b.graphType.value == Boolean)
    ensures r.Some? && r.value.AverageScore? ==> r.value.scaleMax == if b.graphType.value == Scale5 then 5.0 else 10.0
    ensures r.Some? && r.value.AverageScore? ==> r.value.average * (|b.values| as real) == Sum(b.values)
    ensures r.Some? && r.value.WeeklyTotal? ==> r.value.total == Sum(b.values) && r.value.dailyAverage * 7.0 == r.value.total
    ensures r.Some? && r.value.TimesOccurred? ==> r.value.total == Sum(b.values) && r.value.count == |b.values|
  {
    if |b.values| == 0 then None
    else
      var total := Sum(b.values);
      match b.graphType
      case None => None
      case Some(Scale5) => Some(AverageScore(total / |b.values| as real, 5.0))
      case Some(Scale10) => Some(AverageScore(total / |b.values| as real, 10.0))
      case Some(Boolean) => Some(TimesOccurred(total, |b.values|))
      case Some(_) => Some(WeeklyTotal(total, total / 7.0))
  }

  // ----- properties -----

  /** Every value between `lo` and `hi` puts the sum between `n * lo` and `n * hi`. */
  lemma {:induction false} SumBounds(v: seq<real>, lo: real, hi: real)
    requires forall i :: 0 <= i < |v| ==> lo <= v[i] <= hi
    ensures (|v| as real) * lo <= Sum(v) <= (|v| as real) * hi
  {
    if v != [] {
      var init := v[..|v| - 1];
      assert forall i :: 0 <= i < |init| ==> init[i] == v[i];
      SumBounds(init, lo, hi);
      assert (|v| as real) * lo == (|init| as real) * lo + lo;
      assert (|v| as real) * hi == (|init| as real) * hi + hi;
    }
  }

  /** A rating group whose values all lie on the scale shows an average on
      the scale, so the progress bar never overflows. */
  lemma AverageOnScale(b: Bucket, lo: real, hi: real)
    requires Statistic(b).Some? && Statistic(b).value.AverageScore?
    requires forall i :: 0 <= i < |b.values| ==> lo <= b.values[i] <= hi
    ensures lo <= Statistic(b).value.average <= hi
  {
    SumBounds(b.values, lo, hi);
  }

  /** Yes/no readings are 1 or 0. */
  lemma {:induction false} ReadingsBits(es: seq<Entry>, id: string, parse: string -> Option<real>)
    ensures forall i :: 0 <= i < |Readings(es, id, parse)| && Readings(es, id, parse)[i].kind == Boolean ==>
              (Readings(es, id, parse)[i].value == 0.0 || Readings(es, id, parse)[i].value == 1.0)
  {
    if es != [] {
      ReadingsBits(es[..|es| - 1], id, parse);
    }
  }

  /** A yes/no group counts at most as many occurrences as answers. */
  lemma OccurrencesAtMostAnswers(t: Trackers.Tracker, weekly: seq<Entry>, parse: string -> Option<real>)
    requires forall i :: 0 <= i < |Readings(weekly, t.id, parse)| ==> Readings(weekly, t.id, parse)[i].kind == Boolean
    requires Statistic(GroupOf(t, weekly, parse)).Some?
    ensures var s := Statistic(GroupOf(t, weekly, parse)).value;
            s.TimesOccurred? && 0.0 <= s.total <= s.count as real
  {
    var rs := Readings(weekly, t.id, parse);
    ReadingsBits(weekly, t.id, parse);
    var g := GroupOf(t, weekly, parse);
    assert g.values == Values(rs) && |rs| > 0;
    assert g.graphType == Some(Boolean) by {
      assert rs[0].kind == Boolean;
    }
    forall i | 0 <= i < |g.values| ensures 0.0 <= g.values[i] <= 1.0 {
      assert g.values[i] == rs[i].value && rs[i].kind == Boolean;
    }
    SumBounds(g.values, 0.0, 1.0);
  }

  /** Entries of other trackers, deleted ones included, leave a group's
      readings unchanged. */
  lemma {:induction false} OtherEntriesIgnored(es: seq<Entry>, others: seq<Entry>, id: string,
                                               parse: string -> Option<real>)
    requires forall i :: 0 <= i < |others| ==> others[i].trackerId != id
    ensures Readings(es + others, id, parse) == Readings(es, id, parse)
  {
    if others == [] {
      assert es + others == es;
    } else {
      var init := others[..|others| - 1];
      assert (es + others)[..|es + others| - 1] == es + init;
      OtherEntriesIgnored(es, init, id, parse);
    }
  }

  /** As written, a yes/no group that also receives a numeric reading (an
      entry of the same tracker with only its number set) keeps the yes/no
      kind of its first reading and counts the number as occurrences:
      6 occurrences out of 2 answers. */
  lemma MixedYesNoOvercounts(t: Trackers.Tracker, yes: Entry, num: Entry, parse: string -> Option<real>)
    requires yes.trackerId == t.id && num.trackerId == t.id
    requires yes.scale5.None? && yes.scale10.None? && yes.number.None? && yes.duration.None?
    requires yes.boolean == Some(true)
    requires num.scale5.None? && num.scale10.None? && num.number == Some(5.0)
    ensures Statistic(GroupOf(t, [yes, num], parse)) == Some(TimesOccurred(6.0, 2))
  {
    assert [yes, num][..1] == [yes];
    assert [yes][..0] == [];
    assert Readings([yes, num], t.id, parse) == [Reading(Boolean, 1.0), Reading(Number, 5.0)];
    assert Values([Reading(Boolean, 1.0), Reading(Number, 5.0)]) == [1.0, 5.0];
    assert GroupOf(t, [yes, num], parse) == Bucket(t, [1.0, 5.0], Some(Boolean));
    assert [1.0, 5.0][..1] == [1.0];
    assert [1.0][..0] == [];
    assert Sum([1.0, 5.0]) == Sum([1.0]) + 5.0;
    assert Sum([1.0]) == Sum([]) + 1.0;
  }

  /** As written, a 1-5 rating group that also receives a numeric reading of
      50 averages 27 against a maximum of 5, off the scale. */
  lemma MixedScaleOffScale(t: Trackers.Tracker, rating: Entry, num: Entry, parse: string -> Option<real>)
    requires rating.trackerId == t.id && num.trackerId == t.id
    requires rating.scale5 == Some(4.0)
    requires num.scale5.None? && num.scale10.None? && num.number == Some(50.0)
    ensures Statistic(GroupOf(t, [rating, num], parse)) == Some(AverageScore(27.0, 5.0))
  {
    assert [rating, num][..1] == [rating];
    assert [rating][..0] == [];
    assert Readings([rating, num], t.id, parse) == [Reading(Scale5, 4.0), Reading(Number, 50.0)];
    assert Values([Reading(Scale5, 4.0), Reading(Number, 50.0)]) == [4.0, 50.0];
    assert GroupOf(t, [rating, num], parse) == Bucket(t, [4.0, 50.0], Some(Scale5));
    assert [4.0, 50.0][..1] == [4.0];
    assert [4.0][..0] == [];
    assert Sum([4.0, 50.0]) == Sum([4.0]) + 50.0;
    assert Sum([4.0]) == Sum([]) + 4.0;
  }

  /** A week with the single rating 4 on a 1-5 tracker averages 4. */
  lemma SingleRatingAverage(t: Trackers.Tracker, e: Entry, weekAgo: int, parse: string -> Option<real>)
    requires e.trackerId == t.id && e.scale5 == Some(4.0) && e.date >= weekAgo
    ensures Statistic(GroupOf(t, WeeklyEntries([e], weekAgo), parse)) == Some(AverageScore(4.0, 5.0))
  {
    assert [e][..0] == [];
    assert WeeklyEntries([e], weekAgo) == [e];
    assert Readings([e], t.id, parse) == [Reading(Scale5, 4.0)];
    assert Sum([4.0]) == Sum([]) + 4.0;
  }

  /** Legacy text that reads as a number counts as a number, not as text. */
  lemma NumericLegacyText(e: Entry, parse: string -> Option<real>)
    requires e.scale5.None? && e.scale10.None? && e.number.None? && e.duration.None? && e.boolean.None?
    requires e.value == Some(LegacyText("32")) && parse("32") == Some(32.0)
    ensures Classify(e, parse) == Some(Reading(LegacyNumber, 32.0))
  {
  }
}
