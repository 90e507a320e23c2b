/** Health entries and their one-line descriptions.

    An entry has no enforced schema: whichever optional fields are present
    are what it records. The two views that describe an entry (the dashboard's
    recent logs and the history table) each build an ordered list of display
    fragments from those fields, with JavaScript truthiness deciding which
    fields show. */
module Entries {
  import opened Wrappers

  /** The legacy `value` field of entries written before typed fields existed. */
  datatype LegacyValue = LegacyBool(b: bool) | LegacyText(s: string)

  /** One recorded observation. `date` is the entry's timestamp, `None` is an
      absent (`undefined`) field; numbers are JavaScript numbers without NaN. */
  datatype Entry = Entry(
    id: string,
    trackerId: string,
    date: int,
    boolean: Option<bool>,
    scale5: Option<real>,
    scale10: Option<real>,
    number: Option<real>,
    duration: Option<real>,
    text: Option<string>,
    value: Option<LegacyValue>,
    notes: Option<string>)

  /** One display fragment, tagged by the field it shows. The label text
      around it ("Rating: ", "/5", " min", quotes) is presentation. */
  datatype Fragment =
    | YesNo(yes: bool)
    | Rating(rating: real)
    | Level(level: real)
    | Val(amount: real)
    | Minutes(minutes: real)
    | Quote(quote: string)
    | Legacy(legacy: LegacyValue)
    | Note(note: string)

  /** `if (x)` on an optional number: present and not 0. */
  predicate NumTruthy(x: Option<real>) {
    x.Some? && x.value != 0.0
  }

  /** `if (s)` on an optional string: present and not empty. */
  predicate StrTruthy(s: Option<string>) {
    s.Some? && s.value != ""
  }

  /** `if (e.value)`: `true`, or a non-empty string. */
  predicate ValueTruthy(v: Option<LegacyValue>) {
    match v
    case None => false
    case Some(LegacyBool(b)) => b
    case Some(LegacyText(s)) => s != ""
  }

  /** True when none of the six typed fields yields a fragment. */
  predicate NoTypedFragment(e: Entry) {
    e.boolean.None? && !NumTruthy(e.scale5) && !NumTruthy(e.scale10)
    && !NumTruthy(e.number) && !NumTruthy(e.duration) && !StrTruthy(e.text)
  }

  /** The two places that describe an entry: the dashboard's recent logs
      (`getSummary`) and the history table (`getDetails`). */
  datatype View = Dashboard | History

  /** Position of each kind of fragment in a view's list: the history table
      checks the notes before the legacy value, the dashboard after it. */
  function Rank(view: View, f: Fragment): nat {
    match f
    case YesNo(_) => 0
    case Rating(_) => 1
    case Level(_) => 2
    case Val(_) => 3
    case Minutes(_) => 4
    case Quote(_) => 5
    case Legacy(_) => if view == Dashboard then 6 else 7
    case Note(_) => if view == Dashboard then 7 else 6
  }

  /** Fragments appear in the view's order, at most one of each kind. */
  predicate Ordered(view: View, parts: seq<Fragment>) {
    forall i, j :: 0 <= i < j < |parts| ==> Rank(view, parts[i]) < Rank(view, parts[j])
  }

  /** Whether a view's description of `e` includes fragment `f`. A present
      `boolean` always shows; the other typed fields only when truthy; the
      notes only when the text did not show; the legacy value only when no
      earlier fragment did. */
  predicate Shows(view: View, e: Entry, f: Fragment) {
    match f
    case YesNo(b) => e.boolean == Some(b)
    case Rating(x) => e.scale5 == Some(x) && x != 0.0
    case Level(x) => e.scale10 == Some(x) && x != 0.0
    case Val(x) => e.number == Some(x) && x != 0.0
    case Minutes(x) => e.duration == Some(x) && x != 0.0
    case Quote(s) => e.text == Some(s) && s != ""
    case Note(n) => e.notes == Some(n) && n != "" && !StrTruthy(e.text)
    case Legacy(v) =>
      e.value == Some(v) && ValueTruthy(e.value) && NoTypedFragment(e)
      && (view == History ==> !StrTruthy(e.notes))
  }

  /** The one fragment of rank `k` that `e` could show in `view`. */
  function Candidate(view: View, e: Entry, k: nat): (f: Fragment)
    requires k < 8
    ensures Rank(view, f) == k
  {
    if k == 0 then YesNo(e.boolean.GetOr(false))
    else if k == 1 then Rating(e.scale5.GetOr(0.0))
    else if k == 2 then Level(e.scale10.GetOr(0.0))
    else if k == 3 then Val(e.number.GetOr(0.0))
    else if k == 4 then Minutes(e.duration.GetOr(0.0))
    else if k == 5 then Quote(e.text.GetOr(""))
    else if (k == 6) == (view == Dashboard) then Legacy(e.value.GetOr(LegacyBool(false)))
    else Note(e.notes.GetOr(""))
  }

  lemma ShownIsCandidate(view: View, e: Entry, g: Fragment)
    requires Shows(view, e, g)
    ensures Rank(view, g) < 8 && g == Candidate(view, e, Rank(view, g))
  {
  }

  /** The candidate of rank `k` if it shows, else nothing. */
  function Piece(view: View, e: Entry, k: nat): (r: seq<Fragment>)
    requires k < 8
    ensures |r| <= 1
    ensures r != [] <==> Shows(view, e, Candidate(view, e, k))
  {
    if Shows(view, e, Candidate(view, e, k)) then [Candidate(view, e, k)] else []
  }

  /** The shown fragments of the ranks below `k`, in rank order. */
  function Prefix(view: View, e: Entry, k: nat): seq<Fragment>
    requires k <= 8
  {
    if k == 0 then [] else Prefix(view, e, k - 1) + Piece(view, e, k - 1)
  }

  /** What a view shows for `e`: every shown fragment, in rank order. */
  function Describe(view: View, e: Entry): seq<Fragment> {
    Prefix(view, e, 8)
  }

  lemma {:induction false} PrefixRanks(view: View, e: Entry, k: nat)
    requires k <= 8
    ensures Ordered(view, Prefix(view, e, k))
    ensures forall i :: 0 <= i < |Prefix(view, e, k)| ==> Rank(view, Prefix(view, e, k)[i]) < k
  {
    if k > 0 {
      PrefixRanks(view, e, k - 1);
    }
  }

  lemma {:induction false} PrefixMembers(view: View, e: Entry, k: nat)
    requires k <= 8
    ensures forall f :: f in Prefix(view, e, k) <==> Shows(view, e, f) && Rank(view, f) < k
  {
    if k > 0 {
      PrefixMembers(view, e, k - 1);
      forall f ensures f in Prefix(view, e, k) <==> Shows(view, e, f) && Rank(view, f) < k {
        if Shows(view, e, f) { ShownIsCandidate(view, e, f); }
      }
    }
  }

  lemma {:induction false} PrefixEmpty(view: View, e: Entry, k: nat)
    requires k <= 8
    ensures Prefix(view, e, k) == [] <==> forall j :: 0 <= j < k ==> !Shows(view, e, Candidate(view, e, j))
  {
    if k > 0 {
      PrefixEmpty(view, e, k - 1);
    }
  }

  /** A view lists exactly the fragments `Shows` admits, in the view's fixed
      order, each kind at most once. */
  lemma DescribeCorrect(view: View, e: Entry)
    ensures Ordered(view, Describe(view, e))
    ensures forall f :: f in Describe(view, e) <==> Shows(view, e, f)
  {
    PrefixRanks(view, e, 8);
    PrefixMembers(view, e, 8);
    forall f | Shows(view, e, f) ensures Rank(view, f) < 8 {
      ShownIsCandidate(view, e, f);
    }
  }

  /** A description is empty exactly when every check fails: no boolean, no
      truthy typed field, no truthy legacy value, and no notes that would
      show (the history table shows notes even beside a legacy value). */
  lemma {:induction false} DescribeEmpty(view: View, e: Entry)
    ensures Describe(view, e) == [] <==>
              NoTypedFragment(e) && !ValueTruthy(e.value) && !StrTruthy(e.notes)
  {
    PrefixEmpty(view, e, 8);
    if Describe(view, e) == [] {
      CandidatesDecide(view, e);
    } else {
      var j :| 0 <= j < 8 && Shows(view, e, Candidate(view, e, j));
    }
  }

  /** A field that is present but falsy shows nothing: an entry holding only
      `scale5: 0` has an empty description in both views. */
  lemma PresentButFalsyHidden(view: View, e: Entry)
    requires e.scale5 == Some(0.0)
    requires e.boolean.None? && e.scale10.None? && e.number.None? && e.duration.None?
    requires e.text.None? && e.value.None? && e.notes.None?
    ensures Describe(view, e) == []
  {
    DescribeEmpty(view, e);
  }

  lemma CandidatesDecide(view: View, e: Entry)
    ensures Shows(view, e, Candidate(view, e, 0)) <==> e.boolean.Some?
    ensures Shows(view, e, Candidate(view, e, 1)) <==> NumTruthy(e.scale5)
    ensures Shows(view, e, Candidate(view, e, 2)) <==> NumTruthy(e.scale10)
    ensures Shows(view, e, Candidate(view, e, 3)) <==> NumTruthy(e.number)
    ensures Shows(view, e, Candidate(view, e, 4)) <==> NumTruthy(e.duration)
    ensures Shows(view, e, Candidate(view, e, 5)) <==> StrTruthy(e.text)
  {
  }

  /** The legacy step's test `e.value && parts.length === 0` decides exactly
      whether the legacy candidate shows. */
  lemma LegacyStep(view: View, e: Entry, k: nat)
    requires k == (if view == Dashboard then 6 else 7)
    ensures (ValueTruthy(e.value) && |Prefix(view, e, k)| == 0) <==> Shows(view, e, Candidate(view, e, k))
  {
    PrefixEmpty(view, e, k);
    CandidatesDecide(view, e);
    if view == History {
      assert !Shows(view, e, Candidate(view, e, 6)) <==> !(StrTruthy(e.notes) && !StrTruthy(e.text));
    }
  }

  /** One `if (...) parts.push(...)` step extends the prefix by the candidate of rank `k`. */
  lemma Step(view: View, e: Entry, prev: seq<Fragment>, k: nat, push: bool, parts: seq<Fragment>)
    requires k < 8 && prev == Prefix(view, e, k)
    requires push <==> Shows(view, e, Candidate(view, e, k))
    requires parts == if push then prev + [Candidate(view, e, k)] else prev
    ensures parts == Prefix(view, e, k + 1)
  {
  }

  /** The typed prefix written out as its six pieces. */
  lemma TypedPrefix(view: View, e: Entry)
    ensures Prefix(view, e, 6) == Piece(view, e, 0) + Piece(view, e, 1) + Piece(view, e, 2)
                                  + Piece(view, e, 3) + Piece(view, e, 4) + Piece(view, e, 5)
  {
    assert Prefix(view, e, 1) == Piece(view, e, 0);
    assert Prefix(view, e, 2) == Prefix(view, e, 1) + Piece(view, e, 1);
    assert Prefix(view, e, 3) == Prefix(view, e, 2) + Piece(view, e, 2);
    assert Prefix(view, e, 4) == Prefix(view, e, 3) + Piece(view, e, 3);
    assert Prefix(view, e, 5) == Prefix(view, e, 4) + Piece(view, e, 4);
  }

  /** The six typed-field checks that open both descriptions: a present
      `boolean` always, the other fields only when truthy. */
  method TypedParts(ghost view: View, e: Entry) returns (parts: seq<Fragment>)
    ensures parts == Prefix(view, e, 6)
    ensures parts == [] <==> NoTypedFragment(e)
  {
    parts := [];
    if e.boolean.Some? { parts := parts + [YesNo(e.boolean.value)]; }
    assert parts == Piece(view, e, 0);
    if NumTruthy(e.scale5) { parts := parts + [Rating(e.scale5.value)]; }
    assert parts == Piece(view, e, 0) + Piece(view, e, 1);
    if NumTruthy(e.scale10) { parts := parts + [Level(e.scale10.value)]; }
    assert parts == Piece(view, e, 0) + Piece(view, e, 1) + Piece(view, e, 2);
    if NumTruthy(e.number) { parts := parts + [Val(e.number.value)]; }
    assert parts == Piece(view, e, 0) + Piece(view, e, 1) + Piece(view, e, 2) + Piece(view, e, 3);
    if NumTruthy(e.duration) { parts := parts + [Minutes(e.duration.value)]; }
    assert parts == Piece(view, e, 0) + Piece(view, e, 1) + Piece(view, e, 2) + Piece(view, e, 3) + Piece(view, e, 4);
    if StrTruthy(e.text) { parts := parts + [Quote(e.text.value)]; }
    assert parts == Piece(view, e, 0) + Piece(view, e, 1) + Piece(view, e, 2) + Piece(view, e, 3) + Piece(view, e, 4) + Piece(view, e, 5);
    TypedPrefix(view, e);
    PrefixEmpty(view, e, 6);
    CandidatesDecide(view, e);
  }

  /** `getSummary`: the dashboard's description of a recent entry. */
  method Summary(e: Entry) returns (parts: seq<Fragment>)
    ensures parts == Describe(Dashboard, e)
    ensures Ordered(Dashboard, parts)
    ensures forall f :: f in parts <==> Shows(Dashboard, e, f)
  {
    parts := TypedParts(Dashboard, e);
    ghost var prev := parts;
    LegacyStep(Dashboard, e, 6);
    if ValueTruthy(e.value) && |parts| == 0 { parts := parts + [Legacy(e.value.value)]; }
    Step(Dashboard, e, prev, 6, ValueTruthy(e.value) && |prev| == 0, parts);
    prev := parts;
    if StrTruthy(e.notes) && !StrTruthy(e.text) { parts := parts + [Note(e.notes.value)]; }
    Step(Dashboard, e, prev, 7, StrTruthy(e.notes) && !StrTruthy(e.text), parts);
    DescribeCorrect(Dashboard, e);
  }

  /** `getDetails`: the history table's description of an entry. */
  method Details(e: Entry) returns (parts: seq<Fragment>)
    ensures parts == Describe(History, e)
    ensures Ordered(History, parts)
    ensures forall f :: f in parts <==> Shows(History, e, f)
  {
    parts := TypedParts(History, e);
    ghost var prev := parts;
    if StrTruthy(e.notes) && !StrTruthy(e.text) { parts := parts + [Note(e.notes.value)]; }
    Step(History, e, prev, 6, StrTruthy(e.notes) && !StrTruthy(e.text), parts);
    prev := parts;
    LegacyStep(History, e, 7);
    if ValueTruthy(e.value) && |parts| == 0 { parts := parts + [Legacy(e.value.value)]; }
    Step(History, e, prev, 7, ValueTruthy(e.value) && |prev| == 0, parts);
    DescribeCorrect(History, e);
  }
}
