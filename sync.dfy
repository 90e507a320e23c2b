/** The entries subscription: every snapshot of the entries collection is
    re-sorted by date, newest first, before it replaces the local list. */
module Sync {
  import opened Entries

  /** Newest first: dates never increase along the list. */
  predicate NewestFirst(s: seq<Entry>) {
    forall i, j :: 0 <= i < j < |s| ==> s[i].date >= s[j].date
  }

  /** `data.sort((a, b) => new Date(b.date) - new Date(a.date))`, in place:
      an insertion sort that moves an entry left only past strictly older
      ones. */
  method SortNewestFirst(a: array<Entry>)
    modifies a
    ensures NewestFirst(a[..])
    ensures multiset(a[..]) == multiset(old(a[..]))
  {
    var i := 0;
    while i < a.Length
      invariant 0 <= i <= a.Length
      invariant NewestFirst(a[..i])
      invariant multiset(a[..]) == multiset(old(a[..]))
    {
      InsertNewest(a, i);
      i := i + 1;
    }
    assert a[..a.Length] == a[..];
  }

  /** Moves `a[i]` left past the strictly older entries before it, so that
      `a[..i + 1]` is newest first; the entries after `i` stay where they are. */
  method InsertNewest(a: array<Entry>, i: nat)
    requires i < a.Length && NewestFirst(a[..i])
    modifies a
    ensures NewestFirst(a[..i + 1])
    ensures multiset(a[..]) == multiset(old(a[..]))
    ensures a[i + 1..] == old(a[i + 1..])
    ensures multiset(a[..i + 1]) == multiset(old(a[..i + 1]))
  {
    SinkNewest(a, i);
    assert a[i + 1..] == old(a[i + 1..]);
    PrefixPermutes(old(a[..]), a[..], i + 1);
  }

  /** The insertion loop: swaps `a[i]` towards the front while its left
      neighbour is strictly older. */
  method SinkNewest(a: array<Entry>, i: nat)
    requires i < a.Length && NewestFirst(a[..i])
    modifies a
    ensures NewestFirst(a[..i + 1])
    ensures multiset(a[..]) == multiset(old(a[..]))
    ensures forall q :: i < q < a.Length ==> a[q] == old(a[q])
  {
    var j := i;
    while j > 0 && a[j - 1].date < a[j].date
      invariant 0 <= j <= i
      invariant forall p, q :: 0 <= p < q <= i && p != j && q != j ==> a[p].date >= a[q].date
      invariant forall q :: j < q <= i ==> a[j].date > a[q].date
      invariant multiset(a[..]) == multiset(old(a[..]))
      invariant forall q :: i < q < a.Length ==> a[q] == old(a[q])
    {
      Swap(a, j - 1, j);
      j := j - 1;
    }
  }

  /** Two permutations of each other that agree after position `n` are
      permutations of each other up to `n`. */
  lemma PrefixPermutes(s: seq<Entry>, t: seq<Entry>, n: nat)
    requires n <= |s| == |t| && multiset(s) == multiset(t) && s[n..] == t[n..]
    ensures multiset(t[..n]) == multiset(s[..n])
  {
    assert s == s[..n] + s[n..];
    assert t == t[..n] + t[n..];
    assert multiset(s[..n]) + multiset(s[n..]) == multiset(t[..n]) + multiset(t[n..]);
    forall x ensures multiset(t[..n])[x] == multiset(s[..n])[x] {
      assert (multiset(s[..n]) + multiset(s[n..]))[x] == (multiset(t[..n]) + multiset(t[n..]))[x];
    }
  }

  method Swap(a: array<Entry>, i: nat, j: nat)
    requires i < j < a.Length
    modifies a
    ensures a[..] == old(a[..])[i := old(a[j])][j := old(a[i])]
    ensures a[i] == old(a[j]) && a[j] == old(a[i])
    ensures forall q :: 0 <= q < a.Length && q != i && q != j ==> a[q] == old(a[q])
    ensures multiset(a[..]) == multiset(old(a[..]))
  {
    a[i], a[j] := a[j], a[i];
  }

  /** The entries handler: the snapshot's documents, sorted newest first,
      become the published list. */
  method PublishEntries(docs: seq<Entry>) returns (published: seq<Entry>)
    ensures NewestFirst(published)
    ensures multiset(published) == multiset(docs)
  {
    var data := new Entry[|docs|](i requires 0 <= i < |docs| => docs[i]);
    assert data[..] == docs;
    SortNewestFirst(data);
    published := data[..];
  }
}
