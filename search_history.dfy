/** The search-history ledger of the SearchHistory component: a list of
    `{word, timestamp}` records kept under the single storage key
    'searchHistory', deduplicated by word, capped at 50 entries, and shown
    newest first. Timestamps are the milliseconds `Date.getTime()` would
    read from the stored ISO strings. */
module SearchHistory {
  import opened JsBuiltins
  import opened Seqs

  /** The cap applied by `slice(0, 50)`. */
  const Capacity: nat := 50

  datatype Entry = Entry(word: string, timestamp: int)

  /** What `localStorage.getItem('searchHistory')` can hold when the key is
      present: the empty string (falsy, so treated like a missing key), text
      that `JSON.parse` rejects or that is not an array, or a stored list. */
  datatype Blob = Blank | Garbage | Json(entries: seq<Entry>)

  /** No two entries share a word. */
  ghost predicate NoDuplicateWords(es: seq<Entry>)
  {
    forall i, j :: 0 <= i < j < |es| ==> es[i].word != es[j].word
  }

  /** The ledger invariants the component keeps for the lists it writes. */
  ghost predicate WellFormed(es: seq<Entry>)
  {
    |es| <= Capacity && NoDuplicateWords(es)
  }

  // ---------------------------------------------------------------------
  // The list step of addToHistory

  /** The prior list addToHistory starts from, or None when `JSON.parse`
      (or the `filter` that follows it) throws. */
  function PriorEntries(stored: Option<Blob>): (r: Option<seq<Entry>>)
    ensures r.None? <==> stored == Some(Garbage)
    ensures stored.Some? && stored.value.Json? ==> r == Some(stored.value.entries)
    ensures stored.None? || stored == Some(Blank) ==> r == Some([])
  {
    match stored
    case None => Some([])
    case Some(Blank) => Some([])
    case Some(Garbage) => None
    case Some(Json(es)) => Some(es)
  }

  /** `currentHistory.filter(item => item.word !== key)`. */
  function Without(es: seq<Entry>, key: string): (r: seq<Entry>)
    ensures forall e :: e in r <==> e in es && e.word != key
  {
    FilterMembers(es, (e: Entry) => e.word != key);
    Filter(es, (e: Entry) => e.word != key)
  }

  /** The prior entries that carry `key`: those the filter drops. */
  function WithWord(es: seq<Entry>, key: string): (r: seq<Entry>)
  {
    Filter(es, (e: Entry) => e.word == key)
  }

  /** Some stored entry carries `key`. */
  ghost predicate Mentions(es: seq<Entry>, key: string)
  {
    exists i :: 0 <= i < |es| && es[i].word == key
  }

  /** The filter keeps every entry with another word and drops every entry
      with this one: the two parts together are the prior list. */
  lemma WithoutCounts(es: seq<Entry>, key: string)
    ensures multiset(Without(es, key)) + multiset(WithWord(es, key)) == multiset(es)
    ensures |Without(es, key)| == |es| - |WithWord(es, key)|
  {
    FilterPartition(es, (e: Entry) => e.word != key, (e: Entry) => e.word == key);
    FilterPartitionLength(es, (e: Entry) => e.word != key, (e: Entry) => e.word == key);
  }

  /** In a list without repeated words, a word occurs once or not at all. */
  lemma {:induction false} AtMostOneWithWord(es: seq<Entry>, key: string)
    requires NoDuplicateWords(es)
    ensures Mentions(es, key) ==> |WithWord(es, key)| == 1
    ensures !Mentions(es, key) ==> WithWord(es, key) == []
  {
    if es != [] {
      var n := |es| - 1;
      var front := es[..n];
      assert NoDuplicateWords(front) by {
        forall i, j | 0 <= i < j < |front| ensures front[i].word != front[j].word {
          assert front[i] == es[i] && front[j] == es[j];
        }
      }
      if es[n].word == key {
        forall i | 0 <= i < |front| ensures front[i].word != key {
          assert front[i] == es[i];
        }
        FilterNonePass(front, (e: Entry) => e.word == key);
        assert Mentions(es, key) by {
          assert es[n].word == key;
        }
      } else {
        AtMostOneWithWord(front, key);
        if Mentions(es, key) {
          var i :| 0 <= i < |es| && es[i].word == key;
          assert i < n && front[i] == es[i];
        }
        if Mentions(front, key) {
          var i :| 0 <= i < |front| && front[i].word == key;
          assert es[i] == front[i];
        }
      }
    }
  }

  /** `[newItem, ...filteredHistory].slice(0, 50)`, with `newItem` made from
      the lower-cased word and the current time. */
  function Updated(prior: seq<Entry>, word: string, now: int): (r: seq<Entry>)
    ensures 1 <= |r| <= Capacity
    ensures r[0] == Entry(Lower(word), now)
  {
    var key := Lower(word);
    var u := [Entry(key, now)] + Without(prior, key);
    if |u| <= Capacity then u else u[..Capacity]
  }

  /** The new entry comes first; no later entry repeats its word; the length is
      the cap or one more than the surviving prior entries, whichever is less;
      and the rest are the surviving prior entries in their stored order. */
  lemma UpdatedShape(prior: seq<Entry>, word: string, now: int)
    ensures var r := Updated(prior, word, now);
      && |r| >= 1 && r[0] == Entry(Lower(word), now)
      && (forall i :: 1 <= i < |r| ==> r[i].word != Lower(word))
      && |r| <= Capacity
      && |r| == (if 1 + |Without(prior, Lower(word))| <= Capacity then 1 + |Without(prior, Lower(word))| else Capacity)
      && r[1..] == Without(prior, Lower(word))[..|r| - 1]
  {
    var key := Lower(word);
    var w := Without(prior, key);
    var r := Updated(prior, word, now);
    FilterMembers(prior, (e: Entry) => e.word != key);
    forall i | 1 <= i < |r| ensures r[i].word != key {
      assert r[i] == w[i - 1];
      assert r[i] in w;
    }
  }

  /** The surviving entries are prior entries, in their original relative
      order, with words and timestamps unchanged. */
  lemma UpdatedKeepsPriorOrder(prior: seq<Entry>, word: string, now: int) returns (idx: seq<int>)
    ensures SubsequenceAt(Updated(prior, word, now)[1..], prior, idx)
  {
    var key := Lower(word);
    var w := Without(prior, key);
    var r := Updated(prior, word, now);
    var all := FilterIsSubsequence(prior, (e: Entry) => e.word != key);
    UpdatedShape(prior, word, now);
    idx := all[..|r| - 1];
    assert r[1..] == w[..|r| - 1];
  }

  /** With no stored list, the ledger becomes exactly the new entry. */
  lemma UpdatedFromNothing(word: string, now: int)
    ensures Updated([], word, now) == [Entry(Lower(word), now)]
  {
  }

  /** Against a list without repeated words, the new list is one longer
      than the prior one when the word is new and as long when it replaces
      its old entry, in both cases cut at the cap. */
  lemma UpdatedLength(prior: seq<Entry>, word: string, now: int)
    requires NoDuplicateWords(prior)
    ensures |Updated(prior, word, now)| ==
      MinInt(Capacity, if Mentions(prior, Lower(word)) then |prior| else |prior| + 1)
  {
    UpdatedShape(prior, word, now);
    WithoutCounts(prior, Lower(word));
    AtMostOneWithWord(prior, Lower(word));
  }

  /** A duplicate-free prior list stays duplicate-free, and the result is
      always within the cap. */
  lemma UpdatedPreservesWellFormed(prior: seq<Entry>, word: string, now: int)
    requires NoDuplicateWords(prior)
    ensures WellFormed(Updated(prior, word, now))
  {
    var key := Lower(word);
    var r := Updated(prior, word, now);
    UpdatedShape(prior, word, now);
    var idx := UpdatedKeepsPriorOrder(prior, word, now);
    var tail := r[1..];
    forall i, j | 0 <= i < j < |r| ensures r[i].word != r[j].word {
      if i > 0 {
        assert r[i] == tail[i - 1] == prior[idx[i - 1]];
        assert r[j] == tail[j - 1] == prior[idx[j - 1]];
        assert idx[i - 1] < idx[j - 1];
      }
    }
  }

  /** Searching the same word twice (in any letter case) leaves one entry for
      it, carrying the later time. */
  lemma RepeatedSearchKeepsLatest(prior: seq<Entry>, first: string, again: string, t1: int, t2: int)
    requires Lower(first) == Lower(again)
    ensures var r := Updated(Updated(prior, first, t1), again, t2);
      && r[0] == Entry(Lower(first), t2)
      && forall i :: 0 < i < |r| ==> r[i].word != Lower(first)
  {
    UpdatedShape(Updated(prior, first, t1), again, t2);
  }

  /** The ledger after the searches `searches[0]`, `searches[1]`, ... in
      that order, each at its own time. */
  function AppendAll(start: seq<Entry>, searches: seq<Entry>): (r: seq<Entry>)
  {
    if searches == [] then start
    else
      var n := |searches| - 1;
      Updated(AppendAll(start, searches[..n]), searches[n].word, searches[n].timestamp)
  }

  function MinInt(a: int, b: int): (m: int)
  {
    if a <= b then a else b
  }

  /** When the first `m` stored entries have other words, adding the word
      shifts them down one place behind the new entry, within the cap. */
  lemma UpdatedShiftsPrefix(prev: seq<Entry>, word: string, now: int, m: int)
    requires 0 <= m <= |prev|
    requires forall i :: 0 <= i < m ==> prev[i].word != Lower(word)
    ensures var r := Updated(prev, word, now);
      && MinInt(Capacity, m + 1) <= |r|
      && r[0] == Entry(Lower(word), now)
      && forall k :: 1 <= k < MinInt(Capacity, m + 1) ==> r[k] == prev[k - 1]
  {
    var key := Lower(word);
    var keep := (e: Entry) => e.word != key;
    FilterKeepsPassingPrefix(prev, keep, m);
    UpdatedShape(prev, word, now);
    var w := Without(prev, key);
    var r := Updated(prev, word, now);
    forall k | 1 <= k < MinInt(Capacity, m + 1) ensures r[k] == prev[k - 1] {
      assert r[k] == w[k - 1];
      assert w[..m][k - 1] == prev[..m][k - 1];
    }
  }

  /** The entry a search leaves in the ledger. */
  function Normalized(search: Entry): (e: Entry)
  {
    Entry(Lower(search.word), search.timestamp)
  }

  /** The first `m` ledger entries are the last `m` searches, newest first. */
  ghost predicate BeginsWithLatest(r: seq<Entry>, searches: seq<Entry>, m: int)
  {
    0 <= m <= |r| && m <= |searches| &&
    forall k :: 0 <= k < m ==> r[k] == Normalized(searches[|searches| - 1 - k])
  }

  /** The searches are for pairwise different words, once lower-cased. */
  ghost predicate DistinctWords(searches: seq<Entry>)
  {
    forall i, j :: 0 <= i < j < |searches| ==> Lower(searches[i].word) != Lower(searches[j].word)
  }

  /** One more search for a new word pushes the latest searches down by one. */
  lemma LatestStep(prev: seq<Entry>, before: seq<Entry>, last: Entry)
    requires BeginsWithLatest(prev, before, MinInt(Capacity, |before|))
    requires forall i :: 0 <= i < |before| ==> Lower(before[i].word) != Lower(last.word)
    ensures BeginsWithLatest(Updated(prev, last.word, last.timestamp), before + [last], MinInt(Capacity, |before| + 1))
  {
    var n := |before|;
    var searches := before + [last];
    var m := MinInt(Capacity, n);
    forall i | 0 <= i < m ensures prev[i].word != Lower(last.word) {
      assert prev[i] == Normalized(before[n - 1 - i]);
    }
    UpdatedShiftsPrefix(prev, last.word, last.timestamp, m);
    var r := Updated(prev, last.word, last.timestamp);
    forall k | 1 <= k < MinInt(Capacity, n + 1)
      ensures r[k] == Normalized(searches[n - k])
    {
      assert r[k] == prev[k - 1];
      assert prev[k - 1] == Normalized(before[n - 1 - (k - 1)]);
      assert before[n - 1 - (k - 1)] == searches[n - k];
    }
  }

  /** After searches for pairwise different words, the ledger begins with the
      most recent of them, newest first; once there are 50 or more, the ledger
      holds exactly the latest 50 and everything older was evicted. */
  lemma {:induction false} AppendAllKeepsMostRecent(start: seq<Entry>, searches: seq<Entry>)
    requires DistinctWords(searches)
    ensures BeginsWithLatest(AppendAll(start, searches), searches, MinInt(Capacity, |searches|))
    ensures |searches| >= Capacity ==> |AppendAll(start, searches)| == Capacity
  {
    if searches != [] {
      var n := |searches| - 1;
      var before := searches[..n];
      var last := searches[n];
      assert DistinctWords(before);
      AppendAllKeepsMostRecent(start, before);
      var prev := AppendAll(start, before);
      forall i | 0 <= i < n ensures Lower(before[i].word) != Lower(last.word) {
        assert before[i] == searches[i];
      }
      LatestStep(prev, before, last);
      assert before + [last] == searches;
      UpdatedShape(prev, last.word, last.timestamp);
    }
  }

  // ---------------------------------------------------------------------
  // The sort of loadHistory

  /** Most recent first: timestamps never increase along the list. */
  ghost predicate NewestFirst(s: seq<Entry>)
  {
    forall i, j :: 0 <= i < j < |s| ==> s[i].timestamp >= s[j].timestamp
  }

  /** Places `x` after every entry at least as recent as it. */
  function Insert(s: seq<Entry>, x: Entry): (r: seq<Entry>)
  {
    if s == [] then [x]
    else if s[0].timestamp >= x.timestamp then [s[0]] + Insert(s[1..], x)
    else [x] + s
  }

  /** A stable sort by timestamp, newer first, as `Array.prototype.sort`
      with the comparator `b - a` gives it. */
  function ByRecency(s: seq<Entry>): (r: seq<Entry>)
  {
    if s == [] then []
    else Insert(ByRecency(s[..|s| - 1]), s[|s| - 1])
  }

  lemma {:induction false} InsertPermutes(s: seq<Entry>, x: Entry)
    ensures multiset(Insert(s, x)) == multiset(s) + multiset{x}
  {
    if s != [] && s[0].timestamp >= x.timestamp {
      InsertPermutes(s[1..], x);
      assert s == [s[0]] + s[1..];
    }
  }

  lemma {:induction false} InsertKeepsNewestFirst(s: seq<Entry>, x: Entry)
    requires NewestFirst(s)
    ensures NewestFirst(Insert(s, x))
  {
    if s != [] && s[0].timestamp >= x.timestamp {
      var t := Insert(s[1..], x);
      InsertKeepsNewestFirst(s[1..], x);
      InsertPermutes(s[1..], x);
      forall k | 0 <= k < |t| ensures t[k].timestamp <= s[0].timestamp {
        assert t[k] in multiset(t);
        assert t[k] in multiset(s[1..]) || t[k] == x;
      }
      assert Insert(s, x) == [s[0]] + t;
    }
  }

  /** The sorted list is newest first and holds the same entries. */
  lemma ByRecencySortsAndPermutes(s: seq<Entry>)
    ensures NewestFirst(ByRecency(s))
    ensures multiset(ByRecency(s)) == multiset(s)
  {
    ByRecencySorts(s);
    ByRecencyPermutes(s);
  }

  lemma {:induction false} ByRecencySorts(s: seq<Entry>)
    ensures NewestFirst(ByRecency(s))
  {
    if s != [] {
      var n := |s| - 1;
      ByRecencySorts(s[..n]);
      InsertKeepsNewestFirst(ByRecency(s[..n]), s[n]);
    }
  }

  lemma {:induction false} ByRecencyPermutes(s: seq<Entry>)
    ensures multiset(ByRecency(s)) == multiset(s)
  {
    if s != [] {
      var n := |s| - 1;
      var init := s[..n];
      ByRecencyPermutes(init);
      InsertPermutes(ByRecency(init), s[n]);
      assert s == init + [s[n]];
    }
  }

  /** A list already newest first is shown as it is stored. */
  lemma {:induction false} ByRecencyOfSorted(s: seq<Entry>)
    requires NewestFirst(s)
    ensures ByRecency(s) == s
  {
    if s != [] {
      var n := |s| - 1;
      ByRecencyOfSorted(s[..n]);
      InsertAt(s[..n], s[n], n);
      assert s[..n] + [s[n]] + [] == s;
    }
  }

  /** The entries stamped `t`. */
  function SameTime(t: int): (p: Entry -> bool)
  {
    (e: Entry) => e.timestamp == t
  }

  /** Inserting into a newest-first list puts the entry behind every entry
      with its timestamp, so the entries of any one timestamp keep their
      order, with the inserted one last. */
  lemma {:induction false} InsertKeepsTies(s: seq<Entry>, x: Entry, t: int)
    requires NewestFirst(s)
    ensures Filter(Insert(s, x), SameTime(t)) ==
      Filter(s, SameTime(t)) + (if x.timestamp == t then [x] else [])
  {
    var p := SameTime(t);
    if s == [] || s[0].timestamp < x.timestamp {
      assert Insert(s, x) == [x] + s;
      PrependFilter(s, x, t);
    } else {
      var rest := s[1..];
      assert NewestFirst(rest) by {
        forall i, j | 0 <= i < j < |rest| ensures rest[i].timestamp >= rest[j].timestamp {
          assert rest[i] == s[i + 1] && rest[j] == s[j + 1];
        }
      }
      InsertKeepsTies(rest, x, t);
      assert Insert(s, x) == [s[0]] + Insert(rest, x);
      FilterConcat([s[0]], Insert(rest, x), p);
      FilterConcat([s[0]], rest, p);
      assert [s[0]] + rest == s;
    }
  }

  /** Putting an entry in front of a list whose entries are all at most as
      recent as the head: ties with the entry come only from it. */
  lemma PrependFilter(s: seq<Entry>, x: Entry, t: int)
    requires NewestFirst(s)
    requires s == [] || s[0].timestamp < x.timestamp
    ensures Filter([x] + s, SameTime(t)) ==
      Filter(s, SameTime(t)) + (if x.timestamp == t then [x] else [])
  {
    var p := SameTime(t);
    FilterConcat([x], s, p);
    assert [x][..0] == [];
    assert Filter([x], p) == (if p(x) then [x] else []);
    if x.timestamp == t {
      forall i | 0 <= i < |s| ensures !p(s[i]) {
        assert s[i].timestamp <= s[0].timestamp;
      }
      FilterNonePass(s, p);
    }
  }

  /** The sort is stable: entries with equal timestamps are shown in the
      order they were stored. */
  lemma {:induction false} ByRecencyIsStable(s: seq<Entry>, t: int)
    ensures Filter(ByRecency(s), SameTime(t)) == Filter(s, SameTime(t))
  {
    if s != [] {
      var n := |s| - 1;
      ByRecencyIsStable(s[..n], t);
      ByRecencySortsAndPermutes(s[..n]);
      InsertKeepsTies(ByRecency(s[..n]), s[n], t);
    }
  }

  /** Inserting below a prefix of entries at least as recent and above a
      suffix of strictly older ones. */
  lemma {:induction false} InsertAt(s: seq<Entry>, x: Entry, j: int)
    requires 0 <= j <= |s|
    requires forall k :: 0 <= k < j ==> s[k].timestamp >= x.timestamp
    requires forall k :: j <= k < |s| ==> s[k].timestamp < x.timestamp
    ensures Insert(s, x) == s[..j] + [x] + s[j..]
  {
    if j > 0 {
      InsertAt(s[1..], x, j - 1);
      assert s[..j] == [s[0]] + s[1..][..j - 1];
    }
  }

  /** One step of the insertion sort: moves `a[i]` down past the strictly
      older entries of the sorted prefix `a[..i]`. */
  method SiftDown(a: array<Entry>, i: int)
    requires 0 <= i < a.Length
    requires NewestFirst(a[..i])
    modifies a
    ensures a[..i + 1] == Insert(old(a[..i]), old(a[i]))
    ensures a[i + 1..] == old(a[i + 1..])
  {
    var x := a[i];
    var j := i;
    while j > 0 && a[j - 1].timestamp < x.timestamp
      invariant 0 <= j <= i
      invariant a[j] == x
      invariant forall k :: 0 <= k < j ==> a[k] == old(a[k])
      invariant forall k :: j < k <= i ==> a[k] == old(a[k - 1])
      invariant forall k :: j <= k < i ==> old(a[k]).timestamp < x.timestamp
      invariant forall k :: i < k < a.Length ==> a[k] == old(a[k])
    {
      a[j] := a[j - 1];
      a[j - 1] := x;
      j := j - 1;
    }
    SiftedIsInsert(old(a[..i]), x, j, a[..i + 1]);
    assert a[i + 1..] == old(a[i + 1..]);
  }

  /** What the sift loop leaves in `a[..i + 1]` is the insertion of `x`
      into the sorted prefix. */
  lemma SiftedIsInsert(done: seq<Entry>, x: Entry, j: int, s: seq<Entry>)
    requires NewestFirst(done)
    requires 0 <= j <= |done| && |s| == |done| + 1 && s[j] == x
    requires forall k :: 0 <= k < j ==> s[k] == done[k]
    requires forall k :: j < k <= |done| ==> s[k] == done[k - 1]
    requires forall k :: j <= k < |done| ==> done[k].timestamp < x.timestamp
    requires j == 0 || done[j - 1].timestamp >= x.timestamp
    ensures s == Insert(done, x)
  {
    forall k | 0 <= k < j ensures done[k].timestamp >= x.timestamp {
      assert done[k].timestamp >= done[j - 1].timestamp;
    }
    InsertAt(done, x, j);
    assert s == done[..j] + [x] + done[j..];
  }

  /** `parsedHistory.sort((a, b) => b.timestamp - a.timestamp)`: an in-place
      insertion sort that only moves an entry past strictly older ones. */
  method SortNewestFirst(a: array<Entry>)
    modifies a
    ensures a[..] == ByRecency(old(a[..]))
  {
    ghost var orig := a[..];
    var i := 0;
    while i < a.Length
      invariant 0 <= i <= a.Length
      invariant a[..i] == ByRecency(orig[..i])
      invariant a[i..] == orig[i..]
    {
      ByRecencySortsAndPermutes(orig[..i]);
      assert a[i + 1..] == orig[i + 1..] by {
        assert a[i + 1..] == a[i..][1..] && orig[i + 1..] == orig[i..][1..];
      }
      SiftDown(a, i);
      assert orig[..i + 1][..i] == orig[..i];
      i := i + 1;
    }
    assert orig[..a.Length] == orig;
  }

  /** What the component shows after loadHistory: a newest-first permutation
      of the stored list, or what it showed before when the key is missing,
      blank or unparseable. */
  function Displayed(stored: Option<Blob>, shown: seq<Entry>): (r: seq<Entry>)
    ensures stored.Some? && stored.value.Json? ==>
      NewestFirst(r) && multiset(r) == multiset(stored.value.entries)
    ensures !(stored.Some? && stored.value.Json?) ==> r == shown
  {
    match stored
    case Some(Json(es)) =>
      ByRecencySortsAndPermutes(es);
      ByRecency(es)
    case _ => shown
  }

  /** Starting from nothing, the ledger never holds more entries than there
      were searches. */
  lemma {:induction false} AppendAllLength(searches: seq<Entry>)
    ensures |AppendAll([], searches)| <= |searches|
  {
    if searches != [] {
      var n := |searches| - 1;
      AppendAllLength(searches[..n]);
      UpdatedShape(AppendAll([], searches[..n]), searches[n].word, searches[n].timestamp);
    }
  }

  /** Searches for different words at increasing times, starting from an
      empty ledger and within the cap, are shown in reverse order of search:
      the last one first. */
  lemma ShownMostRecentFirst(searches: seq<Entry>)
    requires DistinctWords(searches)
    requires |searches| <= Capacity
    requires forall i :: 0 < i < |searches| ==> searches[i - 1].timestamp < searches[i].timestamp
    ensures var shown := ByRecency(AppendAll([], searches));
      && |shown| == |searches|
      && forall k :: 0 <= k < |shown| ==> shown[k] == Normalized(searches[|searches| - 1 - k])
  {
    var r := AppendAll([], searches);
    AppendAllKeepsMostRecent([], searches);
    AppendAllLength(searches);
    var n := |searches|;
    assert |r| == n;
    forall i, j | 0 <= i < j < n ensures searches[i].timestamp < searches[j].timestamp {
      IncreasingTimes(searches, i, j);
    }
    ByRecencyOfSorted(r);
  }

  lemma {:induction false} IncreasingTimes(searches: seq<Entry>, i: int, j: int)
    requires forall k :: 0 < k < |searches| ==> searches[k - 1].timestamp < searches[k].timestamp
    requires 0 <= i < j < |searches|
    ensures searches[i].timestamp < searches[j].timestamp
  {
    if i < j - 1 {
      IncreasingTimes(searches, i, j - 1);
    }
  }

  // ---------------------------------------------------------------------
  // The component's state

  /** The stored value under 'searchHistory' and the `history` state shown. */
  class Ledger {
    var stored: Option<Blob>
    var history: seq<Entry>

    /** Mounting: `useState([])`, then the effect that runs loadHistory. */
    constructor (initial: Option<Blob>)
      ensures stored == initial
      ensures history == Displayed(initial, [])
    {
      stored := initial;
      history := [];
      new;
      LoadHistory();
    }

    /** loadHistory: parse the stored list, sort it newest first, show it. */
    method LoadHistory()
      modifies this
      ensures stored == old(stored)
      ensures history == Displayed(stored, old(history))
    {
      match stored
      case Some(Json(es)) =>
        var a := new Entry[|es|](k requires 0 <= k < |es| => es[k]);
        assert a[..] == es;
        SortNewestFirst(a);
        history := a[..];
      case _ =>
    }

    /** addToHistory: read, drop the word's old entry, prepend, cap, write
        once, then reload the display; a parse failure is caught and nothing
        changes. */
    method AddToHistory(word: string, now: int)
      modifies this
      ensures PriorEntries(old(stored)).None? ==> stored == old(stored) && history == old(history)
      ensures PriorEntries(old(stored)).Some? ==>
        var written := Updated(PriorEntries(old(stored)).value, word, now);
        stored == Some(Json(written)) && history == ByRecency(written)
    {
      var current := PriorEntries(stored);
      if current.Some? {
        var key := Lower(word);
        var item := Entry(key, now);
        var filtered := Without(current.value, key);
        var updated := [item] + filtered;
        var trimmed := if |updated| <= Capacity then updated else updated[..Capacity];
        stored := Some(Json(trimmed));
        LoadHistory();
      }
    }

    /** clearHistory: remove the key and show nothing. */
    method ClearHistory()
      modifies this
      ensures stored == None && history == []
    {
      stored := None;
      history := [];
    }
  }
}
