/** The extension's history viewer (extension/viewer.js): de-duplication of
    repeat views and the search filter over the locally stored history. */
module Viewer {
  import opened Common
  import opened Seqs

  /** Repeat views of one video closer together than this many milliseconds are dropped. */
  const RepeatWindowMillis: int := 5000

  /** `new Date(timestamp).getTime()`: milliseconds, or NaN for an unparsable string. */
  datatype Millis = At(ms: int) | Invalid

  /** One stored history entry (the fields the viewer reads). */
  datatype Entry = Entry(videoId: string, videoTitle: string, channelName: string, videoUrl: string, timestamp: string)

  /** `Math.abs(t - last) > 5000`; any comparison with NaN is false. */
  predicate FarApart(t: Millis, last: Millis) {
    t.At? && last.At? && (t.ms - last.ms > RepeatWindowMillis || last.ms - t.ms > RepeatWindowMillis)
  }

  /** The time of the last entry of `out` for video `id`: what the `seen` map
      holds for `id` once `out` has been pushed. */
  function LastKept(out: seq<Entry>, id: string, toMillis: string -> Millis): (r: Option<Millis>)
    ensures r.None? <==> forall j :: 0 <= j < |out| ==> out[j].videoId != id
    ensures r.Some? ==> exists j :: 0 <= j < |out| && out[j].videoId == id && r.value == toMillis(out[j].timestamp)
                                   && forall k :: j < k < |out| ==> out[k].videoId != id
  {
    match LastIndex(out, (x: Entry) => x.videoId == id)
    case None => None
    case Some(j) => Some(toMillis(out[j].timestamp))
  }

  /** An entry is kept when its video was not kept before, or when it is more
      than the window away from the last kept view of that video. */
  predicate Keep(prev: seq<Entry>, e: Entry, toMillis: string -> Millis) {
    match LastKept(prev, e.videoId, toMillis)
    case None => true
    case Some(last) => FarApart(toMillis(e.timestamp), last)
  }

  /** What `deduplicateHistory` returns, entry by entry from the front. */
  function Dedup(h: seq<Entry>, toMillis: string -> Millis): (r: seq<Entry>)
    ensures |r| <= |h|
    ensures h != [] ==> r != [] && r[0] == h[0]
    decreases |h|
  {
    if h == [] then []
    else
      var prev := Dedup(h[..|h| - 1], toMillis);
      if Keep(prev, h[|h| - 1], toMillis) then prev + [h[|h| - 1]] else prev
  }

  /** Pushing one entry makes it the last kept view of its video. */
  lemma LastKeptSnoc(out: seq<Entry>, e: Entry, id: string, toMillis: string -> Millis)
    ensures LastKept(out + [e], id, toMillis)
         == if e.videoId == id then Some(toMillis(e.timestamp)) else LastKept(out, id, toMillis)
  {
    assert (out + [e])[..|out + [e]| - 1] == out;
  }

  /** One more entry of the input: kept or dropped by `Keep`. */
  lemma DedupStep(h: seq<Entry>, i: nat, toMillis: string -> Millis)
    requires i < |h|
    ensures Dedup(h[..i + 1], toMillis)
         == if Keep(Dedup(h[..i], toMillis), h[i], toMillis) then Dedup(h[..i], toMillis) + [h[i]]
            else Dedup(h[..i], toMillis)
  {
    assert h[..i + 1][..i] == h[..i];
  }

  /** `seen` maps each video id to the time of its last view in `out`. */
  ghost predicate SeenMatches(out: seq<Entry>, seen: map<string, Millis>, toMillis: string -> Millis) {
    forall id :: LastKept(out, id, toMillis) == if id in seen then Some(seen[id]) else None
  }

  /** Pushing an entry and recording its time in `seen` keeps `seen` the map
      from each id to the time of its last kept view. */
  lemma SeenAfterPush(out: seq<Entry>, seen: map<string, Millis>, e: Entry, toMillis: string -> Millis)
    requires SeenMatches(out, seen, toMillis)
    ensures SeenMatches(out + [e], seen[e.videoId := toMillis(e.timestamp)], toMillis)
  {
    forall id
      ensures LastKept(out + [e], id, toMillis)
           == if id in seen[e.videoId := toMillis(e.timestamp)]
              then Some(seen[e.videoId := toMillis(e.timestamp)][id]) else None
    {
      LastKeptSnoc(out, e, id, toMillis);
    }
  }

  /** One turn of the loop of `deduplicateHistory`: the test on `seen` is
      `Keep`, and the pushed entry and updated map keep the invariant. */
  lemma DedupLoopStep(history: seq<Entry>, i: nat, deduped: seq<Entry>, seen: map<string, Millis>,
                      toMillis: string -> Millis)
    requires i < |history|
    requires deduped == Dedup(history[..i], toMillis)
    requires SeenMatches(deduped, seen, toMillis)
    ensures
      var e := history[i];
      var t := toMillis(e.timestamp);
      if e.videoId !in seen || FarApart(t, seen[e.videoId]) then
        && Dedup(history[..i + 1], toMillis) == deduped + [e]
        && SeenMatches(deduped + [e], seen[e.videoId := t], toMillis)
      else
        Dedup(history[..i + 1], toMillis) == deduped
  {
    var e := history[i];
    DedupStep(history, i, toMillis);
    assert LastKept(deduped, e.videoId, toMillis) == if e.videoId in seen then Some(seen[e.videoId]) else None;
    if e.videoId !in seen || FarApart(toMillis(e.timestamp), seen[e.videoId]) {
      SeenAfterPush(deduped, seen, e, toMillis);
    }
  }

  /** `deduplicateHistory(history)`: the loop over the entries with the `seen`
      map from video id to the time of its last kept view. */
  method DeduplicateHistory(history: seq<Entry>, toMillis: string -> Millis) returns (deduped: seq<Entry>)
    ensures deduped == Dedup(history, toMillis)
  {
    var seen: map<string, Millis> := map[];
    deduped := [];
    var i := 0;
    while i < |history|
      invariant 0 <= i <= |history|
      invariant deduped == Dedup(history[..i], toMillis)
      invariant SeenMatches(deduped, seen, toMillis)
    {
      var entry := history[i];
      var key := entry.videoId;
      var timestamp := toMillis(entry.timestamp);
      DedupLoopStep(history, i, deduped, seen, toMillis);
      if key !in seen {
        seen := seen[key := timestamp];
        deduped := deduped + [entry];
      } else {
        var lastTimestamp := seen[key];
        if FarApart(timestamp, lastTimestamp) {
          seen := seen[key := timestamp];
          deduped := deduped + [entry];
        }
      }
      i := i + 1;
    }
    assert history[..i] == history;
  }

  /** The output is the input with some entries dropped, in the same order,
      so it is never longer. */
  lemma {:induction false} DedupIsSubsequence(h: seq<Entry>, toMillis: string -> Millis)
    ensures IsSubsequence(Dedup(h, toMillis), h)
    ensures |Dedup(h, toMillis)| <= |h|
    decreases |h|
  {
    if h != [] {
      var init := h[..|h| - 1];
      DedupIsSubsequence(init, toMillis);
      var prev := Dedup(init, toMillis);
      if Keep(prev, h[|h| - 1], toMillis) {
        assert (prev + [h[|h| - 1]])[..|prev|] == prev;
      } else if prev != [] {
        assert IsSubsequence(prev, init);
      }
    }
    SubsequenceBounds(Dedup(h, toMillis), h);
  }

  /** The first view of each video is always kept. */
  lemma FirstViewKept(h: seq<Entry>, i: nat, toMillis: string -> Millis)
    requires i < |h|
    requires forall j :: 0 <= j < i ==> h[j].videoId != h[i].videoId
    ensures Dedup(h[..i + 1], toMillis) == Dedup(h[..i], toMillis) + [h[i]]
  {
    DedupIsSubsequence(h[..i], toMillis);
    var prev := Dedup(h[..i], toMillis);
    SubsequenceBounds(prev, h[..i]);
    forall j | 0 <= j < |prev| ensures prev[j].videoId != h[i].videoId {
      assert prev[j] in h[..i];
    }
    assert h[..i + 1][..i] == h[..i];
  }

  /** A later view of a video is kept exactly when it is more than 5 s away
      from the last kept view of that video (and never when either time is
      NaN). */
  lemma LaterViewKeptIffFarApart(h: seq<Entry>, i: nat, toMillis: string -> Millis)
    requires i < |h|
    requires LastKept(Dedup(h[..i], toMillis), h[i].videoId, toMillis).Some?
    ensures
      var last := LastKept(Dedup(h[..i], toMillis), h[i].videoId, toMillis).value;
      && (FarApart(toMillis(h[i].timestamp), last) ==> Dedup(h[..i + 1], toMillis) == Dedup(h[..i], toMillis) + [h[i]])
      && (!FarApart(toMillis(h[i].timestamp), last) ==> Dedup(h[..i + 1], toMillis) == Dedup(h[..i], toMillis))
  {
    DedupStep(h, i, toMillis);
  }

  /** Two views of one video that are next to each other among the kept
      entries are more than 5 s apart. */
  predicate RepeatsFarApart(out: seq<Entry>, toMillis: string -> Millis) {
    forall i, j :: 0 <= i < j < |out| && out[i].videoId == out[j].videoId
                   && (forall k :: i < k < j ==> out[k].videoId != out[i].videoId)
                   ==> FarApart(toMillis(out[j].timestamp), toMillis(out[i].timestamp))
  }

  /** The last view of `id` in `out` is the one no later view of `id` follows. */
  lemma LastKeptIsNearest(out: seq<Entry>, i: nat, toMillis: string -> Millis)
    requires i < |out|
    requires forall k :: i < k < |out| ==> out[k].videoId != out[i].videoId
    ensures LastKept(out, out[i].videoId, toMillis) == Some(toMillis(out[i].timestamp))
  {
    var id := out[i].videoId;
    var m :| 0 <= m < |out| && out[m].videoId == id && LastKept(out, id, toMillis).value == toMillis(out[m].timestamp)
             && forall k :: m < k < |out| ==> out[k].videoId != id;
    if m != i {
      assert false;
    }
  }

  /** The kept views of one video are spaced more than the window apart. */
  lemma {:induction false} DedupRepeatsFarApart(h: seq<Entry>, toMillis: string -> Millis)
    ensures RepeatsFarApart(Dedup(h, toMillis), toMillis)
    decreases |h|
  {
    if h != [] {
      var init, e := h[..|h| - 1], h[|h| - 1];
      DedupRepeatsFarApart(init, toMillis);
      var prev := Dedup(init, toMillis);
      if Keep(prev, e, toMillis) {
        var out := prev + [e];
        forall i, j | 0 <= i < j < |out| && out[i].videoId == out[j].videoId
                      && (forall k :: i < k < j ==> out[k].videoId != out[i].videoId)
          ensures FarApart(toMillis(out[j].timestamp), toMillis(out[i].timestamp))
        {
          if j == |prev| {
            assert out[i] == prev[i];
            assert forall k :: i < k < |prev| ==> prev[k] == out[k];
            LastKeptIsNearest(prev, i, toMillis);
          } else {
            assert out[i] == prev[i] && out[j] == prev[j];
            assert forall k :: i < k < j ==> out[k] == prev[k];
          }
        }
      }
    }
  }

  /** De-duplicating twice drops nothing more. */
  lemma {:induction false} DedupIdempotent(h: seq<Entry>, toMillis: string -> Millis)
    ensures Dedup(Dedup(h, toMillis), toMillis) == Dedup(h, toMillis)
    decreases |h|
  {
    if h != [] {
      var init, e := h[..|h| - 1], h[|h| - 1];
      DedupIdempotent(init, toMillis);
      var prev := Dedup(init, toMillis);
      if Keep(prev, e, toMillis) {
        var out := prev + [e];
        assert out[..|out| - 1] == prev;
        assert out[|out| - 1] == e;
      }
    }
  }

  /** The lower-cased title or channel contains the lower-cased term. */
  predicate MatchesTerm(e: Entry, term: string) {
    Contains(Lower(e.videoTitle), Lower(term)) || Contains(Lower(e.channelName), Lower(term))
  }

  /** The search filter on a list: an empty term keeps the list as it is;
      otherwise the entries matching the term, in order. */
  function SearchStep(list: seq<Entry>, term: string): (r: seq<Entry>)
    ensures IsSubsequence(r, list)
    ensures term == "" ==> r == list
    ensures term != "" ==> forall x :: x in r <==> x in list && MatchesTerm(x, term)
    ensures term != "" ==> forall x :: multiset(r)[x] == if MatchesTerm(x, term) then multiset(list)[x] else 0
  {
    if term == "" then
      SubsequenceReflexive(list);
      list
    else
      var r := Filter(list, (x: Entry) => MatchesTerm(x, term));
      FilterExact(list, (x: Entry) => MatchesTerm(x, term));
      r
  }

  /** A term matches every entry that contains it, so searching for the empty
      string (were it not special-cased) would also keep everything. */
  lemma EmptyTermMatchesAll(e: Entry)
    ensures MatchesTerm(e, "")
  {
    ContainsEmpty(Lower(e.videoTitle));
  }

  /** The viewer page: the whole stored history and the list currently shown. */
  class HistoryView {
    var allHistory: seq<Entry>
    var filteredHistory: seq<Entry>

    /** The shown list is always drawn from the loaded history, in its order. */
    ghost predicate Valid()
      reads this
    {
      IsSubsequence(filteredHistory, allHistory)
    }

    /** `init`: both lists are the loaded history. */
    constructor (loaded: seq<Entry>)
      ensures allHistory == loaded && filteredHistory == loaded
      ensures Valid()
    {
      allHistory := loaded;
      filteredHistory := loaded;
      SubsequenceReflexive(loaded);
    }

    /** `filterBySearch(searchTerm)`: the whole history, narrowed by the term. */
    method FilterBySearch(searchTerm: string)
      modifies this
      ensures allHistory == old(allHistory)
      ensures filteredHistory == SearchStep(allHistory, searchTerm)
      ensures Valid()
    {
      filteredHistory := SearchStep(allHistory, searchTerm);
    }

    /** The search step of `applyFilters`: narrows whatever list is shown
      (the date-filtered one) and never adds an entry to it. */
    method ApplySearchStep(searchTerm: string)
      requires Valid()
      modifies this
      ensures allHistory == old(allHistory)
      ensures filteredHistory == SearchStep(old(filteredHistory), searchTerm)
      ensures IsSubsequence(filteredHistory, old(filteredHistory))
      ensures Valid()
    {
      filteredHistory := SearchStep(filteredHistory, searchTerm);
      SubsequenceTransitive(filteredHistory, old(filteredHistory), allHistory);
    }

    /** `displayHistory`: the entries rendered are the shown list de-duplicated. */
    method Displayed(toMillis: string -> Millis) returns (shown: seq<Entry>)
      requires Valid()
      ensures shown == Dedup(filteredHistory, toMillis)
      ensures IsSubsequence(shown, filteredHistory)
      ensures IsSubsequence(shown, allHistory)
    {
      shown := DeduplicateHistory(filteredHistory, toMillis);
      DedupIsSubsequence(filteredHistory, toMillis);
      SubsequenceTransitive(shown, filteredHistory, allHistory);
    }
  }
}
