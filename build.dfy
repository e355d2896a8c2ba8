/**
 * The update run of tools/build.php: read the stored dataset, ask the remote
 * for its latest comic number, walk a cursor down from there to the highest
 * stored id, store every comic the remote returns, then sort the keys.
 *
 * The remote is given as values: `latest` is the `num` of the latest comic,
 * or None when that request does not answer 200; `fetch(id)` is the decoded
 * record for comic `id`, or None when that request does not answer 200.
 * `noon(month, day, year)` is the local timestamp of noon on that day.
 */
module Build {
  import opened Decimal
  import opened NaturalOrder
  import opened Comics

  /** The JSON fields of one `info.0.json` answer that the run reads. */
  datatype Record = Record(
    num: int, year: int, month: int, day: int,
    safeTitle: string, img: string, alt: string, transcript: string)

  /** How the run ends: the exception before anything changes, or the dataset written back. */
  datatype Outcome = Aborted | Written(data: Dataset)

  /** The comic id the run never asks for. */
  const SkippedId := 404

  /**
   * The entry stored for a fetched record: its id is the answer's `num` (so
   * it belongs under `Key(num)`), its date is noon of the published day, and
   * the texts are copied over.
   */
  function ToEntry(r: Record, noon: (int, int, int) -> int): (e: Entry)
    ensures e.id == r.num && e.date == noon(r.month, r.day, r.year)
    ensures e.title == r.safeTitle && e.image == r.img && e.alt == r.alt && e.transcript == r.transcript
  {
    Entry(r.num, noon(r.month, r.day, r.year), r.safeTitle, r.img, r.alt, r.transcript)
  }

  /**
   * What requesting comic `id` does to the dataset: an answer is stored under
   * the key of its `num`, old keys keep their place, nothing else changes.
   */
  function Absorb(d: Dataset, id: int, fetch: int -> Option<Record>, noon: (int, int, int) -> int): (r: Dataset)
    requires d.Valid()
    ensures r.Valid() && d.keys <= r.keys
    ensures r.entries.Keys == d.entries.Keys + AnswerKeys(id, fetch)
    ensures forall k :: k in d.entries && k !in AnswerKeys(id, fetch) ==> r.entries[k] == d.entries[k]
    ensures fetch(id).None? ==> r == d
    ensures fetch(id).Some? ==>
      var rec := fetch(id).value;
      Key(rec.num) in r.entries && r.entries[Key(rec.num)] == ToEntry(rec, noon)
  {
    match fetch(id)
    case None => d
    case Some(r) => Put(d, Key(r.num), ToEntry(r, noon))
  }

  /** The dataset after requesting the ids of `ids`, in that order. */
  function Merge(d: Dataset, ids: seq<int>, fetch: int -> Option<Record>, noon: (int, int, int) -> int): (r: Dataset)
    requires d.Valid()
    ensures r.Valid()
    decreases |ids|
  {
    if ids == [] then d
    else Absorb(Merge(d, ids[..|ids| - 1], fetch, noon), ids[|ids| - 1], fetch, noon)
  }

  /** The key an answer to a request for `id` is stored under: the key of its `num`, if any. */
  function AnswerKeys(id: int, fetch: int -> Option<Record>): set<string> {
    match fetch(id)
    case None => {}
    case Some(r) => {Key(r.num)}
  }

  /** Requesting one more id applies that request's effect to the merged dataset. */
  lemma MergeSnoc(d: Dataset, ids: seq<int>, id: int, fetch: int -> Option<Record>, noon: (int, int, int) -> int)
    requires d.Valid()
    ensures Merge(d, ids + [id], fetch, noon) == Absorb(Merge(d, ids, fetch, noon), id, fetch, noon)
  {
  }

  /** The keys that requesting `ids` stores under. */
  function FetchedKeys(ids: seq<int>, fetch: int -> Option<Record>): set<string>
    decreases |ids|
  {
    if ids == [] then {} else FetchedKeys(ids[..|ids| - 1], fetch) + AnswerKeys(ids[|ids| - 1], fetch)
  }

  /** A key is fetched exactly when some requested id was answered with a record of that key's `num`. */
  lemma {:induction false} FetchedKeysMeaning(ids: seq<int>, fetch: int -> Option<Record>, k: string)
    ensures k in FetchedKeys(ids, fetch) <==> exists i :: i in ids && fetch(i).Some? && Key(fetch(i).value.num) == k
    decreases |ids|
  {
    if ids != [] {
      var init, last := ids[..|ids| - 1], ids[|ids| - 1];
      assert ids == init + [last];
      FetchedKeysMeaning(init, fetch, k);
      if k in AnswerKeys(last, fetch) {
        assert last in ids && fetch(last).Some? && Key(fetch(last).value.num) == k;
      }
    }
  }

  /** The remote answers for comic `i` with comic `i`. */
  ghost predicate Faithful(ids: seq<int>, fetch: int -> Option<Record>) {
    forall i :: i in ids && fetch(i).Some? ==> fetch(i).value.num == i
  }

  /** Entries are never removed: the old keys stay, in their old order, at the front. */
  lemma {:induction false} MergeKeepsOrder(d: Dataset, ids: seq<int>, fetch: int -> Option<Record>, noon: (int, int, int) -> int)
    requires d.Valid()
    ensures d.keys <= Merge(d, ids, fetch, noon).keys
    decreases |ids|
  {
    if ids != [] {
      var init := ids[..|ids| - 1];
      var m := Merge(d, init, fetch, noon);
      var r := Merge(d, ids, fetch, noon);
      MergeKeepsOrder(d, init, fetch, noon);
      assert m.keys <= r.keys;
      assert d.keys == m.keys[..|d.keys|] && m.keys == r.keys[..|m.keys|];
    }
  }

  /** The key set after the requests is the old one plus one key per answered request. */
  lemma {:induction false} MergeKeys(d: Dataset, ids: seq<int>, fetch: int -> Option<Record>, noon: (int, int, int) -> int)
    requires d.Valid()
    ensures Merge(d, ids, fetch, noon).entries.Keys == d.entries.Keys + FetchedKeys(ids, fetch)
    decreases |ids|
  {
    if ids != [] {
      var init, last := ids[..|ids| - 1], ids[|ids| - 1];
      var m := Merge(d, init, fetch, noon);
      MergeKeys(d, init, fetch, noon);
      assert Merge(d, ids, fetch, noon).entries.Keys == m.entries.Keys + AnswerKeys(last, fetch);
      assert FetchedKeys(ids, fetch) == FetchedKeys(init, fetch) + AnswerKeys(last, fetch);
    }
  }

  /** A key no answered request maps to keeps its old value, or stays absent. */
  lemma {:induction false} MergeUntouched(d: Dataset, ids: seq<int>, fetch: int -> Option<Record>, noon: (int, int, int) -> int, k: string)
    requires d.Valid()
    requires k !in FetchedKeys(ids, fetch)
    ensures k in Merge(d, ids, fetch, noon).entries <==> k in d.entries
    ensures k in d.entries ==> Merge(d, ids, fetch, noon).entries[k] == d.entries[k]
    decreases |ids|
  {
    if ids != [] {
      var init, last := ids[..|ids| - 1], ids[|ids| - 1];
      MergeUntouched(d, init, fetch, noon, k);
    }
  }

  /**
   * When the remote answers each request with the comic asked for, every
   * answered id ends up stored under `xkcd-<id>` with the answered record.
   */
  lemma {:induction false} MergeStoresAnswers(d: Dataset, ids: seq<int>, fetch: int -> Option<Record>, noon: (int, int, int) -> int)
    requires d.Valid() && Faithful(ids, fetch)
    ensures forall i :: i in ids && fetch(i).Some? ==>
      Key(i) in Merge(d, ids, fetch, noon).entries &&
      Merge(d, ids, fetch, noon).entries[Key(i)] == ToEntry(fetch(i).value, noon)
    decreases |ids|
  {
    if ids != [] {
      var init, last := ids[..|ids| - 1], ids[|ids| - 1];
      assert ids == init + [last];
      MergeStoresAnswers(d, init, fetch, noon);
      forall i | i in ids && fetch(i).Some?
        ensures Key(i) in Merge(d, ids, fetch, noon).entries
        ensures Merge(d, ids, fetch, noon).entries[Key(i)] == ToEntry(fetch(i).value, noon)
      {
        KeyInjective(i, last);
      }
    }
  }

  /** Every entry the run stores is under the key derived from its id. */
  lemma {:induction false} MergeWellKeyed(d: Dataset, ids: seq<int>, fetch: int -> Option<Record>, noon: (int, int, int) -> int)
    requires d.Valid() && WellKeyed(d)
    ensures WellKeyed(Merge(d, ids, fetch, noon))
    decreases |ids|
  {
    if ids != [] {
      MergeWellKeyed(d, ids[..|ids| - 1], fetch, noon);
    }
  }

  /**
   * If id 404 is never requested and the remote answers each request with
   * the comic asked for, key `xkcd-404` is never stored.
   */
  lemma NeverStoresSkipped(d: Dataset, ids: seq<int>, fetch: int -> Option<Record>, noon: (int, int, int) -> int)
    requires d.Valid() && Faithful(ids, fetch)
    requires SkippedId !in ids && Key(SkippedId) !in d.entries
    ensures Key(SkippedId) !in Merge(d, ids, fetch, noon).entries
  {
    forall i | i in ids && fetch(i).Some?
      ensures Key(fetch(i).value.num) != Key(SkippedId)
    {
      KeyInjective(i, SkippedId);
    }
    FetchedKeysMeaning(ids, fetch, Key(SkippedId));
    MergeKeys(d, ids, fetch, noon);
  }

  /**
   * The ids the loop requests while its cursor walks from `top` down to just
   * above `bound`, in request order: every id in between except 404.
   */
  function Walk(bound: int, top: int): (w: seq<int>)
    ensures forall i :: i in w ==> bound < i <= top && i != SkippedId
    ensures |w| <= if bound < top then top - bound else 0
    decreases top - bound
  {
    if top <= bound then []
    else Walk(bound + 1, top) + (if bound + 1 == SkippedId then [] else [bound + 1])
  }

  /** Moving the cursor from `c` to `c - 1` adds `c` to the walk, unless `c` is 404. */
  lemma WalkStep(c: int, top: int)
    requires c <= top
    ensures Walk(c - 1, top) == Walk(c, top) + (if c == SkippedId then [] else [c])
  {
  }

  /** The walk requests exactly the ids in (bound, top] other than 404, highest first. */
  lemma {:induction false} WalkMeaning(bound: int, top: int)
    ensures forall i :: i in Walk(bound, top) <==> bound < i <= top && i != SkippedId
    ensures forall a, b :: 0 <= a < b < |Walk(bound, top)| ==> Walk(bound, top)[a] > Walk(bound, top)[b]
    decreases top - bound
  {
    if bound < top {
      WalkMeaning(bound + 1, top);
      var w, w' := Walk(bound, top), Walk(bound + 1, top);
      forall a, b | 0 <= a < b < |w|
        ensures w[a] > w[b]
      {
        if b >= |w'| {
          assert w[a] == w'[a] && w'[a] in w';
        }
      }
    }
  }

  /**
   * The update loop: walk the cursor from `top` down to just above `bound`,
   * skip 404, fetch every other id and store each answer. `requested` lists
   * the ids fetched, in order; one sleep follows each.
   */
  method Update(stored: Dataset, bound: int, top: int, fetch: int -> Option<Record>, noon: (int, int, int) -> int)
    returns (requested: seq<int>, xkcd: Dataset)
    requires stored.Valid()
    ensures requested == Walk(bound, top)
    ensures xkcd == Merge(stored, requested, fetch, noon)
    ensures forall a, b :: 0 <= a < b < |requested| ==> requested[a] > requested[b]
    ensures forall i :: i in requested <==> bound < i <= top && i != SkippedId
  {
    requested := [];
    xkcd := stored;
    var current := top;
    while current > bound
      invariant current == top || bound <= current < top
      invariant requested == Walk(current, top)
      invariant xkcd == Merge(stored, requested, fetch, noon)
      decreases current - bound
    {
      WalkStep(current, top);
      if current == SkippedId {
        current := current - 1;
        continue;
      }
      var response := fetch(current);
      MergeSnoc(stored, requested, current, fetch, noon);
      requested := requested + [current];
      if response.Some? {
        var data := response.value;
        xkcd := Put(xkcd, Key(data.num), ToEntry(data, noon));
      }
      current := current - 1;
    }
    WalkMeaning(bound, top);
  }

  /**
   * One run of tools/build.php. The run aborts when the latest comic cannot
   * be fetched; otherwise it requests exactly the ids above the stored bound
   * up to the latest, highest first, never 404, and writes back the merged,
   * naturally sorted dataset.
   */
  method Run(stored: Dataset, latest: Option<int>, fetch: int -> Option<Record>, noon: (int, int, int) -> int)
    returns (requested: seq<int>, outcome: Outcome)
    requires stored.Valid()
    ensures latest.None? ==> requested == [] && outcome == Aborted
    ensures latest.Some? ==> requested == Walk(LastId(stored), latest.value)
    ensures latest.Some? ==> outcome == Written(SortNatural(Merge(stored, requested, fetch, noon)))
    ensures forall a, b :: 0 <= a < b < |requested| ==> requested[a] > requested[b]
    ensures forall i :: i in requested <==> latest.Some? && LastId(stored) < i <= latest.value && i != SkippedId
  {
    var num := LastId(stored);
    if latest.None? {
      return [], Aborted;
    }
    var current := latest.value;
    var xkcd;
    requested, xkcd := Update(stored, num, current, fetch, noon);
    xkcd := SortNatural(xkcd);
    outcome := Written(xkcd);
  }
}
