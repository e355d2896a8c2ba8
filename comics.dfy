/**
 * The stored comic dataset: a PHP array from string keys `xkcd-<id>` to entries.
 * A PHP array is an ordered map, so a Dataset keeps its keys in order beside
 * the value stored under each.
 */
module Comics {
  import opened Decimal
  import opened NaturalOrder

  datatype Option<T> = None | Some(value: T)

  /** One stored comic. `date` is the noon timestamp of its publication day. */
  datatype Entry = Entry(id: int, date: int, title: string, image: string, alt: string, transcript: string)

  datatype Dataset = Dataset(keys: seq<string>, entries: map<string, Entry>) {
    /** No key twice, and exactly the keys that have a value. */
    ghost predicate Valid() {
      && NoDuplicates(keys)
      && (set k | k in keys) == entries.Keys
    }
  }

  predicate NoDuplicates(ks: seq<string>) {
    forall k :: k in ks ==> multiset(ks)[k] == 1
  }

  /**
   * The key a comic is stored under: `xkcd-` followed by its number in
   * decimal, which reads back as the number.
   */
  function Key(num: int): (k: string)
    ensures |k| > 5 && k[..5] == "xkcd-"
    ensures num >= 0 ==> AllDigits(k[5..]) && Value(k[5..]) == num
    ensures num < 0 ==> k[5] == '-' && AllDigits(k[6..]) && Value(k[6..]) == -num
  {
    "xkcd-" + IntToString(num)
  }

  /** Every entry sits under the key derived from its own id. */
  ghost predicate WellKeyed(d: Dataset) {
    forall k :: k in d.entries ==> k == Key(d.entries[k].id)
  }

  /**
   * Keyed assignment into a PHP array: the value under `k` becomes `e`; a key
   * already present keeps its place, a new key goes to the end.
   */
  function Put(d: Dataset, k: string, e: Entry): (r: Dataset)
    requires d.Valid()
    ensures r.Valid()
    ensures r.entries.Keys == d.entries.Keys + {k} && r.entries[k] == e
    ensures forall j :: j in d.entries && j != k ==> r.entries[j] == d.entries[j]
    ensures d.keys <= r.keys
    ensures k in d.entries ==> |r.keys| == |d.keys|
  {
    if k in d.entries then Dataset(d.keys, d.entries[k := e])
    else
      assert multiset(d.keys)[k] == 0;
      Dataset(d.keys + [k], d.entries[k := e])
  }

  /** The starting bound of a run: the id under the last key, or 0 when there is none. */
  function LastId(d: Dataset): (n: int)
    requires d.Valid()
    ensures d.keys == [] ==> n == 0
    ensures d.keys != [] ==> exists k :: k in d.entries && d.entries[k].id == n
  {
    if d.keys == [] then 0 else d.entries[d.keys[|d.keys| - 1]].id
  }

  /** Sorting the array by key in natural order: the same keys and values, keys reordered. */
  function SortNatural(d: Dataset): (r: Dataset)
    requires d.Valid()
    ensures r.Valid() && r.entries == d.entries
    ensures multiset(r.keys) == multiset(d.keys)
    ensures Sorted(r.keys)
  {
    SortKeysSorted(d.keys);
    Dataset(SortKeys(d.keys), d.entries)
  }

  /** Sorting an already sorted dataset changes nothing. */
  lemma SortNaturalIdempotent(d: Dataset)
    requires d.Valid() && Sorted(d.keys)
    ensures SortNatural(d) == d
  {
    SortKeysOfSorted(d.keys);
  }

  /** Different ids give different keys. */
  lemma KeyInjective(a: int, b: int)
    ensures Key(a) == Key(b) ==> a == b
  {
    if Key(a) == Key(b) {
      assert Key(a)[5..] == IntToString(a);
      assert Key(b)[5..] == IntToString(b);
      IntToStringInjective(a, b);
    }
  }

  /** For non-negative ids, natural order on keys is numeric order on ids. */
  lemma KeyOrder(a: nat, b: nat)
    ensures Less(Key(a), Key(b)) <==> a < b
  {
    var sa, sb := NatToString(a), NatToString(b);
    assert Key(a) == "xkcd-" + sa && Key(b) == "xkcd-" + sb;
    assert NoDigits("xkcd-");
    LessAfterCommonWord("xkcd-", sa, sb);
    ChunksOfNumeral(sa);
    ChunksOfNumeral(sb);
    ValueOfNatToString(a);
    ValueOfNatToString(b);
    var x, y := Chunks(sa), Chunks(sb);
    assert x == [Number(a, sa[0])] && y == [Number(b, sb[0])];
    assert x[1..] == [] && y[1..] == [];
    assert Less(sa, sb) == LexLess(x, y);
    assert LexLess(x, y) == (a < b);
    assert Less(Key(a), Key(b)) == Less(sa, sb);
  }

  /** Neighbouring keys of a sorted, well-keyed dataset carry ids in ascending order. */
  lemma NeighbourIds(d: Dataset, i: nat)
    requires d.Valid() && WellKeyed(d) && Sorted(d.keys)
    requires forall k :: k in d.entries ==> d.entries[k].id >= 0
    requires i < |d.keys| - 1
    ensures d.entries[d.keys[i]].id <= d.entries[d.keys[i + 1]].id
  {
    var k, k' := d.keys[i], d.keys[i + 1];
    assert k in d.entries && k' in d.entries;
    var a, b := d.entries[k].id, d.entries[k'].id;
    assert k == Key(a) && k' == Key(b);
    assert Leq(k, k');
    KeyOrder(b, a);
  }

  /** The ids of a dataset's entries, in key order. */
  function Ids(d: Dataset): (ids: seq<int>)
    requires d.Valid()
    ensures |ids| == |d.keys|
    ensures forall j :: 0 <= j < |ids| ==> d.keys[j] in d.entries && ids[j] == d.entries[d.keys[j]].id
  {
    seq(|d.keys|, j requires 0 <= j < |d.keys| => d.entries[d.keys[j]].id)
  }

  /** Every key with a value has a position in the key list. */
  lemma KeyIndex(d: Dataset, k: string) returns (i: nat)
    requires d.Valid() && k in d.entries
    ensures i < |d.keys| && d.keys[i] == k
  {
    assert k in (set k | k in d.keys);
    i :| i < |d.keys| && d.keys[i] == k;
  }

  /** Along a sorted, well-keyed dataset with non-negative ids, ids never go down. */
  lemma IdsNonDecreasing(d: Dataset)
    requires d.Valid() && WellKeyed(d) && Sorted(d.keys)
    requires forall k :: k in d.entries ==> d.entries[k].id >= 0
    ensures var ids := Ids(d); forall j :: 0 <= j < |ids| - 1 ==> ids[j] <= ids[j + 1]
  {
    var ids := Ids(d);
    forall j | 0 <= j < |ids| - 1
      ensures ids[j] <= ids[j + 1]
    {
      NeighbourIds(d, j);
    }
  }

  /** In a sequence that never goes down, the last element is the largest. */
  lemma {:induction false} ChainMax(ids: seq<int>, i: nat)
    requires forall j :: 0 <= j < |ids| - 1 ==> ids[j] <= ids[j + 1]
    requires i < |ids|
    ensures ids[i] <= ids[|ids| - 1]
    decreases |ids| - i
  {
    if i < |ids| - 1 {
      ChainMax(ids, i + 1);
    }
  }

  /** When ids ascend along the keys, the id under the last key bounds them all. */
  lemma LastIdBounds(d: Dataset)
    requires d.Valid()
    requires var ids := Ids(d); forall j :: 0 <= j < |ids| - 1 ==> ids[j] <= ids[j + 1]
    ensures forall k :: k in d.entries ==> d.entries[k].id <= LastId(d)
    ensures d.keys != [] ==> exists k :: k in d.entries && d.entries[k].id == LastId(d)
  {
    var ids := Ids(d);
    forall k | k in d.entries
      ensures d.entries[k].id <= LastId(d)
    {
      var i := KeyIndex(d, k);
      ChainMax(ids, i);
    }
    if d.keys != [] {
      assert d.keys[|d.keys| - 1] in d.entries;
    }
  }

  /**
   * The starting bound taken from the last key is the highest id in the
   * dataset, as long as the dataset is in natural key order, every entry is
   * under its own key and ids are not negative.
   */
  lemma LastIdIsMax(d: Dataset)
    requires d.Valid() && WellKeyed(d) && Sorted(d.keys)
    requires forall k :: k in d.entries ==> d.entries[k].id >= 0
    ensures forall k :: k in d.entries ==> d.entries[k].id <= LastId(d)
    ensures d.keys != [] ==> exists k :: k in d.entries && d.entries[k].id == LastId(d)
  {
    IdsNonDecreasing(d);
    LastIdBounds(d);
  }
}
