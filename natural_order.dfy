/**
 * Natural ("numeric-aware") order on keys, the order PHP's natural key sort
 * puts a PHP array's keys in: a run of digits is compared with another run of
 * digits by the number it denotes, every other character by its code, so that
 * "xkcd-9" comes before "xkcd-10".
 */
module NaturalOrder {
  import opened Decimal

  /** A string read as a sequence of maximal digit runs and single other characters. */
  datatype Chunk = Number(value: nat, lead: char) | Other(lead: char)

  /** Length of the run of digits at the start of `s`. */
  function DigitRunLength(s: string): (n: nat)
    ensures n <= |s|
    ensures forall i :: 0 <= i < n ==> IsDigit(s[i])
    ensures n < |s| ==> !IsDigit(s[n])
  {
    if s == [] || !IsDigit(s[0]) then 0 else 1 + DigitRunLength(s[1..])
  }

  /** Every chunk consumes at least one character, and only the empty string has none. */
  function Chunks(s: string): (c: seq<Chunk>)
    ensures |c| <= |s| && (c == [] <==> s == [])
    decreases |s|
  {
    if s == [] then []
    else if IsDigit(s[0]) then
      var n := DigitRunLength(s);
      assert n > 0;
      assert AllDigits(s[..n]);
      [Number(Value(s[..n]), s[0])] + Chunks(s[n..])
    else
      [Other(s[0])] + Chunks(s[1..])
  }

  /** Two digit runs compare by value; otherwise the first characters decide. */
  predicate ChunkLess(a: Chunk, b: Chunk) {
    if a.Number? && b.Number? then a.value < b.value else a.lead < b.lead
  }

  /** Lexicographic extension of ChunkLess; a proper prefix comes first. */
  predicate LexLess(x: seq<Chunk>, y: seq<Chunk>) {
    if y == [] then false
    else if x == [] then true
    else ChunkLess(x[0], y[0]) || (!ChunkLess(y[0], x[0]) && LexLess(x[1..], y[1..]))
  }

  /** `s` sorts strictly before `t` in natural order; never both ways round. */
  predicate Less(s: string, t: string): (r: bool)
    ensures r ==> !LexLess(Chunks(t), Chunks(s))
  {
    LexAsymmetric(Chunks(s), Chunks(t));
    LexLess(Chunks(s), Chunks(t))
  }

  /** `s` may sort before `t`: `t` is not strictly before `s`. */
  predicate Leq(s: string, t: string) {
    !Less(t, s)
  }

  predicate Sorted(ks: seq<string>) {
    forall i :: 0 <= i < |ks| - 1 ==> Leq(ks[i], ks[i + 1])
  }

  predicate NoDigits(s: string) {
    forall i :: 0 <= i < |s| ==> !IsDigit(s[i])
  }

  lemma {:induction false} LexAsymmetric(x: seq<Chunk>, y: seq<Chunk>)
    ensures !(LexLess(x, y) && LexLess(y, x))
  {
    if x != [] && y != [] {
      LexAsymmetric(x[1..], y[1..]);
    }
  }

  /** A digit-only string is a single number chunk. */
  lemma ChunksOfNumeral(d: string)
    requires d != [] && AllDigits(d)
    ensures Chunks(d) == [Number(Value(d), d[0])]
  {
    assert DigitRunLength(d) == |d|;
    assert d[..|d|] == d;
  }

  /** A common prefix without digits does not change how two strings compare. */
  lemma {:induction false} LessAfterCommonWord(p: string, s: string, t: string)
    requires NoDigits(p)
    ensures Less(p + s, p + t) == Less(s, t)
  {
    if p == [] {
      assert p + s == s && p + t == t;
    } else {
      assert (p + s)[1..] == p[1..] + s;
      assert (p + t)[1..] == p[1..] + t;
      assert Chunks(p + s) == [Other(p[0])] + Chunks(p[1..] + s);
      assert Chunks(p + t) == [Other(p[0])] + Chunks(p[1..] + t);
      LessAfterCommonWord(p[1..], s, t);
    }
  }

  /** Stable insertion of one key before the first key it may precede. */
  function Insert(k: string, ks: seq<string>): (r: seq<string>)
    ensures multiset(r) == multiset(ks) + multiset{k}
    ensures |r| == |ks| + 1 && (r[0] == k || (ks != [] && r[0] == ks[0]))
  {
    if ks == [] || Leq(k, ks[0]) then [k] + ks
    else
      assert ks == [ks[0]] + ks[1..];
      [ks[0]] + Insert(k, ks[1..])
  }

  /** The keys of `ks` reordered into natural order (PHP's sort is stable). */
  function SortKeys(ks: seq<string>): (r: seq<string>)
    ensures multiset(r) == multiset(ks)
  {
    if ks == [] then []
    else
      assert ks == [ks[0]] + ks[1..];
      Insert(ks[0], SortKeys(ks[1..]))
  }

  lemma {:induction false} InsertSorted(k: string, ks: seq<string>)
    requires Sorted(ks)
    ensures Sorted(Insert(k, ks))
  {
    if ks != [] && !Leq(k, ks[0]) {
      var r := Insert(k, ks[1..]);
      InsertSorted(k, ks[1..]);
      assert Leq(ks[0], r[0]);
      assert Insert(k, ks) == [ks[0]] + r;
    }
  }

  lemma {:induction false} SortKeysSorted(ks: seq<string>)
    ensures Sorted(SortKeys(ks))
  {
    if ks != [] {
      SortKeysSorted(ks[1..]);
      InsertSorted(ks[0], SortKeys(ks[1..]));
    }
  }

  /** Sorting keys that are already in natural order leaves them as they are. */
  lemma {:induction false} SortKeysOfSorted(ks: seq<string>)
    requires Sorted(ks)
    ensures SortKeys(ks) == ks
  {
    if ks != [] {
      SortKeysOfSorted(ks[1..]);
      assert [ks[0]] + ks[1..] == ks;
    }
  }
}
