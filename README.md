# xkcd-json dataset update, modelled in Dafny

`tools/build.php` keeps a JSON file of xkcd comic metadata up to date. It loads
the stored mapping from keys `xkcd-<num>` to entries, takes the id under the
mapping's last key as the highest known comic, asks xkcd.com for the number of
the latest comic (and aborts with an exception if that answer is not 200),
then walks a cursor down from the latest number to just above the known one.
It never asks for comic 404. Every 200 answer is stored under
`xkcd-<num of the answer>`, and the loop then moves on to the next lower id.
At the end the mapping is sorted by key in natural order and written back.

The model has four modules:

- `Decimal` (decimal.dfy): the decimal text PHP's string formatting gives for
  an int, with the round trip `Value(NatToString(n)) == n` and injectivity.
- `NaturalOrder` (natural_order.dfy): natural key order. A key is read as a
  sequence of chunks: maximal digit runs, compared by value, and single other
  characters, compared by code. Keys are compared lexicographically by chunk.
  It also holds a stable insertion sort of keys, `SortKeys`.
- `Comics` (comics.dfy): the dataset as the PHP array it is. A PHP array is an
  ordered map, so `Dataset` holds the key order (`keys`) beside the values
  (`entries`). It defines keyed assignment (`Put`), the starting bound
  (`LastId`), the key derivation (`Key`) and `ksort` (`SortNatural`).
- `Build` (build.dfy): the run itself. `Update` is the script's `while` loop
  as a method: the cursor, the `continue` on 404, and the dataset updated by
  keyed assignment. `Run` is the whole script around it: the bound, the abort
  on a failed request for the latest comic, the loop and the final sort. Two
  functions specify the loop. `Walk(bound, top)` is the list of ids it
  requests, in order. `Merge` is the dataset after requesting a given list of
  ids in that order.

The remote and the clock are parameters. `latest` is the `num` of the latest
comic, or `None` for a non-200 answer. `fetch(id)` is the decoded answer for
comic `id`, or `None` for a non-200 answer. `noon(month, day, year)` stands for
the local timestamp of noon on that day (what `mktime` computes). `Run`
returns the ids it requested, in order. A `sleep(1)` follows each of these
requests, so the list also counts the sleeps.

Four points where the code behaves differently from what one might expect.
The model follows the code:

- The starting bound is the `id` under the last key (`array_key_last`), not
  the maximum id. `LastIdIsMax` proves that the two agree when the stored
  mapping is in natural key order, every entry sits under its own key, and ids
  are not negative. Every written dataset is sorted, so this holds from one
  run to the next as long as ids are not negative.
- Entries are not only added. A 200 answer overwrites the value under an
  existing key in place, keeping that key's position.
- A run that finds nothing new (latest ≤ bound) requests nothing and writes
  back the sorted stored mapping. On an already sorted mapping, that is the
  mapping itself (`SortNaturalIdempotent`).
- Ids at or below the bound are never requested. A gap left by a failed
  request below the bound is therefore never filled by a later run.

## Model

| member | source | states |
|---|---|---|
| `Build.Run` | tools/build.php:58-105 | With no 200 answer for the latest comic, the run aborts: it requests nothing and writes nothing. Otherwise it requests exactly the ids i with bound < i ≤ latest and i ≠ 404, strictly descending, where the bound is the id under the last stored key. It writes back the naturally sorted merge of those answers. When latest ≤ bound, it requests nothing and writes back the sorted stored mapping. |
| `Build.Update` | tools/build.php:74-102 | The loop requests `Walk(bound, top)`: exactly the ids i with bound < i ≤ top and i ≠ 404, strictly descending. The dataset it leaves is `Merge` of the stored one over those requests, in that order. |
| `Build.WalkMeaning` | tools/build.php:74-80 | The walk from top down to just above the bound holds exactly the ids in (bound, top] other than 404, each once, strictly descending. |
| `Build.Walk` | tools/build.php:74-80 | The ids the cursor requests on its way from the latest number down to just above the bound, in request order. Every one lies in (bound, top] and is not 404, and there are at most top - bound of them. |
| `Build.ToEntry` | tools/build.php:88-95 | The entry built from an answer: its id is the answer's `num`, its date is `noon` of the answer's month, day and year, and title, image, alt and transcript are copied from `safe_title`, `img`, `alt` and `transcript`. |
| `Build.Absorb` | tools/build.php:85-95 | A 200 answer to one request stores `ToEntry(answer)` under `Key(answer.num)`: the key comes from the answer's num, not the cursor. Old keys keep their place, and no other key changes value. A non-200 answer leaves the dataset exactly as it was. |
| `Build.Merge` | tools/build.php:74-102 | The dataset after a sequence of requests is still a valid ordered map (no duplicate key, key list and values agree). |
| `Build.MergeKeepsOrder` | tools/build.php:88 | Nothing is removed or moved: the old key list is a prefix of the new one. |
| `Build.MergeKeys` | tools/build.php:88 | The new key set is the old one plus the key of every answered request. |
| `Build.MergeUntouched` | tools/build.php:85-100 | A key that no answered request maps to is present afterwards exactly when it was before, with the same value. |
| `Build.MergeStoresAnswers` | tools/build.php:85-95 | When the remote answers each id with that comic, every answered id ends up under `xkcd-<id>` with the entry built from its answer. |
| `Build.MergeWellKeyed` | tools/build.php:88-89 | If every entry sat under `Key(entry.id)` before, it still does after the run. |
| `Build.FetchedKeysMeaning` | tools/build.php:88 | A key is added by a run exactly when some requested id was answered with a record whose num gives that key. |
| `Build.NeverStoresSkipped` | tools/build.php:77-80 | If 404 is never requested, `xkcd-404` was not stored, and the remote answers each id with that comic, then `xkcd-404` is still not stored afterwards. |
| `Comics.Put` | tools/build.php:88 | Keyed assignment. The value under the key becomes the new entry, and all other values are unchanged. Existing keys keep their order, an existing key keeps its position, and a new key is appended. The map stays valid. |
| `Comics.LastId` | tools/build.php:60 | The starting bound: the id under the last key of the mapping, 0 for an empty mapping. For a non-empty mapping it is the id of a stored entry. |
| `Comics.LastIdIsMax` | tools/build.php:60 | Suppose the mapping is sorted, well keyed and has non-negative ids. Then the id under the last key is at least every stored id, and it is one of them unless the mapping is empty (then it is 0). |
| `Comics.IdsNonDecreasing` | tools/build.php:105 | In a sorted, well-keyed mapping with non-negative ids, the ids never go down along the keys. |
| `Comics.LastIdBounds` | tools/build.php:60 | When ids never go down along the keys, the id under the last key is at least every stored id and is one of them (0 for an empty mapping). |
| `Comics.Key` | tools/build.php:88 | The key an answer is stored under: `xkcd-` followed by the decimal text of its num. The text after `xkcd-` reads back as the num, with a leading `-` for negatives. |
| `Comics.KeyInjective` | tools/build.php:88 | Different comic numbers give different keys `xkcd-<num>`. |
| `Comics.KeyOrder` | tools/build.php:105 | For non-negative numbers, `xkcd-a` sorts strictly before `xkcd-b` in natural order iff a < b (so `xkcd-9` precedes `xkcd-10`). |
| `Comics.SortNatural` | tools/build.php:105 | `ksort` keeps every key and every value (the key list is a permutation). The result is a valid map whose keys are in natural order. |
| `Comics.SortNaturalIdempotent` | tools/build.php:105 | Sorting a mapping whose keys are already in natural order returns it unchanged. |
| `NaturalOrder.SortKeys` | tools/build.php:105 | The sorted key list is a permutation of the input (same multiset). |
| `NaturalOrder.Insert` | tools/build.php:105 | Inserting a key adds exactly that key to the multiset. The result starts with the new key or with the old first key. |
| `NaturalOrder.InsertSorted` | tools/build.php:105 | Inserting into a naturally sorted list keeps it sorted. |
| `NaturalOrder.SortKeysSorted` | tools/build.php:105 | The output of the sort is in natural order. |
| `NaturalOrder.SortKeysOfSorted` | tools/build.php:105 | A key list already in natural order comes out of the sort unchanged (the sort is stable). |
| `NaturalOrder.Chunks` | tools/build.php:105 | A key read the way natural order reads it: maximal digit runs with their value, and single other characters. Every chunk takes at least one character, and only the empty key has no chunks. |
| `NaturalOrder.Less` | tools/build.php:105 | Natural order: keys compared chunk by chunk, digit runs by value and other characters by code, with a proper prefix first. It is asymmetric, so any two keys are comparable (`Leq(s, t)` or `Leq(t, s)`). |
| `NaturalOrder.LessAfterCommonWord` | tools/build.php:105 | A common prefix without digits, such as `xkcd-`, does not change how two keys compare. |
| `NaturalOrder.ChunksOfNumeral` | tools/build.php:105 | A string of digits reads as one number chunk carrying its value. |
| `Decimal.ValueOfNatToString` | tools/build.php:88 | The decimal text of n that `%s` prints reads back as n. |
| `Decimal.NatToStringInjective` | tools/build.php:88 | Two different non-negative numbers never print the same digits. |
| `Decimal.IntToString` | tools/build.php:88 | The text `%s` prints for an int: the digits of a non-negative number, which read back as it, or `-` followed by the digits of its magnitude. |
| `Decimal.IntToStringInjective` | tools/build.php:88 | Two different ints never print the same text, negative ones included. |

## Left out

- HTTP client construction, the CA bundle and `sendRequest` (tools/build.php:17-20, 49-51, 64-65, 82-83). These are network calls. The model gets their answers as the parameters `latest` and `fetch`.
- A `latest` answer whose body is not valid JSON or has no `num`: the model takes the decoded number. The same holds for per-comic answers: `fetch` returns a decoded `Record`.
- The logger and its log line (tools/build.php:21-24, 54-56, 97). These only produce output.
- Directory creation and the path constants (tools/build.php:28-46). These only set up the filesystem.
- Reading and writing the file with `json_decode` and `json_encode` (tools/build.php:59, 107). `Run` takes the decoded dataset and returns the dataset to be written. A missing or malformed stored file is not modelled.
- `mktime` and `intval` (tools/build.php:90). They depend on the local time zone and calendar, so the date comes from the parameter `noon` applied to the answer's month, day and year as integers.
- `sleep(1)` (tools/build.php:101). It has no logical effect; one sleep follows each id in `requested`.
- The fallback to 0 for a last entry without an `id` field: a stored `Entry` always has one.
- NaturalOrder.SortKeys: natural order is modelled as chunk comparison. PHP's `strnatcmp` also skips whitespace, skips leading zeros at the start of a string, and compares digit runs that start with `0` digit by digit. In keys `xkcd-<num>` with num ≥ 0 there is no whitespace and no leading zero at the start. The only digit run starting with `0` is `0` itself (in `xkcd-0`). Compared digit by digit, `0` sorts before every other numeral and equal to `0`, which is the order of its value. "Sorted" is stated for neighbouring keys.
- Comics.SortNatural: the same simplification of `strnatcmp` as SortKeys.
- Build.NeverStoresSkipped: `xkcd-404` is kept out only when the remote answers each id with that comic. The code derives the key from the answer, so a remote that answered another id with num 404 would store it.
