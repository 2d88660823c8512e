# Greedy byte-pair encoding over chaos.h, in Dafny

This project models `bpe.c` and the `chaos.h` helpers it uses. `bpe.c` is a small byte-pair-encoding
trainer. It turns every input byte into a token id (0..255). Then it repeats rounds:

- count every adjacent pair of ids in a chained hash table, keyed by the text `"%03d%03d"`;
- take the first pair with the largest count;
- stop when there is none or it was seen at most once;
- otherwise read the two ids back from the key;
- replace the pair left to right with a fresh id, 256, 257, …;
- record the merge.

At the end `decode_token` expands every id back into bytes by walking the merge records.

Where the model lives:

- `bpe.dfy` (module `Bpe`): the rounds, the selection, the replacement and the decoder, as methods with
  loops. They are proved against the specification functions of `merges.dfy` and `pairkey.dfy`.
- `merges.dfy`: the merge records, the expansion they define, and the greedy replacement as functions, with
  lemmas for three properties:
  - the replacement removes every occurrence of the pair;
  - it shortens the sequence once per replacement;
  - it can be undone.
  A merge record also leaves the decoded text unchanged.
- `pairkey.dfy`: the `"%03d%03d"` key and its read-back with `atoi`. It proves the round trip for ids below
  1000 and exhibits what happens from 1000 on.
- The `chaos.h` helpers:
  - `dynarray.dfy`: the `da_reserve`/`da_append` growth macros, as a class over an array;
  - `table.dfy`: `chaos_table_append`/`chaos_table_index`, as a class over 16 bucket sequences, with a ghost
    history of appended values against which every count is proved;
  - `hash.dfy`: `djb33_hash`, over `bv32` with the signed-`char` promotion written out;
  - `strview.dfy`: the string-view trims and `chaos_split_by_delim`;
  - `numeric.dfy`: `chaos_is_int`/`chaos_is_float`;
  - `arena.dfy`: the bump arena.

The main results are these:

- `Bpe.Train` ends with merge records numbered 256, 257, … whose halves are older ids.
- Every token then left is below the next id.
- Decoding the tokens gives back the input exactly.
- Each round shortens the token sequence, so training terminates.
- Every round is greedy. Its key is counted at least twice, and at least as often as the key of any adjacent
  pair. The record holds the pair read back from that key. `Train` returns this trace round by round.
- When the loop stops normally, no two adjacent pairs share a key, and so no adjacent pair occurs twice.
- Once an id reaches 1000, the six-byte key no longer reads back as the pair it was printed from.
  - Then bpe.c can pick a pair that does not occur at all. From there it never leaves the loop and never
    reports. Each further round still appends a merge record and moves to the next id, but the token
    sequence stays the same.
  - The model stops at the first such round and reports it (`spins`). It proves that it spins exactly when
    the pair read back from the most frequent key does not occur, that this can only happen with an id of
    1000 or more in the sequence, and that the tokens are then left unchanged.

## Model

| member | source | states |
|---|---|---|
| Hash.SignExtend | chaos.h:666 | the byte promoted through a signed `char`: low 8 bits are the byte, the upper 24 are copies of its top bit |
| Hash.ShiftAddIsTimes33 | chaos.h:665 | `h += h << 5` is multiplication by 33 modulo 2^32 |
| Hash.Round | chaos.h:665-666 | the C loop body (shift-add, then XOR) is one step of the hash |
| Hash.Djb33Hash | chaos.h:662-669 | the loop from 5381 over the first `len` bytes returns the left fold of the hash step over exactly those bytes |
| Hash.HashReadsOnlyPrefix | chaos.h:662-669 | strings agreeing on their first `len` bytes hash alike |
| Hash.AsciiStep | chaos.h:666 | for bytes below 0x80 a step XORs the plain byte value |
| Hash.HighByteStep | chaos.h:666 | for bytes at or above 0x80 a step differs from XORing the unsigned byte value |
| StringView.LeadingSpaces | chaos.h:407-409 | the count of leading `' '` chars: all of them spaces, and the next char (if any) is not |
| StringView.TrailingSpaces | chaos.h:425-427 | the count of trailing `' '` chars: all spaces, and the char before them (if any) is not |
| StringView.TrimLeftView | chaos.h:399-415 | same buffer and end; the start moves past spaces only; the result is empty or starts with a non-space |
| StringView.TrimRightView | chaos.h:417-432 | same start; only spaces are cut off the end; the result is empty or ends with a non-space |
| StringView.TrimLeft | chaos.h:399-415 | the scanning loop returns exactly the view with the leading spaces dropped |
| StringView.TrimRight | chaos.h:417-432 | the backward scan returns exactly the view with the trailing spaces dropped |
| StringView.Trim | chaos.h:434-437 | `chaos_trim` is trim-right of trim-left |
| StringView.TrimLeftUnchanged | chaos.h:399-415 | a view not starting with a space is its own left trim |
| StringView.TrimRightUnchanged | chaos.h:417-432 | a view not ending with a space is its own right trim |
| StringView.TrimIdempotent | chaos.h:434-437 | trimming a trimmed view changes nothing |
| StringView.SplitByDelim | chaos.h:381-397 | the result is the longest delimiter-free prefix; if the delimiter occurs, result ++ delimiter ++ new view is the old view; otherwise result is the whole view and the new view is empty at its end |
| Numeric.IsInt | chaos.h:607-619 | for a NUL-free text (a C string's chars), true exactly for a non-empty text whose chars after an optional sign are all digits |
| Numeric.IsFloat | chaos.h:584-605 | for a NUL-free text (a C string's chars), true exactly for a non-empty text not starting or ending with `.`, with only digits and `.` after an optional sign, and exactly one `.` |
| Numeric.LoneSign | chaos.h:607-619 | `"+"` and `"-"` are accepted as integers and refused as floats |
| Numeric.IntIsNotFloat | chaos.h:584-619 | no text is accepted by both validators |
| DynArray.DoublingsLeast | chaos.h:51-53 | the doubling loop stops at the least `c * 2^k` that reaches the request |
| DynArray.ReserveGrowsToLeastDoubling | chaos.h:45-57 | the reserved capacity is unchanged when the request fits; otherwise it is the least `c * 2^k` at or above it, `c` being the old capacity or 256 when that was 0 |
| DynArray.GrowCapacity | chaos.h:47-53 | the doubling loop (starting from 256 for a zero capacity) returns that capacity, which holds the request |
| DynArray.Da.constructor | bpe.c:134 | the `{0}` initialiser: no items, capacity 0 |
| DynArray.Da.Reserve | chaos.h:45-57 | capacity becomes the reserved capacity; count and items in use are kept; nothing moves when the request fits |
| DynArray.Da.Append | chaos.h:59-63 | items in use become the old ones plus the new item; capacity grows by the reserve rule for count + 1 |
| Arena.Alloc | chaos.h:621-628 | returns the old count as the offset; count grows by the size and stays within capacity; earlier bytes are kept |
| Arena.Reset | chaos.h:637-639 | count becomes 0; buffer and capacity stay |
| PairKey.Fmt03 | bpe.c:78 | `"%03d"`: all digits, exactly three of them exactly when the id is below 1000 |
| PairKey.KeyShape | bpe.c:77-78 | `"%03d%03d"`: all digits, at least six, exactly six exactly when both ids are below 1000 |
| PairKey.Parse | bpe.c:97-103 | the two `atoi` reads of bytes 0..2 and 3..5 are both below 1000 |
| PairKey.ThreeDigits | bpe.c:102-103 | `atoi` of three digits is their positional value, below 1000 |
| PairKey.DigitsValue | bpe.c:102-103 | `atoi` of three printed digits is the number they spell |
| PairKey.Fmt03RoundTrip | bpe.c:78 | `atoi` of `"%03d"` of an id below 1000 is the id |
| PairKey.KeyRoundTrip | bpe.c:97-103 | for ids below 1000, reading the key back gives the pair it was printed from |
| PairKey.KeyInjective | bpe.c:77-79 | below 1000 distinct pairs get distinct keys |
| PairKey.WideIdBreaksRoundTrip | bpe.c:97-103 | with an id of 1000 or more the read-back never gives the pair |
| PairKey.WideIdMisread | bpe.c:97-103 | (1000, 5) is read back as (100, 0) |
| PairKey.WideIdCollision | bpe.c:77-78 | (1001, 123) and (100, 1123) get the same key |
| Merges.FindLast | bpe.c:46-52 | the last record producing the id, or none when no record does |
| Merges.RecordedId | bpe.c:117-125 | with records numbered 256, 257, …, every id below the next one is a byte or has its record, found at index id − 256 |
| Merges.ExpandSeqAppend | bpe.c:134-137 | decoding a concatenation decodes each part in turn |
| Merges.ExpandExtend | bpe.c:117-121 | appending a record keeps the decoding of every older id |
| Merges.ExpandNewRecord | bpe.c:117-121 | the new id decodes to its left half's bytes then its right half's |
| Merges.ExpandNonEmpty | bpe.c:40-53 | every id in the trainer's range decodes to at least one byte, a merged id to at least two |
| Merges.ReplaceLength | bpe.c:105-115 | the scan shortens the sequence by one per replacement; there is a replacement exactly when the pair occurs; without one the sequence is unchanged |
| Merges.ReplaceRemovesPair | bpe.c:105-115 | with a fresh id no adjacent (a, b) is left |
| Merges.ReplaceUnmerge | bpe.c:105-115 | with a fresh id, expanding it back to (a, b) restores the input: other tokens keep values and order |
| Merges.ReplacePreservesExpansion | bpe.c:105-125 | replacing with the next id and recording the merge leaves the decoded bytes unchanged |
| Merges.ReplaceBound | bpe.c:105-115 | the replacement keeps every id below a bound that the new id is also below |
| ChaosTable.FindEntry | chaos.h:688-695 | the first entry with this hash and value, or none when no entry has them |
| ChaosTable.BumpFacts | chaos.h:697-705 | after an append the value is present, and everything present stays present |
| ChaosTable.BumpSum | chaos.h:697-705 | an append raises the bucket's total count by one |
| ChaosTable.ConsistentStep | chaos.h:677-706 | an append keeps the table invariant: entries in bucket `key % 16`, unique, each counting its appends and at least 1, all appended values present, counts summing to the appends |
| ChaosTable.EmptyBuckets | chaos.h:678-681 | the 16 calloc'd buckets are empty and satisfy the invariant for no appends |
| ChaosTable.ReplayedConsistent | chaos.h:677-706 | the buckets obtained by appending a history in order, starting from a fresh table, satisfy the invariant for that history |
| ChaosTable.BumpBucket | chaos.h:686-705 | the lookup loop counts the first matching entry once more, or pushes the value with count 1 |
| ChaosTable.Table.constructor | bpe.c:74 | `Table tb = {0}`: no buckets, no appends |
| ChaosTable.Table.Allocate | chaos.h:678-681 | the first append allocates the 16 buckets; later ones keep them |
| ChaosTable.Table.Insert | chaos.h:683-705 | the bucket `key % count` is bumped, every other bucket is unchanged, and the invariant holds for one more append |
| ChaosTable.Table.Append | chaos.h:677-706 | appends (djb33 of the first `len` bytes, value) to the history and bumps that bucket |
| ChaosTable.TableIndex | chaos.h:708-710 | the index is below the bucket count |
| ChaosTable.TableIndexLocates | chaos.h:708-710 | every appended value is found in the bucket the index names |
| ChaosTable.CountIsAppends | chaos.h:677-706 | a value's count is the number of times it was appended, and it is absent exactly when never appended |
| Bpe.ByteTokens | bpe.c:65-68 | one token per input byte, equal to the byte as unsigned |
| Bpe.ByteTokensDecode | bpe.c:65-68 | byte tokens decode to the input |
| Bpe.ByteTokensBelow | bpe.c:65-68 | byte tokens are ids below 256 |
| Bpe.CountPairs | bpe.c:74-80 | the fresh table's history lists the adjacent pairs of the tokens, left to right, and its buckets, entry order included, are those of appending that history in order to a fresh table |
| Bpe.CountPair | bpe.c:76-80 | one pair appended to the table's history, and its bucket bumped as an append does |
| Bpe.PairsCountedStep | bpe.c:76-80 | appending the pair at `i` to a listing of the first `i` pairs lists the first `i + 1` |
| Bpe.TakeEntry | bpe.c:86-88 | taking a strictly larger entry keeps it the first maximum seen so far |
| Bpe.KeepEntry | bpe.c:86-88 | keeping the held entry on a count that is not larger keeps the first maximum |
| Bpe.NextBucket | bpe.c:83-90 | finishing a bucket is reaching the start of the next |
| Bpe.ScanBucket | bpe.c:84-89 | after a bucket the held entry is the first largest seen so far |
| Bpe.SelectBest | bpe.c:82-90 | nothing is held exactly when the table is empty; otherwise the held entry has the largest count and every entry before it in bucket, then insertion, order has a smaller one |
| Bpe.BestBoundsAll | bpe.c:82-90 | the held entry's count is at least every count in the table |
| Bpe.RepeatCounts | bpe.c:92-95 | two adjacent pairs with the same key make that key's count at least 2, so some count is at least 2 |
| Bpe.NoRepeatWhenCountsLow | bpe.c:92-95 | with every count at most 1, no two adjacent pairs share a key |
| Bpe.CountedTwiceRepeats | bpe.c:92-95 | a count of 2 or more means two adjacent pairs share a key |
| Bpe.EmptyTableNoPairs | bpe.c:92-95 | an empty table means fewer than two tokens |
| Bpe.HistoryKeyCount | bpe.c:74-80 | a (hash, key) is appended at most as often as adjacent pairs print to the key, and exactly as often when the hash is the one taken over the key's first six bytes |
| Bpe.MaxKey | bpe.c:82-95 | an entry counted at least as often as every other holds a key occurring at least that often and at least as often as the key of any adjacent pair |
| Bpe.SelectedKey | bpe.c:82-95 | no held entry, or one counted at most once, exactly when no two adjacent pairs share a key; an entry counted twice holds the key of an adjacent pair, occurring at least twice and at least as often as any other pair's key |
| Bpe.RepeatedKey | bpe.c:74-95 | counting and selecting yields no key exactly when no two adjacent pairs share one; a key it yields is the key of an adjacent pair, occurring at least twice and at least as often as the key of any adjacent pair |
| Bpe.EntryIsAPair | bpe.c:97-103 | a counted key is the key of some adjacent pair of the tokens |
| Bpe.ParsedPair | bpe.c:97-103 | the ids read back from a pair's key are below 1000, and are the pair's when its ids are |
| Bpe.ParsedPairReplaced | bpe.c:97-115 | the read-back ids are below the next id; the replacement cannot lengthen the sequence and shortens it unless the pair has an id of 1000 or more |
| Bpe.NoRepeatedPair | bpe.c:92-95 | with no shared key, no adjacent pair occurs twice |
| Bpe.ReplaceAt | bpe.c:107-114 | one step of the scan: the pair becomes the new id and is skipped, or one token is copied |
| Bpe.ReplacePair | bpe.c:105-115 | the scanning loop builds exactly the greedy left-to-right replacement |
| Bpe.FindRecord | bpe.c:46-52 | the backward search finds the last record producing the id |
| Bpe.DecodeToken | bpe.c:40-53 | appends the id's decoding and keeps what the buffer held: the byte for an id below 256, the halves in order for a recorded id, nothing for an unrecorded one |
| Bpe.DecodeHalves | bpe.c:47-50 | appends the left half's bytes, then the right half's |
| Bpe.DecodeAll | bpe.c:134-138 | the buffer ends as the decoding of every token in order, then the NUL |
| Bpe.TrainRound | bpe.c:74-115 | stops without spinning exactly when no two adjacent pairs share a key; otherwise the key it returns occurs at least twice and at least as often as any adjacent pair's key, and (a, b) is that key read back; it spins exactly when (a, b) does not occur in the tokens; when merging, both halves are older ids and the replacement is strictly shorter; spinning only happens with an id of 1000 or more, and leaves the tokens unchanged |
| Bpe.GreedyStep | bpe.c:74-125 | a merging round on the most frequent key extends the trace of rounds by its tokens, key and record |
| Bpe.MergeStep | bpe.c:105-125 | a merging round keeps the loop's invariant: records numbered from 256 over older ids, tokens below the next id, decoding equal to the input, tokens + records ≤ input length |
| Bpe.Train | bpe.c:65-128 | records are numbered 256, 257, … from older ids; next id = 256 + record count; tokens are below it; they decode to the input; tokens + records ≤ input length; the trace runs from the byte tokens to the final tokens, each round merging the pair read back from its most frequent key; at a normal stop no two adjacent pairs share a key and no adjacent pair occurs twice; a spinning stop holds a most frequent key, counted at least twice, whose read-back pair does not occur in the tokens |
| Bpe.Run | bpe.c:130-140 | the final count and the merge count are those of the trained tokens and records, whose trace runs greedily from the byte tokens; the records are numbered 256, 257, … from older ids, the tokens are below the vocabulary size and decode to the input; the vocabulary size is 256 + merge count; final count + merges ≤ input length; at a normal stop no two adjacent pairs share a key and the decoded text is the input plus NUL; a spinning stop holds a most frequent key whose read-back pair does not occur |

## Left out

- File and console I/O are not modelled: `read_file`, the three `printf` reports, and printing the decoded text. The input is a given byte sequence, and `Bpe.Run` returns the reported numbers and the decoded bytes.
- `temp_sprintf`'s ring buffers, `strdup`, `free`, `realloc` failure and `free_table` are not modelled: they are memory management. `free_table` changes nothing the model observes; each round starts from a fresh table object.
- Integer widths are not modelled: `size_t` counts, `int` token ids and capacity doubling use unbounded integers, and their overflow is out of scope. `uint32_t` hashing is `bv32` and wraps as in C.
- `strcmp` of two NUL-free keys is modelled as equality of their byte sequences.
- A bucket's own `da_append` is modelled as sequence append; the growth rule is modelled once, by `DynArray.Da`. The trainer's `Tokens`, `next` and `Merges` arrays are sequence values for the same reason.
- A `Da` with zero capacity stands for the C struct whose `items` is NULL. `chaos_arena_alloc`'s returned pointer is the offset into `items`.
- `StringView.SplitByDelim`: the C function writes the remaining view back through its pointer argument; here that view is the second result `rest`. A view is (buffer, start, count) instead of a pointer and a length.
- `Hash.SignExtend`: `char` is taken as signed. On a target with unsigned `char` no byte is sign-extended.
- `Bpe.Train`: where bpe.c never leaves its loop, the model stops with `spins = true`. That is the case where the pair read back from the key does not occur. bpe.c then keeps running rounds on unchanged tokens; each one appends a merge record and moves `next_token` on. The model does not add those records. Nothing is proved about the C program's output in that case, since it never produces any.
- `Bpe.DecodeToken`: for an id of 256 or more with no record, the code appends nothing and returns, and the model does the same. `Merges.RecordedId` shows that the trainer never produces such an id.
- `Bpe.SelectBest`: the tie-break is the one the code has, bucket order then insertion order. No tie-break by pair value is claimed.
