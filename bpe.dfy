/** The byte-pair-encoding trainer of bpe.c: byte tokens, repeated rounds of pair counting,
    selection of the most frequent pair, left-to-right replacement with a fresh id, and the
    recursive decoder that turns tokens back into bytes. */
module Bpe {
  import opened Common
  import opened Hash
  import opened PairKey
  import opened Merges
  import opened ChaosTable
  import opened DynArray

  /** What the trainer appends to its table for the adjacent pair (a, b): the "%03d%03d"
      key, hashed over its first six bytes (the length the trainer passes). */
  function PairEntry(a: nat, b: nat): (bv32, seq<Byte>)
  {
    var k := Key(a, b);
    (Djb33(k[..6]), k)
  }

  /** The entry for the pair at positions k and k + 1 of `t`. */
  function PairAt(t: seq<nat>, k: nat): (bv32, seq<Byte>)
    requires k + 1 < |t|
  {
    PairEntry(t[k], t[k + 1])
  }

  /** `history` lists the adjacent pairs of `t`, left to right. The trigger keeps the
      entries from being unfolded unless a proof names one. */
  ghost predicate PairsCounted(history: seq<(bv32, seq<Byte>)>, t: seq<nat>)
  {
    |history| == (if |t| < 2 then 0 else |t| - 1) &&
    forall k {:trigger PairAt(t, k)} :: 0 <= k < |history| ==> history[k] == PairAt(t, k)
  }

  /** The key of the pair at positions k and k + 1 of `t`. */
  function KeyAt(t: seq<nat>, k: nat): seq<Byte>
    requires k + 1 < |t|
  {
    Key(t[k], t[k + 1])
  }

  /** No two adjacent pairs of `t` (at different positions) print to the same key. */
  ghost predicate NoRepeatedKey(t: seq<nat>)
  {
    forall i, j :: 0 <= i < j < |t| - 1 ==> KeyAt(t, i) != KeyAt(t, j)
  }

  /** How many adjacent pairs of `t` print to `key`. */
  ghost function KeyCount(t: seq<nat>, key: seq<Byte>): nat
  {
    if |t| < 2 then 0
    else KeyCount(t[..|t| - 1], key) + (if KeyAt(t, |t| - 2) == key then 1 else 0)
  }

  /** `key` is counted at least as often as the key of any adjacent pair of `t`. */
  ghost predicate MostFrequent(t: seq<nat>, key: seq<Byte>)
  {
    forall i :: 0 <= i < |t| - 1 ==> KeyCount(t, KeyAt(t, i)) <= KeyCount(t, key)
  }

  /** Every token of `t` is an id below `bound`. */
  ghost predicate Below(t: seq<nat>, bound: nat)
  {
    forall i :: 0 <= i < |t| ==> t[i] < bound
  }

  /** Position (b, j) comes before position (i, k) in the order the selection loop visits
      the table: bucket by bucket, and within a bucket by index. */
  predicate Seen(b: nat, j: nat, i: nat, k: nat)
  {
    b < i || (b == i && j < k)
  }

  /** `best` is what the selection loop holds once it has visited every entry before (i, k):
      nothing when there was none, else the first entry with the largest count so far. */
  ghost predicate BestSoFar(bs: seq<seq<KV>>, best: Option<(nat, nat)>, i: nat, k: nat)
  {
    match best
    case None =>
      k == 0 && forall b :: 0 <= b < |bs| && b < i ==> bs[b] == []
    case Some(p) =>
      p.0 < |bs| && p.1 < |bs[p.0]| && Seen(p.0, p.1, i, k) &&
      (forall b, j :: 0 <= b < |bs| && 0 <= j < |bs[b]| && Seen(b, j, i, k) ==> bs[b][j].freq <= bs[p.0][p.1].freq) &&
      (forall b, j :: 0 <= b < |bs| && 0 <= j < |bs[b]| && Seen(b, j, p.0, p.1) ==> bs[b][j].freq < bs[p.0][p.1].freq)
  }

  /** Every bucket is empty. */
  ghost predicate NoEntries(bs: seq<seq<KV>>)
  {
    forall b :: 0 <= b < |bs| ==> bs[b] == []
  }

  /** A finished bucket: having seen all of bucket i is having seen everything before bucket i + 1. */
  lemma NextBucket(bs: seq<seq<KV>>, best: Option<(nat, nat)>, i: nat)
    requires i < |bs| && BestSoFar(bs, best, i, |bs[i]|)
    ensures BestSoFar(bs, best, i + 1, 0)
  {
    match best
    case None =>
    case Some(p) =>
      forall b, j | 0 <= b < |bs| && 0 <= j < |bs[b]| && Seen(b, j, i + 1, 0)
        ensures bs[b][j].freq <= bs[p.0][p.1].freq
      {
        assert Seen(b, j, i, |bs[i]|);
      }
  }

  /** Once every bucket is visited, the loop holds nothing exactly when the table is empty. */
  lemma BestDone(bs: seq<seq<KV>>, best: Option<(nat, nat)>)
    requires BestSoFar(bs, best, |bs|, 0)
    ensures best.None? <==> NoEntries(bs)
  {
  }

  /** The loop takes entry (i, j) when nothing is held yet or its count is strictly larger. */
  lemma TakeEntry(bs: seq<seq<KV>>, best: Option<(nat, nat)>, i: nat, j: nat)
    requires i < |bs| && j < |bs[i]| && BestSoFar(bs, best, i, j)
    requires best.Some? ==> bs[i][j].freq > bs[best.value.0][best.value.1].freq
    ensures BestSoFar(bs, Some((i, j)), i, j + 1)
  {
    forall b, e | 0 <= b < |bs| && 0 <= e < |bs[b]| && Seen(b, e, i, j)
      ensures bs[b][e].freq < bs[i][j].freq
    {
      assert best.Some?;
    }
  }

  /** The loop keeps what it holds when entry (i, j) is not strictly larger. */
  lemma KeepEntry(bs: seq<seq<KV>>, p: (nat, nat), i: nat, j: nat)
    requires i < |bs| && j < |bs[i]| && BestSoFar(bs, Some(p), i, j)
    requires bs[i][j].freq <= bs[p.0][p.1].freq
    ensures BestSoFar(bs, Some(p), i, j + 1)
  {
  }

  /** Two adjacent pairs with the same key make the table count that key at least twice. */
  lemma RepeatCounts(bs: seq<seq<KV>>, history: seq<(bv32, seq<Byte>)>, t: seq<nat>, i: nat, j: nat)
    requires Tallied(bs, history) && PairsCounted(history, t)
    requires i < j < |t| - 1
    ensures KeyAt(t, i) == KeyAt(t, j) ==>
      var e := history[i];
      var bucket := bs[BucketOf(e.0, BucketCount)];
      FindEntry(bucket, e.0, e.1).Some? && bucket[FindEntry(bucket, e.0, e.1).value].freq >= 2
    ensures KeyAt(t, i) == KeyAt(t, j) ==>
      exists b, x :: 0 <= b < |bs| && 0 <= x < |bs[b]| && bs[b][x].freq >= 2
  {
    if KeyAt(t, i) == KeyAt(t, j) {
      assert history[i] == PairAt(t, i) == PairAt(t, j) == history[j];
      OccTwice(history, i, j);
      var e := history[i];
      var bucket := bs[BucketOf(e.0, BucketCount)];
      assert FindEntry(bucket, e.0, e.1).Some?;
      assert BucketCounted(bucket, history);
      var x := FindEntry(bucket, e.0, e.1).value;
      assert bs[BucketOf(e.0, BucketCount)][x].freq >= 2;
    }
  }

  /** The table's stop test, restated: when no entry is counted twice, no two adjacent pairs
      of the tokens share a key. */
  lemma NoRepeatWhenCountsLow(bs: seq<seq<KV>>, history: seq<(bv32, seq<Byte>)>, t: seq<nat>)
    requires Tallied(bs, history) && PairsCounted(history, t)
    requires forall b, j :: 0 <= b < |bs| && 0 <= j < |bs[b]| ==> bs[b][j].freq <= 1
    ensures NoRepeatedKey(t)
  {
    forall i, j | 0 <= i < j < |t| - 1
      ensures KeyAt(t, i) != KeyAt(t, j)
    {
      RepeatCounts(bs, history, t, i, j);
    }
  }

  /** Conversely, an entry counted twice comes from two adjacent pairs that share a key. */
  lemma CountedTwiceRepeats(bs: seq<seq<KV>>, history: seq<(bv32, seq<Byte>)>, t: seq<nat>, b: nat, j: nat)
    requires Tallied(bs, history) && PairsCounted(history, t)
    requires b < |bs| && j < |bs[b]| && bs[b][j].freq >= 2
    ensures !NoRepeatedKey(t)
  {
    assert BucketCounted(bs[b], history);
    var x, y := OccTwoPositions(history, (bs[b][j].key, bs[b][j].value));
    assert history[x] == PairAt(t, x) && history[y] == PairAt(t, y);
    assert KeyAt(t, x) == history[x].1 == history[y].1 == KeyAt(t, y);
  }

  /** The first appended value is stored in the bucket its key selects. */
  lemma FirstCovered(bs: seq<seq<KV>>, history: seq<(bv32, seq<Byte>)>)
    requires Tallied(bs, history)
    ensures |history| > 0 ==> FindEntry(bs[BucketOf(history[0].0, BucketCount)], history[0].0, history[0].1).Some?
  {
  }

  /** An empty table was filled from a token sequence with no adjacent pair. */
  lemma EmptyTableNoPairs(bs: seq<seq<KV>>, history: seq<(bv32, seq<Byte>)>, t: seq<nat>)
    requires Tallied(bs, history) && PairsCounted(history, t) && NoEntries(bs)
    ensures |t| < 2
  {
    FirstCovered(bs, history);
  }

  /** A counted entry holds the key of some adjacent pair of the tokens. */
  lemma {:induction false} EntryIsAPair(bs: seq<seq<KV>>, history: seq<(bv32, seq<Byte>)>, t: seq<nat>, b: nat, j: nat)
    returns (k: nat)
    requires Tallied(bs, history) && PairsCounted(history, t)
    requires b < |bs| && j < |bs[b]| && bs[b][j].freq > 0
    ensures k + 1 < |t| && bs[b][j].value == Key(t[k], t[k + 1])
  {
    var e := (bs[b][j].key, bs[b][j].value);
    assert BucketCounted(bs[b], history);
    assert Occ(history, e) > 0;
    OccPositive(history, e);
    var m :| 0 <= m < |history| && history[m] == e;
    k := m;
    assert history[k] == PairAt(t, k);
  }

  /** The ids the trainer reads back from the key of the pair at `k`: below 1000 always, and
      the pair itself when both its ids are below 1000. */
  lemma ParsedPair(t: seq<nat>, k: nat)
    requires k + 1 < |t|
    ensures Parse(Key(t[k], t[k + 1])).0 < 1000 && Parse(Key(t[k], t[k + 1])).1 < 1000
    ensures t[k] < 1000 && t[k + 1] < 1000 ==> Parse(Key(t[k], t[k + 1])) == (t[k], t[k + 1])
  {
    if t[k] < 1000 && t[k + 1] < 1000 {
      KeyRoundTrip(t[k], t[k + 1]);
    }
  }

  /** The round's outcome for the pair read back from the key of the pair at `k`: both ids
      are below `nextToken`, and the replacement can leave the length unchanged only when
      that pair has an id of 1000 or more. */
  lemma ParsedPairReplaced(t: seq<nat>, k: nat, nextToken: nat)
    requires k + 1 < |t| && FirstMergeId <= nextToken && Below(t, nextToken)
    ensures var ab := Parse(Key(t[k], t[k + 1]));
      ab.0 < nextToken && ab.1 < nextToken &&
      |Replace(t, ab.0, ab.1, nextToken)| <= |t| &&
      (!WideAt(t, k) ==> |Replace(t, ab.0, ab.1, nextToken)| < |t|)
  {
    var ab := Parse(Key(t[k], t[k + 1]));
    ParsedPair(t, k);
    ReplaceLength(t, ab.0, ab.1, nextToken);
    if !WideAt(t, k) {
      assert t[k] == ab.0 && t[k + 1] == ab.1;
    }
  }

  /** Equal pairs print to equal keys, so distinct keys mean distinct pairs: at the
      trainer's stop, no adjacent pair occurs twice. */
  lemma NoRepeatedPair(t: seq<nat>)
    requires NoRepeatedKey(t)
    ensures forall i, j :: 0 <= i < j < |t| - 1 ==> (t[i], t[i + 1]) != (t[j], t[j + 1])
  {
    forall i, j | 0 <= i < j < |t| - 1
      ensures (t[i], t[i + 1]) != (t[j], t[j + 1])
    {
      assert KeyAt(t, i) != KeyAt(t, j);
    }
  }

  /** `t` holds one token per byte of `input`, the byte read as unsigned. */
  ghost predicate ByteTokensOf(input: seq<Byte>, t: seq<nat>)
  {
    |t| == |input| && forall i :: 0 <= i < |input| ==> t[i] == input[i] as nat
  }

  /** bpe.c lines 65-68: one token per input byte, the byte read as unsigned. */
  method ByteTokens(input: seq<Byte>) returns (tokens: seq<nat>)
    ensures ByteTokensOf(input, tokens)
  {
    tokens := [];
    var i := 0;
    while i < |input|
      invariant i <= |input| && |tokens| == i
      invariant forall k :: 0 <= k < i ==> tokens[k] == input[k] as nat
    {
      tokens := tokens + [input[i] as nat];
      i := i + 1;
    }
  }

  /** Byte tokens decode to the bytes they came from, with no merge records. */
  lemma {:induction false} ByteTokensDecode(input: seq<Byte>, tokens: seq<nat>, merges: seq<Merge>)
    requires Acyclic(merges)
    requires ByteTokensOf(input, tokens)
    ensures ExpandSeq(tokens, merges) == input
    decreases |input|
  {
    if input != [] {
      var n := |input| - 1;
      ByteTokensDecode(input[..n], tokens[..n], merges);
      assert (tokens[n] as Byte) == input[n];
      assert input == input[..n] + [input[n]];
    }
  }

  /** bpe.c lines 74-80: a fresh table counting every adjacent pair of `tokens` by its key. */
  method CountPairs(tokens: seq<nat>) returns (tb: Table)
    ensures fresh(tb) && tb.Valid() && PairsCounted(tb.History, tokens)
    ensures tb.Buckets() == Replayed(tb.History)
  {
    tb := new Table();
    var i := 0;
    while i + 1 < |tokens|
      invariant tb.Valid() && fresh(tb) && (tb.items != null ==> fresh(tb.items))
      invariant i == 0 || i < |tokens|
      invariant |tb.History| == i
      invariant forall k {:trigger PairAt(tokens, k)} :: 0 <= k < i ==> tb.History[k] == PairAt(tokens, k)
      invariant tb.Buckets() == Replayed(tb.History)
    {
      PairsCountedStep(tb.History, tokens, i);
      ghost var before := tb.History;
      CountPair(tb, tokens, i);
      assert tb.History[..|before|] == before;
      i := i + 1;
    }
  }

  /** Appending the entry of the pair at `i` extends a listing of the first `i` pairs. */
  lemma PairsCountedStep(history: seq<(bv32, seq<Byte>)>, t: seq<nat>, i: nat)
    requires |history| == i && i + 1 < |t|
    requires forall k {:trigger PairAt(t, k)} :: 0 <= k < i ==> history[k] == PairAt(t, k)
    ensures forall k {:trigger PairAt(t, k)} :: 0 <= k < i + 1 ==> (history + [PairAt(t, i)])[k] == PairAt(t, k)
  {
    var e := PairAt(t, i);
    forall k | 0 <= k < i + 1
      ensures (history + [e])[k] == PairAt(t, k)
    {
      if k < i {
        assert (history + [e])[k] == history[k];
      }
    }
  }

  /** One step of the counting loop (bpe.c line 78): formats the key of the pair at `i` and
      appends it. */
  method CountPair(tb: Table, tokens: seq<nat>, i: nat)
    requires tb.Valid() && i + 1 < |tokens|
    modifies tb, tb.items
    ensures tb.Valid() && tb.items != null
    ensures old(tb.items) != null ==> tb.items == old(tb.items)
    ensures old(tb.items) == null ==> fresh(tb.items)
    ensures tb.History == old(tb.History) + [PairAt(tokens, i)]
    ensures tb.Buckets() == Bumped(old(tb.Buckets()), PairAt(tokens, i).0, PairAt(tokens, i).1)
  {
    var key := Key(tokens[i], tokens[i + 1]);
    tb.Append(key, 6);
  }

  /** The inner loop of the selection (bpe.c lines 84-89): visits the entries of bucket `i`
      in order and takes one when nothing is held yet or its count beats the held one. */
  method ScanBucket(tb: Table, i: nat, best0: Option<(nat, nat)>) returns (best: Option<(nat, nat)>)
    requires tb.items != null && i < tb.items.Length
    requires BestSoFar(tb.items[..], best0, i, 0)
    ensures BestSoFar(tb.items[..], best, i, |tb.items[i]|)
  {
    ghost var bs := tb.items[..];
    best := best0;
    var bucket := tb.items[i];
    var j := 0;
    while j < |bucket|
      invariant j <= |bucket| && bucket == bs[i]
      invariant BestSoFar(bs, best, i, j)
    {
      if best.None? || bucket[j].freq > tb.items[best.value.0][best.value.1].freq {
        TakeEntry(bs, best, i, j);
        best := Some((i, j));
      } else {
        KeepEntry(bs, best.value, i, j);
      }
      j := j + 1;
    }
  }

  /** bpe.c lines 82-90: the first entry, in bucket order, with the largest count, as its
      (bucket, index) position; nothing when the table holds no entry. */
  method SelectBest(tb: Table) returns (best: Option<(nat, nat)>)
    requires tb.Valid()
    ensures best.None? <==> NoEntries(tb.Buckets())
    ensures best.Some? ==> tb.items != null && BestSoFar(tb.items[..], best, tb.items.Length, 0)
  {
    ghost var bs := tb.Buckets();
    best := None;
    var i := 0;
    while i < tb.count
      invariant i <= tb.count
      invariant tb.items != null ==> bs == tb.items[..]
      invariant tb.items != null || i == 0
      invariant BestSoFar(bs, best, i, 0)
    {
      best := ScanBucket(tb, i, best);
      NextBucket(bs, best, i);
      i := i + 1;
    }
    BestDone(bs, best);
  }

  /** The scan at position i of `s`: the pair is replaced and skipped, or one token copied. */
  lemma ReplaceAt(s: seq<nat>, i: nat, a: nat, b: nat, n: nat)
    requires i < |s|
    ensures i + 1 < |s| && s[i] == a && s[i + 1] == b ==> Replace(s[i..], a, b, n) == [n] + Replace(s[i + 2..], a, b, n)
    ensures !(i + 1 < |s| && s[i] == a && s[i + 1] == b) ==> Replace(s[i..], a, b, n) == [s[i]] + Replace(s[i + 1..], a, b, n)
  {
    if i + 1 < |s| {
      assert s[i..][2..] == s[i + 2..];
      assert s[i..][1..] == s[i + 1..];
    } else {
      assert s[i..] == [s[i]];
      assert s[i + 1..] == [];
    }
  }

  /** bpe.c lines 105-115: the left-to-right scan that writes `n` for each (a, b) it meets
      and skips past it. */
  method ReplacePair(tokens: seq<nat>, a: nat, b: nat, n: nat) returns (next: seq<nat>)
    ensures next == Replace(tokens, a, b, n)
  {
    next := [];
    var i := 0;
    while i < |tokens|
      invariant i <= |tokens|
      invariant next + Replace(tokens[i..], a, b, n) == Replace(tokens, a, b, n)
    {
      if i + 1 < |tokens| && tokens[i] == a && tokens[i + 1] == b {
        ReplaceAt(tokens, i, a, b, n);
        ghost var rest := Replace(tokens[i + 2..], a, b, n);
        assert (next + [n]) + rest == next + ([n] + rest);
        next := next + [n];
        i := i + 2;
      } else {
        ReplaceAt(tokens, i, a, b, n);
        ghost var rest := Replace(tokens[i + 1..], a, b, n);
        assert (next + [tokens[i]]) + rest == next + ([tokens[i]] + rest);
        next := next + [tokens[i]];
        i := i + 1;
      }
    }
    assert tokens[i..] == [];
  }

  /** The search loop of decode_token: the last record producing `token`. */
  method FindRecord(merges: seq<Merge>, token: nat) returns (found: Option<nat>)
    ensures found == FindLast(merges, token)
  {
    var i: nat := |merges|;
    while i > 0
      invariant i <= |merges|
      invariant forall k :: i <= k < |merges| ==> merges[k].token != token
    {
      i := i - 1;
      if merges[i].token == token {
        return Some(i);
      }
    }
    return None;
  }

  /** decode_token (bpe.c lines 40-53): appends the bytes of `token` to `out`. A byte id is
      appended as itself; a merge id is looked up from the back of the list and its halves
      are decoded in turn; an id no record produces appends nothing. */
  method DecodeToken(token: nat, merges: seq<Merge>, out: Da<Byte>)
    requires Acyclic(merges) && out.Valid()
    modifies out.Repr
    ensures out.Valid() && fresh(out.Repr - old(out.Repr))
    ensures out.Contents == old(out.Contents) + Expand(token, merges)
    decreases token, 0
  {
    if token < FirstMergeId {
      out.Append(token as Byte);
    } else {
      var found := FindRecord(merges, token);
      if found.Some? {
        var i := found.value;
        DecodeHalves(merges[i].left, merges[i].right, merges, out);
      }
    }
  }

  /** The two recursive calls of decode_token for a record: the left half, then the right. */
  method DecodeHalves(left: nat, right: nat, merges: seq<Merge>, out: Da<Byte>)
    requires Acyclic(merges) && out.Valid()
    modifies out.Repr
    ensures out.Valid() && fresh(out.Repr - old(out.Repr))
    ensures out.Contents == old(out.Contents) + (Expand(left, merges) + Expand(right, merges))
    decreases if left < right then right else left, 1
  {
    ghost var start := out.Contents;
    ghost var l := Expand(left, merges);
    ghost var r := Expand(right, merges);
    DecodeToken(left, merges, out);
    DecodeToken(right, merges, out);
    assert (start + l) + r == start + (l + r);
  }

  /** bpe.c lines 134-138: decodes every token into a fresh buffer, then appends the NUL
      that sb_append_null adds. */
  method DecodeAll(tokens: seq<nat>, merges: seq<Merge>) returns (decoded: seq<Byte>)
    requires Acyclic(merges)
    ensures decoded == ExpandSeq(tokens, merges) + [0]
  {
    var out := new Da<Byte>();
    var i := 0;
    while i < |tokens|
      invariant i <= |tokens|
      invariant out.Valid() && fresh(out.Repr)
      invariant out.Contents == ExpandSeq(tokens[..i], merges)
    {
      DecodeToken(tokens[i], merges, out);
      assert tokens[..i + 1][..i] == tokens[..i];
      i := i + 1;
    }
    out.Append(0);
    assert tokens[..i] == tokens;
    decoded := out.items[..out.count];
  }

  /** The pair at `k` has an id of 1000 or more: its key is wider than six digits. */
  predicate WideAt(t: seq<nat>, k: nat)
  {
    k + 1 < |t| && (t[k] >= 1000 || t[k + 1] >= 1000)
  }

  /** The held entry's count bounds every count in the table. */
  lemma BestBoundsAll(bs: seq<seq<KV>>, p: (nat, nat))
    requires BestSoFar(bs, Some(p), |bs|, 0)
    ensures forall b, j :: 0 <= b < |bs| && 0 <= j < |bs[b]| ==> bs[b][j].freq <= bs[p.0][p.1].freq
  {
    forall b, j | 0 <= b < |bs| && 0 <= j < |bs[b]|
      ensures bs[b][j].freq <= bs[p.0][p.1].freq
    {
      assert Seen(b, j, |bs|, 0);
    }
  }

  /** Counting an entry among the appends counts its key among the pairs: never more, and
      exactly as often when the hash is the one the trainer computes for that key. */
  lemma {:induction false} HistoryKeyCount(history: seq<(bv32, seq<Byte>)>, t: seq<nat>, h: bv32, v: seq<Byte>)
    requires PairsCounted(history, t)
    ensures Occ(history, (h, v)) <= KeyCount(t, v)
    ensures |v| >= 6 && h == Djb33(v[..6]) ==> Occ(history, (h, v)) == KeyCount(t, v)
    decreases |t|
  {
    if |t| < 2 {
      assert history == [];
    } else {
      var t', h' := t[..|t| - 1], history[..|history| - 1];
      forall k | 0 <= k < |h'|
        ensures h'[k] == PairAt(t', k)
      {
        assert h'[k] == PairAt(t, k);
      }
      assert PairsCounted(h', t');
      HistoryKeyCount(h', t', h, v);
      assert history[|history| - 1] == PairAt(t, |t| - 2);
      KeyShape(t[|t| - 2], t[|t| - 1]);
    }
  }

  /** An entry counted at least as often as every other holds a key that occurs at least
      that often and at least as often as the key of any adjacent pair. */
  lemma MaxKey(bs: seq<seq<KV>>, history: seq<(bv32, seq<Byte>)>, t: seq<nat>, p: (nat, nat))
    requires Tallied(bs, history) && PairsCounted(history, t)
    requires p.0 < |bs| && p.1 < |bs[p.0]|
    requires forall b, j :: 0 <= b < |bs| && 0 <= j < |bs[b]| ==> bs[b][j].freq <= bs[p.0][p.1].freq
    ensures bs[p.0][p.1].freq <= KeyCount(t, bs[p.0][p.1].value)
    ensures MostFrequent(t, bs[p.0][p.1].value)
  {
    var e := bs[p.0][p.1];
    assert BucketCounted(bs[p.0], history);
    HistoryKeyCount(history, t, e.key, e.value);
    forall i | 0 <= i < |t| - 1
      ensures KeyCount(t, KeyAt(t, i)) <= KeyCount(t, e.value)
    {
      var x := history[i];
      assert x == PairAt(t, i);
      var c := BucketOf(x.0, BucketCount);
      var j := FindEntry(bs[c], x.0, x.1).value;
      assert BucketCounted(bs[c], history);
      KeyShape(t[i], t[i + 1]);
      HistoryKeyCount(history, t, x.0, x.1);
    }
  }

  /** What the entry the selection loop holds says about the tokens: none, or one counted at
      most once, exactly when no two adjacent pairs share a key; one counted twice holds the
      key of the pair at `k`. */
  lemma SelectedKey(bs: seq<seq<KV>>, history: seq<(bv32, seq<Byte>)>, t: seq<nat>, best: Option<(nat, nat)>)
    returns (k: nat)
    requires Tallied(bs, history) && PairsCounted(history, t)
    requires best.None? <==> NoEntries(bs)
    requires best.Some? ==> BestSoFar(bs, best, |bs|, 0)
    ensures best.None? ==> NoRepeatedKey(t)
    ensures best.Some? ==>
      var e := bs[best.value.0][best.value.1];
      (e.freq <= 1 <==> NoRepeatedKey(t)) &&
      (e.freq > 1 ==> k + 1 < |t| && e.value == Key(t[k], t[k + 1])) &&
      (e.freq > 1 ==> KeyCount(t, e.value) >= 2 && MostFrequent(t, e.value))
  {
    k := 0;
    match best
    case None =>
      EmptyTableNoPairs(bs, history, t);
    case Some(p) =>
      if bs[p.0][p.1].freq <= 1 {
        BestBoundsAll(bs, p);
        NoRepeatWhenCountsLow(bs, history, t);
      } else {
        CountedTwiceRepeats(bs, history, t, p.0, p.1);
        k := EntryIsAPair(bs, history, t, p.0, p.1);
        BestBoundsAll(bs, p);
        MaxKey(bs, history, t, p);
      }
  }

  /** bpe.c lines 74-95: counts the adjacent pairs and takes the first most frequent key;
      none when no key was counted twice. `k` locates a pair with the key taken. */
  method RepeatedKey(tokens: seq<nat>) returns (key: Option<seq<Byte>>, ghost k: nat)
    ensures key.None? <==> NoRepeatedKey(tokens)
    ensures key.Some? ==> k + 1 < |tokens| && key.value == Key(tokens[k], tokens[k + 1])
    ensures key.Some? ==> KeyCount(tokens, key.value) >= 2 && MostFrequent(tokens, key.value)
  {
    var tb := CountPairs(tokens);
    var best := SelectBest(tb);
    ghost var bs := tb.Buckets();
    k := SelectedKey(bs, tb.History, tokens, best);
    if best.None? {
      return None, k;
    }
    var p := best.value;
    var entry := tb.items[p.0][p.1];
    assert entry == bs[p.0][p.1];
    if entry.freq <= 1 {
      return None, k;
    }
    key := Some(entry.value);
  }

  /** One round of the training loop (bpe.c lines 74-115). It counts the adjacent pairs,
      picks the first most frequent key, and stops (`done`) when there is none or it was seen
      at most once. Otherwise `key` is a key counted at least twice and at least as often as
      any other; the round reads the pair (a, b) back from it and replaces that pair left to
      right with `nextToken`, giving `next`. `spins` reports the state in which bpe.c never
      leaves its loop: the pair read back does not occur, so the tokens stay as they are. */
  method TrainRound(tokens: seq<nat>, nextToken: nat)
    returns (done: bool, spins: bool, key: seq<Byte>, a: nat, b: nat, next: seq<nat>)
    requires FirstMergeId <= nextToken && Below(tokens, nextToken)
    ensures spins ==> done
    ensures done && !spins <==> NoRepeatedKey(tokens)
    ensures (!done || spins) ==> |key| >= 6 && AllDigits(key) && (a, b) == Parse(key)
    ensures (!done || spins) ==> KeyCount(tokens, key) >= 2 && MostFrequent(tokens, key)
    ensures (!done || spins) ==> (spins <==> !Occurs(tokens, a, b))
    ensures spins ==> next == tokens && exists k :: WideAt(tokens, k)
    ensures !done ==> a < nextToken && b < nextToken
    ensures !done ==> next == Replace(tokens, a, b, nextToken) && |next| < |tokens|
  {
    key, a, b, next := [], 0, 0, tokens;
    var found;
    ghost var k;
    found, k := RepeatedKey(tokens);
    if found.None? {
      return true, false, key, a, b, next;
    }
    key := found.value;
    ParsedPairReplaced(tokens, k, nextToken);
    KeyShape(tokens[k], tokens[k + 1]);
    var ab := Parse(key);
    a, b := ab.0, ab.1;
    next := ReplacePair(tokens, a, b, nextToken);
    ReplaceLength(tokens, a, b, nextToken);
    if |next| == |tokens| {
      assert WideAt(tokens, k);
      return true, true, key, a, b, next;
    }
    done, spins := false, false;
  }

  /** The state in which bpe.c never leaves its loop: `key` is counted at least twice and at
      least as often as any other, yet the pair read back from it does not occur in `t`. */
  ghost predicate Spinning(t: seq<nat>, key: seq<Byte>)
  {
    |key| >= 6 && AllDigits(key) && KeyCount(t, key) >= 2 && MostFrequent(t, key) &&
    !Occurs(t, Parse(key).0, Parse(key).1)
  }

  /** What the training loop keeps: the records continue one another, every token is below
      the next id, the tokens decode to the input, and the tokens and the records together
      never outnumber the input bytes. */
  ghost predicate Trained(input: seq<Byte>, tokens: seq<nat>, merges: seq<Merge>, nextToken: nat)
  {
    Sequential(merges) && nextToken == FirstMergeId + |merges| && Below(tokens, nextToken) &&
    ExpandSeq(tokens, merges) == input && |tokens| + |merges| <= |input|
  }

  /** A merging round keeps what the training loop maintains. */
  lemma MergeStep(input: seq<Byte>, tokens: seq<nat>, merges: seq<Merge>, a: nat, b: nat)
    requires Trained(input, tokens, merges, FirstMergeId + |merges|)
    requires a < FirstMergeId + |merges| && b < FirstMergeId + |merges|
    requires |Replace(tokens, a, b, FirstMergeId + |merges|)| < |tokens|
    ensures
      var n := FirstMergeId + |merges|;
      Trained(input, Replace(tokens, a, b, n), merges + [Merge(a, b, n)], n + 1)
  {
    var n := FirstMergeId + |merges|;
    ReplacePreservesExpansion(tokens, merges, a, b);
    ReplaceBound(tokens, a, b, n, n + 1);
  }

  /** Round of the trace: starting from `t`, the selected `key` is counted at least twice and
      at least as often as any other, the record `m` holds the pair read back from it, and
      replacing that pair with the record's id gives `next`. */
  ghost predicate GreedyRound(t: seq<nat>, key: seq<Byte>, m: Merge, next: seq<nat>)
  {
    |key| >= 6 && AllDigits(key) && Parse(key) == (m.left, m.right) &&
    KeyCount(t, key) >= 2 && MostFrequent(t, key) && next == Replace(t, m.left, m.right, m.token)
  }

  /** The trace of the training loop: `rounds[r]` are the tokens round r starts from, the
      byte tokens of `input` first and `tokens` last, and `keys[r]` the key it selects; the
      record of round r holds the pair read back from that key, a key counted at least twice
      and at least as often as any other, and replacing the pair gives the next round's
      tokens. */
  ghost predicate Greedy(input: seq<Byte>, tokens: seq<nat>, merges: seq<Merge>, rounds: seq<seq<nat>>, keys: seq<seq<Byte>>)
  {
    |rounds| == |merges| + 1 && |keys| == |merges| &&
    ByteTokensOf(input, rounds[0]) && rounds[|merges|] == tokens &&
    forall r :: 0 <= r < |merges| ==> GreedyRound(rounds[r], keys[r], merges[r], rounds[r + 1])
  }

  /** A round that merges the most frequent key extends the trace. */
  lemma GreedyStep(input: seq<Byte>, tokens: seq<nat>, merges: seq<Merge>, rounds: seq<seq<nat>>, keys: seq<seq<Byte>>,
                   key: seq<Byte>, m: Merge, next: seq<nat>)
    requires Greedy(input, tokens, merges, rounds, keys)
    requires GreedyRound(tokens, key, m, next)
    ensures Greedy(input, next, merges + [m], rounds + [next], keys + [key])
  {
    var merges', rounds', keys' := merges + [m], rounds + [next], keys + [key];
    var n := |merges|;
    assert rounds'[n] == rounds[n] == tokens;
    assert merges'[n] == m && keys'[n] == key && rounds'[n + 1] == next;
    forall r | 0 <= r < |merges'|
      ensures GreedyRound(rounds'[r], keys'[r], merges'[r], rounds'[r + 1])
    {
      if r < |merges| {
        assert merges'[r] == merges[r] && keys'[r] == keys[r] && rounds'[r] == rounds[r] && rounds'[r + 1] == rounds[r + 1];
      } else {
        assert r == n;
      }
    }
    assert rounds'[0] == rounds[0];
  }

  /** The byte tokens are ids below the first merge id. */
  lemma ByteTokensBelow(input: seq<Byte>, tokens: seq<nat>)
    requires ByteTokensOf(input, tokens)
    ensures Below(tokens, FirstMergeId)
  {
  }

  /** The training loop of bpe.c (lines 65-128): byte tokens, then rounds until one stops;
      each merging round records (a, b) -> nextToken and moves to the next id. `spins`
      reports the state in which bpe.c would loop forever. */
  method Train(input: seq<Byte>)
    returns (tokens: seq<nat>, merges: seq<Merge>, nextToken: nat, spins: bool,
             ghost rounds: seq<seq<nat>>, ghost keys: seq<seq<Byte>>, ghost stuck: seq<Byte>)
    ensures Sequential(merges) && nextToken == FirstMergeId + |merges|
    ensures Below(tokens, nextToken)
    ensures ExpandSeq(tokens, merges) == input
    ensures |tokens| + |merges| <= |input|
    ensures !spins ==> NoRepeatedKey(tokens)
    ensures !spins ==> forall i, j :: 0 <= i < j < |tokens| - 1 ==> (tokens[i], tokens[i + 1]) != (tokens[j], tokens[j + 1])
    ensures spins ==> Spinning(tokens, stuck) && exists k :: WideAt(tokens, k)
    ensures Greedy(input, tokens, merges, rounds, keys)
  {
    tokens := ByteTokens(input);
    ByteTokensDecode(input, tokens, []);
    ByteTokensBelow(input, tokens);
    merges, nextToken, spins := [], FirstMergeId, false;
    rounds, keys, stuck := [tokens], [], [];
    while true
      invariant Trained(input, tokens, merges, nextToken)
      invariant Greedy(input, tokens, merges, rounds, keys)
      decreases |tokens|
    {
      var done, key, a, b, next;
      done, spins, key, a, b, next := TrainRound(tokens, nextToken);
      if done {
        if !spins {
          NoRepeatedPair(tokens);
        }
        stuck := key;
        return;
      }
      MergeStep(input, tokens, merges, a, b);
      assert GreedyRound(tokens, key, Merge(a, b, nextToken), next);
      GreedyStep(input, tokens, merges, rounds, keys, key, Merge(a, b, nextToken), next);
      rounds, keys := rounds + [next], keys + [key];
      merges := merges + [Merge(a, b, nextToken)];
      tokens := next;
      nextToken := nextToken + 1;
    }
  }

  /** bpe.c's main after the file is read: train, report the final token count, the vocabulary
      size and the number of merges, and decode the tokens back (with the terminating NUL).
      When training spins, bpe.c never gets to report anything. The ghost results are the
      trained tokens and records, the trace of the rounds and, when spinning, the key it
      spins on. */
  method Run(input: seq<Byte>)
    returns (finalCount: nat, vocabSize: nat, mergeCount: nat, decoded: seq<Byte>, spins: bool,
             ghost tokens: seq<nat>, ghost merges: seq<Merge>, ghost rounds: seq<seq<nat>>, ghost keys: seq<seq<Byte>>,
             ghost stuck: seq<Byte>)
    ensures finalCount == |tokens| && mergeCount == |merges| && vocabSize == FirstMergeId + mergeCount
    ensures Sequential(merges) && Below(tokens, vocabSize) && ExpandSeq(tokens, merges) == input
    ensures Greedy(input, tokens, merges, rounds, keys)
    ensures finalCount + mergeCount <= |input|
    ensures !spins ==> NoRepeatedKey(tokens) && decoded == input + [0]
    ensures spins ==> Spinning(tokens, stuck)
  {
    var trained, records, nextToken;
    trained, records, nextToken, spins, rounds, keys, stuck := Train(input);
    tokens, merges := trained, records;
    finalCount, vocabSize, mergeCount := |trained|, nextToken, |records|;
    decoded := [];
    if !spins {
      decoded := DecodeAll(trained, records);
    }
  }
}
