/** The chained hash table of chaos.h that counts how often each string was appended:
    16 buckets, each a dynamic array of (key, value, freq) entries. */
module ChaosTable {
  import opened Common
  import opened Hash

  /** chaos_KV: the hash of the value, the value (a NUL-free C string), and its count. */
  datatype KV = KV(key: bv32, value: seq<Byte>, freq: nat)

  /** The number of buckets chaos_table_append creates on its first call. */
  const BucketCount: nat := 16

  /** `key % t->count`. */
  function BucketOf(key: bv32, count: nat): nat
    requires count > 0
  {
    key as int % count
  }

  /** The first entry of `bucket` that holds (key, value): the lookup loop of chaos_table_append. */
  function FindEntry(bucket: seq<KV>, key: bv32, value: seq<Byte>): (r: Option<nat>)
    ensures r.Some? ==> r.value < |bucket| && bucket[r.value].key == key && bucket[r.value].value == value
    ensures r.Some? ==> forall k :: 0 <= k < r.value ==> !(bucket[k].key == key && bucket[k].value == value)
    ensures r.None? <==> forall k :: 0 <= k < |bucket| ==> !(bucket[k].key == key && bucket[k].value == value)
  {
    if bucket == [] then None
    else if bucket[0].key == key && bucket[0].value == value then Some(0)
    else match FindEntry(bucket[1..], key, value)
      case None => None
      case Some(j) => Some(j + 1)
  }

  /** A bucket after one append of (key, value): the matching entry counts one more, or a
      new entry with count 1 goes at its end. */
  function Bump(bucket: seq<KV>, key: bv32, value: seq<Byte>): seq<KV>
  {
    match FindEntry(bucket, key, value)
    case Some(j) => bucket[j := bucket[j].(freq := bucket[j].freq + 1)]
    case None => bucket + [KV(key, value, 1)]
  }


  /** Sum of the counts in one bucket. */
  function SumFreq(bucket: seq<KV>): nat
  {
    if bucket == [] then 0 else SumFreq(bucket[..|bucket| - 1]) + bucket[|bucket| - 1].freq
  }

  /** Sum of the counts in all buckets. */
  function TotalFreq(buckets: seq<seq<KV>>): nat
  {
    if buckets == [] then 0 else SumFreq(buckets[0]) + TotalFreq(buckets[1..])
  }

  /** Every entry sits in the bucket its key selects. */
  ghost predicate Placed(buckets: seq<seq<KV>>)
  {
    forall b, j :: 0 <= b < |buckets| && 0 <= j < |buckets[b]| ==> BucketOf(buckets[b][j].key, BucketCount) == b
  }

  /** No bucket holds the same (key, value) twice. */
  ghost predicate Unique(buckets: seq<seq<KV>>)
  {
    forall b, j, j' :: 0 <= b < |buckets| && 0 <= j < j' < |buckets[b]| ==>
      !(buckets[b][j].key == buckets[b][j'].key && buckets[b][j].value == buckets[b][j'].value)
  }

  /** Every stored entry has been counted at least once. */
  ghost predicate Positive(buckets: seq<seq<KV>>)
  {
    forall b, j :: 0 <= b < |buckets| && 0 <= j < |buckets[b]| ==> buckets[b][j].freq >= 1
  }

  /** Each entry's count is the number of times its (key, value) was appended. */
  ghost predicate BucketCounted(bucket: seq<KV>, history: seq<(bv32, seq<Byte>)>)
  {
    forall j :: 0 <= j < |bucket| ==> bucket[j].freq == Occ(history, (bucket[j].key, bucket[j].value))
  }

  ghost predicate Counted(buckets: seq<seq<KV>>, history: seq<(bv32, seq<Byte>)>)
  {
    forall b :: 0 <= b < |buckets| ==> BucketCounted(buckets[b], history)
  }

  /** Every appended (key, value) is stored in the bucket its key selects. */
  ghost predicate Covered(buckets: seq<seq<KV>>, history: seq<(bv32, seq<Byte>)>)
    requires |buckets| == BucketCount
  {
    forall k :: 0 <= k < |history| ==>
      FindEntry(buckets[BucketOf(history[k].0, BucketCount)], history[k].0, history[k].1).Some?
  }

  /** The part of the table's invariant that ties the counts to the appends. */
  ghost predicate Tallied(buckets: seq<seq<KV>>, history: seq<(bv32, seq<Byte>)>)
  {
    |buckets| == BucketCount && Counted(buckets, history) && Covered(buckets, history)
  }

  /** The table's invariant, over its bucket array and the values appended so far
      (`history`, each with its hash); the counts also add up to the number of appends. */
  ghost predicate Consistent(buckets: seq<seq<KV>>, history: seq<(bv32, seq<Byte>)>)
  {
    |buckets| == BucketCount && Placed(buckets) && Unique(buckets) && Positive(buckets) &&
    Counted(buckets, history) && Covered(buckets, history) && TotalFreq(buckets) == |history|
  }

  lemma {:induction false} SumFreqUpdate(bucket: seq<KV>, j: nat, kv: KV)
    requires j < |bucket|
    ensures SumFreq(bucket[j := kv]) + bucket[j].freq == SumFreq(bucket) + kv.freq
    decreases |bucket|
  {
    var u := bucket[j := kv];
    assert u[..|u| - 1] == if j == |bucket| - 1 then bucket[..|bucket| - 1] else bucket[..|bucket| - 1][j := kv];
    if j < |bucket| - 1 {
      SumFreqUpdate(bucket[..|bucket| - 1], j, kv);
    }
  }

  lemma {:induction false} TotalFreqUpdate(buckets: seq<seq<KV>>, b: nat, x: seq<KV>)
    requires b < |buckets|
    ensures TotalFreq(buckets[b := x]) + SumFreq(buckets[b]) == TotalFreq(buckets) + SumFreq(x)
    decreases |buckets|
  {
    var u := buckets[b := x];
    if b > 0 {
      assert u[1..] == buckets[1..][b - 1 := x];
      TotalFreqUpdate(buckets[1..], b - 1, x);
    } else {
      assert u[1..] == buckets[1..];
    }
  }

  /** Bumping a bucket keeps every (key, value) it already held findable and adds
      (key, value). */
  lemma BumpFacts(bucket: seq<KV>, key: bv32, value: seq<Byte>)
    ensures FindEntry(Bump(bucket, key, value), key, value).Some?
    ensures forall k: bv32, v: seq<Byte> :: FindEntry(bucket, k, v).Some? ==> FindEntry(Bump(bucket, key, value), k, v).Some?
  {
    var nb := Bump(bucket, key, value);
    if FindEntry(bucket, key, value).None? {
      assert nb[|bucket|].key == key && nb[|bucket|].value == value;
    }
    forall k: bv32, v: seq<Byte> | FindEntry(bucket, k, v).Some?
      ensures FindEntry(nb, k, v).Some?
    {
      var i := FindEntry(bucket, k, v).value;
      assert nb[i].key == k && nb[i].value == v;
    }
  }

  /** Bumping a bucket raises its total count by one. */
  lemma BumpSum(bucket: seq<KV>, key: bv32, value: seq<Byte>)
    ensures SumFreq(Bump(bucket, key, value)) == SumFreq(bucket) + 1
  {
    var nb := Bump(bucket, key, value);
    match FindEntry(bucket, key, value)
    case Some(j) =>
      SumFreqUpdate(bucket, j, bucket[j].(freq := bucket[j].freq + 1));
    case None =>
      assert nb[..|nb| - 1] == bucket;
  }

  /** The bucket array after one append of (key, value). */
  function Bumped(buckets: seq<seq<KV>>, key: bv32, value: seq<Byte>): seq<seq<KV>>
    requires |buckets| == BucketCount
  {
    var b := BucketOf(key, BucketCount);
    buckets[b := Bump(buckets[b], key, value)]
  }

  lemma StepPlaced(buckets: seq<seq<KV>>, key: bv32, value: seq<Byte>)
    requires |buckets| == BucketCount && Placed(buckets)
    ensures Placed(Bumped(buckets, key, value))
  {
    var b := BucketOf(key, BucketCount);
    var prior: seq<KV> := buckets[b];
    var bs: seq<seq<KV>> := Bumped(buckets, key, value);
    forall c: int, j: int | 0 <= c < |bs| && 0 <= j < |bs[c]|
      ensures BucketOf(bs[c][j].key, BucketCount) == c
    {
      if c != b {
        assert bs[c][j] == buckets[c][j];
      } else if j < |prior| {
        assert bs[c][j].key == prior[j].key;
      }
    }
  }

  lemma StepUnique(buckets: seq<seq<KV>>, key: bv32, value: seq<Byte>)
    requires |buckets| == BucketCount && Unique(buckets)
    ensures Unique(Bumped(buckets, key, value))
  {
    var b := BucketOf(key, BucketCount);
    var prior: seq<KV> := buckets[b];
    var bs: seq<seq<KV>> := Bumped(buckets, key, value);
    var found := FindEntry(prior, key, value);
    forall c: int, j: int, j': int | 0 <= c < |bs| && 0 <= j < j' < |bs[c]|
      ensures !(bs[c][j].key == bs[c][j'].key && bs[c][j].value == bs[c][j'].value)
    {
      if c != b {
        assert bs[c] == buckets[c];
      } else if found.Some? {
        assert bs[c][j].key == prior[j].key && bs[c][j].value == prior[j].value;
        assert bs[c][j'].key == prior[j'].key && bs[c][j'].value == prior[j'].value;
      } else if j' < |prior| {
        assert bs[c][j] == prior[j] && bs[c][j'] == prior[j'];
      } else {
        assert bs[c][j] == prior[j];
      }
    }
  }

  lemma StepPositive(buckets: seq<seq<KV>>, key: bv32, value: seq<Byte>)
    requires |buckets| == BucketCount && Positive(buckets)
    ensures Positive(Bumped(buckets, key, value))
  {
    var b := BucketOf(key, BucketCount);
    var prior: seq<KV> := buckets[b];
    var bs: seq<seq<KV>> := Bumped(buckets, key, value);
    forall c: int, j: int | 0 <= c < |bs| && 0 <= j < |bs[c]|
      ensures bs[c][j].freq >= 1
    {
      if c != b {
        assert bs[c][j] == buckets[c][j];
      } else if j < |prior| {
        assert bs[c][j].freq >= prior[j].freq;
      }
    }
  }

  /** Counting one more (key, value) in the history. */
  lemma OccSnoc(history: seq<(bv32, seq<Byte>)>, y: (bv32, seq<Byte>), x: (bv32, seq<Byte>))
    ensures Occ(history + [y], x) == Occ(history, x) + (if x == y then 1 else 0)
  {
    assert (history + [y])[..|history|] == history;
  }

  /** A bucket the appended key does not select keeps its counts. */
  lemma OtherBucketCounted(bucket: seq<KV>, history: seq<(bv32, seq<Byte>)>, key: bv32, value: seq<Byte>)
    requires BucketCounted(bucket, history)
    requires forall j :: 0 <= j < |bucket| ==> bucket[j].key != key
    ensures BucketCounted(bucket, history + [(key, value)])
  {
    forall j | 0 <= j < |bucket|
      ensures bucket[j].freq == Occ(history + [(key, value)], (bucket[j].key, bucket[j].value))
    {
      OccSnoc(history, (key, value), (bucket[j].key, bucket[j].value));
    }
  }

  /** The selected bucket's counts follow the append. */
  lemma BumpCounted(bucket: seq<KV>, history: seq<(bv32, seq<Byte>)>, key: bv32, value: seq<Byte>)
    requires BucketCounted(bucket, history)
    requires forall j, j' :: 0 <= j < j' < |bucket| ==>
      !(bucket[j].key == bucket[j'].key && bucket[j].value == bucket[j'].value)
    requires FindEntry(bucket, key, value).None? ==> Occ(history, (key, value)) == 0
    ensures BucketCounted(Bump(bucket, key, value), history + [(key, value)])
  {
    var nb := Bump(bucket, key, value);
    var h := history + [(key, value)];
    var found := FindEntry(bucket, key, value);
    forall j | 0 <= j < |nb|
      ensures nb[j].freq == Occ(h, (nb[j].key, nb[j].value))
    {
      OccSnoc(history, (key, value), (nb[j].key, nb[j].value));
      if found.Some? {
        if j != found.value {
          assert nb[j] == bucket[j];
          assert !(bucket[j].key == key && bucket[j].value == value);
        }
      } else if j < |bucket| {
        assert nb[j] == bucket[j];
      }
    }
  }

  lemma StepCounted(buckets: seq<seq<KV>>, history: seq<(bv32, seq<Byte>)>, key: bv32, value: seq<Byte>)
    requires |buckets| == BucketCount && Placed(buckets) && Unique(buckets)
    requires Counted(buckets, history) && Covered(buckets, history)
    ensures Counted(Bumped(buckets, key, value), history + [(key, value)])
  {
    var b := BucketOf(key, BucketCount);
    var prior: seq<KV> := buckets[b];
    var bs: seq<seq<KV>> := Bumped(buckets, key, value);
    if FindEntry(prior, key, value).None? {
      assert forall k :: 0 <= k < |history| ==> history[k] != (key, value);
      OccPositive(history, (key, value));
    }
    forall c | 0 <= c < |bs|
      ensures BucketCounted(bs[c], history + [(key, value)])
    {
      if c != b {
        assert bs[c] == buckets[c];
        assert forall j :: 0 <= j < |buckets[c]| ==> BucketOf(buckets[c][j].key, BucketCount) == c;
        OtherBucketCounted(buckets[c], history, key, value);
      } else {
        BumpCounted(prior, history, key, value);
      }
    }
  }

  lemma StepCovered(buckets: seq<seq<KV>>, history: seq<(bv32, seq<Byte>)>, key: bv32, value: seq<Byte>)
    requires |buckets| == BucketCount && Covered(buckets, history)
    ensures |Bumped(buckets, key, value)| == BucketCount
    ensures Covered(Bumped(buckets, key, value), history + [(key, value)])
  {
    var b := BucketOf(key, BucketCount);
    var bs: seq<seq<KV>> := Bumped(buckets, key, value);
    var h := history + [(key, value)];
    BumpFacts(buckets[b], key, value);
    forall k: int | 0 <= k < |h|
      ensures FindEntry(bs[BucketOf(h[k].0, BucketCount)], h[k].0, h[k].1).Some?
    {
      if k < |history| {
        assert h[k] == history[k];
      }
    }
  }

  /** One append keeps the invariant, with the appended value added to the history. */
  lemma ConsistentStep(buckets: seq<seq<KV>>, history: seq<(bv32, seq<Byte>)>, key: bv32, value: seq<Byte>)
    requires Consistent(buckets, history)
    ensures Consistent(Bumped(buckets, key, value), history + [(key, value)])
  {
    var b := BucketOf(key, BucketCount);
    StepPlaced(buckets, key, value);
    StepUnique(buckets, key, value);
    StepPositive(buckets, key, value);
    StepCounted(buckets, history, key, value);
    StepCovered(buckets, history, key, value);
    BumpSum(buckets[b], key, value);
    TotalFreqUpdate(buckets, b, Bump(buckets[b], key, value));
  }

  lemma {:induction false} TotalFreqEmpty(buckets: seq<seq<KV>>)
    requires forall b :: 0 <= b < |buckets| ==> buckets[b] == []
    ensures TotalFreq(buckets) == 0
    decreases |buckets|
  {
    if buckets != [] {
      TotalFreqEmpty(buckets[1..]);
    }
  }

  /** Writing the bumped bucket back is the step Bumped describes, and it keeps the table
      consistent with the longer history. */
  lemma StoreBumped(buckets: seq<seq<KV>>, history: seq<(bv32, seq<Byte>)>, key: bv32, value: seq<Byte>,
                    updated: seq<KV>)
    requires Consistent(buckets, history)
    requires updated == Bump(buckets[BucketOf(key, BucketCount)], key, value)
    ensures buckets[BucketOf(key, BucketCount) := updated] == Bumped(buckets, key, value)
    ensures Consistent(Bumped(buckets, key, value), history + [(key, value)])
  {
    ConsistentStep(buckets, history, key, value);
  }

  /** The lookup loop of chaos_table_append and what follows it: the first entry with this
      hash and an equal value (the C code compares the strings with strcmp) has its count
      raised by one; without one, the value is pushed with count 1. */
  method BumpBucket(bucket: seq<KV>, key: bv32, value: seq<Byte>) returns (updated: seq<KV>)
    ensures updated == Bump(bucket, key, value)
  {
    var i := 0;
    while i < |bucket|
      invariant i <= |bucket|
      invariant forall k :: 0 <= k < i ==> !(bucket[k].key == key && bucket[k].value == value)
    {
      if bucket[i].key == key && bucket[i].value == value {
        assert FindEntry(bucket, key, value) == Some(i);
        updated := bucket[i := bucket[i].(freq := bucket[i].freq + 1)];
        return;
      }
      i := i + 1;
    }
    updated := bucket + [KV(key, value, 1)];
  }

  /** The 16 empty buckets calloc hands back. */
  function EmptyBuckets(): (bs: seq<seq<KV>>)
    ensures |bs| == BucketCount && Consistent(bs, [])
    ensures forall b :: 0 <= b < |bs| ==> bs[b] == []
  {
    var bs: seq<seq<KV>> := seq(BucketCount, _ => []);
    TotalFreqEmpty(bs);
    bs
  }

  /** The buckets of a fresh table after appending every entry of `history`, in order. */
  ghost function Replayed(history: seq<(bv32, seq<Byte>)>): (bs: seq<seq<KV>>)
    ensures |bs| == BucketCount
  {
    if history == [] then EmptyBuckets()
    else
      var n := |history| - 1;
      Bumped(Replayed(history[..n]), history[n].0, history[n].1)
  }

  /** Replaying a history gives buckets that satisfy the invariant for it. */
  lemma {:induction false} ReplayedConsistent(history: seq<(bv32, seq<Byte>)>)
    ensures Consistent(Replayed(history), history)
  {
    if history != [] {
      var n := |history| - 1;
      var prior, key, value := history[..n], history[n].0, history[n].1;
      assert prior + [(key, value)] == history;
      ReplayedConsistent(prior);
      ConsistentStep(Replayed(prior), prior, key, value);
    }
  }

  /** chaos_Table. `items == null` (and `count == 0`) until the first append. The ghost
      `History` lists every value appended so far, paired with its hash. */
  class Table {
    var items: array?<seq<KV>>
    var count: nat
    ghost var History: seq<(bv32, seq<Byte>)>

    ghost predicate Valid()
      reads this, items
    {
      (items == null ==> count == 0 && History == []) &&
      (items != null ==> count == BucketCount && items.Length == BucketCount && Consistent(items[..], History))
    }

    /** The buckets, with a table that has none yet read as 16 empty ones. */
    ghost function Buckets(): seq<seq<KV>>
      reads this, items
    {
      if items == null then EmptyBuckets() else items[..]
    }

    /** The C initialiser `{0}`. */
    constructor ()
      ensures Valid() && items == null && count == 0 && History == []
    {
      items := null;
      count := 0;
      History := [];
    }

    /** The first append callocs the 16 buckets; later ones find them in place. */
    method Allocate()
      requires Valid()
      modifies this
      ensures Valid() && items != null && History == old(History) && Buckets() == old(Buckets())
      ensures old(items) != null ==> items == old(items)
      ensures old(items) == null ==> fresh(items)
    {
      if items == null {
        count := BucketCount;
        items := new seq<KV>[BucketCount](_ => []);
        assert items[..] == EmptyBuckets();
      }
    }

    /** The body of chaos_table_append once the hash is known: bump the value's entry in
        bucket `key % count`. Every other bucket is unchanged. */
    method Insert(key: bv32, value: seq<Byte>)
      requires Valid() && items != null
      modifies this, items
      ensures Valid() && items == old(items)
      ensures History == old(History) + [(key, value)]
      ensures items[..] == Bumped(old(items[..]), key, value)
    {
      ghost var before := items[..];
      ghost var history := History;
      var b := BucketOf(key, count);
      var updated := BumpBucket(items[b], key, value);
      items[b] := updated;
      History := history + [(key, value)];
      assert items[..] == before[b := updated];
      StoreBumped(before, history, key, value, updated);
    }

    /** chaos_table_append: hash the first `len` bytes, look the value up in its bucket, and
        count it once more, or store it with count 1. */
    method Append(value: seq<Byte>, len: nat)
      requires Valid() && len <= |value|
      modifies this, items
      ensures Valid() && items != null
      ensures old(items) != null ==> items == old(items)
      ensures old(items) == null ==> fresh(items)
      ensures History == old(History) + [(Djb33(value[..len]), value)]
      ensures Buckets() == Bumped(old(Buckets()), Djb33(value[..len]), value)
    {
      Allocate();
      ghost var before := items[..];
      var key := Djb33Hash(value, len);
      Insert(key, value);
      assert Buckets() == items[..];
    }
  }

  /** chaos_table_index: the bucket a value is stored in. */
  function TableIndex(t: Table, value: seq<Byte>, len: nat): (r: nat)
    reads t
    requires t.count > 0 && len <= |value|
    ensures r < t.count
  {
    BucketOf(Djb33(value[..len]), t.count)
  }

  /** Every value appended to a table is found in the bucket chaos_table_index names. */
  lemma TableIndexLocates(t: Table, value: seq<Byte>, len: nat)
    requires t.Valid() && len <= |value|
    requires (Djb33(value[..len]), value) in t.History
    ensures t.items != null && t.count > 0
    ensures FindEntry(t.items[TableIndex(t, value, len)], Djb33(value[..len]), value).Some?
  {
    var k :| 0 <= k < |t.History| && t.History[k] == (Djb33(value[..len]), value);
  }

  /** After `n` appends of one value (with one `len`) the table counts it `n` times: the
      count is exactly its number of occurrences in the history. */
  lemma CountIsAppends(t: Table, value: seq<Byte>, len: nat)
    requires t.Valid() && t.items != null && len <= |value|
    ensures var key := Djb33(value[..len]);
      match FindEntry(t.items[BucketOf(key, BucketCount)], key, value)
      case Some(j) => t.items[BucketOf(key, BucketCount)][j].freq == Occ(t.History, (key, value))
      case None => Occ(t.History, (key, value)) == 0
    ensures var key := Djb33(value[..len]);
      FindEntry(t.items[BucketOf(key, BucketCount)], key, value).None? <==> Occ(t.History, (key, value)) == 0
  {
    var key := Djb33(value[..len]);
    var b := BucketOf(key, BucketCount);
    assert t.items[..][b] == t.items[b];
    if FindEntry(t.items[b], key, value).None? {
      assert forall k :: 0 <= k < |t.History| ==> t.History[k] != (key, value);
      OccPositive(t.History, (key, value));
    }
  }
}
