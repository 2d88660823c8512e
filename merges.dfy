/** Merge records, the decoding they define, and the greedy left-to-right pair replacement
    the trainer applies once per accepted merge (bpe.c). */
module Merges {
  import opened Common

  /** One accepted merge: the adjacent pair (left, right) became `token`. */
  datatype Merge = Merge(left: nat, right: nat, token: nat)

  /** Ids below this one stand for themselves: the raw bytes. */
  const FirstMergeId: nat := 256

  /** The last record producing `token`; decode_token scans the list from the back. */
  function FindLast(merges: seq<Merge>, token: nat): (r: Option<nat>)
    ensures r.Some? ==> r.value < |merges| && merges[r.value].token == token
    ensures r.Some? ==> forall k :: r.value < k < |merges| ==> merges[k].token != token
    ensures r.None? <==> forall k :: 0 <= k < |merges| ==> merges[k].token != token
  {
    if merges == [] then None
    else if merges[|merges| - 1].token == token then Some(|merges| - 1)
    else FindLast(merges[..|merges| - 1], token)
  }

  /** Each record's halves are smaller ids than the one it produces, so decoding terminates. */
  predicate Acyclic(merges: seq<Merge>)
  {
    forall k :: 0 <= k < |merges| ==> merges[k].left < merges[k].token && merges[k].right < merges[k].token
  }

  /** The merge history the trainer builds: the k-th record produces 256 + k from ids below it. */
  predicate Sequential(merges: seq<Merge>)
  {
    forall k :: 0 <= k < |merges| ==>
      merges[k].token == FirstMergeId + k && merges[k].left < FirstMergeId + k && merges[k].right < FirstMergeId + k
  }

  /** In the trainer's history every id below the next one to hand out is a byte or is
      produced by a record, the one at index `id - 256`, which decode_token finds. */
  lemma RecordedId(merges: seq<Merge>, id: nat)
    requires Sequential(merges) && id < FirstMergeId + |merges|
    ensures id >= FirstMergeId ==> FindLast(merges, id) == Some(id - FirstMergeId)
  {
    if id >= FirstMergeId {
      assert merges[id - FirstMergeId].token == id;
    }
  }

  /** The bytes decode_token appends for `token`: a raw byte for an id below 256, the
      expansion of `left` then of `right` for an id a record produces, nothing otherwise. */
  function Expand(token: nat, merges: seq<Merge>): seq<Byte>
    requires Acyclic(merges)
    decreases token
  {
    if token < FirstMergeId then [token as Byte]
    else match FindLast(merges, token)
      case None => []
      case Some(i) => Expand(merges[i].left, merges) + Expand(merges[i].right, merges)
  }

  /** The bytes of a whole token sequence, token after token. */
  function ExpandSeq(tokens: seq<nat>, merges: seq<Merge>): seq<Byte>
    requires Acyclic(merges)
  {
    if tokens == [] then [] else ExpandSeq(tokens[..|tokens| - 1], merges) + Expand(tokens[|tokens| - 1], merges)
  }

  lemma {:induction false} ExpandSeqAppend(s: seq<nat>, t: seq<nat>, merges: seq<Merge>)
    requires Acyclic(merges)
    ensures ExpandSeq(s + t, merges) == ExpandSeq(s, merges) + ExpandSeq(t, merges)
    decreases |t|
  {
    if t == [] {
      assert s + t == s;
    } else {
      var init, last := t[..|t| - 1], t[|t| - 1];
      assert (s + t)[..|s + t| - 1] == s + init;
      assert (s + t)[|s + t| - 1] == last;
      ExpandSeqAppend(s, init, merges);
      var x, y, z := ExpandSeq(s, merges), ExpandSeq(init, merges), Expand(last, merges);
      assert (x + y) + z == x + (y + z);
    }
  }

  lemma ExpandSeqCons(x: nat, t: seq<nat>, merges: seq<Merge>)
    requires Acyclic(merges)
    ensures ExpandSeq([x] + t, merges) == Expand(x, merges) + ExpandSeq(t, merges)
  {
    ExpandSeqAppend([x], t, merges);
    assert [x][..0] == [];
  }

  /** Appending the next record leaves the decoding of every existing id unchanged. */
  lemma {:induction false} ExpandExtend(id: nat, merges: seq<Merge>, m: Merge)
    requires Sequential(merges)
    requires m.token == FirstMergeId + |merges| && m.left < m.token && m.right < m.token
    requires id < m.token
    ensures Sequential(merges + [m])
    ensures Expand(id, merges + [m]) == Expand(id, merges)
    decreases id
  {
    var ms := merges + [m];
    assert Sequential(ms);
    if id >= FirstMergeId {
      assert ms[..|ms| - 1] == merges;
      assert FindLast(ms, id) == FindLast(merges, id);
      match FindLast(merges, id)
      case None =>
      case Some(i) =>
        ExpandExtend(merges[i].left, merges, m);
        ExpandExtend(merges[i].right, merges, m);
    }
  }

  /** The new record decodes to the decodings of its two halves. */
  lemma ExpandNewRecord(merges: seq<Merge>, m: Merge)
    requires Sequential(merges)
    requires m.token == FirstMergeId + |merges| && m.left < m.token && m.right < m.token
    ensures Sequential(merges + [m])
    ensures Expand(m.token, merges + [m]) == Expand(m.left, merges) + Expand(m.right, merges)
  {
    ExpandExtend(m.left, merges, m);
    ExpandExtend(m.right, merges, m);
  }

  /** Under a trainer-built history every id in use decodes to at least one byte, and every
      merge id to at least two. */
  lemma {:induction false} ExpandNonEmpty(id: nat, merges: seq<Merge>)
    requires Sequential(merges) && id < FirstMergeId + |merges|
    ensures |Expand(id, merges)| >= 1
    ensures id >= FirstMergeId ==> |Expand(id, merges)| >= 2
    decreases id
  {
    if id >= FirstMergeId {
      var k := id - FirstMergeId;
      assert merges[k].token == id;
      var i := FindLast(merges, id).value;
      ExpandNonEmpty(merges[i].left, merges);
      ExpandNonEmpty(merges[i].right, merges);
    }
  }

  /** (a, b) occurs at adjacent positions of `s`. */
  predicate Occurs(s: seq<nat>, a: nat, b: nat)
  {
    exists i :: 0 <= i < |s| - 1 && s[i] == a && s[i + 1] == b
  }

  /** The sequence bpe.c builds in `next`: scanning left to right, each (a, b) at the current
      position becomes `n` and the scan moves two places; any other token is copied. */
  function Replace(s: seq<nat>, a: nat, b: nat, n: nat): seq<nat>
    decreases |s|
  {
    if |s| < 2 then s
    else if s[0] == a && s[1] == b then [n] + Replace(s[2..], a, b, n)
    else [s[0]] + Replace(s[1..], a, b, n)
  }

  /** The number of replacements the greedy scan makes. */
  function Replacements(s: seq<nat>, a: nat, b: nat): nat
    decreases |s|
  {
    if |s| < 2 then 0
    else if s[0] == a && s[1] == b then 1 + Replacements(s[2..], a, b)
    else Replacements(s[1..], a, b)
  }

  /** Each replacement shortens the sequence by one; there is at least one exactly when the
      pair occurs, and with none the sequence is returned unchanged. */
  lemma {:induction false} ReplaceLength(s: seq<nat>, a: nat, b: nat, n: nat)
    ensures |Replace(s, a, b, n)| == |s| - Replacements(s, a, b)
    ensures Replacements(s, a, b) > 0 <==> Occurs(s, a, b)
    ensures !Occurs(s, a, b) ==> Replace(s, a, b, n) == s
    decreases |s|
  {
    if |s| >= 2 {
      if s[0] == a && s[1] == b {
        ReplaceLength(s[2..], a, b, n);
      } else {
        ReplaceLength(s[1..], a, b, n);
        OccursTail(s, a, b);
      }
    }
  }

  /** Without the pair at the front, it occurs in `s` exactly when it occurs in the tail. */
  lemma OccursTail(s: seq<nat>, a: nat, b: nat)
    requires |s| >= 2 && !(s[0] == a && s[1] == b)
    ensures Occurs(s, a, b) <==> Occurs(s[1..], a, b)
  {
    if Occurs(s, a, b) {
      var i :| 0 <= i < |s| - 1 && s[i] == a && s[i + 1] == b;
      assert s[1..][i - 1] == a && s[1..][i] == b;
    }
    if Occurs(s[1..], a, b) {
      var i :| 0 <= i < |s[1..]| - 1 && s[1..][i] == a && s[1..][i + 1] == b;
      assert s[i + 1] == a && s[i + 2] == b;
    }
  }

  /** With `n` distinct from `a` and `b`, no (a, b) is left adjacent after the scan. */
  lemma {:induction false} ReplaceRemovesPair(s: seq<nat>, a: nat, b: nat, n: nat)
    requires n != a && n != b
    ensures !Occurs(Replace(s, a, b, n), a, b)
    ensures |s| > 0 ==> |Replace(s, a, b, n)| > 0 && Replace(s, a, b, n)[0] == (if |s| >= 2 && s[0] == a && s[1] == b then n else s[0])
    decreases |s|
  {
    if |s| >= 2 {
      var r := Replace(s, a, b, n);
      if s[0] == a && s[1] == b {
        ReplaceRemovesPair(s[2..], a, b, n);
        var t := Replace(s[2..], a, b, n);
        assert r == [n] + t;
        forall i | 0 <= i < |r| - 1
          ensures !(r[i] == a && r[i + 1] == b)
        {
          if i > 0 {
            assert r[i] == t[i - 1] && r[i + 1] == t[i];
          }
        }
      } else {
        ReplaceRemovesPair(s[1..], a, b, n);
        var t := Replace(s[1..], a, b, n);
        assert r == [s[0]] + t;
        forall i | 0 <= i < |r| - 1
          ensures !(r[i] == a && r[i + 1] == b)
        {
          if i > 0 {
            assert r[i] == t[i - 1] && r[i + 1] == t[i];
          }
        }
      }
    }
  }

  /** Expanding every `n` back into (a, b): the inverse of the replacement. */
  function Unmerge(s: seq<nat>, a: nat, b: nat, n: nat): seq<nat>
  {
    if s == [] then []
    else (if s[0] == n then [a, b] else [s[0]]) + Unmerge(s[1..], a, b, n)
  }

  /** When `n` is fresh (not already in `s`), undoing the replacement gives `s` back, so the
      tokens other than the replaced pairs keep their values and their order. */
  lemma {:induction false} ReplaceUnmerge(s: seq<nat>, a: nat, b: nat, n: nat)
    requires n !in s
    ensures Unmerge(Replace(s, a, b, n), a, b, n) == s
    decreases |s|
  {
    if |s| >= 2 {
      if s[0] == a && s[1] == b {
        ReplaceUnmerge(s[2..], a, b, n);
        assert s == [a, b] + s[2..];
      } else {
        ReplaceUnmerge(s[1..], a, b, n);
        assert s == [s[0]] + s[1..];
      }
    } else if |s| == 1 {
      assert s[1..] == [];
    }
  }

  /** One step of the round trip: a head token kept (or produced) in front of a tail whose
      decoding is already known to be preserved. */
  lemma ExpandSeqHead(x: nat, rx: seq<nat>, y: seq<nat>, ry: seq<nat>, merges: seq<Merge>, ms: seq<Merge>)
    requires Acyclic(merges) && Acyclic(ms)
    requires Expand(x, ms) == ExpandSeq(rx, merges)
    requires ExpandSeq(y, ms) == ExpandSeq(ry, merges)
    ensures ExpandSeq([x] + y, ms) == ExpandSeq(rx + ry, merges)
  {
    ExpandSeqCons(x, y, ms);
    ExpandSeqAppend(rx, ry, merges);
  }

  lemma ExpandSeqSingle(x: nat, merges: seq<Merge>)
    requires Acyclic(merges)
    ensures ExpandSeq([x], merges) == Expand(x, merges)
  {
    ExpandSeqCons(x, [], merges);
    assert [x] + [] == [x];
  }

  lemma ExpandSeqPair(a: nat, b: nat, merges: seq<Merge>)
    requires Acyclic(merges)
    ensures ExpandSeq([a, b], merges) == Expand(a, merges) + Expand(b, merges)
  {
    ExpandSeqCons(a, [b], merges);
    ExpandSeqSingle(b, merges);
    assert [a] + [b] == [a, b];
  }

  /** The first step of the scan when (a, b) stands at the front. */
  lemma PreserveReplaced(s: seq<nat>, merges: seq<Merge>, m: Merge)
    requires Sequential(merges)
    requires m.token == FirstMergeId + |merges| && m.left < m.token && m.right < m.token
    requires |s| >= 2 && s[0] == m.left && s[1] == m.right
    requires Acyclic(merges + [m])
    requires ExpandSeq(Replace(s[2..], m.left, m.right, m.token), merges + [m]) == ExpandSeq(s[2..], merges)
    ensures ExpandSeq(Replace(s, m.left, m.right, m.token), merges + [m]) == ExpandSeq(s, merges)
  {
    ExpandNewRecord(merges, m);
    ExpandSeqPair(m.left, m.right, merges);
    ExpandSeqHead(m.token, [m.left, m.right], Replace(s[2..], m.left, m.right, m.token), s[2..], merges, merges + [m]);
    assert s == [m.left, m.right] + s[2..];
  }

  /** The first step of the scan when the front token is copied. */
  lemma PreserveCopied(s: seq<nat>, merges: seq<Merge>, m: Merge)
    requires Sequential(merges)
    requires m.token == FirstMergeId + |merges| && m.left < m.token && m.right < m.token
    requires |s| >= 2 && !(s[0] == m.left && s[1] == m.right) && s[0] < m.token
    requires Acyclic(merges + [m])
    requires ExpandSeq(Replace(s[1..], m.left, m.right, m.token), merges + [m]) == ExpandSeq(s[1..], merges)
    ensures ExpandSeq(Replace(s, m.left, m.right, m.token), merges + [m]) == ExpandSeq(s, merges)
  {
    ExpandExtend(s[0], merges, m);
    ExpandSeqSingle(s[0], merges);
    ExpandSeqHead(s[0], [s[0]], Replace(s[1..], m.left, m.right, m.token), s[1..], merges, merges + [m]);
    assert s == [s[0]] + s[1..];
  }

  /** The replacement and its new record together preserve the decoded bytes: the heart of
      the round trip. */
  lemma {:induction false} ReplacePreservesExpansion(s: seq<nat>, merges: seq<Merge>, a: nat, b: nat)
    requires Sequential(merges)
    requires a < FirstMergeId + |merges| && b < FirstMergeId + |merges|
    requires forall i :: 0 <= i < |s| ==> s[i] < FirstMergeId + |merges|
    ensures Sequential(merges + [Merge(a, b, FirstMergeId + |merges|)])
    ensures ExpandSeq(Replace(s, a, b, FirstMergeId + |merges|), merges + [Merge(a, b, FirstMergeId + |merges|)])
         == ExpandSeq(s, merges)
    decreases |s|
  {
    var m := Merge(a, b, FirstMergeId + |merges|);
    ExpandNewRecord(merges, m);
    if |s| == 1 {
      ExpandExtend(s[0], merges, m);
      ExpandSeqSingle(s[0], merges);
      ExpandSeqSingle(s[0], merges + [m]);
    } else if |s| >= 2 && s[0] == a && s[1] == b {
      ReplacePreservesExpansion(s[2..], merges, a, b);
      PreserveReplaced(s, merges, m);
    } else if |s| >= 2 {
      ReplacePreservesExpansion(s[1..], merges, a, b);
      PreserveCopied(s, merges, m);
    }
  }

  /** Every token of a replaced sequence is an old token or the new id. */
  lemma {:induction false} ReplaceBound(s: seq<nat>, a: nat, b: nat, n: nat, bound: nat)
    requires forall i :: 0 <= i < |s| ==> s[i] < bound
    requires n < bound
    ensures forall i :: 0 <= i < |Replace(s, a, b, n)| ==> Replace(s, a, b, n)[i] < bound
    decreases |s|
  {
    if |s| >= 2 {
      if s[0] == a && s[1] == b {
        ReplaceBound(s[2..], a, b, n, bound);
      } else {
        ReplaceBound(s[1..], a, b, n, bound);
      }
    }
  }
}
