// The layout invariant shared by the packet ring of PacketBuffer.c and its
// C++ draft c++/Queue.cpp. The ring is an array of 16-bit slots; a record
// is a state word followed by its payload. The live records form a chain
// from the slowest reader (OutputReader) to the writer (NextWriter): each
// record's successor is found from its length, or is slot 0 after a
// StartOver mark. The chain wraps at most once, and after a wrap the writer
// stays strictly before the slowest reader, so the EndOfRing word at the
// writer is never overwritten by live data.
module RingChain {
  import opened PacketState
  import Helper

  /** Bytes per slot: sizeof(Packet_t) on the AVR target, where uint32_t is byte-aligned. */
  const SlotBytes: nat := 2

  /** A bound on the ring's slots that keeps every record's length below the Length mask. */
  const MaxSlots: nat := 0x1000

  /** getNextPacket: the slot after a record of len payload bytes at slot p; hdr is the
      header size counted in (2 in PacketBuffer.c, 0 in c++/Queue.cpp). */
  function Next(p: nat, len: nat, hdr: nat): (q: nat)
    ensures q >= p
    ensures 2 * (q - p) >= len + hdr
    ensures q == p || 2 * (q - p - 1) < len + hdr
    ensures len + hdr > 0 ==> q > p
  {
    p + Helper.DivRoundUp(len + hdr, SlotBytes)
  }

  /** The slot a reader moves to from the record at p. */
  function Succ(m: seq<Word>, p: nat, hdr: nat): nat
    requires p < |m|
  {
    if m[p] == StartOver then 0 else Next(p, GetLen(m[p]), hdr)
  }

  function Last(chain: seq<nat>): nat
    requires |chain| > 0
  {
    chain[|chain| - 1]
  }

  /**
   * The ring invariant over the slot memory m.
   *  - chain lists the record slots from OutputReader (chain[0]) to NextWriter (its last entry);
   *  - the records before index wrap ascend from OutputReader; the one at wrap - 1 is the
   *    StartOver mark when wrap < |chain|, and the records from wrap on ascend from slot 0;
   *  - after a wrap the writer is strictly before OutputReader;
   *  - inIdx is InputReader's index; the input reader only passes records with the Output bit;
   *  - the writer's slot holds EndOfRing.
   */
  ghost predicate Inv(m: seq<Word>, hdr: nat, chain: seq<nat>, wrap: nat, inIdx: nat)
  {
    && |chain| >= 1 && 0 < wrap <= |chain| && inIdx < |chain|
    && (forall i :: 0 <= i < |chain| ==> chain[i] < |m|)
    && (forall i :: 0 <= i < |chain| - 1 ==> Succ(m, chain[i], hdr) == chain[i + 1])
    && (forall i :: 0 <= i < |chain| - 1 ==> (m[chain[i]] == StartOver <==> i == wrap - 1))
    && Ascending(chain, wrap)
    && (wrap < |chain| ==> wrap < |chain| - 1 && Last(chain) < chain[0])
    && (forall i :: 0 <= i < inIdx ==> HasOutput(m[chain[i]]))
    && m[Last(chain)] == EndOfRing
  }

  /** Slots ascend from record to record, except for the step from index wrap - 1 (the
      StartOver mark) back to slot 0. */
  ghost predicate Ascending(chain: seq<nat>, wrap: nat)
  {
    forall i :: 0 <= i < |chain| - 1 && i != wrap - 1 ==> chain[i] < chain[i + 1]
  }

  /** Ascending steps add up: within the part before index wrap, and within the part from wrap
      on, a later record lies at a higher slot. */
  lemma {:induction false} Climb(chain: seq<nat>, wrap: nat, i: nat, j: nat)
    requires Ascending(chain, wrap) && i < j < |chain| && (j < wrap || wrap <= i)
    ensures chain[i] < chain[j]
    decreases j - i
  {
    if i + 1 < j {
      Climb(chain, wrap, i, j - 1);
    }
    assert chain[j - 1] < chain[j];
  }

  /** Record slots are distinct; the ring is unwrapped iff OutputReader <= NextWriter. */
  lemma Ordered(m: seq<Word>, hdr: nat, chain: seq<nat>, wrap: nat, inIdx: nat)
    requires Inv(m, hdr, chain, wrap, inIdx)
    ensures forall i, j :: 0 <= i < j < |chain| ==> chain[i] != chain[j]
    ensures wrap == |chain| <==> chain[0] <= Last(chain)
    ensures forall i :: 0 <= i < wrap ==> chain[0] <= chain[i]
    ensures forall i :: wrap <= i < |chain| ==> chain[i] <= Last(chain)
    ensures wrap == |chain| ==> forall i :: 0 <= i < |chain| ==> chain[i] <= Last(chain)
  {
    OrderedChain(chain, wrap);
  }

  /** The ordering facts that follow from the shape of the chain alone: two ascending runs, the
      second one wholly below the first. */
  lemma OrderedChain(chain: seq<nat>, wrap: nat)
    requires |chain| >= 1 && 0 < wrap <= |chain| && Ascending(chain, wrap)
    requires wrap < |chain| ==> wrap < |chain| - 1 && Last(chain) < chain[0]
    ensures forall i, j :: 0 <= i < j < |chain| ==> chain[i] != chain[j]
    ensures wrap == |chain| <==> chain[0] <= Last(chain)
    ensures forall i :: 0 <= i < wrap ==> chain[0] <= chain[i]
    ensures forall i :: wrap <= i < |chain| ==> chain[i] <= Last(chain)
    ensures wrap == |chain| ==> forall i :: 0 <= i < |chain| ==> chain[i] <= Last(chain)
  {
    var n := |chain|;
    forall i, j | 0 <= i < j < n && (j < wrap || wrap <= i)
      ensures chain[i] < chain[j]
    {
      Climb(chain, wrap, i, j);
    }
    assert forall i :: 0 < i < wrap ==> chain[0] < chain[i];
    assert forall i :: wrap <= i < n - 1 ==> chain[i] < chain[n - 1];
    if wrap == n && n > 1 {
      assert chain[0] < chain[n - 1];
    }
  }

  /** Where the oldest and the newest record lie relative to the others. */
  lemma Bounds(m: seq<Word>, hdr: nat, chain: seq<nat>, wrap: nat, inIdx: nat)
    requires Inv(m, hdr, chain, wrap, inIdx)
    ensures wrap == |chain| <==> chain[0] <= Last(chain)
    ensures forall i :: 0 <= i < wrap ==> chain[0] <= chain[i]
    ensures forall i :: wrap <= i < |chain| ==> chain[i] <= Last(chain)
    ensures wrap == |chain| ==> forall i :: 0 <= i < |chain| ==> chain[i] <= Last(chain)
  {
    Ordered(m, hdr, chain, wrap, inIdx);
  }

  /** No other record shares the slot of the record at index k. */
  lemma Apart(m: seq<Word>, hdr: nat, chain: seq<nat>, wrap: nat, inIdx: nat, k: nat)
    requires Inv(m, hdr, chain, wrap, inIdx) && k < |chain|
    ensures forall i :: 0 <= i < |chain| && i != k ==> chain[i] != chain[k]
  {
    Ordered(m, hdr, chain, wrap, inIdx);
  }

  /** The two readers share a slot exactly when they are at the same index. */
  lemma ReadersApart(m: seq<Word>, hdr: nat, chain: seq<nat>, wrap: nat, inIdx: nat)
    requires Inv(m, hdr, chain, wrap, inIdx)
    ensures chain[0] == chain[inIdx] <==> inIdx == 0
  {
    Apart(m, hdr, chain, wrap, inIdx, 0);
  }

  /** A record at slot p is unfinished: neither flag bit set. */
  predicate Unfinished(s: Word)
  {
    Flags(s) == EndOfRing
  }

  /** An unfinished record lies at or after InputReader and before the writer. */
  lemma UnfinishedAhead(m: seq<Word>, hdr: nat, chain: seq<nat>, wrap: nat, inIdx: nat, k: nat)
    requires Inv(m, hdr, chain, wrap, inIdx)
    requires k < |chain| - 1 && Unfinished(m[chain[k]])
    ensures inIdx <= k && k != wrap - 1
  {
    assert k < inIdx ==> HasOutput(m[chain[k]]);
    StartOverIsSkip();
  }

  /** Rewriting the state of one record in place keeps the chain when its successor stays. */
  lemma Restate(m: seq<Word>, m': seq<Word>, hdr: nat, chain: seq<nat>, wrap: nat, inIdx: nat, k: nat)
    requires Inv(m, hdr, chain, wrap, inIdx)
    requires |m'| == |m| && k < |chain| - 1
    requires forall i :: 0 <= i < |chain| && i != k ==> m'[chain[i]] == m[chain[i]]
    requires (m'[chain[k]] == StartOver) == (m[chain[k]] == StartOver)
    requires Succ(m', chain[k], hdr) == Succ(m, chain[k], hdr)
    requires k < inIdx ==> HasOutput(m'[chain[k]])
    ensures Inv(m', hdr, chain, wrap, inIdx)
  {
    forall i | 0 <= i < |chain| - 1
      ensures Succ(m', chain[i], hdr) == chain[i + 1]
    {
      if i != k {
        assert m'[chain[i]] == m[chain[i]];
      }
    }
  }

  /** Dropping the first k records (OutputReader moves forward over them); InputReader is
      dragged along when it is among them. */
  lemma Trim(m: seq<Word>, hdr: nat, chain: seq<nat>, wrap: nat, inIdx: nat, k: nat)
    requires Inv(m, hdr, chain, wrap, inIdx)
    requires k < |chain|
    ensures Inv(m, hdr, chain[k..], if k < wrap then wrap - k else |chain| - k, if k <= inIdx then inIdx - k else 0)
  {
    var c := chain[k..];
    var w := if k < wrap then wrap - k else |chain| - k;
    var ii := if k <= inIdx then inIdx - k else 0;
    forall i | 0 <= i < |c|
      ensures c[i] == chain[i + k] && c[i] < |m|
    {
    }
    forall i | 0 <= i < |c| - 1
      ensures Succ(m, c[i], hdr) == c[i + 1]
    {
      assert c[i] == chain[i + k] && c[i + 1] == chain[i + 1 + k];
    }
    forall i | 0 <= i < |c| - 1
      ensures m[c[i]] == StartOver <==> i == w - 1
    {
      assert c[i] == chain[i + k];
      assert m[chain[i + k]] == StartOver <==> i + k == wrap - 1;
    }
    forall i | 0 <= i < |c| - 1 && i != w - 1
      ensures c[i] < c[i + 1]
    {
      assert chain[i + k] < chain[i + k + 1];
    }
    forall i | 0 <= i < ii
      ensures HasOutput(m[c[i]])
    {
      assert c[i] == chain[i + k];
    }
    assert Last(c) == Last(chain);
    if w < |c| {
      Bounds(m, hdr, chain, wrap, inIdx);
      assert chain[0] <= chain[k];
    }
  }

  /** InputReader moves forward to index j over records that all carry the Output bit. */
  lemma PassInput(m: seq<Word>, hdr: nat, chain: seq<nat>, wrap: nat, inIdx: nat, j: nat)
    requires Inv(m, hdr, chain, wrap, inIdx)
    requires inIdx <= j < |chain|
    requires forall t :: inIdx <= t < j ==> HasOutput(m[chain[t]])
    ensures Inv(m, hdr, chain, wrap, j)
  {
  }

  /** A slot strictly inside the record at index k (k not the StartOver mark) is no record's slot. */
  lemma Inside(m: seq<Word>, hdr: nat, chain: seq<nat>, wrap: nat, inIdx: nat, k: nat, x: nat)
    requires Inv(m, hdr, chain, wrap, inIdx)
    requires k + 1 < |chain| && k != wrap - 1 && chain[k] < x < chain[k + 1]
    ensures forall i :: 0 <= i < |chain| ==> chain[i] != x
  {
    Bounds(m, hdr, chain, wrap, inIdx);
    forall i | 0 <= i < |chain|
      ensures chain[i] != x
    {
      if (i < wrap) == (k < wrap) {
        if i < k {
          Climb(chain, wrap, i, k);
        } else if k + 1 < i {
          Climb(chain, wrap, k + 1, i);
        }
      } else if i < wrap {
        assert chain[0] <= chain[i] && Last(chain) < chain[0];
      } else {
        assert chain[i] <= Last(chain) && chain[0] <= chain[k];
      }
    }
  }

  /** Records 0..k-1 keep their state words: their links, marks and flags carry over to c. */
  lemma KeepPrefix(m: seq<Word>, m': seq<Word>, hdr: nat, chain: seq<nat>, wrap: nat, inIdx: nat, c: seq<nat>, k: nat)
    requires Inv(m, hdr, chain, wrap, inIdx)
    requires |m'| == |m| && k < |chain| && k < |c|
    requires forall i :: 0 <= i <= k ==> c[i] == chain[i]
    requires forall i :: 0 <= i < k ==> m'[chain[i]] == m[chain[i]]
    ensures forall i :: 0 <= i < k ==> c[i] < |m'| && Succ(m', c[i], hdr) == c[i + 1]
    ensures forall i :: 0 <= i < k ==> (m'[c[i]] == StartOver <==> i == wrap - 1)
    ensures forall i :: 0 <= i < k && i < inIdx ==> HasOutput(m'[c[i]])
  {
    forall i | 0 <= i < k
      ensures c[i] < |m'| && Succ(m', c[i], hdr) == c[i + 1]
    {
      assert m'[chain[i]] == m[chain[i]];
    }
  }

  /** Allocating at the writer without wrapping: the new record ends at n, which gets EndOfRing. */
  lemma Append(m: seq<Word>, m': seq<Word>, hdr: nat, chain: seq<nat>, wrap: nat, inIdx: nat, n: nat, c: seq<nat>)
    requires Inv(m, hdr, chain, wrap, inIdx)
    requires |m'| == |m| && Last(chain) < n < |m|
    requires wrap < |chain| ==> n < chain[0]
    requires forall x :: 0 <= x < |m| && !(Last(chain) <= x <= n) ==> m'[x] == m[x]
    requires m'[Last(chain)] != StartOver && Succ(m', Last(chain), hdr) == n
    requires m'[n] == EndOfRing
    requires c == chain + [n]
    ensures Inv(m', hdr, c, if wrap == |chain| then wrap + 1 else wrap, inIdx)
  {
    var L := |chain| - 1;
    var w := if wrap == |chain| then wrap + 1 else wrap;
    BelowWriter(m, m', hdr, chain, wrap, inIdx, n);
    KeepPrefix(m, m', hdr, chain, wrap, inIdx, c, L);
    ExtendAscending(chain, wrap, |chain|, n, c);
    assert c[L] == Last(chain) && c[L + 1] == n;
    forall i | 0 <= i < |c| - 1
      ensures c[i] < |m'| && Succ(m', c[i], hdr) == c[i + 1]
      ensures m'[c[i]] == StartOver <==> i == w - 1
    {
      if i < L {
      } else {
      }
    }
  }

  /** The records before the writer lie outside [Last(chain), n]: their words are kept. */
  lemma BelowWriter(m: seq<Word>, m': seq<Word>, hdr: nat, chain: seq<nat>, wrap: nat, inIdx: nat, n: nat)
    requires Inv(m, hdr, chain, wrap, inIdx)
    requires |m'| == |m| && Last(chain) < n < |m|
    requires wrap < |chain| ==> n < chain[0]
    requires forall x :: 0 <= x < |m| && !(Last(chain) <= x <= n) ==> m'[x] == m[x]
    ensures forall i :: 0 <= i < |chain| - 1 ==> m'[chain[i]] == m[chain[i]]
  {
    var L := |chain| - 1;
    forall i | 0 <= i < L
      ensures m'[chain[i]] == m[chain[i]]
    {
      if wrap == |chain| || wrap <= i {
        Climb(chain, wrap, i, L);
      } else if 0 < i {
        Climb(chain, wrap, 0, i);
      }
    }
  }

  /** Allocating with a wrap: the writer's slot becomes StartOver, the record goes to slot 0. */
  lemma WrapAround(m: seq<Word>, m': seq<Word>, hdr: nat, chain: seq<nat>, wrap: nat, inIdx: nat, n: nat, c: seq<nat>)
    requires Inv(m, hdr, chain, wrap, inIdx)
    requires wrap == |chain| && |chain| >= 2
    requires |m'| == |m| && 0 < n < chain[0]
    requires forall x :: 0 <= x < |m| && x != Last(chain) && x > n ==> m'[x] == m[x]
    requires m'[Last(chain)] == StartOver
    requires m'[0] != StartOver && Succ(m', 0, hdr) == n
    requires m'[n] == EndOfRing
    requires c == chain + [0, n]
    ensures Inv(m', hdr, c, |chain|, inIdx)
  {
    var L := |chain| - 1;
    forall i | 0 <= i < L
      ensures m'[chain[i]] == m[chain[i]]
    {
      Climb(chain, wrap, i, L);
      if 0 < i {
        Climb(chain, wrap, 0, i);
      }
    }
    KeepPrefix(m, m', hdr, chain, wrap, inIdx, c, L);
    assert c[L] == Last(chain) && c[L + 1] == 0 && c[L + 2] == n;
    assert Ascending(c, |chain|) by {
      forall i | 0 <= i < |c| - 1 && i != |chain| - 1
        ensures c[i] < c[i + 1]
      {
        if i < |chain| - 1 {
          assert chain[i] < chain[i + 1];
        }
      }
    }
  }

  /** Allocating in an empty ring: both readers restart at slot 0 together with the writer. */
  lemma Restart(m': seq<Word>, hdr: nat, n: nat)
    requires 0 < n < |m'|
    requires m'[0] != StartOver && Succ(m', 0, hdr) == n
    requires m'[n] == EndOfRing
    ensures Inv(m', hdr, [0, n], 2, 0)
  {
  }

  /** The last record shrinks or grows in place: the writer moves to n, which gets EndOfRing. */
  lemma ReplaceEnd(m: seq<Word>, m': seq<Word>, hdr: nat, chain: seq<nat>, wrap: nat, inIdx: nat, n: nat, c: seq<nat>)
    requires Inv(m, hdr, chain, wrap, inIdx)
    requires |chain| >= 2 && inIdx < |chain| - 1
    requires var k := |chain| - 2; m[chain[k]] != StartOver && chain[k] < n < |m|
    requires wrap < |chain| ==> n < chain[0]
    requires |m'| == |m|
    requires forall i :: 0 <= i < |chain| - 2 ==> m'[chain[i]] == m[chain[i]]
    requires m'[chain[|chain| - 2]] != StartOver && Succ(m', chain[|chain| - 2], hdr) == n
    requires m'[n] == EndOfRing
    requires c == chain[..|chain| - 1] + [n]
    ensures Inv(m', hdr, c, wrap, inIdx)
  {
    var k := |chain| - 2;
    assert forall i :: 0 <= i <= k ==> c[i] == chain[i];
    KeepPrefix(m, m', hdr, chain, wrap, inIdx, c, k);
    ExtendAscending(chain, wrap, |chain| - 1, n, c);
    assert c[k] == chain[k] && c[k + 1] == n;
    forall i | 0 <= i < |c| - 1
      ensures c[i] < |m'| && Succ(m', c[i], hdr) == c[i + 1]
      ensures m'[c[i]] == StartOver <==> i == wrap - 1
    {
      if i < k {
      } else {
      }
    }
  }

  /** c is chain with the slot np inserted after index k. */
  ghost predicate Inserted(chain: seq<nat>, k: nat, np: nat, c: seq<nat>)
  {
    && k < |chain| && |c| == |chain| + 1 && c[k + 1] == np
    && (forall i :: 0 <= i <= k ==> c[i] == chain[i])
    && (forall i :: k < i < |chain| ==> c[i + 1] == chain[i])
  }

  /** The insertion written as a concatenation. */
  lemma InsertedSeq(chain: seq<nat>, k: nat, np: nat)
    requires k < |chain|
    ensures Inserted(chain, k, np, chain[..k + 1] + [np] + chain[k + 1..])
  {
  }

  /** Shrinking a record that is not the last: the freed tail becomes a record of its own at np. */
  lemma InsertSkip(m: seq<Word>, m': seq<Word>, hdr: nat, chain: seq<nat>, wrap: nat, inIdx: nat, k: nat, np: nat, c: seq<nat>)
    requires Inv(m, hdr, chain, wrap, inIdx)
    requires inIdx <= k && k + 2 < |chain| && k != wrap - 1
    requires chain[k] < np < chain[k + 1]
    requires |m'| == |m|
    requires forall i :: 0 <= i < |chain| && i != k ==> m'[chain[i]] == m[chain[i]]
    requires m'[chain[k]] != StartOver && Succ(m', chain[k], hdr) == np
    requires m'[np] != StartOver && Succ(m', np, hdr) == chain[k + 1]
    requires Inserted(chain, k, np, c)
    ensures Inv(m', hdr, c, if k < wrap then wrap + 1 else wrap, inIdx)
  {
    InsertLinks(m, m', hdr, chain, wrap, inIdx, k, np, c);
    InsertAscending(chain, wrap, k, np, c);
    InsertRest(m, m', chain, wrap, inIdx, k, np, c);
  }

  /** The remaining parts of the invariant after an insertion: slots within the ring, the
      writer still below OutputReader after a wrap, the input reader's records, the EndOfRing
      word. */
  lemma InsertRest(m: seq<Word>, m': seq<Word>, chain: seq<nat>, wrap: nat, inIdx: nat, k: nat, np: nat, c: seq<nat>)
    requires 0 < wrap <= |chain| && inIdx <= k && k + 2 < |chain| && k != wrap - 1
    requires (forall i :: 0 <= i < |chain| ==> chain[i] < |m|) && np < |m| && |m'| == |m|
    requires wrap < |chain| ==> wrap < |chain| - 1 && Last(chain) < chain[0]
    requires forall i :: 0 <= i < inIdx ==> HasOutput(m[chain[i]])
    requires m[Last(chain)] == EndOfRing
    requires forall i :: 0 <= i < |chain| && i != k ==> m'[chain[i]] == m[chain[i]]
    requires Inserted(chain, k, np, c)
    ensures var w := if k < wrap then wrap + 1 else wrap;
            && |c| >= 1 && 0 < w <= |c| && inIdx < |c|
            && (forall i :: 0 <= i < |c| ==> c[i] < |m'|)
            && (w < |c| ==> w < |c| - 1 && Last(c) < c[0])
            && (forall i :: 0 <= i < inIdx ==> HasOutput(m'[c[i]]))
            && m'[Last(c)] == EndOfRing
  {
    assert Last(c) == c[|chain|] == Last(chain);
    forall i | 0 <= i < |c|
      ensures c[i] < |m'|
    {
      if i > k + 1 {
        assert c[i] == chain[i - 1];
      }
    }
  }

  /** The links of the chain with the record at np inserted after index k: every record still
      leads to the next one, and the StartOver mark keeps its place, one index further on when
      it lay after k. */
  lemma InsertLinks(m: seq<Word>, m': seq<Word>, hdr: nat, chain: seq<nat>, wrap: nat, inIdx: nat, k: nat, np: nat, c: seq<nat>)
    requires Inv(m, hdr, chain, wrap, inIdx)
    requires inIdx <= k && k + 2 < |chain| && k != wrap - 1
    requires |m'| == |m| && np < |m|
    requires forall i :: 0 <= i < |chain| && i != k ==> m'[chain[i]] == m[chain[i]]
    requires m'[chain[k]] != StartOver && Succ(m', chain[k], hdr) == np
    requires m'[np] != StartOver && Succ(m', np, hdr) == chain[k + 1]
    requires Inserted(chain, k, np, c)
    ensures forall i :: 0 <= i < |c| - 1 ==> c[i] < |m'| && Succ(m', c[i], hdr) == c[i + 1]
    ensures forall i :: 0 <= i < |c| - 1 ==> (m'[c[i]] == StartOver <==> i == (if k < wrap then wrap + 1 else wrap) - 1)
  {
    var w := if k < wrap then wrap + 1 else wrap;
    KeepPrefix(m, m', hdr, chain, wrap, inIdx, c, k);
    KeepSuffix(m, m', hdr, chain, wrap, inIdx, k, np, c);
    assert c[k] == chain[k] && c[k + 1] == np && c[k + 2] == chain[k + 1];
    forall i | 0 <= i < |c| - 1
      ensures c[i] < |m'| && Succ(m', c[i], hdr) == c[i + 1]
      ensures m'[c[i]] == StartOver <==> i == w - 1
    {
      if i < k {
      } else if i == k {
      } else if i == k + 1 {
      } else {
      }
    }
  }

  /** Records after the inserted one keep their state words, one index further on. */
  lemma KeepSuffix(m: seq<Word>, m': seq<Word>, hdr: nat, chain: seq<nat>, wrap: nat, inIdx: nat, k: nat, np: nat, c: seq<nat>)
    requires Inv(m, hdr, chain, wrap, inIdx)
    requires k + 2 < |chain| && |m'| == |m|
    requires forall i :: 0 <= i < |chain| && i != k ==> m'[chain[i]] == m[chain[i]]
    requires Inserted(chain, k, np, c)
    ensures forall i :: k + 1 < i < |c| - 1 ==> c[i] < |m'| && Succ(m', c[i], hdr) == c[i + 1]
    ensures forall i :: k + 1 < i < |c| - 1 ==> (m'[c[i]] == StartOver <==> i == (if k < wrap then wrap + 1 else wrap) - 1)
  {
    forall i | k + 1 < i < |c| - 1
      ensures c[i] < |m'| && Succ(m', c[i], hdr) == c[i + 1]
      ensures m'[c[i]] == StartOver <==> i == (if k < wrap then wrap + 1 else wrap) - 1
    {
      assert c[i] == chain[i - 1] && c[i + 1] == chain[i];
      assert m'[chain[i - 1]] == m[chain[i - 1]];
    }
  }

  /** Inserting a slot strictly between two consecutive records keeps the slots ascending. */
  lemma InsertAscending(chain: seq<nat>, wrap: nat, k: nat, np: nat, c: seq<nat>)
    requires Ascending(chain, wrap) && 0 < wrap <= |chain|
    requires k + 1 < |chain| && k != wrap - 1
    requires chain[k] < np < chain[k + 1]
    requires Inserted(chain, k, np, c)
    ensures Ascending(c, if k < wrap then wrap + 1 else wrap)
  {
    var w := if k < wrap then wrap + 1 else wrap;
    forall i | 0 <= i < |c| - 1 && i != w - 1
      ensures c[i] < c[i + 1]
    {
      if i < k {
        assert c[i] == chain[i] && c[i + 1] == chain[i + 1];
      } else if i > k + 1 {
        assert c[i] == chain[i - 1] && c[i + 1] == chain[i];
      }
    }
  }

  /** Cutting the chain after index p - 1 and appending a slot above chain[p - 1] keeps it ascending,
      provided the new slot is in the same part as chain[p - 1]. */
  lemma ExtendAscending(chain: seq<nat>, wrap: nat, p: nat, n: nat, c: seq<nat>)
    requires Ascending(chain, wrap) && 0 < wrap <= |chain|
    requires 0 < p <= |chain| && chain[p - 1] < n
    requires wrap < p || wrap == |chain|
    requires c == chain[..p] + [n]
    ensures Ascending(c, if wrap == |chain| then |c| else wrap)
  {
    var w := if wrap == |chain| then |c| else wrap;
    forall i | 0 <= i < |c| - 1 && i != w - 1
      ensures c[i] < c[i + 1]
    {
      if i + 1 < p {
        assert c[i] == chain[i] && c[i + 1] == chain[i + 1];
      }
    }
  }

  /** Where Packet_GetInput's scan stops: the first record at or after i without the Output bit. */
  function FirstWithoutOutput(m: seq<Word>, chain: seq<nat>, i: nat): (j: nat)
    requires i < |chain| && (forall t :: 0 <= t < |chain| ==> chain[t] < |m|)
    requires m[Last(chain)] == EndOfRing
    decreases |chain| - i
    ensures i <= j < |chain|
    ensures !HasOutput(m[chain[j]])
    ensures forall t :: i <= t < j ==> HasOutput(m[chain[t]])
  {
    if !HasOutput(m[chain[i]]) then i else FirstWithoutOutput(m, chain, i + 1)
  }

  /** What a reader's scan needs of the ring: every chain slot lies in the memory, each record
      is followed by its successor, and the writer's slot holds EndOfRing. */
  ghost predicate Walkable(m: seq<Word>, hdr: nat, chain: seq<nat>)
  {
    && |chain| >= 1
    && (forall i :: 0 <= i < |chain| ==> chain[i] < |m|)
    && (forall i :: 0 <= i < |chain| - 1 ==> Succ(m, chain[i], hdr) == chain[i + 1])
    && m[Last(chain)] == EndOfRing
  }

  /** The ring invariant provides what a scan needs. */
  lemma InvWalkable(m: seq<Word>, hdr: nat, chain: seq<nat>, wrap: nat, inIdx: nat)
    requires Inv(m, hdr, chain, wrap, inIdx)
    ensures Walkable(m, hdr, chain)
  {
  }

  /** One step of Packet_GetInput's scan over a record with the Output bit: the chain goes on,
      the reader's next slot is the successor, and the stopping point is unchanged. */
  lemma InputStep(m: seq<Word>, hdr: nat, chain: seq<nat>, j: nat)
    requires Walkable(m, hdr, chain) && j < |chain| && HasOutput(m[chain[j]])
    ensures j + 1 < |chain|
    ensures chain[j + 1] == if m[chain[j]] == StartOver then 0 else Next(chain[j], GetLen(m[chain[j]]), hdr)
    ensures FirstWithoutOutput(m, chain, j) == FirstWithoutOutput(m, chain, j + 1)
  {
    assert !HasOutput(m[Last(chain)]);
  }

  /** Where Packet_GetOutput's scan stops: the first record at or after i that is not Skip. */
  function FirstNotSkip(m: seq<Word>, chain: seq<nat>, i: nat): (j: nat)
    requires i < |chain| && (forall t :: 0 <= t < |chain| ==> chain[t] < |m|)
    requires m[Last(chain)] == EndOfRing
    decreases |chain| - i
    ensures i <= j < |chain|
    ensures !IsSkip(m[chain[j]])
    ensures forall t :: i <= t < j ==> IsSkip(m[chain[t]])
  {
    if !IsSkip(m[chain[i]]) then i else FirstNotSkip(m, chain, i + 1)
  }

  /** A record with the Output bit but not the Input bit: a finished output packet. */
  predicate PureOutput(s: Word)
  {
    HasOutput(s) && !HasInput(s)
  }

  /** The first finished output record among indices i..j-1, or j if there is none. */
  function FirstPureOutput(m: seq<Word>, chain: seq<nat>, i: nat, j: nat): (t: nat)
    requires i <= j <= |chain| && (forall u :: 0 <= u < |chain| ==> chain[u] < |m|)
    decreases j - i
    ensures i <= t <= j
    ensures t < j ==> PureOutput(m[chain[t]])
    ensures forall u :: i <= u < t ==> !PureOutput(m[chain[u]])
  {
    if j == i then i
    else
      var t := FirstPureOutput(m, chain, i, j - 1);
      if t < j - 1 then t else if PureOutput(m[chain[j - 1]]) then j - 1 else j
  }

  /** What Packet_GetInput's scan knows about OutputReader after the records before index j:
      when OutputReader started on InputReader (inIdx == 0), skipOutput holds until the first
      finished output record, and output is that record's slot once it is found. */
  ghost predicate OutputTrack(m: seq<Word>, chain: seq<nat>, inIdx: nat, j: nat, skipOutput: bool, output: nat)
    requires j < |chain| && (forall u :: 0 <= u < |chain| ==> chain[u] < |m|)
  {
    && (inIdx != 0 ==> !skipOutput && output == chain[0])
    && (inIdx == 0 ==> (skipOutput <==> FirstPureOutput(m, chain, 0, j) == j))
    && (inIdx == 0 ==> output == chain[if skipOutput then 0 else FirstPureOutput(m, chain, 0, j)])
  }

  /** One record of the scan: a finished output record (Output without Input) ends the skipping
      of OutputReader and becomes its target. */
  lemma OutputTrackStep(m: seq<Word>, chain: seq<nat>, inIdx: nat, j: nat, skipOutput: bool, output: nat)
    requires j + 1 < |chain| && (forall u :: 0 <= u < |chain| ==> chain[u] < |m|)
    requires HasOutput(m[chain[j]]) && OutputTrack(m, chain, inIdx, j, skipOutput, output)
    ensures var found := skipOutput && !HasInput(m[chain[j]]);
            OutputTrack(m, chain, inIdx, j + 1, skipOutput && !found, if found then chain[j] else output)
  {
  }

  /** The record at index k that a reader hands back, or an unfinished record before the
      writer's slot, is not the StartOver mark: its successor is the next record of the chain. */
  lemma ReleaseFacts(m0: seq<Word>, hdr: nat, chain: seq<nat>, wrap: nat, inIdx: nat, k: nat)
    requires Inv(m0, hdr, chain, wrap, inIdx) && |m0| <= MaxSlots && k < |chain|
    requires || Flags(m0[chain[k]]) == Input || Flags(m0[chain[k]]) == Output
             || (k < |chain| - 1 && Unfinished(m0[chain[k]]))
    ensures k < |chain| - 1 && k != wrap - 1
    ensures Next(chain[k], GetLen(m0[chain[k]]), hdr) == chain[k + 1]
    ensures GetLen(m0[chain[k]]) < 0x3FFF
    ensures forall i :: 0 <= i < |chain| && i != k ==> chain[i] != chain[k]
  {
    FlagConstants();
    StartOverIsSkip();
    Ordered(m0, hdr, chain, wrap, inIdx);
  }

  /** Packet_ReleaseInput (the Skip mark) and Packet_ReattachOutput (the Output mark): the input
      record at index inIdx (for the Skip mark, possibly an unfinished one) keeps its length,
      gains the Output bit, and InputReader passes it. */
  lemma Passed(m0: seq<Word>, m1: seq<Word>, hdr: nat, chain: seq<nat>, wrap: nat, inIdx: nat, flag: Word)
    requires Inv(m0, hdr, chain, wrap, inIdx) && |m0| <= MaxSlots
    requires flag == Skip || flag == Output
    requires || Flags(m0[chain[inIdx]]) == Input
             || (flag == Skip && inIdx < |chain| - 1 && Unfinished(m0[chain[inIdx]]))
    requires flag == Skip ==> m1 == m0[chain[inIdx] := BitOr(m0[chain[inIdx]], Skip)]
    requires flag == Output ==> m1 == m0[chain[inIdx] := BitOr(GetLen(m0[chain[inIdx]]), Output)]
    ensures m1 == m0[chain[inIdx] := GetLen(m0[chain[inIdx]]) + flag]
    ensures inIdx + 1 < |chain| && Inv(m1, hdr, chain, wrap, inIdx + 1)
  {
    ReleaseFacts(m0, hdr, chain, wrap, inIdx, inIdx);
    var len := GetLen(m0[chain[inIdx]]);
    SetFlag(m0[chain[inIdx]], Skip);
    LenOrFlag(len, flag);
    Restate(m0, m1, hdr, chain, wrap, inIdx, inIdx);
    PassInput(m1, hdr, chain, wrap, inIdx, inIdx + 1);
  }

  /** A live record without the Output bit is waiting as input or unfinished, and lies at or
      after InputReader. */
  lemma Releasable(m0: seq<Word>, hdr: nat, chain: seq<nat>, wrap: nat, inIdx: nat, k: nat)
    requires Inv(m0, hdr, chain, wrap, inIdx) && |m0| <= MaxSlots
    requires k < |chain| - 1 && !HasOutput(m0[chain[k]])
    ensures inIdx <= k && (Flags(m0[chain[k]]) == Input || Unfinished(m0[chain[k]]))
    ensures Next(chain[k], GetLen(m0[chain[k]]), hdr) == chain[k + 1]
    ensures chain[0] == chain[k] <==> k == 0
    ensures chain[inIdx] == chain[k] <==> k == inIdx
  {
    FlagConstants();
    ReleaseFacts(m0, hdr, chain, wrap, inIdx, k);
  }

  /** Packet_ReleaseInput on a record OutputReader is not on: the record at index k gains the
      Skip mark, and InputReader passes it when it is InputReader's record. */
  lemma MarkReleased(m0: seq<Word>, m1: seq<Word>, hdr: nat, chain: seq<nat>, wrap: nat, inIdx: nat, k: nat, p: nat)
    returns (i: nat)
    requires Inv(m0, hdr, chain, wrap, inIdx) && |m0| <= MaxSlots
    requires inIdx <= k < |chain| - 1 && p == chain[k] && !HasOutput(m0[p])
    requires m1 == m0[p := GetLen(m0[p]) + Skip]
    ensures BitOr(m0[p], Skip) == GetLen(m0[p]) + Skip
    ensures Inv(m1, hdr, chain, wrap, i)
    ensures chain[i] == if k == inIdx then Next(p, GetLen(m0[p]), hdr) else chain[inIdx]
    ensures chain[inIdx] == p <==> k == inIdx
  {
    Releasable(m0, hdr, chain, wrap, inIdx, k);
    SetFlag(m0[p], Skip);
    if k == inIdx {
      Passed(m0, m1, hdr, chain, wrap, inIdx, Skip);
      i := inIdx + 1;
    } else {
      SkipAhead(m0, m1, hdr, chain, wrap, inIdx, k);
      i := inIdx;
    }
  }

  /** A record behind InputReader that is released while unfinished or waiting as input is
      marked Skip in place; InputReader stays, and OutputReader passes it later. */
  lemma SkipAhead(m0: seq<Word>, m1: seq<Word>, hdr: nat, chain: seq<nat>, wrap: nat, inIdx: nat, k: nat)
    requires Inv(m0, hdr, chain, wrap, inIdx) && |m0| <= MaxSlots
    requires inIdx < k < |chain| - 1 && !HasOutput(m0[chain[k]])
    requires m1 == m0[chain[k] := BitOr(m0[chain[k]], Skip)]
    ensures m1 == m0[chain[k] := GetLen(m0[chain[k]]) + Skip]
    ensures Inv(m1, hdr, chain, wrap, inIdx)
  {
    FlagConstants();
    ReleaseFacts(m0, hdr, chain, wrap, inIdx, k);
    SetFlag(m0[chain[k]], Skip);
    Restate(m0, m1, hdr, chain, wrap, inIdx, k);
  }

  /** Packet_GetInput's bookkeeping: InputReader has passed records inIdx..j-1, all carrying the
      Output bit; OutputReader, when it started on the same record, stops at the first finished
      output record among them, or at j. */
  lemma SkippedInput(m: seq<Word>, hdr: nat, chain: seq<nat>, wrap: nat, inIdx: nat, j: nat) returns (c: seq<nat>, w: nat, i: nat)
    requires Inv(m, hdr, chain, wrap, inIdx) && inIdx <= j < |chain|
    requires forall t :: inIdx <= t < j ==> HasOutput(m[chain[t]])
    ensures Inv(m, hdr, c, w, i) && Last(c) == Last(chain) && c[i] == chain[j]
    ensures c[0] == if inIdx == 0 then chain[FirstPureOutput(m, chain, 0, j)] else chain[0]
  {
    if inIdx == 0 {
      c, w, i := SkippedShared(m, hdr, chain, wrap, j);
    } else {
      PassInput(m, hdr, chain, wrap, inIdx, j);
      c, w, i := chain, wrap, j;
    }
  }

  /** SkippedInput when both readers started on the same record: OutputReader's records before
      the first finished output record leave the chain. */
  lemma SkippedShared(m: seq<Word>, hdr: nat, chain: seq<nat>, wrap: nat, j: nat) returns (c: seq<nat>, w: nat, i: nat)
    requires Inv(m, hdr, chain, wrap, 0) && j < |chain|
    requires forall t :: 0 <= t < j ==> HasOutput(m[chain[t]])
    ensures Inv(m, hdr, c, w, i) && Last(c) == Last(chain) && c[i] == chain[j]
    ensures c[0] == chain[FirstPureOutput(m, chain, 0, j)]
  {
    PassInput(m, hdr, chain, wrap, 0, j);
    var cut := FirstPureOutput(m, chain, 0, j);
    Trim(m, hdr, chain, wrap, j, cut);
    c, w, i := chain[cut..], if cut < wrap then wrap - cut else |chain| - cut, j - cut;
    assert c[0] == chain[cut] && c[i] == chain[j] && Last(c) == Last(chain);
  }

  /** Packet_GetOutput's bookkeeping: OutputReader has passed records 0..j-1, all Skip;
      InputReader is carried to j when it was among them. */
  lemma SkippedOutput(m: seq<Word>, hdr: nat, chain: seq<nat>, wrap: nat, inIdx: nat, j: nat) returns (c: seq<nat>, w: nat, i: nat)
    requires Inv(m, hdr, chain, wrap, inIdx) && j < |chain|
    requires forall t :: 0 <= t < j ==> IsSkip(m[chain[t]])
    ensures Inv(m, hdr, c, w, i) && Last(c) == Last(chain) && c[0] == chain[j]
    ensures c[i] == if inIdx < j then chain[j] else chain[inIdx]
  {
    if inIdx < j {
      PassInput(m, hdr, chain, wrap, inIdx, j);
      Trim(m, hdr, chain, wrap, j, j);
      i := 0;
    } else {
      Trim(m, hdr, chain, wrap, inIdx, j);
      i := inIdx - j;
    }
    c, w := chain[j..], if j < wrap then wrap - j else |chain| - j;
    assert c[0] == chain[j] && c[i] == chain[i + j] && Last(c) == Last(chain);
  }

  /** The record at OutputReader leaves the ring: the chain starts at its successor, and
      InputReader, when it was on the same record, starts there too. */
  lemma DropFirst(m0: seq<Word>, hdr: nat, chain: seq<nat>, wrap: nat, inIdx: nat) returns (c: seq<nat>, w: nat, i: nat)
    requires Inv(m0, hdr, chain, wrap, inIdx) && |m0| <= MaxSlots
    requires || Flags(m0[chain[0]]) == Input || Flags(m0[chain[0]]) == Output
             || (1 < |chain| && Unfinished(m0[chain[0]]))
    ensures Inv(m0, hdr, c, w, i) && Last(c) == Last(chain)
    ensures c[0] == Next(chain[0], GetLen(m0[chain[0]]), hdr)
    ensures c[i] == if inIdx == 0 then c[0] else chain[inIdx]
  {
    ReleaseFacts(m0, hdr, chain, wrap, inIdx, 0);
    Trim(m0, hdr, chain, wrap, inIdx, 1);
    c, w, i := chain[1..], wrap - 1, if 1 <= inIdx then inIdx - 1 else 0;
    assert c[0] == chain[1] && Last(c) == Last(chain);
    assert 1 <= inIdx ==> c[i] == chain[inIdx];
  }

  /**
   * The loop of Packet_GetInput and of InputQueue::Pop: reader walks from InputReader over the
   * records with the Output bit; output is where OutputReader is to go, updated at the first
   * finished output record when OutputReader started on the same record (skipOutput is still
   * set otherwise).
   */
  method ScanInput(mem: array<Word>, hdr: nat, ghost chain: seq<nat>, ghost inIdx: nat,
                   inputReader: nat, outputReader: nat)
    returns (reader: nat, output: nat, skipInput: bool, skipOutput: bool, state: Word, ghost j: nat)
    requires Walkable(mem[..], hdr, chain) && inIdx < |chain|
    requires outputReader == chain[0] && inputReader == chain[inIdx] && (outputReader == inputReader <==> inIdx == 0)
    ensures j == FirstWithoutOutput(mem[..], chain, inIdx)
    ensures reader == chain[j] && state == mem[reader]
    ensures skipInput <==> inIdx < j
    ensures skipOutput <==> outputReader == inputReader && FirstPureOutput(mem[..], chain, inIdx, j) == j
    ensures output == if outputReader == inputReader && !skipOutput
                      then chain[FirstPureOutput(mem[..], chain, inIdx, j)] else outputReader
  {
    ghost var m := mem[..];
    reader := inputReader;
    output := outputReader;
    skipInput := false;
    skipOutput := output == reader;
    j := inIdx;
    state := mem[reader];
    while HasOutput(state)
      invariant inIdx <= j < |chain| && reader == chain[j] && state == m[reader]
      invariant FirstWithoutOutput(m, chain, inIdx) == FirstWithoutOutput(m, chain, j)
      invariant skipInput <==> inIdx < j
      invariant OutputTrack(m, chain, inIdx, j, skipOutput, output)
      decreases |chain| - j
    {
      InputStep(m, hdr, chain, j);
      OutputTrackStep(m, chain, inIdx, j, skipOutput, output);
      skipInput := true;
      if skipOutput && !HasInput(state) {
        output := reader;
        skipOutput := false;
      }
      if state == StartOver {
        reader := 0;
      } else {
        reader := Next(reader, GetLen(state), hdr);
      }
      j := j + 1;
      state := mem[reader];
    }
  }

  /** The loop of Packet_GetOutput and of OutputQueue::Pop: reader walks from OutputReader over
      the Skip records, noting whether it passed InputReader. */
  method ScanOutput(mem: array<Word>, hdr: nat, ghost chain: seq<nat>, ghost wrap: nat, ghost inIdx: nat,
                    inputReader: nat, outputReader: nat)
    returns (reader: nat, skipOutput: bool, skipInput: bool, state: Word, ghost j: nat)
    requires Inv(mem[..], hdr, chain, wrap, inIdx) && outputReader == chain[0] && inputReader == chain[inIdx]
    ensures j == FirstNotSkip(mem[..], chain, 0)
    ensures reader == chain[j] && state == mem[reader]
    ensures skipOutput <==> 0 < j
    ensures skipInput <==> inIdx < j
  {
    ghost var m := mem[..];
    Apart(m, hdr, chain, wrap, inIdx, inIdx);
    reader := outputReader;
    var input := inputReader;
    skipOutput, skipInput := false, false;
    j := 0;
    state := mem[reader];
    while IsSkip(state)
      invariant j < |chain| && reader == chain[j] && state == m[reader]
      invariant forall t :: 0 <= t < j ==> IsSkip(m[chain[t]])
      invariant FirstNotSkip(m, chain, 0) == FirstNotSkip(m, chain, j)
      invariant skipOutput <==> 0 < j
      invariant skipInput <==> inIdx < j
      decreases |chain| - j
    {
      skipOutput := true;
      if !skipInput && input == reader {
        skipInput := true;
      }
      if state == StartOver {
        reader := 0;
      } else {
        reader := Next(reader, GetLen(state), hdr);
      }
      j := j + 1;
      state := mem[reader];
    }
  }
}
