// The C++ draft of the packet ring (c++/Queue.cpp, c++/Packet.h): the same
// ring discipline as PacketBuffer.c, with a record of len bytes spanning
// DIV_ROUND_UP(len, sizeof(Packet)) slots (no header counted in), a ring of
// 30 slots plus the end slot, one Release for both chains, and the two Push
// operations of InputQueue and OutputQueue. The two Push operations do not
// set the flags their queues read; the Dafny class uses the intended ones and
// the code as written is modelled on values beside it.
module Queue {
  import opened PacketState
  import opened RingChain
  import opened Wrappers

  /** Slot index of ringBuffer.end: ringBuffer.start holds 30 packets. */
  const End: nat := 30

  /** getNextPacket counts no header. */
  const NoHeader: nat := 0

  /** The ring is empty and the record does not fit before the end: Get restarts it at slot 0. */
  predicate Restarts(writer: nat, lastReader: nat, len: nat)
  {
    writer == lastReader && Next(writer, len, NoHeader) > End
  }

  /** The writer is ahead of the oldest reader and the record does not fit before the end: Get
      marks the writer's slot StartOver and continues at slot 0. */
  predicate Wraps(writer: nat, lastReader: nat, len: nat)
  {
    writer > lastReader && Next(writer, len, NoHeader) > End
  }

  /** A record of len bytes at slot p stays clear of the oldest reader (below it) or of the end. */
  predicate Fits(p: nat, lastReader: nat, len: nat)
  {
    if p < lastReader then Next(p, len, NoHeader) < lastReader else Next(p, len, NoHeader) <= End
  }

  /**
   * Get's choice of slot for a record of len bytes, given nextWriter and outputReader: the
   * writer's slot when the record fits there, else slot 0 when the ring is empty or the record
   * fits below the oldest reader, else None (NULL, the ring is full).
   */
  function Placement(writer: nat, lastReader: nat, len: nat): (p: Option<nat>)
    ensures p.Some? ==> p.value == writer || p.value == 0
    ensures p.Some? ==> Fits(p.value, if Restarts(writer, lastReader, len) then 0 else lastReader, len)
                         || (Restarts(writer, lastReader, len) && Next(0, len, NoHeader) > End)
    ensures Fits(writer, lastReader, len) ==> p == Some(writer)
    ensures p.None? <==>
              (!Fits(writer, lastReader, len)
               && (writer < lastReader || (writer != lastReader && Next(0, len, NoHeader) >= lastReader)))
  {
    var next := Next(writer, len, NoHeader);
    if writer >= lastReader then
      if next <= End then Some(writer)
      else if writer == lastReader then Some(0)
      else if Next(0, len, NoHeader) < lastReader then Some(0)
      else None
    else if next >= lastReader then None
    else Some(writer)
  }

  /** The slot words after Get placed a record of len bytes at p that ends at next: StartOver at
      the old writer on a wrap, EndOfRing at the new writer, then the length at p. */
  function Placed(m: seq<Word>, writer: nat, wraps: bool, p: nat, next: nat, len: Word): (r: seq<Word>)
    requires writer < |m| && p < |m| && next < |m|
    ensures |r| == |m| && r[p] == len
    ensures next != p ==> r[next] == EndOfRing
    ensures forall x :: 0 <= x < |m| && x != p && x != next && (x != writer || !wraps) ==> r[x] == m[x]
  {
    (if wraps then m[writer := StartOver] else m)[next := EndOfRing][p := len]
  }

  /** InputQueue::Push as written: the record must carry the Output bit (the assert), and Input
      is or-ed in. */
  function InputPushAsWritten(s: Word): (r: Word)
    requires HasOutput(s)
    ensures GetLen(r) == GetLen(s)
  {
    SetFlag(s, Input);
    LenOrFlag(GetLen(s), Skip);
    BitOr(s, Input)
  }

  /** What InputQueue::Push makes of any record it accepts is a Skip record: InputQueue::Pop and
      OutputQueue::Pop both pass over it, and neither returns it. */
  lemma InputPushMakesSkip(s: Word)
    requires HasOutput(s)
    ensures IsSkip(InputPushAsWritten(s)) && HasOutput(InputPushAsWritten(s))
    ensures Flags(InputPushAsWritten(s)) != Input && Flags(InputPushAsWritten(s)) != Output
  {
    SetFlag(s, Input);
    LenOrFlag(GetLen(s), Skip);
  }

  /** OutputQueue::Push as written, on the slot words m and InputReader: the record gets its
      length with the Input flag, and InputReader moves past it when it had the Input bit. */
  function OutputPushAsWritten(m: seq<Word>, inputReader: nat, packet: nat): (r: (seq<Word>, nat))
    requires packet < |m|
    ensures |r.0| == |m| && r.0[packet] == BitOr(GetLen(m[packet]), Input)
    ensures r.1 == if HasInput(m[packet]) then Next(packet, GetLen(m[packet]), NoHeader) else inputReader
  {
    var len := GetLen(m[packet]);
    (m[packet := BitOr(len, Input)], if HasInput(m[packet]) then Next(packet, len, NoHeader) else inputReader)
  }

  /** A ring of 31 slots holding one input record of 4 bytes at slot 0, both readers on it. */
  function OneInputRing(): (m: seq<Word>)
    ensures |m| == End + 1 && m[0] == 4 + Input && m[2] == EndOfRing
  {
    seq(End + 1, i => if i == 0 then 4 + Input else EndOfRing)
  }

  /** Pushing that record to the output queue as written leaves it an input record behind
      InputReader: the ring invariant is lost, OutputQueue::Pop stops on it without returning it
      (it is neither Skip nor Output), and InputQueue::Pop no longer reaches it, so it is never
      released. */
  lemma OutputPushStrandsRecord()
    ensures Inv(OneInputRing(), NoHeader, [0, 2], 2, 0)
    ensures var r := OutputPushAsWritten(OneInputRing(), 0, 0);
            && r.1 == 2 && Flags(r.0[0]) == Input && !IsSkip(r.0[0]) && !HasOutput(r.0[0])
            && !Inv(r.0, NoHeader, [0, 2], 2, 1)
  {
    var m := OneInputRing();
    OneInputRingValid(m);
    LenOrFlag(4, Input);
    var r := OutputPushAsWritten(m, 0, 0);
    assert r.0[0] == 4 + Input;
    assert !HasOutput(r.0[[0, 2][0]]);
  }

  /** A ring whose slot 0 holds an input record of 4 bytes and whose slot 2 is free satisfies
      the ring invariant with that one record. */
  lemma OneInputRingValid(m: seq<Word>)
    requires |m| == End + 1 && m[0] == 4 + Input && m[2] == EndOfRing
    ensures Inv(m, NoHeader, [0, 2], 2, 0)
  {
    var chain := [0, 2];
    assert GetLen(m[0]) == 4;
    assert Next(0, 4, NoHeader) == 2;
    assert Succ(m, chain[0], NoHeader) == chain[1];
  }

  /** The record Release hands back (not the writer's slot, not the StartOver mark): its
      successor is the next record, and its length leaves room for a flag. */
  lemma RecordFacts(m: seq<Word>, chain: seq<nat>, wrap: nat, inIdx: nat, k: nat)
    requires Inv(m, NoHeader, chain, wrap, inIdx) && |m| == End + 1
    requires k < |chain| - 1 && m[chain[k]] != StartOver
    ensures k != wrap - 1
    ensures Next(chain[k], GetLen(m[chain[k]]), NoHeader) == chain[k + 1]
    ensures GetLen(m[chain[k]]) < 0x3FFF
    ensures forall i :: 0 <= i < |chain| && i != k ==> chain[i] != chain[k]
  {
    Apart(m, NoHeader, chain, wrap, inIdx, k);
  }

  /** Release's bookkeeping for the record at OutputReader: it leaves the chain, and InputReader
      passes it when it was on it. */
  lemma ReleasedOldest(m: seq<Word>, chain: seq<nat>, wrap: nat, inIdx: nat)
    returns (c: seq<nat>, w: nat, i: nat)
    requires Inv(m, NoHeader, chain, wrap, inIdx) && |m| == End + 1
    requires 0 < |chain| - 1 && m[chain[0]] != StartOver
    ensures Inv(m, NoHeader, c, w, i) && Last(c) == Last(chain) && c[0] == chain[1]
    ensures c[i] == if inIdx == 0 then chain[1] else chain[inIdx]
  {
    RecordFacts(m, chain, wrap, inIdx, 0);
    Trim(m, NoHeader, chain, wrap, inIdx, 1);
    c, w, i := chain[1..], wrap - 1, if 1 <= inIdx then inIdx - 1 else 0;
    assert c[0] == chain[1] && Last(c) == Last(chain);
    assert 1 <= inIdx ==> c[i] == chain[inIdx];
  }

  /** Release's bookkeeping for a record behind OutputReader: it is marked Skip and stays in the
      chain; InputReader passes it when it was on it. */
  lemma ReleasedLater(m0: seq<Word>, m1: seq<Word>, chain: seq<nat>, wrap: nat, inIdx: nat, k: nat)
    returns (i: nat)
    requires Inv(m0, NoHeader, chain, wrap, inIdx) && |m0| == End + 1
    requires 0 < k < |chain| - 1 && m0[chain[k]] != StartOver
    requires m1 == m0[chain[k] := GetLen(m0[chain[k]]) + Skip]
    ensures Inv(m1, NoHeader, chain, wrap, i)
    ensures chain[i] == if k == inIdx then chain[k + 1] else chain[inIdx]
  {
    RecordFacts(m0, chain, wrap, inIdx, k);
    var len := GetLen(m0[chain[k]]);
    LenOrFlag(len, Skip);
    Restate(m0, m1, NoHeader, chain, wrap, inIdx, k);
    if k == inIdx {
      PassInput(m1, NoHeader, chain, wrap, inIdx, inIdx + 1);
      i := inIdx + 1;
    } else {
      i := inIdx;
    }
  }

  /** The intended InputQueue::Push: an unfinished record gains the Input flag, and the ring
      keeps its shape. */
  lemma MarkedInput(m0: seq<Word>, m1: seq<Word>, chain: seq<nat>, wrap: nat, inIdx: nat, k: nat)
    requires Inv(m0, NoHeader, chain, wrap, inIdx)
    requires k < |chain| - 1 && Unfinished(m0[chain[k]])
    requires m1 == m0[chain[k] := m0[chain[k]] + Input]
    ensures Inv(m1, NoHeader, chain, wrap, inIdx)
  {
    UnfinishedAhead(m0, NoHeader, chain, wrap, inIdx, k);
    Apart(m0, NoHeader, chain, wrap, inIdx, k);
    var s := m0[chain[k]];
    ShortLen(s);
    LenOrFlag(s, Input);
    Restate(m0, m1, NoHeader, chain, wrap, inIdx, k);
  }

  /** The intended OutputQueue::Push on an unfinished record: it becomes an output record of the
      same length, and the ring keeps its shape. */
  lemma MarkedOutput(m0: seq<Word>, m1: seq<Word>, chain: seq<nat>, wrap: nat, inIdx: nat, k: nat)
    requires Inv(m0, NoHeader, chain, wrap, inIdx)
    requires k < |chain| - 1 && Unfinished(m0[chain[k]])
    requires m1 == m0[chain[k] := BitOr(GetLen(m0[chain[k]]), Output)]
    ensures Inv(m1, NoHeader, chain, wrap, inIdx)
    ensures m1[chain[k]] == m0[chain[k]] + Output
  {
    UnfinishedAhead(m0, NoHeader, chain, wrap, inIdx, k);
    Apart(m0, NoHeader, chain, wrap, inIdx, k);
    var s := m0[chain[k]];
    ShortLen(s);
    LenOrFlag(s, Output);
    Restate(m0, m1, NoHeader, chain, wrap, inIdx, k);
  }

  /** Get's bookkeeping: the chain gains the new record (and the StartOver mark on a wrap), or
      restarts at slot 0 when the ring was empty; a zero-length record changes nothing. */
  lemma Allocated(m0: seq<Word>, chain: seq<nat>, wrap: nat, inIdx: nat, len: Word, p: nat)
    returns (c: seq<nat>, w: nat, i: nat)
    requires Inv(m0, NoHeader, chain, wrap, inIdx) && |m0| == End + 1
    requires var writer, lastReader := Last(chain), chain[0];
             && (Restarts(writer, lastReader, len) ==> Next(0, len, NoHeader) <= End)
             && Placement(writer, lastReader, len) == Some(p)
    ensures var writer, lastReader := Last(chain), chain[0];
            var next := Next(p, len, NoHeader);
            && next <= End
            && Inv(Placed(m0, writer, Wraps(writer, lastReader, len), p, next, len), NoHeader, c, w, i)
            && Last(c) == next
            && c[0] == (if Restarts(writer, lastReader, len) then 0 else lastReader)
            && c[i] == (if Restarts(writer, lastReader, len) then 0 else chain[inIdx])
  {
    var writer, lastReader := Last(chain), chain[0];
    if len == 0 {
      AllocatedNothing(m0, chain, wrap, inIdx);
      c, w, i := chain, wrap, inIdx;
    } else if Restarts(writer, lastReader, len) {
      AllocatedRestart(m0, writer, len);
      c, w, i := [0, Next(0, len, NoHeader)], 2, 0;
    } else if Wraps(writer, lastReader, len) {
      c := AllocatedWrap(m0, chain, wrap, inIdx, len);
      w, i := |chain|, inIdx;
    } else {
      c, w := AllocatedAppend(m0, chain, wrap, inIdx, len);
      i := inIdx;
    }
  }

  /** A zero-length record goes at the writer's slot and changes nothing. */
  lemma AllocatedNothing(m0: seq<Word>, chain: seq<nat>, wrap: nat, inIdx: nat)
    requires Inv(m0, NoHeader, chain, wrap, inIdx) && |m0| == End + 1
    ensures Placement(Last(chain), chain[0], 0) == Some(Last(chain))
    ensures Next(Last(chain), 0, NoHeader) == Last(chain)
    ensures Placed(m0, Last(chain), false, Last(chain), Last(chain), 0) == m0
  {
    var writer := Last(chain);
    assert Next(writer, 0, NoHeader) == writer;
    assert m0[writer] == 0;
  }

  /** Get's bookkeeping when the ring was empty and the record does not fit before the end: the
      chain restarts at slot 0 with the record alone. */
  lemma AllocatedRestart(m0: seq<Word>, writer: nat, len: Word)
    requires |m0| == End + 1 && writer < |m0| && 0 < len && Next(0, len, NoHeader) <= End
    ensures var next := Next(0, len, NoHeader);
            Inv(Placed(m0, writer, false, 0, next, len), NoHeader, [0, next], 2, 0)
  {
    var next := Next(0, len, NoHeader);
    var m2 := Placed(m0, writer, false, 0, next, len);
    ShortLen(len);
    assert m2[0] != StartOver && Succ(m2, 0, NoHeader) == next;
    Restart(m2, NoHeader, next);
  }

  /** Get's bookkeeping for a record at the writer's slot: the chain gains its end. */
  lemma AllocatedAppend(m0: seq<Word>, chain: seq<nat>, wrap: nat, inIdx: nat, len: Word)
    returns (c: seq<nat>, w: nat)
    requires Inv(m0, NoHeader, chain, wrap, inIdx) && |m0| == End + 1 && 0 < len
    requires Fits(Last(chain), chain[0], len)
    ensures var next := Next(Last(chain), len, NoHeader);
            && next <= End
            && Inv(Placed(m0, Last(chain), false, Last(chain), next, len), NoHeader, c, w, inIdx)
            && Last(c) == next && c[0] == chain[0] && c[inIdx] == chain[inIdx]
  {
    var writer := Last(chain);
    var next := Next(writer, len, NoHeader);
    Bounds(m0, NoHeader, chain, wrap, inIdx);
    var m2 := Placed(m0, writer, false, writer, next, len);
    ShortLen(len);
    assert m2[writer] != StartOver && Succ(m2, writer, NoHeader) == next;
    c, w := chain + [next], if wrap == |chain| then wrap + 1 else wrap;
    Append(m0, m2, NoHeader, chain, wrap, inIdx, next, c);
  }

  /** Get's bookkeeping for a wrap: the writer's slot becomes the StartOver mark and the chain
      continues with the record at slot 0. */
  lemma AllocatedWrap(m0: seq<Word>, chain: seq<nat>, wrap: nat, inIdx: nat, len: Word)
    returns (c: seq<nat>)
    requires Inv(m0, NoHeader, chain, wrap, inIdx) && |m0| == End + 1 && 0 < len
    requires Wraps(Last(chain), chain[0], len) && Next(0, len, NoHeader) < chain[0]
    ensures var next := Next(0, len, NoHeader);
            && next <= End
            && Inv(Placed(m0, Last(chain), true, 0, next, len), NoHeader, c, |chain|, inIdx)
            && Last(c) == next && c[0] == chain[0] && c[inIdx] == chain[inIdx]
  {
    var writer := Last(chain);
    var next := Next(0, len, NoHeader);
    Bounds(m0, NoHeader, chain, wrap, inIdx);
    var m2 := Placed(m0, writer, true, 0, next, len);
    ShortLen(len);
    assert m2[0] != StartOver && Succ(m2, 0, NoHeader) == next;
    c := chain + [0, next];
    WrapAround(m0, m2, NoHeader, chain, wrap, inIdx, next, c);
  }

  class RingBuffer {
    /** ringBuffer.start[0..29] followed by ringBuffer.end: the state word of each slot. */
    const mem: array<Word>
    var nextWriter: nat
    var inputReader: nat
    var outputReader: nat
    /** The record slots from outputReader to nextWriter, with the ring invariant's bookkeeping. */
    ghost var chain: seq<nat>
    ghost var wrap: nat
    ghost var inIdx: nat

    ghost predicate Valid()
      reads this, mem
    {
      && mem.Length == End + 1
      && Inv(mem[..], NoHeader, chain, wrap, inIdx)
      && outputReader == chain[0]
      && nextWriter == Last(chain)
      && inputReader == chain[inIdx]
    }

    /** packet is a live record of the ring (not the writer's EndOfRing slot). */
    ghost predicate IsRecord(packet: nat)
      reads this
    {
      exists k :: 0 <= k < |chain| - 1 && chain[k] == packet
    }

    /** The ghost chain follows the readers and the writer to their new places. */
    ghost method Rechain(c: seq<nat>, w: nat, i: nat)
      requires mem.Length == End + 1 && Inv(mem[..], NoHeader, c, w, i)
      requires outputReader == c[0] && nextWriter == Last(c) && inputReader == c[i]
      modifies this
      ensures Valid() && chain == c && wrap == w && inIdx == i
      ensures nextWriter == old(nextWriter) && outputReader == old(outputReader) && inputReader == old(inputReader)
    {
      chain, wrap, inIdx := c, w, i;
    }

    /** The static ring: zero-initialised, all three pointers at ringBuffer.start. */
    constructor ()
      ensures Valid() && fresh(mem)
      ensures nextWriter == 0 && inputReader == 0 && outputReader == 0
      ensures forall x :: 0 <= x < mem.Length ==> mem[x] == EndOfRing
    {
      mem := new Word[End + 1](_ => EndOfRing);
      nextWriter, inputReader, outputReader := 0, 0, 0;
      chain, wrap, inIdx := [0], 1, 0;
    }

    /**
     * RingBuffer::Get: a record of len bytes at Placement(nextWriter, outputReader, len), or None
     * (NULL) when the ring is full. The assert that a record placed in an empty ring fits is a
     * precondition.
     */
    method Get(len: Word) returns (p: Option<nat>)
      requires Valid()
      requires Restarts(nextWriter, outputReader, len) ==> Next(0, len, NoHeader) <= End
      modifies this, mem
      ensures Valid()
      ensures p == Placement(old(nextWriter), old(outputReader), len)
      ensures p.None? ==> mem[..] == old(mem[..]) && nextWriter == old(nextWriter)
                          && inputReader == old(inputReader) && outputReader == old(outputReader)
      ensures p.Some? && Restarts(old(nextWriter), old(outputReader), len) ==> inputReader == 0 && outputReader == 0
      ensures !(p.Some? && Restarts(old(nextWriter), old(outputReader), len)) ==>
                inputReader == old(inputReader) && outputReader == old(outputReader)
      ensures p.Some? ==> nextWriter == Next(p.value, len, NoHeader) <= End
      ensures p.Some? ==> mem[..] == Placed(old(mem[..]), old(nextWriter), Wraps(old(nextWriter), old(outputReader), len),
                                            p.value, nextWriter, len)
    {
      ghost var m0 := mem[..];
      var writer := nextWriter;
      var lastReader := outputReader;
      var nextPacket := Next(writer, len, NoHeader);
      if writer >= lastReader {
        if nextPacket > End {
          nextPacket := Next(0, len, NoHeader);
          if writer == lastReader {
            inputReader := 0;
            outputReader := 0;
          } else if nextPacket < lastReader {
            mem[writer] := StartOver;
          } else {
            return None;
          }
          writer := 0;
        }
      } else if nextPacket >= lastReader {
        return None;
      }
      ghost var c, w, i := Allocated(m0, chain, wrap, inIdx, len, writer);
      assert mem[..] == if Wraps(old(nextWriter), lastReader, len) then m0[old(nextWriter) := StartOver] else m0;
      Commit(writer, nextPacket, len, c, w, i);
      p := Some(writer);
    }

    /** The writes that end a successful Get: EndOfRing at the new writer position, the length
        in the record's slot, and NextWriter moved on. */
    method Commit(p: nat, next: nat, len: Word, ghost c: seq<nat>, ghost w: nat, ghost i: nat)
      requires mem.Length == End + 1 && p <= next <= End
      requires Inv(mem[..][next := EndOfRing][p := len], NoHeader, c, w, i)
      requires outputReader == c[0] && inputReader == c[i] && Last(c) == next
      modifies this, mem
      ensures Valid() && nextWriter == next
      ensures outputReader == old(outputReader) && inputReader == old(inputReader)
      ensures mem[..] == old(mem[..])[next := EndOfRing][p := len]
    {
      mem[next] := EndOfRing;
      mem[p] := len;
      nextWriter := next;
      Rechain(c, w, i);
    }

    /**
     * RingBuffer::Release: InputReader and OutputReader each move past the record when they are
     * on it; when OutputReader is not on it, the record stays, marked Skip, until OutputReader
     * passes it.
     */
    method Release(packet: nat)
      requires Valid() && IsRecord(packet) && packet < mem.Length && mem[packet] != StartOver
      modifies this, mem
      ensures Valid() && nextWriter == old(nextWriter)
      ensures var next := Next(packet, GetLen(old(mem[packet])), NoHeader);
              && inputReader == (if old(inputReader) == packet then next else old(inputReader))
              && outputReader == (if old(outputReader) == packet then next else old(outputReader))
      ensures mem[..] == if old(outputReader) == packet then old(mem[..])
                         else old(mem[..])[packet := GetLen(old(mem[packet])) + Skip]
    {
      ghost var k :| 0 <= k < |chain| - 1 && chain[k] == packet;
      Apart(mem[..], NoHeader, chain, wrap, inIdx, k);
      if outputReader == packet {
        ReleaseOldest(packet);
      } else {
        ReleaseLater(packet, k);
      }
    }

    /** Release of the record at OutputReader: both readers that are on it move past it, and it
        leaves the ring. */
    method ReleaseOldest(packet: nat)
      requires Valid() && packet == outputReader && packet != nextWriter && mem[packet] != StartOver
      modifies this
      ensures Valid() && nextWriter == old(nextWriter) && mem[..] == old(mem[..])
      ensures outputReader == Next(packet, GetLen(mem[packet]), NoHeader)
      ensures inputReader == if old(inputReader) == packet then outputReader else old(inputReader)
    {
      ghost var m0 := mem[..];
      ReadersApart(m0, NoHeader, chain, wrap, inIdx);
      ghost var c, w, i := ReleasedOldest(m0, chain, wrap, inIdx);
      var nextPacket := Next(packet, GetLen(mem[packet]), NoHeader);
      if inputReader == packet {
        inputReader := nextPacket;
      }
      outputReader := nextPacket;
      assert mem[..] == m0;
      Rechain(c, w, i);
    }

    /** Release of a record behind OutputReader: it is marked Skip and stays; InputReader moves
        past it when it is on it. */
    method ReleaseLater(packet: nat, ghost k: nat)
      requires Valid() && 0 < k < |chain| - 1 && chain[k] == packet && mem[packet] != StartOver
      modifies this, mem
      ensures Valid() && nextWriter == old(nextWriter) && outputReader == old(outputReader)
      ensures inputReader == if old(inputReader) == packet then Next(packet, GetLen(old(mem[packet])), NoHeader)
                             else old(inputReader)
      ensures mem[..] == old(mem[..])[packet := GetLen(old(mem[packet])) + Skip]
    {
      ghost var m0 := mem[..];
      RecordFacts(m0, chain, wrap, inIdx, k);
      var nextPacket := Next(packet, GetLen(mem[packet]), NoHeader);
      if inputReader == packet {
        inputReader := nextPacket;
      }
      SetFlag(m0[packet], Skip);
      mem[packet] := BitOr(mem[packet], Skip);
      ghost var m1 := mem[..];
      assert m1 == m0[packet := GetLen(m0[packet]) + Skip];
      ghost var i := ReleasedLater(m0, m1, chain, wrap, inIdx, k);
      Rechain(chain, wrap, i);
    }

    /** InputQueue::Push as intended: an unfinished record joins the input chain. */
    method InputPush(packet: nat)
      requires Valid() && IsRecord(packet) && packet < mem.Length && Unfinished(mem[packet])
      modifies mem
      ensures Valid()
      ensures mem[..] == old(mem[..])[packet := old(mem[packet]) + Input]
    {
      ghost var k :| 0 <= k < |chain| - 1 && chain[k] == packet;
      SetFlag(mem[packet], Input);
      mem[packet] := BitOr(mem[packet], Input);
      MarkedInput(old(mem[..]), mem[..], chain, wrap, inIdx, k);
    }

    /**
     * OutputQueue::Push as intended: the record gets its length with the Output flag. An input
     * record (the one InputQueue::Pop returned, at InputReader) is passed by InputReader; an
     * unfinished record simply joins the output chain.
     */
    method OutputPush(packet: nat)
      requires Valid() && IsRecord(packet) && packet < mem.Length
      requires Unfinished(mem[packet]) || (Flags(mem[packet]) == Input && packet == inputReader)
      modifies this, mem
      ensures Valid() && nextWriter == old(nextWriter) && outputReader == old(outputReader)
      ensures mem[..] == old(mem[..])[packet := GetLen(old(mem[packet])) + Output]
      ensures inputReader == if HasInput(old(mem[packet])) then Next(packet, GetLen(old(mem[packet])), NoHeader)
                             else old(inputReader)
    {
      if HasInput(mem[packet]) {
        OutputPushInput(packet);
      } else {
        OutputPushUnfinished(packet);
      }
    }

    /** OutputQueue::Push of the input record at InputReader: InputReader passes it. */
    method OutputPushInput(packet: nat)
      requires Valid() && packet == inputReader && Flags(mem[packet]) == Input
      modifies this, mem
      ensures Valid() && nextWriter == old(nextWriter) && outputReader == old(outputReader)
      ensures mem[..] == old(mem[..])[packet := GetLen(old(mem[packet])) + Output]
      ensures inputReader == Next(packet, GetLen(old(mem[packet])), NoHeader)
    {
      ghost var m0 := mem[..];
      ReleaseFacts(m0, NoHeader, chain, wrap, inIdx, inIdx);
      var len := GetLen(mem[packet]);
      inputReader := Next(packet, len, NoHeader);
      mem[packet] := BitOr(len, Output);
      Passed(m0, mem[..], NoHeader, chain, wrap, inIdx, Output);
      inIdx := inIdx + 1;
    }

    /** OutputQueue::Push of an unfinished record: it joins the output chain where it lies. */
    method OutputPushUnfinished(packet: nat)
      requires Valid() && IsRecord(packet) && packet < mem.Length && Unfinished(mem[packet])
      modifies mem
      ensures Valid()
      ensures mem[..] == old(mem[..])[packet := GetLen(old(mem[packet])) + Output]
    {
      ghost var m0 := mem[..];
      ghost var k :| 0 <= k < |chain| - 1 && chain[k] == packet;
      ShortLen(m0[packet]);
      mem[packet] := BitOr(GetLen(mem[packet]), Output);
      ghost var m1 := mem[..];
      MarkedOutput(m0, m1, chain, wrap, inIdx, k);
    }

    /**
     * InputQueue::Pop: InputReader moves over the records that carry the Output bit (output and
     * Skip records, the StartOver mark); OutputReader, when it was on the same record, follows up
     * to the first finished output record on the way. The record reached is returned when it is
     * an input record.
     */
    method InputPop() returns (p: Option<nat>)
      requires Valid()
      modifies this
      ensures Valid() && nextWriter == old(nextWriter) && mem[..] == old(mem[..])
      ensures var j := FirstWithoutOutput(old(mem[..]), old(chain), old(inIdx));
              && inputReader == old(chain)[j]
              && outputReader == if old(outputReader) == old(inputReader)
                                 then old(chain)[FirstPureOutput(old(mem[..]), old(chain), old(inIdx), j)]
                                 else old(outputReader)
      ensures p == if HasInput(mem[inputReader]) then Some(inputReader) else None
      ensures p.Some? ==> Flags(mem[inputReader]) == Input
    {
      ghost var m := mem[..];
      InvWalkable(m, NoHeader, chain, wrap, inIdx);
      ReadersApart(m, NoHeader, chain, wrap, inIdx);
      var reader, output, skipInput, skipOutput, state, j :=
        ScanInput(mem, NoHeader, chain, inIdx, inputReader, outputReader);
      Apart(m, NoHeader, chain, wrap, inIdx, 0);
      ghost var c, w, i := SkippedInput(m, NoHeader, chain, wrap, inIdx, j);
      FlagsOf(state);
      if skipInput {
        inputReader := reader;
        if skipOutput {
          output := reader;
        }
      }
      outputReader := output;
      chain, wrap, inIdx := c, w, i;
      p := if HasInput(state) then Some(reader) else None;
    }

    /**
     * OutputQueue::Pop: OutputReader moves over the Skip records (and the StartOver mark);
     * InputReader is carried along when it is passed. The record reached is returned when it
     * carries the Output bit.
     */
    method OutputPop() returns (p: Option<nat>)
      requires Valid()
      modifies this
      ensures Valid() && nextWriter == old(nextWriter) && mem[..] == old(mem[..])
      ensures var j := FirstNotSkip(old(mem[..]), old(chain), 0);
              && outputReader == old(chain)[j]
              && inputReader == if old(inIdx) < j then old(chain)[j] else old(inputReader)
      ensures p == if HasOutput(mem[outputReader]) then Some(outputReader) else None
      ensures p.Some? ==> Flags(mem[outputReader]) == Output
    {
      ghost var m := mem[..];
      var reader, skipOutput, skipInput, state, j :=
        ScanOutput(mem, NoHeader, chain, wrap, inIdx, inputReader, outputReader);
      ghost var c, w, i := SkippedOutput(m, NoHeader, chain, wrap, inIdx, j);
      FlagsOf(state);
      if skipOutput {
        outputReader := reader;
        if skipInput {
          inputReader := reader;
        }
      }
      chain, wrap, inIdx := c, w, i;
      p := if HasOutput(state) then Some(reader) else None;
    }
  }
}
