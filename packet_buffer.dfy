// The packet FIFO of PacketBuffer.c: one static ring of 16-bit slots shared by
// the input chain (received frames) and the output chain (frames to send).
// Records are allocated at NextWriter, marked with PutInput/PutOutput, found by
// GetInput/GetOutput and freed by the Release functions; OutputReader is the
// oldest live record, and no allocation may run past it.
module PacketBuffer {
  import opened PacketState
  import opened RingChain
  import opened Wrappers
  import Helper
  import Resources
  import PacketCheck
  import Bytes

  /** PACKETBUFFER_LEN as written: PACKET_LEN_MAX (14 + 576) bytes, with no room for the state
      word in front of a frame of that length. */
  const PacketBufferLenAsWritten: nat := Resources.PacketLenMax

  /** RingBuffer.End for that capacity: DIV_ROUND_UP(PACKETBUFFER_LEN, sizeof(Packet_t)). */
  const EndAsWritten: nat := 295

  /** PACKETBUFFER_LEN as the ring needs it: one frame of PACKET_LEN_MAX bytes behind its
      state word. The ring below is built on this capacity. */
  const PacketBufferLen: nat := Resources.PacketLenMax + Header

  /** Slot index of RingBuffer.End: DIV_ROUND_UP(PACKETBUFFER_LEN, sizeof(Packet_t)) slots precede it. */
  const End: nat := 296

  /** offsetof(Packet_t, data[0]): the state word in front of every payload. */
  const Header: nat := 2

  /** RingBuffer.End is the slot right after the last whole slot of the buffer. */
  lemma EndIsRounded()
    ensures EndAsWritten == Helper.DivRoundUp(PacketBufferLenAsWritten, SlotBytes)
    ensures End == Helper.DivRoundUp(PacketBufferLen, SlotBytes)
  {
  }

  /** The first 24 bytes of a UDP frame for the station whose IPv4 Total Length is 576. */
  function LargestFrameStart(): (s: seq<Bytes.Byte>)
    ensures |s| == PacketCheck.CheckLen && s[..6] == Resources.OwnMAC
  {
    Resources.OwnMAC + [0, 0, 0, 0, 0, 0, 0x08, 0x00, 0x45, 0, 0x02, 0x40, 0, 0, 0x40, 0, 64, 17]
  }

  /** With the capacity as written, the largest frame the USB receiver accepts does not fit an
      empty ring: allocateNew restarts at slot 0, and the record's successor slot lies past
      RingBuffer.End, so the assert at the restart fails (without asserts, the EndOfRing word
      is written behind the buffer). */
  lemma LargestFrameOverruns()
    ensures PacketCheck.Checked(LargestFrameStart()) == PacketBufferLenAsWritten
    ensures Next(0, PacketBufferLenAsWritten, Header) == EndAsWritten + 1
  {
    var s := LargestFrameStart();
    PacketCheck.CheckedIPv4(s);
    assert PacketCheck.ForStation(s);
    assert Bytes.Be16(s, 16) == 576 && Bytes.Be16(s, 20) == 0x4000;
  }

  /** With the corrected capacity every frame length the USB receiver accepts fits an empty
      ring from slot 0: the precondition of New and Allocate holds for it. */
  lemma CheckedFramesFit(s: seq<Bytes.Byte>)
    requires |s| >= PacketCheck.CheckLen
    ensures Next(0, PacketCheck.Checked(s), Header) <= End
  {
  }

  /** The ring is empty (writer on the oldest reader) and the record does not fit before End:
      allocateNew restarts the whole ring at slot 0. */
  predicate Restarts(writer: nat, lastReader: nat, len: nat)
  {
    writer == lastReader && Next(writer, len, Header) > End
  }

  /** The writer is in the upper part and the record does not fit before End, but the ring is not
      empty: allocateNew marks the writer's slot StartOver and continues at slot 0. */
  predicate Wraps(writer: nat, lastReader: nat, len: nat)
  {
    writer > lastReader && Next(writer, len, Header) > End
  }

  /** A record of len bytes at slot p stays clear of the oldest live record at lastReader:
      below it, it ends before it; at or above it, it ends no later than End. */
  predicate Fits(p: nat, lastReader: nat, len: nat)
  {
    if p < lastReader then Next(p, len, Header) < lastReader else Next(p, len, Header) <= End
  }

  /**
   * allocateNew's choice of slot for a record of len bytes, given NextWriter and OutputReader:
   * the writer's slot if the record fits there, else slot 0 if the writer is in the upper part
   * and the record fits below the oldest reader (or the ring is empty), else None (NULL).
   */
  function Placement(writer: nat, lastReader: nat, len: nat): (p: Option<nat>)
    requires Restarts(writer, lastReader, len) ==> Next(0, len, Header) <= End
    ensures p.Some? ==> p.value == writer || p.value == 0
    ensures p.Some? ==> Fits(p.value, if Restarts(writer, lastReader, len) then 0 else lastReader, len)
    ensures Fits(writer, lastReader, len) ==> p == Some(writer)
    ensures p.None? <==>
              (!Fits(writer, lastReader, len) && (writer < lastReader || (writer != lastReader && Next(0, len, Header) >= lastReader)))
  {
    var next := Next(writer, len, Header);
    if writer >= lastReader then
      if next <= End then Some(writer)
      else if writer == lastReader then Some(0)
      else if Next(0, len, Header) < lastReader then Some(0)
      else None
    else if next >= lastReader then None
    else Some(writer)
  }

  /** The shrink branch of Packet_Resize for the last record of the ring, as written:
      the record gets its new length and NextWriter moves to its new end, but no EndOfRing
      is written there. Returns the new slot contents and the new NextWriter. */
  function ShrinkLastAsWritten(m: seq<Word>, packet: nat, len: Word): (r: (seq<Word>, nat))
    requires packet < |m| && len < 0x4000
    ensures |r.0| == |m| && r.1 > packet
    ensures Succ(r.0, packet, Header) == r.1
    ensures r.1 < |m| ==> r.0[r.1] == m[r.1]
  {
    (m[packet := len], Next(packet, len, Header))
  }

  /** A ring holding one unfinished 18-byte record at slot 0 whose payload word at slot 2
      looks like an output record (0x8005). */
  function StaleRing(): (m: seq<Word>)
    ensures |m| == End + 1 && m[0] == 18 && m[2] == 0x8005 && m[10] == EndOfRing
  {
    seq(End + 1, i => if i == 0 then 18 else if i == 2 then 0x8005 else EndOfRing)
  }

  /** Shrinking that record to 2 bytes with the code as written leaves the payload word at the
      new writer slot: the ring invariant is lost, and the word reads as a finished output record. */
  lemma ShrinkLastLeavesStaleWord()
    ensures Inv(StaleRing(), Header, [0, 10], 2, 0)
    ensures var r := ShrinkLastAsWritten(StaleRing(), 0, 2);
            r.1 == 2 && Flags(r.0[2]) == Output && !Inv(r.0, Header, [0, 2], 2, 0)
  {
    var m := StaleRing();
    StaleRingValid(m);
    var r := ShrinkLastAsWritten(m, 0, 2);
    assert r.1 == 2 && r.0[2] == 0x8005;
    assert r.0[Last([0, 2])] != EndOfRing;
  }

  /** A ring whose slot 0 holds an unfinished 18-byte record, with the writer at slot 10,
      satisfies the ring invariant with that one record. */
  lemma StaleRingValid(m: seq<Word>)
    requires |m| == End + 1 && m[0] == 18 && m[10] == EndOfRing
    ensures Inv(m, Header, [0, 10], 2, 0)
  {
    var chain := [0, 10];
    assert GetLen(m[0]) == 18;
    assert Succ(m, chain[0], Header) == chain[1];
  }

  /** Packet_ReleaseInput as written: InputReader always moves to the record after packet;
      OutputReader moves with it when it was on packet, otherwise packet is marked Skip.
      Returns the new slot contents, InputReader and OutputReader. */
  function ReleaseInputAsWritten(m: seq<Word>, outputReader: nat, packet: nat): (r: (seq<Word>, nat, nat))
    requires packet < |m|
    ensures |r.0| == |m| && r.1 > packet
    ensures Succ(r.0, packet, Header) == r.1 || r.0[packet] == StartOver
    ensures outputReader == packet ==> r.0 == m && r.2 == r.1
    ensures outputReader != packet ==> r.2 == outputReader && IsSkip(r.0[packet])
  {
    SetFlag(m[packet], Skip);
    var next := Next(packet, GetLen(m[packet]), Header);
    if outputReader == packet then (m, next, next)
    else (m[packet := BitOr(m[packet], Skip)], next, outputReader)
  }

  /** A ring with a 2-byte input record A at slot 0 (both readers on it), an unfinished
      2-byte record B at slot 2 (just allocated for the next USB frame), and the writer at 4. */
  function WaitingRing(): (m: seq<Word>)
    ensures |m| == End + 1 && m[0] == Input + 2 && m[2] == 2 && m[4] == EndOfRing
  {
    seq(End + 1, i => if i == 0 then Input + 2 else if i == 2 then 2 else EndOfRing)
  }

  /** Releasing the unfinished record B with the code as written (the short-read path of the
      USB receiver) carries InputReader past the waiting input record A onto the writer's slot:
      A keeps its Input flag without the Output bit, so no later GetInput reaches it and GetOutput
      stops on it without returning it. The ring invariant is lost. */
  lemma ReleaseInputSkipsWaiting()
    ensures Inv(WaitingRing(), Header, [0, 2, 4], 3, 0)
    ensures var r := ReleaseInputAsWritten(WaitingRing(), 0, 2);
            && r.1 == 4 && r.2 == 0 && r.0[4] == EndOfRing
            && Flags(r.0[0]) == Input && !HasOutput(r.0[0]) && !IsSkip(r.0[0])
            && !Inv(r.0, Header, [0, 2, 4], 3, 2)
  {
    var m := WaitingRing();
    WaitingRingValid(m);
    var r := ReleaseInputAsWritten(m, 0, 2);
    assert r.1 == Next(2, 2, Header) == 4;
    assert r.0[0] == m[0] && r.0[4] == m[4];
    assert Flags(m[0]) == Input;
  }

  /** The slots of WaitingRing form the chain 0, 2, 4 with both readers at slot 0. */
  lemma WaitingRingValid(m: seq<Word>)
    requires |m| == End + 1 && m[0] == Input + 2 && m[2] == 2 && m[4] == EndOfRing
    ensures Inv(m, Header, [0, 2, 4], 3, 0)
  {
    var chain := [0, 2, 4];
    assert GetLen(m[0]) == 2 && GetLen(m[2]) == 2;
    assert Succ(m, chain[0], Header) == chain[1];
    assert Succ(m, chain[1], Header) == chain[2];
  }

  class RingBuffer {
    /** RingBuffer.Start[0..295] followed by RingBuffer.End: one 16-bit word per slot. */
    const mem: array<Word>
    var nextWriter: nat
    var inputReader: nat
    var outputReader: nat
    /** The record slots from OutputReader to NextWriter, with the ring invariant's bookkeeping. */
    ghost var chain: seq<nat>
    ghost var wrap: nat
    ghost var inIdx: nat

    ghost predicate Valid()
      reads this, mem
    {
      && mem.Length == End + 1
      && Inv(mem[..], Header, chain, wrap, inIdx)
      && outputReader == chain[0]
      && nextWriter == Last(chain)
      && inputReader == chain[inIdx]
    }

    /** packet is a live record of the ring (not the writer's EndOfRing slot). */
    ghost predicate IsRecord(packet: nat)
      reads this
    {
      exists k :: 0 <= k < |chain| - 1 && chain[k] == packet
    }

    /** The zero-initialised ring: all three pointers at Start, which holds EndOfRing. */
    constructor ()
      ensures Valid() && fresh(mem)
      ensures nextWriter == 0 && inputReader == 0 && outputReader == 0
      ensures forall x :: 0 <= x < mem.Length ==> mem[x] == EndOfRing
    {
      mem := new Word[End + 1](_ => EndOfRing);
      nextWriter, inputReader, outputReader := 0, 0, 0;
      chain, wrap, inIdx := [0], 1, 0;
    }

    /**
     * allocateNew: places a record of len bytes at Placement(NextWriter, OutputReader, len),
     * marking the writer's slot StartOver when it wraps to slot 0 and resetting both readers
     * when the ring was empty. With resize, the old record becomes Skip and its payload is
     * copied into the new one.
     */
    method Allocate(len: Word, resize: bool, packet: nat, oldLen: Word) returns (p: Option<nat>)
      requires Valid()
      requires Restarts(nextWriter, outputReader, len) ==> Next(0, len, Header) <= End
      requires resize ==> IsRecord(packet) && packet < mem.Length && mem[packet] == oldLen && Unfinished(oldLen)
      requires resize ==> Next(packet, oldLen, Header) < Next(packet, len, Header)
      modifies this, mem
      ensures Valid()
      ensures p == Placement(old(nextWriter), old(outputReader), len)
      ensures p.None? ==> mem[..] == old(mem[..]) && nextWriter == old(nextWriter)
      ensures p.Some? && Restarts(old(nextWriter), old(outputReader), len) ==> inputReader == 0 && outputReader == 0
      ensures !(p.Some? && Restarts(old(nextWriter), old(outputReader), len)) ==>
                inputReader == old(inputReader) && outputReader == old(outputReader)
      ensures p.Some? ==> nextWriter == Next(p.value, len, Header)
      ensures p.Some? ==>
                mem[..] == Filled(if Wraps(old(nextWriter), old(outputReader), len)
                                  then old(mem[..])[old(nextWriter) := StartOver] else old(mem[..]),
                                  p.value, nextWriter, len, resize, packet, oldLen)
    {
      ghost var m0 := mem[..];
      var writer := nextWriter;
      var lastReader := outputReader;
      var next := Next(writer, len, Header);
      ghost var restart, wraps := false, false;
      if writer >= lastReader {
        if next > End {
          next := Next(0, len, Header);
          if writer == lastReader {
            inputReader := 0;
            outputReader := 0;
            restart := true;
          } else if next < lastReader {
            mem[writer] := StartOver;
            assert mem[..] == m0[writer := StartOver];
            wraps := true;
          } else {
            return None;
          }
          writer := 0;
        }
      } else if next >= lastReader {
        return None;
      }
      // Where the branches meet: what they decided, in one place.
      assert restart == Restarts(old(nextWriter), lastReader, len) && wraps == Wraps(old(nextWriter), lastReader, len);
      assert Placement(old(nextWriter), lastReader, len) == Some(writer) && next == Next(writer, len, Header);
      assert mem[..] == if wraps then m0[old(nextWriter) := StartOver] else m0;
      ghost var k: nat := 0;
      if resize {
        k :| 0 <= k < |chain| - 1 && chain[k] == packet;
      }
      Place(m0, k, old(nextWriter), lastReader, restart, wraps, writer, next, len, resize, packet, oldLen);
      p := Some(writer);
    }

    /**
     * The tail of allocateNew once the slot is chosen: the record is written by Fill and its end
     * becomes NextWriter. m0 is the ring before allocateNew; the chain is extended to match.
     */
    method Place(ghost m0: seq<Word>, ghost k: nat, ghost writer0: nat, ghost lastReader: nat,
                 ghost restart: bool, ghost wraps: bool,
                 writer: nat, next: nat, len: Word, resize: bool, packet: nat, oldLen: Word)
      requires mem.Length == End + 1 && Inv(m0, Header, chain, wrap, inIdx) && |m0| == End + 1
      requires writer0 == Last(chain) && lastReader == chain[0]
      requires restart == Restarts(writer0, lastReader, len) && wraps == Wraps(writer0, lastReader, len)
      requires restart ==> Next(0, len, Header) <= End
      requires Placement(writer0, lastReader, len) == Some(writer) && next == Next(writer, len, Header)
      requires mem[..] == if wraps then m0[writer0 := StartOver] else m0
      requires inputReader == (if restart then 0 else chain[inIdx])
      requires outputReader == (if restart then 0 else lastReader)
      requires resize ==> k < |chain| - 1 && chain[k] == packet && m0[packet] == oldLen && Unfinished(oldLen)
      requires resize ==> Next(packet, oldLen, Header) < Next(packet, len, Header)
      modifies this, mem
      ensures Valid()
      ensures mem[..] == Filled(old(mem[..]), writer, next, len, resize, packet, oldLen)
      ensures nextWriter == next && inputReader == old(inputReader) && outputReader == old(outputReader)
    {
      PlacementCases(m0, chain, wrap, inIdx, writer0, lastReader, restart, wraps, writer, next, len);
      if resize {
        CopyBounds(m0, chain, wrap, inIdx, k, packet, oldLen, len, writer, next);
      }
      Fill(writer, next, len, resize, packet, oldLen);
      ghost var c, w, i := Allocated(m0, mem[..], chain, wrap, inIdx, k,
                                     restart, wraps, writer, next, len, resize, packet, oldLen);
      nextWriter := next;
      Rechain(c, w, i);
    }

    /** Packet_New: a new unfinished record of len bytes, or None when the ring is full. */
    method New(len: Word) returns (p: Option<nat>)
      requires Valid()
      requires Restarts(nextWriter, outputReader, len) ==> Next(0, len, Header) <= End
      modifies this, mem
      ensures Valid()
      ensures p == Placement(old(nextWriter), old(outputReader), len)
      ensures p.None? ==> mem[..] == old(mem[..]) && nextWriter == old(nextWriter)
      ensures p.Some? && Restarts(old(nextWriter), old(outputReader), len) ==> inputReader == 0 && outputReader == 0
      ensures !(p.Some? && Restarts(old(nextWriter), old(outputReader), len)) ==>
                inputReader == old(inputReader) && outputReader == old(outputReader)
      ensures p.Some? ==> nextWriter == Next(p.value, len, Header)
      ensures p.Some? ==>
                mem[..] == Filled(if Wraps(old(nextWriter), old(outputReader), len)
                                  then old(mem[..])[old(nextWriter) := StartOver] else old(mem[..]),
                                  p.value, nextWriter, len, false, 0, 0)
    {
      p := Allocate(len, false, 0, 0);
    }

    /**
     * Packet_Resize, with the shrink of the last record corrected to write EndOfRing at the new
     * writer slot. A shrink hands the freed tail back to the writer (last record) or turns it into
     * a Skip record; an extension grows the last record in place when it still fits, and otherwise
     * moves the record with Allocate, leaving the old one as Skip. The two clauses about the old
     * state (a live record means a non-empty ring, and the record ends by End) follow from the
     * requires; the later clauses need them to be well-formed.
     */
    method Resize(packet: nat, len: Word) returns (p: Option<nat>)
      requires Valid() && IsRecord(packet) && packet < mem.Length
      requires BitAnd(mem[packet], Skip) == 0
      modifies this, mem
      ensures Valid()
      ensures inputReader == old(inputReader) && outputReader == old(outputReader)
      ensures old(outputReader) != old(nextWriter)
      ensures Next(packet, old(mem[packet]), Header) <= End
      ensures var np, on := Next(packet, len, Header), Next(packet, old(mem[packet]), Header);
              np <= on ==> p == Some(packet) && mem[packet] == len
      ensures var np, on := Next(packet, len, Header), Next(packet, old(mem[packet]), Header);
              np < on && old(nextWriter) == on ==>
                nextWriter == np && mem[..] == old(mem[..])[np := EndOfRing][packet := len]
      ensures var np, on := Next(packet, len, Header), Next(packet, old(mem[packet]), Header);
              np < on && old(nextWriter) != on ==>
                && nextWriter == old(nextWriter)
                && mem[..] == old(mem[..])[np := 2 * (on - np) - Header + Skip][packet := len]
      ensures var np, on := Next(packet, len, Header), Next(packet, old(mem[packet]), Header);
              np == on ==> nextWriter == old(nextWriter) && mem[..] == old(mem[..])[packet := len]
      ensures var np, on := Next(packet, len, Header), Next(packet, old(mem[packet]), Header);
              on < np && old(nextWriter) == on && Fits(packet, old(outputReader), len) ==>
                && p == Some(packet) && nextWriter == np
                && mem[..] == old(mem[..])[np := EndOfRing][packet := len]
      ensures var np, on := Next(packet, len, Header), Next(packet, old(mem[packet]), Header);
              on < np && !(old(nextWriter) == on && Fits(packet, old(outputReader), len)) ==>
                && p == Placement(old(nextWriter), old(outputReader), len)
                && (p.None? ==> mem[..] == old(mem[..]) && nextWriter == old(nextWriter))
                && (p.Some? ==> nextWriter == Next(p.value, len, Header))
                && (p.Some? ==>
                      mem[..] == Filled(if Wraps(old(nextWriter), old(outputReader), len)
                                        then old(mem[..])[old(nextWriter) := StartOver] else old(mem[..]),
                                        p.value, nextWriter, len, true, packet, old(mem[packet])))
    {
      var oldLen := mem[packet];
      ghost var k :| 0 <= k < |chain| - 1 && chain[k] == packet;
      ResizeFacts(mem[..], chain, wrap, inIdx, k);
      var np := Next(packet, len, Header);
      var on := Next(packet, oldLen, Header);

      if on >= np {
        Shrink(packet, len, np, on, k);
        p := Some(packet);
      } else {
        p := Extend(packet, len, oldLen, np, on, k);
      }
    }

    /** The shrink (or same size) branch of Packet_Resize: the record ends at np instead of on. */
    method Shrink(packet: nat, len: Word, np: nat, on: nat, ghost k: nat)
      requires Valid() && k < |chain| - 1 && chain[k] == packet && Unfinished(mem[packet])
      requires np == Next(packet, len, Header) && on == chain[k + 1] && np <= on
      modifies this, mem
      ensures Valid()
      ensures inputReader == old(inputReader) && outputReader == old(outputReader)
      ensures mem[packet] == len
      ensures np < on && old(nextWriter) == on ==>
                nextWriter == np && mem[..] == old(mem[..])[np := EndOfRing][packet := len]
      ensures np < on && old(nextWriter) != on ==>
                && nextWriter == old(nextWriter)
                && mem[..] == old(mem[..])[np := 2 * (on - np) - Header + Skip][packet := len]
      ensures np == on ==> nextWriter == old(nextWriter) && mem[..] == old(mem[..])[packet := len]
    {
      ResizeFacts(mem[..], chain, wrap, inIdx, k);
      if on > np {
        if nextWriter == on {
          MoveWriter(packet, len, np, k);
        } else {
          SplitOff(packet, len, np, on, k);
        }
      } else {
        SetLen(packet, len, k);
      }
    }

    /** The extension branch of Packet_Resize: in place when the record is the last one and the
        longer record still fits, otherwise moved by allocateNew. */
    method Extend(packet: nat, len: Word, oldLen: Word, np: nat, on: nat, ghost k: nat) returns (p: Option<nat>)
      requires Valid() && k < |chain| - 1 && chain[k] == packet && mem[packet] == oldLen && Unfinished(oldLen)
      requires np == Next(packet, len, Header) && on == Next(packet, oldLen, Header) && on == chain[k + 1] && on < np
      requires outputReader != nextWriter
      modifies this, mem
      ensures Valid()
      ensures inputReader == old(inputReader) && outputReader == old(outputReader)
      ensures old(nextWriter) == on && Fits(packet, old(outputReader), len) ==>
                && p == Some(packet) && nextWriter == np
                && mem[..] == old(mem[..])[np := EndOfRing][packet := len]
      ensures !(old(nextWriter) == on && Fits(packet, old(outputReader), len)) ==>
                && p == Placement(old(nextWriter), old(outputReader), len)
                && (p.None? ==> mem[..] == old(mem[..]) && nextWriter == old(nextWriter))
                && (p.Some? ==> nextWriter == Next(p.value, len, Header))
                && (p.Some? ==>
                      mem[..] == Filled(if Wraps(old(nextWriter), old(outputReader), len)
                                        then old(mem[..])[old(nextWriter) := StartOver] else old(mem[..]),
                                        p.value, nextWriter, len, true, packet, oldLen))
    {
      var lastReader := outputReader;
      var writer := nextWriter;
      if on == writer && (if packet < lastReader then np < lastReader else np <= End) {
        ResizeFacts(mem[..], chain, wrap, inIdx, k);
        MoveWriter(packet, len, np, k);
        return Some(packet);
      }
      p := Allocate(len, true, packet, oldLen);
    }

    /** Packet_Resize to the same number of slots: only the state word changes. */
    method SetLen(packet: nat, len: Word, ghost k: nat)
      requires Valid() && k < |chain| - 1 && chain[k] == packet && Unfinished(mem[packet])
      requires Next(packet, len, Header) == chain[k + 1]
      modifies mem
      ensures Valid() && mem[..] == old(mem[..])[packet := len]
    {
      ghost var m2 := mem[..][packet := len];
      ResizeSame(mem[..], m2, chain, wrap, inIdx, k, len);
      mem[packet] := len;
      assert mem[..] == m2;
    }

    /** Packet_Resize of the last record in place, shrinking or growing: the record ends at np,
        which gets EndOfRing and becomes NextWriter. */
    method MoveWriter(packet: nat, len: Word, np: nat, ghost k: nat)
      requires Valid() && k == |chain| - 2 && chain[k] == packet && Unfinished(mem[packet])
      requires np == Next(packet, len, Header)
      requires np < chain[k + 1] || (chain[k + 1] < np && Fits(packet, outputReader, len))
      modifies this, mem
      ensures Valid() && nextWriter == np
      ensures inputReader == old(inputReader) && outputReader == old(outputReader)
      ensures mem[..] == old(mem[..])[np := EndOfRing][packet := len]
    {
      ghost var m2 := mem[..][np := EndOfRing][packet := len];
      ghost var c := ResizeLast(mem[..], m2, chain, wrap, inIdx, k, len);
      mem[np] := EndOfRing;
      mem[packet] := len;
      nextWriter := np;
      assert mem[..] == m2;
      Rechain(c, wrap, inIdx);
    }

    /** Packet_Resize shrinking a record that is not the last: the freed tail from np up to the
        old successor on becomes a Skip record. */
    method SplitOff(packet: nat, len: Word, np: nat, on: nat, ghost k: nat)
      requires Valid() && k + 2 < |chain| && chain[k] == packet && Unfinished(mem[packet])
      requires np == Next(packet, len, Header) && on == chain[k + 1] && np < on
      modifies this, mem
      ensures Valid() && nextWriter == old(nextWriter)
      ensures inputReader == old(inputReader) && outputReader == old(outputReader)
      ensures mem[..] == old(mem[..])[np := 2 * (on - np) - Header + Skip][packet := len]
      ensures IsSkip(mem[np]) && GetLen(mem[np]) == 2 * (on - np) - Header && Succ(mem[..], np, Header) == on
    {
      ghost var m2 := mem[..][np := 2 * (on - np) - Header + Skip][packet := len];
      ghost var c, w := ResizeMiddle(mem[..], m2, chain, wrap, inIdx, k, len);
      LenOrFlag(2 * (on - np) - Header, Skip);
      mem[np] := BitOr(2 * (on - np) - Header, Skip);
      mem[packet] := len;
      assert mem[..] == m2;
      Rechain(c, w, inIdx);
    }

    /** The ghost chain follows the readers and the writer to their new places. */
    ghost method Rechain(c: seq<nat>, w: nat, i: nat)
      requires mem.Length == End + 1 && Inv(mem[..], Header, c, w, i)
      requires outputReader == c[0] && nextWriter == Last(c) && inputReader == c[i]
      modifies this
      ensures Valid() && chain == c && wrap == w && inIdx == i
      ensures nextWriter == old(nextWriter) && outputReader == old(outputReader) && inputReader == old(inputReader)
    {
      chain, wrap, inIdx := c, w, i;
    }

    /** Packet_PutInput: an unfinished record joins the input chain. */
    method PutInput(packet: nat)
      requires Valid() && IsRecord(packet) && packet < mem.Length
      requires BitAnd(mem[packet], Skip) == 0
      modifies mem
      ensures Valid()
      ensures mem[packet] == old(mem[packet]) + Input
      ensures forall x :: 0 <= x < mem.Length && x != packet ==> mem[x] == old(mem[x])
    {
      Mark(packet, Input);
    }

    /** Packet_PutOutput: an unfinished record joins the output chain. */
    method PutOutput(packet: nat)
      requires Valid() && IsRecord(packet) && packet < mem.Length
      requires BitAnd(mem[packet], Skip) == 0
      modifies mem
      ensures Valid()
      ensures mem[packet] == old(mem[packet]) + Output
      ensures forall x :: 0 <= x < mem.Length && x != packet ==> mem[x] == old(mem[x])
    {
      Mark(packet, Output);
    }

    /** packet->state |= flag on an unfinished record. */
    method Mark(packet: nat, flag: Word)
      requires Valid() && IsRecord(packet) && packet < mem.Length
      requires BitAnd(mem[packet], Skip) == 0 && (flag == Input || flag == Output)
      modifies mem
      ensures Valid()
      ensures mem[packet] == old(mem[packet]) + flag
      ensures forall x :: 0 <= x < mem.Length && x != packet ==> mem[x] == old(mem[x])
    {
      ghost var m0 := mem[..];
      ghost var k :| 0 <= k < |chain| - 1 && chain[k] == packet;
      assert Unfinished(m0[packet]);
      SetFlag(mem[packet], flag);
      mem[packet] := BitOr(mem[packet], flag);
      MarkKeeps(m0, mem[..], chain, wrap, inIdx, k, flag);
    }

    /**
     * Packet_GetInput: InputReader moves over the records that carry the Output bit (output
     * records, Skip records and the StartOver mark); when OutputReader was on the same record it
     * follows, stopping at the first finished output record on the way. The record reached is
     * returned when it is an input record.
     */
    method GetInput() returns (p: Option<nat>)
      requires Valid()
      modifies this
      ensures Valid() && nextWriter == old(nextWriter) && mem[..] == old(mem[..])
      ensures var j := FirstWithoutOutput(old(mem[..]), old(chain), old(inIdx));
              && inputReader == old(chain)[j]
              && outputReader == if old(outputReader) == old(inputReader)
                                 then old(chain)[FirstPureOutput(old(mem[..]), old(chain), old(inIdx), j)]
                                 else old(outputReader)
      ensures p == if HasInput(mem[inputReader]) then Some(inputReader) else None
      ensures p.Some? ==> Flags(mem[inputReader]) == Input
    {
      ghost var m := mem[..];
      InvWalkable(m, Header, chain, wrap, inIdx);
      ReadersApart(m, Header, chain, wrap, inIdx);
      var reader, output, skipInput, skipOutput, state, j := ScanInput(mem, Header, chain, inIdx, inputReader, outputReader);
      Apart(m, Header, chain, wrap, inIdx, 0);
      ghost var c, w, i := SkippedInput(m, Header, chain, wrap, inIdx, j);
      FlagsOf(state);
      if skipInput {
        inputReader := reader;
        if skipOutput {
          output := reader;
        }
      }
      outputReader := output;
      assert mem[..] == m;
      Rechain(c, w, i);
      p := if HasInput(state) then Some(reader) else None;
    }

    /**
     * Packet_GetOutput: OutputReader moves over the Skip records (and the StartOver mark);
     * InputReader is carried along when it is passed. The record reached is returned when it
     * carries the Output bit.
     */
    method GetOutput() returns (p: Option<nat>)
      requires Valid()
      modifies this
      ensures Valid() && nextWriter == old(nextWriter) && mem[..] == old(mem[..])
      ensures var j := FirstNotSkip(old(mem[..]), old(chain), 0);
              && outputReader == old(chain)[j]
              && inputReader == if old(inIdx) < j then old(chain)[j] else old(inputReader)
      ensures p == if HasOutput(mem[outputReader]) then Some(outputReader) else None
      ensures p.Some? ==> Flags(mem[outputReader]) == Output
    {
      ghost var m := mem[..];
      var reader, skipOutput, skipInput, state, j := ScanOutput(mem, Header, chain, wrap, inIdx, inputReader, outputReader);
      ghost var c, w, i := SkippedOutput(m, Header, chain, wrap, inIdx, j);
      FlagsOf(state);
      if skipOutput {
        outputReader := reader;
        if skipInput {
          inputReader := reader;
        }
      }
      assert mem[..] == m;
      Rechain(c, w, i);
      p := if HasOutput(state) then Some(reader) else None;
    }

    /**
     * Packet_ReleaseInput: a record not yet handed to output (waiting as input, or still
     * unfinished as after a short USB read) is given up. When it is InputReader's record,
     * InputReader moves to the record after it, and OutputReader too when it is on it (the
     * record is then gone); otherwise the record stays in the ring, marked Skip, until
     * OutputReader passes it. A record behind InputReader is only marked Skip: see
     * ReleaseInputAsWritten for the source's unconditional move of InputReader.
     */
    method ReleaseInput(packet: nat)
      requires Valid() && IsRecord(packet) && packet < mem.Length && !HasOutput(mem[packet])
      modifies this, mem
      ensures Valid() && nextWriter == old(nextWriter)
      ensures inputReader == if old(inputReader) == packet
                             then Next(packet, GetLen(old(mem[packet])), Header) else old(inputReader)
      ensures old(outputReader) == packet ==> outputReader == inputReader && mem[..] == old(mem[..])
      ensures old(outputReader) != packet ==>
                && outputReader == old(outputReader)
                && mem[..] == old(mem[..])[packet := GetLen(old(mem[packet])) + Skip]
    {
      ghost var m0 := mem[..];
      ghost var k :| 0 <= k < |chain| - 1 && chain[k] == packet;
      Releasable(m0, Header, chain, wrap, inIdx, k);
      var next := Next(packet, GetLen(mem[packet]), Header);
      if outputReader == packet {
        assert k == 0 && inIdx == 0;
        ghost var c, w, i := DropFirst(m0, Header, chain, wrap, inIdx);
        inputReader := next;
        outputReader := next;
        assert mem[..] == m0;
        Rechain(c, w, i);
        assert old(outputReader) == packet;
      } else {
        MarkSkip(packet, next, k);
      }
    }

    /** The branch of Packet_ReleaseInput where OutputReader is elsewhere: the record gains the
        Skip mark, and InputReader moves to next when it was on the record. */
    method MarkSkip(packet: nat, next: nat, ghost k: nat)
      requires Valid() && inIdx <= k < |chain| - 1 && chain[k] == packet && !HasOutput(mem[packet])
      requires next == Next(packet, GetLen(mem[packet]), Header)
      modifies this, mem
      ensures Valid() && nextWriter == old(nextWriter) && outputReader == old(outputReader)
      ensures inputReader == if old(inputReader) == packet then next else old(inputReader)
      ensures mem[..] == old(mem[..])[packet := GetLen(old(mem[packet])) + Skip]
    {
      ghost var m0 := mem[..];
      ghost var m1 := m0[packet := GetLen(m0[packet]) + Skip];
      ghost var i := MarkReleased(m0, m1, Header, chain, wrap, inIdx, k, packet);
      mem[packet] := BitOr(mem[packet], Skip);
      assert mem[..] == m1;
      if inputReader == packet {
        inputReader := next;
      }
      Rechain(chain, wrap, i);
    }

    /** Packet_ReleaseOutput: OutputReader moves to the record after packet, and InputReader with it
        when it was on the packet; the record is gone. */
    method ReleaseOutput(packet: nat)
      requires Valid() && packet == outputReader && Flags(mem[packet]) == Output
      modifies this
      ensures Valid() && nextWriter == old(nextWriter) && mem[..] == old(mem[..])
      ensures outputReader == Next(packet, GetLen(mem[packet]), Header)
      ensures inputReader == if old(inputReader) == packet then outputReader else old(inputReader)
    {
      ghost var m0 := mem[..];
      Apart(m0, Header, chain, wrap, inIdx, 0);
      ghost var c, w, i := DropFirst(m0, Header, chain, wrap, inIdx);
      var next := Next(packet, GetLen(mem[packet]), Header);
      if inputReader == packet {
        inputReader := next;
      }
      outputReader := next;
      assert mem[..] == m0;
      Rechain(c, w, i);
    }

    /** Packet_ReattachOutput: the input record at InputReader becomes an output record of the same
        length, and InputReader moves past it. */
    method ReattachOutput(packet: nat)
      requires Valid() && packet == inputReader && BitAnd(mem[packet], Skip) == Input
      modifies this, mem
      ensures Valid() && nextWriter == old(nextWriter) && outputReader == old(outputReader)
      ensures mem[..] == old(mem[..])[packet := GetLen(old(mem[packet])) + Output]
      ensures inputReader == Next(packet, GetLen(old(mem[packet])), Header)
    {
      ghost var m0 := mem[..];
      ReleaseFacts(m0, Header, chain, wrap, inIdx, inIdx);
      var len := GetLen(mem[packet]);
      mem[packet] := BitOr(len, Output);
      ghost var m1 := mem[..];
      Passed(m0, m1, Header, chain, wrap, inIdx, Output);
      inputReader := Next(packet, len, Header);
      inIdx := inIdx + 1;
      assert mem[..] == m1;
    }

    /** The writes of allocateNew's tail: the state word, for a resize the Skip mark on the old
        record and the copy of its payload (memmove), then EndOfRing at the new end. */
    method Fill(writer: nat, next: nat, len: Word, resize: bool, packet: nat, oldLen: Word)
      requires mem.Length == End + 1 && writer < next <= End
      requires resize ==> CopyFits(writer, next, packet, oldLen)
      modifies mem
      ensures mem[..] == Filled(old(mem[..]), writer, next, len, resize, packet, oldLen)
    {
      mem[writer] := len;
      if resize {
        mem[packet] := BitOr(oldLen, Skip);
        ghost var s := mem[..];
        var cnt := PayloadSlots(oldLen);
        var tmp := mem[packet + 1 .. packet + 1 + cnt];
        forall i | 0 <= i < cnt {
          mem[writer + 1 + i] := tmp[i];
        }
        assert mem[..] == MoveSlots(s, writer + 1, packet + 1, cnt);
      }
      mem[next] := EndOfRing;
    }
  }

  /** The slots memmove touches when it copies n payload bytes. */
  function PayloadSlots(n: nat): (k: nat)
    ensures 2 * k >= n && 2 * k <= n + 1
  {
    Helper.DivRoundUp(n, SlotBytes)
  }

  /** memmove of cnt slots from src to dst, as if through a temporary buffer. */
  function MoveSlots(m: seq<Word>, dst: nat, src: nat, cnt: nat): (r: seq<Word>)
    ensures |r| == |m|
    ensures forall x :: 0 <= x < |m| && !(dst <= x < dst + cnt) ==> r[x] == m[x]
    ensures forall x :: dst <= x < dst + cnt && x < |m| && src + (x - dst) < |m| ==> r[x] == m[src + (x - dst)]
  {
    seq(|m|, x requires 0 <= x < |m| => MovedSlot(m, dst, src, cnt, x))
  }

  /** Slot x after the memmove. */
  function MovedSlot(m: seq<Word>, dst: nat, src: nat, cnt: nat, x: nat): Word
    requires x < |m|
  {
    if dst <= x < dst + cnt && src + (x - dst) < |m| then m[src + (x - dst)] else m[x]
  }

  /** The ring after allocateNew has written a record of len bytes at writer that ends at next:
      its state word, for a resize the Skip mark on the old record and the payload copy, and
      EndOfRing at next. */
  function Filled(m: seq<Word>, writer: nat, next: nat, len: Word, resize: bool, packet: nat, oldLen: Word): (r: seq<Word>)
    requires writer < |m| && next < |m| && (resize ==> packet < |m|)
    ensures |r| == |m| && r[next] == EndOfRing
  {
    var m1 := m[writer := len];
    var m2 := if resize then MoveSlots(m1[packet := BitOr(oldLen, Skip)], writer + 1, packet + 1, PayloadSlots(oldLen)) else m1;
    m2[next := EndOfRing]
  }

  /** A resize's copy is well placed: the old record and its payload lie outside the new record
      [writer, next), and the payload fits in the new record. */
  predicate CopyFits(writer: nat, next: nat, packet: nat, oldLen: Word)
  {
    && Unfinished(oldLen)
    && packet + 1 + PayloadSlots(oldLen) <= End
    && writer + 1 + PayloadSlots(oldLen) < next
    && (packet < writer || next < packet)
    && !(packet < writer <= packet + PayloadSlots(oldLen))
  }

  /** What Filled writes: the new state word, EndOfRing, the Skip mark and the copied payload;
      every other slot keeps its value. */
  lemma FilledFacts(m: seq<Word>, writer: nat, next: nat, len: Word, resize: bool, packet: nat, oldLen: Word)
    requires |m| == End + 1 && writer < next <= End
    requires resize ==> CopyFits(writer, next, packet, oldLen)
    ensures var r := Filled(m, writer, next, len, resize, packet, oldLen);
            && r[writer] == len && r[next] == EndOfRing
            && (resize ==> r[packet] == oldLen + Skip)
            && (resize ==> forall x :: writer < x <= writer + PayloadSlots(oldLen) ==> r[x] == m[packet + (x - writer)])
            && (forall x ::
                  (0 <= x < |m| && x != writer && x != next &&
                   !(resize && (x == packet || writer < x <= writer + PayloadSlots(oldLen))))
                  ==> r[x] == m[x])
  {
    if resize {
      SetFlag(oldLen, Skip);
    }
  }

  /** For a resize in allocateNew: the old record's payload ends at its successor, the copy
      fits before the new end, and the old record lies outside the new one. */
  lemma CopyBounds(m0: seq<Word>, chain: seq<nat>, wrap: nat, inIdx: nat, k: nat, packet: nat,
                   oldLen: Word, len: Word, writer: nat, next: nat)
    requires Inv(m0, Header, chain, wrap, inIdx) && |m0| == End + 1
    requires 0 <= k < |chain| - 1 && chain[k] == packet && m0[packet] == oldLen && Unfinished(oldLen)
    requires Next(packet, oldLen, Header) < Next(packet, len, Header)
    requires next == Next(writer, len, Header) && next <= End
    requires writer == Last(chain) || (writer == 0 && wrap == |chain| && next < chain[0])
    requires wrap < |chain| ==> next < chain[0]
    ensures packet + 1 + PayloadSlots(oldLen) == Next(packet, oldLen, Header) == chain[k + 1]
    ensures CopyFits(writer, next, packet, oldLen)
    ensures !(packet < Last(chain) < chain[k + 1])
  {
    Helper.DivRoundUpAddUnits(oldLen, SlotBytes, 1);
    Helper.DivRoundUpAddUnits(len, SlotBytes, 1);
    assert oldLen < 0x4000;
    ShortLen(oldLen);
    Ordered(m0, Header, chain, wrap, inIdx);
    UnfinishedAhead(m0, Header, chain, wrap, inIdx, k);
    if wrap < |chain| && k < wrap {
      assert chain[0] <= packet;
    }
  }

  /** The three outcomes of Placement in terms of the chain: an emptied ring restarts at slot 0,
      a wrap continues at slot 0 below the oldest record, otherwise the record is appended at
      the writer. */
  lemma PlacementCases(m0: seq<Word>, chain: seq<nat>, wrap: nat, inIdx: nat, writer: nat, lastReader: nat,
                       restart: bool, wraps: bool, start: nat, next: nat, len: Word)
    requires Inv(m0, Header, chain, wrap, inIdx) && |m0| == End + 1
    requires writer == Last(chain) && lastReader == chain[0]
    requires restart == Restarts(writer, lastReader, len) && wraps == Wraps(writer, lastReader, len)
    requires restart ==> Next(0, len, Header) <= End
    requires Placement(writer, lastReader, len) == Some(start) && next == Next(start, len, Header)
    ensures restart ==> |chain| == 1 && start == 0 && !wraps && next <= End
    ensures wraps ==> start == 0 && wrap == |chain| && |chain| >= 2 && next < chain[0]
    ensures !restart && !wraps ==> start == writer && next <= End && (wrap < |chain| ==> next < chain[0])
  {
    Bounds(m0, Header, chain, wrap, inIdx);
    if restart && |chain| > 1 {
      Climb(chain, wrap, 0, |chain| - 1);
    }
  }

  /** allocateNew keeps the ring invariant in all three placements: appended at the writer, at
      slot 0 after a StartOver mark, or at slot 0 of an emptied ring with both readers reset. */
  lemma Allocated(m0: seq<Word>, m2: seq<Word>, chain: seq<nat>, wrap: nat, inIdx: nat, k: nat,
                  restart: bool, wraps: bool, start: nat, next: nat,
                  len: Word, resize: bool, packet: nat, oldLen: Word) returns (c: seq<nat>, w: nat, i: nat)
    requires Inv(m0, Header, chain, wrap, inIdx) && |m0| == End + 1
    requires next == Next(start, len, Header)
    requires restart ==> |chain| == 1 && start == 0 && !wraps && next <= End
    requires wraps ==> start == 0 && wrap == |chain| && |chain| >= 2 && next < chain[0]
    requires !restart && !wraps ==> start == Last(chain) && next <= End && (wrap < |chain| ==> next < chain[0])
    requires resize ==> k < |chain| - 1 && chain[k] == packet && m0[packet] == oldLen && Unfinished(oldLen)
    requires resize ==> Next(packet, oldLen, Header) < Next(packet, len, Header)
    requires m2 == Filled(if wraps then m0[Last(chain) := StartOver] else m0, start, next, len, resize, packet, oldLen)
    ensures Inv(m2, Header, c, w, i)
    ensures Last(c) == next
    ensures c[0] == (if restart then 0 else chain[0])
    ensures c[i] == (if restart then 0 else chain[inIdx])
  {
    if restart {
      c := RestartRecord(m0, m2, next, len, packet, oldLen);
      w, i := 2, 0;
    } else if wraps {
      c := WrapRecord(m0, m2, chain, wrap, inIdx, k, next, len, resize, packet, oldLen);
      w, i := |chain|, inIdx;
    } else {
      c, w := AppendRecord(m0, m2, chain, wrap, inIdx, k, start, next, len, resize, packet, oldLen);
      i := inIdx;
    }
  }

  /** allocateNew in an empty ring: the record at slot 0 is the only one. */
  lemma RestartRecord(m0: seq<Word>, m2: seq<Word>, next: nat, len: Word, packet: nat, oldLen: Word)
    returns (c: seq<nat>)
    requires |m0| == End + 1 && next == Next(0, len, Header) && next <= End
    requires m2 == Filled(m0, 0, next, len, false, packet, oldLen)
    ensures c == [0, next] && Inv(m2, Header, c, 2, 0)
  {
    FilledFacts(m0, 0, next, len, false, packet, oldLen);
    assert len < 0x4000;
    ShortLen(len);
    Restart(m2, Header, next);
    c := [0, next];
  }

  /** allocateNew at the writer without wrapping keeps the ring invariant, with the new end
      appended to the chain. */
  lemma AppendRecord(m0: seq<Word>, m2: seq<Word>, chain: seq<nat>, wrap: nat, inIdx: nat, k: nat,
                     writer: nat, next: nat, len: Word, resize: bool, packet: nat, oldLen: Word)
    returns (c: seq<nat>, w: nat)
    requires Inv(m0, Header, chain, wrap, inIdx) && |m0| == End + 1
    requires writer == Last(chain) && next == Next(writer, len, Header) && next <= End
    requires wrap < |chain| ==> next < chain[0]
    requires resize ==> k < |chain| - 1 && chain[k] == packet && m0[packet] == oldLen && Unfinished(oldLen)
    requires resize ==> Next(packet, oldLen, Header) < Next(packet, len, Header)
    requires m2 == Filled(m0, writer, next, len, resize, packet, oldLen)
    ensures c == chain + [next] && w == (if wrap == |chain| then wrap + 1 else wrap)
    ensures Inv(m2, Header, c, w, inIdx)
    ensures Last(c) == next && c[0] == chain[0] && c[inIdx] == chain[inIdx]
  {
    var m1 := m0;
    if resize {
      CopyBounds(m0, chain, wrap, inIdx, k, packet, oldLen, len, writer, next);
      LenOrFlag(oldLen, Skip);
      m1 := m0[packet := oldLen + Skip];
      MarkSkip(m0, m1, chain, wrap, inIdx, k, packet, oldLen);
    }
    FilledFacts(m0, writer, next, len, resize, packet, oldLen);
    assert len < 0x4000;
    ShortLen(len);
    forall x | 0 <= x < |m0| && !(writer <= x <= next)
      ensures m2[x] == m1[x]
    {
    }
    c, w := chain + [next], if wrap == |chain| then wrap + 1 else wrap;
    Append(m1, m2, Header, chain, wrap, inIdx, next, c);
    assert c[|chain|] == next && c[0] == chain[0] && c[inIdx] == chain[inIdx];
  }

  /** allocateNew with a wrap keeps the ring invariant: the old writer slot holds StartOver and
      the chain continues at slot 0 with the new record. */
  lemma WrapRecord(m0: seq<Word>, m2: seq<Word>, chain: seq<nat>, wrap: nat, inIdx: nat, k: nat,
                   next: nat, len: Word, resize: bool, packet: nat, oldLen: Word)
    returns (c: seq<nat>)
    requires Inv(m0, Header, chain, wrap, inIdx) && |m0| == End + 1
    requires wrap == |chain| && |chain| >= 2 && next == Next(0, len, Header) && next < chain[0]
    requires resize ==> k < |chain| - 1 && chain[k] == packet && m0[packet] == oldLen && Unfinished(oldLen)
    requires resize ==> Next(packet, oldLen, Header) < Next(packet, len, Header)
    requires m2 == Filled(m0[Last(chain) := StartOver], 0, next, len, resize, packet, oldLen)
    ensures c == chain + [0, next] && Inv(m2, Header, c, |chain|, inIdx)
    ensures Last(c) == next && c[0] == chain[0] && c[inIdx] == chain[inIdx]
  {
    Bounds(m0, Header, chain, wrap, inIdx);
    var m1 := m0;
    if resize {
      CopyBounds(m0, chain, wrap, inIdx, k, packet, oldLen, len, 0, next);
      LenOrFlag(oldLen, Skip);
      m1 := m0[packet := oldLen + Skip];
      MarkSkip(m0, m1, chain, wrap, inIdx, k, packet, oldLen);
    }
    var base := m0[Last(chain) := StartOver];
    FilledFacts(base, 0, next, len, resize, packet, oldLen);
    assert len < 0x4000;
    ShortLen(len);
    assert next < chain[0] <= Last(chain);
    assert m2[Last(chain)] == StartOver;
    forall x | 0 <= x < |m0| && x != Last(chain) && x > next
      ensures m2[x] == m1[x]
    {
      if !(resize && x == packet) {
        assert m2[x] == base[x];
      }
    }
    c := chain + [0, next];
    WrapAround(m1, m2, Header, chain, wrap, inIdx, next, c);
    assert c[|chain| + 1] == next && c[0] == chain[0] && c[inIdx] == chain[inIdx];
  }

  /** Marking the old record Skip keeps the chain: its length and successor stay. */
  lemma MarkSkip(m0: seq<Word>, m1: seq<Word>, chain: seq<nat>, wrap: nat, inIdx: nat, k: nat, packet: nat, oldLen: Word)
    requires Inv(m0, Header, chain, wrap, inIdx) && |m0| == End + 1
    requires 0 <= k < |chain| - 1 && chain[k] == packet && m0[packet] == oldLen && Unfinished(oldLen)
    requires m1 == m0[packet := oldLen + Skip]
    ensures Inv(m1, Header, chain, wrap, inIdx)
  {
    ResizeFacts(m0, chain, wrap, inIdx, k);
    Apart(m0, Header, chain, wrap, inIdx, k);
    LenOrFlag(oldLen, Skip);
    assert m1[packet] == oldLen + Skip && GetLen(m1[packet]) == oldLen;
    Restate(m0, m1, Header, chain, wrap, inIdx, k);
  }

  /** Facts about the record at index k that Packet_Resize changes: its successor, and whether
      it is the last record before the writer. */
  lemma ResizeFacts(m0: seq<Word>, chain: seq<nat>, wrap: nat, inIdx: nat, k: nat)
    requires Inv(m0, Header, chain, wrap, inIdx)
    requires k < |chain| - 1 && Unfinished(m0[chain[k]])
    ensures m0[chain[k]] < 0x4000 && GetLen(m0[chain[k]]) == m0[chain[k]]
    ensures Next(chain[k], m0[chain[k]], Header) == chain[k + 1]
    ensures inIdx <= k && k != wrap - 1
    ensures chain[k + 1] == Last(chain) <==> k == |chain| - 2
    ensures chain[0] != Last(chain)
  {
    UnfinishedAhead(m0, Header, chain, wrap, inIdx, k);
    Apart(m0, Header, chain, wrap, inIdx, |chain| - 1);
    ShortLen(m0[chain[k]]);
  }

  /** Packet_Resize to the same number of slots: only the state word changes. */
  lemma ResizeSame(m0: seq<Word>, m2: seq<Word>, chain: seq<nat>, wrap: nat, inIdx: nat, k: nat, len: Word)
    requires Inv(m0, Header, chain, wrap, inIdx) && |m0| == End + 1
    requires k < |chain| - 1 && Unfinished(m0[chain[k]])
    requires Next(chain[k], len, Header) == chain[k + 1]
    requires m2 == m0[chain[k] := len]
    ensures Inv(m2, Header, chain, wrap, inIdx)
  {
    ResizeFacts(m0, chain, wrap, inIdx, k);
    Ordered(m0, Header, chain, wrap, inIdx);
    LenOrFlag(len, EndOfRing);
    Restate(m0, m2, Header, chain, wrap, inIdx, k);
  }

  /** Packet_Resize of the last record, shrinking or growing in place: the writer follows its end. */
  lemma ResizeLast(m0: seq<Word>, m2: seq<Word>, chain: seq<nat>, wrap: nat, inIdx: nat, k: nat, len: Word)
    returns (c: seq<nat>)
    requires Inv(m0, Header, chain, wrap, inIdx) && |m0| == End + 1
    requires k == |chain| - 2 && Unfinished(m0[chain[k]])
    requires var np := Next(chain[k], len, Header);
             np < chain[k + 1] || (chain[k + 1] < np && Fits(chain[k], chain[0], len))
    requires m2 == m0[Next(chain[k], len, Header) := EndOfRing][chain[k] := len]
    ensures c == chain[..|chain| - 1] + [Next(chain[k], len, Header)]
    ensures Inv(m2, Header, c, wrap, inIdx)
    ensures c[0] == chain[0] && c[inIdx] == chain[inIdx] && Last(c) == Next(chain[k], len, Header)
  {
    ResizeFacts(m0, chain, wrap, inIdx, k);
    Bounds(m0, Header, chain, wrap, inIdx);
    Apart(m0, Header, chain, wrap, inIdx, k);
    var np := Next(chain[k], len, Header);
    if np < chain[k + 1] {
      Inside(m0, Header, chain, wrap, inIdx, k, np);
    } else {
      forall i | 0 <= i < |chain|
        ensures chain[i] != np
      {
        if wrap < |chain| && i < wrap {
          assert chain[0] <= chain[i];
        } else {
          assert chain[i] <= Last(chain);
        }
      }
    }
    assert len < 0x4000;
    ShortLen(len);
    assert m2[chain[k]] == len && m2[np] == EndOfRing;
    assert forall i :: 0 <= i < k ==> m2[chain[i]] == m0[chain[i]];
    c := chain[..|chain| - 1] + [np];
    ReplaceEnd(m0, m2, Header, chain, wrap, inIdx, np, c);
    assert c[0] == chain[0] && c[inIdx] == chain[inIdx] && Last(c) == np;
  }

  /** Packet_Resize shrinking a record that is not the last: the freed tail becomes a Skip record
      reaching exactly to the old successor. */
  lemma ResizeMiddle(m0: seq<Word>, m2: seq<Word>, chain: seq<nat>, wrap: nat, inIdx: nat, k: nat, len: Word)
    returns (c: seq<nat>, w: nat)
    requires Inv(m0, Header, chain, wrap, inIdx) && |m0| == End + 1
    requires k + 2 < |chain| && Unfinished(m0[chain[k]])
    requires Next(chain[k], len, Header) < chain[k + 1]
    requires var np := Next(chain[k], len, Header);
             m2 == m0[np := 2 * (chain[k + 1] - np) - Header + Skip][chain[k] := len]
    ensures var np := Next(chain[k], len, Header);
            && IsSkip(m2[np]) && GetLen(m2[np]) == 2 * (chain[k + 1] - np) - Header
            && Succ(m2, np, Header) == chain[k + 1]
    ensures c == chain[..k + 1] + [Next(chain[k], len, Header)] + chain[k + 1..]
    ensures w == if k < wrap then wrap + 1 else wrap
    ensures Inv(m2, Header, c, w, inIdx)
    ensures c[0] == chain[0] && c[inIdx] == chain[inIdx] && Last(c) == Last(chain)
  {
    ResizeFacts(m0, chain, wrap, inIdx, k);
    var np := Next(chain[k], len, Header);
    SplitWords(m0, m2, chain, wrap, inIdx, k, len, np);
    c, w := chain[..k + 1] + [np] + chain[k + 1..], if k < wrap then wrap + 1 else wrap;
    InsertedSeq(chain, k, np);
    InsertSkip(m0, m2, Header, chain, wrap, inIdx, k, np, c);
    assert c[0] == chain[0] && c[inIdx] == chain[inIdx] && Last(c) == Last(chain);
  }

  /** The two words a split writes: the shortened record now leads to np, and the Skip record
      at np leads to the old successor; the other records keep their words. */
  lemma SplitWords(m0: seq<Word>, m2: seq<Word>, chain: seq<nat>, wrap: nat, inIdx: nat, k: nat, len: Word, np: nat)
    requires Inv(m0, Header, chain, wrap, inIdx) && |m0| == End + 1
    requires k + 2 < |chain| && k != wrap - 1 && Unfinished(m0[chain[k]])
    requires np == Next(chain[k], len, Header) && np < chain[k + 1]
    requires m2 == m0[np := 2 * (chain[k + 1] - np) - Header + Skip][chain[k] := len]
    ensures m2[chain[k]] != StartOver && Succ(m2, chain[k], Header) == np
    ensures m2[np] != StartOver && Succ(m2, np, Header) == chain[k + 1]
    ensures IsSkip(m2[np]) && GetLen(m2[np]) == 2 * (chain[k + 1] - np) - Header
    ensures forall i :: 0 <= i < |chain| && i != k ==> m2[chain[i]] == m0[chain[i]]
  {
    Apart(m0, Header, chain, wrap, inIdx, k);
    var tail := 2 * (chain[k + 1] - np) - Header;
    assert tail < 0x4000 && len < 0x4000;
    LenOrFlag(tail, Skip);
    ShortLen(len);
    assert m2[np] == tail + Skip && m2[chain[k]] == len;
    assert GetLen(m2[np]) == tail;
    Inside(m0, Header, chain, wrap, inIdx, k, np);
    forall i | 0 <= i < |chain| && i != k
      ensures m2[chain[i]] == m0[chain[i]]
    {
      assert chain[i] != np && chain[i] != chain[k];
    }
  }

  /** Packet_PutInput / Packet_PutOutput: setting a flag on an unfinished record keeps the ring. */
  lemma MarkKeeps(m0: seq<Word>, m1: seq<Word>, chain: seq<nat>, wrap: nat, inIdx: nat, k: nat, flag: Word)
    requires Inv(m0, Header, chain, wrap, inIdx)
    requires k < |chain| - 1 && Unfinished(m0[chain[k]]) && (flag == Input || flag == Output)
    requires |m1| == |m0| && m1[chain[k]] == m0[chain[k]] + flag
    requires forall x :: 0 <= x < |m0| && x != chain[k] ==> m1[x] == m0[x]
    ensures Inv(m1, Header, chain, wrap, inIdx)
  {
    ResizeFacts(m0, chain, wrap, inIdx, k);
    Apart(m0, Header, chain, wrap, inIdx, k);
    var s := m0[chain[k]];
    LenOrFlag(s, flag);
    assert m1[chain[k]] == s + flag && GetLen(m1[chain[k]]) == s;
    Restate(m0, m1, Header, chain, wrap, inIdx, k);
  }

}
