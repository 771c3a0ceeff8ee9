/**
 bdReliableReceiveWindow: a ring of 128 slots between the last message handed out and the newest received, with the
 cumulative acknowledgement, gap blocks and credit of section 3.3.4 of RFC 4960.

 The ghost fields keep the history: which chunk was taken for which number, and what has been handed out.
 */
module ReceiveWindow {
  import Arith
  import opened SequenceNumbers

  const WINDOW: nat := 128
  const CREDIT: int := 15000

  datatype DataChunk = DataChunk(wire: nat, size: nat, message: nat)

  datatype Slot = Empty | Held(chunk: DataChunk)

  datatype GapAckBlock = GapAckBlock(start: nat, end: nat)

  datatype SAck = NoSAck | SAck(cumulativeAck: nat, gaps: seq<GapAckBlock>, windowCredit: int)

  // ----- the ring as a sequence

  /** The sizes of the chunks in the slots. */
  function HeldSize(frame: seq<Slot>): nat {
    if frame == [] then 0
    else HeldSize(frame[..|frame| - 1]) + if frame[|frame| - 1].Held? then frame[|frame| - 1].chunk.size else 0
  }

  function SlotSize(s: Slot): nat {
    if s.Held? then s.chunk.size else 0
  }

  lemma {:induction false} HeldSizeUpdate(frame: seq<Slot>, i: nat, s: Slot)
    requires i < |frame|
    ensures HeldSize(frame[i := s]) == HeldSize(frame) - SlotSize(frame[i]) + SlotSize(s)
    ensures SlotSize(frame[i]) <= HeldSize(frame)
  {
    var n := |frame| - 1;
    if i < n {
      HeldSizeUpdate(frame[..n], i, s);
      assert frame[i := s][..n] == frame[..n][i := s];
    } else {
      assert frame[i := s][..n] == frame[..n];
    }
  }

  lemma {:induction false} HeldSizeEmpty(frame: seq<Slot>)
    requires forall i :: 0 <= i < |frame| ==> frame[i] == Empty
    ensures HeldSize(frame) == 0
  {
    if frame != [] {
      HeldSizeEmpty(frame[..|frame| - 1]);
    }
  }

  /** Two numbers of the same window of 128 do not share a slot. */
  lemma SlotsDiffer(d: int, m: int, n: int)
    requires d < m <= d + WINDOW && d < n <= d + WINDOW && m != n
    ensures m % WINDOW != n % WINDOW
  {
    Arith.DivMod(m, WINDOW);
    Arith.DivMod(n, WINDOW);
  }

  /** After d + 1 has left the window, its slot belongs to the number a whole window later, and no other. */
  lemma SlotAfter(d: int, n: int)
    requires d + 1 < n <= d + 1 + WINDOW
    ensures n % WINDOW == (d + 1) % WINDOW <==> n == d + 1 + WINDOW
  {
    Arith.DivMod(n, WINDOW);
    Arith.DivMod(d + 1, WINDOW);
  }

  /** The slots of the window from d on hold what has been received. */
  ghost predicate HeldSlots(frame: seq<Slot>, d: int, received: map<int, DataChunk>)
    requires |frame| == WINDOW
  {
    forall n :: d < n <= d + WINDOW ==> frame[n % WINDOW] == if n in received then Held(received[n]) else Empty
  }

  lemma SlotsAfter(frame: seq<Slot>, frame': seq<Slot>, d: int, received: map<int, DataChunk>)
    requires |frame| == WINDOW && HeldSlots(frame, d, received) && frame' == frame[(d + 1) % WINDOW := Empty]
    requires d + 1 + WINDOW !in received
    ensures HeldSlots(frame', d + 1, received)
  {
    forall n | d + 1 < n <= d + 1 + WINDOW
      ensures frame'[n % WINDOW] == if n in received then Held(received[n]) else Empty
    {
      SlotAfter(d, n);
    }
  }

  // ----- gap blocks

  /** The blocks, as offsets from cum, are ascending, disjoint, not adjacent and end at or before `upto`. */
  ghost predicate Ascending(gaps: seq<GapAckBlock>, cum: int, upto: int) {
    && (forall g :: 0 <= g < |gaps| ==> 2 <= gaps[g].start <= gaps[g].end && cum + gaps[g].end <= upto)
    && (forall g :: 0 < g < |gaps| ==> gaps[g - 1].end + 1 < gaps[g].start)
  }

  ghost predicate Covered(gaps: seq<GapAckBlock>, cum: int, n: int) {
    exists g :: 0 <= g < |gaps| && cum + gaps[g].start <= n <= cum + gaps[g].end
  }

  /** Up to number `upto`, the blocks cover exactly what has been received above the cumulative acknowledgement. */
  ghost predicate CoversExactly(gaps: seq<GapAckBlock>, cum: int, upto: int, received: map<int, DataChunk>) {
    forall n :: cum < n <= upto ==> (n in received <==> Covered(gaps, cum, n))
  }

  /** What the loop has found before i: the finished blocks, and perhaps one that is still open. */
  ghost predicate Scanned(gaps: seq<GapAckBlock>, open: nat, cum: int, i: int, received: map<int, DataChunk>) {
    && (open == 0 ==> Ascending(gaps, cum, i - 1) && CoversExactly(gaps, cum, i - 1, received)
                      && (|gaps| > 0 ==> cum + gaps[|gaps| - 1].end < i - 1))
    && (open != 0 ==> 2 <= open && cum + open < i && Ascending(gaps, cum, cum + open - 2)
                      && CoversExactly(gaps, cum, cum + open - 1, received)
                      && forall n :: cum + open <= n < i ==> n in received)
  }

  /** The open block is finished before i, which has not been received or is past the newest. */
  lemma CloseBlock(gaps: seq<GapAckBlock>, open: nat, cum: int, i: int, received: map<int, DataChunk>)
    returns (gaps': seq<GapAckBlock>)
    requires Scanned(gaps, open, cum, i, received) && open != 0
    ensures i - 1 - cum >= 0 && gaps' == gaps + [GapAckBlock(open, i - 1 - cum)]
    ensures Ascending(gaps', cum, i - 1) && CoversExactly(gaps', cum, i - 1, received)
    ensures cum + gaps'[|gaps'| - 1].end == i - 1
  {
    gaps' := gaps + [GapAckBlock(open, i - 1 - cum)];
    forall n | cum < n <= i - 1 ensures n in received <==> Covered(gaps', cum, n) {
      CoveredByLast(gaps, gaps', cum, n, open, i - 1 - cum);
    }
  }

  lemma CoveredByLast(gaps: seq<GapAckBlock>, gaps': seq<GapAckBlock>, cum: int, n: int, open: nat, end: nat)
    requires gaps' == gaps + [GapAckBlock(open, end)]
    ensures Covered(gaps', cum, n) <==> Covered(gaps, cum, n) || cum + open <= n <= cum + end
  {
    if Covered(gaps, cum, n) {
      var g :| 0 <= g < |gaps| && cum + gaps[g].start <= n <= cum + gaps[g].end;
      assert gaps'[g] == gaps[g];
    }
    if cum + open <= n <= cum + end {
      assert gaps'[|gaps|].start == open;
    }
  }

  /** A number that has not been received extends what is known, once no block is open. */
  lemma SkipMissing(gaps: seq<GapAckBlock>, cum: int, i: int, received: map<int, DataChunk>)
    requires Ascending(gaps, cum, i - 1) && CoversExactly(gaps, cum, i - 1, received) && i !in received
    ensures Scanned(gaps, 0, cum, i + 1, received)
  {
    assert !Covered(gaps, cum, i);
  }

  /** A received number opens a block or lengthens the open one. */
  lemma TakeReceived(gaps: seq<GapAckBlock>, open: nat, cum: int, i: int, received: map<int, DataChunk>)
    requires Scanned(gaps, open, cum, i, received) && i in received && i >= cum + 2
    ensures Scanned(gaps, if open == 0 then i - cum else open, cum, i + 1, received)
  {
    if open == 0 {
      assert forall g :: 0 <= g < |gaps| ==> cum + gaps[g].end <= i - 2 by {
        LastIsHighest(gaps, cum, i - 1);
      }
    }
  }

  lemma LastIsHighest(gaps: seq<GapAckBlock>, cum: int, upto: int)
    requires Ascending(gaps, cum, upto)
    ensures forall g :: 0 <= g < |gaps| ==> gaps[g].end <= gaps[|gaps| - 1].end
  {
    forall g | 0 <= g < |gaps| ensures gaps[g].end <= gaps[|gaps| - 1].end {
      EndsGrow(gaps, cum, upto, g, |gaps| - 1);
    }
  }

  lemma {:induction false} EndsGrow(gaps: seq<GapAckBlock>, cum: int, upto: int, g: nat, h: nat)
    requires Ascending(gaps, cum, upto) && g <= h < |gaps|
    ensures gaps[g].end <= gaps[h].end
    decreases h
  {
    if g < h {
      EndsGrow(gaps, cum, upto, g, h - 1);
    }
  }

  // ----- the window as a value

  /** What has been taken, for which number; what has been handed out; and what the counters say. */
  datatype View = View(received: map<int, DataChunk>, delivered: seq<DataChunk>, newest: int, used: int, pending: bool)
  {
    /** The number that add gives a chunk. */
    function NumberOf(chunk: DataChunk): int {
      Unrolled(newest, chunk.wire)
    }

    /** The chunk is refused: no credit left for something new, or too far ahead. */
    predicate Refuses(chunk: DataChunk) {
      (NumberOf(chunk) >= newest && used + chunk.size > CREDIT) || NumberOf(chunk) >= |delivered| + WINDOW
    }

    /** The chunk is taken: not refused, not handed out before, and not held. */
    predicate Takes(chunk: DataChunk) {
      !Refuses(chunk) && NumberOf(chunk) >= |delivered| && NumberOf(chunk) !in received
    }

    /** After add. */
    function AfterAdd(chunk: DataChunk): View {
      if Refuses(chunk) then this
      else if !Takes(chunk) then this.(pending := 0 in received)
      else
        var n := NumberOf(chunk);
        var r := received[n := chunk];
        View(r, delivered, if n > newest then n else newest, used + chunk.size, 0 in r)
    }

    /** The next number to hand out has been taken. */
    predicate CanRead() {
      |delivered| in received
    }

    /** After getNextToRead. */
    function AfterRead(): View {
      if CanRead() then
        View(received, delivered + [received[|delivered|]], newest, used - received[|delivered|].size, pending)
      else this
    }

    /** The acknowledgement describes the view exactly: everything up to a number, and above it the blocks. */
    ghost predicate Describes(s: SAck) {
      && s.SAck? && s.windowCredit == CREDIT - used
      && exists cum: int :: Complete(received, cum) && s.cumulativeAck == cum % RANGE
                            && Ascending(s.gaps, cum, newest) && CoversExactly(s.gaps, cum, newest, received)
    }
  }

  lemma AfterAddIs(v: View, chunk: DataChunk, r: View)
    requires !v.Refuses(chunk) && r.delivered == v.delivered && (r.pending <==> 0 in r.received)
    requires r.received == if v.Takes(chunk) then v.received[v.NumberOf(chunk) := chunk] else v.received
    requires r.newest == if v.Takes(chunk) && v.NumberOf(chunk) > v.newest then v.NumberOf(chunk) else v.newest
    requires r.used == v.used + if v.Takes(chunk) then chunk.size else 0
    ensures r == v.AfterAdd(chunk)
  {
  }

  /** cum is the cumulative acknowledgement: numbers 0 up to it have been taken, the next one has not. */
  ghost predicate Complete(received: map<int, DataChunk>, cum: int) {
    cum >= 0 && (forall n :: 0 <= n <= cum ==> n in received) && cum + 1 !in received
  }

  // ----- the window

  class Window {
    var newest: int
    var lastCumulative: int
    var lastDispatched: int
    const frame: array<Slot>
    var usedCredit: int
    var sack: SAck
    ghost var received: map<int, DataChunk>
    ghost var delivered: seq<DataChunk>

    /** The slot of a number of the window holds the chunk taken for it, if there is one. */
    ghost predicate Holding()
      requires frame.Length == WINDOW
      reads this, frame
    {
      HeldSlots(frame[..], lastDispatched, received)
    }

    /** What the three counters say about the history. */
    ghost predicate Counting()
      reads this
    {
      && -1 <= lastDispatched <= lastCumulative <= newest <= lastDispatched + WINDOW
      && (forall n :: n in received ==> 0 <= n <= newest && received[n].wire == n % RANGE)
      && (forall n :: 0 <= n <= lastCumulative ==> n in received)
      && (newest >= 0 ==> newest in received)
      && lastCumulative + 1 !in received
    }

    /** Everything up to the last dispatched number has been handed out, once and in order. */
    ghost predicate InOrder()
      reads this
    {
      && |delivered| == lastDispatched + 1
      && forall n :: 0 <= n < |delivered| ==> n in received && delivered[n] == received[n]
    }

    /** The same before the cumulative acknowledgement has been advanced. */
    ghost predicate Lagging()
      reads this, frame
    {
      && frame.Length == WINDOW && Holding() && InOrder() && usedCredit == HeldSize(frame[..])
      && -1 <= lastDispatched <= lastCumulative <= newest <= lastDispatched + WINDOW
      && (forall n :: n in received ==> 0 <= n <= newest && received[n].wire == n % RANGE)
      && (forall n :: 0 <= n <= lastCumulative ==> n in received)
      && (newest >= 0 ==> newest in received)
    }

    /** Everything but the pending acknowledgement is in order. */
    ghost predicate Ready()
      reads this, frame
    {
      frame.Length == WINDOW && Counting() && InOrder() && Holding() && usedCredit == HeldSize(frame[..])
    }

    /** A pending acknowledgement is always up to date. */
    ghost predicate Valid()
      reads this, frame
    {
      && Ready()
      && (sack.SAck? ==> lastCumulative >= 0 && Acknowledges(sack))
    }

    /** The acknowledgement describes the state exactly. */
    ghost predicate Acknowledges(s: SAck)
      reads this
    {
      && s.SAck? && s.cumulativeAck == lastCumulative % RANGE && s.windowCredit == CREDIT - usedCredit
      && Ascending(s.gaps, lastCumulative, newest) && CoversExactly(s.gaps, lastCumulative, newest, received)
    }

    ghost function Snapshot(): View
      reads this
    {
      View(received, delivered, newest, usedCredit, sack.SAck?)
    }

    constructor ()
      ensures Valid() && received == map[] && delivered == [] && sack == NoSAck && usedCredit == 0
      ensures fresh(frame)
    {
      newest, lastCumulative, lastDispatched, usedCredit := -1, -1, -1, 0;
      frame := new Slot[WINDOW](_ => Empty);
      sack, received, delivered := NoSAck, map[], [];
      new;
      HeldSizeEmpty(frame[..]);
    }

    /** Advance the cumulative acknowledgement over everything that is there. */
    method AdvanceCumulative()
      requires Lagging()
      modifies `lastCumulative
      ensures Counting() && Holding() && InOrder() && lastCumulative >= old(lastCumulative)
    {
      var i := (if lastCumulative > lastDispatched then lastCumulative else lastDispatched) + 1;
      while i <= newest && frame[i % WINDOW] != Empty
        invariant i == lastCumulative + 1 && lastDispatched < i <= newest + 1 && lastCumulative >= old(lastCumulative)
        invariant forall n :: 0 <= n <= lastCumulative ==> n in received
        invariant Holding() && InOrder()
      {
        lastCumulative := i;
        i := i + 1;
      }
    }

    /** One number of the scan for gap blocks; start is zero while no block is open. */
    method ScanStep(gaps0: seq<GapAckBlock>, start0: nat, i: int) returns (gaps: seq<GapAckBlock>, start: nat)
      requires Ready() && lastCumulative < i <= newest && Scanned(gaps0, start0, lastCumulative, i, received)
      ensures Scanned(gaps, start, lastCumulative, i + 1, received)
    {
      gaps, start := gaps0, start0;
      if frame[i % WINDOW] != Empty {
        TakeReceived(gaps, start, lastCumulative, i, received);
        if start == 0 {
          start := i - lastCumulative;
        }
      } else if start != 0 {
        gaps := EndBlock(gaps, start, i);
        SkipMissing(gaps, lastCumulative, i, received);
        start := 0;
      } else {
        SkipMissing(gaps, lastCumulative, i, received);
      }
    }

    /** "block.m_end = (i - 1) - m_lastCumulative", "addGap (block)", and the debug loop over the block. */
    method EndBlock(gaps0: seq<GapAckBlock>, start: nat, i: int) returns (gaps: seq<GapAckBlock>)
      requires Ready() && lastCumulative < i <= newest + 1 && start != 0
      requires Scanned(gaps0, start, lastCumulative, i, received)
      ensures Ascending(gaps, lastCumulative, i - 1) && CoversExactly(gaps, lastCumulative, i - 1, received)
    {
      ghost var closed := CloseBlock(gaps0, start, lastCumulative, i, received);
      // every number of the block is held, under its own wire number
      assert forall j :: lastCumulative + start <= j < i - 1 ==>
        frame[j % WINDOW].Held? && frame[j % WINDOW].chunk.wire == j % RANGE;
      gaps := gaps0 + [GapAckBlock(start, i - 1 - lastCumulative)];
    }

    /** The gap blocks of the new acknowledgement. */
    method GapBlocks() returns (gaps: seq<GapAckBlock>)
      requires Ready()
      ensures Ascending(gaps, lastCumulative, newest) && CoversExactly(gaps, lastCumulative, newest, received)
    {
      gaps := [];
      var start: nat := 0;
      var i := lastCumulative + 1;
      while i <= newest
        invariant lastCumulative < i <= newest + 1
        invariant Scanned(gaps, start, lastCumulative, i, received)
      {
        gaps, start := ScanStep(gaps, start, i);
        i := i + 1;
      }
      if start != 0 {
        gaps := EndBlock(gaps, start, i);
      }
    }

    /** calculateAck, on a state that is valid except that the cumulative acknowledgement may lag behind. */
    method CalculateAck()
      requires Lagging() && (sack.SAck? ==> lastCumulative >= 0)
      modifies `lastCumulative, `sack
      ensures Valid()
      ensures lastCumulative >= 0 ==> Acknowledges(sack)
      ensures sack.SAck? <==> 0 in received
    {
      AdvanceCumulative();
      if lastCumulative == -1 {
        return;
      }
      var gaps := GapBlocks();
      sack := SAck(lastCumulative % RANGE, gaps, CREDIT - usedCredit);
    }

    /** The chunk goes into its slot. */
    method Store(chunk: DataChunk, number: int)
      requires Ready() && lastDispatched < number <= lastDispatched + WINDOW && number !in received
      requires chunk.wire == number % RANGE
      modifies `usedCredit, `newest, `received, frame
      ensures frame.Length == WINDOW && Holding() && InOrder() && usedCredit == HeldSize(frame[..])
      ensures newest == (if number > old(newest) then number else old(newest)) &&
          received == old(received)[number := chunk]
      ensures usedCredit == old(usedCredit) + chunk.size
    {
      var index := number % WINDOW;
      HeldSizeUpdate(frame[..], index, Held(chunk));
      usedCredit := usedCredit + chunk.size;
      ghost var before := frame[..];
      frame[index] := Held(chunk);
      assert frame[..] == before[index := Held(chunk)];
      if number > newest {
        newest := number;
      }
      received := received[number := chunk];
      forall n | lastDispatched < n <= lastDispatched + WINDOW
        ensures frame[n % WINDOW] == if n in received then Held(received[n]) else Empty
      {
        if n != number {
          SlotsDiffer(lastDispatched, n, number);
        }
      }
    }

    /**
     add: any chunk, in any order, any number of times.  A chunk that is accepted and new is taken for its number; one
     that is old or already held changes nothing but the acknowledgement, which is exact afterwards.
     */
    method Add(chunk: DataChunk) returns (ok: bool)
      requires Valid() && chunk.wire < RANGE
      modifies this, frame
      ensures Valid() && ok == !old(Snapshot().Refuses(chunk))
      ensures var n := old(Unrolled(newest, chunk.wire));
              ok <==> n < old(|delivered|) + 128 && (n < old(newest) || old(usedCredit) + chunk.size <= 15000)
      ensures Snapshot() == old(Snapshot().AfterAdd(chunk))
      ensures ok && lastCumulative >= 0 ==> Acknowledges(sack)
      ensures !ok ==> sack == old(sack)
    {
      var seqNumber := Set(newest, chunk.wire);
      WireOf(newest, chunk.wire);
      if seqNumber >= newest && usedCredit + chunk.size > CREDIT {
        return false;
      }
      if seqNumber > lastDispatched + WINDOW {
        return false;
      }
      ok := Accept(chunk, seqNumber);
    }

    /** The rest of add: the chunk, unless it is old, goes to its slot, and the acknowledgement is renewed. */
    method Accept(chunk: DataChunk, seqNumber: int) returns (ok: bool)
      requires Valid() && !Snapshot().Refuses(chunk) && seqNumber == Unrolled(newest, chunk.wire)
      requires chunk.wire == seqNumber % RANGE
      modifies this, frame
      ensures Valid() && ok && Snapshot() == old(Snapshot().AfterAdd(chunk))
      ensures lastCumulative >= 0 ==> Acknowledges(sack)
    {
      ghost var v := Snapshot();
      if seqNumber > lastDispatched {
        var overflow := Place(chunk, seqNumber);
        if overflow {
          return false;
        }
      }
      CalculateAck();
      AfterAddIs(v, chunk, Snapshot());
      return true;
    }

    /**
     The part of add for a number inside the window.  The "Window overflow (b)" branch cannot be reached: a slot that is
     taken holds the same number.
     */
    method Place(chunk: DataChunk, number: int) returns (overflow: bool)
      requires Ready() && lastDispatched < number <= lastDispatched + WINDOW && chunk.wire == number % RANGE
      modifies `usedCredit, `newest, `received, frame
      ensures !overflow && Lagging()
      ensures usedCredit == old(usedCredit) + if number in old(received) then 0 else chunk.size
      ensures newest == (if number > old(newest) then number else old(newest))
      ensures received == if number in old(received) then old(received) else old(received)[number := chunk]
    {
      var index := number % WINDOW;
      if frame[index] == Empty {
        Store(chunk, number);
      } else if frame[index].chunk.wire != chunk.wire {
        assert false;
        return true;
      }
      overflow := false;
    }
  
    /** getDataToSend: the pending acknowledgement goes out if it fits the packet, and then is no longer pending. */
    method GetDataToSend(fits: bool) returns (sent: SAck)
      requires Valid()
      modifies `sack
      ensures Valid() && sent == (if fits then old(sack) else NoSAck) && sack == (if fits then NoSAck else old(sack))
      ensures sent.SAck? ==> lastCumulative >= 0 && Acknowledges(sent) && Snapshot().Describes(sent)
      ensures Snapshot() == old(Snapshot()).(pending := sack.SAck?)
    {
      if sack.NoSAck? {
        return NoSAck;
      }
      if fits {
        sent := sack;
        sack := NoSAck;
      } else {
        sent := NoSAck;
      }
    }

    /** The slot of the number handed out next is emptied. */
    method EmptySlot(index: nat) returns (chunk: DataChunk)
      requires frame.Length == WINDOW && index < WINDOW && frame[index].Held?
      modifies frame
      ensures chunk == old(frame[index]).chunk && frame[..] == old(frame[..])[index := Empty]
      ensures HeldSize(frame[..]) == old(HeldSize(frame[..])) - chunk.size
    {
      chunk := frame[index].chunk;
      HeldSizeUpdate(frame[..], index, Empty);
      frame[index] := Empty;
      assert frame[..] == old(frame[..])[index := Empty];
    }

    method Release(number: int) returns (chunk: DataChunk)
      requires Ready() && number == lastDispatched + 1 && number in received && number <= lastCumulative
      modifies `usedCredit, `lastDispatched, `delivered, frame
      ensures Ready() && chunk == received[number] && lastDispatched == number
      ensures delivered == old(delivered) + [chunk] && usedCredit == old(usedCredit) - chunk.size
    {
      ghost var before := frame[..];
      chunk := EmptySlot(number % WINDOW);
      lastDispatched := number;
      usedCredit := usedCredit - chunk.size;
      delivered := delivered + [chunk];
      SlotsAfter(before, frame[..], lastDispatched - 1, received);
    }

    /**
     getNextToRead: the chunk of the number after the last one handed out, if it has been received; its slot is freed
     and the pending acknowledgement gets the new credit.  The "unexpected seq number" branch cannot be reached.
     */
    method GetNextToRead() returns (r: Slot)
      requires Valid()
      modifies this, frame
      ensures Valid() && Snapshot() == old(Snapshot().AfterRead()) && lastCumulative == old(lastCumulative)
      ensures r == if old(Snapshot().CanRead()) then Held(old(received[|delivered|])) else Empty
      ensures r.Held? <==> old(|delivered| in received)
    {
      var toDispatch := lastDispatched + 1;
      var index := (lastDispatched + 1) % WINDOW;
      if frame[index] == Empty {
        return Empty;
      }
      var frameSeqNumber := Set(lastDispatched, frame[index].chunk.wire);
      UnrollsTrue(lastDispatched, toDispatch);
      if toDispatch == frameSeqNumber {
        var chunk := Release(frameSeqNumber);
        r := Held(chunk);
        if sack.SAck? {
          sack := sack.(windowCredit := CREDIT - usedCredit);
        }
      } else {
        assert false;
        r := Empty;
      }
    }
  }

  lemma WireOf(last: int, wire: nat)
    requires last >= -1 && wire < RANGE
    ensures Unrolled(last, wire) % RANGE == wire
  {
    if last < 0 {
      Arith.DivUnique(wire, RANGE, 0, wire);
    } else {
      UnrolledIsNearest(last, wire);
    }
  }

  // ----- whole runs

  /**
   What may happen to a window: any chunk of the sender's stream arrives, a packet is filled, a message is asked for.
   */
  datatype Event = Arrive(number: nat) | Fill(fits: bool) | Read

  /** What the caller gets to see: whether the chunk was accepted, what went into the packet, what was handed out. */
  datatype Response = Accepted(ok: bool) | Packet(sack: SAck) | Message(slot: Slot)

  /** A sender's stream: chunk n carries the wire number of n. */
  ghost predicate IsStream(stream: seq<DataChunk>) {
    forall n :: 0 <= n < |stream| ==> stream[n].wire == n % RANGE
  }

  /** Every chunk that arrives is one of the stream. */
  predicate FromStream(stream: seq<DataChunk>, events: seq<Event>) {
    forall k :: 0 <= k < |events| && events[k].Arrive? ==> events[k].number < |stream|
  }

  function Next(v: View, event: Event, stream: seq<DataChunk>): View
    requires event.Arrive? ==> event.number < |stream|
  {
    match event
    case Arrive(t) => v.AfterAdd(stream[t])
    case Fill(fits) => v.(pending := v.pending && !fits)
    case Read => v.AfterRead()
  }

  /** The window after the first k events. */
  function After(stream: seq<DataChunk>, events: seq<Event>, k: nat): View
    requires FromStream(stream, events) && k <= |events|
  {
    if k == 0 then View(map[], [], -1, 0, false) else Next(After(stream, events, k - 1), events[k - 1], stream)
  }

  /** The response that a view calls for. */
  ghost predicate Answers(v: View, event: Event, stream: seq<DataChunk>, r: Response)
    requires event.Arrive? ==> event.number < |stream|
  {
    match event
    case Arrive(t) => r == Accepted(!v.Refuses(stream[t]))
    case Fill(fits) => r.Packet? && (r.sack.SAck? <==> fits && v.pending) && (r.sack.SAck? ==> v.Describes(r.sack))
    case Read => r == Message(if v.CanRead() then Held(v.received[|v.delivered|]) else Empty)
  }

  /** One event. */
  method Handle(w: Window, event: Event, stream: seq<DataChunk>) returns (r: Response)
    requires w.Valid() && IsStream(stream) && (event.Arrive? ==> event.number < |stream|)
    modifies w, w.frame
    ensures w.Valid() && w.Snapshot() == Next(old(w.Snapshot()), event, stream)
    ensures Answers(old(w.Snapshot()), event, stream, r)
  {
    match event {
      case Arrive(t) =>
        var ok := w.Add(stream[t]);
        r := Accepted(ok);
      case Fill(fits) =>
        var sent := w.GetDataToSend(fits);
        r := Packet(sent);
      case Read =>
        var slot := w.GetNextToRead();
        r := Message(slot);
    }
  }

  /**
   Any run over any loss, duplication and reordering of a sender's stream: every response is the one that the events
   before it call for, every acknowledgement sent is exact, and what has been handed out is what the events make it.
   */
  method Run(stream: seq<DataChunk>, events: seq<Event>) returns (out: seq<DataChunk>, responses: seq<Response>)
    requires IsStream(stream) && FromStream(stream, events)
    ensures out == After(stream, events, |events|).delivered
    ensures AllAnswered(stream, events, responses, |events|)
    ensures Lawful(stream, events, out)
    ensures out == HandedOut(responses, |responses|)
    ensures |responses| == |events|
    ensures |stream| <= 32768 || NearArrivals(events, responses) ==> AllTruthful(stream, events, responses)
  {
    out, responses := Drive(stream, events);
    RunLaws(stream, events);
    HandedOutIs(stream, events, responses, |events|);
    if |stream| <= 32768 {
      ShortStreamArrivesNear(stream, events, responses);
    }
    if NearArrivals(events, responses) {
      NearRunIsTruthful(stream, events, responses);
    }
  }

  /** The events, one after the other. */
  method Drive(stream: seq<DataChunk>, events: seq<Event>) returns (out: seq<DataChunk>, responses: seq<Response>)
    requires IsStream(stream) && FromStream(stream, events)
    ensures out == After(stream, events, |events|).delivered
    ensures AllAnswered(stream, events, responses, |events|)
  {
    var w := new Window();
    out, responses := [], [];
    var k := 0;
    while k < |events|
      invariant k <= |events| && fresh(w) && fresh(w.frame) && Reached(w, stream, events, k, out, responses)
    {
      out, responses := OneEvent(w, stream, events, k, out, responses);
      k := k + 1;
    }
  }

  /** The window, what it has handed out and the responses are what the first k events make them. */
  ghost predicate Reached(w: Window, stream: seq<DataChunk>, events: seq<Event>, k: nat, out: seq<DataChunk>,
                          responses: seq<Response>)
    requires FromStream(stream, events) && k <= |events|
    reads w, w.frame
  {
    && w.Valid() && w.Snapshot() == After(stream, events, k) && out == After(stream, events, k).delivered
    && AllAnswered(stream, events, responses, k)
  }

  /** The body of that loop. */
  method OneEvent(w: Window, stream: seq<DataChunk>, events: seq<Event>, k: nat, out0: seq<DataChunk>,
                  responses0: seq<Response>)
    returns (out: seq<DataChunk>, responses: seq<Response>)
    requires IsStream(stream) && FromStream(stream, events) && k < |events|
    requires Reached(w, stream, events, k, out0, responses0)
    modifies w, w.frame
    ensures Reached(w, stream, events, k + 1, out, responses)
  {
    var r := Handle(w, events[k], stream);
    out := Collect(out0, r);
    CollectIs(After(stream, events, k), events[k], stream, r);
    assert AnswersEvent(stream, events, k, r);
    AnsweredNext(stream, events, responses0, k, r);
    responses := responses0 + [r];
  }

  /** The response that the events before event j call for. */
  ghost predicate AnswersEvent(stream: seq<DataChunk>, events: seq<Event>, j: nat, r: Response)
    requires FromStream(stream, events) && j < |events|
  {
    Answers(After(stream, events, j), events[j], stream, r)
  }

  ghost predicate AllAnswered(stream: seq<DataChunk>, events: seq<Event>, responses: seq<Response>, k: nat)
    requires FromStream(stream, events) && k <= |events|
  {
    |responses| == k && forall j :: 0 <= j < k ==> AnswersEvent(stream, events, j, responses[j])
  }

  lemma AnsweredNext(stream: seq<DataChunk>, events: seq<Event>, responses: seq<Response>, k: nat, r: Response)
    requires FromStream(stream, events) && k < |events| && AllAnswered(stream, events, responses, k)
    requires AnswersEvent(stream, events, k, r)
    ensures AllAnswered(stream, events, responses + [r], k + 1)
  {
  }

  /** A message that was handed out joins the others. */
  function Collect(out: seq<DataChunk>, r: Response): seq<DataChunk> {
    if r.Message? && r.slot.Held? then out + [r.slot.chunk] else out
  }

  lemma CollectIs(v: View, event: Event, stream: seq<DataChunk>, r: Response)
    requires (event.Arrive? ==> event.number < |stream|) && Answers(v, event, stream, r)
    ensures Collect(v.delivered, r) == Next(v, event, stream).delivered
  {
  }

  // ----- what every run keeps

  /** Event j is the arrival of a chunk that is taken for number n. */
  predicate TakenAt(stream: seq<DataChunk>, events: seq<Event>, j: nat, n: int)
    requires FromStream(stream, events) && j < |events|
  {
    events[j].Arrive? &&
    var v, chunk := After(stream, events, j), stream[events[j].number];
    v.Takes(chunk) && v.NumberOf(chunk) == n
  }

  lemma ReceivedNext(v: View, event: Event, stream: seq<DataChunk>, n: int)
    requires event.Arrive? ==> event.number < |stream|
    ensures var taken := event.Arrive? && v.Takes(stream[event.number]) && v.NumberOf(stream[event.number]) == n;
            && (n in Next(v, event, stream).received <==> n in v.received || taken)
            && (n in v.received ==> !taken && Next(v, event, stream).received[n] == v.received[n])
            && (taken ==> Next(v, event, stream).received[n] == stream[event.number])
  {
  }

  /** A number that has been received was taken from an event before. */
  lemma {:induction false} ReceivedFrom(stream: seq<DataChunk>, events: seq<Event>, k: nat, n: int)
    requires FromStream(stream, events) && k <= |events| && n in After(stream, events, k).received
    ensures exists j :: 0 <= j < k && TakenAt(stream, events, j, n)
  {
    var v := After(stream, events, k - 1);
    ReceivedNext(v, events[k - 1], stream, n);
    if n in v.received {
      ReceivedFrom(stream, events, k - 1, n);
      var j :| 0 <= j < k - 1 && TakenAt(stream, events, j, n);
      assert 0 <= j < k && TakenAt(stream, events, j, n);
    } else {
      assert TakenAt(stream, events, k - 1, n);
    }
  }

  /** What has been taken stays, unchanged. */
  lemma {:induction false} TakenStays(stream: seq<DataChunk>, events: seq<Event>, k: nat, j: nat, n: int)
    requires FromStream(stream, events) && j < k <= |events| && TakenAt(stream, events, j, n)
    ensures n in After(stream, events, k).received
    ensures After(stream, events, k).received[n] == stream[events[j].number]
    decreases k
  {
    ReceivedNext(After(stream, events, k - 1), events[k - 1], stream, n);
    if j < k - 1 {
      TakenStays(stream, events, k - 1, j, n);
    }
  }

  /** A number has been received exactly when a chunk was taken for it. */
  lemma ReceivedIffTaken(stream: seq<DataChunk>, events: seq<Event>, k: nat, n: int)
    requires FromStream(stream, events) && k <= |events|
    ensures n in After(stream, events, k).received <==> exists j :: 0 <= j < k && TakenAt(stream, events, j, n)
  {
    if n in After(stream, events, k).received {
      ReceivedFrom(stream, events, k, n);
    } else if exists j :: 0 <= j < k && TakenAt(stream, events, j, n) {
      var j :| 0 <= j < k && TakenAt(stream, events, j, n);
      TakenStays(stream, events, k, j, n);
    }
  }

  /** Event r hands out the i-th message. */
  predicate ReadAt(stream: seq<DataChunk>, events: seq<Event>, r: nat, i: nat)
    requires FromStream(stream, events) && r < |events|
  {
    events[r].Read? && After(stream, events, r).CanRead() && |After(stream, events, r).delivered| == i
  }

  /** Message i comes from the chunk that event j brought, and event r hands it out. */
  predicate Traced(stream: seq<DataChunk>, events: seq<Event>, k: nat, i: nat, j: nat, r: nat)
    requires FromStream(stream, events) && k <= |events|
  {
    && j < r < k && TakenAt(stream, events, j, i) && ReadAt(stream, events, r, i)
    && i < |After(stream, events, k).delivered| && After(stream, events, k).delivered[i] == stream[events[j].number]
  }

  ghost predicate Sourced(stream: seq<DataChunk>, events: seq<Event>, k: nat, i: nat)
    requires FromStream(stream, events) && k <= |events|
  {
    exists j: nat, r: nat :: Traced(stream, events, k, i, j, r)
  }

  /** Every message handed out was asked for, and its chunk was taken for its number before that. */
  lemma {:induction false} DeliveredFrom(stream: seq<DataChunk>, events: seq<Event>, k: nat, i: nat)
    requires FromStream(stream, events) && k <= |events| && i < |After(stream, events, k).delivered|
    ensures Sourced(stream, events, k, i)
  {
    if i < |After(stream, events, k - 1).delivered| {
      DeliveredFrom(stream, events, k - 1, i);
      var j: nat, r: nat :| Traced(stream, events, k - 1, i, j, r);
      assert Traced(stream, events, k, i, j, r);
    } else {
      ReceivedFrom(stream, events, k - 1, i);
      var j :| 0 <= j < k - 1 && TakenAt(stream, events, j, i);
      TakenStays(stream, events, k - 1, j, i);
      assert Traced(stream, events, k, i, j, k - 1);
    }
  }

  /** How many of the first k events hand out a message. */
  function SuccessfulReads(stream: seq<DataChunk>, events: seq<Event>, k: nat): nat
    requires FromStream(stream, events) && k <= |events|
  {
    if k == 0 then 0
    else SuccessfulReads(stream, events, k - 1)
         + if events[k - 1].Read? && After(stream, events, k - 1).CanRead() then 1 else 0
  }

  /** Nothing is handed out unasked, and nothing asked for twice. */
  lemma {:induction false} DeliveredCount(stream: seq<DataChunk>, events: seq<Event>, k: nat)
    requires FromStream(stream, events) && k <= |events|
    ensures |After(stream, events, k).delivered| == SuccessfulReads(stream, events, k)
  {
    if k > 0 {
      DeliveredCount(stream, events, k - 1);
    }
  }

  /** A number is taken once at most. */
  lemma {:induction false} TakenOnce(stream: seq<DataChunk>, events: seq<Event>, j: nat, k: nat, n: int)
    requires FromStream(stream, events) && j < k < |events| && TakenAt(stream, events, j, n)
    ensures !TakenAt(stream, events, k, n)
  {
    TakenStays(stream, events, k, j, n);
  }

  /** The counters stay within a window of what has been handed out, and the numbers within their wire numbers. */
  lemma {:induction false} CountersInRange(stream: seq<DataChunk>, events: seq<Event>, k: nat)
    requires IsStream(stream) && FromStream(stream, events) && k <= |events|
    ensures var v := After(stream, events, k);
            && -1 <= v.newest < |v.delivered| + WINDOW
            && forall n :: n in v.received ==> 0 <= n <= v.newest && v.received[n].wire == n % RANGE
  {
    if k > 0 {
      CountersInRange(stream, events, k - 1);
      if events[k - 1].Arrive? {
        WireOf(After(stream, events, k - 1).newest, stream[events[k - 1].number].wire);
      }
    }
  }

  /** What is handed out carries the wire numbers 0, 1, 2, ... in order, whatever the run. */
  lemma InWireOrder(stream: seq<DataChunk>, events: seq<Event>, k: nat, i: nat)
    requires IsStream(stream) && FromStream(stream, events) && k <= |events|
    requires i < |After(stream, events, k).delivered|
    ensures After(stream, events, k).delivered[i].wire == i % RANGE
  {
    DeliveredFrom(stream, events, k, i);
    var j: nat, r: nat :| Traced(stream, events, k, i, j, r);
    CountersInRange(stream, events, j);
    WireOf(After(stream, events, j).newest, stream[events[j].number].wire);
  }

  /** No chunk arrives half the number range or more away from the newest one. */
  ghost predicate AllNear(stream: seq<DataChunk>, events: seq<Event>, k: nat)
    requires FromStream(stream, events) && k <= |events|
  {
    forall j :: 0 <= j < k && events[j].Arrive? ==> Near(After(stream, events, j).newest, events[j].number)
  }

  /** Then every chunk that is taken is taken for its true number. */
  lemma TakenTruly(stream: seq<DataChunk>, events: seq<Event>, k: nat, j: nat, n: int)
    requires IsStream(stream) && FromStream(stream, events) && j < k <= |events| && AllNear(stream, events, k)
    requires TakenAt(stream, events, j, n)
    ensures n == events[j].number
  {
    UnrollsTrue(After(stream, events, j).newest, events[j].number);
  }

  lemma HandedTruly(stream: seq<DataChunk>, events: seq<Event>, k: nat, i: nat)
    requires IsStream(stream) && FromStream(stream, events) && k <= |events| && AllNear(stream, events, k)
    requires i < |After(stream, events, k).delivered|
    ensures i < |stream| && After(stream, events, k).delivered[i] == stream[i]
  {
    DeliveredFrom(stream, events, k, i);
    var j: nat, r: nat :| Traced(stream, events, k, i, j, r);
    TakenTruly(stream, events, k, j, i);
  }

  /** As long as no chunk arrives that far away, exactly a prefix of the stream is handed out. */
  lemma PrefixOfStream(stream: seq<DataChunk>, events: seq<Event>, k: nat)
    requires IsStream(stream) && FromStream(stream, events) && k <= |events| && AllNear(stream, events, k)
    ensures After(stream, events, k).delivered <= stream
  {
    var out := After(stream, events, k).delivered;
    forall i | 0 <= i < |out| ensures i < |stream| && out[i] == stream[i] {
      HandedTruly(stream, events, k, i);
    }
    if out != [] {
      HandedTruly(stream, events, k, |out| - 1);
    }
    assert out == stream[..|out|];
  }

  lemma NearbyArrival(v: View, t: nat, chunk: DataChunk)
    requires t < HALF && -1 <= v.newest < HALF && chunk.wire == t % RANGE
    ensures Near(v.newest, t) && v.AfterAdd(chunk).newest <= if t > v.newest then t else v.newest
  {
    UnrollsTrue(v.newest, t);
  }

  lemma {:induction false} NewestBelow(stream: seq<DataChunk>, events: seq<Event>, k: nat)
    requires IsStream(stream) && FromStream(stream, events) && k <= |events| && |stream| <= HALF
    ensures -1 <= After(stream, events, k).newest < |stream|
  {
    CountersInRange(stream, events, k);
    if k > 0 {
      NewestBelow(stream, events, k - 1);
      if events[k - 1].Arrive? {
        NearbyArrival(After(stream, events, k - 1), events[k - 1].number, stream[events[k - 1].number]);
      }
    }
  }

  /** Streams of up to half the range need no condition. */
  lemma ShortStreamIsNear(stream: seq<DataChunk>, events: seq<Event>, k: nat)
    requires IsStream(stream) && FromStream(stream, events) && k <= |events| && |stream| <= HALF
    ensures AllNear(stream, events, k)
  {
    forall j | 0 <= j < k && events[j].Arrive? ensures Near(After(stream, events, j).newest, events[j].number) {
      NewestBelow(stream, events, j);
    }
  }

  /**
   What a run hands out: one message for every successful read, each from a chunk that arrived before it was asked for,
   with the wire numbers 0, 1, 2, ...; and exactly a prefix of the stream, if no chunk arrives too far away.
   */
  ghost predicate Lawful(stream: seq<DataChunk>, events: seq<Event>, out: seq<DataChunk>)
    requires FromStream(stream, events)
  {
    && |out| == SuccessfulReads(stream, events, |events|)
    && (forall i :: 0 <= i < |out| ==> out[i].wire == i % RANGE)
    && (forall i :: 0 <= i < |out| ==> Sourced(stream, events, |events|, i))
    && (AllNear(stream, events, |events|) || |stream| <= HALF ==> out <= stream)
  }

  lemma RunLaws(stream: seq<DataChunk>, events: seq<Event>)
    requires IsStream(stream) && FromStream(stream, events)
    ensures Lawful(stream, events, After(stream, events, |events|).delivered)
  {
    var out := After(stream, events, |events|).delivered;
    DeliveredCount(stream, events, |events|);
    forall i | 0 <= i < |out| ensures out[i].wire == i % RANGE && Sourced(stream, events, |events|, i) {
      InWireOrder(stream, events, |events|, i);
      DeliveredFrom(stream, events, |events|, i);
    }
    if |stream| <= HALF {
      ShortStreamIsNear(stream, events, |events|);
    }
    if AllNear(stream, events, |events|) {
      PrefixOfStream(stream, events, |events|);
    }
  }

  // ----- the responses alone

  /** The numbers of the chunks whose arrival has been accepted among the first k events. */
  ghost function AcceptedNumbers(events: seq<Event>, responses: seq<Response>, k: nat): set<nat>
    requires k <= |events| && k <= |responses|
  {
    set j | 0 <= j < k && events[j].Arrive? && responses[j] == Accepted(true) :: events[j].number
  }

  /** The largest of them, -1 if there is none. */
  function LargestAccepted(events: seq<Event>, responses: seq<Response>, k: nat): int
    requires k <= |events| && k <= |responses|
  {
    if k == 0 then -1 else
    var m := LargestAccepted(events, responses, k - 1);
    if events[k - 1].Arrive? && responses[k - 1] == Accepted(true) && events[k - 1].number > m then
      events[k - 1].number else m
  }

  /** The messages that the first k responses hand out. */
  function HandedOut(responses: seq<Response>, k: nat): seq<DataChunk>
    requires k <= |responses|
  {
    if k == 0 then [] else Collect(HandedOut(responses, k - 1), responses[k - 1])
  }

  /** The sizes of the chunks from number i on that are in `got`. */
  ghost function SizesFrom(stream: seq<DataChunk>, got: set<nat>, i: nat): nat
    decreases |stream| - i
  {
    if i >= |stream| then 0 else (if i in got then stream[i].size else 0) + SizesFrom(stream, got, i + 1)
  }

  /**
   With the numbers `got` accepted, the largest of them known, and the first i messages handed out, there is room for
   chunk t: it is less than 128 ahead, and a later one has been accepted or it fits the credit of 15000 together with
   what is still held.
   */
  ghost predicate Room(stream: seq<DataChunk>, got: set<nat>, largest: int, i: nat, t: nat)
    requires t < |stream|
  {
    t < i + 128 && (t < largest || SizesFrom(stream, got, i) + stream[t].size <= 15000)
  }

  /** The response is a packet with an acknowledgement. */
  predicate Acknowledged(r: Response) {
    r.Packet? && r.sack.SAck?
  }

  /** Event j is an arrival that was accepted when chunk 0 had been, and no acknowledgement has gone out since. */
  ghost predicate OwedSince(events: seq<Event>, responses: seq<Response>, k: nat, j: nat)
    requires j < k <= |events| && k <= |responses|
  {
    && events[j].Arrive? && responses[j] == Accepted(true) && 0 in AcceptedNumbers(events, responses, j + 1)
    && forall m :: j < m < k ==> !Acknowledged(responses[m])
  }

  ghost predicate Owed(events: seq<Event>, responses: seq<Response>, k: nat)
    requires k <= |events| && k <= |responses|
  {
    exists j: nat :: j < k && OwedSince(events, responses, k, j)
  }

  /** 0 to cum are in `got`, cum + 1 is not. */
  ghost predicate UpTo(got: set<nat>, cum: nat) {
    (forall n: nat :: n <= cum ==> n in got) && cum + 1 !in got
  }

  /** The acknowledgement says exactly which numbers have been accepted, and what credit is left. */
  ghost predicate Reports(s: SAck, stream: seq<DataChunk>, got: set<nat>, i: nat) {
    && s.SAck? && s.windowCredit == 15000 - SizesFrom(stream, got, i)
    && exists cum: nat :: UpTo(got, cum) && s.cumulativeAck == cum % 65536 && Ascending(s.gaps, cum, |stream|)
                          && forall n: nat :: cum < n ==> (n in got <==> Covered(s.gaps, cum, n))
  }

  /** Chunk t is less than half the number range away from the largest number; the first one is in the range. */
  predicate NearArrival(largest: int, t: nat) {
    if largest < 0 then t < 65536 else -32768 < t - largest < 32768
  }

  /** Every arrival is that near to the largest number accepted before it. */
  ghost predicate NearArrivals(events: seq<Event>, responses: seq<Response>)
    requires |responses| == |events|
  {
    forall k :: 0 <= k < |events| && events[k].Arrive? ==>
      NearArrival(LargestAccepted(events, responses, k), events[k].number)
  }

  /** In streams of up to 32768 chunks it always is. */
  lemma ShortStreamArrivesNear(stream: seq<DataChunk>, events: seq<Event>, responses: seq<Response>)
    requires FromStream(stream, events) && |stream| <= 32768 && |responses| == |events|
    ensures NearArrivals(events, responses)
  {
    forall k | 0 <= k < |events| && events[k].Arrive?
      ensures NearArrival(LargestAccepted(events, responses, k), events[k].number)
    {
      LargestBelow(stream, events, responses, k);
    }
  }

  lemma {:induction false} LargestBelow(stream: seq<DataChunk>, events: seq<Event>, responses: seq<Response>, k: nat)
    requires FromStream(stream, events) && k <= |events| && k <= |responses|
    ensures -1 <= LargestAccepted(events, responses, k) < |stream|
  {
    if k > 0 {
      LargestBelow(stream, events, responses, k - 1);
    }
  }

  /** Response k is the one that the events and responses before it call for. */
  ghost predicate Truthful(stream: seq<DataChunk>, events: seq<Event>, responses: seq<Response>, k: nat)
    requires FromStream(stream, events) && k < |events| && k < |responses|
  {
    var got, i := AcceptedNumbers(events, responses, k), |HandedOut(responses, k)|;
    match events[k]
    case Arrive(t) => responses[k] == Accepted(Room(stream, got, LargestAccepted(events, responses, k), i, t))
    case Fill(fits) =>
      && responses[k].Packet? && (responses[k].sack.SAck? <==> fits && Owed(events, responses, k))
      && (responses[k].sack.SAck? ==> Reports(responses[k].sack, stream, got, i))
    case Read => responses[k] == Message(if i < |stream| && i in got then Held(stream[i]) else Empty)
  }

  ghost predicate AllTruthful(stream: seq<DataChunk>, events: seq<Event>, responses: seq<Response>)
    requires FromStream(stream, events)
  {
    |responses| == |events| && forall k :: 0 <= k < |events| ==> Truthful(stream, events, responses, k)
  }

  // ----- they show the window

  /** The window is what the responses say about it. */
  ghost predicate Mirrors(v: View, stream: seq<DataChunk>, got: set<nat>, largest: int, out: seq<DataChunk>,
                          owed: bool)
  {
    && v.delivered == out && (v.pending <==> owed) && v.used == SizesFrom(stream, got, |out|) && v.newest == largest
    && (forall n :: n in v.received <==> n in got)
    && (forall n :: n in got ==> n < |stream| && n <= largest && v.received[n] == stream[n])
    && (forall n: nat :: n < |out| ==> n in got)
  }

  lemma {:induction false} SizesAdd(stream: seq<DataChunk>, got: set<nat>, i: nat, t: nat)
    requires t < |stream| && t !in got
    ensures SizesFrom(stream, got + {t}, i) == SizesFrom(stream, got, i) + if i <= t then stream[t].size else 0
    decreases |stream| - i
  {
    if i < |stream| {
      SizesAdd(stream, got, i + 1, t);
    }
  }

  lemma AcceptedNext(events: seq<Event>, responses: seq<Response>, k: nat)
    requires k < |events| && k < |responses|
    ensures var got := AcceptedNumbers(events, responses, k);
            AcceptedNumbers(events, responses, k + 1) ==
            if events[k].Arrive? && responses[k] == Accepted(true) then got + {events[k].number} else got
  {
    var got, next := AcceptedNumbers(events, responses, k), AcceptedNumbers(events, responses, k + 1);
    forall t: nat | t in got ensures t in next {
      var j :| 0 <= j < k && events[j].Arrive? && responses[j] == Accepted(true) && events[j].number == t;
      assert 0 <= j < k + 1;
    }
  }

  /** It is the largest of the accepted numbers. */
  lemma {:induction false} LargestIsLargest(events: seq<Event>, responses: seq<Response>, k: nat)
    requires k <= |events| && k <= |responses|
    ensures var got, m := AcceptedNumbers(events, responses, k), LargestAccepted(events, responses, k);
            (forall n :: n in got ==> n <= m) && if got == {} then m == -1 else m in got
  {
    if k == 0 {
      assert AcceptedNumbers(events, responses, 0) == {};
    } else {
      LargestIsLargest(events, responses, k - 1);
      AcceptedNext(events, responses, k - 1);
    }
  }

  lemma {:induction false} AcceptedGrows(events: seq<Event>, responses: seq<Response>, j: nat, k: nat)
    requires j <= k <= |events| && k <= |responses|
    ensures AcceptedNumbers(events, responses, j) <= AcceptedNumbers(events, responses, k)
    decreases k
  {
    if j < k {
      AcceptedGrows(events, responses, j, k - 1);
      AcceptedNext(events, responses, k - 1);
    }
  }

  /** What the next event does to the debt. */
  lemma OwedNext(events: seq<Event>, responses: seq<Response>, k: nat)
    requires k < |events| && k < |responses|
    ensures Owed(events, responses, k + 1) <==>
            if Acknowledged(responses[k]) then false
            else if events[k].Arrive? && responses[k] == Accepted(true)
            then 0 in AcceptedNumbers(events, responses, k + 1)
            else Owed(events, responses, k)
  {
    if Owed(events, responses, k + 1) {
      var j: nat :| j < k + 1 && OwedSince(events, responses, k + 1, j);
      AcceptedGrows(events, responses, j + 1, k + 1);
      if j < k {
        assert OwedSince(events, responses, k, j);
      }
    }
    if Owed(events, responses, k) && !Acknowledged(responses[k]) {
      var j: nat :| j < k && OwedSince(events, responses, k, j);
      assert OwedSince(events, responses, k + 1, j);
    }
    if events[k].Arrive? && responses[k] == Accepted(true) && 0 in AcceptedNumbers(events, responses, k + 1) {
      assert OwedSince(events, responses, k + 1, k);
    }
  }

  /** An arrival at a mirrored window. */
  lemma ArriveMirrored(v: View, stream: seq<DataChunk>, got: set<nat>, largest: int, out: seq<DataChunk>, owed: bool,
                       t: nat)
    requires IsStream(stream) && t < |stream| && NearArrival(largest, t) && Mirrors(v, stream, got, largest, out, owed)
    ensures !v.Refuses(stream[t]) <==> Room(stream, got, largest, |out|, t)
    ensures var ok := Room(stream, got, largest, |out|, t);
            var got' := if ok then got + {t} else got;
            Mirrors(v.AfterAdd(stream[t]), stream, got', if ok && t > largest then t else largest, out,
                    if ok then 0 in got' else owed)
  {
    UnrollsTrue(v.newest, t);
    assert v.NumberOf(stream[t]) == t;
    if t !in got {
      SizesAdd(stream, got, |out|, t);
    } else {
      assert got + {t} == got;
    }
  }

  /** A read from a mirrored window. */
  lemma ReadMirrored(v: View, stream: seq<DataChunk>, got: set<nat>, largest: int, out: seq<DataChunk>, owed: bool)
    requires Mirrors(v, stream, got, largest, out, owed)
    ensures v.CanRead() <==> |out| < |stream| && |out| in got
    ensures v.CanRead() ==> v.received[|out|] == stream[|out|]
    ensures Mirrors(v.AfterRead(), stream, got, largest, if v.CanRead() then out + [stream[|out|]] else out, owed)
  {
  }

  /** An acknowledgement that describes a mirrored window reports what has been accepted. */
  lemma ReportMirrored(v: View, stream: seq<DataChunk>, got: set<nat>, largest: int, out: seq<DataChunk>, owed: bool,
                       s: SAck)
    requires -1 <= largest < |stream| && Mirrors(v, stream, got, largest, out, owed) && v.Describes(s)
    ensures Reports(s, stream, got, |out|)
  {
    var cum: int :| Complete(v.received, cum) && s.cumulativeAck == cum % RANGE
                    && Ascending(s.gaps, cum, v.newest) && CoversExactly(s.gaps, cum, v.newest, v.received);
    assert cum in got && UpTo(got, cum);
    forall n: nat | cum < n ensures n in got <==> Covered(s.gaps, cum, n) {
      if n > v.newest {
        NothingCovered(s.gaps, cum, v.newest, n);
      }
    }
  }

  lemma NothingCovered(gaps: seq<GapAckBlock>, cum: int, upto: int, n: int)
    requires Ascending(gaps, cum, upto) && n > upto
    ensures !Covered(gaps, cum, n)
  {
  }

  /** After k events the window is what the first k responses say. */
  ghost predicate MirroredAt(stream: seq<DataChunk>, events: seq<Event>, responses: seq<Response>, k: nat)
    requires FromStream(stream, events) && k <= |events| && k <= |responses|
  {
    Mirrors(After(stream, events, k), stream, AcceptedNumbers(events, responses, k),
            LargestAccepted(events, responses, k), HandedOut(responses, k), Owed(events, responses, k))
  }

  /** Response k is the one that the window gives, and an arrival is near. */
  ghost predicate StepFits(stream: seq<DataChunk>, events: seq<Event>, responses: seq<Response>, k: nat)
    requires FromStream(stream, events) && k < |events| == |responses|
  {
    && AnswersEvent(stream, events, k, responses[k])
    && (events[k].Arrive? ==> NearArrival(LargestAccepted(events, responses, k), events[k].number))
  }

  lemma MirrorStep(stream: seq<DataChunk>, events: seq<Event>, responses: seq<Response>, k: nat, next: nat)
    requires IsStream(stream) && FromStream(stream, events) && k < |events| == |responses| && next == k + 1
    requires MirroredAt(stream, events, responses, k) && StepFits(stream, events, responses, k)
    ensures Truthful(stream, events, responses, k) && MirroredAt(stream, events, responses, next)
  {
    var v, got, out := After(stream, events, k), AcceptedNumbers(events, responses, k), HandedOut(responses, k);
    var largest, owed := LargestAccepted(events, responses, k), Owed(events, responses, k);
    LargestBelow(stream, events, responses, k);
    AcceptedNext(events, responses, k);
    OwedNext(events, responses, k);
    assert HandedOut(responses, k + 1) == Collect(out, responses[k]);
    match events[k]
    case Arrive(t) =>
      ArriveMirrored(v, stream, got, largest, out, owed, t);
    case Fill(fits) =>
      if Acknowledged(responses[k]) {
        ReportMirrored(v, stream, got, largest, out, owed, responses[k].sack);
      }
    case Read =>
      ReadMirrored(v, stream, got, largest, out, owed);
  }

  lemma {:induction false} AlwaysMirrored(stream: seq<DataChunk>, events: seq<Event>, responses: seq<Response>, k: nat)
    requires IsStream(stream) && FromStream(stream, events) && k <= |events| == |responses|
    requires forall j :: 0 <= j < |events| ==> StepFits(stream, events, responses, j)
    ensures MirroredAt(stream, events, responses, k)
  {
    if k == 0 {
      MirroredFirst(stream, events, responses);
    } else {
      AlwaysMirrored(stream, events, responses, k - 1);
      MirrorStep(stream, events, responses, k - 1, k);
    }
  }

  lemma MirroredFirst(stream: seq<DataChunk>, events: seq<Event>, responses: seq<Response>)
    requires FromStream(stream, events)
    ensures MirroredAt(stream, events, responses, 0)
  {
    assert AcceptedNumbers(events, responses, 0) == {};
    NothingHeld(stream, 0);
  }

  /** If all arrivals are near, every response is truthful. */
  lemma NearRunIsTruthful(stream: seq<DataChunk>, events: seq<Event>, responses: seq<Response>)
    requires IsStream(stream) && FromStream(stream, events)
    requires AllAnswered(stream, events, responses, |events|) && NearArrivals(events, responses)
    ensures AllTruthful(stream, events, responses)
  {
    assert forall k :: 0 <= k < |events| ==> StepFits(stream, events, responses, k);
    forall k | 0 <= k < |events| ensures Truthful(stream, events, responses, k) {
      AlwaysMirrored(stream, events, responses, k);
      MirrorStep(stream, events, responses, k, k + 1);
    }
  }

  /** What has been handed out is what the responses hand out. */
  lemma {:induction false} HandedOutIs(stream: seq<DataChunk>, events: seq<Event>, responses: seq<Response>, k: nat)
    requires FromStream(stream, events) && k <= |events| && AllAnswered(stream, events, responses, |events|)
    ensures HandedOut(responses, k) == After(stream, events, k).delivered
  {
    if k > 0 {
      HandedOutIs(stream, events, responses, k - 1);
      CollectIs(After(stream, events, k - 1), events[k - 1], stream, responses[k - 1]);
    }
  }

  lemma {:induction false} NothingHeld(stream: seq<DataChunk>, i: nat)
    ensures SizesFrom(stream, {}, i) == 0
    decreases |stream| - i
  {
    if i < |stream| {
      NothingHeld(stream, i + 1);
    }
  }

  // ----- what follows for every run

  /** What has been handed out is the stream up to some point. */
  lemma {:induction false} HandsOutStream(stream: seq<DataChunk>, events: seq<Event>, responses: seq<Response>, k: nat)
    requires FromStream(stream, events) && AllTruthful(stream, events, responses) && k <= |events|
    ensures HandedOut(responses, k) <= stream
  {
    if k > 0 {
      HandsOutStream(stream, events, responses, k - 1);
      assert Truthful(stream, events, responses, k - 1);
    }
  }

  /** How many of the events from m to k are reads. */
  function ReadsIn(events: seq<Event>, m: nat, k: nat): nat
    requires m <= k <= |events|
    decreases k
  {
    if m == k then 0 else ReadsIn(events, m, k - 1) + if events[k - 1].Read? then 1 else 0
  }

  /** Once every chunk has been accepted, every read hands out the next message until there is none left. */
  lemma {:induction false} EveryReadCounts(stream: seq<DataChunk>, events: seq<Event>, responses: seq<Response>, m: nat,
                                           k: nat)
    requires FromStream(stream, events) && AllTruthful(stream, events, responses) && m <= k <= |events|
    requires forall t: nat :: t < |stream| ==> t in AcceptedNumbers(events, responses, m)
    ensures |HandedOut(responses, k)| >= ReadsIn(events, m, k) || HandedOut(responses, k) == stream
    decreases k
  {
    if m < k {
      EveryReadCounts(stream, events, responses, m, k - 1);
      HandsOutStream(stream, events, responses, k - 1);
      AcceptedGrows(events, responses, m, k - 1);
      assert Truthful(stream, events, responses, k - 1);
    }
  }

  /** A run that gets every chunk accepted and then reads often enough hands out the whole stream. */
  lemma WholeStream(stream: seq<DataChunk>, events: seq<Event>, responses: seq<Response>, m: nat)
    requires FromStream(stream, events) && AllTruthful(stream, events, responses) && m <= |events|
    requires forall t: nat :: t < |stream| ==> t in AcceptedNumbers(events, responses, m)
    requires ReadsIn(events, m, |events|) >= |stream|
    ensures HandedOut(responses, |events|) == stream
  {
    EveryReadCounts(stream, events, responses, m, |events|);
    HandsOutStream(stream, events, responses, |events|);
  }

  lemma {:induction false} NothingBeyond(stream: seq<DataChunk>, got: set<nat>, i: nat)
    requires forall n :: n in got ==> n < i
    ensures SizesFrom(stream, got, i) == 0
    decreases |stream| - i
  {
    if i < |stream| {
      NothingBeyond(stream, got, i + 1);
    }
  }

  /** The window never locks up: the next chunk to hand out is accepted if it fits the credit on its own. */
  lemma NextIsAccepted(stream: seq<DataChunk>, events: seq<Event>, responses: seq<Response>, k: nat)
    requires FromStream(stream, events) && AllTruthful(stream, events, responses) && k < |events|
    requires events[k] == Arrive(|HandedOut(responses, k)|) && stream[events[k].number].size <= 15000
    requires events[k].number !in AcceptedNumbers(events, responses, k)
    ensures responses[k] == Accepted(true)
  {
    assert Truthful(stream, events, responses, k);
    LargestIsLargest(events, responses, k);
    if LargestAccepted(events, responses, k) <= events[k].number {
      NothingBeyond(stream, AcceptedNumbers(events, responses, k), events[k].number);
    }
  }

  const SEQ_WRAP: int := 0x8000_0000  // a bdSequenceNumber holds 32 signed bits

  /**
   The unrolled number of the next arrival, and every sum on the way to it, fits 32 bits as long as fewer than about
   2^31 messages have been handed out.
   */
  lemma NumbersFit(stream: seq<DataChunk>, events: seq<Event>, k: nat)
    requires IsStream(stream) && FromStream(stream, events) && k < |events| && events[k].Arrive?
    requires |After(stream, events, k).delivered| + WINDOW + 2 * RANGE < SEQ_WRAP
    ensures var v := After(stream, events, k);
            && -1 <= v.newest < SEQ_WRAP - 2 * RANGE
            && -HALF <= v.NumberOf(stream[events[k].number]) <= v.newest + RANGE
  {
    CountersInRange(stream, events, k);
    var v := After(stream, events, k);
    if v.newest >= 0 {
      UnrolledIsNearest(v.newest, stream[events[k].number].wire);
    }
  }
}
