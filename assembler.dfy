/** The frame assembler of app/src/ps2_mouse.c as a state machine on values:
    the frame part of zmk_ps2_mouse_data (cmd_buffer, cmd_idx and whether the
    cmd_buffer_timeout work item is scheduled), one function per handler, and
    the properties of byte streams fed to it one byte at a time. The class
    MouseDriver.MouseFrame runs the same handlers in place and is proved
    against these functions. */
module FrameAssembler {
  import opened MousePacket

  /** sizeof(cmd_buffer). */
  const CMD_BUFFER_LEN: nat := 3

  /** cmd_buffer, cmd_idx, and whether the inactivity timer is scheduled. */
  datatype Assembler = Assembler(buffer: seq<bv8>, idx: int, timerArmed: bool)

  /** The result of one handler call: the new state and the packets handed to
      zmk_ps2_mouse_movement_process_cmd, in order. */
  datatype Step = Step(next: Assembler, emitted: seq<Packet>)

  /** What `cmd_buffer[cmd_idx]` needs to stay in bounds. */
  predicate InBounds(a: Assembler) {
    |a.buffer| == CMD_BUFFER_LEN && 0 <= a.idx < CMD_BUFFER_LEN
  }

  /** The invariant of the assembler under sequential execution: the timer is
      pending exactly while a frame is partly received, a partly received frame
      starts with an aligned state byte, and the X and Y slots not yet filled
      in this frame are zero. Slot 0 may hold a rejected byte while cmd_idx
      is 0. */
  predicate Inv(a: Assembler) {
    InBounds(a)
    && (a.timerArmed <==> a.idx != 0)
    && (a.idx != 0 ==> Aligned(a.buffer[0]))
    && (a.idx < 2 ==> a.buffer[1] == 0)
    && a.buffer[2] == 0
  }

  /** The statically initialised driver data: a zero buffer, cmd_idx 0 and no
      timer scheduled. */
  function Initial(): (a: Assembler)
    ensures Inv(a) && a.idx == 0 && !a.timerArmed
  {
    Assembler([0, 0, 0], 0, false)
  }

  /** zmk_ps2_mouse_movement_reset_cmd_buffer: cmd_idx back to 0 and the whole
      buffer zeroed; the timer is not touched. */
  function Reset(a: Assembler): Assembler {
    Assembler([0, 0, 0], 0, a.timerArmed)
  }

  /** zmk_ps2_mouse_movement_callback. The timer is cancelled first and the byte
      stored at cmd_idx before anything is checked. A first byte without the
      alignment bit leaves cmd_idx at 0; a third byte hands the frame to
      process_cmd and resets the buffer; any other byte advances cmd_idx and
      schedules the timer again. */
  function OnByte(a: Assembler, b: bv8): (r: Step)
    requires InBounds(a)
    ensures InBounds(r.next)
    ensures r.next.timerArmed <==> r.next.idx != 0
    ensures |r.emitted| == (if a.idx == 2 then 1 else 0)
    ensures Inv(a) ==> Inv(r.next)
    ensures Inv(a) && |r.emitted| == 1 ==> Aligned(r.emitted[0].state)
  {
    var cancelled := a.(timerArmed := false);
    var stored := cancelled.(buffer := a.buffer[a.idx := b]);
    if a.idx == 0 && !Bit(b, ALIGNMENT_BIT) then
      Step(stored.(idx := 0), [])
    else if a.idx == 2 then
      Step(Reset(stored), [Packet(stored.buffer[0], stored.buffer[1], stored.buffer[2])])
    else
      Step(stored.(idx := a.idx + 1, timerArmed := true), [])
  }

  /** zmk_ps2_mouse_movement_cmd_timout: the work item has fired, so it is no
      longer pending, and the buffer is reset. */
  function Timeout(a: Assembler): Assembler {
    Reset(a.(timerArmed := false))
  }

  /** The bytes of a sequence of packets, in transmission order. */
  function Flatten(ps: seq<Packet>): seq<bv8> {
    if ps == [] then [] else [ps[0].state, ps[0].x, ps[0].y] + Flatten(ps[1..])
  }

  /** The callback invoked once per arriving byte, in arrival order, with no
      timeout in between. */
  function Run(a: Assembler, bytes: seq<bv8>): (r: Step)
    requires Inv(a)
    ensures Inv(r.next)
    decreases |bytes|
  {
    if bytes == [] then
      Step(a, [])
    else
      var first := OnByte(a, bytes[0]);
      var rest := Run(first.next, bytes[1..]);
      Step(rest.next, first.emitted + rest.emitted)
  }

  // ---------------------------------------------------------------------
  // One callback

  /** A first byte without the alignment bit: cmd_idx stays 0, nothing is
      emitted, the timer stays cancelled, and slot 0 still receives the
      rejected byte because the store comes before the check. */
  lemma OnByteMisaligned(a: Assembler, b: bv8)
    requires InBounds(a) && a.idx == 0 && !Aligned(b)
    ensures OnByte(a, b) == Step(Assembler(a.buffer[0 := b], 0, false), [])
  {
  }

  /** An aligned first byte or any second byte: stored in its slot, cmd_idx
      one higher, the timer scheduled, nothing emitted, nothing else changed. */
  lemma OnByteAccepted(a: Assembler, b: bv8)
    requires InBounds(a)
    requires (a.idx == 0 && Aligned(b)) || a.idx == 1
    ensures OnByte(a, b) == Step(Assembler(a.buffer[a.idx := b], a.idx + 1, true), [])
  {
  }

  /** A third byte: exactly one packet, (cmd_buffer[0], cmd_buffer[1], byte),
      is processed; afterwards the buffer is zero, cmd_idx is 0 and the timer
      is not scheduled. */
  lemma OnByteThird(a: Assembler, b: bv8)
    requires InBounds(a) && a.idx == 2
    ensures OnByte(a, b) == Step(Initial(), [Packet(a.buffer[0], a.buffer[1], b)])
  {
  }

  /** The timeout handler discards any partial frame, whatever the state. */
  lemma TimeoutRestoresInitial(a: Assembler)
    ensures Timeout(a) == Initial()
    ensures Inv(Timeout(a))
  {
  }

  /** Resetting twice is resetting once. */
  lemma ResetIdempotent(a: Assembler)
    ensures Reset(Reset(a)) == Reset(a)
    ensures Reset(a).idx == 0 && Reset(a).buffer == [0, 0, 0]
  {
  }

  /** Reset keeps the invariant when no timer is pending, which is how both
      of its callers use it: after the callback's cancel and in the fired
      timeout handler. */
  lemma ResetKeepsInv(a: Assembler)
    requires !a.timerArmed
    ensures Inv(Reset(a))
  {
  }

  // ---------------------------------------------------------------------
  // Byte streams

  /** Every packet the callback hands to the decoder, however many bytes
      arrive, has its alignment bit set. */
  lemma {:induction false} RunEmitsAligned(a: Assembler, bytes: seq<bv8>)
    requires Inv(a)
    ensures forall i :: 0 <= i < |Run(a, bytes).emitted| ==> Aligned(Run(a, bytes).emitted[i].state)
    decreases |bytes|
  {
    if bytes != [] {
      var first := OnByte(a, bytes[0]);
      RunEmitsAligned(first.next, bytes[1..]);
    }
  }

  /** Feeding two stretches of bytes is feeding the first, then the second. */
  lemma {:induction false} RunAppend(a: Assembler, xs: seq<bv8>, ys: seq<bv8>)
    requires Inv(a)
    ensures var first := Run(a, xs);
            var second := Run(first.next, ys);
            Run(a, xs + ys) == Step(second.next, first.emitted + second.emitted)
    decreases |xs|
  {
    if xs == [] {
      assert xs + ys == ys;
    } else {
      var head := OnByte(a, xs[0]);
      var tail := Run(head.next, xs[1..]);
      var second := Run(tail.next, ys);
      assert (xs + ys)[0] == xs[0] && (xs + ys)[1..] == xs[1..] + ys;
      RunAppend(head.next, xs[1..], ys);
      RunFirstByte(a, xs + ys);
      Associative(head.emitted, tail.emitted, second.emitted);
    }
  }

  lemma Associative<T>(u: seq<T>, v: seq<T>, w: seq<T>)
    ensures u + (v + w) == (u + v) + w
  {
  }

  /** One unfolding of Run: the first byte, then the rest from there. */
  lemma RunFirstByte(a: Assembler, bytes: seq<bv8>)
    requires Inv(a) && bytes != []
    ensures var head := OnByte(a, bytes[0]);
            var tail := Run(head.next, bytes[1..]);
            Run(a, bytes) == Step(tail.next, head.emitted + tail.emitted)
  {
  }

  /** While waiting for a state byte, bytes without the alignment bit are
      discarded one by one: cmd_idx stays 0, no packet is emitted, the timer
      stays cancelled and the X and Y slots stay zero. */
  lemma {:induction false} MisalignedBytesKeepWaiting(a: Assembler, bytes: seq<bv8>)
    requires Inv(a) && a.idx == 0
    requires forall i :: 0 <= i < |bytes| ==> !Aligned(bytes[i])
    ensures var r := Run(a, bytes);
            r.next.idx == 0 && !r.next.timerArmed && r.emitted == []
            && r.next.buffer[1..] == a.buffer[1..]
    decreases |bytes|
  {
    if bytes != [] {
      OnByteMisaligned(a, bytes[0]);
      MisalignedBytesKeepWaiting(OnByte(a, bytes[0]).next, bytes[1..]);
    }
  }

  /** From a state waiting for a state byte, an aligned three-byte frame is
      processed once and leaves the initial state behind. */
  lemma AlignedFrame(a: Assembler, p: Packet)
    requires Inv(a) && a.idx == 0 && Aligned(p.state)
    ensures Run(a, [p.state, p.x, p.y]) == Step(Initial(), [p])
  {
    var s1 := OnByte(a, p.state);
    var s2 := OnByte(s1.next, p.x);
    var s3 := OnByte(s2.next, p.y);
    OnByteAccepted(a, p.state);
    OnByteAccepted(s1.next, p.x);
    OnByteThird(s2.next, p.y);
    assert [p.state, p.x, p.y][1..] == [p.x, p.y];
    assert [p.x, p.y][1..] == [p.y];
    assert Run(s2.next, [p.y]) == Step(Initial(), [p]);
    assert Run(s1.next, [p.x, p.y]) == Step(Initial(), [p]);
  }

  /** Misalignment recovery: after any run of bytes without the alignment bit,
      the next aligned frame is received and processed exactly as sent. */
  lemma ResyncThenFrame(a: Assembler, junk: seq<bv8>, p: Packet)
    requires Inv(a) && a.idx == 0
    requires forall i :: 0 <= i < |junk| ==> !Aligned(junk[i])
    requires Aligned(p.state)
    ensures Run(a, junk + [p.state, p.x, p.y]) == Step(Initial(), [p])
  {
    RunAppend(a, junk, [p.state, p.x, p.y]);
    MisalignedBytesKeepWaiting(a, junk);
    AlignedFrame(Run(a, junk).next, p);
  }

  /** Timeout recovery: whatever partial frame was pending when the timer
      fired, the next aligned frame is received and processed as sent. */
  lemma TimeoutThenFrame(a: Assembler, p: Packet)
    requires Aligned(p.state)
    ensures Run(Timeout(a), [p.state, p.x, p.y]) == Step(Initial(), [p])
  {
    TimeoutRestoresInitial(a);
    AlignedFrame(Timeout(a), p);
  }

  /** From the initial state, a stream of aligned packets is cut back into
      exactly those packets, in order, and the assembler ends where it began. */
  lemma {:induction false} StreamOfFrames(ps: seq<Packet>)
    requires forall i :: 0 <= i < |ps| ==> Aligned(ps[i].state)
    ensures Run(Initial(), Flatten(ps)) == Step(Initial(), ps)
  {
    if ps != [] {
      var p := ps[0];
      assert Flatten(ps) == [p.state, p.x, p.y] + Flatten(ps[1..]);
      RunAppend(Initial(), [p.state, p.x, p.y], Flatten(ps[1..]));
      AlignedFrame(Initial(), p);
      StreamOfFrames(ps[1..]);
      assert [p] + ps[1..] == ps;
    }
  }

  /** The events a mouse reports, sent as packets and passed through the
      assembler and the decoder, come out unchanged and in order. */
  lemma {:induction false} EventsRoundTrip(events: seq<MotionEvent>)
    requires forall i :: 0 <= i < |events| ==> Reportable(events[i])
    ensures var sent := seq(|events|, i requires 0 <= i < |events| => Encode(events[i]));
            var received := Run(Initial(), Flatten(sent)).emitted;
            |received| == |events|
            && forall i :: 0 <= i < |events| ==> DecodePacket(received[i]) == events[i]
  {
    var sent := seq(|events|, i requires 0 <= i < |events| => Encode(events[i]));
    StreamOfFrames(sent);
    forall i | 0 <= i < |events|
      ensures DecodePacket(sent[i]) == events[i]
    {
      DecodeEncode(events[i]);
    }
  }
}
