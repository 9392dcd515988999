/** The frame part of the driver's global zmk_ps2_mouse_data, updated in place
    by the byte callback, the timeout handler and the buffer reset of
    app/src/ps2_mouse.c. Each handler is proved to do what the matching
    function of FrameAssembler describes, so the stream lemmas proved there
    hold of this object too. */
module MouseDriver {
  import opened MousePacket
  import FrameAssembler

  class MouseFrame {
    /** cmd_buffer[3]. */
    var cmdBuffer: array<bv8>
    /** cmd_idx: the slot the next byte is stored in. */
    var cmdIdx: int
    /** Whether the cmd_buffer_timeout work item is scheduled. */
    var timerArmed: bool
    /** The packets handed to zmk_ps2_mouse_movement_process_cmd so far. */
    ghost var processed: seq<Packet>

    /** The object's state as a value of the assembler's specification. */
    ghost function Snapshot(): FrameAssembler.Assembler
      reads this, cmdBuffer
    {
      FrameAssembler.Assembler(cmdBuffer[..], cmdIdx, timerArmed)
    }

    ghost predicate Valid()
      reads this, cmdBuffer
    {
      cmdBuffer.Length == FrameAssembler.CMD_BUFFER_LEN && FrameAssembler.Inv(Snapshot())
    }

    /** The statically initialised data: `.cmd_idx = 0`, the rest zero. */
    constructor ()
      ensures Valid() && fresh(cmdBuffer)
      ensures Snapshot() == FrameAssembler.Initial() && processed == []
    {
      cmdBuffer := new bv8[] [0, 0, 0];
      cmdIdx := 0;
      timerArmed := false;
      processed := [];
    }

    /** zmk_ps2_mouse_movement_reset_cmd_buffer: cmd_idx to 0, then a memset
        of the whole buffer to zero. */
    method ResetCmdBuffer()
      requires cmdBuffer.Length == FrameAssembler.CMD_BUFFER_LEN
      modifies this`cmdIdx, cmdBuffer
      ensures Snapshot() == FrameAssembler.Reset(old(Snapshot()))
    {
      cmdIdx := 0;
      forall i | 0 <= i < cmdBuffer.Length {
        cmdBuffer[i] := 0;
      }
      assert cmdBuffer[..] == [0, 0, 0];
    }

    /** zmk_ps2_mouse_movement_process_cmd: decode one completed frame and hand
        the event on (the source logs it). */
    method ProcessCmd(state: bv8, x: bv8, y: bv8) returns (event: MotionEvent)
      modifies this`processed
      ensures processed == old(processed) + [Packet(state, x, y)]
      ensures event == Decode(state, x, y)
    {
      event := Decode(state, x, y);
      processed := processed + [Packet(state, x, y)];
    }

    /** zmk_ps2_mouse_movement_callback: one byte from the PS/2 driver. */
    method OnByte(b: bv8)
      requires Valid()
      modifies this`cmdIdx, this`timerArmed, this`processed, cmdBuffer
      ensures Valid()
      ensures var step := FrameAssembler.OnByte(old(Snapshot()), b);
              Snapshot() == step.next && processed == old(processed) + step.emitted
    {
      timerArmed := false;
      cmdBuffer[cmdIdx] := b;
      if cmdIdx == 0 {
        if !Bit(b, ALIGNMENT_BIT) {
          // Out of alignment: the resend request is not sent.
          cmdIdx := 0;
          return;
        }
      } else if cmdIdx == 1 {
        // The X byte needs no check.
      } else if cmdIdx == 2 {
        var _ := ProcessCmd(cmdBuffer[0], cmdBuffer[1], cmdBuffer[2]);
        ResetCmdBuffer();
        return;
      }
      cmdIdx := cmdIdx + 1;
      timerArmed := true;
    }

    /** zmk_ps2_mouse_movement_cmd_timout: the inactivity timer fired, so it
        is no longer scheduled, and the partial frame is dropped. */
    method OnTimeout()
      requires cmdBuffer.Length == FrameAssembler.CMD_BUFFER_LEN
      modifies this`cmdIdx, this`timerArmed, cmdBuffer
      ensures Valid() && processed == old(processed)
      ensures Snapshot() == FrameAssembler.Timeout(old(Snapshot()))
    {
      timerArmed := false;
      ResetCmdBuffer();
    }
  }

  /** A client of the class: a misaligned byte, then the frame from the
      parser's comment, arrive; the frame is decoded as (-3, 2). */
  method ReceiveExample() {
    var frame := new MouseFrame();
    frame.OnByte(0x00);
    assert frame.cmdIdx == 0 && frame.processed == [];
    frame.OnByte(0x18);
    frame.OnByte(0xfd);
    assert frame.cmdIdx == 2;
    frame.OnByte(0x02);
    assert frame.processed == [Packet(0x18, 0xfd, 0x02)];
    WorkedExample();
    assert Signed(DecodePacket(frame.processed[0]).movX) == -3;
  }
}
