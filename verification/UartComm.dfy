/** The device's sending side: the UART with its running checksum, and the frames built on it. */
module UartComm {
  import opened Bytes
  import opened Checksum
  import opened FrameDefs

  class Uart {
    /** Everything handed to the transmitter so far. */
    var wire: seq<byte>
    var sendAccu: Accu
    var recvAccu: Accu

    constructor ()
      ensures wire == [] && sendAccu == SEED && recvAccu == SEED
    {
      wire := [];
      sendAccu := SEED;
      recvAccu := SEED;
    }

    method PutChar(c: byte)
      modifies this`wire, this`sendAccu
      ensures wire == old(wire) + [c]
      ensures sendAccu == Update(old(sendAccu), c)
    {
      wire := wire + [c];
      sendAccu := Update(sendAccu, c);
    }

    method PutBuffer(buf: seq<byte>)
      modifies this`wire, this`sendAccu
      ensures wire == old(wire) + buf
      ensures sendAccu == Sum(old(sendAccu), buf)
    {
      var s := 0;
      while s < |buf|
        invariant 0 <= s <= |buf|
        invariant wire == old(wire) + buf[..s]
        invariant sendAccu == Sum(old(sendAccu), buf[..s])
      {
        PutChar(buf[s]);
        SumSnoc(old(sendAccu), buf[..s], buf[s]);
        assert buf[..s + 1] == buf[..s] + [buf[s]];
        s := s + 1;
      }
      assert buf[..s] == buf;
    }

    /** Starts a frame: the checksum restarts with the magic. */
    method FrameStart(ftype: byte, payloadSize: u16)
      modifies this`wire, this`sendAccu
      ensures wire == old(wire) + Header(ftype, payloadSize)
      ensures sendAccu == Sum(SEED, Header(ftype, payloadSize))
    {
      sendAccu := SEED;
      PutBuffer(MAGIC);
      PutBuffer(LittleEndian(payloadSize, 2));
      SumConcat(SEED, MAGIC, LittleEndian(payloadSize, 2));
      PutChar(ftype);
      SumSnoc(SEED, MAGIC + LittleEndian(payloadSize, 2), ftype);
    }

    /** Ends a frame with the low byte of the checksum of all its bytes. */
    method FrameEnd()
      modifies this`wire, this`sendAccu
      ensures wire == old(wire) + [LowByte(old(sendAccu))]
    {
      PutChar(LowByte(sendAccu));
    }

    /** The buffer's length fits the device's 16-bit `size_t`. */
    method FrameSend(ftype: byte, payload: seq<byte>)
      requires |payload| < 0x1_0000
      modifies this`wire, this`sendAccu
      ensures wire == old(wire) + EncodeFrame(Frame(ftype, payload))
    {
      FrameStart(ftype, |payload|);
      PutBuffer(payload);
      SumConcat(SEED, Header(ftype, |payload|), payload);
      FrameEnd();
    }

    /** The receiving side's checksum, which the main loop drives. */
    method RecvReset()
      modifies this`recvAccu
      ensures recvAccu == SEED
    {
      recvAccu := SEED;
    }

    method RecvUpdate(ch: byte)
      modifies this`recvAccu
      ensures recvAccu == Update(old(recvAccu), ch)
    {
      recvAccu := Update(recvAccu, ch);
    }

    method RecvMatches(data: byte) returns (matched: bool)
      ensures matched <==> data == LowByte(recvAccu)
    {
      DeviceMatchIsEquality(recvAccu, data);
      matched := DeviceMatches(recvAccu, data);
    }
  }
}
