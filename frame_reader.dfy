/**
 * The receive half of the UART interrupt callback `uart_cb`, in place: bytes are
 * copied into the fixed receive buffer, the length counter advances, and the whole
 * buffer is then judged once. Proved to do what `UartFrame.Receive` says.
 */
module FrameReader {
  import opened Bytes
  import opened UartFrame
  import opened PendingSlot

  class Reader {
    /** uart_rxbuf */
    const rxbuf: array<byte>
    /** uart_rx_leng */
    var rxLen: nat
    /** data_uart and unsent_data, shared with the relay work handler */
    const slot: Slot

    /** The shape of the state: a full-size buffer, zero past its contents. */
    ghost predicate WellFormed()
      reads this, rxbuf, slot, slot.data
    {
      && rxbuf.Length == BufSize
      && rxbuf != slot.data
      && slot.Valid()
      && rxLen <= BufSize
      && AllZero(rxbuf[rxLen..])
    }

    /** Between callbacks the buffer is also below capacity. */
    ghost predicate Valid()
      reads this, rxbuf, slot, slot.data
    {
      WellFormed() && rxLen < BufSize
    }

    ghost function State(): Reception
      reads this, rxbuf, slot, slot.data
      requires WellFormed()
    {
      Reception(rxbuf[..rxLen], slot.data[..], slot.unsent)
    }

    constructor (slot: Slot)
      requires slot.Valid()
      ensures Valid() && fresh(rxbuf) && this.slot == slot
      ensures State() == Reception([], slot.data[..], slot.unsent)
    {
      rxbuf := new byte[BufSize](_ => 0);
      rxLen := 0;
      this.slot := slot;
    }

    /** memset(uart_rxbuf, '\0', ...) and uart_rx_leng = 0. */
    method Discard()
      requires rxbuf.Length == BufSize
      modifies this`rxLen, rxbuf
      ensures rxLen == 0 && AllZero(rxbuf[..])
    {
      Memset(rxbuf);
      rxLen := 0;
    }

    /** The copy loop: each byte of the burst goes to uart_rxbuf[uart_rx_leng++]. */
    method Append(burst: seq<byte>)
      requires WellFormed() && rxLen + |burst| <= BufSize
      modifies this`rxLen, rxbuf
      ensures WellFormed()
      ensures State() == old(State()).(rx := old(State()).rx + burst)
    {
      ghost var before := rxbuf[..rxLen];
      for i := 0 to |burst|
        invariant rxLen == |before| + i
        invariant rxbuf[..rxLen] == before + burst[..i]
        invariant AllZero(rxbuf[rxLen..])
      {
        rxbuf[rxLen] := burst[i];
        rxLen := rxLen + 1;
      }
      assert burst[..|burst|] == burst;
    }

    /** The judgement on the whole buffer once the burst is in. */
    method Judge() returns (submit: bool)
      requires WellFormed()
      modifies this`rxLen, rxbuf, slot, slot.data
      ensures Valid()
      ensures State() == Settle(old(State()))
      ensures submit == Takes(old(State()))
    {
      ghost var rx := rxbuf[..rxLen];
      submit := false;
      if rxLen == BufSize {
        Discard();
      } else if rxLen > MinLen {
        if rxbuf[rxLen - 1] == LF && rxbuf[rxLen - 2] == CR {
          if rxbuf[0] == LBrace && rxbuf[rxLen - 3] == RBrace {
            if !slot.unsent {
              assert rx[..|rx| - 2] == rxbuf[..rxLen - 2];
              slot.Fill(rxbuf, rxLen - 2);
              submit := true;
              Discard();
            }
          } else {
            Discard();
          }
        }
      }
    }

    /**
     * One callback with `burst` the bytes the FIFO read returned. The read is bounded
     * by `ReadLimit`, the corrected read size; as written the code reads up to
     * UART_BUF_SIZE bytes whatever the buffer holds (see `ReceiveWrites`).
     * `submit` says whether the relay work item was submitted.
     */
    method Callback(burst: seq<byte>) returns (submit: bool)
      requires Valid()
      requires |burst| <= ReadLimit(rxLen)
      modifies this`rxLen, rxbuf, slot, slot.data
      ensures Valid()
      ensures State() == Receive(old(State()), burst)
      ensures submit == Accepts(old(State()), burst)
    {
      Append(burst);
      submit := Judge();
    }
  }
}
