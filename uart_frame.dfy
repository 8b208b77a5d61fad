/**
 * The receive half of the UART callback, as a function on values: the bytes held
 * in the receive buffer, the pending-message slot (`data_uart`) and its busy flag
 * (`unsent_data`). The class in frame_reader.dfy does the same work in place on
 * arrays and is proved to agree with `Receive`.
 */
module UartFrame {
  import opened Bytes

  /** UART_BUF_SIZE: the size of the receive buffer, of the read buffer and of the slot. */
  const BufSize: nat := 128
  /** Buffers of this length or shorter are never examined. */
  const MinLen: nat := 35

  /** A CR LF pair starts at position `i`. */
  predicate CrLfAt(s: seq<byte>, i: nat)
    requires i + 1 < |s|
  {
    s[i] == CR && s[i + 1] == LF
  }

  predicate EndsWithCrLf(rx: seq<byte>)
  {
    |rx| >= 2 && CrLfAt(rx, |rx| - 2)
  }

  /** What the callback decides about the whole buffer once a burst has been appended. */
  datatype Verdict =
    | Overflow    // the buffer is full: discard it
    | Incomplete  // too short, or not terminated by CR LF: keep accumulating
    | Framed      // '{' first and '}' just before the CR LF: a record
    | Garbage     // terminated, but not a record: discard it

  function Classify(rx: seq<byte>): (v: Verdict)
    requires |rx| <= BufSize
    ensures v == Overflow <==> |rx| == BufSize
    ensures v == Incomplete <==> |rx| < BufSize && (|rx| <= MinLen || !EndsWithCrLf(rx))
    ensures v == Framed <==>
              MinLen < |rx| < BufSize && EndsWithCrLf(rx) && rx[0] == LBrace && rx[|rx| - 3] == RBrace
  {
    if |rx| == BufSize then Overflow
    else if |rx| <= MinLen || !EndsWithCrLf(rx) then Incomplete
    else if rx[0] == LBrace && rx[|rx| - 3] == RBrace then Framed
    else Garbage
  }

  /**
   * The state the callback works on: `rx` is uart_rxbuf[..uart_rx_leng] (the rest of
   * the buffer is zero), `dataUart` the whole data_uart array, `unsent` the flag.
   */
  datatype Reception = Reception(rx: seq<byte>, dataUart: seq<byte>, unsent: bool)

  /** The state after start-up: everything zero, the slot free. */
  function Initial(): Reception
  {
    Reception([], Zeros(BufSize), false)
  }

  /** The slot contents a record buffer leaves: strncpy of all but the CR LF into a zeroed data_uart. */
  function Extracted(rx: seq<byte>): (d: seq<byte>)
    requires 2 <= |rx| <= BufSize
    ensures |d| == BufSize
    ensures CString(d) == CString(rx[..|rx| - 2])
  {
    CStringOfPadded(CString(rx[..|rx| - 2]), BufSize);
    ZeroPad(CString(rx[..|rx| - 2]), BufSize)
  }

  /** Whether the judgement takes the record and submits the relay work item. */
  predicate Takes(t: Reception)
    requires |t.rx| <= BufSize
  {
    Classify(t.rx) == Framed && !t.unsent
  }

  /** The judgement of a callback, once the burst is in the buffer. */
  function Settle(t: Reception): (r: Reception)
    requires |t.rx| <= BufSize
    ensures |r.rx| < BufSize
    ensures r.rx == [] || r.rx == t.rx
    ensures |t.dataUart| == BufSize ==> |r.dataUart| == BufSize
    ensures t.unsent ==> r.dataUart == t.dataUart && r.unsent
    ensures r.dataUart != t.dataUart || r.unsent != t.unsent ==> Takes(t)
  {
    match Classify(t.rx)
    case Overflow => t.(rx := [])
    case Incomplete => t
    case Garbage => t.(rx := [])
    case Framed => if t.unsent then t else Reception([], Extracted(t.rx), true)
  }

  /** Whether a callback with this burst takes a record and submits the relay work item. */
  predicate Accepts(s: Reception, burst: seq<byte>)
    requires |s.rx| + |burst| <= BufSize
  {
    Takes(s.(rx := s.rx + burst))
  }

  /** One callback: append the burst, then act on the verdict about the whole buffer. */
  function Receive(s: Reception, burst: seq<byte>): (r: Reception)
    requires |s.rx| + |burst| <= BufSize
    ensures |r.rx| < BufSize
    ensures r.rx == [] || r.rx == s.rx + burst
    ensures |s.dataUart| == BufSize ==> |r.dataUart| == BufSize
    ensures s.unsent ==> r.dataUart == s.dataUart && r.unsent
    ensures r.dataUart != s.dataUart || r.unsent != s.unsent ==> Accepts(s, burst)
  {
    Settle(s.(rx := s.rx + burst))
  }

  // ---------------------------------------------------------------------------
  // One callback

  /** Filling the buffer to exactly UART_BUF_SIZE discards it, whatever it holds. */
  lemma OverflowResets(s: Reception, burst: seq<byte>)
    requires |s.rx| + |burst| == BufSize
    ensures Receive(s, burst) == s.(rx := [])
  {
  }

  /** A short or unterminated buffer is only appended to; the slot and its flag are untouched. */
  lemma ShortOrUnterminatedOnlyAppends(s: Reception, burst: seq<byte>)
    requires |s.rx| + |burst| < BufSize
    requires |s.rx| + |burst| <= MinLen || !EndsWithCrLf(s.rx + burst)
    ensures Receive(s, burst) == s.(rx := s.rx + burst)
    ensures Receive(s, burst).rx[..|s.rx|] == s.rx
  {
  }

  /** A record arriving at a free slot is copied, minus its CR LF, into the slot, which becomes busy. */
  lemma RecordTaken(s: Reception, burst: seq<byte>)
    requires MinLen < |s.rx| + |burst| < BufSize
    requires EndsWithCrLf(s.rx + burst)
    requires (s.rx + burst)[0] == LBrace && (s.rx + burst)[|s.rx| + |burst| - 3] == RBrace
    requires !s.unsent
    ensures Accepts(s, burst)
    ensures Receive(s, burst)
         == Reception([], ZeroPad(CString((s.rx + burst)[..|s.rx| + |burst| - 2]), BufSize), true)
  {
  }

  /** A terminated buffer of the wrong shape is discarded; the slot and its flag are untouched. */
  lemma GarbageDiscarded(s: Reception, burst: seq<byte>)
    requires MinLen < |s.rx| + |burst| < BufSize
    requires EndsWithCrLf(s.rx + burst)
    requires (s.rx + burst)[0] != LBrace || (s.rx + burst)[|s.rx| + |burst| - 3] != RBrace
    ensures Receive(s, burst) == s.(rx := [])
    ensures !Accepts(s, burst)
  {
  }

  /** While the slot is busy a record is neither copied nor discarded: it stays in the buffer. */
  lemma BusySlotKeepsRecord(s: Reception, burst: seq<byte>)
    requires s.unsent
    requires |s.rx| + |burst| <= BufSize
    requires Classify(s.rx + burst) == Framed
    ensures Receive(s, burst) == s.(rx := s.rx + burst)
  {
  }

  // ---------------------------------------------------------------------------
  // Several callbacks

  function Flatten(bursts: seq<seq<byte>>): (f: seq<byte>)
  {
    if bursts == [] then [] else bursts[0] + Flatten(bursts[1..])
  }

  /** Successive callbacks, one per burst. */
  function Feed(s: Reception, bursts: seq<seq<byte>>): (r: Reception)
    requires |s.rx| + |Flatten(bursts)| <= BufSize
    decreases |bursts|
  {
    if bursts == [] then s else Feed(Receive(s, bursts[0]), bursts[1..])
  }

  /**
   * What the co-processor sends: a record that opens with '{', closes with '}',
   * holds no NUL and no CR LF pair, and is short enough that, with its CR LF,
   * it is examined and fits the buffer.
   */
  predicate IsRecord(record: seq<byte>)
  {
    && MinLen < |record| + 2 < BufSize
    && record[0] == LBrace && record[|record| - 1] == RBrace
    && (forall i :: 0 <= i < |record| ==> record[i] != 0)
    && (forall i: nat :: i + 1 < |record| ==> !CrLfAt(record, i))
  }

  /** No proper prefix of a framed record ends in CR LF. */
  lemma {:induction false} PrefixUnterminated(record: seq<byte>, k: nat)
    requires IsRecord(record)
    requires k < |record| + 2
    ensures !EndsWithCrLf((record + [CR, LF])[..k])
  {
    var f := record + [CR, LF];
    if k >= 2 {
      if k - 1 < |record| {
        assert f[k - 2] == record[k - 2] && f[k - 1] == record[k - 1];
        assert !CrLfAt(record, k - 2);
      } else {
        assert k - 1 == |record|;
        assert f[k - 2] == record[|record| - 1] == RBrace;
      }
    }
  }

  /** Once the record has been taken, empty bursts change nothing. */
  lemma {:induction false} FeedNothing(s: Reception, bursts: seq<seq<byte>>)
    requires s.rx == [] && Flatten(bursts) == []
    ensures Feed(s, bursts) == s
    decreases |bursts|
  {
    if bursts != [] {
      assert bursts[0] == [];
      assert Receive(s, bursts[0]) == s;
      FeedNothing(s, bursts[1..]);
    }
  }

  lemma {:induction false} FeedFromPrefix(record: seq<byte>, k: nat, data: seq<byte>, bursts: seq<seq<byte>>)
    requires IsRecord(record)
    requires k < |record| + 2
    requires (record + [CR, LF])[..k] + Flatten(bursts) == record + [CR, LF]
    ensures |Flatten(bursts)| == |record| + 2 - k
    ensures Feed(Reception((record + [CR, LF])[..k], data, false), bursts)
         == Reception([], ZeroPad(record, BufSize), true)
    decreases |bursts|
  {
    var f := record + [CR, LF];
    var s := Reception(f[..k], data, false);
    assert bursts != [];
    var b, rest := bursts[0], bursts[1..];
    var rx := f[..k] + b;
    assert rx + Flatten(rest) == f;
    assert rx == f[..|rx|];
    if |rx| == |f| {
      assert rx == f;
      assert f[..|f| - 2] == record;
      CStringOfNulFree(record);
      assert Receive(s, b) == Reception([], ZeroPad(record, BufSize), true);
      FeedNothing(Receive(s, b), rest);
    } else {
      PrefixUnterminated(record, |rx|);
      assert Receive(s, b) == Reception(f[..|rx|], data, false);
      FeedFromPrefix(record, |rx|, data, rest);
    }
  }

  /**
   * However the serial driver splits a record and its CR LF into bursts, an empty
   * buffer with a free slot ends with the record in the slot (zero-padded), the
   * slot busy and the buffer empty.
   */
  lemma {:induction false} RecordSurvivesChunking(record: seq<byte>, data: seq<byte>, bursts: seq<seq<byte>>)
    requires IsRecord(record)
    requires Flatten(bursts) == record + [CR, LF]
    ensures Feed(Reception([], data, false), bursts) == Reception([], ZeroPad(record, BufSize), true)
    ensures CString(Feed(Reception([], data, false), bursts).dataUart) == record
  {
    assert (record + [CR, LF])[..0] == [];
    FeedFromPrefix(record, 0, data, bursts);
    CStringOfPadded(record, BufSize);
    CStringOfNulFree(record);
  }

  // ---------------------------------------------------------------------------
  // The verdict is taken once per callback, not once per byte

  /** A sample record of 35 bytes: '{', 33 times 'a', '}'. */
  function SampleRecord(): seq<byte>
  {
    [LBrace] + seq(33, _ => 0x61) + [RBrace]
  }

  /**
   * A record whose CR LF arrives in the same burst as the first byte of the next
   * record is not taken: the buffer no longer ends in CR LF. Delivered as two
   * bursts, the same bytes hand the record over.
   */
  lemma ChunkingDecidesTaking()
    ensures IsRecord(SampleRecord())
    ensures Receive(Initial(), SampleRecord() + [CR, LF, LBrace]).unsent == false
    ensures Receive(Receive(Initial(), SampleRecord() + [CR, LF]), [LBrace]).unsent == true
  {
    var r := SampleRecord();
    var f := r + [CR, LF];
    assert |f| == 37;
    assert f[|f| - 3] == RBrace;
    assert r + [CR, LF, LBrace] == f + [LBrace];
    assert (f + [LBrace])[|f|] == LBrace;
  }

  /** A record, and two records one after the other, each with its CR LF, are framed. */
  lemma {:induction false} RecordsFramed(r1: seq<byte>, r2: seq<byte>)
    requires IsRecord(r1) && IsRecord(r2) && |r1| + |r2| + 4 < BufSize
    ensures Classify(r1 + [CR, LF]) == Framed
    ensures Classify(r1 + [CR, LF] + r2 + [CR, LF]) == Framed
  {
    var f1, f2 := r1 + [CR, LF], r2 + [CR, LF];
    assert f1[0] == LBrace && f1[|f1| - 3] == RBrace && EndsWithCrLf(f1);
    var both := f1 + f2;
    assert both[0] == LBrace && both[|both| - 3] == f2[|f2| - 3] == RBrace;
    assert both[|both| - 2] == CR && both[|both| - 1] == LF;
  }

  /**
   * Two records that arrive while the slot is busy both stay in the buffer.
   */
  lemma {:induction false} BusySlotHoldsRecords(r1: seq<byte>, r2: seq<byte>, data: seq<byte>)
    requires IsRecord(r1) && IsRecord(r2) && |r1| + |r2| + 4 < BufSize
    ensures Receive(Receive(Reception([], data, true), r1 + [CR, LF]), r2 + [CR, LF])
         == Reception(r1 + [CR, LF] + r2 + [CR, LF], data, true)
  {
    var f1, f2 := r1 + [CR, LF], r2 + [CR, LF];
    var busy := Reception([], data, true);
    RecordsFramed(r1, r2);
    assert busy.rx + f1 == f1;
    BusySlotKeepsRecord(busy, f1);
    BusySlotKeepsRecord(busy.(rx := f1), f2);
  }

  /**
   * Once the slot is free, the next callback (one with no new bytes will do) takes
   * two buffered records, and the CR LF between them, as a single record.
   */
  lemma {:induction false} FreedSlotMergesRecords(r1: seq<byte>, r2: seq<byte>, data: seq<byte>)
    requires IsRecord(r1) && IsRecord(r2) && |r1| + |r2| + 4 < BufSize
    ensures Receive(Reception(r1 + [CR, LF] + r2 + [CR, LF], data, false), [])
         == Reception([], ZeroPad(r1 + [CR, LF] + r2, BufSize), true)
  {
    var inner := r1 + [CR, LF] + r2;
    var both := inner + [CR, LF];
    assert r1 + [CR, LF] + r2 + [CR, LF] == both;
    assert both + [] == both;
    assert both[0] == LBrace && both[|both| - 3] == RBrace;
    assert both[..|both| - 2] == inner;
    forall i | 0 <= i < |inner|
      ensures inner[i] != 0
    {
      if i >= |r1| + 2 {
        assert inner[i] == r2[i - |r1| - 2];
      } else if i < |r1| {
        assert inner[i] == r1[i];
      }
    }
    CStringOfNulFree(inner);
  }

  // ---------------------------------------------------------------------------
  // Finding: the unguarded writes of the receive path

  datatype Target = TempRx | RxBuf
  datatype Write = Write(target: Target, index: nat)

  /**
   * The array writes of the receive half, in order, as written: after a read of
   * `n` bytes, temp_rx[n] = 0, then uart_rxbuf[len + i] = temp_rx[i] for each i < n.
   * Both arrays hold UART_BUF_SIZE bytes, and the read asks for up to
   * sizeof(temp_rx) == UART_BUF_SIZE bytes.
   */
  function ReceiveWrites(len: nat, n: nat): (w: seq<Write>)
    ensures |w| == n + 1 && w[0] == Write(TempRx, n)
    ensures forall i :: 1 <= i < |w| ==> w[i] == Write(RxBuf, len + i - 1)
  {
    [Write(TempRx, n)] + seq(n, i requires 0 <= i < n => Write(RxBuf, len + i))
  }

  predicate InBounds(w: Write)
  {
    w.index < BufSize
  }

  /** A full read (n == sizeof(temp_rx)) writes its terminator one past the end of temp_rx. */
  lemma FullReadOverrunsTemp()
    ensures !InBounds(ReceiveWrites(0, BufSize)[0])
  {
  }

  /** A 30-byte read into a buffer holding 100 bytes writes past the end of uart_rxbuf. */
  lemma LongBurstOverrunsRxBuf()
    ensures 30 <= BufSize
    ensures ReceiveWrites(100, 30)[29] == Write(RxBuf, 128)
    ensures !InBounds(ReceiveWrites(100, 30)[29])
  {
  }

  /**
   * The read size the code evidently intends: one byte short of temp_rx, for its
   * terminator, and never more than uart_rxbuf can still take.
   */
  function ReadLimit(len: nat): (m: nat)
    requires len < BufSize
    ensures m < BufSize && len + m <= BufSize
    ensures m == BufSize - 1 || len + m == BufSize
  {
    if BufSize - len < BufSize - 1 then BufSize - len else BufSize - 1
  }

  /** Reads bounded by `ReadLimit` keep every write of the receive path inside its array. */
  lemma ReadLimitKeepsWritesInBounds(len: nat, n: nat)
    requires len < BufSize && n <= ReadLimit(len)
    ensures forall i :: 0 <= i < |ReceiveWrites(len, n)| ==> InBounds(ReceiveWrites(len, n)[i])
  {
  }
}
