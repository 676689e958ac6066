/**
 The receive path of the AT UART, `system/platform/arm-cortex/common/hal/hal_uart.c`.

 A DMA channel writes arriving bytes round a 256-byte buffer and raises an interrupt at the half
 and at the end; the line going idle raises a third. The three callbacks cut the buffer into
 slices and hand them to `rt_device_cb`, which fills the ring buffer and, when that is full, a
 spill buffer while RTS is raised. A reader thread drains the ring and flushes the spill.

 The object below is the static data of the file plus the hardware it talks to: the position of
 the DMA channel and its two interrupt flags. Each method is one atomic step.
 */
module UartReceive {
  import opened Bytes
  import opened RingBuffers

  const XFER_SIZE: nat := 256
  const HALF_MARK: nat := XFER_SIZE / 2 + XFER_SIZE % 2
  const RINGBUFFER_SIZE: nat := 5 * 1024

  /** What a flush always has room for: it runs only with less than a third of the ring in use. */
  const MAX_SPILL: nat := RINGBUFFER_SIZE - (RINGBUFFER_SIZE / 3 - 1)

  /** `a - b` in an unsigned 32-bit register. */
  function Sub32(a: nat, b: nat): nat
    requires a < U32 && b < U32
  {
    (a - b + U32) % U32
  }

  datatype Event = Byte(b: byte) | HalfCplt | Cplt | Idle | Read(n: nat)

  /** The bytes an event sequence brings in. */
  function Incoming(events: seq<Event>): seq<byte> {
    if events == [] then []
    else
      var e := events[|events| - 1];
      Incoming(events[..|events| - 1]) + if e.Byte? then [e.b] else []
  }

  lemma IncomingSnoc(events: seq<Event>, k: nat)
    requires k < |events|
    ensures Incoming(events[..k + 1]) == Incoming(events[..k]) + Incoming([events[k]])
  {
    assert events[..k + 1][..k] == events[..k];
    assert [events[k]][..0] == [];
  }

  class AtUart {
    const dmaBuf: array<byte>  // g_uart_buf
    const rb: RingBuffer       // g_uart_rb
    var headPtr: nat           // g_head_ptr, a uint32_t
    var flowControl: bool      // g_flow_control
    var leftData: seq<byte>    // g_uart2_left_data, with g_uart2_left_data_len its length
    var rts: bool              // the level of the RTS pin

    var dmaPos: nat            // XFER_SIZE minus the counter of the DMA channel
    var halfPending: bool
    var cpltPending: bool

    ghost var arrived: seq<byte>   // every byte the line has delivered
    ghost var sliced: seq<byte>    // the concatenation of the slices given to rt_device_cb
    ghost var consumed: seq<byte>  // every byte qosa_uart_read has returned

    ghost var overrun: bool        // a slice did not lie in the DMA buffer

    /** What every step keeps, whenever the interrupts are served. */
    ghost predicate Valid()
      reads this, rb, rb.buffer, dmaBuf
    {
      && rb.Valid() && rb.bufferSize == RINGBUFFER_SIZE
      && dmaBuf.Length == XFER_SIZE && dmaBuf != rb.buffer
      && headPtr < U32 && dmaPos < XFER_SIZE
      && DmaValid()
      && FlowValid()
    }

    /** The DMA channel: its position counts the bytes round, and its buffer holds the newest. */
    ghost predicate DmaValid()
      requires dmaBuf.Length == XFER_SIZE
      reads this`dmaPos, this`arrived, dmaBuf
    {
      dmaPos == |arrived| % XFER_SIZE && Buffered(dmaBuf[..], arrived)
    }

    /**
     What the callbacks are for: the slices handed on are the stream so far, all of them lay in
     the buffer, the head stands behind them, and nothing was overwritten before it was handed on.
     */
    ghost predicate Intact()
      reads this`headPtr, this`arrived, this`sliced, this`overrun
    {
      !overrun && Follows(sliced, arrived, headPtr % XFER_SIZE)
    }

    /** How many bytes have arrived and not been handed on. */
    ghost function Waiting(): int
      reads this`arrived, this`sliced
    {
      |arrived| - |sliced|
    }

    function Offset(): nat
      reads this`headPtr
    {
      headPtr % XFER_SIZE
    }

    /** Flow control is on, and RTS raised, exactly while the spill holds bytes. */
    ghost predicate FlowValid()
      reads this`flowControl, this`leftData, this`rts
    {
      (flowControl <==> leftData != []) && rts == flowControl
    }

    /** The bytes of the DMA buffer from the head on that have not been handed on. */
    ghost function Unserved(): seq<byte>
      requires dmaBuf.Length == XFER_SIZE && Intact()
      reads this`headPtr, this`arrived, this`sliced, this`overrun, dmaBuf
    {
      Window(dmaBuf[..], headPtr % XFER_SIZE, |arrived| - |sliced|)
    }

    /** What the reader has seen, followed by what it will see. */
    ghost function Stream(): seq<byte>
      requires rb.Valid()
      reads this`consumed, this`leftData, rb, rb.buffer
    {
      consumed + rb.Contents() + leftData
    }

    /** The reader sees exactly the sliced bytes, in order. */
    ghost predicate InOrder()
      requires rb.Valid()
      reads this`sliced, this`consumed, this`leftData, rb, rb.buffer
    {
      sliced == Stream()
    }

    /** Flow control is on and nothing is left in the ring: no read can end the stall. */
    ghost predicate Stuck()
      reads this, rb
    {
      flowControl && rb.size == 0
    }

    constructor (buf: array<byte>, rbPool: array<byte>)
      requires buf.Length == XFER_SIZE && rbPool.Length == RINGBUFFER_SIZE && buf != rbPool
      ensures Valid() && OnTime() && InOrder() && !Stuck() && fresh(rb)
      ensures dmaBuf == buf && rb.buffer == rbPool
      ensures arrived == [] && consumed == []
    {
      dmaBuf := buf;
      rb := new RingBuffer(rbPool, RINGBUFFER_SIZE);
      headPtr, dmaPos := 0, 0;
      flowControl, rts, leftData := false, false, [];
      halfPending, cpltPending := false, false;
      arrived, sliced, consumed, overrun := [], [], [], false;
    }

    /** Takes a slice: what the ring refuses goes to the spill and RTS is raised. */
    method RtDeviceCb(data: seq<byte>) returns (busy: bool)
      requires rb.Valid() && |data| < U16
      requires FlowValid()
      modifies this`flowControl, this`leftData, this`rts, this`sliced, rb, rb.buffer
      ensures rb.Valid()
      ensures FlowValid()
      ensures var k := Min(|data|, rb.bufferSize - old(rb.size));
        && rb.Contents() == old(rb.Contents()) + data[..k]
        && leftData == old(leftData) + data[k..]
        && busy == (k < |data|)
        && flowControl == (old(flowControl) || busy)
      ensures sliced == old(sliced) + data
      // the order survives exactly when the bytes that overtake the spill could also follow it
      ensures old(InOrder()) ==>
        (InOrder() <==>
         var k := Min(|data|, rb.bufferSize - old(rb.size));
         data[..k] + old(leftData) == old(leftData) + data[..k])
    {
      ghost var k: nat := Min(|data|, rb.bufferSize - rb.size);
      ghost var contents, spill := rb.Contents(), leftData;
      hide RingBuffer.Valid, RingBuffer.Contents, FlowValid;
      busy := PutOrSpill(data);
      sliced := sliced + data;
      Reordering(consumed, contents, spill, data, k);
    }

    method PutOrSpill(data: seq<byte>) returns (busy: bool)
      requires rb.Valid() && |data| < U16 && FlowValid()
      modifies this`flowControl, this`leftData, this`rts, rb, rb.buffer
      ensures rb.Valid() && FlowValid()
      ensures var k := Min(|data|, rb.bufferSize - old(rb.size));
        && rb.Contents() == old(rb.Contents()) + data[..k]
        && leftData == old(leftData) + data[k..]
        && busy == (k < |data|)
        && flowControl == (old(flowControl) || busy)
    {
      hide RingBuffer.Contents;
      var ret := rb.Put(data);
      if ret < |data| {
        if !flowControl {
          rts := true;
          flowControl := true;
        }
        if leftData != [] {
          leftData := leftData + data[ret..];
        } else {
          leftData := data[ret..];
        }
        return true;
      }
      return false;
    }

    // ----- The hardware -----

    /** The DMA channel stores one byte; at the half and at the end it raises an interrupt. */
    method DmaByte(b: byte)
      requires Valid()
      modifies this`dmaPos, this`halfPending, this`cpltPending, this`arrived, dmaBuf
      ensures Valid()
      ensures arrived == old(arrived) + [b]
      ensures InOrder() == old(InOrder())
      // the byte overwrites one not handed on exactly when the buffer is full of them
      ensures old(Intact()) ==> (Intact() <==> old(Waiting()) < 256)
      ensures old(OnTime() && Prompt(Byte(b))) ==> OnTime()
      ensures dmaPos == if old(dmaPos) + 1 == XFER_SIZE then 0 else old(dmaPos) + 1
      ensures halfPending == (old(halfPending) || dmaPos == HALF_MARK)
      ensures cpltPending == (old(cpltPending) || dmaPos == 0)
    {
      hide RingBuffer.Valid, RingBuffer.Contents, FlowValid, InOrder;
      if Intact() {
        WaitingIs();
        OneMore(sliced, arrived, b, Offset());
      }
      if OnTime() && Prompt(Byte(b)) {
        BytePunctual(Offset(), dmaPos, halfPending, cpltPending);
      }
      hide Follows, Punctual, DmaValid;
      Store(b);
      if dmaPos == HALF_MARK {
        halfPending := true;
      } else if dmaPos == 0 {
        cpltPending := true;
      }
    }

    method Store(b: byte)
      requires dmaBuf.Length == XFER_SIZE && dmaPos < XFER_SIZE && DmaValid()
      modifies this`dmaPos, this`arrived, dmaBuf
      ensures DmaValid()
      ensures arrived == old(arrived) + [b]
      ensures dmaPos == if old(dmaPos) + 1 == XFER_SIZE then 0 else old(dmaPos) + 1
    {
      hide Buffered;
      ghost var before := dmaBuf[..];
      dmaBuf[dmaPos] := b;
      assert dmaBuf[..] == before[|arrived| % XFER_SIZE := b];
      NextByte(before, arrived, b);
      arrived := arrived + [b];
      dmaPos := if dmaPos + 1 == XFER_SIZE then 0 else dmaPos + 1;
    }

    // ----- The three callbacks -----

    /** A slice from `off` up to a mark was handed on and the head is on the mark. */
    ghost predicate Handed(off: nat, mark: nat, was: seq<byte>, overran: bool)
      requires dmaBuf.Length == XFER_SIZE && mark <= XFER_SIZE
      reads this`headPtr, this`sliced, this`overrun, dmaBuf
    {
      && headPtr % XFER_SIZE == mark % XFER_SIZE
      && if off <= mark then sliced == was + dmaBuf[off..mark] && overrun == overran
         else overrun && was <= sliced
    }

    /** How much a slice adds, if it lies in the buffer. */
    lemma HandedLength(off: nat, mark: nat, was: seq<byte>, overran: bool)
      requires dmaBuf.Length == XFER_SIZE && mark <= XFER_SIZE && Handed(off, mark, was, overran)
      ensures Offset() == mark % XFER_SIZE
      ensures off <= mark ==> |sliced| == |was| + mark - off
      ensures |sliced| >= |was|
    {
    }

    method RxHalfCpltCallback()
      requires Valid() && halfPending
      modifies this`headPtr, this`halfPending, this`flowControl, this`leftData, this`rts,
               this`sliced, this`overrun, rb, rb.buffer
      ensures Valid() && !halfPending
      ensures Handed(old(Offset()), HALF_MARK, old(sliced), old(overrun))
      ensures old(Intact()) ==> (Intact() <==> old(InTime(HalfCplt)))
      ensures old(OnTime() && Prompt(HalfCplt)) ==> OnTime()
      ensures old(InOrder()) && OrderKept(old(leftData), old(rb.size), |sliced| - |old(sliced)|)
          ==> InOrder()
    {
      hide RingBuffer.Valid, RingBuffer.Contents, InOrder, FlowValid, OrderKept, Buffered, Follows;
      var tailPtr := HALF_MARK;
      ghost var was, off := sliced, Offset();
      if OnTime() {
        WaitingIs();
      }
      Slice(tailPtr);
      halfPending := false;
      if old(Intact()) {
        SliceKeeps(was, off, tailPtr);
      }
    }

    method RxCpltCallback()
      requires Valid() && cpltPending
      modifies this`headPtr, this`cpltPending, this`flowControl, this`leftData, this`rts,
               this`sliced, this`overrun, rb, rb.buffer
      ensures Valid() && !cpltPending
      ensures Handed(old(Offset()), XFER_SIZE, old(sliced), old(overrun))
      ensures old(Intact()) ==> (Intact() <==> old(InTime(Cplt)))
      ensures old(OnTime() && Prompt(Cplt)) ==> OnTime()
      ensures old(InOrder()) && OrderKept(old(leftData), old(rb.size), |sliced| - |old(sliced)|)
          ==> InOrder()
    {
      hide RingBuffer.Valid, RingBuffer.Contents, InOrder, FlowValid, OrderKept, Buffered, Follows;
      var tailPtr := XFER_SIZE;
      ghost var was, off := sliced, Offset();
      if OnTime() {
        WaitingIs();
      }
      Slice(tailPtr);
      cpltPending := false;
      if old(Intact()) {
        SliceKeeps(was, off, tailPtr);
      }
    }

    /** The line went idle. At position 0 the head is reset and nothing is handed on. */
    method RxIdleCallback()
      requires Valid()
      modifies this`headPtr, this`flowControl, this`leftData, this`rts,
               this`sliced, this`overrun, rb, rb.buffer
      ensures Valid()
      ensures dmaPos == 0 ==> headPtr == 0 && sliced == old(sliced) && overrun == old(overrun)
      ensures dmaPos != 0 ==> Handed(old(Offset()), dmaPos, old(sliced), old(overrun))
      ensures old(Intact()) ==> (Intact() <==> old(InTime(Idle)))
      ensures old(OnTime() && Prompt(Idle)) ==> OnTime()
      ensures old(Intact() && InTime(Idle) && Waiting() < XFER_SIZE) ==> sliced == arrived
      ensures old(InOrder()) && OrderKept(old(leftData), old(rb.size), |sliced| - |old(sliced)|)
          ==> InOrder()
    {
      hide RingBuffer.Valid, RingBuffer.Contents, InOrder, FlowValid, OrderKept, Buffered, Follows;
      ghost var was, off := sliced, Offset();
      if OnTime() {
        WaitingIs();
      }
      if Intact() {
        CaughtUp(was, arrived, off, dmaPos);
        ResetKeeps(was, arrived, off);
      }
      if dmaPos == 0 {  // the counter reads XFER_SIZE
        headPtr := 0;
        return;
      }
      var tailPtr := dmaPos;
      Slice(tailPtr);
      if old(Intact()) {
        SliceKeeps(was, off, tailPtr);
        Caught(sliced, arrived, Offset());
      }
    }

    /** The common tail of the callbacks: pass on what lies between the head and `tailPtr`. */
    method Slice(tailPtr: nat)
      requires rb.Valid() && rb.bufferSize == RINGBUFFER_SIZE
      requires dmaBuf.Length == XFER_SIZE && dmaBuf != rb.buffer
      requires headPtr < U32 && tailPtr <= XFER_SIZE
      requires FlowValid()
      modifies this`headPtr, this`flowControl, this`leftData, this`rts, this`sliced, this`overrun,
               rb, rb.buffer
      ensures rb.Valid()
      ensures FlowValid()
      ensures headPtr < U32 && Handed(old(Offset()), tailPtr, old(sliced), old(overrun))
      ensures old(InOrder()) && OrderKept(old(leftData), old(rb.size), |sliced| - |old(sliced)|)
          ==> InOrder()
    {
      hide RingBuffer.Contents, FlowValid, InOrder;
      var offset := headPtr % XFER_SIZE;
      var copy := Sub32(tailPtr, offset);
      HeadMoves(headPtr, tailPtr);
      SliceInBounds(offset, tailPtr);
      headPtr := Add32(headPtr, copy);
      if offset + copy <= XFER_SIZE {
        ghost var data, left := dmaBuf[offset..offset + copy], leftData;
        ghost var k: nat := Min(|data|, rb.bufferSize - rb.size);
        assert OrderKept(left, rb.size, copy) ==> data[..k] + left == left + data[..k];
        var _ := RtDeviceCb(dmaBuf[offset..offset + copy]);
      } else {
        NegativeSize(offset, copy);
      }
    }

    /**
     `rt_device_cb` with a length that wrapped below zero. The ring takes what it can of the low
     16 bits of it, from the DMA buffer and whatever lies behind; as a signed size it is negative,
     so that nothing seems to be left over for the spill.
     */
    method NegativeSize(offset: nat, copy: nat)
      requires rb.Valid() && dmaBuf.Length == XFER_SIZE && offset <= XFER_SIZE
      requires rb.bufferSize == RINGBUFFER_SIZE && U32 / 2 <= copy < U32
      modifies this`sliced, this`overrun, rb`size, rb`tail, rb.buffer
      ensures rb.Valid() && overrun && old(sliced) <= sliced
      ensures old(InOrder()) && OrderKept(leftData, old(rb.size), |sliced| - |old(sliced)|)
          ==> InOrder()
    {
      hide RingBuffer.Contents;
      var behind := new byte[Low16(copy)];
      var data := (dmaBuf[offset..] + behind[..])[..Low16(copy)];
      ghost var contents := rb.Contents();
      var ret := rb.Put(data);
      sliced := sliced + data[..ret];
      overrun := true;
      assert leftData == [] ==>
        consumed + (contents + data[..ret]) + leftData == consumed + contents + leftData + data[..ret];
      assert ret == 0 ==> contents + data[..ret] == contents;
    }

    /** What a slice does to the stream, once the head and `sliced` have been moved. */
    lemma SliceKeeps(was: seq<byte>, off: nat, mark: nat)
      requires dmaBuf.Length == XFER_SIZE && mark <= XFER_SIZE && DmaValid()
      requires Handed(off, mark, was, false) && Follows(was, arrived, off)
      ensures Intact() <==> off <= mark && mark - off <= |arrived| - |was|
    {
      if off <= mark {
        NextSlice(dmaBuf[..], arrived, was, off, mark);
        assert dmaBuf[off..mark] == dmaBuf[..][off..mark];
      }
    }

    // ----- The reader -----

    /** Whether a read will flush the spill first. */
    predicate Flushes()
      reads this, rb
    {
      flowControl && 0 < rb.size < rb.bufferSize / 3
    }

    /** Returns up to `n` bytes; once the ring has drained enough, the spill is moved into it. */
    method UartRead(buffer: array<byte>, n: nat) returns (got: nat)
      requires Valid() && n <= buffer.Length && buffer != dmaBuf && buffer != rb.buffer
      modifies this`flowControl, this`leftData, this`rts, this`consumed, rb, rb.buffer, buffer
      ensures Valid()
      ensures sliced == old(sliced) && arrived == old(arrived)
      ensures got <= n && consumed == old(consumed) + buffer[..got]
      ensures buffer[got..] == old(buffer[..])[got..]
      ensures Stream() == old(consumed + rb.Contents()) + if old(Flushes()) then
                old(leftData)[..Min(Low16(|old(leftData)|), RINGBUFFER_SIZE - old(rb.size))]
                else old(leftData)
      ensures got == Min(Low16(n), if old(Flushes()) then
                Min(old(rb.size) + Low16(|old(leftData)|), RINGBUFFER_SIZE) else old(rb.size))
      ensures old(Flushes()) ==> leftData == [] && !flowControl
      ensures !old(Flushes()) ==> leftData == old(leftData) && flowControl == old(flowControl)
      ensures !old(Flushes()) ==> rb.size == old(rb.size) - got
      // a flush keeps the stream exactly when the whole spill fits
      ensures old(InOrder()) ==>
        (InOrder() <==> (old(Flushes()) ==> |old(leftData)| <= RINGBUFFER_SIZE - old(rb.size)))
      // a reader that empties a stalled ring in one read is stuck, and only that reader
      ensures Stuck() <==>
        (old(Stuck()) || (old(flowControl) && !old(Flushes()) && old(rb.size) <= Low16(n)))
    {
      hide RingBuffer.Valid, RingBuffer.Contents, DmaValid, Low16;
      if rb.Length() > 0 {
        if rb.Length() < rb.bufferSize / 3 && flowControl {
          FlushSpill();
        }
        got := TakeFromRing(buffer, Low16(n));
        return got;
      }
      assert buffer[..0] == [];
      return 0;
    }

    method TakeFromRing(buffer: array<byte>, n: nat) returns (got: nat)
      requires Valid() && n <= buffer.Length && n < U16 && buffer != dmaBuf && buffer != rb.buffer
      modifies this`consumed, rb`size, rb`head, buffer
      ensures Valid() && got == Min(n, old(rb.size)) && rb.size == old(rb.size) - got
      ensures consumed == old(consumed) + buffer[..got]
      ensures buffer[got..] == old(buffer[..])[got..]
      ensures Stream() == old(Stream())
    {
      hide RingBuffer.Valid, RingBuffer.Contents, DmaValid;
      ghost var contents := rb.Contents();
      got := rb.Get(buffer, n);
      consumed := consumed + buffer[..got];
      assert contents == buffer[..got] + rb.Contents();
    }

    /** The flush: the ring takes what it can of the spill, the rest is freed with it. */
    method FlushSpill()
      requires Valid() && Flushes()
      modifies this`flowControl, this`leftData, this`rts, rb, rb.buffer
      ensures Valid() && leftData == [] && !flowControl
      ensures rb.size == Min(old(rb.size) + Low16(|old(leftData)|), RINGBUFFER_SIZE)
      ensures Stream() == old(consumed + rb.Contents())
        + old(leftData)[..Min(Low16(|old(leftData)|), RINGBUFFER_SIZE - old(rb.size))]
      ensures old(InOrder()) ==>
        (InOrder() <==> |old(leftData)| <= RINGBUFFER_SIZE - old(rb.size))
    {
      hide RingBuffer.Valid, RingBuffer.Contents, DmaValid, Low16;
      ghost var contents, spill := rb.Contents(), leftData;
      var p := rb.Put(leftData[..Low16(|leftData|)]);
      leftData := [];
      rts := false;
      flowControl := false;
      assert rb.Contents() == contents + spill[..p];
      assert |spill| <= RINGBUFFER_SIZE - |contents| <==> p == |spill|;
      PrefixOnly(consumed + contents, spill, p);
      assert consumed + rb.Contents() + leftData == consumed + contents + spill[..p];
    }

    // ----- Whole runs -----

    /** An interrupt is served only when it was raised. */
    predicate Fires(e: Event)
      reads this`halfPending, this`cpltPending
    {
      (e.HalfCplt? ==> halfPending) && (e.Cplt? ==> cpltPending)
    }

    /** The exact condition for a step to keep the slices intact. */
    ghost predicate InTime(e: Event)
      reads this`headPtr, this`dmaPos, this`arrived, this`sliced
    {
      match e
      case Byte(_) => Waiting() < XFER_SIZE
      case HalfCplt => Offset() <= HALF_MARK && HALF_MARK - Offset() <= Waiting()
      case Cplt => XFER_SIZE - Offset() <= Waiting()
      case Idle => Offset() <= dmaPos
      case Read(_) => true
    }

    /**
     What the system can do to be in time: serve each interrupt before the next mark and before
     the line goes idle, unless it does so at the very mark.
     */
    predicate Prompt(e: Event)
      reads this`dmaPos, this`halfPending, this`cpltPending
    {
      match e
      case Byte(_) =>
        (dmaPos + 1 == HALF_MARK ==> !cpltPending) && (dmaPos + 1 == XFER_SIZE ==> !halfPending)
      case Idle => !cpltPending && (halfPending ==> dmaPos == HALF_MARK)
      case _ => true
    }

    /** The state a prompt system stays in. */
    ghost predicate OnTime()
      reads this`headPtr, this`dmaPos, this`halfPending, this`cpltPending
      reads this`arrived, this`sliced, this`overrun
    {
      Intact() && Waiting() < XFER_SIZE && Punctual(Offset(), dmaPos, halfPending, cpltPending)
    }

    /** A prompt system is in time, whatever happens next. */
    lemma PromptIsInTime(e: Event)
      requires Valid() && OnTime() && Fires(e) && Prompt(e)
      ensures InTime(e)
    {
      WaitingIs();
    }

    /** How far the head is behind the DMA channel, going round. */
    function Behind(): int
      reads this`headPtr, this`dmaPos
    {
      if Offset() <= dmaPos then dmaPos - Offset() else dmaPos + XFER_SIZE - Offset()
    }

    /** How much is waiting, from the positions alone. */
    lemma WaitingIs()
      requires Valid() && Intact()
      ensures 0 <= Waiting() <= XFER_SIZE && (Waiting() == 0 ==> sliced == arrived)
      ensures Waiting() < XFER_SIZE ==> Waiting() == Behind()
    {
      CaughtUp(sliced, arrived, Offset(), dmaPos);
    }

    /**
     What the rest of the system must do for the stream to survive one step: be prompt, not let
     bytes through between the first read of a stall and its flush, and not spill more than a
     flush can take.
     */
    predicate Allowed(e: Event)
      reads this, rb
    {
      Fires(e) && Prompt(e) && Orderly(e)
    }

    predicate Orderly(e: Event)
      reads this, rb
    {
      match e
      case Byte(_) => true
      case Read(_) => Flushes() ==> Fits(|leftData|, rb.size)
      case _ => Calm()
    }

    /** No stall, or a stall during which nothing has been read yet. */
    predicate Calm()
      reads this, rb
    {
      leftData == [] || rb.size == RINGBUFFER_SIZE
    }

    /** One event: what it needs to keep the slices intact, and to keep the reader's order. */
    method Serve(e: Event)
      requires Valid() && Fires(e)
      modifies this, rb, rb.buffer, dmaBuf
      ensures Valid()
      ensures arrived == old(arrived) + Incoming([e])
      ensures old(Intact()) ==> (Intact() <==> old(InTime(e)))
      ensures old(OnTime() && Prompt(e)) ==> OnTime()
      ensures old(InOrder() && Orderly(e)) ==> InOrder()
    {
      hide RingBuffer.Valid, RingBuffer.Contents, FlowValid, DmaValid, Stream, Follows, OnTime, Handed;
      assert [e][..0] == [];
      match e {
        case Byte(b) =>
          DmaByte(b);
        case HalfCplt =>
          RxHalfCpltCallback();
        case Cplt =>
          RxCpltCallback();
        case Idle =>
          RxIdleCallback();
        case Read(n) =>
          var out := new byte[n](_ => 0);
          var _ := UartRead(out, n);
      }
    }

    /**
     A line that goes idle while an interrupt is waiting: from a state on time, the idle callback
     and then the waiting one keep the slices intact exactly when the waiting one is the half
     interrupt and the DMA channel has not moved on from the mark, or none is waiting. Otherwise
     bytes are handed on that were handed on before or never arrived.
     */
    method IdleThenWaiting()
      requires Valid() && OnTime()
      modifies this, rb, rb.buffer, dmaBuf
      ensures Valid() && !halfPending && !cpltPending && arrived == old(arrived)
      ensures Intact() <==> old(!cpltPending && (halfPending ==> dmaPos == 128))
      ensures Intact() ==> sliced == arrived
      ensures !Intact() ==> |sliced| + Behind() > |arrived|
    {
      hide RingBuffer.Valid, RingBuffer.Contents, FlowValid, DmaValid, InOrder, OrderKept, Follows, Handed;
      WaitingIs();
      ghost var off := Offset();
      RxIdleCallback();
      if dmaPos != 0 {
        HandedLength(off, dmaPos, old(sliced), old(overrun));
      }
      ghost var was, overran, here := sliced, overrun, Offset();
      assert here == dmaPos;
      if halfPending {
        RxHalfCpltCallback();
        HandedLength(here, HALF_MARK, was, overran);
      } else if cpltPending {
        RxCpltCallback();
        HandedLength(here, XFER_SIZE, was, overran);
      }
      if Intact() {
        WaitingIs();
      }
    }

    /**
     Any sequence of events of a prompt system, whatever the reader and the flow control do: the
     slices handed on, and what the DMA buffer still holds, are exactly what arrived.
     */
    method Deliver(events: seq<Event>) returns (served: nat)
      requires Valid() && OnTime()
      modifies this, rb, rb.buffer, dmaBuf
      ensures Valid() && OnTime() && served <= |events|
      ensures served < |events| ==> !(Fires(events[served]) && Prompt(events[served]))
      ensures sliced + Unserved() == old(arrived) + Incoming(events[..served])
    {
      hide RingBuffer.Valid, RingBuffer.Contents, DmaValid, FlowValid, Follows;
      served := 0;
      while served < |events| && Fires(events[served]) && Prompt(events[served])
        invariant Valid() && OnTime() && served <= |events|
        invariant arrived == old(arrived) + Incoming(events[..served])
      {
        IncomingSnoc(events, served);
        Serve(events[served]);
        served := served + 1;
      }
      NothingMissing();
    }

    /** What was not handed on still lies in the DMA buffer. */
    lemma NothingMissing()
      requires Valid() && Intact()
      ensures arrived == sliced + Unserved()
    {
      StillBuffered(dmaBuf[..], arrived, sliced, Offset());
    }

    /**
     Any sequence of events, as far as the environment keeps its side: what was read, what the
     ring and the spill hold and what the DMA buffer still holds is exactly what arrived.
     */
    method Run(events: seq<Event>) returns (served: nat)
      requires Valid() && OnTime() && InOrder()
      modifies this, rb, rb.buffer, dmaBuf
      ensures Valid() && OnTime() && served <= |events|
      ensures served < |events| ==> !Allowed(events[served])
      ensures consumed + rb.Contents() + leftData + Unserved()
           == old(arrived) + Incoming(events[..served])
    {
      hide RingBuffer.Valid, RingBuffer.Contents, DmaValid, FlowValid, Prompt, Orderly, Fires, Follows;
      served := 0;
      while served < |events| && Allowed(events[served])
        invariant Valid() && OnTime() && InOrder() && served <= |events|
        invariant arrived == old(arrived) + Incoming(events[..served])
      {
        IncomingSnoc(events, served);
        Serve(events[served]);
        served := served + 1;
      }
      NothingMissing();
    }

    /**
     Reading again and again, at most 1705 bytes at a time, ends every stall: all that was
     received comes out, and flow control is off.
     */
    method Drain(buffer: array<byte>, n: nat)
      requires Valid() && InOrder() && !Stuck()
      requires 0 < n < RINGBUFFER_SIZE / 3 && n <= buffer.Length
      requires buffer != dmaBuf && buffer != rb.buffer
      requires |leftData| <= MAX_SPILL
      modifies this`flowControl, this`leftData, this`rts, this`consumed, rb, rb.buffer, buffer
      ensures Valid() && consumed == sliced == old(sliced)
      ensures !flowControl && !rts && rb.size == 0
    {
      hide RingBuffer.Valid, RingBuffer.Contents, DmaValid;
      var got := 1;
      while got != 0
        invariant Valid() && InOrder() && !Stuck() && |leftData| <= MAX_SPILL
        invariant got == 0 ==> rb.size == 0
        invariant sliced == old(sliced) && arrived == old(arrived)
        decreases rb.size + 2 * |leftData|, got
      {
        got := UartRead(buffer, n);
      }
      assert |rb.Contents()| == 0;
    }

    /** A slice of `n` bytes cannot overtake the spill. */
    ghost predicate OrderKept(left: seq<byte>, ringSize: nat, n: int) {
      left == [] || ringSize == RINGBUFFER_SIZE || n == 0
    }
  }

  // ----- The DMA buffer and the stream -----

  /** Where the head stands behind a DMA channel whose interrupts are served in time. */
  predicate Punctual(off: nat, pos: nat, half: bool, cplt: bool) {
    && !(half && cplt)
    && if cplt then pos < HALF_MARK <= off
       else if half then off <= HALF_MARK <= pos
       else off <= pos && (pos >= HALF_MARK ==> off >= HALF_MARK)
  }

  /** One more byte, no earlier than the mark before the last interrupt allows. */
  lemma BytePunctual(off: nat, pos: nat, half: bool, cplt: bool)
    requires off < XFER_SIZE && pos < XFER_SIZE && Punctual(off, pos, half, cplt)
    requires (pos + 1 == HALF_MARK ==> !cplt) && (pos + 1 == XFER_SIZE ==> !half)
    ensures var next := if pos + 1 == XFER_SIZE then 0 else pos + 1;
      Punctual(off, next, half || next == HALF_MARK, cplt || next == 0)
    ensures (if off <= pos then pos - off else pos + XFER_SIZE - off) + 1 < XFER_SIZE
  {
  }

  /** A circular buffer holds the newest bytes of a stream. */
  ghost predicate Buffered(buf: seq<byte>, arrived: seq<byte>)
    requires |buf| == XFER_SIZE
  {
    forall i :: 0 <= i < |arrived| && |arrived| <= i + XFER_SIZE ==> buf[i % XFER_SIZE] == arrived[i]
  }

  /** `was` is the stream so far, ends at `off`, and what follows it is still in the buffer. */
  ghost predicate Follows(was: seq<byte>, arrived: seq<byte>, off: nat) {
    was <= arrived && |arrived| <= |was| + XFER_SIZE && |was| % XFER_SIZE == off
  }

  lemma NextByte(buf: seq<byte>, arrived: seq<byte>, b: byte)
    requires |buf| == XFER_SIZE && Buffered(buf, arrived)
    ensures Buffered(buf[|arrived| % XFER_SIZE := b], arrived + [b])
  {
    var at := |arrived| % XFER_SIZE;
    var now, all := buf[at := b], arrived + [b];
    forall i | 0 <= i < |all| && |all| <= i + XFER_SIZE
      ensures now[i % XFER_SIZE] == all[i]
    {
      if i < |arrived| {
        assert i % XFER_SIZE != at;
        assert buf[i % XFER_SIZE] == arrived[i];
      }
    }
  }

  /** The next slice continues the stream exactly when so much has arrived. */
  lemma NextSlice(buf: seq<byte>, arrived: seq<byte>, was: seq<byte>, off: nat, mark: nat)
    requires |buf| == XFER_SIZE && Buffered(buf, arrived) && Follows(was, arrived, off)
    requires off <= mark <= XFER_SIZE
    ensures Follows(was + buf[off..mark], arrived, mark % XFER_SIZE) <==> mark - off <= |arrived| - |was|
  {
    var now := was + buf[off..mark];
    assert |now| % XFER_SIZE == mark % XFER_SIZE;
    if |now| <= |arrived| {
      var next := arrived[|was|..|now|];
      forall j | 0 <= j < mark - off
        ensures next[j] == buf[off + j]
      {
        InBuffer(buf, arrived, |was|, off, j);
      }
      assert next == buf[off..mark];
      assert arrived[..|was|] + next == arrived[..|now|];
    }
  }

  lemma InBuffer(buf: seq<byte>, arrived: seq<byte>, from: nat, off: nat, j: nat)
    requires |buf| == XFER_SIZE && Buffered(buf, arrived)
    requires from % XFER_SIZE == off && off + j < XFER_SIZE
    requires from + j < |arrived| <= from + XFER_SIZE
    ensures arrived[from + j] == buf[off + j]
  {
    assert (from + j) % XFER_SIZE == off + j;
    assert buf[(from + j) % XFER_SIZE] == arrived[from + j];
  }

  /** What follows `was` is the window of the buffer from `off` on. */
  lemma StillBuffered(buf: seq<byte>, arrived: seq<byte>, was: seq<byte>, off: nat)
    requires |buf| == XFER_SIZE && Buffered(buf, arrived) && Follows(was, arrived, off)
    ensures arrived == was + Window(buf, off, |arrived| - |was|)
  {
    var w := Window(buf, off, |arrived| - |was|);
    forall j | 0 <= j < |w|
      ensures w[j] == arrived[|was| + j]
    {
      var i := |was| + j;
      assert i % XFER_SIZE == if off + j < XFER_SIZE then off + j else off + j - XFER_SIZE;
      assert buf[i % XFER_SIZE] == arrived[i];
    }
  }

  /** How far `was` is behind, unless by a whole buffer, follows from the two positions. */
  lemma CaughtUp(was: seq<byte>, arrived: seq<byte>, off: nat, pos: nat)
    requires Follows(was, arrived, off) && pos == |arrived| % XFER_SIZE
    ensures |arrived| - |was| < XFER_SIZE ==>
      |arrived| - |was| == if off <= pos then pos - off else pos + XFER_SIZE - off
    ensures |arrived| == |was| ==> was == arrived
  {
  }

  lemma ResetKeeps(was: seq<byte>, arrived: seq<byte>, off: nat)
    requires Follows(was, arrived, off)
    ensures Follows(was, arrived, 0) <==> off == 0
  {
  }

  /** One more byte arrives: all is well unless a whole buffer was waiting. */
  lemma OneMore(was: seq<byte>, arrived: seq<byte>, b: byte, off: nat)
    requires Follows(was, arrived, off)
    ensures Follows(was, arrived + [b], off) <==> |arrived| - |was| < XFER_SIZE
  {
    assert arrived <= arrived + [b];
  }

  lemma Caught(was: seq<byte>, arrived: seq<byte>, off: nat)
    ensures Follows(was, arrived, off) && |was| == |arrived| ==> was == arrived
  {
  }

  /** A flush that finds `size` bytes in the ring can take a spill of this length. */
  predicate Fits(spill: nat, size: nat) {
    spill <= RINGBUFFER_SIZE - size
  }

  /** The spill that fits whenever a flush may run is 3415 bytes and no more. */
  lemma FlushFitsIff(spill: nat)
    ensures MAX_SPILL == 3415
    ensures (forall size: nat :: 0 < size < RINGBUFFER_SIZE / 3 ==> Fits(spill, size))
        <==> spill <= MAX_SPILL
  {
    if forall size: nat :: 0 < size < RINGBUFFER_SIZE / 3 ==> Fits(spill, size) {
      assert Fits(spill, RINGBUFFER_SIZE / 3 - 1);
    }
  }

  /** Where the stream goes when `k` bytes of `d` enter the ring ahead of the spill `l`. */
  lemma Reordering(c: seq<byte>, r: seq<byte>, l: seq<byte>, d: seq<byte>, k: nat)
    requires k <= |d|
    ensures c + r + l + d == c + (r + d[..k]) + (l + d[k..])
        <==> d[..k] + l == l + d[..k]
  {
    var a, b := d[..k] + l, l + d[..k];
    assert c + r + l + d == (c + r) + b + d[k..] by { assert d == d[..k] + d[k..]; }
    assert c + (r + d[..k]) + (l + d[k..]) == (c + r) + a + d[k..];
    if (c + r) + a + d[k..] == (c + r) + b + d[k..] {
      assert a == ((c + r) + a + d[k..])[|c + r|..|c + r| + |a|];
      assert b == ((c + r) + b + d[k..])[|c + r|..|c + r| + |b|];
    }
  }

  lemma PrefixOnly(a: seq<byte>, l: seq<byte>, p: nat)
    requires p <= |l|
    ensures a + l == a + l[..p] <==> p == |l|
  {
    if p == |l| {
      assert l[..p] == l;
    } else {
      assert |a + l| != |a + l[..p]|;
    }
  }

  /**
   A slice lies inside the DMA buffer exactly when the head has not passed the mark: an idle line
   served ahead of a waiting half interrupt makes the next length wrap below zero.
   */
  lemma SliceInBounds(offset: nat, tailPtr: nat)
    requires offset < XFER_SIZE && tailPtr <= XFER_SIZE
    ensures offset + Sub32(tailPtr, offset) <= XFER_SIZE <==> offset <= tailPtr
  {
    if offset > tailPtr {
      assert 0 <= tailPtr - offset + U32 < U32;
    }
  }

  /** The head lands on `tailPtr`, also when the 32-bit counter or the length wraps. */
  lemma HeadMoves(head: nat, tailPtr: nat)
    requires head < U32 && tailPtr <= XFER_SIZE
    ensures var off := head % XFER_SIZE; var copy := Sub32(tailPtr, off);
      && copy == (if off <= tailPtr then tailPtr - off else U32 - (off - tailPtr))
      && Add32(head, copy) % XFER_SIZE == tailPtr % XFER_SIZE
  {
    var off := head % XFER_SIZE;
    assert U32 == 0x100_0000 * XFER_SIZE;
    assert head == head / XFER_SIZE * XFER_SIZE + off;
    if off > tailPtr {
      assert head + (U32 - (off - tailPtr)) == U32 + (head / XFER_SIZE * XFER_SIZE + tailPtr);
    } else {
      assert (head + (tailPtr - off)) % XFER_SIZE == tailPtr % XFER_SIZE;
    }
  }
}
