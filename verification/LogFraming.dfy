/**
 The debug log: `debug_print` (`qosa_log.c`) frames each record with its length and puts it in a
 ring; the log thread (`debug_service.c`) takes records out again and writes them to a file.
 */
module LogFraming {
  import opened Bytes
  import opened RingBuffers
  import opened Wrappers

  const DBG_BUFF_LEN: nat := 1024

  /** The four bytes of an `int32_t` on a little-endian machine. */
  function LittleEndian(n: nat): (s: seq<byte>)
    requires n < U32
    ensures |s| == 4
  {
    [n % 256, n / 256 % 256, n / 256 / 256 % 256, n / 256 / 256 / 256 % 256]
  }

  function FromLittleEndian(s: seq<byte>): (n: nat)
    requires |s| == 4
    ensures n < U32
  {
    s[0] as int + s[1] as int * 0x100 + s[2] as int * 0x1_0000 + s[3] as int * 0x100_0000
  }

  /** The header's bytes, least significant first. */
  lemma HeaderBytes(n: nat)
    requires n < U32
    ensures LittleEndian(n) == [n % 0x100, n / 0x100 % 0x100, n / 0x1_0000 % 0x100, n / 0x100_0000]
  {
    var a := n / 256;
    var b := a / 256;
    var c := b / 256;
    assert n == 256 * a + n % 256 && a == 256 * b + a % 256 && b == 256 * c + b % 256;
    assert b == n / 0x1_0000 && c == n / 0x100_0000 && c < 256;
  }

  lemma HeaderRoundTrip(n: nat)
    requires n < U32
    ensures FromLittleEndian(LittleEndian(n)) == n
  {
    var a := n / 256;
    var b := a / 256;
    var c := b / 256;
    assert n == 256 * a + n % 256 && a == 256 * b + a % 256 && b == 256 * c + b % 256;
    assert c < 256;
  }

  function Frame(payload: seq<byte>): (f: seq<byte>)
    requires |payload| < U16
  {
    LittleEndian(|payload|) + payload
  }

  /** The records in a byte string made of whole frames; `None` for any other string. */
  function Parse(s: seq<byte>): Option<seq<seq<byte>>>
    decreases |s|
  {
    if s == [] then Some([])
    else if |s| < 4 || |s| < 4 + FromLittleEndian(s[..4]) then None
    else
      var n := FromLittleEndian(s[..4]);
      match Parse(s[4 + n..])
      case None => None
      case Some(rest) => Some([s[4..4 + n]] + rest)
  }

  /** One frame, then the rest. */
  lemma ParseCons(header: seq<byte>, payload: seq<byte>, rest: seq<byte>)
    requires |header| == 4 && FromLittleEndian(header) == |payload|
    ensures Parse(header + payload + rest) ==
      if Parse(rest).Some? then Some([payload] + Parse(rest).value) else None
  {
    hide FromLittleEndian;
    var s := header + payload + rest;
    assert s[..4] == header && s[4..4 + |payload|] == payload && s[4 + |payload|..] == rest;
  }

  /** Appending to a string of whole frames parses frame by frame. */
  lemma {:induction false} ParseAppend(s: seq<byte>, t: seq<byte>)
    requires Parse(s).Some?
    ensures Parse(s + t) ==
      if Parse(t).Some? then Some(Parse(s).value + Parse(t).value) else None
    decreases |s|
  {
    hide FromLittleEndian;
    if s == [] {
      assert s + t == t;
      if Parse(t).Some? {
        assert [] + Parse(t).value == Parse(t).value;
      }
    } else {
      var n := FromLittleEndian(s[..4]);
      var first, rest := s[4..4 + n], s[4 + n..];
      assert Parse(s).value == [first] + Parse(rest).value;
      ParseAppend(rest, t);
      hide Parse;
      assert s + t == s[..4] + first + (rest + t);
      ParseCons(s[..4], first, rest + t);
      if Parse(t).Some? {
        assert [first] + Parse(rest).value + Parse(t).value
            == [first] + (Parse(rest).value + Parse(t).value);
      }
    }
  }

  lemma ParseFrame(payload: seq<byte>)
    requires |payload| < U16
    ensures Parse(Frame(payload)) == Some([payload])
  {
    hide FromLittleEndian, LittleEndian;
    HeaderRoundTrip(|payload|);
    ParseCons(LittleEndian(|payload|), payload, []);
    assert LittleEndian(|payload|) + payload + [] == Frame(payload);
    assert [payload] + [] == [payload];
  }

  /** A frame cut short does not parse. */
  lemma ParseTorn(payload: seq<byte>, k: nat)
    requires |payload| < U16 && k <= 4 + |payload|
    ensures Parse(Frame(payload)[..k]).Some? <==> k == 0 || k == 4 + |payload|
  {
    hide FromLittleEndian, LittleEndian;
    var f := Frame(payload);
    ParseFrame(payload);
    if k == 4 + |payload| {
      assert f[..k] == f;
    } else if 4 <= k {
      HeaderRoundTrip(|payload|);
      assert f[..k][..4] == LittleEndian(|payload|);
    }
  }

  /** `n` bytes of payload, then whole frames. */
  function ParsePayload(n: nat, s: seq<byte>): Option<seq<seq<byte>>> {
    if |s| < n then None
    else
      match Parse(s[n..])
      case None => None
      case Some(rest) => Some([s[..n]] + rest)
  }

  /**
   What a torn frame is read as once `t` has come behind it. With its header whole it takes the
   missing bytes from `t`; with a torn header it takes the rest of the header from `t`, and so a
   length of its own.
   */
  lemma TornThen(payload: seq<byte>, k: nat, t: seq<byte>)
    requires |payload| < U16 && 0 < k < 4 + |payload|
    ensures k >= 4 ==>
      Parse(Frame(payload)[..k] + t) == ParsePayload(|payload|, payload[..k - 4] + t)
    ensures k < 4 ==>
      Parse(Frame(payload)[..k] + t) ==
        if |t| < 4 - k then None
        else ParsePayload(FromLittleEndian(LittleEndian(|payload|)[..k] + t[..4 - k]), t[4 - k..])
  {
    hide FromLittleEndian, LittleEndian, Parse, ParsePayload;
    var s := Frame(payload)[..k] + t;
    var header := LittleEndian(|payload|);
    if k >= 4 {
      HeaderRoundTrip(|payload|);
      var body := payload[..k - 4] + t;
      assert s == header + body;
      ParseBehind(header, body);
    } else if |t| >= 4 - k {
      var mended := header[..k] + t[..4 - k];
      assert s == mended + t[4 - k..];
      ParseBehind(mended, t[4 - k..]);
    } else {
      ParseShort(s);
    }
  }

  lemma ParseShort(s: seq<byte>)
    requires 0 < |s| < 4
    ensures Parse(s) == None
  {
  }

  lemma ParseBehind(header: seq<byte>, body: seq<byte>)
    requires |header| == 4
    ensures Parse(header + body) == ParsePayload(FromLittleEndian(header), body)
  {
    hide FromLittleEndian;
    var s, n := header + body, FromLittleEndian(header);
    assert s[..4] == header;
    if n <= |body| {
      assert s[4..4 + n] == body[..n] && s[4 + n..] == body[n..];
    }
  }

  /** A torn record with a whole header is read as itself exactly when `t` starts with what is missing. */
  lemma TornRightIff(payload: seq<byte>, k: nat, t: seq<byte>)
    requires |payload| < U16 && 4 <= k < 4 + |payload| && Parse(Frame(payload)[..k] + t).Some?
    ensures var records := Parse(Frame(payload)[..k] + t).value;
      records != [] && (records[0] == payload <==> payload[k - 4..] <= t)
  {
    TornThen(payload, k, t);
    hide Parse;
    var n, missing := |payload|, 4 + |payload| - k;
    var body := payload[..k - 4] + t;
    assert payload == payload[..k - 4] + payload[k - 4..];
    assert body[..n] == payload[..k - 4] + t[..missing];
    assert body[..n][k - 4..] == t[..missing];
  }

  /** A later empty record completes a torn one into a wrong one: its header is taken as payload. */
  lemma TornThenEmpty()
    ensures Parse(Frame([1, 2, 3, 4])[..4] + Frame([])) == Some([[0, 0, 0, 0]])
  {
    TornThen([1, 2, 3, 4], 4, Frame([]));
    var body := [1, 2, 3, 4][..0] + Frame([]);
    assert body == [0, 0, 0, 0] && body[4..] == [] && body[..4] == body;
    assert Parse([]) == Some([]);
    assert [body] + [] == [body];
  }

  /** The ring, the log thread's buffer and local `size`, and the file it writes. */
  class DebugLog {
    const rb: RingBuffer           // g_log_rb
    const logBuffer: array<byte>   // LOG_BUFFER
    var size: nat                  // bytes of the current record not read yet
    var file: seq<byte>
    ghost var logged: seq<byte>    // the payloads of all records put, in order

    ghost predicate Shape()
      reads this, rb
    {
      rb.Valid() && logBuffer.Length == DBG_BUFF_LEN && logBuffer != rb.buffer
    }

    /** The ring holds the rest of the current record and then whole frames. */
    ghost predicate Whole()
      requires Shape()
      reads this, rb, rb.buffer
    {
      size <= rb.size && Parse(rb.Contents()[size..]).Some?
    }

    /** What the file will hold once the ring is drained. */
    ghost function Destined(): seq<byte>
      requires Shape() && Whole()
      reads this, rb, rb.buffer
    {
      file + rb.Contents()[..size] + Flatten(Parse(rb.Contents()[size..]).value)
    }

    ghost predicate Valid()
      reads this, rb, rb.buffer
    {
      Shape() && Whole() && Destined() == logged
    }

    constructor (pool: array<byte>, poolSize: nat)
      requires poolSize <= pool.Length && poolSize < U16
      ensures Valid() && logged == [] && fresh(rb) && rb.buffer == pool
    {
      rb := new RingBuffer(pool, poolSize);
      logBuffer := new byte[DBG_BUFF_LEN](_ => 0);
      size, file, logged := 0, [], [];
      new;
      assert rb.Contents()[0..] == [];
    }

    /**
     The framing write: the ring takes what fits of the record. It arrives whole exactly when all
     of it fits; one that fits only partly leaves a torn frame at the end, one that meets a full
     ring is dropped without a trace.
     */
    method DebugPrint(payload: seq<byte>)
      requires Shape() && |payload| + 4 < U16
      modifies this`logged, rb`size, rb`tail, rb.buffer
      ensures Shape()
      ensures var k := Min(|payload| + 4, rb.bufferSize - old(rb.size));
        rb.Contents() == old(rb.Contents()) + Frame(payload)[..k]
      ensures old(Valid()) ==>
        (Whole() <==>
          (|payload| + 4 <= rb.bufferSize - old(rb.size) || old(rb.size) == rb.bufferSize))
      ensures old(Valid()) && |payload| + 4 <= rb.bufferSize - old(rb.size) ==>
        Valid() && logged == old(logged) + payload
      ensures old(Valid()) && old(rb.size) == rb.bufferSize ==> Valid() && logged == old(logged)
    {
      hide RingBuffer.Valid, RingBuffer.Contents, Parse;
      ghost var before, whole := rb.Contents(), Valid();
      var record := LittleEndian(|payload|) + payload;
      var k := rb.Put(record);
      if whole {
        assert rb.Contents()[size..] == before[size..] + record[..k];
        ParseTorn(payload, k);
        ParseAppend(before[size..], record[..k]);
        if k == 0 {
          assert rb.Contents() == before;
        } else if k == |record| {
          ParseFrame(payload);
          assert record[..k] == record;
          FlattenSnoc(Parse(before[size..]).value, payload);
        }
      }
      if k == |record| {
        logged := logged + payload;
      }
    }

    // ----- The log thread, one ring access at a time -----

    /** `memset(LOG_BUFFER, 0, DBG_BUFF_LEN)` */
    method ClearBuffer()
      modifies logBuffer
      ensures forall i :: 0 <= i < logBuffer.Length ==> logBuffer[i] == 0
    {
      forall i | 0 <= i < logBuffer.Length {
        logBuffer[i] := 0;
      }
    }

    /**
     Reads the header of the next record. The code does not look at how much it got: a torn
     header is read as if zeros followed. A length that is negative as an `int32_t` counts as 0.
     */
    method ReadHeader()
      requires Shape() && size == 0 && 0 < rb.size
      modifies this`size, rb`size, rb`head, logBuffer
      ensures Shape() && file == old(file)
      ensures var g := Min(4, old(rb.size));
        && rb.Contents() == old(rb.Contents())[g..]
        && logBuffer[..] == old(rb.Contents())[..g] + seq(DBG_BUFF_LEN - g, _ => 0)
        && (var n := FromLittleEndian(logBuffer[..4]); size == if n < 0x8000_0000 then n else 0)
      ensures old(Valid()) ==> Valid() && rb.size == old(rb.size) - 4
    {
      assert rb.size < U16;
      hide RingBuffer.Valid, RingBuffer.Contents, FromLittleEndian, Parse, PositiveSize;
      ghost var before, whole := rb.Contents(), Valid();
      ClearBuffer();
      ghost var zeros := logBuffer[..];
      var g := rb.Get(logBuffer, 4);
      assert zeros[g..] == seq(DBG_BUFF_LEN - g, _ => 0);
      size := PositiveSize(FromLittleEndian(logBuffer[..4]));
      if whole {
        assert before[0..] == before;
        HeaderTaken(file, before);
        assert logBuffer[..4] == before[..4];
      }
    }

    /**
     Moves one piece of the current record into the file. Where the ring holds less than the
     piece, the file gets what the buffer happens to hold behind it.
     */
    method ReadPiece()
      requires Shape() && 0 < size
      modifies this`size, this`file, rb`size, rb`head, logBuffer
      ensures Shape() && size == old(size) - Min(1024, old(size))
      ensures var need := Min(1024, old(size)); var g := Min(need, old(rb.size));
        && rb.Contents() == old(rb.Contents())[g..]
        && file == old(file) + old(rb.Contents())[..g] + old(logBuffer[..])[g..need]
      ensures old(Valid()) ==> Valid() && rb.size == old(rb.size) - Min(DBG_BUFF_LEN, old(size))
    {
      hide RingBuffer.Valid, RingBuffer.Contents, Parse;
      ghost var before, bytes, whole := rb.Contents(), logBuffer[..], Valid();
      var need := Min(DBG_BUFF_LEN, size);
      ghost var g: nat := Min(need, rb.size);
      var _ := rb.Get(logBuffer, need);
      assert logBuffer[..need] == before[..g] + bytes[g..need];
      ghost var was := file;
      file := file + logBuffer[..need];
      assert file == was + before[..g] + bytes[g..need];
      if whole {
        assert rb.Contents()[size - need..] == before[size..];
        assert before[..size] == before[..need] + rb.Contents()[..size - need];
      }
      size := size - need;
    }

    /**
     The body of the log thread's loop. It ends and empties the ring whatever that held, so that
     later records are whole again; from whole frames everything logged is then in the file.
     */
    method Drain()
      requires Shape()
      modifies this`size, this`file, rb`size, rb`head, logBuffer
      ensures Shape() && Whole() && rb.size == 0 && size == 0
      ensures old(Valid()) ==> Valid() && file == logged
    {
      hide RingBuffer.Valid, RingBuffer.Contents, Parse, Destined;
      while 0 < size
        invariant Shape() && (old(Valid()) ==> Valid())
      {
        ReadPiece();
      }
      while 0 < rb.Length()
        invariant Shape() && size == 0 && (old(Valid()) ==> Valid())
        decreases rb.size
      {
        ghost var length := rb.size;
        ReadHeader();
        while 0 < size
          invariant Shape() && rb.size < length && (old(Valid()) ==> Valid())
        {
          ReadPiece();
        }
      }
      EmptyIsWhole();
      if old(Valid()) {
        DrainedRing();
      }
    }

    lemma EmptyIsWhole()
      requires Shape() && size == 0 && rb.size == 0
      ensures Whole()
    {
      assert rb.Contents()[0..] == [];
    }

    lemma FileIsPrefix()
      requires Valid()
      ensures file <= logged
    {
    }

    lemma DrainedRing()
      requires Valid() && size == 0 && rb.size == 0
      ensures file == logged
    {
      assert rb.Contents()[..0] == [] && rb.Contents()[0..] == [];
    }
  }

  /** An `int32_t` length as the loop `while (size > 0)` takes it. */
  function PositiveSize(n: nat): nat {
    if n < 0x8000_0000 then n else 0
  }

  /** The first record of a non-empty string of whole frames. */
  lemma NextRecord(s: seq<byte>)
    requires Parse(s).Some? && 0 < |s| < U16
    ensures 4 <= |s| && var n := FromLittleEndian(s[..4]);
      && PositiveSize(n) == n && 4 + n <= |s| && Parse(s[4 + n..]).Some?
      && Parse(s).value == [s[4..4 + n]] + Parse(s[4 + n..]).value
  {
    hide FromLittleEndian;
  }

  /** Taking a header out of whole frames does not change what the file will hold. */
  lemma HeaderTaken(file: seq<byte>, s: seq<byte>)
    requires Parse(s).Some? && 0 < |s| < U16
    ensures 4 <= |s| && var n := FromLittleEndian(s[..4]);
      && PositiveSize(n) == n && n <= |s[4..]| && Parse(s[4..][n..]).Some?
      && file + s[..0] + Flatten(Parse(s).value) == file + s[4..][..n] + Flatten(Parse(s[4..][n..]).value)
  {
    hide FromLittleEndian, Parse, PositiveSize, Flatten;
    NextRecord(s);
    var n := FromLittleEndian(s[..4]);
    var first, rest := s[4..4 + n], s[4 + n..];
    SliceTwice(s, n);
    FlattenCons(first, Parse(rest).value);
    Regroup(file, s, first, Flatten(Parse(rest).value));
  }

  lemma SliceTwice(s: seq<byte>, n: nat)
    requires 4 + n <= |s|
    ensures s[4..][..n] == s[4..4 + n] && s[4..][n..] == s[4 + n..]
  {
  }

  lemma FlattenCons(x: seq<byte>, rest: seq<seq<byte>>)
    ensures Flatten([x] + rest) == x + Flatten(rest)
  {
    assert ([x] + rest)[1..] == rest;
  }

  lemma Regroup(a: seq<byte>, s: seq<byte>, b: seq<byte>, c: seq<byte>)
    ensures a + s[..0] + (b + c) == a + b + c
  {
  }

  datatype Action = Print(payload: seq<byte>) | ThreadStep

  predicate Acceptable(a: Action, free: int) {
    a.Print? ==> |a.payload| + 4 < U16 && |a.payload| + 4 <= free
  }

  function Payloads(actions: seq<Action>): seq<byte> {
    if actions == [] then []
    else
      var a := actions[|actions| - 1];
      Payloads(actions[..|actions| - 1]) + if a.Print? then a.payload else []
  }

  /**
   Any interleaving of whole-record puts with the log thread's single ring accesses, as long as
   each record fits when it is put: the file is at all times a prefix of the payloads in order,
   and `Drain` completes it.
   */
  method Run(log: DebugLog, actions: seq<Action>) returns (served: nat)
    requires log.Valid()
    modifies log, log.rb, log.rb.buffer, log.logBuffer
    ensures served <= |actions|
    ensures served < |actions| ==>
      !Acceptable(actions[served], log.rb.bufferSize - log.rb.size)
    ensures log.Valid() && log.logged == old(log.logged) + Payloads(actions[..served])
    ensures log.file <= log.logged
  {
    hide RingBuffer.Valid, RingBuffer.Contents, Parse, DebugLog.Whole, DebugLog.Destined;
    served := 0;
    while served < |actions| && Acceptable(actions[served], log.rb.bufferSize - log.rb.size)
      invariant served <= |actions|
      invariant log.Valid() && log.logged == old(log.logged) + Payloads(actions[..served])
    {
      assert actions[..served + 1][..served] == actions[..served];
      match actions[served] {
        case Print(payload) =>
          log.DebugPrint(payload);
        case ThreadStep =>
          if 0 < log.size {
            log.ReadPiece();
          } else if 0 < log.rb.Length() {
            log.ReadHeader();
          }
      }
      served := served + 1;
    }
    log.FileIsPrefix();
  }
}
