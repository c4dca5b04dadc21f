/**
 * The serial protocol of lls/exporter.go: the 4-byte request the writer sends
 * to each sensor, the 9-byte response the reader waits for, the reader's
 * frame synchronizer over a 9-byte buffer, and the decoding of a response.
 */
module Frames {
  import opened Wrappers
  import opened Checksum

  /** First byte of a request, written by the exporter. */
  const RequestStart: bv8 := 0x31
  /** First byte of a response, written by a sensor. */
  const ResponseStart: bv8 := 0x3E
  /** Command code at offset 2 of both requests and responses. */
  const DataCommand: bv8 := 0x06
  /** Length of a response and the size of the reader's buffer. */
  const FrameLength: nat := 9
  /** The largest raw level a response may carry; above it the level reads as 0. */
  const MaxWireLevel: int := 4095

  /**
   * The byte whose value is `n`, counted up from zero; its value is then a
   * matter of induction rather than of the integer-to-bit-vector conversion.
   */
  function ByteOf(n: int): bv8
    requires 0 <= n < 256
    decreases n
  {
    if n == 0 then 0 else ByteOf(n - 1) + 1
  }

  /** A byte below 255 plus one has the next value. */
  lemma ByteSucc(b: bv8)
    requires b as int < 255
    ensures (b + 1) as int == b as int + 1
  {
  }

  /** `ByteOf(n)` has the value `n`. */
  lemma {:induction false} ByteOfValue(n: int)
    requires 0 <= n < 256
    ensures ByteOf(n) as int == n
    decreases n
  {
    if n > 0 {
      ByteOfValue(n - 1);
      ByteSucc(ByteOf(n - 1));
    }
  }

  /** Go's `byte(x)` on an `int`: the low eight bits, that is, `x` modulo 256. */
  function LowByte(x: int): (b: bv8)
    ensures b as int == x % 256
  {
    ByteOfValue(x % 256);
    ByteOf(x % 256)
  }

  // ---------------------------------------------------------------------------
  // Requests

  /**
   * The request for the sensor at `address`: start byte, the address cut to a
   * byte (Go's `byte(int)` keeps the low 8 bits), the command code and the
   * CRC-8 of those three bytes.
   */
  function RequestFrame(address: int): (f: seq<bv8>)
    ensures |f| == 4
    ensures f[0] == RequestStart && f[2] == DataCommand
    ensures f[1] as int == address % 256
    ensures Crc8(f) == 0
  {
    var head := [RequestStart, LowByte(address), DataCommand];
    Crc8SelfCheck(head);
    Seal(head)
  }

  /** Two addresses get the same request exactly when they agree modulo 256. */
  lemma RequestFrameDetermined(a: int, b: int)
    ensures RequestFrame(a) == RequestFrame(b) <==> a % 256 == b % 256
  {
    if a % 256 == b % 256 {
      assert RequestFrame(a)[..3] == RequestFrame(b)[..3];
      assert RequestFrame(a) == RequestFrame(a)[..3] + [RequestFrame(a)[3]];
      assert RequestFrame(b) == RequestFrame(b)[..3] + [RequestFrame(b)[3]];
    }
  }

  /**
   * The writer's construction of one request, as the Go code does it: a
   * 4-byte message with a zero last byte, then the CRC of the first three
   * bytes stored into it.
   */
  method BuildRequest(address: int) returns (msg: seq<bv8>)
    ensures msg == RequestFrame(address)
  {
    msg := [RequestStart, LowByte(address), DataCommand, 0];
    var head := msg[..3];
    assert head == [RequestStart, LowByte(address), DataCommand];
    var crc := ComputeCrc8(head);
    msg := msg[3 := crc];
    assert msg == head + [crc];
  }

  // ---------------------------------------------------------------------------
  // Responses

  /**
   * A complete, acceptable response: nine bytes, the start byte, the command
   * code at offset 2 and, last, the CRC-8 of the eight bytes before it.
   */
  predicate IsResponseFrame(f: seq<bv8>)
  {
    |f| == FrameLength && f[0] == ResponseStart && f[2] == DataCommand && f[8] == Crc8(f[..8])
  }

  /** A response frame checks to zero as a whole. */
  lemma ResponseFrameChecks(f: seq<bv8>)
    requires |f| == FrameLength
    ensures IsResponseFrame(f) <==> f[0] == ResponseStart && f[2] == DataCommand && Crc8(f) == 0
  {
    assert f == f[..8] + [f[8]];
    Crc8CheckByte(f[..8], f[8]);
  }

  /** What a response carries: sensor address, temperature and raw fuel level. */
  datatype Reading = Reading(address: int, temperature: int, rawLevel: int)

  /** Go's `int(lo) | (int(hi) << 8)`: the two bytes do not overlap, so the OR is a sum. */
  lemma LittleEndianOr(lo: bv8, hi: bv8)
    ensures ((lo as bv16) | ((hi as bv16) << 8)) as int == lo as int + 256 * hi as int
  {
  }

  /** A byte as an integer is in 0..255. */
  lemma ByteRange(b: bv8)
    ensures 0 <= b as int < 256
  {
  }

  /** The raw level as Go assembles it from its low and high byte. */
  function WireLevel(lo: bv8, hi: bv8): (n: int)
    ensures n == lo as int + 256 * hi as int
    ensures 0 <= n < 65536
  {
    LittleEndianOr(lo, hi);
    ByteRange(lo);
    ByteRange(hi);
    ((lo as bv16) | ((hi as bv16) << 8)) as int
  }

  /**
   * The fields of an accepted response: address at offset 1, temperature at
   * offset 3 and the little-endian raw level at offsets 4 and 5, with any raw
   * level outside 0..4095 read as 0.
   */
  function Decode(f: seq<bv8>): (r: Reading)
    requires |f| == FrameLength
    ensures r.address == f[1] as int && r.temperature == f[3] as int
    ensures 0 <= r.address < 256 && 0 <= r.temperature < 256
    ensures var wire := f[4] as int + 256 * f[5] as int;
      r.rawLevel == if wire <= MaxWireLevel then wire else 0
    ensures 0 <= r.rawLevel <= MaxWireLevel
  {
    var rawLevel := WireLevel(f[4], f[5]);
    ByteRange(f[1]);
    ByteRange(f[3]);
    Reading(f[1] as int, f[3] as int, if rawLevel < 0 || rawLevel > MaxWireLevel then 0 else rawLevel)
  }

  /**
   * The response a sensor sends: the raw level as its low and high byte at
   * offsets 4 and 5; offsets 6 and 7 are not interpreted by the reader.
   */
  function EncodeResponse(address: bv8, temperature: bv8, lo: bv8, hi: bv8, spare1: bv8, spare2: bv8): (f: seq<bv8>)
    ensures IsResponseFrame(f)
  {
    Seal([ResponseStart, address, DataCommand, temperature, lo, hi, spare1, spare2])
  }

  /** A message body followed by its CRC-8. */
  function Seal(head: seq<bv8>): (f: seq<bv8>)
    ensures |f| == |head| + 1 && f[..|head|] == head && f[|head|] == Crc8(head)
  {
    head + [Crc8(head)]
  }

  /** Decoding a sensor's response gives back what it encoded, with levels above 4095 read as 0. */
  lemma DecodeEncode(address: bv8, temperature: bv8, lo: bv8, hi: bv8, spare1: bv8, spare2: bv8)
    ensures var level := lo as int + 256 * hi as int;
      Decode(EncodeResponse(address, temperature, lo, hi, spare1, spare2))
         == Reading(address as int, temperature as int, if level <= MaxWireLevel then level else 0)
  {
  }

  /** Every acceptable response is the encoding of its own fields. */
  lemma EncodeDecode(f: seq<bv8>)
    requires IsResponseFrame(f)
    ensures EncodeResponse(f[1], f[3], f[4], f[5], f[6], f[7]) == f
  {
    assert [ResponseStart, f[1], DataCommand, f[3], f[4], f[5], f[6], f[7]] == f[..8];
    SealOfFrame(f);
  }

  /** A response is its first eight bytes sealed. */
  lemma SealOfFrame(f: seq<bv8>)
    requires IsResponseFrame(f)
    ensures Seal(f[..8]) == f
  {
    assert f == f[..8] + [f[8]];
  }

  // ---------------------------------------------------------------------------
  // Frame synchronizer

  /**
   * What the reader keeps between reads: fewer than nine bytes that can still
   * begin a response (start byte first, command code at offset 2 once present).
   */
  predicate Consistent(buf: seq<bv8>)
  {
    && |buf| < FrameLength
    && (|buf| > 0 ==> buf[0] == ResponseStart)
    && (|buf| > 2 ==> buf[2] == DataCommand)
  }

  /** The reader's state after one read, and the response it completed, if any. */
  datatype StepResult = StepResult(buffer: seq<bv8>, frame: Option<seq<bv8>>)

  /**
   * One read of `chunk` into the buffer. The checks run on the whole buffer
   * after every read: a wrong start byte, a wrong command code once three
   * bytes are in, or a wrong CRC at nine bytes throws the whole buffer away;
   * nine good bytes are a response, after which the buffer starts over.
   */
  function Step(buf: seq<bv8>, chunk: seq<bv8>): (r: StepResult)
    requires 1 <= |chunk| && |buf| + |chunk| <= FrameLength
    ensures r.frame.Some? <==> IsResponseFrame(buf + chunk)
    ensures r.frame.Some? ==> r.frame.value == buf + chunk
    ensures r.buffer == if Consistent(buf + chunk) then buf + chunk else []
    ensures Consistent(r.buffer)
  {
    var b := buf + chunk;
    if b[0] != ResponseStart then StepResult([], None)
    else if |b| < 3 then StepResult(b, None)
    else if b[2] != DataCommand then StepResult([], None)
    else if |b| < FrameLength then StepResult(b, None)
    else if b[8] != Crc8(b[..8]) then StepResult([], None)
    else StepResult([], Some(b))
  }

  /** All bytes of a sequence of reads, in order. */
  function Flatten(chunks: seq<seq<bv8>>): seq<bv8>
  {
    if |chunks| == 0 then [] else chunks[0] + Flatten(chunks[1..])
  }

  /**
   * `chunks` is a possible sequence of reads from buffer `buf`: each read
   * returns at least one byte and at most the room left in the buffer.
   */
  predicate Feeds(buf: seq<bv8>, chunks: seq<seq<bv8>>)
    decreases |chunks|
  {
    |chunks| == 0 ||
      (&& 1 <= |chunks[0]|
       && |buf| + |chunks[0]| <= FrameLength
       && Feeds(Step(buf, chunks[0]).buffer, chunks[1..]))
  }

  /** The reader's buffer after a run of reads, and the responses it accepted on the way. */
  datatype Trace = Trace(buffer: seq<bv8>, frames: seq<seq<bv8>>)

  /**
   * The reader loop over a sequence of reads. Every accepted response is
   * well-formed, the buffer stays a possible response prefix, and each
   * response used up nine bytes of input.
   */
  function Run(buf: seq<bv8>, chunks: seq<seq<bv8>>): (t: Trace)
    requires Consistent(buf) && Feeds(buf, chunks)
    ensures Consistent(t.buffer)
    ensures forall k :: 0 <= k < |t.frames| ==> IsResponseFrame(t.frames[k])
    ensures FrameLength * |t.frames| + |t.buffer| <= |buf| + |Flatten(chunks)|
    decreases |chunks|
  {
    if |chunks| == 0 then
      Trace(buf, [])
    else
      var s := Step(buf, chunks[0]);
      var rest := Run(s.buffer, chunks[1..]);
      var found := if s.frame.Some? then [s.frame.value] else [];
      Trace(rest.buffer, found + rest.frames)
  }

  /** Splitting input into the first read and the rest. */
  lemma FlattenCons(chunks: seq<seq<bv8>>)
    requires |chunks| > 0
    ensures Flatten(chunks) == chunks[0] + Flatten(chunks[1..])
  {
  }

  /** No read is empty. */
  predicate NonEmptyReads(chunks: seq<seq<bv8>>)
  {
    forall k :: 0 <= k < |chunks| ==> |chunks[k]| >= 1
  }

  /**
   * Starting from a prefix of a response, any way of reading the rest of it
   * ends with exactly that response accepted and an empty buffer.
   */
  lemma {:induction false} CompletesFrame(f: seq<bv8>, buf: seq<bv8>, chunks: seq<seq<bv8>>)
    requires IsResponseFrame(f)
    requires |buf| < FrameLength && buf == f[..|buf|]
    requires NonEmptyReads(chunks) && Flatten(chunks) == f[|buf|..]
    ensures Consistent(buf) && Feeds(buf, chunks)
    ensures Run(buf, chunks) == Trace([], [f])
    decreases |chunks|
  {
    assert |chunks| > 0;
    var c := chunks[0];
    var rest := chunks[1..];
    ReadAdvances(f, buf, chunks);
    var b := buf + c;
    assert NonEmptyReads(rest) by {
      forall k | 0 <= k < |rest| ensures |rest[k]| >= 1 {
        assert rest[k] == chunks[k + 1];
      }
    }
    if |b| < FrameLength {
      assert Step(buf, c).buffer == b;
      CompletesFrame(f, b, rest);
    } else {
      assert b == f;
      NothingLeft(rest);
    }
  }

  /** After one read of a response's remainder the buffer is a longer prefix of it. */
  lemma ReadAdvances(f: seq<bv8>, buf: seq<bv8>, chunks: seq<seq<bv8>>)
    requires |buf| <= |f| && buf == f[..|buf|]
    requires |chunks| > 0 && Flatten(chunks) == f[|buf|..]
    ensures |buf + chunks[0]| <= |f|
    ensures buf + chunks[0] == f[..|buf + chunks[0]|]
    ensures Flatten(chunks[1..]) == f[|buf + chunks[0]|..]
  {
    var c := chunks[0];
    FlattenCons(chunks);
    assert f[|buf|..] == c + Flatten(chunks[1..]);
    assert f[|buf|..][..|c|] == c;
  }

  /** Non-empty reads that deliver no bytes are no reads at all. */
  lemma NothingLeft(chunks: seq<seq<bv8>>)
    requires NonEmptyReads(chunks) && Flatten(chunks) == []
    ensures chunks == []
  {
  }

  /** From an empty buffer, every way the serial port can split a response delivers it. */
  lemma AcceptsAnyChunking(f: seq<bv8>, chunks: seq<seq<bv8>>)
    requires IsResponseFrame(f)
    requires NonEmptyReads(chunks) && Flatten(chunks) == f
    ensures Feeds([], chunks) && Run([], chunks) == Trace([], [f])
  {
    CompletesFrame(f, [], chunks);
  }

  /** One read per byte. */
  function Bytewise(s: seq<bv8>): (chunks: seq<seq<bv8>>)
    ensures |chunks| == |s| && NonEmptyReads(chunks)
    ensures Flatten(chunks) == s
    decreases |s|
  {
    if |s| == 0 then [] else [[s[0]]] + Bytewise(s[1..])
  }

  /** Reads of one byte each always fit into the buffer. */
  lemma {:induction false} BytewiseFeeds(buf: seq<bv8>, s: seq<bv8>)
    requires Consistent(buf)
    ensures Feeds(buf, Bytewise(s))
    decreases |s|
  {
    if |s| > 0 {
      var chunks := Bytewise(s);
      assert chunks[1..] == Bytewise(s[1..]);
      BytewiseFeeds(Step(buf, [s[0]]).buffer, s[1..]);
    }
  }

  /**
   * A byte that cannot start a response, read on its own, is dropped, and a
   * response that follows it is still delivered.
   */
  lemma ForeignByteThenFrame(g: bv8, f: seq<bv8>, chunks: seq<seq<bv8>>)
    requires g != ResponseStart && IsResponseFrame(f)
    requires NonEmptyReads(chunks) && Flatten(chunks) == f
    ensures Feeds([], [[g]] + chunks) && Run([], [[g]] + chunks) == Trace([], [f])
  {
    AcceptsAnyChunking(f, chunks);
    var all := [[g]] + chunks;
    assert all[1..] == chunks;
    assert Step([], [g]) == StepResult([], None);
  }

  /**
   * A stray start byte right before a response, whose address byte is not the
   * command code, costs that response: the reader locks onto the stray byte,
   * finds the address where the command code should be, throws all three
   * bytes away, and the seven that remain are too few for another response.
   */
  lemma StrayStartByteHidesFrame(f: seq<bv8>)
    requires IsResponseFrame(f) && f[1] != DataCommand
    ensures Feeds([], [[ResponseStart]] + Bytewise(f))
    ensures Run([], [[ResponseStart]] + Bytewise(f)).frames == []
  {
    var g := [ResponseStart] + f;
    assert g[1..] == f;
    assert Bytewise(g) == [[ResponseStart]] + Bytewise(f);
    var b1 := [ResponseStart];
    var b2 := b1 + [f[0]];
    RunOneByte([], g);
    assert Step([], [g[0]]).buffer == b1;
    RunOneByte(b1, f);
    assert Step(b1, [f[0]]).buffer == b2;
    RunOneByte(b2, f[1..]);
    assert !Consistent(b2 + [f[1]]);
    assert Step(b2, [f[1]]).buffer == [];
    assert f[1..][1..] == f[2..];
    ShortInputNoFrame(f[2..]);
  }

  /** Reading a byte that completes no response leaves the rest of the run to the new buffer. */
  lemma RunOneByte(buf: seq<bv8>, s: seq<bv8>)
    requires Consistent(buf) && |s| > 0 && !IsResponseFrame(buf + [s[0]])
    ensures Feeds(buf, Bytewise(s))
    ensures Feeds(Step(buf, [s[0]]).buffer, Bytewise(s[1..]))
    ensures Run(buf, Bytewise(s)) == Run(Step(buf, [s[0]]).buffer, Bytewise(s[1..]))
  {
    var chunks := Bytewise(s);
    assert chunks[0] == [s[0]] && chunks[1..] == Bytewise(s[1..]);
    BytewiseFeeds(buf, s);
    BytewiseFeeds(Step(buf, [s[0]]).buffer, s[1..]);
    RunSkipsRead(buf, chunks);
  }

  /** A first read that completes no response contributes nothing but its new buffer. */
  lemma RunSkipsRead(buf: seq<bv8>, chunks: seq<seq<bv8>>)
    requires Consistent(buf) && Feeds(buf, chunks) && |chunks| > 0
    requires !IsResponseFrame(buf + chunks[0])
    ensures Run(buf, chunks) == Run(Step(buf, chunks[0]).buffer, chunks[1..])
  {
  }

  /** Fewer than nine bytes read from an empty buffer complete no response. */
  lemma ShortInputNoFrame(s: seq<bv8>)
    requires |s| < FrameLength
    ensures Feeds([], Bytewise(s))
    ensures Run([], Bytewise(s)).frames == []
  {
    BytewiseFeeds([], s);
  }
}
