/** The duplex byte channel an SCP session or an exec command talks over,
    after the mock channel of the engine's tests: a read error flag, a write
    error flag and a "short write" switch that makes every write report zero
    bytes and no error. The mock keeps one buffer for both directions; here
    the bytes still to be read (`inbound`) and the bytes written so far
    (`outbound`) are kept apart, as on a real SSH channel. */
module Channel {
  import opened Common

  datatype MockChannel = MockChannel(
    inbound: seq<Byte>,
    outbound: seq<Byte>,
    readError: Option<Error>,
    writeError: Option<Error>,
    shortWrite: bool)

  /** A channel that never fails, like a plain in-memory buffer. */
  function Plain(inbound: seq<Byte>): MockChannel {
    MockChannel(inbound, [], None, None, false)
  }

  datatype ReadResult = ReadResult(data: seq<Byte>, err: Option<Error>, channel: MockChannel)
  datatype WriteResult = WriteResult(n: nat, err: Option<Error>, channel: MockChannel)

  /** Reads at most `max` bytes, as `Read` into a buffer of that size. */
  function Read(c: MockChannel, max: nat): (r: ReadResult)
    ensures r.err.None? ==> c.inbound == r.data + r.channel.inbound
    ensures r.err.None? ==> |r.data| == if max < |c.inbound| then max else |c.inbound|
    ensures r.err.Some? ==> r.data == [] && r.channel == c
    ensures r.err.Some? <==> c.readError.Some? || (c.inbound == [] && max > 0)
    ensures c.readError.None? && r.err.Some? ==> r.err == Some(Eof)
    ensures r.channel.outbound == c.outbound
  {
    if c.readError.Some? then
      ReadResult([], c.readError, c)
    else if c.inbound == [] then
      ReadResult([], if max > 0 then Some(Eof) else None, c)
    else
      var k := if max < |c.inbound| then max else |c.inbound|;
      ReadResult(c.inbound[..k], None, c.(inbound := c.inbound[k..]))
  }

  /** Writes `data`; the reported count is what reached the peer. */
  function Write(c: MockChannel, data: seq<Byte>): (r: WriteResult)
    ensures r.channel.outbound == c.outbound + (if r.n == 0 then [] else data)
    ensures r.n == 0 || r.n == |data|
    ensures r.err.Some? <==> c.writeError.Some?
    ensures r.err.Some? ==> r.err == c.writeError
    ensures c.writeError.None? && !c.shortWrite ==> r.n == |data|
    ensures r.channel.inbound == c.inbound
  {
    if c.writeError.Some? then
      WriteResult(0, c.writeError, c)
    else if c.shortWrite then
      WriteResult(0, None, c)
    else
      WriteResult(|data|, None, c.(outbound := c.outbound + data))
  }

  /** Whatever is written to a healthy channel can be read back, in order,
      by the peer: the peer's inbound stream is our outbound stream. */
  lemma WriteThenRead(data: seq<Byte>, rest: seq<Byte>)
    requires data != []
    ensures var w := Write(Plain([]), data);
            var r := Read(Plain(w.channel.outbound + rest), |data|);
            w.n == |data| && r.err.None? && r.data == data && r.channel.inbound == rest
  {
    var w := Write(Plain([]), data);
    assert w.channel.outbound == data;
    var r := Read(Plain(data + rest), |data|);
    assert (data + rest)[..|data|] == data;
    assert (data + rest)[|data|..] == rest;
  }
}
