/**
 * The payload-compression strategy of the logs HTTP client
 * (pkg/logs/client/http/compression.go).
 *
 * `Compression` is the closed set of the two strategies behind the
 * `compress`/`setHeader` interface. The gzip byte format (RFC 1952 over the
 * DEFLATE format of RFC 1951) is not reimplemented: it is a `Codec` value, an
 * encoder and a decoder, and the law that decoding undoes encoding is the
 * hypothesis `RoundTrips(codec)` wherever it is needed. Every library step of
 * the gzip pipeline can fail; which ones do is an input (`Faults`).
 */
module HttpCompression {
  import opened Wrappers

  newtype byte = x: int | 0 <= x < 256

  /** The errors the gzip pipeline can report. */
  datatype Error =
    | InvalidLevel(level: int)   // gzip.NewWriterLevel refuses the level
    | StepFailed(message: string) // a failure reported by the library or the destination buffer

  // Compression levels of Go's compress/gzip package.
  const HuffmanOnly: int := -2
  const DefaultCompression: int := -1
  const NoCompressionLevel: int := 0
  const BestSpeed: int := 1
  const BestCompression: int := 9

  const ContentEncoding: string := "Content-Encoding"
  const Gzip: string := "gzip"

  /** The levels gzip.NewWriterLevel accepts: HuffmanOnly through BestCompression. */
  predicate LevelAccepted(level: int) {
    HuffmanOnly <= level <= BestCompression
  }

  /** The gzip stream format as an abstract encoder (at a level) and decoder. */
  datatype Codec = Codec(encode: (int, seq<byte>) -> seq<byte>, decode: seq<byte> -> Option<seq<byte>>)

  /** The round-trip law of the gzip format: at every accepted level, decoding gives the payload back. */
  ghost predicate RoundTrips(codec: Codec) {
    forall level: int, payload: seq<byte> ::
      LevelAccepted(level) ==> codec.decode(codec.encode(level, payload)) == Some(payload)
  }

  /** The failure, if any, that the environment makes each of the four library steps report. */
  datatype Faults = Faults(create: Option<Error>, write: Option<Error>, flush: Option<Error>, close: Option<Error>)

  const NoFaults: Faults := Faults(None, None, None, None)

  // ---------------------------------------------------------------------------
  // http.Header, as a map from canonical key to its list of values
  // ---------------------------------------------------------------------------

  class Header {
    var fields: map<string, seq<string>>

    constructor ()
      ensures fields == map[]
    {
      fields := map[];
    }

    /** The first value stored under `key`, or "" when there is none. */
    function Get(key: string): string
      reads this
    {
      if key in fields && fields[key] != [] then fields[key][0] else ""
    }

    /** Replaces every value under `key` by the single `value`. */
    method Set(key: string, value: string)
      modifies this
      ensures fields == old(fields)[key := [value]]
      ensures Get(key) == value
    {
      fields := fields[key := [value]];
    }
  }

  // ---------------------------------------------------------------------------
  // The destination buffer and the gzip writer, with their library steps
  // ---------------------------------------------------------------------------

  /** bytes.Buffer: the bytes written to it so far. */
  class ByteBuffer {
    var data: seq<byte>

    constructor ()
      ensures data == []
    {
      data := [];
    }

    method Write(p: seq<byte>)
      modifies this
      ensures data == old(data) + p
    {
      data := data + p;
    }
  }

  /**
   * gzip.Writer over a destination buffer. The writer keeps what it was given;
   * closing it appends the complete gzip stream for all of it to the destination.
   */
  class GzipWriter {
    const level: int
    const codec: Codec
    const dst: ByteBuffer
    var written: seq<byte>
    var closed: bool

    constructor (dst: ByteBuffer, level: int, codec: Codec)
      ensures this.dst == dst && this.level == level && this.codec == codec
      ensures written == [] && !closed
    {
      this.dst := dst;
      this.level := level;
      this.codec := codec;
      written := [];
      closed := false;
    }

    /** Writer.Write: fails when the environment says so, otherwise accepts all of `p`. */
    method Write(p: seq<byte>, fault: Option<Error>) returns (n: nat, err: Option<Error>)
      modifies this
      ensures err == fault && closed == old(closed)
      ensures err.None? ==> n == |p| && written == old(written) + p
      ensures err.Some? ==> n == 0 && written == old(written)
    {
      err := fault;
      if err.None? {
        written := written + p;
        n := |p|;
      } else {
        n := 0;
      }
    }

    /** Writer.Flush: fails when the environment says so. */
    method Flush(fault: Option<Error>) returns (err: Option<Error>)
      modifies this
      ensures err == fault
      ensures written == old(written) && closed == old(closed)
    {
      err := fault;
    }

    /**
     * Writer.Close: on success, terminates the stream into the destination
     * buffer. Closing a writer that is already closed writes nothing and
     * reports no error.
     */
    method Close(fault: Option<Error>) returns (err: Option<Error>)
      modifies this, dst
      ensures written == old(written)
      ensures old(closed) ==> err.None? && closed && dst.data == old(dst.data)
      ensures !old(closed) ==> err == fault
      ensures !old(closed) && err.None? ==> closed && dst.data == old(dst.data) + codec.encode(level, written)
      ensures !old(closed) && err.Some? ==> !closed && dst.data == old(dst.data)
    {
      if closed {
        return None;
      }
      err := fault;
      if err.None? {
        dst.Write(codec.encode(level, written));
        closed := true;
      }
    }
  }

  /** gzip.NewWriterLevel: refuses a level outside the accepted range, otherwise fails only when the environment says so. */
  method NewWriterLevel(dst: ByteBuffer, level: int, codec: Codec, fault: Option<Error>)
    returns (w: GzipWriter?, err: Option<Error>)
    ensures err == if !LevelAccepted(level) then Some(InvalidLevel(level)) else fault
    ensures err.Some? ==> w == null
    ensures err.None? ==> w != null && fresh(w) && w.dst == dst && w.level == level && w.codec == codec
    ensures err.None? ==> w.written == [] && !w.closed
  {
    if !LevelAccepted(level) {
      return null, Some(InvalidLevel(level));
    }
    if fault.Some? {
      return null, fault;
    }
    w := new GzipWriter(dst, level, codec);
    err := None;
  }

  // ---------------------------------------------------------------------------
  // The strategies
  // ---------------------------------------------------------------------------

  /**
   * The first failing step of the gzip pipeline, in the order writer creation,
   * Write, Flush, Close; None when all four succeed.
   */
  function FirstFault(level: int, faults: Faults): (e: Option<Error>)
    ensures e.None? <==> LevelAccepted(level) && faults == NoFaults
    ensures !LevelAccepted(level) ==> e == Some(InvalidLevel(level))
  {
    if !LevelAccepted(level) then Some(InvalidLevel(level))
    else if faults.create.Some? then faults.create
    else if faults.write.Some? then faults.write
    else if faults.flush.Some? then faults.flush
    else faults.close
  }

  datatype Compression = NoCompression | GzipCompression(level: int) {

    /** What `compress` returns: the payload itself, or the gzip stream unless a step fails. */
    function Compressed(payload: seq<byte>, codec: Codec, faults: Faults): Result<seq<byte>, Error> {
      match this
      case NoCompression => Success(payload)
      case GzipCompression(level) =>
        match FirstFault(level, faults)
        case Some(e) => Failure(e)
        case None => Success(codec.encode(level, payload))
    }

    /** compress: dispatch to the strategy. */
    method Compress(payload: seq<byte>, codec: Codec, faults: Faults) returns (r: Result<seq<byte>, Error>)
      ensures r == Compressed(payload, codec, faults)
      ensures NoCompression? ==> r == Success(payload)
      ensures GzipCompression? ==> (r.Success? <==> LevelAccepted(level) && faults == NoFaults)
    {
      match this
      case NoCompression =>
        r := Success(payload);
      case GzipCompression(level) =>
        r := GzipCompress(level, payload, codec, faults);
    }

    /** setHeader: gzip sets Content-Encoding to exactly "gzip"; no compression leaves the header alone. */
    method SetHeader(header: Header)
      modifies header
      ensures NoCompression? ==> header.fields == old(header.fields)
      ensures GzipCompression? ==> header.fields == old(header.fields)[ContentEncoding := [Gzip]]
    {
      match this
      case NoCompression =>
      case GzipCompression(_) =>
        header.Set(ContentEncoding, Gzip);
    }
  }

  /** NewGzipCompression: clamps the level into [NoCompression, BestCompression]. */
  function NewGzipCompression(level: int): (c: Compression)
    ensures c.GzipCompression?
    ensures NoCompressionLevel <= c.level <= BestCompression
    ensures level < NoCompressionLevel ==> c.level == NoCompressionLevel
    ensures level > BestCompression ==> c.level == BestCompression
    ensures NoCompressionLevel <= level <= BestCompression ==> c.level == level
  {
    if level < NoCompressionLevel then GzipCompression(NoCompressionLevel)
    else if level > BestCompression then GzipCompression(BestCompression)
    else GzipCompression(level)
  }

  /**
   * GzipCompression.compress: create a writer into a fresh buffer, then Write,
   * Flush and Close it, returning the first error; the buffer's bytes are
   * returned only when all four steps succeed.
   */
  method GzipCompress(level: int, payload: seq<byte>, codec: Codec, faults: Faults) returns (r: Result<seq<byte>, Error>)
    ensures r.Success? <==> FirstFault(level, faults).None?
    ensures r.Success? ==> r.value == codec.encode(level, payload)
    ensures r.Failure? ==> Some(r.error) == FirstFault(level, faults)
  {
    var compressedPayload := new ByteBuffer();
    var gzipWriter, err := NewWriterLevel(compressedPayload, level, codec, faults.create);
    if err.Some? {
      return Failure(err.value);
    }
    var _, writeErr := gzipWriter.Write(payload, faults.write);
    if writeErr.Some? {
      return Failure(writeErr.value);
    }
    err := gzipWriter.Flush(faults.flush);
    if err.Some? {
      return Failure(err.value);
    }
    assert compressedPayload.data == [] && gzipWriter.written == payload;
    err := gzipWriter.Close(faults.close);
    if err.Some? {
      return Failure(err.value);
    }
    return Success(compressedPayload.data);
  }

  // ---------------------------------------------------------------------------
  // Properties
  // ---------------------------------------------------------------------------

  /** No compression returns every payload unchanged and never fails. */
  lemma NoCompressionIsIdentity(payload: seq<byte>, codec: Codec, faults: Faults)
    ensures NoCompression.Compressed(payload, codec, faults) == Success(payload)
  {
  }

  /** Clamping keeps an in-range level and is idempotent. */
  lemma ClampIdempotent(level: int)
    ensures NewGzipCompression(NewGzipCompression(level).level) == NewGzipCompression(level)
    ensures NoCompressionLevel <= level <= BestCompression ==> NewGzipCompression(level) == GzipCompression(level)
  {
  }

  /** A level below the range behaves like level 0 (NoCompressionLevel, gzip.NoCompression), one above it like BestCompression. */
  lemma OutOfRangeLevelsClamp(level: int)
    ensures level < NoCompressionLevel ==> NewGzipCompression(level) == NewGzipCompression(NoCompressionLevel)
    ensures level > BestCompression ==> NewGzipCompression(level) == NewGzipCompression(BestCompression)
  {
  }

  /**
   * A strategy built by NewGzipCompression always has a level the gzip library
   * accepts, so its `compress` fails only where a library step fails, and then
   * with the error of the first failing step: the later steps are not reached.
   */
  lemma ConstructedGzipStopsAtFirstFault(level: int, payload: seq<byte>, codec: Codec, faults: Faults)
    ensures var c := NewGzipCompression(level);
      var r := c.Compressed(payload, codec, faults);
      LevelAccepted(c.level) &&
      (faults == NoFaults ==> r == Success(codec.encode(c.level, payload))) &&
      (faults.create.Some? ==> r == Failure(faults.create.value)) &&
      (faults.create.None? && faults.write.Some? ==> r == Failure(faults.write.value)) &&
      (faults.create.None? && faults.write.None? && faults.flush.Some? ==> r == Failure(faults.flush.value)) &&
      (faults.create.None? && faults.write.None? && faults.flush.None? && faults.close.Some? ==> r == Failure(faults.close.value))
  {
  }

  /** Round trip: decoding what gzip compression returns gives the payload back, at every level. */
  lemma GzipRoundTrip(level: int, payload: seq<byte>, codec: Codec)
    requires RoundTrips(codec)
    ensures var r := NewGzipCompression(level).Compressed(payload, codec, NoFaults);
      r.Success? && codec.decode(r.value) == Some(payload)
  {
    var c := NewGzipCompression(level);
    assert LevelAccepted(c.level);
    assert codec.decode(codec.encode(c.level, payload)) == Some(payload);
  }

  // ---------------------------------------------------------------------------
  // The scenarios of compression_test.go
  // ---------------------------------------------------------------------------

  /** The ASCII bytes of "my payload". */
  const MyPayload: seq<byte> := [109, 121, 32, 112, 97, 121, 108, 111, 97, 100]

  method NoCompressionScenario(codec: Codec) returns (compressed: Result<seq<byte>, Error>)
    ensures compressed == Success(MyPayload)
  {
    compressed := NoCompression.Compress(MyPayload, codec, NoFaults);
  }

  method NoCompressionHeaderScenario() returns (encoding: string)
    ensures encoding == ""
  {
    var header := new Header();
    NoCompression.SetHeader(header);
    encoding := header.Get(ContentEncoding);
  }

  method GzipCompressionScenario(codec: Codec) returns (decompressed: Option<seq<byte>>)
    requires RoundTrips(codec)
    ensures decompressed == Some(MyPayload)
  {
    var compressed := NewGzipCompression(BestCompression).Compress(MyPayload, codec, NoFaults);
    GzipRoundTrip(BestCompression, MyPayload, codec);
    decompressed := codec.decode(compressed.value);
  }

  method GzipCompressionHeaderScenario() returns (encoding: string)
    ensures encoding == Gzip
  {
    var header := new Header();
    NewGzipCompression(BestCompression).SetHeader(header);
    encoding := header.Get(ContentEncoding);
  }
}
