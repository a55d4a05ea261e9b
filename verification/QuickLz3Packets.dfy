/** QuickLZ level 3 packet by packet: both sides keep the recent packets in a streaming buffer. */
module QuickLz3Packets {
  import opened Bytes
  import opened QuickLz
  import opened QuickLzPacker
  import opened QuickLzCompress
  import opened QuickLz3Parse
  import opened QuickLz3

  /** Packet p carries x[start..] to a reader who already has x[..start]. */
  ghost predicate Carries(p: seq<byte>, x: seq<byte>, start: nat, level: nat, streaming: nat) {
    && start < |x| && MIN_PACKED <= |p| <= |x| - start + SLACK
    && SizeCompressed(p) == |p| && SizeDecompressed(p) == |x| - start
    && p[0] / 4 % 4 == level && p[0] / 16 % 4 == streaming
    && if p[0] % 2 == 1 then exists ts :: Compressed(p, ts, x, start) else Reads(p, SizeHeader(p), x[start..])
  }

  ghost predicate Compressed(p: seq<byte>, ts: seq<Token>, x: seq<byte>, start: nat) {
    && p != [] && |p| >= SizeHeader(p) + MIN_PACKED
    && Spells(ts, x, start, |x|) && Reads(p, SizeHeader(p), Body(ts, 0))
  }

  /** The packet of a parse: its stream when it reached the end of the source, the source itself when it gave up. */
  ghost predicate Packed(p: seq<byte>, ts: seq<Token>, x: seq<byte>, start: nat) {
    && start <= |x| && p != [] && (p[0] % 2 == 1 <==> start + Spans(ts) == |x|)
    && if start + Spans(ts) == |x| then
         && Compressed(p, ts, x, start)
         && |p| == SizeHeader(p) + (if |Body(ts, 0)| < MIN_PACKED then MIN_PACKED else |Body(ts, 0)|)
       else TooLong(ts, x, start) && |p| == SizeHeader(p) + |x| - start
  }

  /** The header and body of one packet, stored as it is when the core gives up. */
  method Pack(x: seq<byte>, start: nat, tables: Tables) returns (p: seq<byte>, ghost ts: seq<Token>)
    requires start < |x| && |x| - start <= MAX_SIZE && tables.Valid(start)
    modifies tables.offset, tables.counter, tables`entered
    ensures tables.Valid(|x|) && Carries(p, x, start, LEVEL, STREAMING_MODE) && |p| >= MIN_PACKED
    ensures Parse(old(tables.entered), ts, x, start) && Packed(p, ts, x, start)
    ensures tables.entered == EnteredBy(old(tables.entered), ts, x, start)
  {
    hide Parse, EnteredBy, TooLong, Body, Spells, GaveUp, HeaderByte, SizeCompressed, SizeDecompressed;
    var size: nat := |x| - start;
    var base := Base(size);
    var out := new byte[size + SLACK];
    var n;
    n, ts := CompressCore(x, start, tables, out, base);
    var r: nat, compressed: bit := base + n, 1;
    if n == 0 {
      GaveUpLate(ts, x, start);
      Store(out, base, x[start..]);
      r, compressed := size + base, 0;
    } else {
      SpelledSmall(ts, x, start);
    }
    ghost var o := out[..];
    WriteHeader(out, size, r, compressed, LEVEL, STREAMING_MODE);
    p := out[..r];
    Headed(o, out[..], r, base, if n == 0 then x[start..] else Body(ts, 0));
    assert n != 0 ==> Compressed(p, ts, x, start);
  }

  lemma SpelledSmall(ts: seq<Token>, x: seq<byte>, start: nat)
    requires start < |x| && Spells(ts, x, start, |x|)
    ensures AllCodable(ts) && start + Spans(ts) == |x| && (|x| - start < 216 ==> |Body(ts, 0)| + 3 < 256)
  {
    SmallEnough(ts, x, start);
  }

  // ---------------------------------------------------------------- the two sides

  /** Whether a packet still fits the streaming buffer behind the ones already there. */
  predicate Streams(counter: nat, size: nat) { counter + size <= STREAMING_BUFFER }

  /** qlz_state_compress */
  class Compressor {
    const stream: array<byte>
    const tables: Tables
    var counter: nat

    ghost predicate Valid()
      reads this, stream, tables, tables.offset, tables.counter
    {
      stream.Length == STREAMING_BUFFER && counter <= STREAMING_BUFFER && tables.Valid(counter)
    }

    ghost function Recent(size: nat): (x: seq<byte>)
      requires Valid()
      reads this, stream, tables, tables.offset, tables.counter
    {
      if Streams(counter, size) then stream[..counter] else []
    }

    /** What has been entered when a packet of this size is compressed. */
    ghost function Known(size: nat): (e: Entries)
      reads this, tables
    {
      if Streams(counter, size) then tables.entered else NoEntries()
    }

    constructor ()
      ensures Valid() && counter == 0 && fresh(stream) && fresh(tables) && fresh(tables.offset) && fresh(tables.counter)
    {
      stream := new byte[STREAMING_BUFFER];
      tables := new Tables();
      counter := 0;
    }

    /** qlz_compress: an empty or too large source gives no packet. */
    method Compress(source: seq<byte>) returns (p: seq<byte>, ghost ts: seq<Token>)
      requires Valid()
      modifies this`counter, stream, tables.offset, tables.counter, tables`entered
      ensures Valid()
      ensures !(0 < |source| <= MAX_SIZE) ==> p == [] && counter == old(counter) && stream[..] == old(stream[..])
      ensures 0 < |source| <= MAX_SIZE ==>
        var recent := old(Recent(|source|));
        Carries(p, recent + source, |recent|, LEVEL, STREAMING_MODE)
      ensures 0 < |source| <= MAX_SIZE && Streams(old(counter), |source|) ==>
        counter == old(counter) + |source| && stream[..counter] == old(stream[..counter]) + source
      ensures 0 < |source| <= MAX_SIZE && !Streams(old(counter), |source|) ==> counter == 0
      ensures 0 < |source| <= MAX_SIZE ==>
        var recent, e := old(Recent(|source|)), old(Known(|source|));
        && Parse(e, ts, recent + source, |recent|) && Packed(p, ts, recent + source, |recent|)
        && tables.entered ==
           if Streams(old(counter), |source|) && p[0] % 2 == 1 then EnteredBy(e, ts, recent + source, |recent|)
           else NoEntries()
    {
      hide Carries, Packed, Parse, EnteredBy;
      p, ts := [], [];
      if |source| == 0 || |source| > MAX_SIZE {
        return;
      }
      if counter + |source| - 1 >= STREAMING_BUFFER {
        tables.Reset();
        p, ts := Pack(source, 0, tables);
        tables.Reset();
        counter := 0;
        assert [] + source == source;
      } else {
        Store(stream, counter, source);
        p, ts := Pack(stream[..counter + |source|], counter, tables);
        assert stream[..counter + |source|] == stream[..counter] + source;
        if p[0] % 2 == 0 {
          tables.Reset();
        }
        counter := counter + |source|;
      }
    }
  }

  /** qlz_state_decompress */
  class Decompressor {
    const stream: array<byte>
    var counter: nat

    ghost predicate Valid()
      reads this, stream
    {
      stream.Length == STREAMING_BUFFER && counter <= STREAMING_BUFFER
    }

    ghost function Recent(size: nat): (x: seq<byte>)
      requires Valid()
      reads this, stream
    {
      if Streams(counter, size) then stream[..counter] else []
    }

    constructor ()
      ensures Valid() && counter == 0 && fresh(stream)
    {
      stream := new byte[STREAMING_BUFFER];
      counter := 0;
    }

    /** qlz_decompress */
    method Decompress(p: seq<byte>, ghost x: seq<byte>) returns (y: seq<byte>)
      requires Valid()
      requires var recent := Recent(|x|); Carries(p, recent + x, |recent|, LEVEL, STREAMING_MODE)
      modifies this`counter, stream
      ensures Valid() && y == x
      ensures Streams(old(counter), |x|) ==>
        counter == old(counter) + |x| && stream[..counter] == old(stream[..counter]) + x
      ensures !Streams(old(counter), |x|) ==> counter == 0
    {
      hide Carries;
      CarriesSizes(p, Recent(|x|) + x, |Recent(|x|)|);
      var dsiz := SizeDecompressed(p);
      if counter + dsiz - 1 >= STREAMING_BUFFER {
        assert [] + x == x;
        var destination := new byte[dsiz];
        Unpack(p, destination, 0, dsiz, x);
        y := destination[..dsiz];
        counter := 0;
      } else {
        ghost var whole := stream[..counter] + x;
        Unpack(p, stream, counter, counter + dsiz, whole);
        y := stream[counter..counter + dsiz];
        assert whole[counter..] == x;
        counter := counter + dsiz;
      }
    }
  }

  lemma CarriesSizes(p: seq<byte>, x: seq<byte>, start: nat)
    requires Carries(p, x, start, LEVEL, STREAMING_MODE)
    ensures |p| >= MIN_PACKED && SizeDecompressed(p) == |x| - start > 0
  {
  }

  /** Either form of a packet's body into out[start..end]. */
  method Unpack(p: seq<byte>, out: array<byte>, start: nat, end: nat, ghost x: seq<byte>)
    requires Carries(p, x, start, LEVEL, STREAMING_MODE)
    requires |x| == end <= out.Length && out[..start] == x[..start]
    modifies out
    ensures out[..end] == x
  {
    hide Spells, Body, SizeCompressed, SizeDecompressed;
    if p[0] % 2 == 1 {
      ghost var ts :| Compressed(p, ts, x, start);
      DecompressCore(p, SizeHeader(p), out, start, end, ts, x);
    } else {
      ghost var o := out[..start];
      Store(out, start, p[SizeHeader(p)..SizeHeader(p) + (end - start)]);
      assert out[..end] == out[..start] + out[start..end];
      assert x == x[..start] + x[start..];
    }
  }

  /** Every packet of a session arrives as it was sent. */
  method Session(messages: seq<seq<byte>>) returns (received: seq<seq<byte>>)
    requires forall i :: 0 <= i < |messages| ==> 0 < |messages[i]| <= MAX_SIZE
    ensures received == messages
  {
    hide Carries, Packed, Parse, EnteredBy;
    var c: Compressor := new Compressor();
    var d: Decompressor := new Decompressor();
    received := [];
    var i := 0;
    while i < |messages|
      invariant 0 <= i <= |messages| && received == messages[..i]
      invariant c.Valid() && d.Valid() && c.counter == d.counter
      invariant c.stream[..c.counter] == d.stream[..d.counter]
    {
      var p, ts := c.Compress(messages[i]);
      var y := d.Decompress(p, messages[i]);
      received := received + [y];
      i := i + 1;
    }
  }
}
