/** QuickLZ level 1 as its callers see it: one buffer to one packet and back. */
module QuickLz1Packets {
  import opened Bytes
  import opened QuickLz
  import opened QuickLzPacker
  import opened QuickLzCompress
  import opened QuickLz1Parse
  import opened QuickLz1

  const NO_STREAMING := 0

  ghost predicate Compressed(p: seq<byte>, ts: seq<Token>, x: seq<byte>) {
    && p != [] && |p| >= SizeHeader(p) + MIN_PACKED
    && Spells1(ts, x) && Reads(p, SizeHeader(p), Body(ts, 0))
  }

  /** Packet p stands for x, coded or as it is. */
  ghost predicate Carries(p: seq<byte>, x: seq<byte>) {
    && x != [] && MIN_PACKED <= |p| <= |x| + SLACK
    && SizeCompressed(p) == |p| && SizeDecompressed(p) == |x|
    && p[0] / 4 % 4 == LEVEL && p[0] / 16 % 4 == NO_STREAMING
    && if p[0] % 2 == 1 then exists ts :: Compressed(p, ts, x) else Reads(p, SizeHeader(p), x)
  }

  /** The packet of a parse: its stream when it reached the end of the source, the source itself when it gave up. */
  ghost predicate Packed(p: seq<byte>, ts: seq<Token>, x: seq<byte>) {
    && p != [] && (p[0] % 2 == 1 <==> Spans(ts) == |x|)
    && if Spans(ts) == |x| then
         && Compressed(p, ts, x)
         && |p| == SizeHeader(p) + (if |Body(ts, 0)| < MIN_PACKED then MIN_PACKED else |Body(ts, 0)|)
       else TooLong(ts, x, 0) && |p| == SizeHeader(p) + |x|
  }

  /** qlz_compress: an empty or too large source gives no packet, any other that of its parse. */
  method Compress(source: seq<byte>, state: State) returns (p: seq<byte>, ghost ts: seq<Token>)
    requires state.Valid()
    modifies state.cache, state.offset
    ensures if 0 < |source| <= MAX_SIZE then Carries(p, source) else p == []
    ensures 0 < |source| <= MAX_SIZE ==> Parse(ts, source) && Packed(p, ts, source)
  {
    hide Body, Parse, TooLong, Spells1, GaveUp, HeaderByte, SizeCompressed, SizeDecompressed, Covers;
    p, ts := [], [];
    if |source| == 0 || |source| > MAX_SIZE {
      return;
    }
    var size: nat := |source|;
    var base := Base(size);
    var out := new byte[size + SLACK];
    state.Reset();
    var n;
    n, ts := CompressCore(source, state, out, base);
    var r: nat, compressed: bit := base + n, 1;
    if n == 0 {
      GaveUpLate(ts, source, 0);
      Store(out, base, source);
      r, compressed := size + base, 0;
    } else {
      SpelledSmall(ts, source);
    }
    ghost var o := out[..];
    WriteHeader(out, size, r, compressed, LEVEL, NO_STREAMING);
    p := out[..r];
    Headed(o, out[..], r, base, if n == 0 then source else Body(ts, 0));
    assert n != 0 ==> Compressed(p, ts, source);
  }

  lemma SpelledSmall(ts: seq<Token>, x: seq<byte>)
    requires x != [] && Spells1(ts, x)
    ensures AllCodable(ts) && Spans(ts) == |x| && (|x| < 216 ==> |Body(ts, 0)| + 3 < 256)
  {
    SmallEnough(ts, x, 0);
  }

  /** qlz_decompress; the table's contents do not matter. */
  method Decompress(p: seq<byte>, table: array<nat>, ghost x: seq<byte>) returns (y: seq<byte>)
    requires Carries(p, x) && table.Length == HASH_VALUES
    modifies table
    ensures y == x
  {
    hide Spells1, Body, SizeCompressed, SizeDecompressed;
    var dsiz := SizeDecompressed(p);
    var destination := new byte[dsiz];
    if p[0] % 2 == 1 {
      ghost var ts :| Compressed(p, ts, x);
      DecompressCore(p, SizeHeader(p), destination, dsiz, table, ts, x);
    } else {
      Store(destination, 0, p[SizeHeader(p)..SizeHeader(p) + dsiz]);
    }
    y := destination[..dsiz];
  }

  /** decompress(compress(x)) == x, whatever the tables held before. */
  method RoundTrip(x: seq<byte>) returns (y: seq<byte>)
    requires 0 < |x| <= MAX_SIZE
    ensures y == x
  {
    hide Carries;
    var state: State := new State();
    var table := new nat[HASH_VALUES];
    var p, ts := Compress(x, state);
    y := Decompress(p, table, x);
  }
}
