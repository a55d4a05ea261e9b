/** FPC files: blocks behind their two sizes, read back to the original bytes. */
module FpcFile {
  import opened Bytes
  import opened FpcBase
  import opened FpcTables
  import opened FpcHeader
  import opened FpcEncoder
  import opened FpcDecoder
  import opened FpcBlock

  /** FPC_decompress_block: out[at..at + size] becomes the block's bytes; false for a bad block. */
  method DecompressBlock(out: array<byte>, at: nat, size: nat, b: seq<byte>, ghost x: seq<byte>) returns (ok: bool)
    requires |x| == size && at + size <= out.Length && BlockOf(b, x)
    modifies out
    ensures ok && out[at..at + size] == x
    ensures out[..at] == old(out[..at]) && out[at + size..] == old(out[at + size..])
  {
    hide CodedBlock;
    if |b| == 1 {
      FillBytes(out, at, size, b[0]);
      ok := true;
    } else if |b| == size {
      CopyBytes(out, at, b);
      ok := true;
    } else {
      ghost var lens :| CodedBlock(b, x, lens);
      ok := DecodeBlock(out, at, size, b, lens, x);
    }
  }

  method DecodeBlock(out: array<byte>, at: nat, size: nat, b: seq<byte>, ghost lens: seq<byte>, ghost x: seq<byte>)
    returns (ok: bool)
    requires |x| == size && at + size <= out.Length && CodedBlock(b, x, lens)
    modifies out
    ensures ok && out[at..at + size] == x
    ensures out[..at] == old(out[..at]) && out[at + size..] == old(out[at + size..])
  {
    hide Pack, Describe, StreamBits, Placed, Start;
    var lookup := new Dnode[TABLE](_ => Dnode(0, 0));
    var bitLen := new byte[SYMBOLS](_ => 0);
    var used := ReadPrefixDescr(b, 0, |b|, bitLen, lens);
    ok := used != 0;
    if ok {
      ghost var writes;
      ok, writes := ConstructDecTable(bitLen[..], lookup);
      if ok {
        ok := PrefixCodesDecode(out, at, size, b, used, |b|, lookup, lens, x, writes);
      }
    }
  }

  method FillBytes(out: array<byte>, at: nat, n: nat, v: byte)
    requires at + n <= out.Length
    modifies out
    ensures forall i :: at <= i < at + n ==> out[i] == v
    ensures out[..at] == old(out[..at]) && out[at + n..] == old(out[at + n..])
  {
    var k := 0;
    while k < n
      invariant k <= n && forall i :: at <= i < at + k ==> out[i] == v
      invariant out[..at] == old(out[..at]) && out[at + n..] == old(out[at + n..])
    {
      out[at + k] := v;
      k := k + 1;
    }
  }

  method CopyBytes(out: array<byte>, at: nat, b: seq<byte>)
    requires at + |b| <= out.Length
    modifies out
    ensures out[at..at + |b|] == b
    ensures out[..at] == old(out[..at]) && out[at + |b|..] == old(out[at + |b|..])
  {
    var k := 0;
    while k < |b|
      invariant k <= |b| && out[at..at + k] == b[..k]
      invariant out[..at] == old(out[..at]) && out[at + |b|..] == old(out[at + |b|..])
    {
      out[at + k] := b[k];
      assert out[at..at + k + 1] == out[at..at + k] + [b[k]];
      k := k + 1;
    }
    assert b[..|b|] == b;
  }

  // ---------------------------------------------------------------- frames

  /** A block with the bytes it stands for. */
  datatype Frame = Frame(block: seq<byte>, data: seq<byte>)

  ghost predicate FrameOk(f: Frame) {
    BlockOf(f.block, f.data) && |f.block| <= |f.data| <= U16MAX
  }

  /** A frame as the compressor makes it. */
  ghost predicate FrameMade(f: Frame) { FrameOk(f) && Encoded(f.block, f.data) }

  function FrameBytes(f: Frame): (b: seq<byte>) { Bytes2(|f.data|) + Bytes2(|f.block|) + f.block }

  function FileBytes(fs: seq<Frame>): (b: seq<byte>)
  {
    if fs == [] then [] else FrameBytes(fs[0]) + FileBytes(fs[1..])
  }

  function FileData(fs: seq<Frame>): (x: seq<byte>)
  {
    if fs == [] then [] else fs[0].data + FileData(fs[1..])
  }

  lemma {:induction false} FileSnoc(fs: seq<Frame>, f: Frame)
    ensures FileBytes(fs + [f]) == FileBytes(fs) + FrameBytes(f)
    ensures FileData(fs + [f]) == FileData(fs) + f.data
  {
    hide FrameBytes;
    if fs == [] {
      assert fs + [f] == [f] && [f][1..] == [];
      assert FileBytes([f]) == FrameBytes(f) + [] && FileData([f]) == f.data + [];
    } else {
      assert (fs + [f])[1..] == fs[1..] + [f];
      FileSnoc(fs[1..], f);
      assert FileBytes(fs + [f]) == FrameBytes(fs[0]) + (FileBytes(fs[1..]) + FrameBytes(f));
      assert FileData(fs + [f]) == fs[0].data + (FileData(fs[1..]) + f.data);
    }
  }

  /** s is a file of x: frames that stand for its bytes in order, none of them empty unless x is. */
  ghost predicate FileOf(s: seq<byte>, x: seq<byte>) {
    exists fs: seq<Frame> :: IsFile(fs, s, x)
  }

  ghost predicate IsFile(fs: seq<Frame>, s: seq<byte>, x: seq<byte>) {
    && FileBytes(fs) == s && FileData(fs) == x
    && forall i :: 0 <= i < |fs| ==> FrameOk(fs[i]) && (x != [] ==> fs[i].data != [])
  }

  /** block_encode */
  method BlockEncode(x: seq<byte>) returns (b: seq<byte>, ghost f: Frame)
    requires |x| <= U16MAX
    ensures b == FrameBytes(f) && f.data == x && FrameMade(f)
  {
    hide BlockOf, EncodedWith, Bytes2;
    var block, lens, p, q := CompressBlock(x);
    b := Bytes2(|x|) + Bytes2(|block|) + block;
    f := Frame(block, x);
  }

  /** All blocks are bsize bytes long but the last, which may be shorter. */
  ghost predicate SizedFrames(fs: seq<Frame>, bsize: nat) {
    && (forall i :: 0 <= i < |fs| ==> FrameMade(fs[i]) && 0 < |fs[i].data| <= bsize)
    && forall i :: 0 <= i < |fs| - 1 ==> |fs[i].data| == bsize
  }

  /** FPC_compress with blocks of a fixed size. */
  method CompressFixed(x: seq<byte>, bsize: nat) returns (out: seq<byte>, ghost fs: seq<Frame>)
    requires 1 <= bsize <= U16MAX
    ensures IsFile(fs, out, x) && SizedFrames(fs, bsize)
  {
    hide FrameOk, Encoded, FrameBytes, FileBytes, FileData;
    out := [];
    var at := 0;
    fs := [];
    NoFrames();
    while at < |x|
      invariant at <= |x| && FileBytes(fs) == out && FileData(fs) == x[..at] && SizedFrames(fs, bsize)
      invariant at < |x| ==> forall i :: 0 <= i < |fs| ==> |fs[i].data| == bsize
    {
      var step := if |x| - at < bsize then |x| - at else bsize;
      var b, f := BlockEncode(x[at..at + step]);
      FileSnoc(fs, f);
      assert x[..at] + x[at..at + step] == x[..at + step];
      out := out + b;
      fs := fs + [f];
      at := at + step;
    }
    assert x[..at] == x;
  }

  lemma NoFrames()
    ensures FileBytes([]) == [] && FileData([]) == []
  {
  }

  /** What a reader needs of the first frame. */
  lemma FirstFrame(fs: seq<Frame>, s: seq<byte>, x: seq<byte>)
    requires fs != [] && FrameOk(fs[0]) && FileBytes(fs) == s && FileData(fs) == x
    ensures |s| >= 4 + |fs[0].block| && Short(s, 0) == |fs[0].data| && Short(s, 2) == |fs[0].block|
    ensures s[4..4 + |fs[0].block|] == fs[0].block && s[4 + |fs[0].block|..] == FileBytes(fs[1..])
    ensures |x| >= |fs[0].data| && x == fs[0].data + FileData(fs[1..])
  {
    hide Bytes2, BlockOf;
    var f := fs[0];
    TwoLong(|f.data|);
    TwoLong(|f.block|);
    assert s[0..2] == Bytes2(|f.data|) && s[2..4] == Bytes2(|f.block|);
    ShortBack(s, 0, |f.data|);
    ShortBack(s, 2, |f.block|);
  }

  /** FPC_decompress: the number of bytes restored. */
  method Decompress(output: array<byte>, maxOutput: nat, input: seq<byte>, ghost x: seq<byte>) returns (n: nat)
    requires |x| <= maxOutput == output.Length && FileOf(input, x)
    modifies output
    ensures n == |x| && output[..n] == x
  {
    hide FrameOk, FrameBytes, FileBytes, FileData, IsFile;
    ghost var fs: seq<Frame> :| IsFile(fs, input, x);
    var at: nat, s: seq<byte> := 0, input;
    ghost var left := x;
    Opened(fs, input, x);
    while at < maxOutput && |s| >= 4
      invariant at + |left| == |x| && output[..at] + left == x
      invariant FileBytes(fs) == s && FileData(fs) == left
      invariant forall i :: 0 <= i < |fs| ==> FrameOk(fs[i]) && (x != [] ==> fs[i].data != [])
      decreases |s|
    {
      FramesLeft(fs, s);
      var d, e := DecompressFrame(output, at, s, fs, left);
      Regroup(output[..at], output[at..at + d], FileData(fs[1..]));
      assert output[..at + d] == output[..at] + output[at..at + d];
      left := FileData(fs[1..]);
      at := at + d;
      s := s[4 + e..];
      fs := fs[1..];
    }
    AllRead(fs, s, left, x, at, maxOutput);
    if |s| != 0 {
      return 0;
    }
    n := at;
  }

  /** One block with its two sizes in front: how many bytes it stands for and how many it takes. */
  method DecompressFrame(output: array<byte>, at: nat, s: seq<byte>, ghost fs: seq<Frame>, ghost left: seq<byte>)
    returns (d: nat, e: nat)
    requires fs != [] && FileBytes(fs) == s && FileData(fs) == left && FrameOk(fs[0]) && |s| >= 4
    requires at + |left| <= output.Length
    modifies output
    ensures d <= |left| && 4 + e <= |s| && output[..at] == old(output[..at])
    ensures output[at..at + d] + FileData(fs[1..]) == left && FileBytes(fs[1..]) == s[4 + e..]
  {
    hide FrameOk, FrameBytes, FileBytes, FileData, BlockOf, Short;
    FirstFrame(fs, s, left);
    FramePart(fs[0]);
    d, e := Short(s, 0), Short(s, 2);
    // The checks for a bad input: on a file neither fires.
    assert 4 + e <= |s| && at + d <= output.Length;
    var ok := DecompressBlock(output, at, d, s[4..4 + e], fs[0].data);
    assert ok;
  }

  lemma Opened(fs: seq<Frame>, s: seq<byte>, x: seq<byte>)
    requires IsFile(fs, s, x)
    ensures FileBytes(fs) == s && FileData(fs) == x
    ensures forall i :: 0 <= i < |fs| ==> FrameOk(fs[i]) && (x != [] ==> fs[i].data != [])
  {
    hide FrameOk, FileBytes, FileData;
  }

  lemma FramesLeft(fs: seq<Frame>, s: seq<byte>)
    requires FileBytes(fs) == s
    ensures fs != [] <==> |s| >= 4
    ensures fs == [] ==> s == []
  {
    if fs != [] {
      TwoLong(|fs[0].data|);
      TwoLong(|fs[0].block|);
    }
  }

  lemma FramePart(f: Frame)
    requires FrameOk(f)
    ensures BlockOf(f.block, f.data)
  {
    hide BlockOf;
  }

  /** Reading stops with everything read, or with an empty block of an empty file left over. */
  lemma AllRead(fs: seq<Frame>, s: seq<byte>, left: seq<byte>, x: seq<byte>, at: nat, max: nat)
    requires FileBytes(fs) == s && FileData(fs) == left && at + |left| == |x| <= max
    requires forall i :: 0 <= i < |fs| ==> (x != [] ==> fs[i].data != [])
    requires at >= max || |s| < 4
    ensures left == [] && (x != [] ==> s == [])
  {
    FramesLeft(fs, s);
  }
}
