/** The public FastLZ functions: level choice, level detection, and the round trip. */
module FastLz {
  import opened Basics
  import opened Lz77
  import opened FastLzFormat
  import opened FastLzScan
  import opened FastLzSize
  import Size = FastLzSize
  import Compressor = FastLzCompressor
  import Decoder = FastLzDecoder

  function LevelFor(length: nat): Level {
    if length < 65536 then One else Two
  }

  function Compressed(x: seq<Byte>, pad: Byte, hash: Hash): seq<Byte>
    requires |x| <= INT_MAX
  {
    Compressor.Compressed(LevelFor(|x|), x, pad, hash)
  }

  /** The level is the top three bits of the first byte plus one; only levels 1 and 2 exist. */
  function Decompressed(mem: seq<Byte>, length: nat, maxout: int): Option<seq<Byte>>
    requires length <= |mem|
  {
    var level := ByteAt(mem, 0) / 32 + 1;
    if level == 1 then Decoder.Decode(One, mem, length, maxout)
    else if level == 2 then Decoder.Decode(Two, mem, length, maxout)
    else None
  }

  method Compress(x: seq<Byte>, pad: Byte, hash: Hash, output: array<Byte>) returns (n: nat, ghost past: bool)
    requires |x| <= INT_MAX && output.Length >= Bound(|x|)
    modifies output
    ensures n == |Compressed(x, pad, hash)| <= output.Length && output[..n] == Compressed(x, pad, hash)
    ensures |x| < 65536 ==> output[..n] == Compressor.Compressed(One, x, pad, hash) && past == ReadsPast(One, x, pad, hash)
    ensures |x| >= 65536 ==> output[..n] == Compressor.Compressed(Two, x, pad, hash) && past == ReadsPast(Two, x, pad, hash)
  {
    if |x| < 65536 {
      n, past := Compressor.Compress(One, x, pad, hash, output);
    } else {
      n, past := Compressor.Compress(Two, x, pad, hash, output);
    }
  }

  method CompressLevel(level: int, x: seq<Byte>, pad: Byte, hash: Hash, output: array<Byte>) returns (n: nat, ghost past: bool)
    requires |x| <= INT_MAX && output.Length >= Bound(|x|)
    modifies output
    ensures level == 1 ==> n == |Compressor.Compressed(One, x, pad, hash)| <= output.Length && output[..n] == Compressor.Compressed(One, x, pad, hash)
    ensures level == 2 ==> n == |Compressor.Compressed(Two, x, pad, hash)| <= output.Length && output[..n] == Compressor.Compressed(Two, x, pad, hash)
    ensures level == 1 ==> past == ReadsPast(One, x, pad, hash)
    ensures level == 2 ==> past == ReadsPast(Two, x, pad, hash)
    ensures level != 1 && level != 2 ==> !past && n == 0 && output[..] == old(output[..])
  {
    if level == 1 {
      n, past := Compressor.Compress(One, x, pad, hash, output);
    } else if level == 2 {
      n, past := Compressor.Compress(Two, x, pad, hash, output);
    } else {
      n, past := 0, false;
    }
  }

  /** One past the last byte the decompressor reads; the first one is read whatever the length. */
  function Top(mem: seq<Byte>, length: nat, maxout: int): nat
    requires length <= |mem|
  {
    var level := ByteAt(mem, 0) / 32 + 1;
    if level == 1 then Decoder.Top(One, mem, length, maxout)
    else if level == 2 then Decoder.Top(Two, mem, length, maxout)
    else 1
  }

  /** Nothing is ever written outside the first `maxout` bytes, whatever the input. */
  method Decompress(source: Decoder.Source, length: nat, output: array<Byte>, maxout: int, strictAlign: bool) returns (n: nat)
    requires length <= |source.mem| && maxout <= output.Length
    modifies output, source
    ensures match Decompressed(source.mem, length, maxout)
            case None => n == 0
            case Some(v) => 0 < n == |v| <= maxout && output[..n] == v
    ensures ByteAt(source.mem, 0) >= 64 ==> n == 0
    ensures forall k :: Max(maxout, 0) <= k < output.Length ==> output[k] == old(output[k])
    ensures source.top == Max(old(source.top), Top(source.mem, length, maxout))
  {
    Decoder.DecodeNonEmpty(One, source.mem, length, maxout);
    Decoder.DecodeNonEmpty(Two, source.mem, length, maxout);
    var first := source.Get(0);
    var level := first / 32 + 1;
    if level == 1 {
      n := Decoder.Decompress(One, source, length, output, maxout, strictAlign);
    } else if level == 2 {
      n := Decoder.Decompress(Two, source, length, output, maxout, strictAlign);
    } else {
      n := 0;
    }
  }

  lemma NoRoom(mem: seq<Byte>, length: nat, maxout: int)
    requires length <= |mem| && maxout < 0
    ensures Decompressed(mem, length, maxout) == None && Top(mem, length, maxout) == 1
  {
    Decoder.NoRoom(One, mem, length, maxout);
    Decoder.NoRoom(Two, mem, length, maxout);
  }

  // ---------- the round trip ----------

  /**
   At either level, for every non-empty input, hash function and memory contents behind the
   stream: decoding gives back the input when there is room for it and is rejected when there is not.
   */
  lemma LevelRoundTrip(level: Level, x: seq<Byte>, pad: Byte, hash: Hash, mem: seq<Byte>, maxout: int)
    requires 0 < |x| <= INT_MAX
    requires Compressor.Compressed(level, x, pad, hash) <= mem
    ensures var c := Compressor.Compressed(level, x, pad, hash);
            var expected := if |x| <= maxout then Some(x) else None;
            && Decoder.Decode(level, mem, |c|, maxout) == expected
            && Decompressed(mem, |c|, maxout) == expected
  {
    var tokens := Tokens(level, x, pad, hash);
    var marked := level.Two? && |x| >= 4;
    TokensFaithful(level, x, pad, hash);
    OpensWithLiteral(level, x, pad, hash);
    ParseInverts(level, marked, mem, tokens);
    StreamShape(level, marked, tokens);
    assert mem[0] == Stream(level, marked, tokens)[0];
    if level.Two? && !marked {
      // Too short to be scanned: unmarked, but a single literal reads the same at both levels.
      assert tokens == [Literal(x)];
      assert Encodable(One, Literal(x));
      EncodeAllOne(One, Literal(x));
      EncodeAllOne(Two, Literal(x));
      ParseInverts(One, false, mem, tokens);
    }
  }

  lemma RoundTrip(x: seq<Byte>, pad: Byte, hash: Hash, mem: seq<Byte>)
    requires 0 < |x| <= INT_MAX
    requires Compressed(x, pad, hash) <= mem
    ensures 0 < |Compressed(x, pad, hash)| <= Bound(|x|)
    ensures Decompressed(mem, |Compressed(x, pad, hash)|, |x|) == Some(x)
  {
    var level := LevelFor(|x|);
    TokensSize(level, x, pad, hash);
    LevelRoundTrip(level, x, pad, hash, mem, |x|);
    OpensWithLiteral(level, x, pad, hash);
  }

  /** Only the empty input compresses to nothing, and nothing never decodes. */
  lemma EmptyStream(level: Level, x: seq<Byte>, pad: Byte, hash: Hash, mem: seq<Byte>, maxout: int)
    requires |x| <= INT_MAX
    ensures Compressor.Compressed(level, x, pad, hash) == [] <==> x == []
    ensures Decompressed(mem, 0, maxout) == None
  {
    TokensFaithful(level, x, pad, hash);
  }

  lemma OpensWithLiteral(level: Level, x: seq<Byte>, pad: Byte, hash: Hash)
    requires 0 < |x| <= INT_MAX
    ensures Tokens(level, x, pad, hash) != [] && Tokens(level, x, pad, hash)[0].Literal?
  {
    TokensFaithful(level, x, pad, hash);
    var t := Tokens(level, x, pad, hash)[0];
    assert Playable([], t);
  }

  /** The level shows in the first byte: 0 to 31 at level One, 32 more at level Two from four bytes on. */
  lemma FirstByte(level: Level, x: seq<Byte>, pad: Byte, hash: Hash)
    requires 0 < |x| <= INT_MAX
    ensures var c := Compressor.Compressed(level, x, pad, hash);
            && |c| > 0
            && (if level.Two? && |x| >= 4 then 32 <= c[0] < 64 else c[0] < 32)
            && (|x| < 4 ==> c == [|x| - 1] + x)
  {
    var tokens := Tokens(level, x, pad, hash);
    TokensFaithful(level, x, pad, hash);
    OpensWithLiteral(level, x, pad, hash);
    StreamShape(level, level.Two? && |x| >= 4, tokens);
    if |x| < 4 {
      EncodeAllOne(level, Literal(x));
    }
  }

  /** Equal bytes, for example, shrink to three bytes in 262, or one in 255 from 65536 bytes on. */
  lemma EqualBytesShrink(x: seq<Byte>, pad: Byte, hash: Hash)
    requires 15 <= |x| <= INT_MAX && AllEqual(x)
    ensures |Compressed(x, pad, hash)| <= 10 + (if |x| < 65536 then 3 * (|x| / 262) else |x| / 255)
  {
    Size.EqualBytesShrink(LevelFor(|x|), x, pad, hash);
  }

  /** Decoding a compressed stream reads nothing behind it, at either level and for any room. */
  lemma StreamReadsInside(level: Level, x: seq<Byte>, pad: Byte, hash: Hash, mem: seq<Byte>, maxout: int)
    requires 0 < |x| <= INT_MAX
    requires Compressor.Compressed(level, x, pad, hash) <= mem
    ensures var c := Compressor.Compressed(level, x, pad, hash);
            && AllInside(WholeWalk(level, mem, |c|), |c|)
            && Decoder.Top(level, mem, |c|, maxout) <= |c|
            && Top(mem, |c|, maxout) <= |c|
  {
    var tokens := Tokens(level, x, pad, hash);
    var marked := level.Two? && |x| >= 4;
    TokensFaithful(level, x, pad, hash);
    OpensWithLiteral(level, x, pad, hash);
    StreamWalkInside(level, marked, mem, tokens);
    StreamShape(level, marked, tokens);
    assert mem[0] == Stream(level, marked, tokens)[0];
    Decoder.ReadsInsideIff(level, mem, |Stream(level, marked, tokens)|, maxout);
    if level.Two? && !marked {
      assert tokens == [Literal(x)];
      assert Encodable(One, Literal(x));
      EncodeAllOne(One, Literal(x));
      EncodeAllOne(Two, Literal(x));
      StreamWalkInside(One, false, mem, tokens);
      Decoder.ReadsInsideIff(One, mem, |Stream(One, false, tokens)|, maxout);
    }
  }
}
