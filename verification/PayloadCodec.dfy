/**
 The routines that build and take apart a stored item, changing payload and flags in place,
 proved against the functions of module Payload.
 */
module PayloadCodec {
  import opened Basics
  import opened CNumbers
  import opened PayloadFlags
  import opened Payload
  import FastLz
  import FastLzDecoder
  import GFmt

  /** The payload and flag word a caller is assembling. */
  class Item {
    var payload: seq<Byte>
    var flags: bv32

    function Contents(): Stored
      reads this
    {
      Stored(payload, flags)
    }

    constructor ()
      ensures payload == [] && flags == 0
    {
      payload, flags := [], 0;
    }

    method Squash<F, T>(env: Env<F, T>, compression: CompressionType, level: int, factor: real) returns (done: bool)
      requires |payload| <= INT_MAX
      modifies this
      ensures Contents() == Shrink(env, compression, level, factor, old(Contents()))
      ensures done == Squeeze(env, compression, level, factor, old(payload)).Some?
      ensures !done ==> payload == old(payload) && flags == old(flags)
    {
      hide Attempt, SetInternal, Length32;
      var originalSize := |payload|;
      var compressed, typeFlag;
      done, compressed, typeFlag := TryCompress(env, compression, level, payload);
      if |payload| as real <= |compressed| as real * factor {
        done := false;
      }
      if done {
        flags := SetInternal(flags, COMPRESSED | typeFlag);
        payload := Length32(originalSize) + compressed;
      }
    }

    /**
     Replaces the payload by a compressed copy behind its length, or leaves everything as it was: just
     when the algorithm produces a copy that the payload is more than `factor` times as long as.
     */
    method CompressValue<F, T>(env: Env<F, T>, compression: CompressionType, level: int, factor: real) returns (done: bool)
      requires |payload| <= INT_MAX
      modifies this
      ensures Compressed(env, compression, level, factor, old(Contents()), Contents())
      ensures done <==> exists c, bit :: Pays(env, compression, level, factor, old(payload), c, bit)
      ensures !done ==> payload == old(payload) && flags == old(flags)
      ensures Contents() == Shrink(env, compression, level, factor, old(Contents()))
    {
      hide Compressed, Pays, Shrink, Squeeze;
      ShrinkExact(env, compression, level, factor, Contents());
      done := Squash(env, compression, level, factor);
    }

    /** Fills in the bytes and type of a value; false when its serializer fails. */
    method SetRaw<F(!new), T>(env: Env<F, T>, serializer: Serializer, v: Value<F, T>) returns (ok: bool, compressible: bool)
      requires SoundFloats(env)
      modifies this
      ensures match RawOf(env, serializer, v)
              case None => !ok && payload == old(payload) && flags == old(flags)
              case Some(raw) => ok && payload == raw.bytes && flags == SetType(old(flags), raw.code) && compressible == raw.compressible
    {
      ok, compressible := true, false;
      match v {
        case Str(bytes) =>
          payload, flags, compressible := bytes, SetType(flags, IS_STRING), true;
        case Long(n) =>
          PrintLongAscii(n);
          payload, flags := BytesOf(PrintLong(n)), SetType(flags, IS_LONG);
        case Double(f) =>
          var d := env.dtoa(f);
          assert DigitsRoundBack(env, f);
          var text := PrintFloat(d.negative, d.digits, d.point);
          AsciiDigits(d.digits);
          FloatTextAscii(d.negative, d.digits, d.point);
          payload, flags := BytesOf(text), SetType(flags, IS_DOUBLE);
        case Infinity(negative) =>
          var text := PrintFloat(negative, "Infinity", GFmt.SPECIAL);
          FloatTextAscii(negative, "Infinity", GFmt.SPECIAL);
          payload, flags := BytesOf(text), SetType(flags, IS_DOUBLE);
        case NaN =>
          var text := PrintFloat(false, "NaN", GFmt.SPECIAL);
          FloatTextAscii(false, "NaN", GFmt.SPECIAL);
          payload, flags := BytesOf(text), SetType(flags, IS_DOUBLE);
        case Bool(b) =>
          payload, flags := if b then [49] else [], SetType(flags, IS_BOOL);
        case Complex(t) =>
          var bytes := env.serialize(serializer, t);
          if bytes.None? {
            return false, false;
          }
          payload, flags, compressible := bytes.value, SetType(flags, CodeOf(serializer)), true;
      }
    }

    /** Turns a value into payload and flags under the connection's options; `flags` starts at zero. */
    method ZvalToPayload<F(!new), T>(env: Env<F, T>, options: Options, v: Value<F, T>) returns (ok: bool)
      requires SoundFloats(env) && flags == 0
      requires RawOf(env, options.serializer, v).Some? ==> |RawOf(env, options.serializer, v).value.bytes| <= INT_MAX
      modifies this
      ensures match RawOf(env, options.serializer, v)
              case None => !ok && payload == old(payload) && flags == 0
              case Some(raw) => ok && Contents() == Encode(env, options, raw)
      ensures !ok <==> v.Complex? && env.serialize(options.serializer, v.t).None?
      ensures ok && LONG_MIN <= options.threshold <= LONG_MAX && (options.user.Some? ==> options.user.value <= 0xFFFF) ==>
                exists raw :: RawIs(env, options.serializer, v, raw) && |raw.bytes| <= INT_MAX && StoredAs(env, options, raw, Contents())
    {
      ZvalExact(env, options, v);
      hide RawOf, Shrink, SetType, SetInternal, SetUser, RawIs, StoredAs;
      var shouldCompress := options.compress;
      var compressible;
      ok, compressible := SetRaw(env, options.serializer, v);
      if !ok {
        return;
      }
      if !compressible {
        shouldCompress := false;
      }
      if |payload| == 0 || |payload| < options.threshold % (UINT64_MAX + 1) {
        shouldCompress := false;
      }
      if shouldCompress {
        var _ := CompressValue(env, options.compression, options.level, options.factor);
      }
      if options.user.Some? {
        flags := SetUser(flags, options.user.value);
      }
    }
  }

  /** One attempt by the chosen algorithm, into a buffer five per cent larger than the payload. */
  method TryCompress<F, T>(env: Env<F, T>, compression: CompressionType, level: int, x: seq<Byte>)
    returns (done: bool, compressed: seq<Byte>, typeFlag: bv32)
    requires |x| <= INT_MAX
    ensures match Attempt(env, compression, level, x)
            case None => !done
            case Some(c) => done && compressed == c.bytes && typeFlag == c.bit
  {
    done, compressed, typeFlag := false, [], 0;
    var bufferSize := Room(|x|);
    match compression {
      case Fastlz =>
        var buffer := new Byte[bufferSize];
        var n, _ := FastLz.Compress(x, env.pad, env.hash, buffer);
        compressed := buffer[..n];
        if n > 0 {
          done, typeFlag := true, COMPRESSION_FASTLZ;
        }
      case Zstd =>
        if env.haveZstd {
          var c := env.zstd(level, x, bufferSize);
          if c.Some? {
            compressed, done, typeFlag := c.value, true, COMPRESSION_ZSTD;
          }
        }
      case Zlib =>
        var clamped := level;
        if clamped < 0 {
          clamped := 0;
        } else if clamped > 9 {
          clamped := 9;
        }
        var c := env.zlib(clamped, x, bufferSize);
        if c.Some? {
          compressed, done, typeFlag := c.value, true, COMPRESSION_ZLIB;
        }
      case Unknown =>
    }
  }

  /** The float text, printed through the caller's 40-byte buffer. */
  method PrintFloat(negative: bool, digits: string, point: int) returns (text: string)
    requires digits != "" && |digits| <= 17 && (point != GFmt.SPECIAL ==> -999 < point <= 1000)
    ensures text == GFmt.Text(negative, digits, point)
  {
    GFmt.TextSize(negative, digits, point);
    var buffer := new char[40];
    var n := GFmt.Format(buffer, negative, digits, point);
    text := buffer[..n];
  }

  /**
   Undoes CompressValue. The buffer has the stored length whatever the decoder wrote, so a
   stream that decodes to less leaves the rest of it as it was allocated.
   */
  method Undo<F, T(!new)>(env: Env<F, T>, payload: seq<Byte>, flags: bv32, behind: seq<Byte>, strictAlign: bool)
    returns (r: Option<seq<Byte>>)
    requires SoundCodecs(env)
    ensures Inflates(env, payload, flags, behind, r)
  {
    if |payload| < 4 {
      return None;
    }
    var isFastlz := HasInternal(flags, COMPRESSION_FASTLZ);
    var isZstd := HasInternal(flags, COMPRESSION_ZSTD);
    var isZlib := HasInternal(flags, COMPRESSION_ZLIB);
    if isZstd && !env.haveZstd {
      return None;
    }
    if !isFastlz && !isZlib && !isZstd {
      return None;
    }
    var storedLength, body := ReadLength32(payload), payload[4..];
    if isZlib && !isZstd && !isFastlz {
      return env.unzlib(body, storedLength);
    }
    var buffer := new Byte[storedLength];
    if isZstd {
      var frame := env.zstdFrame(body);
      if frame.NotZstd? {
        return None;
      } else if frame.NotRecorded? {
        return None;
      }
      var v := env.unzstd(body, storedLength);
      if v.None? {
        return None;
      }
      r := Some(v.value + buffer[|v.value|..]);
    } else {
      var source := new FastLzDecoder.Source(body + behind);
      var length := FastLz.Decompress(source, |body|, buffer, AsInt(storedLength), strictAlign);
      if length == 0 {
        return None;
      }
      r := Some(buffer[..]);
    }
  }

  /** Undoing the compression, in terms of the flag bits and the four length bytes alone. */
  method DecompressValue<F, T(!new)>(env: Env<F, T>, payload: seq<Byte>, flags: bv32, behind: seq<Byte>, strictAlign: bool)
    returns (r: Option<seq<Byte>>)
    requires SoundCodecs(env)
    ensures |payload| < 4 ==> r == None
    ensures |payload| >= 4 ==> exists stored :: IsLength(payload, stored) && UndoneBy(env, payload, flags, behind, stored, r)
    ensures Inflates(env, payload, flags, behind, r)
  {
    r := Undo(env, payload, flags, behind, strictAlign);
    if |payload| >= 4 {
      ReadLengthIs(payload);
      InflatesExact(env, payload, flags, behind, r);
    }
    hide UndoneBy, IsLength;
  }

  lemma CompressedFlag(flags: bv32)
    ensures HasInternal(flags, COMPRESSED) <==> flags & 0x10 != 0
    ensures GetType(flags) == flags & 0xF
  {
  }

  /** The value of a fetched item, or None when it cannot be decoded. */
  method ResultToZval<F, T(!new)>(env: Env<F, T>, s: Stored, behind: seq<Byte>, strictAlign: bool)
    returns (r: Option<Value<F, T>>, ghost data: Option<seq<Byte>>)
    requires SoundCodecs(env)
    ensures Unwraps(env, s, behind, data) && r == InterpretAll(env, s, data)
    ensures s.flags & 0x10 == 0 ==> data == Some(s.payload)
    ensures data.None? ==> r == None
    ensures data.Some? ==> Means(env, |s.payload|, s.flags & 0xF, data.value, r)
  {
    hide Means;
    CompressedFlag(s.flags);
    var bytes;
    if HasInternal(s.flags, COMPRESSED) {
      bytes := DecompressValue(env, s.payload, s.flags, behind, strictAlign);
    } else {
      bytes := Some(s.payload);
    }
    data := bytes;
    if bytes.None? {
      return None, data;
    }
    r := Interpret(env, |s.payload|, GetType(s.flags), bytes.value);
    InterpretExact(env, |s.payload|, GetType(s.flags), bytes.value);
  }

  /** Storing a value and fetching it back, end to end. */
  method StoreAndFetch<F(!new), T(!new)>(env: Env<F, T>, options: Options, v: Value<F, T>, behind: seq<Byte>, strictAlign: bool)
    returns (stored: bool, fetched: Option<Value<F, T>>, user: bv32)
    requires Sound(env)
    requires RawOf(env, options.serializer, v).Some? ==> |RawOf(env, options.serializer, v).value.bytes| <= INT_MAX
    requires options.user.Some? ==> options.user.value <= 0xFFFF
    ensures stored == RawOf(env, options.serializer, v).Some?
    ensures stored ==> fetched == Some(v)
    ensures stored ==> user == (if options.user.Some? then options.user.value else 0)
  {
    hide Unwraps, InterpretAll, Encode, RawOf;
    var item := new Item();
    stored := item.ZvalToPayload(env, options, v);
    fetched, user := None, 0;
    if stored {
      ghost var data;
      fetched, data := ResultToZval(env, item.Contents(), behind, strictAlign);
      user := GetUser(item.flags);
      ValueRoundTrip(env, options, v, behind, data);
    }
  }
}
