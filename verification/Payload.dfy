/**
 A PHP value as a stored item and back: the payload bytes and the flag word, with optional
 compression. FastLZ is the codec proved in this project; zlib, zstd, the serializers and the
 float/digit conversions of the platform are abstract, constrained by Sound.
 */
module Payload {
  import opened Basics
  import opened Numerals
  import opened CNumbers
  import opened PayloadFlags
  import opened FastLzScan
  import opened FastLzSize
  import FastLz
  import GFmt

  // ---------- values and surroundings ----------

  type PhpInt = n: int | LONG_MIN <= n <= LONG_MAX

  /** F is the type of finite floats, T that of values only a serializer can store. */
  datatype Value<F, T> =
    | Str(bytes: seq<Byte>)
    | Long(n: PhpInt)
    | Double(f: F)
    | Infinity(negative: bool)
    | NaN
    | Bool(b: bool)
    | Complex(t: T)

  datatype Serializer = Php | Igbinary | Json | Msgpack

  datatype CompressionType = Fastlz | Zlib | Zstd | Unknown

  type DigitString = s: string | s != "" && AllDigits(s) witness "0"

  datatype Digits = Digits(negative: bool, digits: DigitString, point: int)

  datatype Options = Options(
    compress: bool,
    compression: CompressionType,
    level: int,
    factor: real,
    threshold: int,
    serializer: Serializer,
    user: Option<bv32>)

  /** What zstd reads off the front of its input: how long the content is, or why that cannot be told. */
  datatype FrameSize = NotZstd | NotRecorded | Recorded(size: nat)

  /**
   Everything this extension links against. Codecs take the room they may fill; `leftBehind` is the
   value that a decoder whose failure goes unnoticed leaves in the result.
   */
  datatype Env<!F, !T> = Env(
    haveZstd: bool,
    hash: Hash,
    pad: Byte,
    dtoa: F -> Digits,
    nearest: (bool, real) -> F,
    strtod: string -> F,
    serialize: (Serializer, T) -> Option<seq<Byte>>,
    unserialize: (Serializer, seq<Byte>) -> Option<T>,
    leftBehind: (Serializer, seq<Byte>) -> T,
    zlib: (int, seq<Byte>, nat) -> Option<seq<Byte>>,
    unzlib: (seq<Byte>, nat) -> Option<seq<Byte>>,
    zstd: (int, seq<Byte>, nat) -> Option<seq<Byte>>,
    zstdFrame: seq<Byte> -> FrameSize,
    unzstd: (seq<Byte>, nat) -> Option<seq<Byte>>)

  /** The digits generated for `f` are few, and those of a decimal that rounds back to it. */
  ghost predicate DigitsRoundBack<F, T>(env: Env<F, T>, f: F) {
    var d := env.dtoa(f);
    && |d.digits| <= 17 && -999 < d.point <= 1000
    && env.nearest(d.negative, GFmt.DigitsValue(d.digits, d.point)) == f
  }

  /** Text that is a decimal literal is read as the float nearest to its value. */
  ghost predicate ReadsNearest<F, T>(env: Env<F, T>, s: string) {
    match GFmt.Read(s)
    case None => true
    case Some(l) => env.strtod(s) == env.nearest(l.negative, GFmt.Value(l))
  }

  ghost predicate SoundFloats<F(!new), T>(env: Env<F, T>) {
    (forall f :: DigitsRoundBack(env, f)) && (forall s :: ReadsNearest(env, s))
  }

  ghost predicate SoundCodecs<F, T(!new)>(env: Env<F, T>) {
    && (forall k, t :: env.serialize(k, t).Some? ==> env.unserialize(k, env.serialize(k, t).value) == Some(t))
    && (forall level, x, room :: env.zlib(level, x, room).Some? ==>
          env.unzlib(env.zlib(level, x, room).value, |x|) == Some(x))
    && (forall level, x, room :: env.zstd(level, x, room).Some? ==>
          && env.zstdFrame(env.zstd(level, x, room).value).Recorded?
          && env.unzstd(env.zstd(level, x, room).value, |x|) == Some(x))
    && (forall c, room :: env.unzstd(c, room).Some? ==> |env.unzstd(c, room).value| <= room)
  }

  ghost predicate Sound<F(!new), T(!new)>(env: Env<F, T>) {
    SoundFloats(env) && SoundCodecs(env)
  }

  // ---------- text as bytes ----------

  predicate Ascii(s: string) {
    forall k :: 0 <= k < |s| ==> s[k] as int < 128
  }

  function BytesOf(s: string): seq<Byte>
    requires Ascii(s)
  {
    seq(|s|, i requires 0 <= i < |s| => s[i] as int)
  }

  function TextOf(bytes: seq<Byte>): string {
    seq(|bytes|, i requires 0 <= i < |bytes| => bytes[i] as char)
  }

  lemma TextOfBytes(s: string)
    requires Ascii(s)
    ensures TextOf(BytesOf(s)) == s
  {
  }

  lemma AsciiJoin(a: string, b: string)
    requires Ascii(a) && Ascii(b)
    ensures Ascii(a + b)
  {
  }

  lemma AsciiDigits(s: string)
    requires AllDigits(s)
    ensures Ascii(s)
  {
    forall k | 0 <= k < |s|
      ensures s[k] as int < 128
    {
      assert IsDigit(s[k]);
    }
  }

  lemma ExponentAscii(e: nat)
    ensures Ascii(GFmt.ExponentText(e))
  {
    AsciiDigits(GFmt.ExponentText(e));
  }

  lemma ScientificAscii(digits: string, exponent: int)
    requires digits != "" && Ascii(digits)
    ensures Ascii(GFmt.Scientific(digits, exponent))
  {
    hide GFmt.ExponentText;
    var e := if exponent < 0 then -exponent else exponent;
    ExponentAscii(e);
    var mantissa := digits[..1] + GFmt.Point(|digits| > 1) + digits[1..];
    var tail := (if exponent < 0 then "-" else "+") + GFmt.ExponentText(e);
    assert GFmt.ExponentPart(exponent) == "e" + tail;
    AsciiJoin("e", tail);
    AsciiJoin(mantissa, GFmt.ExponentPart(exponent));
  }

  lemma FloatTextAscii(negative: bool, digits: string, point: int)
    requires digits != "" && Ascii(digits)
    ensures Ascii(GFmt.Text(negative, digits, point))
  {
    hide GFmt.Scientific, Zeros;
    ScientificAscii(digits, point - 1);
    AsciiDigits(Zeros(if point < 0 then -point else 0));
    AsciiDigits(Zeros(if point > |digits| then point - |digits| else 0));
    AsciiJoin(if negative then "-" else "", GFmt.Unsigned(digits, point));
  }

  // ---------- before compression ----------

  datatype Raw = Raw(bytes: seq<Byte>, code: bv32, compressible: bool)

  function CodeOf(s: Serializer): bv32 {
    match s
    case Php => IS_SERIALIZED
    case Igbinary => IS_IGBINARY
    case Json => IS_JSON
    case Msgpack => IS_MSGPACK
  }

  function FloatText(negative: bool, digits: string, point: int): seq<Byte>
    requires digits != "" && Ascii(digits)
  {
    FloatTextAscii(negative, digits, point);
    BytesOf(GFmt.Text(negative, digits, point))
  }

  function RawOf<F, T>(env: Env<F, T>, serializer: Serializer, v: Value<F, T>): (r: Option<Raw>)
  {
    match v
    case Str(bytes) => Some(Raw(bytes, IS_STRING, true))
    case Long(n) => PrintLongAscii(n); Some(Raw(BytesOf(PrintLong(n)), IS_LONG, false))
    case Double(f) =>
      var d := env.dtoa(f);
      AsciiDigits(d.digits);
      Some(Raw(FloatText(d.negative, d.digits, d.point), IS_DOUBLE, false))
    case Infinity(negative) => Some(Raw(FloatText(negative, "Infinity", GFmt.SPECIAL), IS_DOUBLE, false))
    case NaN => Some(Raw(FloatText(false, "NaN", GFmt.SPECIAL), IS_DOUBLE, false))
    case Bool(b) => Some(Raw(if b then [49] else [], IS_BOOL, false))
    case Complex(t) =>
      match env.serialize(serializer, t)
      case None => None
      case Some(bytes) => Some(Raw(bytes, CodeOf(serializer), true))
  }

  lemma PrintLongAscii(n: int)
    ensures Ascii(PrintLong(n))
  {
    AsciiDigits(Decimal(if n < 0 then -n else n));
    AsciiJoin("-", Decimal(if n < 0 then -n else n));
  }

  // ---------- compression ----------

  /** A compressed copy and the internal flag bit that names its algorithm. */
  datatype Squeezed = Squeezed(bytes: seq<Byte>, bit: bv32)

  /** The buffer for the compressed copy: five per cent more than the payload, plus one, rounded down. */
  function Room(n: nat): (r: nat)
    ensures r >= Bound(n)
  {
    var size := n as real * 1.05 + 1.0;
    assert size >= Bound(n) as real;
    size.Floor
  }

  function Attempt<F, T>(env: Env<F, T>, compression: CompressionType, level: int, x: seq<Byte>): Option<Squeezed>
    requires |x| <= INT_MAX
  {
    match compression
    case Fastlz =>
      var c := FastLz.Compressed(x, env.pad, env.hash);
      if |c| > 0 then Some(Squeezed(c, COMPRESSION_FASTLZ)) else None
    case Zstd =>
      if !env.haveZstd then None
      else
        (match env.zstd(level, x, Room(|x|))
         case None => None
         case Some(c) => Some(Squeezed(c, COMPRESSION_ZSTD)))
    case Zlib =>
      (match env.zlib(Max(0, Min(9, level)), x, Room(|x|))
       case None => None
       case Some(c) => Some(Squeezed(c, COMPRESSION_ZLIB)))
    case Unknown => None
  }

  /** A compressed copy is kept only if the payload is more than `factor` times its size. */
  predicate Worthwhile(x: seq<Byte>, c: seq<Byte>, factor: real) {
    !(|x| as real <= |c| as real * factor)
  }

  function Squeeze<F, T>(env: Env<F, T>, compression: CompressionType, level: int, factor: real, x: seq<Byte>): Option<Squeezed>
    requires |x| <= INT_MAX
  {
    var a := Attempt(env, compression, level, x);
    if a.Some? && Worthwhile(x, a.value.bytes, factor) then a else None
  }

  function ByteAt(n: nat, unit: nat): Byte
    requires unit > 0
  {
    var q: int := n / unit;
    q % 256
  }

  /** A 32-bit length, low byte first. */
  function Length32(n: nat): (r: seq<Byte>)
    ensures |r| == 4
  {
    [ByteAt(n, 1), ByteAt(n, 256), ByteAt(n, 65536), ByteAt(n, 16777216)]
  }

  function ReadLength32(b: seq<Byte>): nat
    requires |b| >= 4
  {
    var b0: int, b1: int, b2: int, b3: int := b[0], b[1], b[2], b[3];
    b0 + 256 * b1 + 65536 * b2 + 16777216 * b3
  }

  lemma LengthRoundTrip(n: nat, rest: seq<Byte>)
    requires n < UINT32_LIMIT
    ensures ReadLength32(Length32(n) + rest) == n
  {
    var b := Length32(n) + rest;
    var q1: int, q2: int, q3: int := n / 256, n / 65536, n / 16777216;
    assert q2 == q1 / 256 && q3 == q2 / 256 && q3 < 256;
    assert n == 256 * q1 + n % 256 && q1 == 256 * q2 + q1 % 256 && q2 == 256 * q3 + q2 % 256;
    assert b[0] == ByteAt(n, 1) && b[1] == ByteAt(n, 256) && b[2] == ByteAt(n, 65536) && b[3] == ByteAt(n, 16777216);
  }

  // ---------- encoding ----------

  datatype Stored = Stored(payload: seq<Byte>, flags: bv32)

  /** The threshold is compared as an unsigned 64-bit number. */
  predicate ShouldCompress(options: Options, raw: Raw) {
    options.compress && raw.compressible && |raw.bytes| != 0 && |raw.bytes| >= options.threshold % (UINT64_MAX + 1)
  }

  function Shrink<F, T>(env: Env<F, T>, compression: CompressionType, level: int, factor: real, s: Stored): Stored
    requires |s.payload| <= INT_MAX
  {
    match Squeeze(env, compression, level, factor, s.payload)
    case None => s
    case Some(c) => Stored(Length32(|s.payload|) + c.bytes, SetInternal(s.flags, COMPRESSED | c.bit))
  }

  function Encode<F, T>(env: Env<F, T>, options: Options, raw: Raw): Stored
    requires |raw.bytes| <= INT_MAX
  {
    var plain := Stored(raw.bytes, SetType(0, raw.code));
    var s :=
      if ShouldCompress(options, raw) then Shrink(env, options.compression, options.level, options.factor, plain)
      else plain;
    match options.user
    case None => s
    case Some(u) => s.(flags := SetUser(s.flags, u))
  }

  // ---------- what is stored, in the protocol's own terms ----------

  /** The bytes and type code of a value: text for numbers, one byte or none for bools, the serializer's output for the rest. */
  ghost predicate RawIs<F, T>(env: Env<F, T>, serializer: Serializer, v: Value<F, T>, raw: Raw) {
    match v
    case Str(bytes) => raw == Raw(bytes, 0, true)
    case Long(n) => raw.code == 1 && !raw.compressible && TextOf(raw.bytes) == PrintLong(n)
    case Double(f) =>
      var d := env.dtoa(f);
      raw.code == 2 && !raw.compressible && TextOf(raw.bytes) == GFmt.Text(d.negative, d.digits, d.point)
    case Infinity(negative) =>
      raw.code == 2 && !raw.compressible && TextOf(raw.bytes) == if negative then "-Infinity" else "Infinity"
    case NaN => raw.code == 2 && !raw.compressible && TextOf(raw.bytes) == "NaN"
    case Bool(b) => raw == Raw(if b then [49] else [], 3, false)
    case Complex(t) =>
      && env.serialize(serializer, t) == Some(raw.bytes) && raw.compressible
      && raw.code == (match serializer case Php => 4 case Igbinary => 5 case Json => 6 case Msgpack => 7)
  }

  /** Only a value its serializer refuses cannot be stored. */
  lemma RawExact<F, T>(env: Env<F, T>, serializer: Serializer, v: Value<F, T>)
    ensures RawOf(env, serializer, v).None? <==> v.Complex? && env.serialize(serializer, v.t).None?
    ensures RawOf(env, serializer, v).Some? ==> RawIs(env, serializer, v, RawOf(env, serializer, v).value)
  {
    hide GFmt.Text, BytesOf, TextOf, Ascii, PrintLong;
    match v
    case Long(n) =>
      PrintLongAscii(n);
      TextOfBytes(PrintLong(n));
    case Double(f) =>
      var d := env.dtoa(f);
      AsciiDigits(d.digits);
      FloatTextAscii(d.negative, d.digits, d.point);
      TextOfBytes(GFmt.Text(d.negative, d.digits, d.point));
    case Infinity(negative) =>
      SpecialAscii();
      FloatTextAscii(negative, "Infinity", GFmt.SPECIAL);
      SpecialText(negative);
      TextOfBytes(GFmt.Text(negative, "Infinity", GFmt.SPECIAL));
    case NaN =>
      SpecialAscii();
      FloatTextAscii(false, "NaN", GFmt.SPECIAL);
      SpecialText(false);
      TextOfBytes(GFmt.Text(false, "NaN", GFmt.SPECIAL));
    case _ =>
  }

  lemma SpecialAscii()
    ensures Ascii("Infinity") && Ascii("NaN")
  {
  }

  /** The chosen algorithm, given five per cent more room than the payload and a byte, produces `c`; `bit` is its flag. */
  ghost predicate Produces<F, T>(env: Env<F, T>, compression: CompressionType, level: int, x: seq<Byte>, c: seq<Byte>, bit: bv32)
    requires |x| <= INT_MAX
  {
    var room := (|x| as real * 1.05 + 1.0).Floor;
    match compression
    case Fastlz => c == FastLz.Compressed(x, env.pad, env.hash) && c != [] && bit == 4
    case Zstd => room >= 0 && env.haveZstd && env.zstd(level, x, room) == Some(c) && bit == 8
    case Zlib => room >= 0 && env.zlib(if level < 0 then 0 else if level > 9 then 9 else level, x, room) == Some(c) && bit == 2
    case Unknown => false
  }

  /** It produces `c`, and the payload is more than `factor` times as long. */
  ghost predicate Pays<F, T>(env: Env<F, T>, compression: CompressionType, level: int, factor: real, x: seq<Byte>, c: seq<Byte>, bit: bv32)
    requires |x| <= INT_MAX
  {
    Produces(env, compression, level, x, c, bit) && |x| as real > |c| as real * factor
  }

  lemma AttemptExact<F, T>(env: Env<F, T>, compression: CompressionType, level: int, x: seq<Byte>, c: seq<Byte>, bit: bv32)
    requires |x| <= INT_MAX
    ensures Produces(env, compression, level, x, c, bit) <==> Attempt(env, compression, level, x) == Some(Squeezed(c, bit))
  {
    RoomIs(|x|);
    hide FastLz.Compressed, Room;
    assert Max(0, Min(9, level)) == if level < 0 then 0 else if level > 9 then 9 else level;
  }

  lemma RoomIs(n: nat)
    ensures Room(n) == (n as real * 1.05 + 1.0).Floor
  {
  }

  lemma SqueezeExact<F, T>(env: Env<F, T>, compression: CompressionType, level: int, factor: real, x: seq<Byte>, c: seq<Byte>, bit: bv32)
    requires |x| <= INT_MAX
    ensures Pays(env, compression, level, factor, x, c, bit) <==>
            Squeeze(env, compression, level, factor, x) == Some(Squeezed(c, bit))
  {
    AttemptExact(env, compression, level, x, c, bit);
    WorthwhileIs(x, c, factor);
    hide Attempt, Produces, Worthwhile;
  }

  lemma WorthwhileIs(x: seq<Byte>, c: seq<Byte>, factor: real)
    ensures Worthwhile(x, c, factor) <==> |x| as real > |c| as real * factor
  {
  }

  /** A length as four bytes, the lowest first. */
  lemma LengthBytes(n: nat)
    ensures var b := Length32(n);
            |b| == 4 && b[0] == n % 256 && b[1] == n / 256 % 256 && b[2] == n / 65536 % 256 && b[3] == n / 16777216 % 256
  {
  }

  /** The internal flags of a compressed copy: bit 4 of the word, and the algorithm's among bits 5 to 7. */
  function WithCopy(flags: bv32, bit: bv32): bv32 {
    flags | 0x10 | (bit << 4)
  }

  /** What becomes of a payload and its flags: the length and the compressed copy, with flags for that, when a copy pays; else no change. */
  ghost predicate Compressed<F, T>(env: Env<F, T>, compression: CompressionType, level: int, factor: real, before: Stored, after: Stored)
    requires |before.payload| <= INT_MAX
  {
    || (exists c, bit :: Pays(env, compression, level, factor, before.payload, c, bit) &&
          after == Stored(Length32(|before.payload|) + c, WithCopy(before.flags, bit)))
    || (after == before && forall c, bit :: !Pays(env, compression, level, factor, before.payload, c, bit))
  }

  lemma ShrinkExact<F, T>(env: Env<F, T>, compression: CompressionType, level: int, factor: real, s: Stored)
    requires |s.payload| <= INT_MAX
    ensures Compressed(env, compression, level, factor, s, Shrink(env, compression, level, factor, s))
    ensures Squeeze(env, compression, level, factor, s.payload).Some? <==>
            exists c, bit :: Pays(env, compression, level, factor, s.payload, c, bit)
  {
    PaysAll(env, compression, level, factor, s.payload);
    ShrinkCases(env, compression, level, factor, s);
    var found := Squeeze(env, compression, level, factor, s.payload);
    hide Pays, Squeeze, Shrink, WithCopy, Length32;
    if found.Some? {
      assert Pays(env, compression, level, factor, s.payload, found.value.bytes, found.value.bit);
    }
  }

  lemma PaysAll<F, T>(env: Env<F, T>, compression: CompressionType, level: int, factor: real, x: seq<Byte>)
    requires |x| <= INT_MAX
    ensures forall c, bit :: Pays(env, compression, level, factor, x, c, bit) <==>
                             Squeeze(env, compression, level, factor, x) == Some(Squeezed(c, bit))
  {
    hide Pays, Squeeze;
    forall c, bit
      ensures Pays(env, compression, level, factor, x, c, bit) <==>
              Squeeze(env, compression, level, factor, x) == Some(Squeezed(c, bit))
    {
      SqueezeExact(env, compression, level, factor, x, c, bit);
    }
  }

  lemma ShrinkCases<F, T>(env: Env<F, T>, compression: CompressionType, level: int, factor: real, s: Stored)
    requires |s.payload| <= INT_MAX
    ensures Shrink(env, compression, level, factor, s) ==
            match Squeeze(env, compression, level, factor, s.payload) {
              case None => s
              case Some(c) => Stored(Length32(|s.payload|) + c.bytes, WithCopy(s.flags, c.bit))
            }
  {
    SqueezedBit(env, compression, level, factor, s.payload);
    hide Squeeze, Length32, WithCopy, SetInternal;
    var found := Squeeze(env, compression, level, factor, s.payload);
    if found.Some? {
      InternalBits(s.flags, found.value.bit);
    }
  }

  lemma InternalBits(flags: bv32, bit: bv32)
    requires bit == 2 || bit == 4 || bit == 8
    ensures SetInternal(flags, COMPRESSED | bit) == WithCopy(flags, bit)
  {
  }

  /** Compression is tried for strings and serialized values, when it is on and the bytes are as many as the threshold and not none. */
  predicate Tried(options: Options, raw: Raw) {
    options.compress && raw.compressible && raw.bytes != [] && 0 <= options.threshold <= |raw.bytes|
  }

  /** User flags go into the upper half of the word. */
  function WithUser(flags: bv32, user: Option<bv32>): bv32 {
    if user.Some? then flags | (user.value << 16) else flags
  }

  /** The item stored for some bytes: type code, compression if tried and paying, user flags in the upper half. */
  ghost predicate StoredAs<F, T>(env: Env<F, T>, options: Options, raw: Raw, s: Stored)
    requires |raw.bytes| <= INT_MAX
  {
    var plain := Stored(raw.bytes, raw.code);
    exists mid: Stored ::
      && (if Tried(options, raw) then Compressed(env, options.compression, options.level, options.factor, plain, mid) else mid == plain)
      && s == Stored(mid.payload, WithUser(mid.flags, options.user))
  }

  /** An item is stored just so, whatever the options. */
  lemma EncodeExact<F, T>(env: Env<F, T>, options: Options, raw: Raw)
    requires |raw.bytes| <= INT_MAX && raw.code <= 0xF && LONG_MIN <= options.threshold <= LONG_MAX
    requires options.user.Some? ==> options.user.value <= 0xFFFF
    ensures StoredAs(env, options, raw, Encode(env, options, raw))
  {
    TypeAlone(raw.code);
    TriedIs(options, raw);
    ShrinkExact(env, options.compression, options.level, options.factor, Stored(raw.bytes, raw.code));
    EncodeParts(env, options, raw);
    hide *;
  }

  lemma EncodeParts<F, T>(env: Env<F, T>, options: Options, raw: Raw)
    requires |raw.bytes| <= INT_MAX && (options.user.Some? ==> options.user.value <= 0xFFFF)
    ensures var plain := Stored(raw.bytes, SetType(0, raw.code));
            var mid := if ShouldCompress(options, raw) then Shrink(env, options.compression, options.level, options.factor, plain) else plain;
            Encode(env, options, raw) == Stored(mid.payload, WithUser(mid.flags, options.user))
  {
    hide Shrink, SetType, ShouldCompress, SetUser, WithUser;
    var plain := Stored(raw.bytes, SetType(0, raw.code));
    var mid := if ShouldCompress(options, raw) then Shrink(env, options.compression, options.level, options.factor, plain) else plain;
    UserBits(mid.flags, options.user);
  }

  lemma TypeAlone(code: bv32)
    requires code <= 0xF
    ensures SetType(0, code) == code
  {
  }

  lemma TriedIs(options: Options, raw: Raw)
    requires |raw.bytes| <= INT_MAX && LONG_MIN <= options.threshold <= LONG_MAX
    ensures Tried(options, raw) <==> ShouldCompress(options, raw)
  {
  }

  lemma UserBits(flags: bv32, user: Option<bv32>)
    requires user.Some? ==> user.value <= 0xFFFF
    ensures WithUser(flags, user) == if user.Some? then SetUser(flags, user.value) else flags
  {
  }

  lemma ZvalExact<F, T>(env: Env<F, T>, options: Options, v: Value<F, T>)
    requires RawOf(env, options.serializer, v).Some? ==> |RawOf(env, options.serializer, v).value.bytes| <= INT_MAX
    ensures RawOf(env, options.serializer, v).None? <==> v.Complex? && env.serialize(options.serializer, v.t).None?
    ensures RawOf(env, options.serializer, v).Some? && LONG_MIN <= options.threshold <= LONG_MAX && (options.user.Some? ==> options.user.value <= 0xFFFF) ==>
              var raw := RawOf(env, options.serializer, v).value;
              RawIs(env, options.serializer, v, raw) && StoredAs(env, options, raw, Encode(env, options, raw))
  {
    RawExact(env, options.serializer, v);
    if RawOf(env, options.serializer, v).Some? {
      RawCode(env, options.serializer, v);
      hide RawOf, RawIs, StoredAs, Encode;
      if LONG_MIN <= options.threshold <= LONG_MAX && (options.user.Some? ==> options.user.value <= 0xFFFF) {
        EncodeExact(env, options, RawOf(env, options.serializer, v).value);
      }
    }
  }

  // ---------- decoding ----------

  /**
   A decoder that fills a buffer of `stored` bytes: the buffer keeps that size even if the
   decoder wrote less, so what follows its output is whatever the buffer held.
   */
  ghost predicate Fills(v: Option<seq<Byte>>, stored: nat, r: Option<seq<Byte>>) {
    match v
    case None => r.None?
    case Some(bytes) => r.Some? && |r.value| == stored && bytes <= r.value
  }

  /** A 32-bit length passed on as an int. */
  function AsInt(n: nat): int {
    if n <= INT_MAX then n else n - UINT32_LIMIT
  }

  /** A stored length above INT_MAX leaves the FastLZ decoder no room, so the payload is always refused. */
  lemma HugeRefused<F, T>(env: Env<F, T>, payload: seq<Byte>, flags: bv32, behind: seq<Byte>, r: Option<seq<Byte>>)
    requires |payload| >= 4 && ReadLength32(payload) > INT_MAX
    requires HasInternal(flags, COMPRESSION_FASTLZ) && !HasInternal(flags, COMPRESSION_ZSTD)
    requires Inflates(env, payload, flags, behind, r)
    ensures r == None
  {
    var stored, body := ReadLength32(payload), payload[4..];
    LengthFits(payload);
    hide ReadLength32, HasInternal;
    FastLz.NoRoom(body + behind, |body|, AsInt(stored));
  }

  lemma LengthFits(b: seq<Byte>)
    requires |b| >= 4
    ensures ReadLength32(b) < UINT32_LIMIT
  {
  }

  /** `r` is a possible result of decompressing `payload`, with `behind` lying after it in memory. */
  ghost predicate Inflates<F, T>(env: Env<F, T>, payload: seq<Byte>, flags: bv32, behind: seq<Byte>, r: Option<seq<Byte>>) {
    var isFastlz := HasInternal(flags, COMPRESSION_FASTLZ);
    var isZstd := HasInternal(flags, COMPRESSION_ZSTD);
    var isZlib := HasInternal(flags, COMPRESSION_ZLIB);
    if |payload| < 4 || (isZstd && !env.haveZstd) || (!isFastlz && !isZlib && !isZstd) then r.None?
    else
      var stored, body := ReadLength32(payload), payload[4..];
      if isZstd then
        if env.zstdFrame(body).Recorded? then Fills(env.unzstd(body, stored), stored, r) else r.None?
      else if isFastlz then Fills(FastLz.Decompressed(body + behind, |body|, AsInt(stored)), stored, r)
      else r == env.unzlib(body, stored)
  }

  function SerializerOf(code: bv32): Option<Serializer> {
    if code == IS_SERIALIZED then Some(Php)
    else if code == IS_IGBINARY then Some(Igbinary)
    else if code == IS_JSON then Some(Json)
    else if code == IS_MSGPACK then Some(Msgpack)
    else None
  }

  function Interpret<F, T>(env: Env<F, T>, payloadLength: nat, code: bv32, data: seq<Byte>): Option<Value<F, T>> {
    if code == IS_STRING then Some(Str(data))
    else if code == IS_LONG then Some(Long(Strtol(TextOf(data))))
    else if code == IS_DOUBLE then
      var text := TextOf(data);
      if text == "Infinity" then Some(Infinity(false))
      else if text == "-Infinity" then Some(Infinity(true))
      else if text == "NaN" then Some(NaN)
      else Some(Double(env.strtod(text)))
    else if code == IS_BOOL then Some(Bool(payloadLength > 0 && |data| > 0 && data[0] == 49))
    else
      match SerializerOf(code)
      case None => None
      case Some(k) =>
        match env.unserialize(k, data)
        case None => if k.Json? || k.Msgpack? then Some(Complex(env.leftBehind(k, data))) else None
        case Some(t) => Some(Complex(t))
  }

  function InterpretAll<F, T>(env: Env<F, T>, s: Stored, data: Option<seq<Byte>>): Option<Value<F, T>> {
    if data.None? then None else Interpret(env, |s.payload|, GetType(s.flags), data.value)
  }

  /** The bytes to interpret: the payload itself, or a possible result of decompressing it. */
  ghost predicate Unwraps<F, T>(env: Env<F, T>, s: Stored, behind: seq<Byte>, data: Option<seq<Byte>>) {
    if HasInternal(s.flags, COMPRESSED) then Inflates(env, s.payload, s.flags, behind, data)
    else data == Some(s.payload)
  }

  /** What the bytes of an item mean, by its type code. An unserialization that fails is noticed for codes 4 and 5 only. */
  ghost predicate Means<F, T>(env: Env<F, T>, payloadLength: nat, code: bv32, data: seq<Byte>, r: Option<Value<F, T>>) {
    && (code == 0 ==> r == Some(Str(data)))
    && (code == 1 ==> r == Some(Long(Strtol(TextOf(data)))))
    && (code == 2 ==>
          && (TextOf(data) == "Infinity" ==> r == Some(Infinity(false)))
          && (TextOf(data) == "-Infinity" ==> r == Some(Infinity(true)))
          && (TextOf(data) == "NaN" ==> r == Some(NaN))
          && (TextOf(data) !in ["Infinity", "-Infinity", "NaN"] ==> r == Some(Double(env.strtod(TextOf(data))))))
    && (code == 3 ==> r == Some(Bool(payloadLength > 0 && data != [] && data[0] == 49)))
    && (4 <= code <= 7 ==>
          var k := if code == 4 then Php else if code == 5 then Igbinary else if code == 6 then Json else Msgpack;
          match env.unserialize(k, data)
          case Some(t) => r == Some(Complex(t))
          case None => r == if code <= 5 then None else Some(Complex(env.leftBehind(k, data))))
    && (code > 7 ==> r == None)
  }

  lemma InterpretExact<F, T>(env: Env<F, T>, payloadLength: nat, code: bv32, data: seq<Byte>)
    ensures Means(env, payloadLength, code, data, Interpret(env, payloadLength, code, data))
  {
    hide TextOf, Strtol;
    assert code <= 7 ==> code == 0 || code == 1 || code == 2 || code == 3 || code == 4 || code == 5 || code == 6 || code == 7;
  }

  /** The number in the first four bytes, the lowest first. */
  ghost predicate IsLength(b: seq<Byte>, n: nat)
    requires |b| >= 4
  {
    n < UINT32_LIMIT && b[0] == n % 256 && b[1] == n / 256 % 256 && b[2] == n / 65536 % 256 && b[3] == n / 16777216 % 256
  }

  lemma ReadLengthIs(b: seq<Byte>)
    requires |b| >= 4
    ensures IsLength(b, ReadLength32(b))
  {
    var b0: int, b1: int, b2: int, b3: int := b[0], b[1], b[2], b[3];
    var n := ReadLength32(b);
    assert n / 256 == b1 + 256 * b2 + 65536 * b3;
    assert n / 65536 == b2 + 256 * b3;
    assert n / 16777216 == b3;
  }

  /**
   Which decoder undoes the compression, by the flag bits: zstd's before FastLZ's before zlib's; none of
   them, a payload too short for its length, or a decoder that is missing or fails, gives nothing.
   */
  ghost predicate UndoneBy<F, T>(env: Env<F, T>, payload: seq<Byte>, flags: bv32, behind: seq<Byte>, stored: nat, r: Option<seq<Byte>>)
    requires |payload| >= 4
  {
    var body := payload[4..];
    && (flags & 0xE0 == 0 ==> r == None)
    && (flags & 0x80 != 0 ==>
          if env.haveZstd && env.zstdFrame(body).Recorded? then Fills(env.unzstd(body, stored), stored, r) else r == None)
    && (flags & 0xC0 == 0x40 ==>
          if stored <= INT_MAX then Fills(FastLz.Decompressed(body + behind, |body|, stored), stored, r) else r == None)
    && (flags & 0xE0 == 0x20 ==> r == env.unzlib(body, stored))
  }

  lemma InflatesExact<F, T>(env: Env<F, T>, payload: seq<Byte>, flags: bv32, behind: seq<Byte>, r: Option<seq<Byte>>)
    requires |payload| >= 4 && Inflates(env, payload, flags, behind, r)
    ensures UndoneBy(env, payload, flags, behind, ReadLength32(payload), r)
  {
    AlgorithmBits(flags);
    LengthFits(payload);
    var stored, body := ReadLength32(payload), payload[4..];
    if stored > INT_MAX {
      FastLz.NoRoom(body + behind, |body|, AsInt(stored));
    }
    hide HasInternal, ReadLength32, FastLz.Decompressed;
  }

  lemma AlgorithmBits(flags: bv32)
    ensures HasInternal(flags, COMPRESSION_ZSTD) <==> flags & 0x80 != 0
    ensures HasInternal(flags, COMPRESSION_FASTLZ) <==> flags & 0x40 != 0
    ensures HasInternal(flags, COMPRESSION_ZLIB) <==> flags & 0x20 != 0
    ensures flags & 0xE0 == 0 <==> flags & 0x80 == 0 && flags & 0x40 == 0 && flags & 0x20 == 0
    ensures flags & 0xC0 == 0x40 <==> flags & 0x80 == 0 && flags & 0x40 != 0
    ensures flags & 0xE0 == 0x20 <==> flags & 0x80 == 0 && flags & 0x40 == 0 && flags & 0x20 != 0
  {
  }

  // ---------- the round trip ----------

  lemma InflatesSqueezed<F, T(!new)>(env: Env<F, T>, options: Options, x: seq<Byte>, flags: bv32, behind: seq<Byte>, r: Option<seq<Byte>>)
    requires SoundCodecs(env) && 0 < |x| <= INT_MAX
    requires Squeeze(env, options.compression, options.level, options.factor, x).Some?
    requires var c := Squeeze(env, options.compression, options.level, options.factor, x).value;
             && GetInternal(flags) == COMPRESSED | c.bit
             && Inflates(env, Length32(|x|) + c.bytes, flags, behind, r)
    ensures r == Some(x)
  {
    hide HasInternal, Length32, ReadLength32, GetInternal;
    var c := Squeeze(env, options.compression, options.level, options.factor, x).value;
    var payload := Length32(|x|) + c.bytes;
    LengthRoundTrip(|x|, c.bytes);
    assert payload[4..] == c.bytes;
    match options.compression
    case Fastlz =>
      TypeBits(flags, COMPRESSION_FASTLZ);
      assert c.bytes <= c.bytes + behind;
      FastLz.RoundTrip(x, env.pad, env.hash, c.bytes + behind);
      FillsWhole(x, r);
    case Zstd =>
      TypeBits(flags, COMPRESSION_ZSTD);
      assert env.unzstd(c.bytes, |x|) == Some(x);
      FillsWhole(x, r);
    case Zlib =>
      TypeBits(flags, COMPRESSION_ZLIB);
    case Unknown =>
  }

  lemma TypeBits(flags: bv32, bit: bv32)
    requires bit == COMPRESSION_FASTLZ || bit == COMPRESSION_ZLIB || bit == COMPRESSION_ZSTD
    requires GetInternal(flags) == COMPRESSED | bit
    ensures HasInternal(flags, COMPRESSION_FASTLZ) == (bit == COMPRESSION_FASTLZ)
    ensures HasInternal(flags, COMPRESSION_ZLIB) == (bit == COMPRESSION_ZLIB)
    ensures HasInternal(flags, COMPRESSION_ZSTD) == (bit == COMPRESSION_ZSTD)
  {
  }

  lemma FillsWhole(x: seq<Byte>, r: Option<seq<Byte>>)
    ensures Fills(Some(x), |x|, r) ==> r == Some(x)
  {
    if Fills(Some(x), |x|, r) {
      assert x == r.value[..|x|] == r.value;
    }
  }

  lemma EncodeFlags<F, T>(env: Env<F, T>, options: Options, raw: Raw)
    requires |raw.bytes| <= INT_MAX && raw.code <= 0xF
    requires options.user.Some? ==> options.user.value <= 0xFFFF
    ensures var f := Encode(env, options, raw).flags;
            && GetType(f) == raw.code
            && GetUser(f) == (if options.user.Some? then options.user.value else 0)
            && GetInternal(f) == (if ShouldCompress(options, raw) &&
                                     Squeeze(env, options.compression, options.level, options.factor, raw.bytes).Some?
                                  then COMPRESSED | Squeeze(env, options.compression, options.level, options.factor, raw.bytes).value.bit
                                  else 0)
  {
    hide Attempt;
    var user := if options.user.Some? then options.user.value else 0;
    var c := Squeeze(env, options.compression, options.level, options.factor, raw.bytes);
    var bits := if ShouldCompress(options, raw) && c.Some? then COMPRESSED | c.value.bit else 0;
    SqueezedBit(env, options.compression, options.level, options.factor, raw.bytes);
    FieldsIndependent(raw.code, bits, user);
    NothingSet(SetType(0, raw.code));
    NothingSet(SetInternal(SetType(0, raw.code), bits));
    assert Encode(env, options, raw).flags == SetUser(SetInternal(SetType(0, raw.code), bits), user);
  }

  lemma SqueezedBit<F, T>(env: Env<F, T>, compression: CompressionType, level: int, factor: real, x: seq<Byte>)
    requires |x| <= INT_MAX
    ensures var c := Squeeze(env, compression, level, factor, x);
            c.Some? ==> c.value.bit == COMPRESSION_FASTLZ || c.value.bit == COMPRESSION_ZLIB || c.value.bit == COMPRESSION_ZSTD
  {
  }

  /** Whatever the options, decoding an encoded payload yields the bytes that were encoded. */
  lemma UnwrapsEncoded<F, T(!new)>(env: Env<F, T>, options: Options, raw: Raw, behind: seq<Byte>, data: Option<seq<Byte>>)
    requires SoundCodecs(env) && |raw.bytes| <= INT_MAX && raw.code <= 0xF
    requires options.user.Some? ==> options.user.value <= 0xFFFF
    requires Unwraps(env, Encode(env, options, raw), behind, data)
    ensures data == Some(raw.bytes)
  {
    hide Squeeze, Inflates;
    EncodeFlags(env, options, raw);
    var s := Encode(env, options, raw);
    var c := Squeeze(env, options.compression, options.level, options.factor, raw.bytes);
    if ShouldCompress(options, raw) && c.Some? {
      SqueezedBit(env, options.compression, options.level, options.factor, raw.bytes);
      CompressedBit(s.flags, c.value.bit);
      InflatesSqueezed(env, options, raw.bytes, s.flags, behind, data);
    } else {
      assert !HasInternal(s.flags, COMPRESSED);
    }
  }

  lemma CompressedBit(flags: bv32, bit: bv32)
    requires GetInternal(flags) == COMPRESSED | bit
    ensures HasInternal(flags, COMPRESSED)
  {
  }

  /** Interpreting the uncompressed bytes of a value gives the value back. */
  lemma InterpretRaw<F(!new), T(!new)>(env: Env<F, T>, serializer: Serializer, v: Value<F, T>, payloadLength: nat)
    requires Sound(env)
    requires RawOf(env, serializer, v).Some?
    requires v.Bool? ==> payloadLength == |RawOf(env, serializer, v).value.bytes|
    ensures var raw := RawOf(env, serializer, v).value;
            Interpret(env, payloadLength, raw.code, raw.bytes) == Some(v)
  {
    hide GFmt.Text, GFmt.Read, BytesOf, Strtol, PrintLong;
    match v
    case Long(n) =>
      PrintLongAscii(n);
      TextOfBytes(PrintLong(n));
      LongRoundTrip(n);
    case Double(f) =>
      var d := env.dtoa(f);
      AsciiDigits(d.digits);
      FloatTextAscii(d.negative, d.digits, d.point);
      FloatReadsBack(env, f);
      InterpretNumber(env, payloadLength, GFmt.Text(d.negative, d.digits, d.point));
    case Infinity(negative) => InterpretWords(env, payloadLength, negative);
    case NaN => InterpretWords(env, payloadLength, false);
    case _ =>
  }

  lemma InterpretNumber<F, T>(env: Env<F, T>, payloadLength: nat, text: string)
    requires Ascii(text) && GFmt.Read(text).Some?
    ensures Interpret(env, payloadLength, IS_DOUBLE, BytesOf(text)) == Some(Double(env.strtod(text)))
  {
    hide GFmt.Read, BytesOf;
    TextOfBytes(text);
    WordsAreNotNumbers();
  }

  lemma InterpretWords<F, T>(env: Env<F, T>, payloadLength: nat, negative: bool)
    ensures Interpret(env, payloadLength, IS_DOUBLE, FloatText(negative, "Infinity", GFmt.SPECIAL)) == Some(Infinity(negative))
    ensures Interpret(env, payloadLength, IS_DOUBLE, FloatText(false, "NaN", GFmt.SPECIAL)) == Some(NaN)
  {
    FloatTextAscii(negative, "Infinity", GFmt.SPECIAL);
    FloatTextAscii(false, "NaN", GFmt.SPECIAL);
    SpecialText(negative);
    hide GFmt.Text, BytesOf, TextOf, Ascii, SerializerOf;
    TextOfBytes(GFmt.Text(negative, "Infinity", GFmt.SPECIAL));
    TextOfBytes(GFmt.Text(false, "NaN", GFmt.SPECIAL));
  }

  lemma SpecialText(negative: bool)
    ensures GFmt.Text(negative, "Infinity", GFmt.SPECIAL) == if negative then "-Infinity" else "Infinity"
    ensures GFmt.Text(false, "NaN", GFmt.SPECIAL) == "NaN"
  {
  }

  /** The printed float is a literal that the platform reads back as the same float. */
  lemma FloatReadsBack<F(!new), T(!new)>(env: Env<F, T>, f: F)
    requires SoundFloats(env)
    ensures var d := env.dtoa(f);
            var text := GFmt.Text(d.negative, d.digits, d.point);
            GFmt.Read(text).Some? && env.strtod(text) == f
  {
    hide GFmt.Text, GFmt.Read, GFmt.Value, GFmt.DigitsValue;
    var d := env.dtoa(f);
    var text := GFmt.Text(d.negative, d.digits, d.point);
    assert DigitsRoundBack(env, f) && ReadsNearest(env, text);
    GFmt.TextExact(d.negative, d.digits, d.point);
  }

  lemma WordsAreNotNumbers()
    ensures GFmt.Read("Infinity") == None && GFmt.Read("-Infinity") == None && GFmt.Read("NaN") == None
  {
    assert "-Infinity"[1..] == "Infinity";
  }

  /** Type codes fit their field, and the text of a bool is never compressed. */
  lemma RawCode<F, T>(env: Env<F, T>, serializer: Serializer, v: Value<F, T>)
    requires RawOf(env, serializer, v).Some?
    ensures var raw := RawOf(env, serializer, v).value; raw.code <= 0xF && (v.Bool? ==> !raw.compressible)
  {
  }

  lemma PlainPayload<F, T>(env: Env<F, T>, options: Options, raw: Raw)
    requires |raw.bytes| <= INT_MAX && !raw.compressible
    ensures Encode(env, options, raw).payload == raw.bytes
  {
  }

  /**
   For every value, every option setting and every memory contents behind the payload: what was
   stored decodes to the value, and the user flags come back as they were set.
   */
  lemma ValueRoundTrip<F(!new), T(!new)>(env: Env<F, T>, options: Options, v: Value<F, T>, behind: seq<Byte>, data: Option<seq<Byte>>)
    requires Sound(env)
    requires RawOf(env, options.serializer, v).Some? && |RawOf(env, options.serializer, v).value.bytes| <= INT_MAX
    requires options.user.Some? ==> options.user.value <= 0xFFFF
    requires Unwraps(env, Encode(env, options, RawOf(env, options.serializer, v).value), behind, data)
    ensures var s := Encode(env, options, RawOf(env, options.serializer, v).value);
            && InterpretAll(env, s, data) == Some(v)
            && GetUser(s.flags) == (if options.user.Some? then options.user.value else 0)
  {
    hide Unwraps, Interpret, RawOf, Encode, SoundFloats, SoundCodecs;
    var raw := RawOf(env, options.serializer, v).value;
    RawCode(env, options.serializer, v);
    UnwrapsEncoded(env, options, raw, behind, data);
    EncodeFlags(env, options, raw);
    if !raw.compressible {
      PlainPayload(env, options, raw);
    }
    InterpretRaw(env, options.serializer, v, |Encode(env, options, raw).payload|);
  }
}
