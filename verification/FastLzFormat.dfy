/**
 The byte layout of FastLZ tokens at both levels: how a token is written and how the
 decoder reads one back. Level One is used for inputs under 65536 bytes, level Two adds
 unbounded match lengths and an escape for far distances.
 */
module FastLzFormat {
  import opened Basics
  import opened Lz77

  datatype Level = One | Two

  const MAX_COPY := 32
  const MAX_LEN := 264
  /** MAX_DISTANCE as redefined for level Two: the first biased distance that needs the escape. */
  const NEAR_LIMIT := 8191

  /** Distances at or beyond this are never matched (MAX_DISTANCE at level One, MAX_FARDISTANCE at level Two). */
  function Reach(level: Level): nat {
    if level.One? then 8192 else 65535 + NEAR_LIMIT - 1
  }

  /** The tokens that have an encoding. A match length must survive the decoder's 32-bit counter. */
  predicate Encodable(level: Level, t: Token) {
    match t
    case Literal(bytes) => 1 <= |bytes| <= MAX_COPY
    case Match(distance, length) =>
      && 1 <= distance < Reach(level)
      && 3 <= length
      && (if level.One? then length <= MAX_LEN else length - 3 < UINT32_LIMIT)
  }

  predicate AllEncodable(level: Level, tokens: seq<Token>) {
    forall k :: 0 <= k < |tokens| ==> Encodable(level, tokens[k])
  }

  /** A length of any size as a run of 255s closed by a smaller byte. */
  function Chain(n: nat): (r: seq<Byte>)
    ensures 1 <= |r| <= 1 + n / 255
  {
    if n < 255 then [n] else [255] + Chain(n - 255)
  }

  /** First byte of a match: three bits of length, five high bits of the biased distance. */
  function MatchHead(length: nat, high: nat): Byte
    requires length >= 3 && high < 32
  {
    if length < 9 then (length - 2) * 32 + high else 7 * 32 + high
  }

  function LengthTail(level: Level, length: nat): seq<Byte>
    requires length >= 3
    requires level.One? ==> length <= MAX_LEN
  {
    if length < 9 then [] else if level.One? then [length - 9] else Chain(length - 9)
  }

  function EncodeToken(level: Level, t: Token): (r: seq<Byte>)
    requires Encodable(level, t)
    ensures |r| > 0
  {
    match t
    case Literal(bytes) => [|bytes| - 1] + bytes
    case Match(distance, length) =>
      var biased := distance - 1;
      if level.One? || biased < NEAR_LIMIT then
        [MatchHead(length, biased / 256)] + LengthTail(level, length) + [biased % 256]
      else
        var far := biased - NEAR_LIMIT;
        [MatchHead(length, 31)] + LengthTail(level, length) + [255, far / 256, far % 256]
  }

  function EncodeAll(level: Level, tokens: seq<Token>): (r: seq<Byte>)
    requires AllEncodable(level, tokens)
    ensures tokens != [] ==> |r| > 0
  {
    if tokens == [] then [] else EncodeToken(level, tokens[0]) + EncodeAll(level, tokens[1..])
  }

  lemma {:induction false} EncodeAllConcat(level: Level, a: seq<Token>, b: seq<Token>)
    requires AllEncodable(level, a) && AllEncodable(level, b)
    ensures AllEncodable(level, a + b)
    ensures EncodeAll(level, a + b) == EncodeAll(level, a) + EncodeAll(level, b)
    decreases |a|
  {
    hide EncodeToken, Encodable;
    if a == [] {
      assert a + b == b;
    } else {
      assert (a + b)[1..] == a[1..] + b;
      EncodeAllConcat(level, a[1..], b);
      EncodeAllCons(level, a);
      EncodeAllCons(level, a + b);
      hide EncodeAll;
      assert EncodeAll(level, a + b) == EncodeToken(level, a[0]) + (EncodeAll(level, a[1..]) + EncodeAll(level, b));
    }
  }

  lemma EncodeAllCons(level: Level, tokens: seq<Token>)
    requires AllEncodable(level, tokens) && tokens != []
    ensures Encodable(level, tokens[0]) && AllEncodable(level, tokens[1..])
    ensures EncodeAll(level, tokens) == EncodeToken(level, tokens[0]) + EncodeAll(level, tokens[1..])
  {
    hide EncodeToken, Encodable;
  }

  lemma EncodeAllOne(level: Level, t: Token)
    requires Encodable(level, t)
    ensures AllEncodable(level, [t]) && EncodeAll(level, [t]) == EncodeToken(level, t)
  {
    assert [t][1..] == [];
    assert EncodeAll(level, [t]) == EncodeToken(level, t) + EncodeAll(level, []);
  }

  /** Bit 5 of the first byte marks a level Two stream; a literal's control byte leaves it clear. */
  function Mark(b: Byte): Byte {
    if (b / 32) % 2 == 1 then b else b + 32
  }

  /** A finished stream: the encoded tokens, marked when `marked`. */
  function Stream(level: Level, marked: bool, tokens: seq<Token>): seq<Byte>
    requires AllEncodable(level, tokens)
  {
    var s := EncodeAll(level, tokens);
    if marked && s != [] then s[0 := Mark(s[0])] else s
  }

  /** What an encoded match consists of: its length in the high bits of the first byte and the bytes behind it. */
  lemma LengthBytes(level: Level, distance: nat, length: nat)
    requires Encodable(level, Match(distance, length))
    ensures var e := EncodeToken(level, Match(distance, length));
            var low := if level.Two? && distance > 8191 then 3 else 1;
            && e[0] / 32 == Min(length - 2, 7)
            && |e| >= 1 + low
            && (length < 9 ==> |e| == 1 + low)
            && (length >= 9 && level.One? ==> |e| == 3 && e[1] == length - 9)
            && (length >= 9 && level.Two? ==>
                  && |e| == 2 + low + (length - 9) / 255
                  && (forall k :: 1 <= k <= (length - 9) / 255 ==> e[k] == 255)
                  && e[1 + (length - 9) / 255] == (length - 9) % 255)
  {
    if level.Two? && length >= 9 {
      ChainIs(length - 9);
    }
  }

  lemma {:induction false} ChainIs(n: nat)
    ensures |Chain(n)| == 1 + n / 255
    ensures forall k :: 0 <= k < n / 255 ==> Chain(n)[k] == 255
    ensures Chain(n)[n / 255] == n % 255
    decreases n
  {
    if n >= 255 {
      ChainIs(n - 255);
      assert n / 255 == 1 + (n - 255) / 255;
    }
  }

  function Word(high: nat, low: nat): nat {
    256 * high + low
  }

  /**
   And its distance: thirteen bits, five of them in the first byte, or behind the escape of 31 and 255
   a remainder of two bytes, high byte first.
   */
  lemma DistanceBytes(level: Level, distance: nat, length: nat)
    requires Encodable(level, Match(distance, length))
    ensures var e := EncodeToken(level, Match(distance, length));
            var n := |e|;
            && n >= 2
            && (level.One? || distance <= 8191 ==> Word(e[0] % 32, e[n - 1]) == distance - 1)
            && (level.Two? && distance > 8191 ==>
                  n >= 4 && e[0] % 32 == 31 && e[n - 3] == 255 && Word(e[n - 2], e[n - 1]) == distance - 8192)
  {
    hide Chain;
  }

  // ---------- reading ----------

  /**
   The decoder reads match bytes without comparing against the end of its input, so memory is
   a sequence that may be longer than the input; anything beyond that reads as zero.
   */
  function ByteAt(mem: seq<Byte>, i: nat): Byte {
    if i < |mem| then mem[i] else 0
  }

  /** Adds length bytes to a 32-bit counter until one differs from 255. */
  function ReadChain(mem: seq<Byte>, ip: nat, len: nat): (r: (nat, nat))
    ensures r.1 > ip
    decreases |mem| - ip
  {
    var code := ByteAt(mem, ip);
    var len1 := (len + code) % UINT32_LIMIT;
    if code == 255 then ReadChain(mem, ip + 1, len1) else (len1, ip + 1)
  }

  /** The counter after a length chain: all its bytes added up, in 32 bits. */
  lemma {:induction false} ReadChainIs(mem: seq<Byte>, ip: nat, len: nat)
    requires len < UINT32_LIMIT
    ensures var (sum, next) := ReadChain(mem, ip, len);
            && (forall i :: ip <= i < next - 1 ==> ByteAt(mem, i) == 255)
            && ByteAt(mem, next - 1) != 255
            && sum == (len + 255 * (next - 1 - ip) + ByteAt(mem, next - 1)) % 0x1_0000_0000
    decreases |mem| - ip
  {
    if ByteAt(mem, ip) == 255 {
      ReadChainIs(mem, ip + 1, (len + 255) % UINT32_LIMIT);
      AddWrapped(len + 255, 255 * (ReadChain(mem, ip, len).1 - 2 - ip) + ByteAt(mem, ReadChain(mem, ip, len).1 - 1));
    }
  }

  lemma AddWrapped(a: nat, b: nat)
    ensures (a % 0x1_0000_0000 + b) % 0x1_0000_0000 == (a + b) % 0x1_0000_0000
  {
  }

  datatype Head = Head(token: Token, next: nat)

  function ReadLength(level: Level, mem: seq<Byte>, ctrl: Byte, ip: nat): (r: (nat, nat))
    requires ctrl >= 32
    ensures r.1 >= ip
  {
    var len := ctrl / 32 - 1;
    if len != 6 then (len, ip)
    else if level.One? then (len + ByteAt(mem, ip), ip + 1)
    else ReadChain(mem, ip, len)
  }

  function ReadMatch(level: Level, mem: seq<Byte>, ctrl: Byte, ip: nat): (h: Head)
    requires ctrl >= 32
    ensures h.next > ip && h.token.Match? && h.token.distance >= 1 && h.token.length >= 3
  {
    var (len, at) := ReadLength(level, mem, ctrl, ip);
    var code := ByteAt(mem, at);
    if level.Two? && code == 255 && ctrl % 32 == 31 then
      Head(Match(ByteAt(mem, at + 1) * 256 + ByteAt(mem, at + 2) + NEAR_LIMIT + 1, len + 3), at + 3)
    else
      Head(Match(ctrl % 32 * 256 + code + 1, len + 3), at + 1)
  }

  /** A match as it stands in memory, whoever wrote it: at level One its bytes in full. */
  lemma ReadMatchOneIs(mem: seq<Byte>, ctrl: Byte, ip: nat)
    requires ctrl >= 32
    ensures var at := if ctrl / 32 == 7 then ip + 1 else ip;
            ReadMatch(One, mem, ctrl, ip) ==
            Head(Match(Word(ctrl % 32, ByteAt(mem, at)) + 1, if ctrl / 32 == 7 then ByteAt(mem, ip) + 9 else ctrl / 32 + 2), at + 1)
  {
  }

  /** At level Two its length may be a chain, and 31 and 255 announce two more bytes of distance. */
  lemma ReadMatchTwoIs(mem: seq<Byte>, ctrl: Byte, ip: nat)
    requires ctrl >= 32
    ensures var (sum, next) := if ctrl / 32 == 7 then ReadChain(mem, ip, 6) else (ctrl / 32 - 1, ip);
            var far := ctrl % 32 == 31 && ByteAt(mem, next) == 255;
            ReadMatch(Two, mem, ctrl, ip) ==
            Head(Match(if far then Word(ByteAt(mem, next + 1), ByteAt(mem, next + 2)) + 8192 else Word(ctrl % 32, ByteAt(mem, next)) + 1,
                       sum + 3),
                 if far then next + 3 else next + 1)
  {
  }

  /** Reads the token whose control byte is `ctrl`; None when a literal run is cut off by the end of the input. */
  function ReadToken(level: Level, mem: seq<Byte>, length: nat, ctrl: Byte, ip: nat): (h: Option<Head>)
    requires length <= |mem|
    ensures h.Some? ==> h.value.next > ip
  {
    if ctrl >= 32 then Some(ReadMatch(level, mem, ctrl, ip))
    else if ip + ctrl + 1 > length then None
    else Some(Head(Literal(mem[ip..ip + ctrl + 1]), ip + ctrl + 1))
  }

  /** All tokens from position `pos` to the end of the input. */
  function ParseAt(level: Level, mem: seq<Byte>, length: nat, pos: nat): Option<seq<Token>>
    requires length <= |mem|
    decreases length - pos
  {
    if pos >= length then Some([])
    else ParseToken(level, mem, length, mem[pos], pos + 1)
  }

  function ParseToken(level: Level, mem: seq<Byte>, length: nat, ctrl: Byte, ip: nat): Option<seq<Token>>
    requires length <= |mem|
    decreases length - ip
  {
    match ReadToken(level, mem, length, ctrl, ip)
    case None => None
    case Some(h) =>
      if h.next >= length then Some([h.token])
      else
        match ParseToken(level, mem, length, mem[h.next], h.next + 1)
        case None => None
        case Some(rest) => Some([h.token] + rest)
  }

  /** The whole input. Only five bits of the very first byte count, so it always opens a literal run. */
  function Parse(level: Level, mem: seq<Byte>, length: nat): Option<seq<Token>>
    requires length <= |mem|
  {
    ParseToken(level, mem, length, ByteAt(mem, 0) % 32, 1)
  }

  /** Every token met from a control byte on, with the position behind it. */
  function Walk(level: Level, mem: seq<Byte>, length: nat, ctrl: Byte, ip: nat): seq<Head>
    requires length <= |mem|
    decreases length - ip
  {
    match ReadToken(level, mem, length, ctrl, ip)
    case None => []
    case Some(h) => if h.next >= length then [h] else [h] + Walk(level, mem, length, mem[h.next], h.next + 1)
  }

  /** The tokens met in the whole input. */
  function WholeWalk(level: Level, mem: seq<Byte>, length: nat): seq<Head>
    requires length <= |mem|
  {
    Walk(level, mem, length, ByteAt(mem, 0) % 32, 1)
  }

  /** The tokens met behind position `pos`, where an encoded token starts or the input ends. */
  function WalkAt(level: Level, mem: seq<Byte>, length: nat, pos: nat): seq<Head>
    requires length <= |mem|
  {
    if pos >= length then [] else Walk(level, mem, length, mem[pos], pos + 1)
  }

  /** No token reaches past the end of the input. */
  predicate AllInside(heads: seq<Head>, length: nat) {
    forall k :: 0 <= k < |heads| ==> heads[k].next <= length
  }

  /** Every token but the last ends before the end of the input. */
  predicate OnlyLastAtEnd(heads: seq<Head>, length: nat) {
    forall k :: 0 <= k < |heads| - 1 ==> heads[k].next < length
  }

  lemma {:induction false} WalkEndsAtEnd(level: Level, mem: seq<Byte>, length: nat, ctrl: Byte, ip: nat)
    requires length <= |mem|
    ensures OnlyLastAtEnd(Walk(level, mem, length, ctrl, ip), length)
    decreases length - ip
  {
    hide ReadToken, OnlyLastAtEnd;
    match ReadToken(level, mem, length, ctrl, ip)
    case None => OnlyLastShort([], length);
    case Some(h) =>
      if h.next < length {
        WalkEndsAtEnd(level, mem, length, mem[h.next], h.next + 1);
        OnlyLastCons(h, Walk(level, mem, length, mem[h.next], h.next + 1), length);
      } else {
        OnlyLastShort([h], length);
      }
  }

  lemma OnlyLastShort(heads: seq<Head>, length: nat)
    requires |heads| <= 1
    ensures OnlyLastAtEnd(heads, length)
  {
  }

  lemma OnlyLastCons(h: Head, rest: seq<Head>, length: nat)
    requires h.next < length && OnlyLastAtEnd(rest, length)
    ensures OnlyLastAtEnd([h] + rest, length)
  {
  }

  // ---------- reading inverts writing ----------

  /** `part` lies at position `at` of `mem`. */
  predicate Holds(mem: seq<Byte>, at: nat, part: seq<Byte>) {
    at + |part| <= |mem| && mem[at..at + |part|] == part
  }

  lemma HoldsSplit(mem: seq<Byte>, at: nat, a: seq<Byte>, b: seq<Byte>)
    requires Holds(mem, at, a + b)
    ensures Holds(mem, at, a) && Holds(mem, at + |a|, b)
  {
    var whole := mem[at..at + |a + b|];
    assert a == whole[..|a|] == mem[at..at + |a|];
    assert b == whole[|a|..] == mem[at + |a|..at + |a| + |b|];
  }

  lemma HoldsByte(mem: seq<Byte>, at: nat, part: seq<Byte>, k: nat)
    requires Holds(mem, at, part) && k < |part|
    ensures mem[at + k] == part[k]
  {
    assert mem[at + k] == mem[at..at + |part|][k];
  }

  lemma ChainBytes(mem: seq<Byte>, ip: nat, n: nat)
    requires Holds(mem, ip, Chain(n))
    ensures n < 255 ==> ByteAt(mem, ip) == n && |Chain(n)| == 1
    ensures n >= 255 ==> ByteAt(mem, ip) == 255 && Holds(mem, ip + 1, Chain(n - 255)) && |Chain(n)| == 1 + |Chain(n - 255)|
  {
    HoldsByte(mem, ip, Chain(n), 0);
    if n >= 255 {
      HoldsSplit(mem, ip, [255], Chain(n - 255));
    }
  }

  lemma {:induction false} ReadChainInverts(mem: seq<Byte>, ip: nat, n: nat, len: nat)
    requires Holds(mem, ip, Chain(n))
    requires len + n < UINT32_LIMIT
    ensures ReadChain(mem, ip, len) == (len + n, ip + |Chain(n)|)
    decreases n
  {
    hide Holds, Chain;
    ChainBytes(mem, ip, n);
    assert len + ByteAt(mem, ip) < UINT32_LIMIT;
    hide ByteAt;
    if n >= 255 {
      ReadChainInverts(mem, ip + 1, n - 255, len + 255);
    }
  }

  lemma ReadLengthInverts(level: Level, mem: seq<Byte>, ip: nat, length: nat, high: nat)
    requires Encodable(level, Match(1, length)) && high < 32
    requires Holds(mem, ip, LengthTail(level, length))
    ensures MatchHead(length, high) >= 32 && MatchHead(length, high) % 32 == high
    ensures ReadLength(level, mem, MatchHead(length, high), ip) == (length - 3, ip + |LengthTail(level, length)|)
  {
    if length >= 9 {
      if level.One? {
        HoldsByte(mem, ip, [length - 9], 0);
      } else {
        ReadChainInverts(mem, ip, length - 9, 6);
      }
    }
  }

  /** The fields of an encoded match come back one by one: length first, then the distance bytes `low`. */
  lemma ReadFieldsInvert(level: Level, mem: seq<Byte>, pos: nat, length: nat, high: nat, low: seq<Byte>)
    requires Encodable(level, Match(1, length)) && high < 32
    requires Holds(mem, pos, [MatchHead(length, high)] + LengthTail(level, length) + low)
    ensures mem[pos] >= 32 && mem[pos] % 32 == high
    ensures ReadLength(level, mem, mem[pos], pos + 1) == (length - 3, pos + 1 + |LengthTail(level, length)|)
    ensures Holds(mem, pos + 1 + |LengthTail(level, length)|, low)
  {
    var first, tail := [MatchHead(length, high)], LengthTail(level, length);
    HoldsSplit(mem, pos, first + tail, low);
    HoldsSplit(mem, pos, first, tail);
    HoldsByte(mem, pos, first, 0);
    ReadLengthInverts(level, mem, pos + 1, length, high);
  }

  /** Near matches: the escape needs high bits 31 and low byte 255, that is a biased distance of NEAR_LIMIT. */
  lemma ReadNearInverts(level: Level, mem: seq<Byte>, pos: nat, length: nat, biased: nat)
    requires Encodable(level, Match(biased + 1, length))
    requires level.One? || biased < NEAR_LIMIT
    requires Holds(mem, pos, [MatchHead(length, biased / 256)] + LengthTail(level, length) + [biased % 256])
    ensures mem[pos] >= 32
    ensures ReadMatch(level, mem, mem[pos], pos + 1) ==
            Head(Match(biased + 1, length), pos + 2 + |LengthTail(level, length)|)
  {
    var at := pos + 1 + |LengthTail(level, length)|;
    ReadFieldsInvert(level, mem, pos, length, biased / 256, [biased % 256]);
    HoldsByte(mem, at, [biased % 256], 0);
  }

  lemma ReadFarInverts(mem: seq<Byte>, pos: nat, length: nat, far: nat)
    requires Encodable(Two, Match(far + NEAR_LIMIT + 1, length))
    requires Holds(mem, pos, [MatchHead(length, 31)] + LengthTail(Two, length) + [255, far / 256, far % 256])
    ensures mem[pos] >= 32
    ensures ReadMatch(Two, mem, mem[pos], pos + 1) ==
            Head(Match(far + NEAR_LIMIT + 1, length), pos + 4 + |LengthTail(Two, length)|)
  {
    var at := pos + 1 + |LengthTail(Two, length)|;
    var low := [255, far / 256, far % 256];
    ReadFieldsInvert(Two, mem, pos, length, 31, low);
    HoldsByte(mem, at, low, 0);
    HoldsByte(mem, at, low, 1);
    HoldsByte(mem, at, low, 2);
  }

  lemma ReadLiteralInverts(level: Level, mem: seq<Byte>, length: nat, pos: nat, bytes: seq<Byte>)
    requires Encodable(level, Literal(bytes))
    requires length <= |mem| && pos + 1 + |bytes| <= length
    requires Holds(mem, pos, [|bytes| - 1] + bytes)
    ensures ReadToken(level, mem, length, mem[pos], pos + 1) == Some(Head(Literal(bytes), pos + 1 + |bytes|))
  {
    HoldsSplit(mem, pos, [|bytes| - 1], bytes);
    HoldsByte(mem, pos, [|bytes| - 1], 0);
  }

  lemma ReadMatchInverts(level: Level, mem: seq<Byte>, length: nat, pos: nat, distance: nat, count: nat)
    requires Encodable(level, Match(distance, count)) && length <= |mem|
    requires Holds(mem, pos, EncodeToken(level, Match(distance, count)))
    ensures ReadToken(level, mem, length, mem[pos], pos + 1) ==
            Some(Head(Match(distance, count), pos + |EncodeToken(level, Match(distance, count))|))
  {
    hide ReadMatch, MatchHead, LengthTail, Holds;
    var biased := distance - 1;
    if level.One? || biased < NEAR_LIMIT {
      ReadNearInverts(level, mem, pos, count, biased);
    } else {
      ReadFarInverts(mem, pos, count, biased - NEAR_LIMIT);
    }
  }

  lemma ReadTokenInverts(level: Level, mem: seq<Byte>, length: nat, pos: nat, t: Token)
    requires Encodable(level, t)
    requires length <= |mem| && pos + |EncodeToken(level, t)| <= length
    requires Holds(mem, pos, EncodeToken(level, t))
    ensures ReadToken(level, mem, length, mem[pos], pos + 1) == Some(Head(t, pos + |EncodeToken(level, t)|))
  {
    hide Holds, ReadToken, Encodable;
    match t
    case Literal(bytes) => ReadLiteralInverts(level, mem, length, pos, bytes);
    case Match(distance, count) => ReadMatchInverts(level, mem, length, pos, distance, count);
  }

  lemma ParseTokenStep(level: Level, mem: seq<Byte>, length: nat, ctrl: Byte, ip: nat, h: Head)
    requires length <= |mem|
    requires ReadToken(level, mem, length, ctrl, ip) == Some(h)
    ensures ParseToken(level, mem, length, ctrl, ip) ==
            match ParseAt(level, mem, length, h.next) {
              case None => None
              case Some(rest) => Some([h.token] + rest)
            }
  {
    assert [h.token] + [] == [h.token];
  }

  lemma ParseAtCons(level: Level, mem: seq<Byte>, length: nat, pos: nat, t: Token, rest: seq<Token>)
    requires Encodable(level, t)
    requires length <= |mem| && pos + |EncodeToken(level, t)| <= length
    requires Holds(mem, pos, EncodeToken(level, t))
    requires ParseAt(level, mem, length, pos + |EncodeToken(level, t)|) == Some(rest)
    ensures ParseAt(level, mem, length, pos) == Some([t] + rest)
  {
    hide ReadToken, EncodeToken, Encodable, Holds, ParseToken;
    ReadTokenInverts(level, mem, length, pos, t);
    ParseTokenStep(level, mem, length, mem[pos], pos + 1, Head(t, pos + |EncodeToken(level, t)|));
  }

  lemma EncodeAllStep(level: Level, mem: seq<Byte>, pos: nat, tokens: seq<Token>)
    requires AllEncodable(level, tokens) && tokens != []
    requires Holds(mem, pos, EncodeAll(level, tokens))
    ensures Encodable(level, tokens[0]) && AllEncodable(level, tokens[1..])
    ensures |EncodeAll(level, tokens)| == |EncodeToken(level, tokens[0])| + |EncodeAll(level, tokens[1..])|
    ensures Holds(mem, pos, EncodeToken(level, tokens[0]))
    ensures Holds(mem, pos + |EncodeToken(level, tokens[0])|, EncodeAll(level, tokens[1..]))
  {
    hide Holds, EncodeToken, EncodeAll, Encodable, AllEncodable;
    EncodeAllCons(level, tokens);
    HoldsSplit(mem, pos, EncodeToken(level, tokens[0]), EncodeAll(level, tokens[1..]));
  }

  lemma NothingLeft(level: Level, mem: seq<Byte>, length: nat)
    requires length <= |mem|
    ensures AllEncodable(level, []) && EncodeAll(level, []) == []
    ensures ParseAt(level, mem, length, length) == Some([]) && WalkAt(level, mem, length, length) == []
    ensures AllInside([], length)
  {
  }

  lemma {:induction false} ParseInvertsAt(level: Level, mem: seq<Byte>, length: nat, pos: nat, tokens: seq<Token>)
    requires AllEncodable(level, tokens)
    requires length <= |mem| && pos + |EncodeAll(level, tokens)| == length
    requires Holds(mem, pos, EncodeAll(level, tokens))
    ensures ParseAt(level, mem, length, pos) == Some(tokens)
    decreases |tokens|
  {
    hide Holds, EncodeToken, EncodeAll, Encodable, AllEncodable, ParseAt;
    if tokens == [] {
      NothingLeft(level, mem, length);
    } else {
      EncodeAllStep(level, mem, pos, tokens);
      ParseInvertsAt(level, mem, length, pos + |EncodeToken(level, tokens[0])|, tokens[1..]);
      ParseAtCons(level, mem, length, pos, tokens[0], tokens[1..]);
      assert tokens == [tokens[0]] + tokens[1..];
    }
  }

  lemma ParseFirst(level: Level, mem: seq<Byte>, length: nat, bytes: seq<Byte>, rest: seq<Token>)
    requires Encodable(level, Literal(bytes)) && AllEncodable(level, rest)
    requires length == 1 + |bytes| + |EncodeAll(level, rest)| <= |mem|
    requires mem[0] % 32 == |bytes| - 1
    requires Holds(mem, 1, bytes + EncodeAll(level, rest))
    ensures Parse(level, mem, length) == Some([Literal(bytes)] + rest)
  {
    hide EncodeAll, ParseAt, Encodable, AllEncodable;
    HoldsSplit(mem, 1, bytes, EncodeAll(level, rest));
    ParseInvertsAt(level, mem, length, 1 + |bytes|, rest);
    ParseTokenStep(level, mem, length, mem[0] % 32, 1, Head(Literal(bytes), 1 + |bytes|));
  }

  lemma StreamShape(level: Level, marked: bool, tokens: seq<Token>)
    requires AllEncodable(level, tokens) && tokens != [] && tokens[0].Literal?
    ensures var s, bytes := Stream(level, marked, tokens), tokens[0].bytes;
            && |s| == 1 + |bytes| + |EncodeAll(level, tokens[1..])|
            && s[0] == |bytes| - 1 + (if marked then 32 else 0)
            && s[1..] == bytes + EncodeAll(level, tokens[1..])
  {
    var first, more := EncodeToken(level, tokens[0]), EncodeAll(level, tokens[1..]);
    var plain := EncodeAll(level, tokens);
    assert plain == first + more && first[0] == |tokens[0].bytes| - 1;
    assert plain[1..] == first[1..] + more;
    assert marked ==> plain[0 := Mark(plain[0])][1..] == plain[1..];
  }

  /**
   Reading back a finished stream gives the tokens it was written from, marked or not, and
   whatever bytes lie behind it in memory.
   */
  lemma ParseInverts(level: Level, marked: bool, mem: seq<Byte>, tokens: seq<Token>)
    requires AllEncodable(level, tokens) && tokens != [] && tokens[0].Literal?
    requires Stream(level, marked, tokens) <= mem
    ensures Parse(level, mem, |Stream(level, marked, tokens)|) == Some(tokens)
  {
    hide EncodeToken, EncodeAll, ParseToken;
    var s := Stream(level, marked, tokens);
    StreamShape(level, marked, tokens);
    assert mem[0] == s[0];
    assert mem[1..|s|] == s[1..];
    ParseFirst(level, mem, |s|, tokens[0].bytes, tokens[1..]);
    assert tokens == [tokens[0]] + tokens[1..];
  }

  lemma WalkStep(level: Level, mem: seq<Byte>, length: nat, ctrl: Byte, ip: nat, h: Head)
    requires length <= |mem| && ReadToken(level, mem, length, ctrl, ip) == Some(h)
    ensures Walk(level, mem, length, ctrl, ip) == [h] + WalkAt(level, mem, length, h.next)
  {
    assert [h] + [] == [h];
  }

  lemma AllInsideCons(h: Head, rest: seq<Head>, length: nat)
    ensures AllInside([h] + rest, length) <==> h.next <= length && AllInside(rest, length)
  {
    var all := [h] + rest;
    if AllInside(all, length) {
      assert all[0].next <= length;
      forall k | 0 <= k < |rest|
        ensures rest[k].next <= length
      {
        assert all[k + 1].next <= length;
      }
    }
  }

  lemma WalkCutOff(level: Level, mem: seq<Byte>, length: nat, ctrl: Byte, ip: nat)
    requires length <= |mem| && ReadToken(level, mem, length, ctrl, ip).None?
    ensures Walk(level, mem, length, ctrl, ip) == []
  {
  }

  /** An encoded token that ends inside the input, with only such tokens behind it. */
  lemma TokenWalkInside(level: Level, mem: seq<Byte>, length: nat, pos: nat, t: Token)
    requires Encodable(level, t)
    requires length <= |mem| && pos + |EncodeToken(level, t)| <= length
    requires Holds(mem, pos, EncodeToken(level, t))
    requires AllInside(WalkAt(level, mem, length, pos + |EncodeToken(level, t)|), length)
    ensures AllInside(WalkAt(level, mem, length, pos), length)
  {
    hide Holds, EncodeToken, Encodable, ReadToken, Walk;
    var h := Head(t, pos + |EncodeToken(level, t)|);
    ReadTokenInverts(level, mem, length, pos, t);
    WalkStep(level, mem, length, mem[pos], pos + 1, h);
  }

  lemma {:induction false} EncodedWalkInside(level: Level, mem: seq<Byte>, length: nat, pos: nat, tokens: seq<Token>)
    requires AllEncodable(level, tokens)
    requires length <= |mem| && pos + |EncodeAll(level, tokens)| == length
    requires Holds(mem, pos, EncodeAll(level, tokens))
    ensures AllInside(WalkAt(level, mem, length, pos), length)
    decreases |tokens|
  {
    hide Holds, EncodeToken, EncodeAll, Encodable, AllEncodable, WalkAt, AllInside;
    if tokens == [] {
      NothingLeft(level, mem, length);
    } else {
      EncodeAllStep(level, mem, pos, tokens);
      EncodedWalkInside(level, mem, length, pos + |EncodeToken(level, tokens[0])|, tokens[1..]);
      TokenWalkInside(level, mem, length, pos, tokens[0]);
    }
  }

  lemma FirstWalkInside(level: Level, mem: seq<Byte>, length: nat, bytes: seq<Byte>, rest: seq<Token>)
    requires Encodable(level, Literal(bytes)) && AllEncodable(level, rest)
    requires length == 1 + |bytes| + |EncodeAll(level, rest)| <= |mem|
    requires mem[0] % 32 == |bytes| - 1
    requires Holds(mem, 1, bytes + EncodeAll(level, rest))
    ensures AllInside(WholeWalk(level, mem, length), length)
  {
    hide EncodeAll, WalkAt, Encodable, AllEncodable;
    HoldsSplit(mem, 1, bytes, EncodeAll(level, rest));
    EncodedWalkInside(level, mem, length, 1 + |bytes|, rest);
    WalkStep(level, mem, length, mem[0] % 32, 1, Head(Literal(bytes), 1 + |bytes|));
  }

  /** No token of a finished stream reaches past its end. */
  lemma StreamWalkInside(level: Level, marked: bool, mem: seq<Byte>, tokens: seq<Token>)
    requires AllEncodable(level, tokens) && tokens != [] && tokens[0].Literal?
    requires Stream(level, marked, tokens) <= mem
    ensures AllInside(WholeWalk(level, mem, |Stream(level, marked, tokens)|), |Stream(level, marked, tokens)|)
  {
    hide EncodeToken, EncodeAll, Walk, WholeWalk, AllInside;
    var s := Stream(level, marked, tokens);
    StreamShape(level, marked, tokens);
    assert mem[0] == s[0];
    assert mem[1..|s|] == s[1..];
    FirstWalkInside(level, mem, |s|, tokens[0].bytes, tokens[1..]);
  }
}
