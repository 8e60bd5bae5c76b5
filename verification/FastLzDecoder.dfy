/**
 The FastLZ decompressor at both levels, proved against "parse the tokens, expand them,
 accept when the result fits".
 */
module FastLzDecoder {
  import opened Basics
  import opened Lz77
  import opened FastLzFormat

  function Fitting(v: Option<seq<Byte>>, maxout: int): Option<seq<Byte>> {
    if v.Some? && |v.value| <= maxout then v else None
  }

  /** What the decompressor accepts and what it then produces. */
  function Decode(level: Level, mem: seq<Byte>, length: nat, maxout: int): Option<seq<Byte>>
    requires length <= |mem|
  {
    match Parse(level, mem, length)
    case None => None
    case Some(tokens) => Fitting(Expand([], tokens), maxout)
  }

  /** A stream that decodes at all decodes to at least one byte, so a result of 0 always means failure. */
  lemma DecodeNonEmpty(level: Level, mem: seq<Byte>, length: nat, maxout: int)
    requires length <= |mem|
    ensures Decode(level, mem, length, maxout).Some? ==> 1 <= |Decode(level, mem, length, maxout).value| <= maxout
  {
    var tokens := Parse(level, mem, length);
    if tokens.Some? {
      assert tokens.value[0].Literal? && |tokens.value[0].bytes| >= 1;
      ExpandGrows(Play([], tokens.value[0]), tokens.value[1..]);
    }
  }

  // ---------- the state between two tokens ----------

  function Resume(level: Level, mem: seq<Byte>, length: nat, maxout: int, ctrl: Byte, ip: nat, out: seq<Byte>): Option<seq<Byte>>
    requires length <= |mem|
  {
    match ParseToken(level, mem, length, ctrl, ip)
    case None => None
    case Some(tokens) => Fitting(Expand(out, tokens), maxout)
  }

  lemma DecodeIsResume(level: Level, mem: seq<Byte>, length: nat, maxout: int)
    requires length <= |mem|
    ensures Decode(level, mem, length, maxout) == Resume(level, mem, length, maxout, ByteAt(mem, 0) % 32, 1, [])
  {
  }

  lemma ResumeStep(level: Level, mem: seq<Byte>, length: nat, maxout: int, ctrl: Byte, ip: nat, out: seq<Byte>, h: Head)
    requires length <= |mem|
    requires ReadToken(level, mem, length, ctrl, ip) == Some(h)
    ensures Resume(level, mem, length, maxout, ctrl, ip, out) ==
            if !Playable(out, h.token) || |Play(out, h.token)| > maxout then None
            else if h.next >= length then Some(Play(out, h.token))
            else Resume(level, mem, length, maxout, mem[h.next], h.next + 1, Play(out, h.token))
  {
    ParseTokenStep(level, mem, length, ctrl, ip, h);
    var more := ParseAt(level, mem, length, h.next);
    if more.Some? {
      var tokens := [h.token] + more.value;
      assert tokens[1..] == more.value;
      if Playable(out, h.token) {
        ExpandGrows(Play(out, h.token), more.value);
      }
    }
  }

  lemma ResumeCutOff(level: Level, mem: seq<Byte>, length: nat, maxout: int, ctrl: Byte, ip: nat, out: seq<Byte>)
    requires length <= |mem|
    requires ReadToken(level, mem, length, ctrl, ip).None?
    ensures Resume(level, mem, length, maxout, ctrl, ip, out) == None
  {
  }

  // ---------- what the decoder reads ----------

  /** The decoder's view of memory: the input and what lies behind it. `top` is one past the last byte read so far. */
  class Source {
    const mem: seq<Byte>
    ghost var top: nat

    constructor (mem: seq<Byte>)
      ensures this.mem == mem && top == 0
    {
      this.mem := mem;
      top := 0;
    }

    method Get(i: nat) returns (b: Byte)
      modifies this
      ensures b == ByteAt(mem, i) && top == Max(old(top), i + 1)
    {
      b := if i < |mem| then mem[i] else 0;
      top := Max(top, i + 1);
    }
  }

  /** Where reading for a token stops: a literal that does not fit, or is cut off, is refused before its bytes are read. */
  function TokenTop(h: Option<Head>, ip: nat, room: int): (r: nat)
    requires h.Some? ==> h.value.next > ip
    ensures r >= ip
  {
    if h.None? || (h.value.token.Literal? && |h.value.token.bytes| > room) then ip else h.value.next
  }

  /** One past the last byte the decoder reads, from a control byte on. */
  function TopFrom(level: Level, mem: seq<Byte>, length: nat, maxout: int, ctrl: Byte, ip: nat, out: seq<Byte>): (r: nat)
    requires length <= |mem|
    ensures r >= ip
    decreases length - ip
  {
    var h := ReadToken(level, mem, length, ctrl, ip);
    if h.None? || !Accepts(out, h.value.token, maxout) || h.value.next >= length then TokenTop(h, ip, maxout - |out|)
    else TopFrom(level, mem, length, maxout, mem[h.value.next], h.value.next + 1, Play(out, h.value.token))
  }

  lemma TopStep(level: Level, mem: seq<Byte>, length: nat, maxout: int, ctrl: Byte, ip: nat, out: seq<Byte>)
    requires length <= |mem|
    ensures var h := ReadToken(level, mem, length, ctrl, ip);
            TopFrom(level, mem, length, maxout, ctrl, ip, out) ==
            if h.None? || !Accepts(out, h.value.token, maxout) || h.value.next >= length then TokenTop(h, ip, maxout - |out|)
            else TopFrom(level, mem, length, maxout, mem[h.value.next], h.value.next + 1, Play(out, h.value.token))
  {
  }

  /** One past the last byte the decoder reads. */
  function Top(level: Level, mem: seq<Byte>, length: nat, maxout: int): (r: nat)
    requires length <= |mem|
    ensures r >= 1
  {
    TopFrom(level, mem, length, maxout, ByteAt(mem, 0) % 32, 1, [])
  }

  predicate Accepts(out: seq<Byte>, t: Token, maxout: int) {
    Playable(out, t) && |Play(out, t)| <= maxout
  }

  function TokensOf(heads: seq<Head>): (r: seq<Token>)
    ensures |r| == |heads|
    ensures forall k :: 0 <= k < |r| ==> r[k] == heads[k].token
  {
    seq(|heads|, k requires 0 <= k < |heads| => heads[k].token)
  }

  /** The decoder gets as far as token `k`: the tokens before it expand and fit. */
  predicate Meets(out: seq<Byte>, heads: seq<Head>, k: nat, maxout: int)
    requires k <= |heads|
  {
    Fitting(Expand(out, TokensOf(heads[..k])), maxout).Some?
  }

  /** No token the decoder meets reaches past the end of the input. */
  ghost predicate MetInside(out: seq<Byte>, heads: seq<Head>, length: nat, maxout: int) {
    forall k :: 0 <= k < |heads| && Meets(out, heads, k, maxout) ==> heads[k].next <= length
  }

  lemma MeetsFirst(out: seq<Byte>, heads: seq<Head>, maxout: int)
    requires |out| <= maxout
    ensures Meets(out, heads, 0, maxout)
  {
    assert TokensOf(heads[..0]) == [];
  }

  lemma MeetsNext(out: seq<Byte>, h: Head, rest: seq<Head>, k: nat, maxout: int)
    requires k <= |rest|
    ensures Meets(out, [h] + rest, k + 1, maxout) ==
            (Accepts(out, h.token, maxout) && Meets(Play(out, h.token), rest, k, maxout))
  {
    var tokens := TokensOf(([h] + rest)[..k + 1]);
    assert ([h] + rest)[..k + 1] == [h] + rest[..k];
    assert tokens[0] == h.token && tokens[1..] == TokensOf(rest[..k]);
    if Playable(out, h.token) {
      ExpandGrows(Play(out, h.token), tokens[1..]);
    }
  }

  lemma MetInsideCons(out: seq<Byte>, h: Head, rest: seq<Head>, length: nat, maxout: int)
    requires |out| <= maxout
    ensures MetInside(out, [h] + rest, length, maxout) <==>
            h.next <= length && (Accepts(out, h.token, maxout) ==> MetInside(Play(out, h.token), rest, length, maxout))
  {
    hide Meets, Play;
    var heads := [h] + rest;
    MeetsFirst(out, heads, maxout);
    forall k | 0 <= k < |rest|
      ensures heads[k + 1] == rest[k]
      ensures Meets(out, heads, k + 1, maxout) ==
              (Accepts(out, h.token, maxout) && Meets(Play(out, h.token), rest, k, maxout))
    {
      MeetsNext(out, h, rest, k, maxout);
    }
    if MetInside(out, heads, length, maxout) {
      assert heads[0].next <= length;
    } else {
      var k :| 0 <= k < |heads| && Meets(out, heads, k, maxout) && heads[k].next > length;
      assert k > 0 ==> heads[k] == rest[k - 1];
    }
  }

  lemma {:induction false} TopInsideFrom(level: Level, mem: seq<Byte>, length: nat, maxout: int, ctrl: Byte, ip: nat, out: seq<Byte>)
    requires length <= |mem| && |out| <= maxout
    ensures TopFrom(level, mem, length, maxout, ctrl, ip, out) <= length <==>
            ip <= length && MetInside(out, Walk(level, mem, length, ctrl, ip), length, maxout)
    decreases length - ip
  {
    hide TopFrom, ReadToken, Walk, MetInside, Play;
    TopStep(level, mem, length, maxout, ctrl, ip, out);
    match ReadToken(level, mem, length, ctrl, ip)
    case None =>
      WalkCutOff(level, mem, length, ctrl, ip);
      MetNothing(out, length, maxout);
    case Some(h) =>
      WalkStep(level, mem, length, ctrl, ip, h);
      LiteralEndsInside(level, mem, length, ctrl, ip);
      MetInsideCons(out, h, WalkAt(level, mem, length, h.next), length, maxout);
      if Accepts(out, h.token, maxout) {
        if h.next < length {
          TopInsideFrom(level, mem, length, maxout, mem[h.next], h.next + 1, Play(out, h.token));
        } else {
          MetNothing(Play(out, h.token), length, maxout);
        }
      }
  }

  lemma MetNothing(out: seq<Byte>, length: nat, maxout: int)
    ensures MetInside(out, [], length, maxout)
  {
  }

  lemma LiteralEndsInside(level: Level, mem: seq<Byte>, length: nat, ctrl: Byte, ip: nat)
    requires length <= |mem|
    ensures var h := ReadToken(level, mem, length, ctrl, ip);
            h.Some? && h.value.token.Literal? ==> h.value.next <= length
  {
  }

  /**
   The decoder reads no byte outside its input if and only if the input is not empty and no token
   it meets reaches past the end.
   */
  lemma ReadsInsideIff(level: Level, mem: seq<Byte>, length: nat, maxout: int)
    requires length <= |mem|
    ensures Top(level, mem, length, maxout) <= length <==>
            length > 0 && MetInside([], WholeWalk(level, mem, length), length, maxout)
  {
    if maxout >= 0 {
      TopInsideFrom(level, mem, length, maxout, ByteAt(mem, 0) % 32, 1, []);
    } else {
      NoRoom(level, mem, length, maxout);
    }
  }

  /** With no room at all the first control byte is read, and nothing is accepted. */
  lemma NoRoom(level: Level, mem: seq<Byte>, length: nat, maxout: int)
    requires length <= |mem| && maxout < 0
    ensures Top(level, mem, length, maxout) == 1 && Decode(level, mem, length, maxout) == None
    ensures MetInside([], WholeWalk(level, mem, length), length, maxout)
  {
  }

  // ---------- how far behind the input ----------

  lemma {:induction false} TopOneFrom(mem: seq<Byte>, length: nat, maxout: int, ctrl: Byte, ip: nat, out: seq<Byte>)
    requires length <= |mem|
    ensures TopFrom(One, mem, length, maxout, ctrl, ip, out) <= Max(ip, length) + 2
    decreases length - ip
  {
    hide TopFrom, ReadToken, Play, Playable, TokenTop;
    TopStep(One, mem, length, maxout, ctrl, ip, out);
    NextOne(mem, length, ctrl, ip, maxout - |out|);
    var h := ReadToken(One, mem, length, ctrl, ip);
    if h.Some? && Accepts(out, h.value.token, maxout) && h.value.next < length {
      TopOneFrom(mem, length, maxout, mem[h.value.next], h.value.next + 1, Play(out, h.value.token));
    }
  }

  /** A level One match has at most two bytes behind its control byte. */
  lemma NextOne(mem: seq<Byte>, length: nat, ctrl: Byte, ip: nat, room: int)
    requires length <= |mem|
    ensures TokenTop(ReadToken(One, mem, length, ctrl, ip), ip, room) <= Max(ip, length) + 2
  {
  }

  /** At level One at most two bytes behind the input are read. */
  lemma TopOneBound(mem: seq<Byte>, length: nat, maxout: int)
    requires 0 < length <= |mem|
    ensures Top(One, mem, length, maxout) <= length + 2
  {
    TopOneFrom(mem, length, maxout, ByteAt(mem, 0) % 32, 1, []);
  }

  function Many(n: nat): (r: seq<Byte>)
    ensures |r| == n && forall i :: 0 <= i < n ==> r[i] == 255
  {
    seq(n, _ => 255)
  }

  lemma {:induction false} LongChain(mem: seq<Byte>, ip: nat, end: nat, len: nat)
    requires ip <= end <= |mem| && forall i :: ip <= i < end ==> mem[i] == 255
    ensures ReadChain(mem, ip, len).1 > end
    decreases end - ip
  {
    if ip < end {
      LongChain(mem, ip + 1, end, (len + 255) % UINT32_LIMIT);
    }
  }

  /** At level Two there is no bound: a length chain behind a three-byte input is read to its end. */
  lemma TopTwoUnbounded(n: nat, maxout: int)
    requires maxout >= 1
    ensures Top(Two, [32, 65, 224] + Many(n), 3, maxout) > n
    ensures Top(One, [32, 65, 224] + Many(n), 3, maxout) == 5
  {
    var mem: seq<Byte> := [32, 65, 224] + Many(n);
    var first := Head(Literal([65]), 2);
    assert mem[1..2] == [65];
    assert ByteAt(mem, 0) % 32 == 0 && mem[2] == 224;
    assert ReadToken(Two, mem, 3, 0, 1) == Some(first) && ReadToken(One, mem, 3, 0, 1) == Some(first);
    LongChain(mem, 3, 3 + n, 6);
    PlaysSingly(0);
    TopStep(Two, mem, 3, maxout, 0, 1, []);
    TopStep(One, mem, 3, maxout, 0, 1, []);
    TopStep(Two, mem, 3, maxout, 224, 3, [65]);
    TopStep(One, mem, 3, maxout, 224, 3, [65]);
    assert ReadToken(One, mem, 3, 224, 3).value.next == 5;
    assert ReadToken(Two, mem, 3, 224, 3).value.next > n;
    hide ReadToken, TopFrom, Play;
  }

  // ---------- the bytes read decide ----------

  lemma {:induction false} AcceptedMeetsAll(level: Level, mem: seq<Byte>, length: nat, maxout: int, ctrl: Byte, ip: nat, out: seq<Byte>)
    requires length <= |mem| && |out| <= maxout
    requires Resume(level, mem, length, maxout, ctrl, ip, out).Some?
    ensures MetInside(out, Walk(level, mem, length, ctrl, ip), length, maxout) <==>
            AllInside(Walk(level, mem, length, ctrl, ip), length)
    decreases length - ip
  {
    hide Resume, ReadToken, Walk, MetInside, AllInside, Play;
    match ReadToken(level, mem, length, ctrl, ip)
    case None => ResumeCutOff(level, mem, length, maxout, ctrl, ip, out);
    case Some(h) =>
      var rest := WalkAt(level, mem, length, h.next);
      ResumeStep(level, mem, length, maxout, ctrl, ip, out, h);
      WalkStep(level, mem, length, ctrl, ip, h);
      MetInsideCons(out, h, rest, length, maxout);
      AllInsideCons(h, rest, length);
      if h.next < length {
        AcceptedMeetsAll(level, mem, length, maxout, mem[h.next], h.next + 1, Play(out, h.token));
      } else {
        MetNothing(Play(out, h.token), length, maxout);
        NothingLeft(level, mem, length);
      }
  }

  lemma EmptyRejected(level: Level, mem: seq<Byte>, maxout: int)
    ensures Decode(level, mem, 0, maxout) == None
  {
  }

  /** For input that decodes, all tokens are met: reading stays inside if and only if the last one does. */
  lemma AcceptedReadsInsideIff(level: Level, mem: seq<Byte>, length: nat, maxout: int)
    requires length <= |mem| && Decode(level, mem, length, maxout).Some?
    ensures Top(level, mem, length, maxout) <= length <==> AllInside(WholeWalk(level, mem, length), length)
  {
    hide Resume, Walk, AllInside;
    DecodeIsResume(level, mem, length, maxout);
    ReadsInsideIff(level, mem, length, maxout);
    AcceptedMeetsAll(level, mem, length, maxout, ByteAt(mem, 0) % 32, 1, []);
    EmptyRejected(level, mem, maxout);
  }

  predicate Agree(a: seq<Byte>, b: seq<Byte>, n: nat) {
    forall i :: 0 <= i < n ==> ByteAt(a, i) == ByteAt(b, i)
  }

  lemma {:induction false} ChainAgrees(a: seq<Byte>, b: seq<Byte>, ip: nat, len: nat)
    requires Agree(a, b, ReadChain(a, ip, len).1)
    ensures ReadChain(b, ip, len) == ReadChain(a, ip, len)
    decreases |a| - ip
  {
    if ByteAt(a, ip) == 255 {
      ChainAgrees(a, b, ip + 1, (len + 255) % UINT32_LIMIT);
    }
  }

  lemma MatchAgrees(level: Level, a: seq<Byte>, b: seq<Byte>, ctrl: Byte, ip: nat)
    requires ctrl >= 32 && Agree(a, b, ReadMatch(level, a, ctrl, ip).next)
    ensures ReadMatch(level, b, ctrl, ip) == ReadMatch(level, a, ctrl, ip)
  {
    if level.Two? && ctrl / 32 == 7 {
      ChainAgrees(a, b, ip, 6);
    }
  }

  /** Two memories that agree on what is read for a token give the same token, or the same refusal. */
  lemma TokenAgrees(level: Level, a: seq<Byte>, b: seq<Byte>, length: nat, ctrl: Byte, ip: nat, room: int)
    requires length <= |a| && length <= |b|
    requires Agree(a, b, TokenTop(ReadToken(level, a, length, ctrl, ip), ip, room))
    ensures var h, g := ReadToken(level, a, length, ctrl, ip), ReadToken(level, b, length, ctrl, ip);
            && TokenTop(g, ip, room) == TokenTop(h, ip, room)
            && (h == g || (h.Some? && g.Some? && h.value.token.Literal? && g.value.token.Literal? &&
                           |h.value.token.bytes| == |g.value.token.bytes| > room))
  {
    if ctrl >= 32 {
      MatchAgrees(level, a, b, ctrl, ip);
    } else if ip + ctrl + 1 <= length && ctrl + 1 <= room {
      forall i | ip <= i < ip + ctrl + 1
        ensures a[i] == b[i]
      {
        assert ByteAt(a, i) == ByteAt(b, i);
      }
      assert a[ip..ip + ctrl + 1] == b[ip..ip + ctrl + 1];
    }
  }

  lemma {:induction false} ResumeAgrees(level: Level, a: seq<Byte>, b: seq<Byte>, length: nat, maxout: int, ctrl: Byte, ip: nat, out: seq<Byte>)
    requires length <= |a| && length <= |b|
    requires Agree(a, b, TopFrom(level, a, length, maxout, ctrl, ip, out))
    ensures Resume(level, b, length, maxout, ctrl, ip, out) == Resume(level, a, length, maxout, ctrl, ip, out)
    ensures TopFrom(level, b, length, maxout, ctrl, ip, out) == TopFrom(level, a, length, maxout, ctrl, ip, out)
    decreases length - ip
  {
    hide Resume, ReadToken, TopFrom, Agree, Play;
    TopStep(level, a, length, maxout, ctrl, ip, out);
    TopStep(level, b, length, maxout, ctrl, ip, out);
    var h, g := ReadToken(level, a, length, ctrl, ip), ReadToken(level, b, length, ctrl, ip);
    AgreeBelow(a, b, TopFrom(level, a, length, maxout, ctrl, ip, out), TokenTop(h, ip, maxout - |out|));
    TokenAgrees(level, a, b, length, ctrl, ip, maxout - |out|);
    if h.None? {
      ResumeCutOff(level, a, length, maxout, ctrl, ip, out);
      ResumeCutOff(level, b, length, maxout, ctrl, ip, out);
    } else {
      ResumeStep(level, a, length, maxout, ctrl, ip, out, h.value);
      ResumeStep(level, b, length, maxout, ctrl, ip, out, g.value);
      LiteralTooLong(out, h.value.token, maxout);
      LiteralTooLong(out, g.value.token, maxout);
      var next := h.value.next;
      if Accepts(out, h.value.token, maxout) && next < length {
        AgreeBelow(a, b, TopFrom(level, a, length, maxout, ctrl, ip, out), next + 1);
        AgreeAt(a, b, next);
        ResumeAgrees(level, a, b, length, maxout, a[next], next + 1, Play(out, h.value.token));
      }
    }
  }

  lemma LiteralTooLong(out: seq<Byte>, t: Token, maxout: int)
    ensures t.Literal? && |t.bytes| > maxout - |out| ==> !Accepts(out, t, maxout)
  {
  }

  lemma AgreeBelow(a: seq<Byte>, b: seq<Byte>, n: nat, m: nat)
    requires Agree(a, b, n)
    ensures m <= n ==> Agree(a, b, m)
  {
  }

  lemma AgreeAt(a: seq<Byte>, b: seq<Byte>, i: nat)
    requires Agree(a, b, i + 1)
    ensures ByteAt(a, i) == ByteAt(b, i)
  {
  }

  /** The bytes read decide everything: memories that agree on them decode alike and are read equally far. */
  lemma DecodeDependsOnRead(level: Level, a: seq<Byte>, b: seq<Byte>, length: nat, maxout: int)
    requires length <= |a| && length <= |b|
    requires Agree(a, b, Top(level, a, length, maxout))
    ensures Decode(level, b, length, maxout) == Decode(level, a, length, maxout)
    ensures Top(level, b, length, maxout) == Top(level, a, length, maxout)
  {
    assert ByteAt(a, 0) == ByteAt(b, 0);
    ResumeAgrees(level, a, b, length, maxout, ByteAt(a, 0) % 32, 1, []);
    DecodeIsResume(level, a, length, maxout);
    DecodeIsResume(level, b, length, maxout);
  }

  /** When no met token reaches past the end, the input alone decides, whatever lies behind it. */
  lemma InputDecides(level: Level, a: seq<Byte>, b: seq<Byte>, length: nat, maxout: int)
    requires 0 < length <= |a| && length <= |b| && a[..length] == b[..length]
    requires MetInside([], WholeWalk(level, a, length), length, maxout)
    ensures Decode(level, b, length, maxout) == Decode(level, a, length, maxout)
    ensures Top(level, b, length, maxout) == Top(level, a, length, maxout) <= length
  {
    ReadsInsideIff(level, a, length, maxout);
    forall i | 0 <= i < length
      ensures ByteAt(a, i) == ByteAt(b, i)
    {
      assert a[i] == a[..length][i] == b[i];
    }
    DecodeDependsOnRead(level, a, b, length, maxout);
  }

  /** A three-byte input whose answer hangs on the byte behind it. */
  lemma ByteBehindDecides(behind: Byte)
    ensures var mem := [0, 65, 32, behind];
            && Top(One, mem, 3, 100) == 4
            && Decode(One, mem, 3, 100) == if behind == 0 then Some([65, 65, 65, 65]) else None
  {
    var mem: seq<Byte> := [0, 65, 32, behind];
    var first, second := Head(Literal([65]), 2), Head(Match(behind + 1, 3), 4);
    assert mem[1..2] == [65];
    assert ReadToken(One, mem, 3, 0, 1) == Some(first) && ReadToken(One, mem, 3, 32, 3) == Some(second);
    PlaysSingly(behind);
    hide ReadToken, Resume, TopFrom, Play;
    DecodeIsResume(One, mem, 3, 100);
    ResumeStep(One, mem, 3, 100, 0, 1, [], first);
    ResumeStep(One, mem, 3, 100, 32, 3, [65], second);
    TopStep(One, mem, 3, 100, 0, 1, []);
    TopStep(One, mem, 3, 100, 32, 3, [65]);
  }

  lemma PlaysSingly(behind: Byte)
    ensures Play([], Literal([65])) == [65]
    ensures Playable([65], Match(behind + 1, 3)) <==> behind == 0
    ensures Play([65], Match(1, 3)) == [65, 65, 65, 65]
  {
    RepeatUnique([65], 1, [65, 65, 65, 65]);
  }

  // ---------- the three ways the decoder copies ----------

  /** At most the positions in [lo, hi) differ from before. */
  twostate predicate OnlyWithin(output: array<Byte>, lo: nat, hi: nat)
    reads output
  {
    forall k :: 0 <= k < output.Length && !(lo <= k < hi) ==> output[k] == old(output[k])
  }

  /** Bytes in [op, at) each repeat the byte `distance` places back. */
  ghost predicate Periodic(output: array<Byte>, op: nat, at: nat, distance: nat)
    requires at <= output.Length && distance <= op
    reads output
  {
    forall k :: op <= k < at ==> output[k] == output[k - distance]
  }

  /** Exactly [op, op + count) was written, each byte repeating the one `distance` places back. */
  twostate predicate CopiedBack(output: array<Byte>, op: nat, count: nat, distance: nat)
    requires op + count <= output.Length && distance <= op
    reads output
  {
    OnlyWithin(output, op, op + count) && Periodic(output, op, op + count, distance)
  }

  /** Writing one period after another is the overlapping byte-by-byte copy. */
  lemma PeriodicIsRepeat(output: array<Byte>, op: nat, count: nat, distance: nat)
    requires op + count <= output.Length && 1 <= distance <= op
    requires Periodic(output, op, op + count, distance)
    ensures output[..op + count] == Repeat(output[..op], distance, count)
  {
    var v := output[..op + count];
    assert v[..op] == output[..op];
    assert forall k :: op <= k < |v| ==> Repeats(v, distance, k);
    RepeatUnique(output[..op], distance, v);
  }

  /** Run fill: the byte before `op`, repeated. */
  method FillRun(output: array<Byte>, op: nat, len: nat)
    requires 1 <= op && op + len + 3 <= output.Length
    modifies output
    ensures CopiedBack(output, op, len + 3, 1)
  {
    var b := output[op - 1];
    output[op] := b;
    output[op + 1] := b;
    output[op + 2] := b;
    var at, left := op + 3, len;
    while left > 0
      invariant 0 <= left <= len && at + left == op + len + 3
      invariant forall k :: op - 1 <= k < at ==> output[k] == b
      invariant OnlyWithin(output, op, op + len + 3)
    {
      output[at] := b;
      at, left := at + 1, left - 1;
    }
  }

  /** Byte at a time, from `ref`, as when 16-bit accesses are not allowed. */
  method CopyBytes(output: array<Byte>, ref: nat, op: nat, len: nat)
    requires ref < op && op + len <= output.Length
    modifies output
    ensures CopiedBack(output, op, len, op - ref)
  {
    var from, at, left := ref, op, len;
    while left > 0
      invariant 0 <= left <= len && at + left == op + len && at - from == op - ref && at >= op
      invariant Periodic(output, op, at, op - ref)
      invariant OnlyWithin(output, op, op + len)
    {
      output[at] := output[from];
      from, at, left := from + 1, at + 1, left - 1;
    }
  }

  /** One 16-bit move: both bytes are read before either is written. */
  method MoveWord(output: array<Byte>, from: nat, to: nat)
    requires from + 2 <= to && to + 2 <= output.Length
    modifies output
    ensures CopiedBack(output, to, 2, to - from)
  {
    var low, high := output[from], output[from + 1];
    output[to] := low;
    output[to + 1] := high;
  }

  /** The four-fold unrolled body of the word loop. */
  method MoveFourWords(output: array<Byte>, from: nat, to: nat)
    requires from + 2 <= to && to + 8 <= output.Length
    modifies output
    ensures CopiedBack(output, to, 8, to - from)
  {
    MoveWord(output, from, to);
    MoveWord(output, from + 2, to + 2);
    MoveWord(output, from + 4, to + 4);
    MoveWord(output, from + 6, to + 6);
  }

  /**
   16 bits at a time, with one odd byte first. Reading a word before writing it is only a
   byte-by-byte copy because the distance is at least 2.
   */
  method CopyWords(output: array<Byte>, ref: nat, op: nat, len: nat)
    requires ref + 2 <= op && op + len <= output.Length
    modifies output
    ensures CopiedBack(output, op, len, op - ref)
  {
    var p, q, words := ref, op, len;
    if words % 2 == 1 {
      output[q] := output[p];
      p, q, words := p + 1, q + 1, words - 1;
    }
    words := words / 2;
    while words > 4
      invariant 0 <= words && q + 2 * words == op + len && q - p == op - ref && q >= op
      invariant Periodic(output, op, q, op - ref)
      invariant OnlyWithin(output, op, op + len)
    {
      MoveFourWords(output, p, q);
      p, q, words := p + 8, q + 8, words - 4;
    }
    while words > 0
      invariant 0 <= words && q + 2 * words == op + len && q - p == op - ref && q >= op
      invariant Periodic(output, op, q, op - ref)
      invariant OnlyWithin(output, op, op + len)
    {
      MoveWord(output, p, q);
      p, q, words := p + 2, q + 2, words - 1;
    }
  }

  // ---------- the decompressor ----------

  /** The length bytes of a level Two match. */
  method ReadLengthChain(source: Source, start: nat) returns (len: nat, ip: nat)
    modifies source
    ensures (len, ip) == ReadChain(source.mem, start, 6)
    ensures source.top == Max(old(source.top), ip)
  {
    ip, len := start, 6;
    var code: Byte := 255;
    while code == 255
      invariant ip >= start && (code != 255 ==> ip > start)
      invariant ReadChain(source.mem, start, 6) == if code == 255 then ReadChain(source.mem, ip, len) else (len, ip)
      invariant source.top == if ip == start then old(source.top) else Max(old(source.top), ip)
      decreases if code == 255 then 1 + |source.mem| else 0, |source.mem| - ip
    {
      code := source.Get(ip);
      len := (len + code) % UINT32_LIMIT;
      ip := ip + 1;
    }
  }

  /**
   The length and distance bytes of a match. `ref` is one past the first byte to copy, and is
   a plain integer because the bytes may point before the output.
   */
  method ReadReference(level: Level, source: Source, ctrl: Byte, start: nat, op: nat)
    returns (len: nat, ref: int, ip: nat)
    requires ctrl >= 32
    modifies source
    ensures var h := ReadMatch(level, source.mem, ctrl, start);
            len + 3 == h.token.length && op - ref + 1 == h.token.distance && ip == h.next
    ensures source.top == Max(old(source.top), ip)
  {
    ip := start;
    len := ctrl / 32;
    var ofs: nat := ctrl % 32 * 256;
    len := len - 1;
    ref := op - ofs;
    if level.One? {
      if len == 7 - 1 {
        var more := source.Get(ip);
        len := len + more;
        ip := ip + 1;
      }
      var low := source.Get(ip);
      ref := ref - low;
      ip := ip + 1;
    } else {
      var code: Byte;
      if len == 7 - 1 {
        len, ip := ReadLengthChain(source, ip);
      }
      code := source.Get(ip);
      ip := ip + 1;
      ref := ref - code;
      if code == 255 && ofs == 31 * 256 {
        var high: int := source.Get(ip);
        var low: int := source.Get(ip + 1);
        ofs := high * 256 + low;
        ip := ip + 2;
        ref := op - ofs - NEAR_LIMIT;
      }
    }
  }

  /** The last `len` bytes of a match, by the copy the platform allows. */
  method CopyRest(output: array<Byte>, ref: nat, op: nat, len: nat, strictAlign: bool)
    requires ref + 2 <= op && op + len <= output.Length
    modifies output
    ensures CopiedBack(output, op, len, op - ref)
  {
    if strictAlign {
      CopyBytes(output, ref, op, len);
    } else {
      CopyWords(output, ref, op, len);
    }
  }

  /** A match that is not a run: three bytes singly, then the rest. */
  method CopyFar(output: array<Byte>, ref: nat, op: nat, len: nat, strictAlign: bool)
    requires ref + 2 <= op && op + 3 + len <= output.Length
    modifies output
    ensures CopiedBack(output, op, len + 3, op - ref)
  {
    CopyBytes(output, ref, op, 3);
    CopyRest(output, ref + 3, op + 3, len, strictAlign);
  }

  /** One match, by whichever copy applies: all of them are the overlapping byte-by-byte copy. */
  method CopyMatch(output: array<Byte>, ref: nat, op: nat, len: nat, strictAlign: bool)
    requires 1 <= ref <= op && op + len + 3 <= output.Length
    modifies output
    ensures output[..op + len + 3] == Repeat(old(output[..op]), op - ref + 1, len + 3)
    ensures OnlyWithin(output, op, op + len + 3)
  {
    if ref == op {
      FillRun(output, op, len);
    } else {
      CopyFar(output, ref - 1, op, len, strictAlign);
    }
    PeriodicIsRepeat(output, op, len + 3, op - ref + 1);
    assert output[..op] == old(output[..op]);
  }

  /** A literal run of `count` bytes. */
  method CopyLiteral(source: Source, start: nat, output: array<Byte>, op: nat, count: nat)
    requires 1 <= count && start + count <= |source.mem| && op + count <= output.Length
    modifies output, source
    ensures output[..op + count] == old(output[..op]) + source.mem[start..start + count]
    ensures OnlyWithin(output, op, op + count)
    ensures source.top == Max(old(source.top), start + count)
  {
    var ip, at := start + 1, op + 1;
    var b := source.Get(start);
    output[op] := b;
    var ctrl := count - 1;
    while ctrl > 0
      invariant 0 <= ctrl < count && at + ctrl == op + count && ip + ctrl == start + count
      invariant forall k :: op <= k < at ==> output[k] == source.mem[start + (k - op)]
      invariant OnlyWithin(output, op, op + count)
      invariant source.top == Max(old(source.top), ip)
    {
      b := source.Get(ip);
      output[at] := b;
      ip, at, ctrl := ip + 1, at + 1, ctrl - 1;
    }
  }

  /** A match token: bounds checks on both ends, then the copy. */
  method PlayMatch(level: Level, source: Source, output: array<Byte>, maxout: int, ctrl: Byte, start: nat, op: nat, strictAlign: bool)
    returns (ok: bool, ip: nat, end: nat)
    requires ctrl >= 32 && op <= Max(maxout, 0) && maxout <= output.Length
    modifies output, source
    ensures var h := ReadMatch(level, source.mem, ctrl, start);
            var out := old(output[..op]);
            && ok == (Playable(out, h.token) && |Play(out, h.token)| <= maxout)
            && (ok ==> ip == h.next && end <= maxout && output[..end] == Play(out, h.token))
    ensures OnlyWithin(output, op, Max(maxout, 0))
    ensures source.top == Max(old(source.top), ReadMatch(level, source.mem, ctrl, start).next)
  {
    var len, ref, next := ReadReference(level, source, ctrl, start, op);
    ip, end := next, op;
    if op + len + 3 > maxout {
      return false, ip, end;
    }
    if ref - 1 < 0 {
      return false, ip, end;
    }
    CopyMatch(output, ref, op, len, strictAlign);
    ok, end := true, op + len + 3;
  }

  /** A literal token: the run must fit in the room left and must not be cut off by the end of the input. */
  method PlayLiteral(source: Source, length: nat, output: array<Byte>, maxout: int, ctrl: Byte, start: nat, op: nat)
    returns (ok: bool, ip: nat, end: nat)
    requires ctrl < 32 && length <= |source.mem| && op <= Max(maxout, 0) && maxout <= output.Length
    modifies output, source
    ensures ok == (op + ctrl + 1 <= maxout && start + ctrl + 1 <= length)
    ensures ok ==> ip == start + ctrl + 1 && end == op + ctrl + 1
    ensures ok ==> output[..end] == old(output[..op]) + source.mem[start..ip]
    ensures OnlyWithin(output, op, Max(maxout, 0))
    ensures source.top == if ok then Max(old(source.top), ip) else old(source.top)
  {
    var count := ctrl + 1;
    ip, end := start, op;
    if op + count > maxout {
      return false, ip, end;
    }
    if ip + count > length {
      return false, ip, end;
    }
    CopyLiteral(source, ip, output, op, count);
    ok, ip, end := true, start + count, op + count;
  }

  /** One token of either kind; false when the decoder gives up on it. */
  method PlayToken(level: Level, source: Source, length: nat, output: array<Byte>, maxout: int, ctrl: Byte, start: nat, op: nat, strictAlign: bool)
    returns (ok: bool, ip: nat, end: nat)
    requires length <= |source.mem| && op <= Max(maxout, 0) && maxout <= output.Length && source.top >= start
    modifies output, source
    ensures var h := ReadToken(level, source.mem, length, ctrl, start);
            var out := old(output[..op]);
            if h.Some? && Playable(out, h.value.token) && |Play(out, h.value.token)| <= maxout then
              ok && ip == h.value.next && end <= maxout && output[..end] == Play(out, h.value.token)
            else !ok
    ensures OnlyWithin(output, op, Max(maxout, 0))
    ensures source.top == Max(old(source.top), TokenTop(ReadToken(level, source.mem, length, ctrl, start), start, maxout - op))
  {
    if ctrl >= 32 {
      ok, ip, end := PlayMatch(level, source, output, maxout, ctrl, start, op, strictAlign);
    } else {
      ok, ip, end := PlayLiteral(source, length, output, maxout, ctrl, start, op);
    }
  }

  /**
   The first `length` bytes of the source are the input and `maxout` is the room in `output`, which
   a caller's narrowing may have made negative: then everything is refused. Returns 0 for a stream that is rejected and otherwise the number of bytes written.
   */
  method Decompress(level: Level, source: Source, length: nat, output: array<Byte>, maxout: int, strictAlign: bool)
    returns (n: nat)
    requires length <= |source.mem| && maxout <= output.Length
    modifies output, source
    ensures match Decode(level, source.mem, length, maxout)
            case None => n == 0
            case Some(v) => n == |v| && output[..n] == v
    ensures OnlyWithin(output, 0, Max(maxout, 0))
    ensures source.top == Max(old(source.top), Top(level, source.mem, length, maxout))
  {
    hide Resume, ReadToken, TopFrom;
    ghost var mem, target := source.mem, Decode(level, source.mem, length, maxout);
    ghost var before, furthest := source.top, Top(level, mem, length, maxout);
    var ip: nat, op: nat := 1, 0;
    var ctrl: Byte := source.Get(0);
    ctrl := ctrl % 32;
    assert output[..op] == [];
    DecodeIsResume(level, mem, length, maxout);
    var loop := true;
    while loop
      invariant op <= Max(maxout, 0)
      invariant OnlyWithin(output, 0, Max(maxout, 0))
      invariant loop ==> target == Resume(level, mem, length, maxout, ctrl, ip, output[..op])
      invariant !loop ==> target == Some(output[..op])
      invariant source.top >= ip
      invariant loop ==> Max(before, furthest) == Max(source.top, TopFrom(level, mem, length, maxout, ctrl, ip, output[..op]))
      invariant !loop ==> Max(before, furthest) == source.top
      decreases if loop then 1 else 0, length - ip
    {
      ghost var out := output[..op];
      ghost var h := ReadToken(level, mem, length, ctrl, ip);
      TopStep(level, mem, length, maxout, ctrl, ip, out);
      if h.Some? {
        ResumeStep(level, mem, length, maxout, ctrl, ip, out, h.value);
      } else {
        ResumeCutOff(level, mem, length, maxout, ctrl, ip, out);
      }
      var ok;
      ok, ip, op := PlayToken(level, source, length, output, maxout, ctrl, ip, op, strictAlign);
      if !ok {
        return 0;
      }
      loop := ip < length;
      if loop {
        ctrl := source.Get(ip);
        ip := ip + 1;
      }
    }
    n := op;
  }
}
