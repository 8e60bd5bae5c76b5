/**
 How much room a compressed stream needs: at every point of the scan the bytes written are
 bounded by the bytes consumed, plus one control byte for every 32 of them, plus one.
 */
module FastLzSize {
  import opened Basics
  import opened Lz77
  import opened FastLzFormat
  import opened FastLzScan

  function Bound(n: nat): nat {
    n + n / 32 + 1
  }

  /** Every match is at least one byte longer than its encoding, so it pays for the control byte after it. */
  lemma MatchTokenPays(level: Level, distance: nat, length: nat)
    requires Encodable(level, Match(distance, length))
    requires level.Two? && distance > NEAR_LIMIT ==> length >= 5
    ensures |EncodeToken(level, Match(distance, length))| + 1 <= length
  {
    if length >= 9 {
      assert |LengthTail(level, length)| <= 1 + (length - 9) / 255;
    }
  }

  lemma {:induction false} MatchPays(level: Level, distance: nat, length: nat)
    requires 1 <= distance < Reach(level) && 3 <= length <= INT_MAX
    requires level.Two? && distance > NEAR_LIMIT ==> length >= 5
    ensures |EncodeAll(level, MatchTokens(level, distance, length))| + 1 <= length
    decreases length
  {
    if level.One? && length > MAX_LEN {
      var first := Match(distance, MAX_LEN - 2);
      MatchTokenPays(level, distance, MAX_LEN - 2);
      MatchPays(level, distance, length - (MAX_LEN - 2));
      EncodeAllOne(level, first);
      EncodeAllConcat(level, [first], MatchTokens(level, distance, length - (MAX_LEN - 2)));
    } else {
      MatchTokenPays(level, distance, length);
      EncodeAllOne(level, Match(distance, length));
    }
  }

  /** The closed tokens take at most the bytes they cover plus one in 32. */
  ghost predicate Compact(level: Level, done: seq<Token>, covered: nat) {
    AllEncodable(level, done) && 32 * |EncodeAll(level, done)| <= 33 * covered
  }

  ghost predicate CompactCursor(level: Level, x: seq<Byte>, c: Cursor)
    requires ValidCursor(x, c)
  {
    Compact(level, c.done, c.ip - c.copy)
  }

  /** Where the compressor writes next: after the tokens, the open run's control byte and its literals. */
  function Position(level: Level, c: Cursor): nat
    requires AllEncodable(level, c.done)
  {
    |EncodeAll(level, c.done)| + 1 + c.copy
  }

  lemma CursorBound(level: Level, x: seq<Byte>, c: Cursor)
    requires ValidCursor(x, c) && CompactCursor(level, x, c)
    ensures Position(level, c) <= Bound(c.ip) <= Bound(|x|)
  {
  }

  lemma CloseLiteralSize(level: Level, x: seq<Byte>, done: seq<Token>, from: nat, to: nat)
    requires from < to <= |x| && to - from <= MAX_COPY && AllEncodable(level, done)
    ensures AllEncodable(level, done + [Literal(x[from..to])])
    ensures |EncodeAll(level, done + [Literal(x[from..to])])| == |EncodeAll(level, done)| + 1 + (to - from)
  {
    EncodeAllOne(level, Literal(x[from..to]));
    EncodeAllConcat(level, done, [Literal(x[from..to])]);
  }

  lemma FlushSize(level: Level, x: seq<Byte>, c: Cursor)
    requires ValidCursor(x, c) && AllEncodable(level, c.done)
    ensures AllEncodable(level, Flush(x, c))
    ensures |EncodeAll(level, Flush(x, c))| == |EncodeAll(level, c.done)| + (if c.copy > 0 then c.copy + 1 else 0)
  {
    if c.copy > 0 {
      CloseLiteralSize(level, x, c.done, c.ip - c.copy, c.ip);
    }
  }

  lemma AddLiteralCompact(level: Level, x: seq<Byte>, c: Cursor)
    requires ValidCursor(x, c) && c.ip < |x| && CompactCursor(level, x, c)
    ensures CompactCursor(level, x, AddLiteral(x, c))
  {
    if c.copy + 1 == MAX_COPY {
      CloseLiteralSize(level, x, c.done, c.ip + 1 - MAX_COPY, c.ip + 1);
    }
  }

  lemma AddMatchCompact(level: Level, x: seq<Byte>, c: Cursor, distance: nat, end: nat)
    requires ValidCursor(x, c) && c.ip + 3 <= end <= |x| <= INT_MAX
    requires 1 <= distance < Reach(level)
    requires level.Two? && distance > NEAR_LIMIT ==> c.ip + 5 <= end
    requires CompactCursor(level, x, c)
    ensures CompactCursor(level, x, AddMatch(level, x, c, distance, end))
  {
    hide MatchTokens, EncodeAll, Encodable;
    FlushSize(level, x, c);
    MatchPays(level, distance, end - c.ip);
    EncodeAllConcat(level, Flush(x, c), MatchTokens(level, distance, end - c.ip));
  }

  lemma StepCompact(level: Level, x: seq<Byte>, pad: Byte, hash: Hash, s: Scan)
    requires ValidScan(x, s) && s.at.ip + 12 < |x| <= INT_MAX && CompactCursor(level, x, s.at)
    ensures CompactCursor(level, x, Step(level, x, pad, hash, s).at)
  {
    hide CompactCursor, Find, AddMatch, AddLiteral;
    match Find(level, x, pad, hash, s.at.ip, s.table)
    case Miss(_) =>
      AddLiteralCompact(level, x, s.at);
    case Hit(distance, minimum, _) =>
      var end := MatchEnd(x, distance, s.at.ip + minimum, MatchCap(|x|, s.at.ip, minimum));
      AddMatchCompact(level, x, s.at, distance, end);
  }

  lemma {:induction false} ScannedCompact(level: Level, x: seq<Byte>, pad: Byte, hash: Hash, s: Scan)
    requires ValidScan(x, s) && |x| <= INT_MAX && CompactCursor(level, x, s.at)
    ensures CompactCursor(level, x, Scanned(level, x, pad, hash, s))
    decreases |x| - s.at.ip
  {
    if s.at.ip + 12 < |x| {
      StepCompact(level, x, pad, hash, s);
      ScannedCompact(level, x, pad, hash, Step(level, x, pad, hash, s));
    }
  }

  lemma {:induction false} DrainedCompact(level: Level, x: seq<Byte>, c: Cursor)
    requires ValidCursor(x, c) && CompactCursor(level, x, c)
    ensures CompactCursor(level, x, Drained(x, c))
    decreases |x| - c.ip
  {
    if c.ip < |x| {
      AddLiteralCompact(level, x, c);
      DrainedCompact(level, x, AddLiteral(x, c));
    }
  }

  lemma {:induction false} TurnsCompact(level: Level, x: seq<Byte>, pad: Byte, hash: Hash, n: nat)
    requires 4 <= |x| <= INT_MAX
    ensures CompactCursor(level, x, Turns(level, x, pad, hash, n).at)
    decreases n
  {
    hide Step;
    if n > 0 {
      TurnsCompact(level, x, pad, hash, n - 1);
      var s := Turns(level, x, pad, hash, n - 1);
      if s.at.ip + 12 < |x| {
        StepCompact(level, x, pad, hash, s);
      }
    }
  }

  /** The cursor after `k` more literals. */
  function Literals(x: seq<Byte>, c: Cursor, k: nat): (r: Cursor)
    requires ValidCursor(x, c) && c.ip + k <= |x|
    ensures ValidCursor(x, r) && r.ip == c.ip + k
    decreases k
  {
    if k == 0 then c else AddLiteral(x, Literals(x, c, k - 1))
  }

  lemma {:induction false} LiteralsCompact(level: Level, x: seq<Byte>, c: Cursor, k: nat)
    requires ValidCursor(x, c) && c.ip + k <= |x| && CompactCursor(level, x, c)
    ensures CompactCursor(level, x, Literals(x, c, k))
    decreases k
  {
    hide AddLiteral, CompactCursor;
    if k > 0 {
      LiteralsCompact(level, x, c, k - 1);
      AddLiteralCompact(level, x, Literals(x, c, k - 1));
    }
  }

  /**
   At every moment, that is after any number of turns of the main loop and any number of the literals
   that follow, the write position is within the bound for the bytes consumed so far.
   */
  lemma PositionBound(level: Level, x: seq<Byte>, pad: Byte, hash: Hash, n: nat, k: nat)
    requires 4 <= |x| <= INT_MAX && Turns(level, x, pad, hash, n).at.ip + k <= |x|
    ensures var c := Literals(x, Turns(level, x, pad, hash, n).at, k);
            AllEncodable(level, c.done) && Position(level, c) <= Bound(c.ip) <= Bound(|x|)
  {
    hide Turns, Literals;
    var s := Turns(level, x, pad, hash, n);
    TurnsCompact(level, x, pad, hash, n);
    LiteralsCompact(level, x, s.at, k);
    CursorBound(level, x, Literals(x, s.at, k));
  }

  /** The whole stream, for every input, level and hash function. */
  lemma TokensSize(level: Level, x: seq<Byte>, pad: Byte, hash: Hash)
    requires |x| <= INT_MAX
    ensures AllEncodable(level, Tokens(level, x, pad, hash))
    ensures |EncodeAll(level, Tokens(level, x, pad, hash))| <= Bound(|x|)
  {
    TokensFaithful(level, x, pad, hash);
    if 0 < |x| < 4 {
      EncodeAllOne(level, Literal(x));
    } else if |x| >= 4 {
      var s := Start(x);
      ScannedCompact(level, x, pad, hash, s);
      var scanned := Scanned(level, x, pad, hash, s);
      DrainedCompact(level, x, scanned);
      FlushSize(level, x, Drained(x, scanned));
    }
  }

  // ---------- how much is saved ----------

  predicate AllEqual(x: seq<Byte>) {
    forall i :: 0 <= i < |x| ==> x[i] == x[0]
  }

  /** Equal bytes are found as one match from the third of them to the third-last, whatever the hash function. */
  lemma EqualBytesStep(level: Level, x: seq<Byte>, pad: Byte, hash: Hash)
    requires 15 <= |x| <= INT_MAX && AllEqual(x)
    ensures Step(level, x, pad, hash, Start(x)).at ==
            Cursor(|x| - 3, 0, [Literal(x[0..2])] + MatchTokens(level, if level.One? then 2 else 1, |x| - 5))
  {
    var s := Start(x);
    assert s.table[hash(x[2], x[3], x[4])] == 0;
    LiteralIff(level, x, pad, hash, s);
    MatchIsLongest(level, x, pad, hash, s);
    MatchTaken(level, x, pad, hash, s);
    hide Step, MatchTokens;
    assert Flush(x, s.at) == [Literal(x[0..2])];
    var end := Step(level, x, pad, hash, s).at.ip;
    assert Repeats(x, if level.One? then 2 else 1, end);
  }

  lemma EqualBytesTokens(level: Level, x: seq<Byte>, pad: Byte, hash: Hash)
    requires 15 <= |x| <= INT_MAX && AllEqual(x)
    ensures Tokens(level, x, pad, hash) ==
            [Literal(x[0..2])] + MatchTokens(level, if level.One? then 2 else 1, |x| - 5) + [Literal(x[|x| - 3..])]
  {
    EqualBytesStep(level, x, pad, hash);
    var s := Start(x);
    var c := Step(level, x, pad, hash, s).at;
    assert Scanned(level, x, pad, hash, s) == c by {
      hide Step, MatchTokens;
    }
    hide Step, Start, MatchTokens, Scanned;
    DrainThree(x, c);
  }

  lemma DrainThree(x: seq<Byte>, c: Cursor)
    requires ValidCursor(x, c) && c.copy == 0 && c.ip + 3 == |x|
    ensures Flush(x, Drained(x, c)) == c.done + [Literal(x[|x| - 3..])]
  {
    var one, two := AddLiteral(x, c), AddLiteral(x, AddLiteral(x, c));
    assert Drained(x, c) == Drained(x, one) == Drained(x, two) == AddLiteral(x, two);
    assert x[c.ip..] == x[|x| - 3..|x|];
  }

  lemma {:induction false} MatchOneSize(distance: nat, length: nat)
    requires 1 <= distance < Reach(One) && 3 <= length <= INT_MAX
    ensures |EncodeAll(One, MatchTokens(One, distance, length))| <= 3 + 3 * (length / 262)
    decreases length
  {
    if length > MAX_LEN {
      var first := Match(distance, MAX_LEN - 2);
      MatchOneSize(distance, length - (MAX_LEN - 2));
      EncodeAllOne(One, first);
      EncodeAllConcat(One, [first], MatchTokens(One, distance, length - (MAX_LEN - 2)));
    } else {
      EncodeAllOne(One, Match(distance, length));
    }
  }

  lemma MatchTwoSize(length: nat)
    requires 3 <= length <= INT_MAX
    ensures |EncodeAll(Two, MatchTokens(Two, 1, length))| <= 3 + length / 255
  {
    EncodeAllOne(Two, Match(1, length));
    if length >= 9 {
      assert |LengthTail(Two, length)| <= 1 + (length - 9) / 255;
    }
  }

  lemma RunSize(level: Level, n: nat)
    requires 15 <= n <= INT_MAX
    ensures |EncodeAll(level, MatchTokens(level, if level.One? then 2 else 1, n - 5))| <=
            3 + (if level.One? then 3 * (n / 262) else n / 255)
  {
    hide EncodeAll, MatchTokens;
    if level.One? {
      MatchOneSize(2, n - 5);
      assert (n - 5) / 262 <= n / 262;
    } else {
      MatchTwoSize(n - 5);
      assert (n - 5) / 255 <= n / 255;
    }
  }

  /** Equal bytes shrink to three bytes in 262 at level One, one in 255 at level Two, and ten more. */
  lemma EqualBytesShrink(level: Level, x: seq<Byte>, pad: Byte, hash: Hash)
    requires 15 <= |x| <= INT_MAX && AllEqual(x)
    ensures AllEncodable(level, Tokens(level, x, pad, hash))
    ensures |EncodeAll(level, Tokens(level, x, pad, hash))| <= 10 + (if level.One? then 3 * (|x| / 262) else |x| / 255)
  {
    EqualBytesTokens(level, x, pad, hash);
    RunSize(level, |x|);
    hide *;
    BetweenLiterals(level, x[0..2], MatchTokens(level, if level.One? then 2 else 1, |x| - 5), x[|x| - 3..]);
  }

  lemma BetweenLiterals(level: Level, a: seq<Byte>, tokens: seq<Token>, b: seq<Byte>)
    requires AllEncodable(level, tokens) && 1 <= |a| <= MAX_COPY && 1 <= |b| <= MAX_COPY
    ensures var all := [Literal(a)] + tokens + [Literal(b)];
            && AllEncodable(level, all)
            && |EncodeAll(level, all)| == 2 + |a| + |b| + |EncodeAll(level, tokens)|
  {
    EncodeAllOne(level, Literal(a));
    EncodeAllOne(level, Literal(b));
    assert |EncodeToken(level, Literal(a))| == 1 + |a| && |EncodeToken(level, Literal(b))| == 1 + |b|;
    hide EncodeAll, EncodeToken, AllEncodable;
    EncodeAllConcat(level, [Literal(a)], tokens);
    EncodeAllConcat(level, [Literal(a)] + tokens, [Literal(b)]);
  }
}
