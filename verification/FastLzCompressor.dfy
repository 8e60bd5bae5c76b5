/**
 The FastLZ compressor at both levels, writing into a caller's buffer. It is proved to write
 exactly the stream of the tokens the scan finds, inside the bound FastLzSize gives.
 */
module FastLzCompressor {
  import opened Basics
  import opened Lz77
  import opened FastLzFormat
  import opened FastLzScan
  import opened FastLzSize

  /** The finished stream. Level Two marks it, except for inputs too short to be scanned. */
  function Compressed(level: Level, x: seq<Byte>, pad: Byte, hash: Hash): seq<Byte>
    requires |x| <= INT_MAX
  {
    TokensFaithful(level, x, pad, hash);
    Stream(level, level.Two? && |x| >= 4, Tokens(level, x, pad, hash))
  }

  /** What lies behind the input leaves no trace in the stream. */
  lemma BehindLeavesNoTrace(level: Level, x: seq<Byte>, p: Byte, q: Byte, hash: Hash)
    requires |x| <= INT_MAX
    ensures Compressed(level, x, p, hash) == Compressed(level, x, q, hash)
  {
    PadIrrelevant(level, x, p, q, hash);
  }

  // ---------- extending a match ----------

  /** A run: compare with one byte. Like every extension, it leaves `ip` one past the match. */
  method ExtendRun(x: seq<Byte>, start: nat) returns (ip: nat)
    requires 1 <= start && start + 9 < |x|
    ensures ip >= 1 && ip - 1 == MatchEnd(x, 1, start, |x| - 3)
  {
    ip := start;
    var bound, ref := |x| - 2, start - 1;
    var b := x[ip - 1];
    while ip < bound
      invariant start <= ip <= bound && ref == ip - 1
      invariant forall k :: start - 1 <= k < ref ==> x[k] == b
    {
      if x[ref] != b {
        break;
      }
      ref, ip := ref + 1, ip + 1;
    }
    assert forall k :: start <= k < ip - 1 ==> Repeats(x, 1, k);
    assert ip < bound ==> !Repeats(x, 1, ip - 1);
    MatchEndUnique(x, 1, start, |x| - 3, ip - 1);
  }

  /** The comparison loop: eight unrolled comparisons, then up to two bytes before the end. */
  method ExtendMatch(x: seq<Byte>, distance: nat, start: nat) returns (ip: nat)
    requires 1 <= distance <= start && start + 7 < |x|
    ensures ip >= 1 && ip - 1 == MatchEnd(x, distance, start, Max(|x| - 3, start + 7))
  {
    ghost var cap := Max(|x| - 3, start + 7);
    ip := start;
    var ref := start - distance;
    var unrolled := 0;
    while unrolled < 8
      invariant 0 <= unrolled <= 8 && ip == start + unrolled && ref == ip - distance
      invariant Echoes(x, distance, start, ip)
    {
      ref, ip, unrolled := ref + 1, ip + 1, unrolled + 1;
      if x[ref - 1] != x[ip - 1] {
        assert !Repeats(x, distance, ip - 1);
        MatchEndUnique(x, distance, start, cap, ip - 1);
        return;
      }
      assert Repeats(x, distance, ip - 1);
    }
    var bound := |x| - 2;
    while ip < bound
      invariant start + 8 <= ip <= Max(bound, start + 8) && ref == ip - distance
      invariant Echoes(x, distance, start, ip)
    {
      ref, ip := ref + 1, ip + 1;
      if x[ref - 1] != x[ip - 1] {
        assert !Repeats(x, distance, ip - 1);
        MatchEndUnique(x, distance, start, cap, ip - 1);
        return;
      }
      assert Repeats(x, distance, ip - 1);
    }
    MatchEndUnique(x, distance, start, cap, ip - 1);
  }

  // ---------- writing ----------

  /** Writes one byte and returns the next position. */
  method Put(output: array<Byte>, op: nat, b: Byte) returns (next: nat)
    requires op < output.Length
    modifies output
    ensures next == op + 1 && output[..next] == old(output[..op]) + [b]
  {
    output[op] := b;
    next := op + 1;
  }

  /** A long length as 255s and a remainder. */
  method PutChain(output: array<Byte>, start: nat, n: nat) returns (op: nat)
    requires start + |Chain(n)| <= output.Length
    modifies output
    ensures op == start + |Chain(n)| && output[..op] == old(output[..start]) + Chain(n)
  {
    op := start;
    var len := n;
    ghost var before := output[..start];
    while len >= 255
      invariant op + |Chain(len)| == start + |Chain(n)|
      invariant output[..op] + Chain(len) == before + Chain(n)
    {
      ghost var soFar := output[..op];
      assert Chain(len) == [255] + Chain(len - 255);
      op := Put(output, op, 255);
      len := len - 255;
      assert soFar + ([255] + Chain(len)) == soFar + [255] + Chain(len);
    }
    op := Put(output, op, len);
  }

  /** One match token of at most MAX_LEN bytes at level One; `distance` is biased, `len` is the length less two. */
  method PutMatchOne(output: array<Byte>, start: nat, distance: nat, len: nat) returns (op: nat)
    requires Encodable(One, Match(distance + 1, len + 2))
    requires start + |EncodeToken(One, Match(distance + 1, len + 2))| <= output.Length
    modifies output
    ensures op == start + |EncodeToken(One, Match(distance + 1, len + 2))|
    ensures output[..op] == old(output[..start]) + EncodeToken(One, Match(distance + 1, len + 2))
  {
    op := start;
    if len < 7 {
      op := Put(output, op, len * 32 + distance / 256);
      op := Put(output, op, distance % 256);
    } else {
      op := Put(output, op, 7 * 32 + distance / 256);
      op := Put(output, op, len - 7);
      op := Put(output, op, distance % 256);
    }
  }

  /** The pieces of a level One match, and what is left when it is short enough. */
  lemma MatchPiece(distance: nat, length: nat)
    requires 1 <= distance < Reach(One) && 3 <= length <= INT_MAX
    ensures length <= MAX_LEN ==>
              && Encodable(One, Match(distance, length))
              && EncodeAll(One, MatchTokens(One, distance, length)) == EncodeToken(One, Match(distance, length))
    ensures length > MAX_LEN ==>
              && Encodable(One, Match(distance, MAX_LEN - 2))
              && |EncodeToken(One, Match(distance, MAX_LEN - 2))| == 3
              && EncodeAll(One, MatchTokens(One, distance, length)) ==
                 EncodeToken(One, Match(distance, MAX_LEN - 2)) +
                 EncodeAll(One, MatchTokens(One, distance, length - (MAX_LEN - 2)))
  {
    if length > MAX_LEN {
      var piece := Match(distance, MAX_LEN - 2);
      EncodeAllOne(One, piece);
      EncodeAllConcat(One, [piece], MatchTokens(One, distance, length - (MAX_LEN - 2)));
    } else {
      EncodeAllOne(One, Match(distance, length));
    }
  }

  /** A full piece: three bytes that stand for MAX_LEN - 2 bytes of input. */
  method PutPiece(output: array<Byte>, start: nat, distance: nat) returns (op: nat)
    requires Encodable(One, Match(distance + 1, MAX_LEN - 2)) && start + 3 <= output.Length
    modifies output
    ensures op == start + 3 == start + |EncodeToken(One, Match(distance + 1, MAX_LEN - 2))|
    ensures output[..op] == old(output[..start]) + EncodeToken(One, Match(distance + 1, MAX_LEN - 2))
  {
    op := Put(output, start, 7 * 32 + distance / 256);
    op := Put(output, op, MAX_LEN - 2 - 7 - 2);
    op := Put(output, op, distance % 256);
  }

  /** A match at level One, in pieces when it is longer than MAX_LEN. */
  method EmitMatchOne(output: array<Byte>, start: nat, distance: nat, length: nat) returns (op: nat)
    requires distance + 1 < Reach(One) && 1 <= length <= INT_MAX - 2
    requires start + |EncodeAll(One, MatchTokens(One, distance + 1, length + 2))| <= output.Length
    modifies output
    ensures op == start + |EncodeAll(One, MatchTokens(One, distance + 1, length + 2))|
    ensures output[..op] == old(output[..start]) + EncodeAll(One, MatchTokens(One, distance + 1, length + 2))
  {
    hide EncodeAll, EncodeToken, MatchTokens;
    op := start;
    var len := length;
    ghost var before, whole := output[..start], EncodeAll(One, MatchTokens(One, distance + 1, length + 2));
    while len > MAX_LEN - 2
      invariant 1 <= len <= INT_MAX - 2
      invariant op + |EncodeAll(One, MatchTokens(One, distance + 1, len + 2))| == start + |whole|
      invariant output[..op] + EncodeAll(One, MatchTokens(One, distance + 1, len + 2)) == before + whole
    {
      ghost var soFar, piece := output[..op], EncodeToken(One, Match(distance + 1, MAX_LEN - 2));
      ghost var rest := EncodeAll(One, MatchTokens(One, distance + 1, len + 2 - (MAX_LEN - 2)));
      MatchPiece(distance + 1, len + 2);
      op := PutPiece(output, op, distance);
      len := len - (MAX_LEN - 2);
      assert soFar + (piece + rest) == soFar + piece + rest;
    }
    MatchPiece(distance + 1, len + 2);
    op := PutMatchOne(output, op, distance, len);
  }

  /** The length byte or bytes of a level Two match, whose first byte also carries the high bits `high`. */
  method PutLength(output: array<Byte>, start: nat, len: nat, high: nat) returns (op: nat)
    requires 1 <= len && high < 32
    requires start + 1 + |LengthTail(Two, len + 2)| <= output.Length
    modifies output
    ensures op == start + 1 + |LengthTail(Two, len + 2)|
    ensures output[..op] == old(output[..start]) + ([MatchHead(len + 2, high)] + LengthTail(Two, len + 2))
  {
    hide Chain;
    if len < 7 {
      op := Put(output, start, len * 32 + high);
    } else {
      op := Put(output, start, 7 * 32 + high);
      op := PutChain(output, op, len - 7);
    }
  }

  /** A match at level Two: near or far, short or chained. */
  method EmitMatchTwo(output: array<Byte>, start: nat, biased: nat, len: nat) returns (op: nat)
    requires Encodable(Two, Match(biased + 1, len + 2))
    requires start + |EncodeToken(Two, Match(biased + 1, len + 2))| <= output.Length
    modifies output
    ensures op == start + |EncodeToken(Two, Match(biased + 1, len + 2))|
    ensures output[..op] == old(output[..start]) + EncodeToken(Two, Match(biased + 1, len + 2))
  {
    hide LengthTail, MatchHead;
    var distance := biased;
    if distance < NEAR_LIMIT {
      op := PutLength(output, start, len, distance / 256);
      op := Put(output, op, distance % 256);
    } else {
      distance := distance - NEAR_LIMIT;
      op := PutLength(output, start, len, 31);
      op := Put(output, op, 255);
      op := Put(output, op, distance / 256);
      op := Put(output, op, distance % 256);
    }
  }

  // ---------- the output between two steps ----------

  /**
   What the buffer holds: the closed tokens, a control byte that assumes a full run, and the
   literals of the open run. The control byte is patched when the run is closed.
   */
  function Written(level: Level, x: seq<Byte>, c: Cursor): (r: seq<Byte>)
    requires ValidCursor(x, c) && AllEncodable(level, c.done)
    ensures |r| == Position(level, c)
  {
    EncodeAll(level, c.done) + [MAX_COPY - 1] + x[c.ip - c.copy..c.ip]
  }

  /** The buffer, up to `op`, is exactly what the cursor says, and within bounds. */
  ghost predicate InStep(level: Level, x: seq<Byte>, output: array<Byte>, op: nat, c: Cursor)
    reads output
  {
    && ValidCursor(x, c) && CompactCursor(level, x, c)
    && output.Length >= Bound(|x|)
    && op == Position(level, c) && op <= output.Length
    && output[..op] == Written(level, x, c)
  }

  lemma WrittenLiteral(level: Level, x: seq<Byte>, c: Cursor)
    requires ValidCursor(x, c) && c.ip < |x| && AllEncodable(level, c.done)
    ensures AllEncodable(level, AddLiteral(x, c).done)
    ensures Written(level, x, AddLiteral(x, c)) ==
            Written(level, x, c) + [x[c.ip]] + (if c.copy + 1 == MAX_COPY then [MAX_COPY - 1] else [])
  {
    hide EncodeAll;
    var from := c.ip - c.copy;
    assert x[from..c.ip] + [x[c.ip]] == x[from..c.ip + 1];
    if c.copy + 1 == MAX_COPY {
      EncodeAllOne(level, Literal(x[from..c.ip + 1]));
      EncodeAllConcat(level, c.done, [Literal(x[from..c.ip + 1])]);
    }
  }

  /** One literal byte; a run of 32 closes itself and opens the next one. */
  method PutLiteral(level: Level, x: seq<Byte>, output: array<Byte>, ip: nat, start: nat, copied: nat, ghost c: Cursor)
    returns (op: nat, copy: nat)
    requires InStep(level, x, output, start, c) && c.ip < |x| && ip == c.ip && copied == c.copy
    modifies output
    ensures InStep(level, x, output, op, AddLiteral(x, c)) && copy == AddLiteral(x, c).copy
  {
    hide Written, EncodeAll;
    AddLiteralCompact(level, x, c);
    WrittenLiteral(level, x, c);
    CursorBound(level, x, AddLiteral(x, c));
    op := Put(output, start, x[ip]);
    copy := copied + 1;
    if copy == MAX_COPY {
      copy := 0;
      op := Put(output, op, MAX_COPY - 1);
    }
  }

  /** Patches the control byte of the open run, or takes it back when the run is empty. */
  method CloseRun(level: Level, x: seq<Byte>, output: array<Byte>, start: nat, copy: nat, ghost c: Cursor)
    returns (op: nat)
    requires InStep(level, x, output, start, c) && copy == c.copy
    modifies output
    ensures AllEncodable(level, Flush(x, c))
    ensures op == |EncodeAll(level, Flush(x, c))| <= output.Length
    ensures output[..op] == EncodeAll(level, Flush(x, c))
  {
    hide EncodeAll;
    ghost var done, run := EncodeAll(level, c.done), x[c.ip - c.copy..c.ip];
    FlushSize(level, x, c);
    if copy > 0 {
      EncodeAllOne(level, Literal(run));
      EncodeAllConcat(level, c.done, [Literal(run)]);
      output[start - copy - 1] := copy - 1;
      op := start;
      assert output[..op] == done + ([copy - 1] + run);
    } else {
      op := start - 1;
    }
  }

  method EmitMatch(level: Level, output: array<Byte>, start: nat, distance: nat, len: nat) returns (op: nat)
    requires distance + 1 < Reach(level) && 1 <= len <= INT_MAX - 2
    requires start + |EncodeAll(level, MatchTokens(level, distance + 1, len + 2))| <= output.Length
    modifies output
    ensures op == start + |EncodeAll(level, MatchTokens(level, distance + 1, len + 2))|
    ensures output[..op] == old(output[..start]) + EncodeAll(level, MatchTokens(level, distance + 1, len + 2))
  {
    if level.Two? {
      EncodeAllOne(level, Match(distance + 1, len + 2));
      op := EmitMatchTwo(output, start, distance, len);
    } else {
      op := EmitMatchOne(output, start, distance, len);
    }
  }

  /** Closes the open run, writes the match and opens the next run. */
  method PutMatch(level: Level, x: seq<Byte>, output: array<Byte>, ip: nat, start: nat, copy: nat, distance: nat, end: nat, ghost c: Cursor)
    returns (op: nat)
    requires InStep(level, x, output, start, c) && ip == c.ip && copy == c.copy
    requires ip + 3 <= end <= |x| <= INT_MAX && distance + 1 < Reach(level)
    requires level.Two? && distance + 1 > NEAR_LIMIT ==> ip + 5 <= end
    modifies output
    ensures InStep(level, x, output, op, AddMatch(level, x, c, distance + 1, end))
  {
    hide EncodeAll, MatchTokens;
    ghost var tokens := MatchTokens(level, distance + 1, end - c.ip);
    ghost var after := AddMatch(level, x, c, distance + 1, end);
    AddMatchCompact(level, x, c, distance + 1, end);
    CursorBound(level, x, after);
    op := CloseRun(level, x, output, start, copy, c);
    EncodeAllConcat(level, Flush(x, c), tokens);
    op := EmitMatch(level, output, op, distance, end - ip - 2);
    assert output[..op] == EncodeAll(level, after.done);
    op := Put(output, op, MAX_COPY - 1);
    assert x[after.ip - after.copy..after.ip] == [];
  }

  // ---------- the hash table ----------

  method ClearTable() returns (htab: array<nat>)
    ensures fresh(htab) && htab[..] == seq(HASH_SIZE, _ => 0)
  {
    htab := new nat[HASH_SIZE];
    var slot := 0;
    while slot < HASH_SIZE
      invariant 0 <= slot <= HASH_SIZE
      invariant forall h :: 0 <= h < slot ==> htab[h] == 0
    {
      htab[slot] := 0;
      slot := slot + 1;
    }
  }

  /** One byte of the input, or the one behind it; `past` tells which. */
  method ReadByte(x: seq<Byte>, pad: Byte, i: nat) returns (b: Byte, ghost past: bool)
    requires i <= |x|
    ensures b == At(x, pad, i) && past == (i == |x|)
  {
    past := i == |x|;
    if i < |x| {
      b := x[i];
    } else {
      b := pad;
    }
  }

  /** The hash of the three bytes at `i`. */
  method HashBytes(x: seq<Byte>, pad: Byte, hash: Hash, i: nat) returns (hval: Slot, ghost past: bool)
    requires i + 2 <= |x|
    ensures hval == HashAt(x, pad, hash, i) && past == (i + 2 == |x|)
  {
    var a, b, c;
    ghost var pastA, pastB, pastC;
    a, pastA := ReadByte(x, pad, i);
    b, pastB := ReadByte(x, pad, i + 1);
    c, pastC := ReadByte(x, pad, i + 2);
    hval := hash(a, b, c);
    past := pastA || pastB || pastC;
  }

  /** Looks for a match at `ip` and records `ip` in the table unless a run was found. */
  method Look(level: Level, x: seq<Byte>, pad: Byte, hash: Hash, htab: array<nat>, ip: nat)
    returns (found: bool, distance: nat, len: nat, ghost past: bool)
    requires 2 <= ip && ip + 12 < |x| && TableBehind(htab[..], ip)
    modifies htab
    ensures !past
    ensures match Find(level, x, pad, hash, ip, old(htab[..]))
            case Miss(table) => !found && htab[..] == table
            case Hit(d, minimum, table) => found && distance == d && len == minimum && htab[..] == table
  {
    found, len, past := false, 3, false;
    if level.Two? && x[ip] == x[ip - 1] && x[ip - 1] == x[ip + 1] && x[ip] == x[ip + 2] {
      return true, 1, len, past;
    }
    var hval;
    hval, past := HashBytes(x, pad, hash, ip);
    var ref := htab[hval];
    distance := ip - ref;
    htab[hval] := ip;
    if distance == 0 || distance >= Reach(level) || x[ref] != x[ip] || x[ref + 1] != x[ip + 1] || x[ref + 2] != x[ip + 2] {
      assert distance == 0 || distance >= Reach(level) ||
             !Repeats(x, distance, ip) || !Repeats(x, distance, ip + 1) || !Repeats(x, distance, ip + 2);
      return;
    }
    if level.Two? && distance >= NEAR_LIMIT {
      if x[ip + 3] != x[ref + 3] || x[ip + 4] != x[ref + 4] {
        assert !Repeats(x, distance, ip + 3) || !Repeats(x, distance, ip + 4);
        return;
      }
      len := len + 2;
    }
    found := true;
  }

  method Touch(x: seq<Byte>, pad: Byte, hash: Hash, htab: array<nat>, end: nat) returns (ghost past: bool)
    requires 2 <= end < |x| && TableBehind(htab[..], end)
    modifies htab
    ensures htab[..] == TouchBoundary(x, pad, hash, old(htab[..]), end)
    ensures past == (end + 1 == |x|)
  {
    var ip, hval := end - 2, 0;
    ghost var first, second;
    hval, first := HashBytes(x, pad, hash, ip);
    htab[hval] := ip;
    ip := ip + 1;
    hval, second := HashBytes(x, pad, hash, ip);
    htab[hval] := ip;
    past := first || second;
  }

  // ---------- the compressor ----------

  /** Inputs of one to three bytes: a single literal run. */
  method CompressTiny(level: Level, x: seq<Byte>, output: array<Byte>) returns (n: nat)
    requires 1 <= |x| < 4 && output.Length >= Bound(|x|)
    modifies output
    ensures AllEncodable(level, [Literal(x)])
    ensures n == |x| + 1 == |EncodeAll(level, [Literal(x)])| && output[..n] == EncodeAll(level, [Literal(x)])
  {
    EncodeAllOne(level, Literal(x));
    var op := Put(output, 0, |x| - 1);
    var ip := 0;
    while ip < |x|
      invariant 0 <= ip <= |x| && op == ip + 1
      invariant output[..op] == [|x| - 1] + x[..ip]
    {
      op := Put(output, op, x[ip]);
      ip := ip + 1;
    }
    n := op;
  }

  /** The first two bytes always open the first run. */
  method Begin(level: Level, x: seq<Byte>, output: array<Byte>) returns (op: nat)
    requires |x| >= 4 && output.Length >= Bound(|x|)
    modifies output
    ensures InStep(level, x, output, op, Start(x).at)
  {
    op := Put(output, 0, MAX_COPY - 1);
    op := Put(output, op, x[0]);
    op := Put(output, op, x[1]);
    assert x[0..2] == [x[0], x[1]];
  }

  /** One turn of the main loop: a match, or one literal byte. Either way `ip` moves on. */
  method Turn(level: Level, x: seq<Byte>, pad: Byte, hash: Hash, htab: array<nat>, output: array<Byte>,
              start: nat, from: nat, copied: nat, ghost s: Scan)
    returns (ip: nat, op: nat, copy: nat, ghost past: bool)
    requires ValidScan(x, s) && start == s.at.ip && copied == s.at.copy && start + 12 < |x| <= INT_MAX
    requires htab[..] == s.table && InStep(level, x, output, from, s.at)
    modifies htab, output
    ensures var next := Step(level, x, pad, hash, s);
            && ip == next.at.ip > start && copy == next.at.copy
            && htab[..] == next.table && InStep(level, x, output, op, next.at)
    ensures past == StepReadsPast(level, x, pad, hash, s)
  {
    hide InStep, Find, AddMatch, AddLiteral, TouchBoundary, MatchEnd;
    ip := start;
    var found, distance, len;
    found, distance, len, past := Look(level, x, pad, hash, htab, ip);
    if !found {
      op, copy := PutLiteral(level, x, output, ip, from, copied, s.at);
      ip := ip + 1;
      return;
    }
    if distance == 1 {
      ip := ExtendRun(x, ip + len);
    } else {
      ip := ExtendMatch(x, distance, ip + len);
    }
    var end := ip - 1;
    op := PutMatch(level, x, output, start, from, copied, distance - 1, end, s.at);
    past := Touch(x, pad, hash, htab, end);
    ip, copy := end, 0;
  }

  /** The main loop. */
  method ScanLoop(level: Level, x: seq<Byte>, pad: Byte, hash: Hash, output: array<Byte>, start: nat)
    returns (ip: nat, op: nat, copy: nat, ghost at: Cursor, ghost past: bool)
    requires 4 <= |x| <= INT_MAX
    requires InStep(level, x, output, start, Start(x).at)
    modifies output
    ensures at == Scanned(level, x, pad, hash, Start(x)) && ip == at.ip && copy == at.copy
    ensures InStep(level, x, output, op, at)
    ensures past == ReadsPastFrom(level, x, pad, hash, Start(x))
  {
    hide InStep, Step, StepReadsPast;
    past := false;
    var htab := ClearTable();
    ghost var s := Start(x);
    ip, op, copy := 2, start, 2;
    while ip + 12 < |x|
      invariant ValidScan(x, s) && s.at.ip == ip && s.at.copy == copy
      invariant fresh(htab) && htab[..] == s.table
      invariant InStep(level, x, output, op, s.at)
      invariant Scanned(level, x, pad, hash, Start(x)) == Scanned(level, x, pad, hash, s)
      invariant ReadsPastFrom(level, x, pad, hash, Start(x)) == (past || ReadsPastFrom(level, x, pad, hash, s))
      decreases |x| - ip
    {
      ghost var now;
      ip, op, copy, now := Turn(level, x, pad, hash, htab, output, ip, op, copy, s);
      past, s := past || now, Step(level, x, pad, hash, s);
    }
    at := s.at;
  }

  /** What is left goes out as literals. */
  method DrainLoop(level: Level, x: seq<Byte>, output: array<Byte>, start: nat, from: nat, copied: nat, ghost at: Cursor)
    returns (op: nat, copy: nat)
    requires InStep(level, x, output, start, at) && from == at.ip && copied == at.copy
    modifies output
    ensures InStep(level, x, output, op, Drained(x, at)) && copy == Drained(x, at).copy
  {
    hide AddLiteral;
    var ip: nat;
    ip, op, copy := from, start, copied;
    ghost var c := at;
    while ip < |x|
      invariant InStep(level, x, output, op, c) && ip == c.ip && copy == c.copy
      invariant Drained(x, at) == Drained(x, c)
      decreases |x| - ip
    {
      op, copy := PutLiteral(level, x, output, ip, op, copy, c);
      c, ip := AddLiteral(x, c), ip + 1;
    }
  }

  /**
   Compresses `x` into `output` and returns the number of bytes written, which is 0 only for
   an empty input; `past` tells whether the byte behind the input was read. A buffer of Bound(|x|)
   bytes is enough for every input.
   */
  method Compress(level: Level, x: seq<Byte>, pad: Byte, hash: Hash, output: array<Byte>) returns (n: nat, ghost past: bool)
    requires |x| <= INT_MAX && output.Length >= Bound(|x|)
    modifies output
    ensures n == |Compressed(level, x, pad, hash)| <= Bound(|x|)
    ensures output[..n] == Compressed(level, x, pad, hash)
    ensures past == ReadsPast(level, x, pad, hash)
  {
    past := false;
    TokensSize(level, x, pad, hash);
    ghost var tokens := Tokens(level, x, pad, hash);
    if |x| < 4 {
      if |x| != 0 {
        n := CompressTiny(level, x, output);
      } else {
        n := 0;
      }
      return;
    }
    var op := Begin(level, x, output);
    ghost var at;
    var ip, copy;
    ip, op, copy, at, past := ScanLoop(level, x, pad, hash, output, op);
    op, copy := DrainLoop(level, x, output, op, ip, copy, at);
    ghost var last := Drained(x, at);
    n := CloseRun(level, x, output, op, copy, last);
    assert tokens == Flush(x, last);
    if level.Two? {
      output[0] := Mark(output[0]);
    }
  }
}
