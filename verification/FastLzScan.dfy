/**
 What the FastLZ compressor finds: a functional account of its greedy scan, as tokens.
 The hash is an arbitrary function of three bytes: nothing proved here depends on it.
 */
module FastLzScan {
  import opened Basics
  import opened Lz77
  import opened FastLzFormat

  const HASH_SIZE: nat := 8192
  type Slot = n: nat | n < HASH_SIZE
  type Hash = (Byte, Byte, Byte) -> Slot

  /** Read access to the input. The hash at a match boundary may look one byte past the end. */
  function At(x: seq<Byte>, pad: Byte, i: nat): Byte {
    if i < |x| then x[i] else pad
  }

  function HashAt(x: seq<Byte>, pad: Byte, hash: Hash, i: nat): Slot {
    hash(At(x, pad, i), At(x, pad, i + 1), At(x, pad, i + 2))
  }

  /** `ip` bytes are consumed, of which the last `copy` are literals not yet closed into a token. */
  datatype Cursor = Cursor(ip: nat, copy: nat, done: seq<Token>)

  /** The scan: where it is, and an earlier position for each hash value. */
  datatype Scan = Scan(at: Cursor, table: seq<nat>)

  predicate ValidCursor(x: seq<Byte>, c: Cursor) {
    c.copy <= c.ip <= |x| && c.copy < MAX_COPY
  }

  ghost predicate TableBehind(table: seq<nat>, ip: nat) {
    |table| == HASH_SIZE && forall h :: 0 <= h < HASH_SIZE ==> table[h] < ip
  }

  ghost predicate ValidScan(x: seq<Byte>, s: Scan) {
    ValidCursor(x, s.at) && 2 <= s.at.ip && TableBehind(s.table, s.at.ip)
  }

  // ---------- looking for a match ----------

  datatype Search =
    | Miss(table: seq<nat>)
    | Hit(distance: nat, minimum: nat, table: seq<nat>)

  predicate IsRun(x: seq<Byte>, ip: nat)
    requires 1 <= ip && ip + 2 < |x|
  {
    x[ip] == x[ip - 1] && x[ip - 1] == x[ip + 1] && x[ip] == x[ip + 2]
  }

  function Find(level: Level, x: seq<Byte>, pad: Byte, hash: Hash, ip: nat, table: seq<nat>): (r: Search)
    requires 2 <= ip && ip + 12 < |x| && TableBehind(table, ip)
    ensures TableBehind(r.table, ip + 1)
    ensures r.Hit? ==> 1 <= r.distance < Reach(level) && r.distance <= ip
    ensures r.Hit? ==> r.minimum == (if level.Two? && r.distance >= NEAR_LIMIT then 5 else 3)
    ensures r.Hit? ==> Echoes(x, r.distance, ip, ip + r.minimum)
  {
    if level.Two? && IsRun(x, ip) then Hit(1, 3, table)
    else
      var h := HashAt(x, pad, hash, ip);
      var distance := ip - table[h];
      var table1 := table[h := ip];
      if distance == 0 || distance >= Reach(level) || !Echoes(x, distance, ip, ip + 3) then Miss(table1)
      else if level.Two? && distance >= NEAR_LIMIT then
        if Echoes(x, distance, ip + 3, ip + 5) then Hit(distance, 5, table1) else Miss(table1)
      else Hit(distance, 3, table1)
  }

  /** The first position at or after `p` that breaks the repetition, or `cap`. */
  function MatchEnd(x: seq<Byte>, distance: nat, p: nat, cap: nat): (r: nat)
    requires 1 <= distance <= p <= cap < |x|
    ensures p <= r <= cap
    ensures Echoes(x, distance, p, r)
    ensures r < cap ==> !Repeats(x, distance, r)
    decreases cap - p
  {
    if p == cap || !Repeats(x, distance, p) then p else MatchEnd(x, distance, p + 1, cap)
  }

  /** There is no other such position. */
  lemma {:induction false} MatchEndUnique(x: seq<Byte>, distance: nat, p: nat, cap: nat, r: nat)
    requires 1 <= distance <= p <= r <= cap < |x|
    requires Echoes(x, distance, p, r)
    requires r < cap ==> !Repeats(x, distance, r)
    ensures r == MatchEnd(x, distance, p, cap)
    decreases cap - p
  {
    if p < r {
      assert Repeats(x, distance, p);
      MatchEndUnique(x, distance, p + 1, cap, r);
    }
  }

  /**
   How far a match may run. The comparison loop stops at two bytes before the end of the
   input but always compares eight bytes first; only a far match can come that close.
   */
  function MatchCap(length: nat, ip: nat, minimum: nat): nat
    requires ip + 12 < length && minimum <= 5
  {
    Max(length - 3, ip + minimum + 7)
  }

  // ---------- tokens ----------

  /** Level One cuts long matches into pieces that reuse one distance. */
  function MatchTokens(level: Level, distance: nat, length: nat): (r: seq<Token>)
    requires 1 <= distance < Reach(level) && 3 <= length <= INT_MAX
    ensures AllEncodable(level, r)
  {
    if level.One? && length > MAX_LEN then
      [Match(distance, MAX_LEN - 2)] + MatchTokens(level, distance, length - (MAX_LEN - 2))
    else [Match(distance, length)]
  }

  /** The tokens so far, with the open literal run closed. */
  function Flush(x: seq<Byte>, c: Cursor): seq<Token>
    requires ValidCursor(x, c)
  {
    if c.copy == 0 then c.done else c.done + [Literal(x[c.ip - c.copy..c.ip])]
  }

  /** One more literal byte; a full run is closed at once. */
  function AddLiteral(x: seq<Byte>, c: Cursor): (r: Cursor)
    requires ValidCursor(x, c) && c.ip < |x|
    ensures ValidCursor(x, r) && r.ip == c.ip + 1
  {
    if c.copy + 1 == MAX_COPY then
      Cursor(c.ip + 1, 0, c.done + [Literal(x[c.ip + 1 - MAX_COPY..c.ip + 1])])
    else
      c.(ip := c.ip + 1, copy := c.copy + 1)
  }

  /** Closes the open run and adds a match that stops at `end`. */
  function AddMatch(level: Level, x: seq<Byte>, c: Cursor, distance: nat, end: nat): (r: Cursor)
    requires ValidCursor(x, c) && c.ip + 3 <= end <= |x| <= INT_MAX
    requires 1 <= distance < Reach(level)
    ensures ValidCursor(x, r) && r.ip == end && r.copy == 0
  {
    Cursor(end, 0, Flush(x, c) + MatchTokens(level, distance, end - c.ip))
  }

  /** Both positions at the end of a match enter the hash table. */
  function TouchBoundary(x: seq<Byte>, pad: Byte, hash: Hash, table: seq<nat>, end: nat): (r: seq<nat>)
    requires end >= 2 && TableBehind(table, end)
    ensures TableBehind(r, end)
  {
    table[HashAt(x, pad, hash, end - 2) := end - 2][HashAt(x, pad, hash, end - 1) := end - 1]
  }

  // ---------- the scan ----------

  function Start(x: seq<Byte>): (s: Scan)
    requires |x| >= 4
    ensures ValidScan(x, s)
  {
    Scan(Cursor(2, 2, []), seq(HASH_SIZE, _ => 0))
  }

  function Step(level: Level, x: seq<Byte>, pad: Byte, hash: Hash, s: Scan): (r: Scan)
    requires ValidScan(x, s) && s.at.ip + 12 < |x| <= INT_MAX
    ensures ValidScan(x, r) && r.at.ip > s.at.ip
  {
    match Find(level, x, pad, hash, s.at.ip, s.table)
    case Miss(table) => Scan(AddLiteral(x, s.at), table)
    case Hit(distance, minimum, table) =>
      var end := MatchEnd(x, distance, s.at.ip + minimum, MatchCap(|x|, s.at.ip, minimum));
      Scan(AddMatch(level, x, s.at, distance, end), TouchBoundary(x, pad, hash, table, end))
  }

  function Scanned(level: Level, x: seq<Byte>, pad: Byte, hash: Hash, s: Scan): (r: Cursor)
    requires ValidScan(x, s) && |x| <= INT_MAX
    ensures ValidCursor(x, r)
    decreases |x| - s.at.ip
  {
    if s.at.ip + 12 < |x| then Scanned(level, x, pad, hash, Step(level, x, pad, hash, s)) else s.at
  }

  /** What is left goes out as literals. */
  function Drained(x: seq<Byte>, c: Cursor): (r: Cursor)
    requires ValidCursor(x, c)
    ensures ValidCursor(x, r) && r.ip == |x|
    decreases |x| - c.ip
  {
    if c.ip == |x| then c else Drained(x, AddLiteral(x, c))
  }

  function Tokens(level: Level, x: seq<Byte>, pad: Byte, hash: Hash): seq<Token>
    requires |x| <= INT_MAX
  {
    if |x| == 0 then []
    else if |x| < 4 then [Literal(x)]
    else Flush(x, Drained(x, Scanned(level, x, pad, hash, Start(x))))
  }

  // ---------- nothing is missed ----------

  /** Three bytes equal to the three at `ip` lie at the earlier position `p`. */
  predicate SameThree(x: seq<Byte>, p: nat, ip: nat)
    requires p < ip && ip + 2 < |x|
  {
    x[p] == x[ip] && x[p + 1] == x[ip + 1] && x[p + 2] == x[ip + 2]
  }

  lemma EchoesThree(x: seq<Byte>, p: nat, ip: nat)
    requires p < ip && ip + 12 < |x|
    ensures Echoes(x, ip - p, ip, ip + 3) <==> SameThree(x, p, ip)
    ensures Echoes(x, ip - p, ip + 3, ip + 5) <==> x[p + 3] == x[ip + 3] && x[p + 4] == x[ip + 4]
  {
    var d := ip - p;
    assert Repeats(x, d, ip) <==> x[p] == x[ip];
    assert Repeats(x, d, ip + 1) <==> x[p + 1] == x[ip + 1];
    assert Repeats(x, d, ip + 2) <==> x[p + 2] == x[ip + 2];
    assert Repeats(x, d, ip + 3) <==> x[p + 3] == x[ip + 3];
    assert Repeats(x, d, ip + 4) <==> x[p + 4] == x[ip + 4];
  }

  /**
   A byte becomes a literal only where nothing matches: there is no run at level Two, and the position
   `p` in the table is out of reach, or differs in the first three bytes, or, far away at level Two,
   in the next two. The table then has the byte's position in the place of `p`.
   */
  lemma LiteralIff(level: Level, x: seq<Byte>, pad: Byte, hash: Hash, s: Scan)
    requires ValidScan(x, s) && s.at.ip + 12 < |x| <= INT_MAX
    ensures var ip := s.at.ip;
            var slot := hash(x[ip], x[ip + 1], x[ip + 2]);
            var p := s.table[slot];
            var next := Step(level, x, pad, hash, s);
            && (next.at.ip == ip + 1 <==>
                && !(level.Two? && x[ip - 1] == x[ip] == x[ip + 1] == x[ip + 2])
                && (|| ip - p >= (if level.One? then 8192 else 73725)
                    || !SameThree(x, p, ip)
                    || (level.Two? && ip - p >= 8191 && !(x[p + 3] == x[ip + 3] && x[p + 4] == x[ip + 4]))))
            && (next.at.ip == ip + 1 ==> next.table == s.table[slot := ip])
  {
    StepIs(level, x, pad, hash, s);
    MissWhere(level, x, pad, hash, s.at.ip, s.table);
    hide *;
  }

  lemma MissWhere(level: Level, x: seq<Byte>, pad: Byte, hash: Hash, ip: nat, table: seq<nat>)
    requires 2 <= ip && ip + 12 < |x| && TableBehind(table, ip)
    ensures var slot := hash(x[ip], x[ip + 1], x[ip + 2]);
            var p := table[slot];
            var found := Find(level, x, pad, hash, ip, table);
            && (found.Miss? <==>
                && !(level.Two? && x[ip - 1] == x[ip] == x[ip + 1] == x[ip + 2])
                && (|| ip - p >= (if level.One? then 8192 else 73725)
                    || !SameThree(x, p, ip)
                    || (level.Two? && ip - p >= 8191 && !(x[p + 3] == x[ip + 3] && x[p + 4] == x[ip + 4]))))
            && (found.Miss? ==> found.table == table[slot := ip])
  {
    EchoesThree(x, table[hash(x[ip], x[ip + 1], x[ip + 2])], ip);
    hide Echoes, SameThree;
  }

  /** Where the bytes at `ip` are found again: one back in a run, else at the position in the table. */
  function FoundAt(level: Level, x: seq<Byte>, hash: Hash, ip: nat, table: seq<nat>): nat
    requires 2 <= ip && ip + 12 < |x| && TableBehind(table, ip)
  {
    if level.Two? && x[ip - 1] == x[ip] == x[ip + 1] == x[ip + 2] then ip - 1
    else table[hash(x[ip], x[ip + 1], x[ip + 2])]
  }

  /** The table with `ip` in it; a run is found without looking there, and leaves it alone. */
  function Recorded(level: Level, x: seq<Byte>, hash: Hash, ip: nat, table: seq<nat>): (r: seq<nat>)
    requires 2 <= ip && ip + 12 < |x| && TableBehind(table, ip)
    ensures |r| == HASH_SIZE
  {
    if level.Two? && x[ip - 1] == x[ip] == x[ip + 1] == x[ip + 2] then table
    else table[hash(x[ip], x[ip + 1], x[ip + 2]) := ip]
  }

  /**
   Any other step is a match as long as it can be: every byte repeats the one at the distance, and it
   ends at the first that does not, or three bytes before the end of the input, or, far away at level
   Two, after the twelve bytes that are compared in any case.
   */
  lemma MatchIsLongest(level: Level, x: seq<Byte>, pad: Byte, hash: Hash, s: Scan)
    requires ValidScan(x, s) && s.at.ip + 12 < |x| <= INT_MAX
    requires Step(level, x, pad, hash, s).at.ip != s.at.ip + 1
    ensures var ip := s.at.ip;
            var d := ip - FoundAt(level, x, hash, ip, s.table);
            var end := Step(level, x, pad, hash, s).at.ip;
            && 1 <= d < (if level.One? then 8192 else 73725) && ip + 3 <= end < |x|
            && (forall k :: ip <= k < end ==> Repeats(x, d, k))
            && (Repeats(x, d, end) ==> end == |x| - 3 || (level.Two? && d >= 8191 && end == ip + 12 > |x| - 3))
            && (end > |x| - 3 ==> level.Two? && d >= 8191 && end <= ip + 12)
  {
    var ip := s.at.ip;
    StepIs(level, x, pad, hash, s);
    FoundWhere(level, x, pad, hash, ip, s.table);
    var found := Find(level, x, pad, hash, ip, s.table);
    hide Step, AddMatch, AddLiteral, TouchBoundary, MatchTokens, Find, FoundAt, StepReadsPast;
    var cap := MatchCap(|x|, ip, found.minimum);
    var end := MatchEnd(x, found.distance, ip + found.minimum, cap);
    assert end < cap ==> !Repeats(x, found.distance, end);
    assert forall k :: ip <= k < end ==> Repeats(x, found.distance, k);
  }

  lemma FoundWhere(level: Level, x: seq<Byte>, pad: Byte, hash: Hash, ip: nat, table: seq<nat>)
    requires 2 <= ip && ip + 12 < |x| && TableBehind(table, ip)
    ensures var found := Find(level, x, pad, hash, ip, table);
            found.Hit? ==>
              && found.distance == ip - FoundAt(level, x, hash, ip, table)
              && found.table == Recorded(level, x, hash, ip, table)
  {
  }

  /** Such a step closes the literals before it and adds the match at that distance. */
  lemma MatchTaken(level: Level, x: seq<Byte>, pad: Byte, hash: Hash, s: Scan)
    requires ValidScan(x, s) && s.at.ip + 12 < |x| <= INT_MAX
    requires Step(level, x, pad, hash, s).at.ip != s.at.ip + 1
    ensures var d := s.at.ip - FoundAt(level, x, hash, s.at.ip, s.table);
            var next := Step(level, x, pad, hash, s).at;
            && s.at.ip + 3 <= next.ip && 1 <= d < Reach(level)
            && next == Cursor(next.ip, 0, Flush(x, s.at) + MatchTokens(level, d, next.ip - s.at.ip))
  {
    StepIs(level, x, pad, hash, s);
    FoundWhere(level, x, pad, hash, s.at.ip, s.table);
    hide Step, Find, FoundAt, Flush, MatchTokens, MatchEnd, MatchCap, TouchBoundary;
  }

  /** The table gains `ip`, unless a run was found, and the last two positions the match covers. */
  lemma MatchRecorded(level: Level, x: seq<Byte>, pad: Byte, hash: Hash, s: Scan)
    requires ValidScan(x, s) && s.at.ip + 12 < |x| <= INT_MAX
    requires Step(level, x, pad, hash, s).at.ip != s.at.ip + 1
    ensures var ip, next := s.at.ip, Step(level, x, pad, hash, s);
            var end := next.at.ip;
            && ip + 3 <= end < |x|
            && next.table ==
               Recorded(level, x, hash, ip, s.table)
               [hash(x[end - 2], x[end - 1], x[end]) := end - 2]
               [hash(x[end - 1], x[end], if end + 1 < |x| then x[end + 1] else pad) := end - 1]
  {
    StepIs(level, x, pad, hash, s);
    FoundWhere(level, x, pad, hash, s.at.ip, s.table);
    var end := Step(level, x, pad, hash, s).at.ip;
    var found := Find(level, x, pad, hash, s.at.ip, s.table);
    BoundaryAre(x, pad, hash, found.table, end);
    hide *;
  }

  lemma BoundaryAre(x: seq<Byte>, pad: Byte, hash: Hash, table: seq<nat>, end: nat)
    requires 2 <= end < |x| && TableBehind(table, end)
    ensures TouchBoundary(x, pad, hash, table, end) ==
            table[hash(x[end - 2], x[end - 1], x[end]) := end - 2]
                 [hash(x[end - 1], x[end], if end + 1 < |x| then x[end + 1] else pad) := end - 1]
  {
  }

  /** A match as tokens: one at level Two; at level One pieces of 262 bytes and a rest of 3 to 264, all at the distance. */
  lemma {:induction false} MatchTokensAre(level: Level, distance: nat, length: nat)
    requires 1 <= distance < Reach(level) && 3 <= length <= INT_MAX
    ensures var r := MatchTokens(level, distance, length);
            && |r| >= 1 && (level.Two? ==> |r| == 1) && 262 * (|r| - 1) <= length - 3
            && (forall k :: 0 <= k < |r| - 1 ==> r[k] == Match(distance, 262))
            && r[|r| - 1] == Match(distance, length - 262 * (|r| - 1))
            && (level.One? ==> length - 262 * (|r| - 1) <= 264)
    decreases length
  {
    if level.One? && length > MAX_LEN {
      MatchTokensAre(level, distance, length - (MAX_LEN - 2));
    }
  }

  // ---------- the byte behind the input ----------

  /** Whether a step reads the byte behind the input: the second boundary hash looks two bytes past its position. */
  predicate StepReadsPast(level: Level, x: seq<Byte>, pad: Byte, hash: Hash, s: Scan)
    requires ValidScan(x, s) && s.at.ip + 12 < |x|
  {
    match Find(level, x, pad, hash, s.at.ip, s.table)
    case Miss(_) => false
    case Hit(distance, minimum, _) =>
      MatchEnd(x, distance, s.at.ip + minimum, MatchCap(|x|, s.at.ip, minimum)) + 1 >= |x|
  }

  predicate ReadsPastFrom(level: Level, x: seq<Byte>, pad: Byte, hash: Hash, s: Scan)
    requires ValidScan(x, s) && |x| <= INT_MAX
    decreases |x| - s.at.ip
  {
    s.at.ip + 12 < |x| && (StepReadsPast(level, x, pad, hash, s) || ReadsPastFrom(level, x, pad, hash, Step(level, x, pad, hash, s)))
  }

  /** Whether compressing reads the byte behind the input. */
  predicate ReadsPast(level: Level, x: seq<Byte>, pad: Byte, hash: Hash)
    requires |x| <= INT_MAX
  {
    |x| >= 4 && ReadsPastFrom(level, x, pad, hash, Start(x))
  }

  /** A step does so if and only if it finds a far match at the last position scanned that runs to the very last byte but one. */
  lemma StepReadsPastIff(level: Level, x: seq<Byte>, pad: Byte, hash: Hash, s: Scan)
    requires ValidScan(x, s) && s.at.ip + 12 < |x|
    ensures StepReadsPast(level, x, pad, hash, s) <==>
            && s.at.ip + 13 == |x|
            && var found := Find(level, x, pad, hash, s.at.ip, s.table);
               found.Hit? && level.Two? && found.distance >= NEAR_LIMIT && Echoes(x, found.distance, s.at.ip, |x| - 1)
  {
    var ip, found := s.at.ip, Find(level, x, pad, hash, s.at.ip, s.table);
    hide Find;
    if found.Hit? {
      var start, cap := ip + found.minimum, MatchCap(|x|, ip, found.minimum);
      var end := MatchEnd(x, found.distance, start, cap);
      if end < cap && ip + 13 == |x| {
        assert !Repeats(x, found.distance, end);
      }
    }
  }

  /** The state of the scan after `n` steps; it stays where it is once too few bytes are left. */
  function Turns(level: Level, x: seq<Byte>, pad: Byte, hash: Hash, n: nat): (s: Scan)
    requires 4 <= |x| <= INT_MAX
    ensures ValidScan(x, s)
  {
    if n == 0 then Start(x)
    else
      var s := Turns(level, x, pad, hash, n - 1);
      if s.at.ip + 12 < |x| then Step(level, x, pad, hash, s) else s
  }

  /** These are the states the scan goes through: going on from any of them ends where the scan ends. */
  lemma {:induction false} TurnsOfScan(level: Level, x: seq<Byte>, pad: Byte, hash: Hash, n: nat)
    requires 4 <= |x| <= INT_MAX
    ensures Scanned(level, x, pad, hash, Turns(level, x, pad, hash, n)) == Scanned(level, x, pad, hash, Start(x))
    decreases n
  {
    hide Step, Start;
    if n > 0 {
      TurnsOfScan(level, x, pad, hash, n - 1);
    }
  }

  /** After `n` steps the scan stands before a far match that runs to the last byte but one. */
  predicate FarToTheEnd(level: Level, x: seq<Byte>, pad: Byte, hash: Hash, n: nat)
    requires 4 <= |x| <= INT_MAX
  {
    var s := Turns(level, x, pad, hash, n);
    && level.Two? && s.at.ip + 13 == |x|
    && var found := Find(level, x, pad, hash, s.at.ip, s.table);
       found.Hit? && found.distance >= NEAR_LIMIT && Echoes(x, found.distance, s.at.ip, |x| - 1)
  }

  lemma NowOrLater(level: Level, x: seq<Byte>, pad: Byte, hash: Hash, n: nat)
    requires 4 <= |x| <= INT_MAX
    ensures (exists m :: n <= m && FarToTheEnd(level, x, pad, hash, m)) <==>
            FarToTheEnd(level, x, pad, hash, n) || exists m :: n + 1 <= m && FarToTheEnd(level, x, pad, hash, m)
  {
    hide FarToTheEnd;
  }

  lemma ReadsPastFromStep(level: Level, x: seq<Byte>, pad: Byte, hash: Hash, s: Scan)
    requires ValidScan(x, s) && s.at.ip + 12 < |x| <= INT_MAX
    ensures ReadsPastFrom(level, x, pad, hash, s) <==>
            StepReadsPast(level, x, pad, hash, s) || ReadsPastFrom(level, x, pad, hash, Step(level, x, pad, hash, s))
  {
  }

  lemma {:induction false} ReadsPastFromIff(level: Level, x: seq<Byte>, pad: Byte, hash: Hash, n: nat)
    requires 4 <= |x| <= INT_MAX
    ensures ReadsPastFrom(level, x, pad, hash, Turns(level, x, pad, hash, n)) <==>
            exists m :: n <= m && FarToTheEnd(level, x, pad, hash, m)
    decreases |x| - Turns(level, x, pad, hash, n).at.ip
  {
    hide Find, Step, Start, StepReadsPast;
    var s := Turns(level, x, pad, hash, n);
    if s.at.ip + 12 < |x| {
      StepReadsPastIff(level, x, pad, hash, s);
      assert Turns(level, x, pad, hash, n + 1) == Step(level, x, pad, hash, s);
      ReadsPastFromIff(level, x, pad, hash, n + 1);
      assert StepReadsPast(level, x, pad, hash, s) <==> FarToTheEnd(level, x, pad, hash, n);
      hide FarToTheEnd, ReadsPastFrom, Turns;
      NowOrLater(level, x, pad, hash, n);
      ReadsPastFromStep(level, x, pad, hash, s);
    } else {
      forall m | n <= m
        ensures !FarToTheEnd(level, x, pad, hash, m)
      {
        StaysAtEnd(level, x, pad, hash, n, m);
      }
    }
  }

  lemma {:induction false} StaysAtEnd(level: Level, x: seq<Byte>, pad: Byte, hash: Hash, n: nat, m: nat)
    requires 4 <= |x| <= INT_MAX && n <= m
    requires Turns(level, x, pad, hash, n).at.ip + 12 >= |x|
    ensures Turns(level, x, pad, hash, m) == Turns(level, x, pad, hash, n)
    decreases m
  {
    hide Step, Start;
    if n < m {
      StaysAtEnd(level, x, pad, hash, n, m - 1);
    }
  }

  /**
   The compressor reads the byte behind its input if and only if its level Two scan comes to stand
   thirteen bytes before the end and finds there a far match that covers all of them but the last.
   */
  lemma ReadsPastIff(level: Level, x: seq<Byte>, pad: Byte, hash: Hash)
    requires |x| <= INT_MAX
    ensures ReadsPast(level, x, pad, hash) <==> |x| >= 4 && exists n: nat :: FarToTheEnd(level, x, pad, hash, n)
  {
    if |x| >= 4 {
      ReadsPastFromIff(level, x, pad, hash, 0);
    }
  }

  // ---------- it does not matter what the byte is ----------

  lemma FindPad(level: Level, x: seq<Byte>, p: Byte, q: Byte, hash: Hash, ip: nat, table: seq<nat>)
    requires 2 <= ip && ip + 12 < |x| && TableBehind(table, ip)
    ensures Find(level, x, p, hash, ip, table) == Find(level, x, q, hash, ip, table)
  {
  }

  /** A step that reads the byte is the last one, and only the table it leaves depends on it. */
  lemma StepPad(level: Level, x: seq<Byte>, p: Byte, q: Byte, hash: Hash, s: Scan)
    requires ValidScan(x, s) && s.at.ip + 12 < |x| <= INT_MAX
    ensures StepReadsPast(level, x, p, hash, s) == StepReadsPast(level, x, q, hash, s)
    ensures var next, other := Step(level, x, p, hash, s), Step(level, x, q, hash, s);
            next.at == other.at && (next == other || next.at.ip + 12 >= |x|)
  {
    FindPad(level, x, p, q, hash, s.at.ip, s.table);
    StepIs(level, x, p, hash, s);
    StepIs(level, x, q, hash, s);
    hide *;
    match Find(level, x, p, hash, s.at.ip, s.table)
    case Miss(_) =>
    case Hit(_, _, table) =>
      BoundaryPad(x, p, q, hash, table, Step(level, x, p, hash, s).at.ip);
  }

  /** Where a step goes, and the table it leaves. */
  lemma StepIs(level: Level, x: seq<Byte>, pad: Byte, hash: Hash, s: Scan)
    requires ValidScan(x, s) && s.at.ip + 12 < |x| <= INT_MAX
    ensures var next := Step(level, x, pad, hash, s);
            match Find(level, x, pad, hash, s.at.ip, s.table)
            case Miss(table) => next.at == AddLiteral(x, s.at) && next.table == table && !StepReadsPast(level, x, pad, hash, s)
            case Hit(distance, minimum, table) =>
              var end := MatchEnd(x, distance, s.at.ip + minimum, MatchCap(|x|, s.at.ip, minimum));
              && next.at == AddMatch(level, x, s.at, distance, end) && next.at.ip == end
              && TableBehind(table, end) && next.table == TouchBoundary(x, pad, hash, table, end)
              && (StepReadsPast(level, x, pad, hash, s) <==> end + 1 >= |x|)
  {
    hide Find, AddMatch, AddLiteral, HashAt, MatchCap, TouchBoundary, Echoes;
  }

  lemma BoundaryPad(x: seq<Byte>, p: Byte, q: Byte, hash: Hash, table: seq<nat>, end: nat)
    requires end >= 2 && TableBehind(table, end)
    ensures end + 1 < |x| ==> TouchBoundary(x, p, hash, table, end) == TouchBoundary(x, q, hash, table, end)
  {
  }

  lemma {:induction false} ScannedPad(level: Level, x: seq<Byte>, p: Byte, q: Byte, hash: Hash, s: Scan)
    requires ValidScan(x, s) && |x| <= INT_MAX
    ensures Scanned(level, x, p, hash, s) == Scanned(level, x, q, hash, s)
    ensures ReadsPastFrom(level, x, p, hash, s) == ReadsPastFrom(level, x, q, hash, s)
    decreases |x| - s.at.ip
  {
    hide Step, StepReadsPast;
    if s.at.ip + 12 < |x| {
      StepPad(level, x, p, q, hash, s);
      var next := Step(level, x, p, hash, s);
      if next.at.ip + 12 < |x| {
        ScannedPad(level, x, p, q, hash, next);
      }
    }
  }

  /** The tokens found, and whether the byte behind the input is read, do not depend on that byte. */
  lemma PadIrrelevant(level: Level, x: seq<Byte>, p: Byte, q: Byte, hash: Hash)
    requires |x| <= INT_MAX
    ensures Tokens(level, x, p, hash) == Tokens(level, x, q, hash)
    ensures ReadsPast(level, x, p, hash) == ReadsPast(level, x, q, hash)
  {
    if |x| >= 4 {
      ScannedPad(level, x, p, q, hash, Start(x));
    }
  }

  // ---------- an input on which it is read ----------

  const ENCORE: nat := 65600

  /** Two nines, a one, zeros up to ENCORE, and there the one and twelve zeros again. */
  function Encore(): (x: seq<Byte>)
    ensures |x| == ENCORE + 13
    ensures forall i :: 0 <= i < |x| ==> x[i] == if i < 2 then 9 else if i == 2 || i == ENCORE then 1 else 0
  {
    seq(ENCORE + 13, i => if i < 2 then 9 else if i == 2 || i == ENCORE then 1 else 0)
  }

  /** Tells a leading one from everything else. */
  function EncoreHash(a: Byte, b: Byte, c: Byte): Slot {
    if a == 1 then 1 else 0
  }

  lemma EncoreOpening(pad: Byte)
    ensures var x := Encore();
            var s := Turns(Two, x, pad, EncoreHash, 2);
            s.at.ip == 4 && s.at.copy == 4 && s.table == seq(HASH_SIZE, _ => 0)[1 := 2][0 := 3]
  {
    hide Encore;
    var x, s := Encore(), Start(Encore());
    assert !Repeats(x, 2, 2);
    assert Find(Two, x, pad, EncoreHash, 2, s.table) == Miss(s.table[1 := 2]);
    assert Turns(Two, x, pad, EncoreHash, 0) == s;
    var next := Turns(Two, x, pad, EncoreHash, 1);
    assert next.table == s.table[1 := 2] && next.at.ip == 3;
    assert !Repeats(x, 3, 3);
    assert Find(Two, x, pad, EncoreHash, 3, next.table) == Miss(next.table[0 := 3]);
  }

  lemma EncoreZeros()
    ensures MatchEnd(Encore(), 1, 7, ENCORE + 10) == ENCORE
  {
    hide Encore;
    var x := Encore();
    forall k | 7 <= k < ENCORE
      ensures Repeats(x, 1, k)
    {
      assert x[k] == 0 == x[k - 1];
    }
    assert !Repeats(x, 1, ENCORE);
    MatchEndUnique(x, 1, 7, ENCORE + 10, ENCORE);
  }

  /** The zeros are one run, which ends where the encore begins and leaves the first one in the table. */
  lemma EncoreRun(pad: Byte)
    ensures var s := Turns(Two, Encore(), pad, EncoreHash, 3);
            s.at.ip == ENCORE && s.table[1] == 2
  {
    var x, s := Encore(), Turns(Two, Encore(), pad, EncoreHash, 2);
    EncoreOpening(pad);
    EncoreZeros();
    assert IsRun(x, 4);
    assert Turns(Two, x, pad, EncoreHash, 3) == Step(Two, x, pad, EncoreHash, s);
    hide Encore, Turns, Step;
    assert Find(Two, x, pad, EncoreHash, 4, s.table) == Hit(1, 3, s.table);
    hide Find, MatchEnd;
    StepIs(Two, x, pad, EncoreHash, s);
  }

  lemma EncoreFound(pad: Byte, table: seq<nat>)
    requires TableBehind(table, ENCORE) && table[1] == 2
    ensures Find(Two, Encore(), pad, EncoreHash, ENCORE, table) == Hit(ENCORE - 2, 5, table[1 := ENCORE])
  {
    EncoreEchoes();
    hide Encore;
    var x := Encore();
    assert Echoes(x, ENCORE - 2, ENCORE, ENCORE + 3) && Echoes(x, ENCORE - 2, ENCORE + 3, ENCORE + 5);
  }

  /** On that input the compressor, at the level its length calls for, reads the byte behind it. */
  lemma EncoreReadsPast(pad: Byte)
    ensures |Encore()| >= 65536 && ReadsPast(Two, Encore(), pad, EncoreHash)
  {
    EncoreRun(pad);
    EncoreFound(pad, Turns(Two, Encore(), pad, EncoreHash, 3).table);
    EncoreEchoes();
    ReadsPastIff(Two, Encore(), pad, EncoreHash);
    hide Encore, Turns, Find, EncoreHash, ReadsPast;
    assert FarToTheEnd(Two, Encore(), pad, EncoreHash, 3);
  }

  lemma EncoreEchoes()
    ensures Echoes(Encore(), ENCORE - 2, ENCORE, ENCORE + 12)
    ensures !IsRun(Encore(), ENCORE)
  {
  }

  // ---------- the tokens mean the input ----------

  lemma {:induction false} MatchTokensExpand(level: Level, out: seq<Byte>, distance: nat, length: nat)
    requires 1 <= distance < Reach(level) && 3 <= length <= INT_MAX && distance <= |out|
    ensures Expand(out, MatchTokens(level, distance, length)) == Some(Repeat(out, distance, length))
    decreases length
  {
    hide Repeat, Expand, Encodable;
    if level.One? && length > MAX_LEN {
      var piece, rest := MAX_LEN - 2, length - (MAX_LEN - 2);
      var mid := Repeat(out, distance, piece);
      ExpandOne(out, Match(distance, piece));
      ExpandConcat(out, [Match(distance, piece)], MatchTokens(level, distance, rest));
      MatchTokensExpand(level, mid, distance, rest);
      RepeatSplit(out, distance, piece, rest);
    } else {
      ExpandOne(out, Match(distance, length));
    }
  }

  /** `done` is encodable and expands to exactly the first `covered` bytes of the input. */
  ghost predicate Covers(level: Level, x: seq<Byte>, done: seq<Token>, covered: nat)
    requires covered <= |x|
  {
    AllEncodable(level, done) && Expand([], done) == Some(x[..covered])
  }

  ghost predicate Faithful(level: Level, x: seq<Byte>, c: Cursor)
    requires ValidCursor(x, c)
  {
    Covers(level, x, c.done, c.ip - c.copy)
  }

  lemma CloseLiteral(level: Level, x: seq<Byte>, done: seq<Token>, from: nat, to: nat)
    requires from < to <= |x| && to - from <= MAX_COPY
    requires Covers(level, x, done, from)
    ensures Covers(level, x, done + [Literal(x[from..to])], to)
  {
    var t := Literal(x[from..to]);
    ExpandConcat([], done, [t]);
    ExpandOne(x[..from], t);
    assert x[..from] + x[from..to] == x[..to];
  }

  lemma FlushFaithful(level: Level, x: seq<Byte>, c: Cursor)
    requires ValidCursor(x, c) && Faithful(level, x, c)
    ensures Covers(level, x, Flush(x, c), c.ip)
  {
    if c.copy > 0 {
      CloseLiteral(level, x, c.done, c.ip - c.copy, c.ip);
    }
  }

  lemma AddLiteralFaithful(level: Level, x: seq<Byte>, c: Cursor)
    requires ValidCursor(x, c) && c.ip < |x| && Faithful(level, x, c)
    ensures Faithful(level, x, AddLiteral(x, c))
  {
    if c.copy + 1 == MAX_COPY {
      CloseLiteral(level, x, c.done, c.ip + 1 - MAX_COPY, c.ip + 1);
    }
  }

  lemma EchoIsRepeat(x: seq<Byte>, ip: nat, distance: nat, end: nat)
    requires 1 <= distance <= ip <= end <= |x|
    requires Echoes(x, distance, ip, end)
    ensures Repeat(x[..ip], distance, end - ip) == x[..end]
  {
    assert x[..end][..ip] == x[..ip];
    forall k | ip <= k < end
      ensures Repeats(x[..end], distance, k)
    {
      assert Repeats(x, distance, k);
    }
    RepeatUnique(x[..ip], distance, x[..end]);
  }

  lemma CloseMatch(level: Level, x: seq<Byte>, done: seq<Token>, ip: nat, distance: nat, end: nat)
    requires 1 <= distance < Reach(level) && distance <= ip && ip + 3 <= end <= |x| <= INT_MAX
    requires Echoes(x, distance, ip, end)
    requires Covers(level, x, done, ip)
    ensures Covers(level, x, done + MatchTokens(level, distance, end - ip), end)
  {
    hide MatchTokens, Repeat, Encodable;
    ExpandConcat([], done, MatchTokens(level, distance, end - ip));
    MatchTokensExpand(level, x[..ip], distance, end - ip);
    EchoIsRepeat(x, ip, distance, end);
  }

  lemma AddMatchFaithful(level: Level, x: seq<Byte>, c: Cursor, distance: nat, end: nat)
    requires ValidCursor(x, c) && c.ip + 3 <= end <= |x| <= INT_MAX
    requires 1 <= distance < Reach(level) && distance <= c.ip
    requires Echoes(x, distance, c.ip, end)
    requires Faithful(level, x, c)
    ensures Faithful(level, x, AddMatch(level, x, c, distance, end))
  {
    FlushFaithful(level, x, c);
    CloseMatch(level, x, Flush(x, c), c.ip, distance, end);
  }

  lemma StepFaithful(level: Level, x: seq<Byte>, pad: Byte, hash: Hash, s: Scan)
    requires ValidScan(x, s) && s.at.ip + 12 < |x| <= INT_MAX && Faithful(level, x, s.at)
    ensures Faithful(level, x, Step(level, x, pad, hash, s).at)
  {
    hide Covers, Find, AddMatch, AddLiteral;
    match Find(level, x, pad, hash, s.at.ip, s.table)
    case Miss(_) =>
      AddLiteralFaithful(level, x, s.at);
    case Hit(distance, minimum, _) =>
      var end := MatchEnd(x, distance, s.at.ip + minimum, MatchCap(|x|, s.at.ip, minimum));
      AddMatchFaithful(level, x, s.at, distance, end);
  }

  lemma {:induction false} ScannedFaithful(level: Level, x: seq<Byte>, pad: Byte, hash: Hash, s: Scan)
    requires ValidScan(x, s) && |x| <= INT_MAX && Faithful(level, x, s.at)
    ensures Faithful(level, x, Scanned(level, x, pad, hash, s))
    decreases |x| - s.at.ip
  {
    if s.at.ip + 12 < |x| {
      StepFaithful(level, x, pad, hash, s);
      ScannedFaithful(level, x, pad, hash, Step(level, x, pad, hash, s));
    }
  }

  lemma {:induction false} DrainedFaithful(level: Level, x: seq<Byte>, c: Cursor)
    requires ValidCursor(x, c) && Faithful(level, x, c)
    ensures Faithful(level, x, Drained(x, c))
    decreases |x| - c.ip
  {
    if c.ip < |x| {
      AddLiteralFaithful(level, x, c);
      DrainedFaithful(level, x, AddLiteral(x, c));
    }
  }

  /** Whatever the hash function, the tokens found are encodable and expand to the input. */
  lemma TokensFaithful(level: Level, x: seq<Byte>, pad: Byte, hash: Hash)
    requires |x| <= INT_MAX
    ensures AllEncodable(level, Tokens(level, x, pad, hash))
    ensures Expand([], Tokens(level, x, pad, hash)) == Some(x)
  {
    assert x[..|x|] == x && [] + x == x;
    if 0 < |x| < 4 {
      ExpandOne([], Literal(x));
    } else if |x| >= 4 {
      var s := Start(x);
      ScannedFaithful(level, x, pad, hash, s);
      var scanned := Scanned(level, x, pad, hash, s);
      DrainedFaithful(level, x, scanned);
      FlushFaithful(level, x, Drained(x, scanned));
    }
  }
}
