/**
 The meaning of a compressed stream: a list of tokens, each of which extends the
 output either by literal bytes or by a copy of bytes that are already there.
 Nothing in this module knows how tokens are laid out in bytes.
 */
module Lz77 {
  import opened Basics

  datatype Token =
    | Literal(bytes: seq<Byte>)
    | Match(distance: nat, length: nat)

  predicate Repeats(v: seq<Byte>, distance: nat, k: nat)
    requires distance <= k < |v|
  {
    v[k] == v[k - distance]
  }

  /** The bytes in [from, to) each repeat the one `distance` places back. */
  predicate Echoes(v: seq<Byte>, distance: nat, from: nat, to: nat)
    requires distance <= from && to <= |v|
  {
    forall k :: from <= k < to ==> Repeats(v, distance, k)
  }

  /** The overlapping byte-by-byte copy: each new byte repeats the one `distance` places back. */
  function Repeat(out: seq<Byte>, distance: nat, count: nat): (r: seq<Byte>)
    requires 1 <= distance <= |out|
    ensures |r| == |out| + count && r[..|out|] == out
    decreases count
  {
    if count == 0 then out
    else
      var longer := out + [out[|out| - distance]];
      var r := Repeat(longer, distance, count - 1);
      assert r[..|out|] == r[..|longer|][..|out|];
      r
  }

  lemma {:induction false} RepeatEchoes(out: seq<Byte>, distance: nat, count: nat)
    requires 1 <= distance <= |out|
    ensures Echoes(Repeat(out, distance, count), distance, |out|, |out| + count)
    decreases count
  {
    if count > 0 {
      var longer := out + [out[|out| - distance]];
      var r := Repeat(longer, distance, count - 1);
      RepeatEchoes(longer, distance, count - 1);
      assert r[|out|] == r[..|longer|][|out|] && r[|out| - distance] == r[..|longer|][|out| - distance];
      assert Repeats(r, distance, |out|);
    }
  }

  /** Only one sequence echoes `out` over a given stretch. */
  lemma {:induction false} RepeatUnique(out: seq<Byte>, distance: nat, v: seq<Byte>)
    requires 1 <= distance <= |out| <= |v|
    requires v[..|out|] == out
    requires Echoes(v, distance, |out|, |v|)
    ensures v == Repeat(out, distance, |v| - |out|)
    decreases |v| - |out|
  {
    if |v| == |out| {
      assert v == out;
    } else {
      var longer := out + [out[|out| - distance]];
      assert Repeats(v, distance, |out|);
      assert v[|out| - distance] == v[..|out|][|out| - distance];
      assert v[..|longer|] == longer;
      RepeatUnique(longer, distance, v);
    }
  }

  lemma RepeatSplit(out: seq<Byte>, distance: nat, a: nat, b: nat)
    requires 1 <= distance <= |out|
    ensures Repeat(out, distance, a + b) == Repeat(Repeat(out, distance, a), distance, b)
  {
    var first := Repeat(out, distance, a);
    var v := Repeat(first, distance, b);
    RepeatEchoes(out, distance, a);
    RepeatEchoes(first, distance, b);
    assert v[..|out|] == v[..|first|][..|out|];
    forall k | |out| <= k < |v|
      ensures Repeats(v, distance, k)
    {
      if k < |first| {
        assert Repeats(first, distance, k);
        assert v[k] == v[..|first|][k] && v[k - distance] == v[..|first|][k - distance];
      }
    }
    RepeatUnique(out, distance, v);
  }

  predicate Playable(out: seq<Byte>, t: Token) {
    t.Match? ==> 1 <= t.distance <= |out|
  }

  function Play(out: seq<Byte>, t: Token): seq<Byte>
    requires Playable(out, t)
  {
    match t
    case Literal(bytes) => out + bytes
    case Match(distance, length) => Repeat(out, distance, length)
  }

  /** What a token list adds to `out`; None when some match reaches back before the start. */
  function Expand(out: seq<Byte>, tokens: seq<Token>): Option<seq<Byte>>
    decreases |tokens|
  {
    if tokens == [] then Some(out)
    else if Playable(out, tokens[0]) then Expand(Play(out, tokens[0]), tokens[1..])
    else None
  }

  lemma {:induction false} ExpandConcat(out: seq<Byte>, a: seq<Token>, b: seq<Token>)
    ensures Expand(out, a + b) ==
            match Expand(out, a) { case None => None case Some(v) => Expand(v, b) }
    decreases |a|
  {
    if a == [] {
      assert a + b == b;
    } else {
      assert (a + b)[1..] == a[1..] + b;
      if Playable(out, a[0]) {
        ExpandConcat(Play(out, a[0]), a[1..], b);
      }
    }
  }

  /** Expanding never shortens or rewrites what was already there. */
  lemma {:induction false} ExpandGrows(out: seq<Byte>, tokens: seq<Token>)
    ensures Expand(out, tokens).Some? ==> out <= Expand(out, tokens).value
    decreases |tokens|
  {
    if tokens != [] && Playable(out, tokens[0]) {
      var next := Play(out, tokens[0]);
      assert out <= next;
      ExpandGrows(next, tokens[1..]);
    }
  }

  lemma ExpandOne(out: seq<Byte>, t: Token)
    requires Playable(out, t)
    ensures Expand(out, [t]) == Some(Play(out, t))
  {
    assert Expand(out, [t]) == Expand(Play(out, t), [t][1..]);
  }
}
