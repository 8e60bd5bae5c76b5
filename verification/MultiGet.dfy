/**
 getMulti: the requested keys are turned into C arrays, the replies fill an ordered PHP array,
 and every string and array taken on the way is given back.
 */
module MultiGet {
  import opened Basics
  import opened ResultStream

  /** libmemcached's MEMCACHED_MAX_KEY: keys of up to 250 bytes and a terminator. */
  const MAX_KEY: nat := 251

  predicate ValidKey(key: string) {
    0 < |key| < MAX_KEY
  }

  // ---------- the PHP array ----------

  /** Keys in insertion order, each with its value; None is PHP's null. */
  datatype Ordered<V> = Ordered(keys: seq<string>, values: map<string, Option<V>>)

  function Empty<V>(): Ordered<V> {
    Ordered([], map[])
  }

  ghost predicate WellFormed<V>(a: Ordered<V>) {
    && (forall k :: k in a.keys <==> k in a.values)
    && (forall i, j :: 0 <= i < j < |a.keys| ==> a.keys[i] != a.keys[j])
  }

  /** An existing key keeps its place; a new one goes last. */
  function Update<V>(a: Ordered<V>, key: string, value: Option<V>): Ordered<V> {
    Ordered(if key in a.values then a.keys else a.keys + [key], a.values[key := value])
  }

  lemma UpdateWellFormed<V>(a: Ordered<V>, key: string, value: Option<V>)
    requires WellFormed(a)
    ensures WellFormed(Update(a, key, value))
  {
  }

  /** Each key once, where it first occurs. */
  function FirstOccurrences(keys: seq<string>): (r: seq<string>)
    ensures forall k :: k in r <==> k in keys
    decreases |keys|
  {
    if keys == [] then []
    else
      var front, last := keys[..|keys| - 1], keys[|keys| - 1];
      assert keys == front + [last];
      if last in front then FirstOccurrences(front) else FirstOccurrences(front) + [last]
  }

  /** Where a key first occurs. */
  function FirstIndex(keys: seq<string>, key: string): (i: nat)
    requires key in keys
    ensures i < |keys| && keys[i] == key && key !in keys[..i]
  {
    if keys[0] == key then 0
    else
      var i := 1 + FirstIndex(keys[1..], key);
      assert keys[..i] == [keys[0]] + keys[1..][..i - 1];
      i
  }

  lemma {:induction false} FirstIndexIs(keys: seq<string>, key: string, i: nat)
    requires i < |keys| && keys[i] == key && key !in keys[..i]
    ensures key in keys && FirstIndex(keys, key) == i
    decreases i
  {
    if i > 0 {
      assert keys[0] in keys[..i];
      assert forall k :: k in keys[1..][..i - 1] ==> k in keys[..i];
      FirstIndexIs(keys[1..], key, i - 1);
    }
  }

  /** The last entry does not move the keys before it, and comes last itself if it is new. */
  lemma FirstIndexAppend(keys: seq<string>, key: string)
    requires keys != [] && key in keys
    ensures var front := keys[..|keys| - 1];
            FirstIndex(keys, key) == if key in front then FirstIndex(front, key) else |front|
  {
    var front := keys[..|keys| - 1];
    if key in front {
      assert keys[..FirstIndex(front, key)] == front[..FirstIndex(front, key)];
      FirstIndexIs(keys, key, FirstIndex(front, key));
    } else {
      assert keys == front + [keys[|front|]];
      FirstIndexIs(keys, key, |front|);
    }
  }

  /** `r` lists keys of `keys` by the place they first occur at. */
  ghost predicate ByFirstIndex(keys: seq<string>, r: seq<string>)
    requires forall k :: k in r ==> k in keys
  {
    forall i, j :: 0 <= i < j < |r| ==> FirstIndex(keys, r[i]) < FirstIndex(keys, r[j])
  }

  lemma {:induction false} FirstOccurrencesInOrder(keys: seq<string>)
    ensures ByFirstIndex(keys, FirstOccurrences(keys))
    decreases |keys|
  {
    if keys != [] {
      var front, last := keys[..|keys| - 1], keys[|keys| - 1];
      var r, before := FirstOccurrences(keys), FirstOccurrences(front);
      FirstOccurrencesInOrder(front);
      forall i, j | 0 <= i < j < |r|
        ensures FirstIndex(keys, r[i]) < FirstIndex(keys, r[j])
      {
        assert r[i] in r && r[j] in r;
        assert r[i] == before[i] && before[i] in before;
        FirstIndexAppend(keys, r[i]);
        FirstIndexAppend(keys, r[j]);
        if j < |before| {
          assert r[j] == before[j] && before[j] in before;
          assert FirstIndex(front, before[i]) < FirstIndex(front, before[j]);
        }
      }
    }
  }

  /** Every requested key, valid or not, mapped to null. */
  function Nulls<V>(a: Ordered<V>, texts: seq<string>): Ordered<V>
    decreases |texts|
  {
    if texts == [] then a else Update(Nulls(a, texts[..|texts| - 1]), texts[|texts| - 1], None)
  }

  lemma NullsNext<V>(a: Ordered<V>, texts: seq<string>, n: nat)
    ensures Nulls(a, []) == a
    ensures n < |texts| ==> Nulls(a, texts[..n + 1]) == Update(Nulls(a, texts[..n]), texts[n], None)
  {
    if n < |texts| {
      assert texts[..n + 1][..n] == texts[..n];
    }
  }

  lemma {:induction false} NullsAre<V>(texts: seq<string>)
    ensures var a := Nulls(Empty<V>(), texts);
            && WellFormed(a) && a.keys == FirstOccurrences(texts)
            && forall k :: k in a.values ==> a.values[k] == None
    decreases |texts|
  {
    if texts != [] {
      var front := texts[..|texts| - 1];
      NullsAre<V>(front);
      UpdateWellFormed(Nulls(Empty<V>(), front), texts[|texts| - 1], None);
    }
  }

  // ---------- the replies ----------

  /** The getMulti callback: the value goes under its key, and fetching goes on. */
  function Collect<V>(a: Ordered<V>, d: Delivery<V>): (Ordered<V>, bool) {
    (Update(a, d.key, Some(d.value)), true)
  }

  function KeysOf<V>(items: seq<Delivery<V>>): (r: seq<string>)
    ensures |r| == |items|
    ensures forall i :: 0 <= i < |r| ==> r[i] == items[i].key
  {
    seq(|items|, i requires 0 <= i < |items| => items[i].key)
  }

  /** The last reply for `key`. */
  function Reply<V>(items: seq<Delivery<V>>, key: string): Option<V>
    decreases |items|
  {
    if items == [] then None
    else if items[|items| - 1].key == key then Some(items[|items| - 1].value)
    else Reply(items[..|items| - 1], key)
  }

  lemma FoldStep<V>(a: Ordered<V>, items: seq<Delivery<V>>)
    requires items != []
    ensures Fold(Collect, a, items) == Fold(Collect, Collect(a, items[0]).0, items[1..])
  {
  }

  lemma {:induction false} FoldSnoc<V>(a: Ordered<V>, items: seq<Delivery<V>>)
    requires items != []
    ensures Fold(Collect, a, items) == Collect(Fold(Collect, a, items[..|items| - 1]), items[|items| - 1]).0
    decreases |items|
  {
    FoldStep(a, items);
    if |items| > 1 {
      hide Fold, Collect;
      var next := Collect(a, items[0]).0;
      FoldSnoc(next, items[1..]);
      FoldStep(a, items[..|items| - 1]);
      assert items[1..][..|items| - 2] == items[..|items| - 1][1..];
    }
  }

  lemma FoldNext<V>(a: Ordered<V>, items: seq<Delivery<V>>)
    requires items != []
    ensures var front, last := items[..|items| - 1], items[|items| - 1];
            Fold(Collect, a, items) == Update(Fold(Collect, a, front), last.key, Some(last.value))
  {
    hide Fold, Update;
    FoldSnoc(a, items);
  }

  /** Replies under keys that are already there change values and nothing else. */
  lemma {:induction false} CollectOver<V>(a: Ordered<V>, items: seq<Delivery<V>>)
    requires WellFormed(a) && forall i :: 0 <= i < |items| ==> items[i].key in a.keys
    ensures var r := Fold(Collect, a, items);
            && r.keys == a.keys && WellFormed(r)
            && forall k :: k in a.keys ==> r.values[k] == (if Reply(items, k).Some? then Reply(items, k) else a.values[k])
    decreases |items|
  {
    if items != [] {
      CollectOver(a, items[..|items| - 1]);
      hide Fold;
      FoldNext(a, items);
    }
  }

  /** Every reply is to a key that was asked for. */
  predicate OnlyRequested<V>(items: seq<Delivery<V>>, texts: seq<string>) {
    forall i :: 0 <= i < |items| ==> items[i].key in texts
  }

  /**
   With order preserved: the keys of the result are the requested ones in the order they were
   first asked for, whatever order the replies came in; each has its reply or null.
   */
  lemma OrderPreserved<V>(texts: seq<string>, items: seq<Delivery<V>>)
    requires OnlyRequested(items, texts)
    ensures var r := Fold(Collect, Nulls(Empty<V>(), texts), items);
            && r.keys == FirstOccurrences(texts)
            && (forall k :: k in r.values <==> k in texts)
            && (forall k :: k in texts ==> r.values[k] == Reply(items, k))
  {
    NullsAre<V>(texts);
    CollectOver(Nulls(Empty<V>(), texts), items);
  }

  /** The array holds just the replies in `items`, in the order their keys first came. */
  ghost predicate HoldsReplies<V>(a: Ordered<V>, items: seq<Delivery<V>>) {
    && WellFormed(a)
    && a.keys == FirstOccurrences(KeysOf(items))
    && forall k :: k in a.values ==> a.values[k] == Reply(items, k) && Reply(items, k).Some?
  }

  lemma FirstOccurrencesNext(keys: seq<string>, key: string)
    ensures FirstOccurrences(keys + [key]) == FirstOccurrences(keys) + (if key in keys then [] else [key])
  {
    assert (keys + [key])[..|keys|] == keys;
  }

  lemma NextReply<V>(a: Ordered<V>, front: seq<Delivery<V>>, d: Delivery<V>)
    requires HoldsReplies(a, front)
    ensures HoldsReplies(Update(a, d.key, Some(d.value)), front + [d])
  {
    hide FirstOccurrences, Reply;
    var items, r := front + [d], Update(a, d.key, Some(d.value));
    UpdateWellFormed(a, d.key, Some(d.value));
    FirstOccurrencesNext(KeysOf(front), d.key);
    assert KeysOf(items) == KeysOf(front) + [d.key];
    assert d.key in a.values <==> d.key in a.keys;
    forall k | k in r.values
      ensures r.values[k] == Reply(items, k) && Reply(items, k).Some?
    {
      ReplyNext(front, d, k);
    }
  }

  lemma ReplyNext<V>(front: seq<Delivery<V>>, d: Delivery<V>, key: string)
    ensures Reply(front + [d], key) == if d.key == key then Some(d.value) else Reply(front, key)
  {
    assert (front + [d])[..|front|] == front;
  }

  lemma NoReplies<V>()
    ensures HoldsReplies(Fold(Collect, Empty<V>(), []), [])
  {
  }

  /** Without it: the order is that of the replies, and keys without a reply are absent. */
  lemma {:induction false} ReplyOrder<V>(items: seq<Delivery<V>>)
    ensures HoldsReplies(Fold(Collect, Empty<V>(), items), items)
    decreases |items|
  {
    hide HoldsReplies, Fold, Update, Empty;
    if items == [] {
      NoReplies<V>();
    } else {
      var front, last := items[..|items| - 1], items[|items| - 1];
      ReplyOrder(front);
      FoldNext(Empty<V>(), items);
      NextReply(Fold(Collect, Empty<V>(), front), front, last);
      assert front + [last] == items;
    }
  }

  // ---------- the key list and what it owns ----------

  /** Strings are numbered by the request entry they were converted from. */
  function ValidIndices(texts: seq<string>, n: nat): (r: seq<nat>)
    requires n <= |texts|
    ensures forall i :: 0 <= i < |r| ==> r[i] < n && ValidKey(texts[r[i]])
    ensures forall i, j :: 0 <= i < j < |r| ==> r[i] < r[j]
  {
    if n == 0 then []
    else if ValidKey(texts[n - 1]) then ValidIndices(texts, n - 1) + [n - 1]
    else ValidIndices(texts, n - 1)
  }

  /** Three parallel lists for the valid keys among the first `n` entries: the key, its length, its string. */
  ghost predicate Lists(texts: seq<string>, n: nat, mkeys: seq<string>, lengths: seq<nat>, strings: seq<nat>)
    requires n <= |texts|
  {
    && strings == ValidIndices(texts, n)
    && |strings| == |mkeys| == |lengths|
    && forall i :: 0 <= i < |strings| ==> mkeys[i] == texts[strings[i]] && lengths[i] == |mkeys[i]|
  }

  lemma ListsNext(texts: seq<string>, n: nat, mkeys: seq<string>, lengths: seq<nat>, strings: seq<nat>)
    requires n < |texts| && Lists(texts, n, mkeys, lengths, strings)
    ensures if ValidKey(texts[n]) then Lists(texts, n + 1, mkeys + [texts[n]], lengths + [|texts[n]|], strings + [n])
            else Lists(texts, n + 1, mkeys, lengths, strings)
  {
  }

  /** Just the entries of 1 to 250 bytes. */
  lemma {:induction false} ValidIndicesAre(texts: seq<string>, n: nat)
    requires n <= |texts|
    ensures forall i: nat :: i in ValidIndices(texts, n) <==> i < n && 0 < |texts[i]| < 251
  {
    if n > 0 {
      ValidIndicesAre(texts, n - 1);
    }
  }

  /** An allocated block of memory; only its identity matters. */
  class Block {
    constructor () {}
  }

  /** References to converted strings, and the blocks in use; giving back what is not held is not allowed. */
  class Heap {
    ghost var strings: multiset<nat>
    ghost var blocks: set<Block>

    constructor ()
      ensures strings == multiset{} && blocks == {}
    {
      strings, blocks := multiset{}, {};
    }

    ghost method Take(id: nat)
      modifies this
      ensures strings == old(strings) + multiset{id} && blocks == old(blocks)
    {
      strings := strings + multiset{id};
    }

    ghost method Release(id: nat)
      requires id in strings
      modifies this
      ensures strings == old(strings) - multiset{id} && blocks == old(blocks)
    {
      strings := strings - multiset{id};
    }

    method Allocate() returns (b: Block)
      modifies this
      ensures b !in old(blocks) && blocks == old(blocks) + {b} && strings == old(strings)
    {
      b := new Block();
      blocks := blocks + {b};
    }

    ghost method Free(b: Block)
      requires b in blocks
      modifies this
      ensures blocks == old(blocks) - {b} && strings == old(strings)
    {
      blocks := blocks - {b};
    }
  }

  /** The three parallel arrays, and how many of their entries are in use. */
  class Keys {
    var mkeys: seq<string>
    var lengths: seq<nat>
    var strings: seq<nat>
    var count: nat

    /** Where the arrays lie: the pointers to be freed. */
    var mkeysAt: Block?
    var lengthsAt: Block?
    var stringsAt: Block?

    constructor ()
      ensures mkeys == [] && lengths == [] && strings == [] && count == 0
    {
      mkeys, lengths, strings, count := [], [], [], 0;
      mkeysAt, lengthsAt, stringsAt := null, null, null;
    }

    /** The three arrays are three different blocks, and the heap holds them next to `others`. */
    ghost predicate ArraysHeld(heap: Heap, others: set<Block>)
      reads this, heap
    {
      && mkeysAt != null && lengthsAt != null && stringsAt != null
      && mkeysAt !in others && lengthsAt !in others && stringsAt !in others
      && mkeysAt != lengthsAt && mkeysAt != stringsAt && lengthsAt != stringsAt
      && heap.blocks == others + {mkeysAt, lengthsAt, stringsAt}
    }

    method AllocateArrays(heap: Heap)
      modifies this`mkeysAt, this`lengthsAt, this`stringsAt, heap
      ensures ArraysHeld(heap, old(heap.blocks)) && heap.strings == old(heap.strings)
    {
      mkeysAt := heap.Allocate();
      lengthsAt := heap.Allocate();
      stringsAt := heap.Allocate();
    }

    method FreeArrays(heap: Heap, ghost others: set<Block>)
      requires ArraysHeld(heap, others)
      modifies heap
      ensures heap.blocks == others && heap.strings == old(heap.strings)
    {
      heap.Free(stringsAt);
      heap.Free(mkeysAt);
      heap.Free(lengthsAt);
    }

    /** What a filled key list holds for a request: exactly the valid keys, in order. */
    ghost predicate Holds(texts: seq<string>)
      reads this
    {
      Filled(texts, |texts|) && count == |strings|
    }

    /** The arrays built from the first `n` entries. */
    ghost predicate Filled(texts: seq<string>, n: nat)
      requires n <= |texts|
      reads this
    {
      Lists(texts, n, mkeys, lengths, strings)
    }

    lemma FilledNone(texts: seq<string>)
      requires mkeys == [] && lengths == [] && strings == []
      ensures Filled(texts, 0)
    {
    }

    /** One converted entry: kept with its reference, or released at once. */
    method Add(heap: Heap, texts: seq<string>, n: nat, ghost others: multiset<nat>)
      requires n < |texts| && Filled(texts, n) && heap.strings == others + multiset(strings)
      modifies this`mkeys, this`lengths, this`strings, heap
      ensures Filled(texts, n + 1)
      ensures heap.strings == others + multiset(strings) && heap.blocks == old(heap.blocks)
    {
      hide Lists;
      ListsNext(texts, n, mkeys, lengths, strings);
      heap.Take(n);
      var key := texts[n];
      if 0 < |key| && |key| < MAX_KEY {
        mkeys, lengths, strings := mkeys + [key], lengths + [|key|], strings + [n];
      } else {
        heap.Release(n);
      }
    }

    /** The conversion loop. */
    method Convert<V>(heap: Heap, texts: seq<string>, preserveOrder: bool, into: Ordered<V>) returns (result: Ordered<V>)
      requires mkeys == [] && lengths == [] && strings == []
      modifies this`mkeys, this`lengths, this`strings, heap
      ensures Filled(texts, |texts|)
      ensures result == if preserveOrder then Nulls(into, texts) else into
      ensures heap.strings == old(heap.strings) + multiset(strings)
      ensures heap.blocks == old(heap.blocks)
    {
      hide Update, Filled, Nulls;
      ghost var others := heap.strings;
      NullsNext(into, texts, 0);
      FilledNone(texts);
      result := into;
      var n := 0;
      while n < |texts|
        invariant 0 <= n <= |texts| && Filled(texts, n)
        invariant result == if preserveOrder then Nulls(into, texts[..n]) else into
        invariant heap.strings == others + multiset(strings) && heap.blocks == old(heap.blocks)
      {
        NullsNext(into, texts, n);
        if preserveOrder {
          result := Update(result, texts[n], None);
        }
        Add(heap, texts, n, others);
        n := n + 1;
      }
      assert texts[..|texts|] == texts;
    }

    /** Converts every entry, keeps the valid ones, and releases the rest at once. */
    method FromRequest<V>(heap: Heap, texts: seq<string>, preserveOrder: bool, into: Ordered<V>) returns (result: Ordered<V>)
      requires mkeys == [] && lengths == [] && strings == [] && count == 0
      modifies this, heap
      ensures Holds(texts)
      ensures forall i: nat :: i in strings <==> i < |texts| && 0 < |texts[i]| < 251
      ensures forall i, j :: 0 <= i < j < |strings| ==> strings[i] < strings[j]
      ensures result == if preserveOrder then Nulls(into, texts) else into
      ensures heap.strings == old(heap.strings) + multiset(strings)
      ensures if count > 0 then ArraysHeld(heap, old(heap.blocks)) else heap.blocks == old(heap.blocks)
    {
      count, result := 0, into;
      ValidIndicesAre(texts, |texts|);
      if |texts| == 0 {
        return;
      }
      AllocateArrays(heap);
      result := Convert(heap, texts, preserveOrder, into);
      if |strings| == 0 {
        FreeArrays(heap, old(heap.blocks));
      }
      count := |strings|;
    }

    /** The release loop. */
    method ReleaseStrings(heap: Heap, ghost others: multiset<nat>)
      requires count == |strings| && heap.strings == others + multiset(strings)
      modifies heap
      ensures heap.strings == others && heap.blocks == old(heap.blocks)
    {
      var i := 0;
      assert strings[0..] == strings;
      while i < count
        invariant 0 <= i <= count
        invariant heap.strings == others + multiset(strings[i..])
        invariant heap.blocks == old(heap.blocks)
      {
        assert strings[i..] == [strings[i]] + strings[i + 1..];
        heap.Release(strings[i]);
        i := i + 1;
      }
    }

    /** Gives back every string and array; a list without valid keys owns nothing. */
    method Clear(heap: Heap, ghost others: multiset<nat>, ghost otherBlocks: set<Block>)
      requires count == |strings| && heap.strings == others + multiset(strings)
      requires if count > 0 then ArraysHeld(heap, otherBlocks) else heap.blocks == otherBlocks
      modifies heap
      ensures heap.strings == others && heap.blocks == otherBlocks
    {
      if count == 0 {
        return;
      }
      ReleaseStrings(heap, others);
      FreeArrays(heap, otherBlocks);
    }
  }

  // ---------- getMulti ----------

  /** What getMulti returns: an array, or false (None). Missing or partly unreadable results still return the array. */
  function MultiResult<V>(texts: seq<string>, preserveOrder: bool, mgetStatus: Rc, replies: seq<Event<V>>): Option<Ordered<V>> {
    var start := if preserveOrder then Nulls(Empty<V>(), texts) else Empty<V>();
    if texts == [] then Some(Empty<V>())
    else if ValidIndices(texts, |texts|) == [] then None
    else if IsError(mgetStatus, true) then
      (if mgetStatus.NotFound? || mgetStatus.SomeErrors? then Some(start) else None)
    else
      var o := Run(replies, Collect, false, start, Success);
      if !IsError(o.status, true) || o.status.NotFound? || o.status.SomeErrors? then Some(o.context) else None
  }

  /** The events of a reply: up to and including the first empty fetch. */
  function UpToEnd<V>(events: seq<Event<V>>): seq<Event<V>> {
    if events == [] then [] else if events[0].Nothing? then [events[0]] else [events[0]] + UpToEnd(events[1..])
  }

  lemma {:induction false} SeesAll<V>(events: seq<Event<V>>, context: Ordered<V>)
    ensures Seen(events, Collect, context) == UpToEnd(events)
    decreases |events|
  {
    if events != [] && events[0].Result? {
      var next := if events[0].decodable then Collect(context, events[0].delivery).0 else context;
      SeesAll(events[1..], next);
    }
  }

  /** Whether there is anything to ask for: a key of 1 to 250 bytes. */
  predicate AsksFor(texts: seq<string>) {
    exists i :: 0 <= i < |texts| && 0 < |texts[i]| < 251
  }

  /** The array before any reply: with order preserved every requested key in first-occurrence order, mapped to null. */
  ghost predicate Unanswered<V>(a: Ordered<V>, texts: seq<string>, preserveOrder: bool) {
    && WellFormed(a)
    && a.keys == (if preserveOrder then FirstOccurrences(texts) else [])
    && forall k :: k in a.values ==> a.values[k] == None
  }

  /** An array is returned although something went wrong when the last thing wrong was a missing or an unreadable result. */
  predicate StillReturned(code: Rc) {
    Fine(code) || code == NotFound || code == SomeErrors
  }

  /** When the array is returned, whatever the request and the replies; false (None) in all other cases. */
  lemma MultiReturnsIff<V>(texts: seq<string>, preserveOrder: bool, mgetStatus: Rc, replies: seq<Event<V>>)
    ensures var code := if Fine(mgetStatus) then LastError(UpToEnd(replies), Success) else mgetStatus;
            MultiResult(texts, preserveOrder, mgetStatus, replies).Some? <==> texts == [] || (AsksFor(texts) && StillReturned(code))
  {
    var start := if preserveOrder then Nulls(Empty<V>(), texts) else Empty<V>();
    ErrorIff(mgetStatus);
    StatusIs(replies, Collect, false, start, Success);
    SeesAll(replies, start);
    ErrorIff(LastError(UpToEnd(replies), Success));
    AsksIff(texts);
    hide Run, Seen, LastError, UpToEnd, Nulls, AsksFor, ValidIndices, IsError;
  }

  lemma AsksIff(texts: seq<string>)
    ensures AsksFor(texts) <==> ValidIndices(texts, |texts|) != []
  {
    ValidIndicesAre(texts, |texts|);
    var valid := ValidIndices(texts, |texts|);
    assert valid != [] ==> valid[0] in valid;
  }

  /** When no event carries an error code of its own, the array is returned, however many results are undecodable. */
  lemma UndecodableStillReturned<V>(texts: seq<string>, preserveOrder: bool, mgetStatus: Rc, replies: seq<Event<V>>)
    requires AsksFor(texts) && Fine(mgetStatus)
    requires forall i :: 0 <= i < |replies| ==> Fine(replies[i].rc)
    ensures MultiResult(texts, preserveOrder, mgetStatus, replies).Some?
  {
    UpToEndPrefix(replies);
    OwnCodesFine(UpToEnd(replies), Success);
    MultiReturnsIff(texts, preserveOrder, mgetStatus, replies);
  }

  lemma {:induction false} UpToEndPrefix<V>(events: seq<Event<V>>)
    ensures UpToEnd(events) <= events
    decreases |events|
  {
    if events != [] && events[0].Result? {
      UpToEndPrefix(events[1..]);
    }
  }

  lemma {:induction false} OwnCodesFine<V>(seen: seq<Event<V>>, otherwise: Rc)
    requires forall i :: 0 <= i < |seen| ==> Fine(seen[i].rc)
    ensures LastError(seen, otherwise) == otherwise || LastError(seen, otherwise) == SomeErrors
    decreases |seen|
  {
    if seen != [] {
      OwnCodesFine(seen[..|seen| - 1], otherwise);
    }
  }

  /** What is in the array: nothing but the requested keys when the request itself failed, else every decodable reply on top. */
  lemma MultiContents<V>(texts: seq<string>, preserveOrder: bool, mgetStatus: Rc, replies: seq<Event<V>>)
    returns (start: Ordered<V>)
    requires AsksFor(texts)
    ensures Unanswered(start, texts, preserveOrder)
    ensures var r := MultiResult(texts, preserveOrder, mgetStatus, replies);
            r.Some? ==> r.value == if Fine(mgetStatus) then Fold(Collect, start, Deliverable(replies)) else start
  {
    start := if preserveOrder then Nulls(Empty<V>(), texts) else Empty<V>();
    NullsAre<V>(texts);
    assert Unanswered(start, texts, preserveOrder);
    ErrorIff(mgetStatus);
    AsksIff(texts);
    var i :| 0 <= i < |texts| && 0 < |texts[i]| < 251;
    assert ValidKey(texts[i]);
    if Fine(mgetStatus) {
      MultiFolds(texts, preserveOrder, mgetStatus, replies);
    }
    hide Run, Fold, Nulls, FirstOccurrences;
  }

  /** Whatever the server answers, every string and array taken for the call is given back. */
  method GetMulti<V>(heap: Heap, texts: seq<string>, preserveOrder: bool, mgetStatus: Rc, stream: Stream<V>)
    returns (r: Option<Ordered<V>>)
    modifies heap, stream
    ensures r == MultiResult(texts, preserveOrder, mgetStatus, old(stream.pending))
    ensures var code := if Fine(mgetStatus) then LastError(UpToEnd(old(stream.pending)), Success) else mgetStatus;
            r.Some? <==> texts == [] || (AsksFor(texts) && StillReturned(code))
    ensures texts == [] ==> r == Some(Ordered([], map[])) && stream.pending == old(stream.pending)
    ensures heap.strings == old(heap.strings) && heap.blocks == old(heap.blocks)
  {
    MultiReturnsIff(texts, preserveOrder, mgetStatus, stream.pending);
    hide AsksFor, LastError, UpToEnd, Fine, StillReturned, Seen, Nulls, Update;
    var found := Empty<V>();
    if |texts| == 0 {
      return Some(found);
    }
    var keys := new Keys();
    found := keys.FromRequest(heap, texts, preserveOrder, found);
    var status := mgetStatus;
    var ok := false;
    if keys.count == 0 {
      status := BadKey;
    } else if !IsError(status, true) {
      status, found := stream.ResultApply(Collect, false, found);
      ok := !IsError(status, true);
    }
    keys.Clear(heap, old(heap.strings), old(heap.blocks));
    if !ok && (status.NotFound? || status.SomeErrors?) {
      return Some(found);
    }
    if !ok {
      return None;
    }
    r := Some(found);
  }

  /** The callback never stops the stream, so the array holds every decodable reply. */
  lemma {:induction false} CollectTakesAll<V>(a: Ordered<V>, items: seq<Delivery<V>>)
    ensures Taken(Collect, a, items) == |items| && !Stopped(Collect, a, items)
    decreases |items|
  {
    if items != [] {
      CollectTakesAll(Collect(a, items[0]).0, items[1..]);
    }
  }

  /** getMulti with preserved order, end to end: shape and contents of the array it returns. */
  lemma MultiOrderPreserved<V>(texts: seq<string>, mgetStatus: Rc, replies: seq<Event<V>>)
    requires exists i :: 0 <= i < |texts| && ValidKey(texts[i])
    requires !IsError(mgetStatus, true)
    requires OnlyRequested(Deliverable(replies), texts)
    ensures var r := MultiResult(texts, true, mgetStatus, replies);
            r.Some? ==>
              && r.value.keys == FirstOccurrences(texts)
              && (forall k :: k in r.value.values <==> k in texts)
              && (forall k :: k in texts ==> r.value.values[k] == Reply(Deliverable(replies), k))
    ensures Clean(replies) ==> MultiResult(texts, true, mgetStatus, replies).Some?
  {
    hide Fold, FirstOccurrences, Reply, MultiResult, OnlyRequested;
    MultiFolds(texts, true, mgetStatus, replies);
    OrderPreserved(texts, Deliverable(replies));
  }

  /** getMulti without it, end to end: the keys that were answered, in reply order, each with its reply. */
  lemma MultiReplyOrder<V>(texts: seq<string>, mgetStatus: Rc, replies: seq<Event<V>>)
    requires exists i :: 0 <= i < |texts| && ValidKey(texts[i])
    requires !IsError(mgetStatus, true)
    ensures var r := MultiResult(texts, false, mgetStatus, replies);
            r.Some? ==> HoldsReplies(r.value, Deliverable(replies))
    ensures Clean(replies) ==> MultiResult(texts, false, mgetStatus, replies).Some?
  {
    hide Fold, HoldsReplies, MultiResult;
    MultiFolds(texts, false, mgetStatus, replies);
    ReplyOrder(Deliverable(replies));
  }

  /** With a key to ask for and the request sent, an array that is returned holds every decodable reply. */
  lemma MultiFolds<V>(texts: seq<string>, preserveOrder: bool, mgetStatus: Rc, replies: seq<Event<V>>)
    requires exists i :: 0 <= i < |texts| && ValidKey(texts[i])
    requires !IsError(mgetStatus, true)
    ensures var start := if preserveOrder then Nulls(Empty<V>(), texts) else Empty<V>();
            var r := MultiResult(texts, preserveOrder, mgetStatus, replies);
            && (r.Some? ==> r.value == Fold(Collect, start, Deliverable(replies)))
            && (Clean(replies) ==> r.Some?)
  {
    hide Nulls, Fold, Run, Seen, Clean, ValidKey;
    var start := if preserveOrder then Nulls(Empty<V>(), texts) else Empty<V>();
    var items := Deliverable(replies);
    DeliveredOnce(replies, Collect, false, start, Success);
    CollectTakesAll(start, items);
    assert items[..|items|] == items;
    var i :| 0 <= i < |texts| && ValidKey(texts[i]);
    SomeValid(texts, i, |texts|);
    if Clean(replies) {
      StatusExact(replies, Collect, false, start, Success);
      CleanSeen(replies, Collect, start);
    }
  }

  lemma {:induction false} SomeValid(texts: seq<string>, i: nat, n: nat)
    requires i < n <= |texts| && ValidKey(texts[i])
    ensures ValidIndices(texts, n) != []
    decreases n
  {
    if n - 1 != i {
      SomeValid(texts, i, n - 1);
    }
  }
}
