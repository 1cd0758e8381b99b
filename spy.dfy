/**
  `spy` of utils/utils.py: an iterator over a source iterable with a second,
  independent "lookahead" branch. Advancing the lookahead pulls items from the
  source into a FIFO cache; the main branch (`__next__`) drains the cache
  before it pulls from the source again, so it sees every item exactly once
  and in order however far the lookahead has run.

  The source iterator is the sequence of items it has left to give. The
  lookahead generator is modelled by its step, `LookaheadNext`: every
  generator made by `lookahead()` pulls from the same source and so behaves
  as that one step.
*/
module Spies {
  import opened Wrappers

  class Spy<T> {
    /** What the underlying iterator has not yet produced. */
    var source: seq<T>
    /** Items the lookahead has pulled and the main branch has not yet returned. */
    var cache: seq<T>
    /** The whole iterable, as given to the constructor. */
    ghost var items: seq<T>
    /** What the main branch has returned so far. */
    ghost var emitted: seq<T>

    /** The main branch has returned a prefix of the items; the cache and the source hold the rest, in order. */
    ghost predicate Valid()
      reads this
    {
      emitted + cache + source == items
    }

    /** What the main branch has left to return. */
    function Pending(): seq<T>
      reads this
    {
      cache + source
    }

    /** `spy(iterable)` */
    constructor(iterable: seq<T>)
      ensures Valid()
      ensures items == iterable && emitted == []
      ensures cache == [] && source == iterable
    {
      source := iterable;
      cache := [];
      items := iterable;
      emitted := [];
    }

    /**
      `__next__`: the next item of the iterable, from the cache when the
      lookahead has pulled it, else from the source; `None` stands for
      `StopIteration` once both are empty.
    */
    method Next() returns (r: Option<T>)
      requires Valid()
      modifies this
      ensures Valid() && items == old(items)
      ensures old(Pending()) == [] ==> r == None && emitted == old(emitted) && Pending() == []
      ensures old(Pending()) != [] ==>
        && r == Some(items[|old(emitted)|])
        && emitted == old(emitted) + [r.value]
        && Pending() == old(Pending())[1..]
      ensures old(cache) != [] ==> cache == old(cache)[1..] && source == old(source)
      ensures old(cache) == [] ==> cache == [] && source == (if old(source) == [] then [] else old(source)[1..])
    {
      if cache != [] {
        r := Some(cache[0]);
        cache := cache[1..];
      } else if source != [] {
        r := Some(source[0]);
        source := source[1..];
      } else {
        r := None;
        return;
      }
      emitted := emitted + [r.value];
      assert emitted + cache + source == items;
    }

    /**
      One step of a `lookahead()` generator: pull the next item from the
      source, remember it in the cache and yield it; `None` once the source
      is exhausted. The main branch's view does not change.
    */
    method LookaheadNext() returns (r: Option<T>)
      requires Valid()
      modifies this
      ensures Valid() && items == old(items)
      ensures emitted == old(emitted) && Pending() == old(Pending())
      ensures old(source) == [] ==> r == None && cache == old(cache) && source == []
      ensures old(source) != [] ==>
        && r == Some(items[|emitted| + |old(cache)|])
        && cache == old(cache) + [r.value]
        && source == old(source)[1..]
    {
      if source == [] {
        r := None;
      } else {
        r := Some(source[0]);
        cache := cache + [source[0]];
        source := source[1..];
        assert old(cache) + old(source) == cache + source;
      }
    }
  }

  /**
    The main branch yields the whole iterable in order, whatever the lookahead
    does: running `n` lookahead steps first and then draining the main branch
    gives back `iterable`, and both branches end exhausted.
  */
  method Drain<T>(iterable: seq<T>, n: nat) returns (ahead: seq<T>, main: seq<T>)
    ensures ahead == iterable[..if n < |iterable| then n else |iterable|]
    ensures main == iterable
  {
    var s := new Spy(iterable);
    ahead := [];
    var k := 0;
    while k < n
      invariant s.Valid() && s.items == iterable && s.emitted == []
      invariant ahead == s.cache && s.Pending() == iterable
      invariant k <= n && |ahead| == if k < |iterable| then k else |iterable|
      decreases n - k
    {
      var r := s.LookaheadNext();
      if r.Some? {
        ahead := ahead + [r.value];
      }
      k := k + 1;
    }
    assert ahead == iterable[..|ahead|];
    main := [];
    while true
      invariant s.Valid() && s.items == iterable
      invariant main == s.emitted
      decreases |s.Pending()|
    {
      var r := s.Next();
      if r.None? {
        break;
      }
      main := main + [r.value];
    }
  }

  /**
    The docstring's session on `spy(range(1, 4))`, for any three items: the
    lookahead yields the first item, the main branch yields it too, then the
    lookahead yields the other two, the main branch yields the same two, and
    the lookahead is exhausted.
  */
  method Session<T>(a: T, b: T, c: T) returns (ahead: seq<Option<T>>, main: seq<Option<T>>)
    ensures ahead == [Some(a), Some(b), Some(c), None, None]
    ensures main == [Some(a), Some(b), Some(c), None]
  {
    var s := new Spy([a, b, c]);
    var l1 := s.LookaheadNext();
    var m1 := s.Next();
    var l2 := s.LookaheadNext();
    var l3 := s.LookaheadNext();
    var l4 := s.LookaheadNext();
    var m2 := s.Next();
    var m3 := s.Next();
    var m4 := s.Next();
    var l5 := s.LookaheadNext();
    ahead := [l1, l2, l3, l4, l5];
    main := [m1, m2, m3, m4];
  }

  /**
    Any interleaving of the two branches (`true` a lookahead step, `false` a
    main step): the main branch yields a prefix of the iterable, in order, and
    the lookahead yields items of the iterable at strictly increasing
    positions, so never an item twice.
  */
  method Interleave<T>(iterable: seq<T>, steps: seq<bool>) returns (ahead: seq<T>, main: seq<T>, ghost at: seq<nat>)
    ensures |main| <= |iterable| && main == iterable[..|main|]
    ensures |at| == |ahead|
    ensures forall k :: 0 <= k < |at| ==> at[k] < |iterable| && ahead[k] == iterable[at[k]]
    ensures forall k, j :: 0 <= k < j < |at| ==> at[k] < at[j]
  {
    var s := new Spy(iterable);
    ahead, main, at := [], [], [];
    for n := 0 to |steps|
      invariant s.Valid() && s.items == iterable && main == s.emitted
      invariant Pulled(iterable, ahead, at, |s.emitted| + |s.cache|)
    {
      ahead, main, at := Turn(s, steps[n], iterable, ahead, main, at);
    }
    PulledDone(iterable, ahead, at, main, s.cache, s.source);
  }

  /** Once the loop is over, what `Interleave` promises. */
  lemma PulledDone<T>(iterable: seq<T>, ahead: seq<T>, at: seq<nat>, main: seq<T>, cache: seq<T>, source: seq<T>)
    requires main + cache + source == iterable && Pulled(iterable, ahead, at, |main| + |cache|)
    ensures |main| <= |iterable| && main == iterable[..|main|]
    ensures |at| == |ahead|
    ensures forall k :: 0 <= k < |at| ==> at[k] < |iterable| && ahead[k] == iterable[at[k]]
    ensures forall k, j :: 0 <= k < j < |at| ==> at[k] < at[j]
  {
    assert iterable[..|main|] == (main + cache + source)[..|main|];
  }

  /** One step of `Interleave`: the branch `lookahead` names advances by one item. */
  method Turn<T>(s: Spy<T>, lookahead: bool, ghost iterable: seq<T>, ahead: seq<T>, main: seq<T>, ghost at: seq<nat>)
    returns (ahead': seq<T>, main': seq<T>, ghost at': seq<nat>)
    requires s.Valid() && s.items == iterable && main == s.emitted
    requires Pulled(iterable, ahead, at, |s.emitted| + |s.cache|)
    modifies s
    ensures s.Valid() && s.items == iterable && main' == s.emitted
    ensures Pulled(iterable, ahead', at', |s.emitted| + |s.cache|)
  {
    ghost var pos := |s.emitted| + |s.cache|;
    ahead', main', at' := ahead, main, at;
    if lookahead {
      var r := s.LookaheadNext();
      if r.Some? {
        PulledNext(iterable, ahead, at, pos, r.value);
        ahead', at' := ahead + [r.value], at + [pos];
      }
    } else {
      var r := s.Next();
      if r.Some? {
        main' := main + [r.value];
      }
      PulledMore(iterable, ahead, at, pos, |s.emitted| + |s.cache|);
    }
  }

  /** The lookahead has yielded items of the iterable at increasing positions below `bound`. */
  ghost predicate Pulled<T>(iterable: seq<T>, ahead: seq<T>, at: seq<nat>, bound: nat)
  {
    && |at| == |ahead|
    && (forall k :: 0 <= k < |at| ==> at[k] < bound && at[k] < |iterable| && ahead[k] == iterable[at[k]])
    && (forall k, j :: 0 <= k < j < |at| ==> at[k] < at[j])
  }

  lemma PulledNext<T>(iterable: seq<T>, ahead: seq<T>, at: seq<nat>, pos: nat, x: T)
    requires Pulled(iterable, ahead, at, pos) && pos < |iterable| && x == iterable[pos]
    ensures Pulled(iterable, ahead + [x], at + [pos], pos + 1)
  {
  }

  lemma PulledMore<T>(iterable: seq<T>, ahead: seq<T>, at: seq<nat>, bound: nat, bound': nat)
    requires Pulled(iterable, ahead, at, bound) && bound <= bound'
    ensures Pulled(iterable, ahead, at, bound')
  {
  }
}
