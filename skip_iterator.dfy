/** A one-element-lookahead iterator that drops values marked for skipping.

    The wrapped Java `Iterator<Integer>` is modelled as the finite sequence
    `source` of the values it would hand out, with `pos` counting how many it
    has handed out so far. `staged` is the field `nextElement` (`None` for
    `null`), and `skipCount` is the per-value map of outstanding skips.
 */
module SkipIter {

  datatype Option<T> = None | Some(value: T)

  /** What `next()` gives back: a value, or the `NoSuchElementException`. */
  datatype Outcome = Value(value: int) | NoSuchElement

  /** `skipCount.getOrDefault(v, 0)` */
  function Count(m: map<int, nat>, v: int): nat {
    if v in m then m[v] else 0
  }

  /** The values an iterator over `s` yields when it starts with the skip
      counts `m` and nobody calls `skip` meanwhile: a value whose count is
      positive is dropped and uses up one count, any other value is yielded. */
  function Filter(s: seq<int>, m: map<int, nat>): (r: seq<int>)
    ensures |r| <= |s|
    decreases |s|
  {
    if s == [] then []
    else if s[0] in m && m[s[0]] > 0 then Filter(s[1..], m[s[0] := m[s[0]] - 1])
    else [s[0]] + Filter(s[1..], m)
  }

  /** Filter drops, of each value, as many occurrences as its count allows
      and no more. */
  lemma {:induction false} FilterCounts(s: seq<int>, m: map<int, nat>)
    ensures forall v ::
              multiset(Filter(s, m))[v] == if multiset(s)[v] <= Count(m, v) then 0 else multiset(s)[v] - Count(m, v)
    decreases |s|
  {
    if s != [] {
      var w := s[0];
      assert s == [w] + s[1..];
      if w in m && m[w] > 0 {
        var n := m[w := m[w] - 1];
        FilterCounts(s[1..], n);
        forall v ensures multiset(Filter(s, m))[v] ==
          (if multiset(s)[v] <= Count(m, v) then 0 else multiset(s)[v] - Count(m, v))
        {
          assert multiset(s)[v] == multiset(s[1..])[v] + (if v == w then 1 else 0);
          assert Count(n, v) == Count(m, v) - (if v == w then 1 else 0);
        }
      } else {
        FilterCounts(s[1..], m);
        forall v ensures multiset(Filter(s, m))[v] ==
          (if multiset(s)[v] <= Count(m, v) then 0 else multiset(s)[v] - Count(m, v))
        {
          assert multiset(s)[v] == multiset(s[1..])[v] + (if v == w then 1 else 0);
          assert multiset(Filter(s, m)) == multiset{w} + multiset(Filter(s[1..], m));
        }
      }
    }
  }

  /** `s` without its first occurrence of `v` (`s` itself if there is none). */
  function RemoveFirst(s: seq<int>, v: int): seq<int>
    decreases |s|
  {
    if s == [] then []
    else if s[0] == v then s[1..]
    else [s[0]] + RemoveFirst(s[1..], v)
  }

  /** RemoveFirst takes away one occurrence of `v`, if there is one, and nothing else. */
  lemma {:induction false} RemoveFirstTakesOne(s: seq<int>, v: int)
    ensures multiset(RemoveFirst(s, v)) == multiset(s) - multiset{v}
  {
    if s != [] {
      assert s == [s[0]] + s[1..];
      if s[0] != v {
        RemoveFirstTakesOne(s[1..], v);
      }
    }
  }

  /** Filter looks at the counts only, not at which keys hold a zero. */
  lemma {:induction false} FilterSameCounts(s: seq<int>, m1: map<int, nat>, m2: map<int, nat>)
    requires forall v :: Count(m1, v) == Count(m2, v)
    ensures Filter(s, m1) == Filter(s, m2)
  {
    if s != [] {
      var w := s[0];
      if Count(m1, w) > 0 {
        var n1, n2 := m1[w := m1[w] - 1], m2[w := m2[w] - 1];
        assert forall v :: Count(n1, v) == Count(n2, v) by {
          forall v ensures Count(n1, v) == Count(n2, v) {
            assert Count(m1, v) == Count(m2, v);
          }
        }
        FilterSameCounts(s[1..], n1, n2);
      } else {
        FilterSameCounts(s[1..], m1, m2);
      }
    }
  }

  /** With no outstanding skips, every value is yielded, in order. */
  lemma {:induction false} FilterWithoutSkips(s: seq<int>, m: map<int, nat>)
    requires forall v :: Count(m, v) == 0
    ensures Filter(s, m) == s
  {
    if s != [] {
      assert Count(m, s[0]) == 0;
      FilterWithoutSkips(s[1..], m);
    }
  }

  /** One more outstanding skip of `v` removes exactly the next `v` that
      would otherwise have been yielded. */
  lemma {:induction false} FilterExtraSkip(s: seq<int>, m: map<int, nat>, v: int)
    ensures Filter(s, m[v := Count(m, v) + 1]) == RemoveFirst(Filter(s, m), v)
  {
    if s != [] {
      var w := s[0];
      var m' := m[v := Count(m, v) + 1];
      if w == v {
        if Count(m, v) > 0 {
          var n := m[v := m[v] - 1];
          FilterExtraSkip(s[1..], n, v);
          assert n[v := Count(n, v) + 1] == m'[v := m'[v] - 1];
        } else {
          FilterSameCounts(s[1..], m'[v := m'[v] - 1], m);
        }
      } else if Count(m, w) > 0 {
        var n := m[w := m[w] - 1];
        FilterExtraSkip(s[1..], n, v);
        assert n[v := Count(n, v) + 1] == m'[w := m'[w] - 1];
      } else {
        FilterExtraSkip(s[1..], m, v);
      }
    }
  }

  /** Drawing and dropping the values `dropped`, in order, took the counts
      from `before` to `after`: each dropped value had a positive count at
      its turn, and each drop used up exactly one count. */
  ghost predicate Consumed(before: map<int, nat>, dropped: seq<int>, after: map<int, nat>) {
    && after.Keys == before.Keys
    && (forall v :: multiset(dropped)[v] <= Count(before, v))
    && (forall v :: Count(after, v) == Count(before, v) - multiset(dropped)[v])
  }

  lemma ConsumedStep(before: map<int, nat>, dropped: seq<int>, after: map<int, nat>, x: int)
    requires Consumed(before, dropped, after)
    requires x in after && after[x] > 0
    ensures Consumed(before, dropped + [x], after[x := after[x] - 1])
  {
    var after' := after[x := after[x] - 1];
    forall v ensures multiset(dropped + [x])[v] <= Count(before, v) && Count(after', v) == Count(before, v) - multiset(dropped + [x])[v] {
      assert multiset(dropped + [x]) == multiset(dropped) + multiset{x};
      assert Count(after, v) == Count(before, v) - multiset(dropped)[v];
    }
  }

  /** Drawing from `src` at cursor `start` with the counts `before` has
      reached cursor `cursor` with the counts `after`: each value drawn and
      dropped had a positive count, which went down by one, and `next` is
      the value staged, which is the last one drawn and had no count. What
      remains to be yielded is unchanged by the drawing. */
  ghost predicate Drawn(src: seq<int>, start: nat, before: map<int, nat>, cursor: nat, after: map<int, nat>, next: Option<int>) {
    && start <= cursor <= |src|
    && (next.None? ==>
          && Consumed(before, src[start..cursor], after)
          && Filter(src[cursor..], after) == Filter(src[start..], before))
    && (next.Some? ==>
          && start < cursor && next.value == src[cursor - 1] && Count(after, next.value) == 0
          && Consumed(before, src[start..cursor - 1], after)
          && [next.value] + Filter(src[cursor..], after) == Filter(src[start..], before))
  }

  /** One draw of `advanceToNext`, from `cursor` to `cursor'`: a value with
      a positive count is dropped and its count goes down by one, any other
      value is staged. */
  lemma DrawStep(src: seq<int>, start: nat, before: map<int, nat>,
                 cursor: nat, after: map<int, nat>, cursor': nat, after': map<int, nat>, next': Option<int>)
    requires cursor < |src| && Drawn(src, start, before, cursor, after, None)
    requires cursor' == cursor + 1
    requires src[cursor] in after && after[src[cursor]] > 0 ==>
      after' == after[src[cursor] := after[src[cursor]] - 1] && next' == None
    requires !(src[cursor] in after && after[src[cursor]] > 0) ==>
      after' == after && next' == Some(src[cursor])
    ensures Drawn(src, start, before, cursor', after', next')
  {
    var x := src[cursor];
    assert src[cursor..] == [x] + src[cursor + 1..];
    if x in after && after[x] > 0 {
      assert src[start..cursor + 1] == src[start..cursor] + [x];
      ConsumedStep(before, src[start..cursor], after, x);
    }
  }

  class SkipIterator {
    /** The values the wrapped iterator hands out, in order. */
    const source: seq<int>
    /** How many values the wrapped iterator has handed out. */
    var pos: nat
    /** `nextElement`: the value the next call of `next()` returns. */
    var staged: Option<int>
    var skipCount: map<int, nat>

    /** Nothing is staged only once the wrapped iterator is exhausted. */
    ghost predicate Valid()
      reads this
    {
      pos <= |source| && (staged.None? ==> pos == |source|)
    }

    /** The values `next()` yields from now on if `skip` is not called again. */
    ghost function Pending(): (p: seq<int>)
      reads this
      requires Valid()
      ensures p != [] <==> staged.Some?
      ensures staged.Some? ==> p[0] == staged.value
    {
      (if staged.Some? then [staged.value] else []) + Filter(source[pos..], skipCount)
    }

    /** The state `advanceToNext` leaves when it starts at cursor `start`
        with the counts `counts`: every value it drew and dropped had a
        positive count, which went down by one; it staged the first value
        whose count was zero, or nothing when the source ran out. */
    ghost predicate AdvancedFrom(start: nat, counts: map<int, nat>)
      reads this
    {
      && Drawn(source, start, counts, pos, skipCount, staged)
      && (staged.None? ==> pos == |source|)
    }

    constructor (src: seq<int>)
      ensures Valid() && source == src
      ensures AdvancedFrom(0, map[])
      ensures Pending() == src
    {
      source := src;
      pos := 0;
      staged := None;
      skipCount := map[];
      new;
      FilterWithoutSkips(src, map[]);
      AdvanceToNext();
    }

    method HasNext() returns (b: bool)
      requires Valid()
      ensures b <==> Pending() != []
    {
      b := staged.Some?;
    }

    method Next() returns (r: Outcome)
      requires Valid()
      modifies this
      ensures Valid()
      ensures old(staged).None? ==> r == NoSuchElement && unchanged(this)
      ensures old(staged).Some? ==> r == Value(old(staged).value) && AdvancedFrom(old(pos), old(skipCount))
      ensures r == if old(Pending()) == [] then NoSuchElement else Value(old(Pending())[0])
      ensures Pending() == if old(Pending()) == [] then [] else old(Pending())[1..]
    {
      if staged.None? {
        return NoSuchElement;
      }
      var result := staged.value;
      AdvanceToNext();
      r := Value(result);
    }

    /** As written: the count of `val` goes up by one even when the staged
        value is `val` and is discarded on the spot, so that count still
        removes a later `val` as well. */
    method Skip(val: int)
      requires Valid()
      modifies this
      ensures Valid()
      ensures old(staged) != Some(val) ==>
        staged == old(staged) && pos == old(pos) && skipCount == old(skipCount)[val := Count(old(skipCount), val) + 1]
      ensures old(staged) == Some(val) ==>
        AdvancedFrom(old(pos), old(skipCount)[val := Count(old(skipCount), val) + 1])
      ensures Pending() == RemoveFirst(if old(staged) == Some(val) then old(Pending())[1..] else old(Pending()), val)
    {
      FilterExtraSkip(source[pos..], skipCount, val);
      skipCount := skipCount[val := Count(skipCount, val) + 1];
      if staged == Some(val) {
        AdvanceToNext();
      }
    }

    /** Corrected `skip`: a staged `val` is discarded in place of raising the
        count, so each call removes exactly one occurrence of `val`. */
    method SkipOnce(val: int)
      requires Valid()
      modifies this
      ensures Valid()
      ensures old(staged) != Some(val) ==>
        staged == old(staged) && pos == old(pos) && skipCount == old(skipCount)[val := Count(old(skipCount), val) + 1]
      ensures old(staged) == Some(val) ==> AdvancedFrom(old(pos), old(skipCount))
      ensures Pending() == RemoveFirst(old(Pending()), val)
    {
      if staged == Some(val) {
        AdvanceToNext();
      } else {
        FilterExtraSkip(source[pos..], skipCount, val);
        skipCount := skipCount[val := Count(skipCount, val) + 1];
      }
    }

    method AdvanceToNext()
      requires pos <= |source|
      modifies this
      ensures AdvancedFrom(old(pos), old(skipCount))
      ensures Valid() && Pending() == Filter(source[old(pos)..], old(skipCount))
    {
      pos, skipCount, staged := Draw(source, pos, skipCount);
    }
  }

  /** The loop of `advanceToNext`: draws from `src` at cursor `start` with
      the counts `before` until it stages a value or runs out. */
  method Draw(src: seq<int>, start: nat, before: map<int, nat>) returns (cursor: nat, after: map<int, nat>, next: Option<int>)
    requires start <= |src|
    ensures Drawn(src, start, before, cursor, after, next)
    ensures next.None? ==> cursor == |src|
  {
    cursor, after, next := start, before, None;
    assert src[start..cursor] == [];
    while cursor < |src| && next.None?
      invariant Drawn(src, start, before, cursor, after, next)
      decreases |src| - cursor
    {
      ghost var cursor0, after0 := cursor, after;
      var current := src[cursor];
      if current in after && after[current] > 0 {
        after := after[current := after[current] - 1];
      } else {
        next := Some(current);
      }
      cursor := cursor + 1;
      DrawStep(src, start, before, cursor0, after0, cursor, after, next);
    }
  }

  /** The three removals the scenario's skip(5) calls make. */
  lemma DemoRemovals()
    ensures RemoveFirst([3, 5, 6, 5, 7, 5, -1, 5, 10], 5) == [3, 6, 5, 7, 5, -1, 5, 10]
    ensures RemoveFirst([7, 5, -1, 5, 10], 5) == [7, -1, 5, 10]
    ensures RemoveFirst([7, -1, 5, 10], 5) == [7, -1, 10]
  {
  }

  /** The scenario of the demonstration driver: on the source
      2, 3, 5, 6, 5, 7, 5, -1, 5, 10 the calls next, skip(5), next x3,
      skip(5) x2, next x3 yield 2, 3, 6, 5, 7, -1, 10, after which nothing is
      left and next fails. */
  method DemoScenario() returns (hadNext: bool, yielded: seq<int>, hasNext: bool, last: Outcome)
    ensures hadNext
    ensures yielded == [2, 3, 6, 5, 7, -1, 10]
    ensures !hasNext && last == NoSuchElement
  {
    var it := new SkipIterator([2, 3, 5, 6, 5, 7, 5, -1, 5, 10]);
    hadNext := it.HasNext();
    var a, b, c, d := DemoFirstRound(it);
    var e, f, g := DemoSecondRound(it);
    hasNext := it.HasNext();
    last := it.Next();
    yielded := [a, b, c, d, e, f, g];
  }

  /** next, skip(5), next x3 of the scenario. */
  method DemoFirstRound(it: SkipIterator) returns (a: int, b: int, c: int, d: int)
    requires it.Valid() && it.Pending() == [2, 3, 5, 6, 5, 7, 5, -1, 5, 10]
    modifies it
    ensures it.Valid() && it.Pending() == [7, 5, -1, 5, 10]
    ensures [a, b, c, d] == [2, 3, 6, 5]
  {
    DemoRemovals();
    var r1 := it.Next();
    assert it.Pending() == [3, 5, 6, 5, 7, 5, -1, 5, 10];
    it.Skip(5);
    assert it.Pending() == [3, 6, 5, 7, 5, -1, 5, 10];
    var r2 := it.Next();
    var r3 := it.Next();
    var r4 := it.Next();
    a, b, c, d := r1.value, r2.value, r3.value, r4.value;
  }

  /** skip(5) x2, next x3 of the scenario. */
  method DemoSecondRound(it: SkipIterator) returns (e: int, f: int, g: int)
    requires it.Valid() && it.Pending() == [7, 5, -1, 5, 10]
    modifies it
    ensures it.Valid() && it.Pending() == []
    ensures [e, f, g] == [7, -1, 10]
  {
    DemoRemovals();
    it.Skip(5);
    assert it.Pending() == [7, -1, 5, 10];
    it.Skip(5);
    assert it.Pending() == [7, -1, 10];
    var r5 := it.Next();
    var r6 := it.Next();
    var r7 := it.Next();
    e, f, g := r5.value, r6.value, r7.value;
  }

  /** On the source 5, 5, 1 a single skip(5) issued while the first 5 is
      staged removes both 5s as written, and only the first with SkipOnce. */
  method SkipOfStagedValue() returns (asWritten: Outcome, corrected: Outcome)
    ensures asWritten == Value(1)
    ensures corrected == Value(5)
  {
    var it := new SkipIterator([5, 5, 1]);
    it.Skip(5);
    asWritten := it.Next();
    var fixed := new SkipIterator([5, 5, 1]);
    fixed.SkipOnce(5);
    corrected := fixed.Next();
  }
}
