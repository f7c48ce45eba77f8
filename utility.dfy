/**
 * The library's small helpers: membership, clamping, duplicate removal and
 * the linear-probing shuffle. `Math.random` is not modelled: the random
 * numbers `_rand_range(n)` would produce are passed in, taken modulo `n`.
 */
module Utility {
  import opened Base

  /** `seq.indexOf(v)`: the first position of `v`, or -1. */
  function IndexOf<T(==)>(s: seq<T>, v: T): (r: int)
    ensures r == -1 <==> v !in s
    ensures r != -1 ==> 0 <= r < |s| && s[r] == v && v !in s[..r]
  {
    if s == [] then -1
    else if s[0] == v then 0
    else
      var r := IndexOf(s[1..], v);
      if r == -1 then -1
      else
        assert s[..r + 1] == [s[0]] + s[1..][..r];
        r + 1
  }

  /** `_in(v, seq)`: whether `seq.indexOf(v) !== -1`. */
  function In<T(==)>(v: T, s: seq<T>): (b: bool)
    ensures b <==> v in s
  {
    IndexOf(s, v) != -1
  }

  /** `x || 0` for a number that may be `undefined` (`None`). */
  function OrZero(x: Option<int>): int
  {
    if x.Some? then x.value else 0
  }

  /**
   * `_force_range(nr, max, min)`: `nr` pulled into `[min, max]`; a missing
   * `nr` or `min` counts as 0. The bound `max` is reached, not excluded.
   */
  function ForceRange(nr: Option<int>, max: int, min: Option<int>): (r: int)
    ensures OrZero(min) <= max ==> OrZero(min) <= r <= max
    ensures OrZero(min) <= OrZero(nr) <= max ==> r == OrZero(nr)
    ensures OrZero(nr) < OrZero(min) ==> r == OrZero(min)
    ensures OrZero(min) <= OrZero(nr) && max < OrZero(nr) ==> r == max
  {
    var lo := OrZero(min);
    var n := OrZero(nr);
    if n < lo then lo
    else if n > max then max
    else n
  }

  /** Clamping twice is clamping once. */
  lemma ForceRangeIdempotent(nr: Option<int>, max: int, min: Option<int>)
    requires OrZero(min) <= max
    ensures ForceRange(Some(ForceRange(nr, max, min)), max, min) == ForceRange(nr, max, min)
  {
  }

  /** Clamping keeps the order of its inputs. */
  lemma ForceRangeMonotone(a: int, b: int, max: int, min: Option<int>)
    requires a <= b && OrZero(min) <= max
    ensures ForceRange(Some(a), max, min) <= ForceRange(Some(b), max, min)
  {
  }

  /** The elements of `xs` at their first occurrences, in order. */
  function FirstOccurrences<T(==)>(xs: seq<T>): seq<T>
  {
    if xs == [] then []
    else
      var init := xs[..|xs| - 1];
      FirstOccurrences(init) + (if xs[|xs| - 1] in init then [] else [xs[|xs| - 1]])
  }

  /** The first-occurrence list has every element of `xs` once and nothing else. */
  lemma {:induction false} FirstOccurrencesFacts<T>(xs: seq<T>)
    ensures NoDup(FirstOccurrences(xs)) && |FirstOccurrences(xs)| <= |xs|
    ensures forall x :: x in FirstOccurrences(xs) <==> x in xs
  {
    if xs != [] {
      var init := xs[..|xs| - 1];
      FirstOccurrencesFacts(init);
      assert xs == init + [xs[|xs| - 1]];
    }
  }

  /** A duplicate-free list is its own first-occurrence list, so stripping twice is stripping once. */
  lemma {:induction false} FirstOccurrencesNoDup<T>(xs: seq<T>)
    requires NoDup(xs)
    ensures FirstOccurrences(xs) == xs
  {
    if xs != [] {
      var init := xs[..|xs| - 1];
      assert NoDup(init) by {
        forall i, j | 0 <= i < j < |init| ensures init[i] != init[j] {
          assert init[i] == xs[i] && init[j] == xs[j];
        }
      }
      forall k | 0 <= k < |init| ensures init[k] != xs[|xs| - 1] {
        assert init[k] == xs[k];
      }
      FirstOccurrencesNoDup(init);
      assert xs == init + [xs[|xs| - 1]];
    }
  }

  /** `_strip_dups(seq)`: `dupMap` records the elements already kept. */
  method StripDups<T(==)>(xs: seq<T>) returns (seqSet: seq<T>)
    ensures seqSet == FirstOccurrences(xs)
  {
    seqSet := [];
    var dupMap: set<T> := {};
    for i := 0 to |xs|
      invariant seqSet == FirstOccurrences(xs[..i])
      invariant forall x :: x in dupMap <==> x in xs[..i]
    {
      assert xs[..i + 1][..i] == xs[..i];
      var e := xs[i];
      if e !in dupMap {
        seqSet := seqSet + [e];
        dupMap := dupMap + {e};
      }
      assert xs[..i + 1] == xs[..i] + [e];
    }
    assert xs[..|xs|] == xs;
  }

  // ---------------------------------------------------------------------------
  // _shuffle
  // ---------------------------------------------------------------------------

  /** The values placed so far: `false` slots are `None`. */
  function Placed<T>(s: seq<Option<T>>): multiset<T>
  {
    if s == [] then multiset{}
    else Placed(s[..|s| - 1]) + (if s[|s| - 1].Some? then multiset{s[|s| - 1].value} else multiset{})
  }

  function Filled<T>(s: seq<Option<T>>): nat
  {
    if s == [] then 0 else Filled(s[..|s| - 1]) + (if s[|s| - 1].Some? then 1 else 0)
  }

  /** Filling a free slot adds its value and one to the count. */
  lemma {:induction false} FillSlot<T>(s: seq<Option<T>>, k: nat, x: T)
    requires k < |s| && s[k].None?
    ensures Placed(s[k := Some(x)]) == Placed(s) + multiset{x}
    ensures Filled(s[k := Some(x)]) == Filled(s) + 1
  {
    var t := s[k := Some(x)];
    var n := |s| - 1;
    if k < n {
      assert t[..n] == s[..n][k := Some(x)];
      assert t[n] == s[n];
      FillSlot(s[..n], k, x);
    } else {
      assert t[..n] == s[..n];
      assert t[n] == Some(x) && s[n] == None;
    }
  }

  /** Fewer filled slots than slots leaves a free one. */
  lemma {:induction false} FreeSlot<T>(s: seq<Option<T>>) returns (k: nat)
    requires Filled(s) < |s|
    ensures k < |s| && s[k].None?
  {
    if s[|s| - 1].None? {
      k := |s| - 1;
    } else {
      k := FreeSlot(s[..|s| - 1]);
    }
  }

  /** With every slot filled, the placed values are exactly the slots' values. */
  lemma {:induction false} AllFilled<T>(s: seq<Option<T>>)
    requires Filled(s) == |s|
    ensures forall k :: 0 <= k < |s| ==> s[k].Some?
    ensures Placed(s) == multiset(Unwrap(s))
  {
    if s != [] {
      FilledBound(s[..|s| - 1]);
      AllFilled(s[..|s| - 1]);
      var init := s[..|s| - 1];
      assert Unwrap(s) == Unwrap(init) + [s[|s| - 1].value];
    }
  }

  /** The values of slots that are all filled. */
  function Unwrap<T>(s: seq<Option<T>>): (vs: seq<T>)
    requires forall k :: 0 <= k < |s| ==> s[k].Some?
    ensures |vs| == |s|
  {
    seq(|s|, k requires 0 <= k < |s| => s[k].value)
  }

  lemma {:induction false} FilledBound<T>(s: seq<Option<T>>)
    ensures Filled(s) <= |s|
  {
    if s != [] {
      FilledBound(s[..|s| - 1]);
    }
  }

  /**
   * `_shuffle(seq)`: each element goes to the slot `_rand_range(n)` names,
   * or, when that is taken, to the next free slot after it, wrapping round.
   * `probes[i]` is the random number drawn for element `i`.
   */
  method Shuffle<T>(xs: seq<T>, probes: seq<nat>) returns (shuffled: seq<T>)
    requires |probes| >= |xs|
    ensures |shuffled| == |xs| && multiset(shuffled) == multiset(xs)
  {
    var n := |xs|;
    var slots := new Option<T>[n](_ => None);
    EmptySlots(slots[..]);
    for i := 0 to n
      invariant Filled(slots[..]) == i && Placed(slots[..]) == multiset(xs[..i])
    {
      var ti := Probe(slots, probes[i] % n);
      ghost var before := slots[..];
      slots[ti] := Some(xs[i]);
      PlaceStep(before, slots[..], ti, xs, i);
    }
    AllFilled(slots[..]);
    shuffled := Unwrap(slots[..]);
    assert xs[..n] == xs;
  }

  /** Placing element `i` in a free slot extends the placed values by it. */
  lemma PlaceStep<T>(before: seq<Option<T>>, after: seq<Option<T>>, ti: nat, xs: seq<T>, i: nat)
    requires ti < |before| && before[ti].None? && i < |xs| && after == before[ti := Some(xs[i])]
    requires Filled(before) == i && Placed(before) == multiset(xs[..i])
    ensures Filled(after) == i + 1 && Placed(after) == multiset(xs[..i + 1])
  {
    FillSlot(before, ti, xs[i]);
    PrefixMultiset(xs, i);
  }

  lemma PrefixMultiset<T>(xs: seq<T>, i: nat)
    requires i < |xs|
    ensures multiset(xs[..i + 1]) == multiset(xs[..i]) + multiset{xs[i]}
  {
    assert xs[..i + 1] == xs[..i] + [xs[i]];
  }

  /** The probing loop of `_shuffle`: from `ti`, the first free slot, wrapping round to 0. */
  method Probe<T>(shuffled: array<Option<T>>, ti: nat) returns (slot: nat)
    requires ti < shuffled.Length && Filled(shuffled[..]) < shuffled.Length
    ensures slot < shuffled.Length && shuffled[slot].None?
    ensures forall k :: ti <= k < slot ==> shuffled[k].Some?
    ensures slot < ti ==> (forall k :: ti <= k < shuffled.Length ==> shuffled[k].Some?) && forall k :: 0 <= k < slot ==> shuffled[k].Some?
  {
    var n := shuffled.Length;
    ghost var free := FreeSlot(shuffled[..]);
    slot := ti;
    while shuffled[slot].Some?
      invariant slot < n && free < n && shuffled[free].None?
      invariant slot >= ti ==> forall k :: ti <= k < slot ==> shuffled[k].Some?
      invariant slot < ti ==> (forall k :: ti <= k < n ==> shuffled[k].Some?) && forall k :: 0 <= k < slot ==> shuffled[k].Some?
      decreases if slot <= free then free - slot else free + n - slot
    {
      slot := if slot + 1 > n - 1 then 0 else slot + 1;
    }
  }

  lemma {:induction false} EmptySlots<T>(s: seq<Option<T>>)
    requires forall k :: 0 <= k < |s| ==> s[k].None?
    ensures Filled(s) == 0 && Placed(s) == multiset{}
  {
    if s != [] {
      EmptySlots(s[..|s| - 1]);
    }
  }
}
