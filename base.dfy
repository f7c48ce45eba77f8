/**
 * Shared vocabulary: success/failure wrappers and JavaScript's conversion of
 * non-negative integers to decimal strings (`n + ''`).
 */
module Base {

  /** `false` (or `undefined`) returned by the library is `None`. */
  datatype Option<+T> = None | Some(value: T)

  /** A thrown error is `Error(message)`; a normal return is `Ok(value)`. */
  datatype Result<+T> = Ok(value: T) | Error(message: string)

  predicate NoDup<T(==)>(s: seq<T>)
  {
    forall i, j :: 0 <= i < j < |s| ==> s[i] != s[j]
  }

  predicate IsDigitChar(c: char)
  {
    '0' <= c <= '9'
  }

  function DigitChar(d: nat): (c: char)
    requires d < 10
    ensures IsDigitChar(c)
  {
    ['0', '1', '2', '3', '4', '5', '6', '7', '8', '9'][d]
  }

  function DigitValue(c: char): (d: nat)
    requires IsDigitChar(c)
    ensures d < 10
  {
    (c as int - '0' as int) as nat
  }

  /** Decimal rendering of a non-negative integer, as `String(n)` does it. */
  function NatToString(n: nat): (s: string)
    ensures |s| >= 1
    ensures forall i :: 0 <= i < |s| ==> IsDigitChar(s[i])
  {
    if n < 10 then [DigitChar(n)] else NatToString(n / 10) + [DigitChar(n % 10)]
  }

  /** Reads a string of decimal digits back into the number it denotes. */
  function ParseNat(s: string): nat
    requires forall i :: 0 <= i < |s| ==> IsDigitChar(s[i])
  {
    if s == [] then 0 else 10 * ParseNat(s[..|s| - 1]) + DigitValue(s[|s| - 1])
  }

  lemma DigitRoundTrip(d: nat)
    requires d < 10
    ensures DigitValue(DigitChar(d)) == d
  {
  }

  /** Reading back a rendered number gives the number: the rendering loses nothing. */
  lemma {:induction false} ParseNatToString(n: nat)
    ensures ParseNat(NatToString(n)) == n
  {
    var s := NatToString(n);
    if n < 10 {
      DigitRoundTrip(n);
      assert s[..0] == [];
    } else {
      ParseNatToString(n / 10);
      assert s[..|s| - 1] == NatToString(n / 10);
      DigitRoundTrip(n % 10);
    }
  }

  /** Different numbers are rendered as different strings. */
  lemma NatToStringInjective(m: nat, n: nat)
    ensures NatToString(m) == NatToString(n) ==> m == n
  {
    ParseNatToString(m);
    ParseNatToString(n);
  }

  /** String concatenation of a list of strings, first to last (`+=` in a loop). */
  function Join(ss: seq<string>): string
  {
    if ss == [] then [] else Join(ss[..|ss| - 1]) + ss[|ss| - 1]
  }

  /** Joining one more string appends it. */
  lemma JoinStep(ss: seq<string>, k: nat)
    requires k < |ss|
    ensures Join(ss[..k + 1]) == Join(ss[..k]) + ss[k]
  {
    assert ss[..k + 1][..k] == ss[..k];
  }

  /** Joining one-character strings spells out those characters. */
  lemma {:induction false} JoinSingles(ss: seq<string>, t: string)
    requires |ss| == |t| && forall i :: 0 <= i < |ss| ==> ss[i] == [t[i]]
    ensures Join(ss) == t
  {
    if ss != [] {
      JoinSingles(ss[..|ss| - 1], t[..|t| - 1]);
      assert t == t[..|t| - 1] + [t[|t| - 1]];
    }
  }

  /** The set of elements of a sequence. */
  function Elems<T>(t: seq<T>): set<T>
  {
    set x | x in t
  }

  lemma {:induction false} NoDupTailOf<T>(t: seq<T>)
    requires t != [] && NoDup(t)
    ensures NoDup(t[1..]) && t[0] !in t[1..]
  {
    var r := t[1..];
    forall i, j | 0 <= i < j < |r| ensures r[i] != r[j] {
      assert r[i] == t[i + 1] && r[j] == t[j + 1];
    }
    forall k | 0 <= k < |r| ensures r[k] != t[0] {
      assert r[k] == t[k + 1];
    }
  }

  /** A duplicate-free sequence holds each value at most once. */
  lemma {:induction false} CountAtMostOne<T>(t: seq<T>, x: T)
    requires NoDup(t)
    ensures multiset(t)[x] <= 1
  {
    if t != [] {
      NoDupTailOf(t);
      assert t == [t[0]] + t[1..];
      CountAtMostOne(t[1..], x);
    }
  }

  /** A value found at two positions is counted at least twice. */
  lemma CountTwo<T>(t: seq<T>, k: nat, l: nat)
    requires k < l < |t| && t[k] == t[l]
    ensures multiset(t)[t[k]] >= 2
  {
    assert t == t[..k] + [t[k]] + t[k + 1..l] + [t[l]] + t[l + 1..];
  }

  /** A rearrangement of a duplicate-free sequence is duplicate-free. */
  lemma NoDupPermutation<T>(s: seq<T>, t: seq<T>)
    requires multiset(s) == multiset(t) && NoDup(t)
    ensures NoDup(s)
  {
    forall k, l | 0 <= k < l < |s| ensures s[k] != s[l] {
      CountAtMostOne(t, s[k]);
      if s[k] == s[l] {
        CountTwo(s, k, l);
      }
    }
  }

  /** A duplicate-free sequence has as many distinct elements as entries. */
  lemma {:induction false} ElemsCard<T>(t: seq<T>)
    requires NoDup(t)
    ensures |Elems(t)| == |t|
  {
    if t != [] {
      NoDupTailOf(t);
      assert t == [t[0]] + t[1..];
      assert Elems(t) == {t[0]} + Elems(t[1..]);
      ElemsCard(t[1..]);
    }
  }

  /** A subset and the elements it lacks add up to the whole set. */
  lemma SubsetCard<T>(a: set<T>, b: set<T>)
    requires a <= b
    ensures |b| == |a| + |b - a|
  {
    assert b == a + (b - a);
    assert a * (b - a) == {};
  }

  /** A subset that misses an element of the whole set is strictly smaller. */
  lemma SubsetSmaller<T>(a: set<T>, b: set<T>, x: T)
    requires a <= b && x in b && x !in a
    ensures |a| < |b|
  {
    SubsetCard(a, b);
    assert x in b - a;
  }

  /**
   * Pigeonhole: `n` distinct values drawn from `n` distinct values are all of
   * them.
   */
  lemma Pigeonhole<T>(t: seq<T>, u: seq<T>)
    requires NoDup(t) && NoDup(u) && |t| == |u|
    requires forall i :: 0 <= i < |t| ==> t[i] in u
    ensures forall x :: x in u ==> x in t
  {
    var S, U := Elems(t), Elems(u);
    ElemsCard(t);
    ElemsCard(u);
    assert S <= U;
    assert S * U == S && S + U == U;
    assert |U - S| == 0;
    forall x | x in u ensures x in t {
      assert x in U && x !in U - S;
    }
  }
}
