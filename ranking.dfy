/**
 * `findRelativedRank`: ranks the entries of a list of scores. The entries are
 * paired with their positions, sorted by the comparator `sortByNum` (larger
 * values first) and labelled by their place in that order: "Gold Medal",
 * "Silver Medal", "Bronze Medal", then "4", "5", ...; each label is written
 * back at the entry's original position.
 */
module Ranking {
  import opened Base

  /** An entry of `tmpArr`: the original position and the score. */
  datatype Item = Item(key: nat, value: int)

  const GOLD: string := "Gold Medal"
  const SILVER: string := "Silver Medal"
  const BRONZE: string := "Bronze Medal"

  /** `sortByNum(a, b)`: negative when `a` belongs before `b`, that is when `a` scores higher. */
  function SortByNum(a: Item, b: Item): (d: int)
    ensures d < 0 <==> a.value > b.value
    ensures d == 0 <==> a.value == b.value
  {
    b.value - a.value
  }

  /** In order under the comparator: no later entry belongs before an earlier one. */
  predicate SortedDesc(s: seq<Item>)
  {
    forall i, j :: 0 <= i < j < |s| ==> SortByNum(s[i], s[j]) <= 0
  }

  /**
   * `x` comes before `y` in the order a stable sort under `sortByNum`
   * produces from entries listed by position: a higher score, or the same
   * score and an earlier position.
   */
  predicate Precedes(x: Item, y: Item)
  {
    x.value > y.value || (x.value == y.value && x.key < y.key)
  }

  predicate StablySorted(s: seq<Item>)
  {
    forall k, l :: 0 <= k < l < |s| ==> Precedes(s[k], s[l])
  }

  predicate KeysAscending(s: seq<Item>)
  {
    forall k, l :: 0 <= k < l < |s| ==> s[k].key < s[l].key
  }

  /** The label of sorted place `k` (0-based): a medal for the first three, else the 1-based place. */
  function Label(k: nat): (text: string)
    ensures text != [] && (IsDigitChar(text[0]) <==> k >= 3)
  {
    if k == 0 then GOLD else if k == 1 then SILVER else if k == 2 then BRONZE else NatToString(k + 1)
  }

  predicate AllDigits(text: string)
  {
    forall i :: 0 <= i < |text| ==> IsDigitChar(text[i])
  }

  /** The place a label stands for; -1 for a string that is not a label. */
  function RankIndex(text: string): int
  {
    if text != [] && IsDigitChar(text[0]) then (if AllDigits(text) then ParseNat(text) - 1 else -1)
    else if text == GOLD then 0
    else if text == SILVER then 1
    else if text == BRONZE then 2
    else -1
  }

  /** Reading a label back gives its place: every place has its own label. */
  lemma LabelRoundTrip(k: nat)
    ensures RankIndex(Label(k)) == k
  {
    if k >= 3 {
      ParseNatToString(k + 1);
    }
  }

  /** Distinct places get distinct labels. */
  lemma LabelInjective(k: nat, l: nat)
    ensures Label(k) == Label(l) <==> k == l
  {
    LabelRoundTrip(k);
    LabelRoundTrip(l);
  }

  /** The three medals are the labels of the first three places and of no other. */
  lemma LabelMedals(k: nat)
    ensures Label(k) == GOLD <==> k == 0
    ensures Label(k) == SILVER <==> k == 1
    ensures Label(k) == BRONZE <==> k == 2
  {
    LabelInjective(k, 0);
    LabelInjective(k, 1);
    LabelInjective(k, 2);
  }

  /** `tmpArr` before sorting: each score paired with its position. */
  function Items(arr: seq<int>): seq<Item>
  {
    seq(|arr|, i requires 0 <= i < |arr| => Item(i, arr[i]))
  }

  /** Entry `j` of the scores is placed before entry `i`. */
  predicate Before(arr: seq<int>, j: nat, i: nat)
    requires j < |arr| && i < |arr|
  {
    arr[j] > arr[i] || (arr[j] == arr[i] && j < i)
  }

  /** The 0-based place of entry `i`: the number of entries placed before it. */
  function Place(arr: seq<int>, i: nat): nat
    requires i < |arr|
  {
    |set j | 0 <= j < |arr| && Before(arr, j, i)|
  }

  /** The ranking `findRelativedRank` computes: each entry gets the label of its place. */
  function Ranks(arr: seq<int>): (res: seq<string>)
    ensures |res| == |arr|
  {
    seq(|arr|, i requires 0 <= i < |arr| => Label(Place(arr, i)))
  }

  /** An entry placed before another has the smaller place. */
  lemma PlaceBefore(arr: seq<int>, i: nat, j: nat)
    requires i < |arr| && j < |arr| && Before(arr, i, j)
    ensures Place(arr, i) < Place(arr, j)
  {
    var A := set x | 0 <= x < |arr| && Before(arr, x, i);
    var B := set x | 0 <= x < |arr| && Before(arr, x, j);
    assert A <= B;
    SubsetSmaller(A, B, i);
  }

  /** Different entries have different places. */
  lemma PlaceDistinct(arr: seq<int>, i: nat, j: nat)
    requires i < |arr| && j < |arr| && i != j
    ensures Place(arr, i) != Place(arr, j)
  {
    if Before(arr, i, j) {
      PlaceBefore(arr, i, j);
    } else {
      PlaceBefore(arr, j, i);
    }
  }

  /** The positions `0, 1, ..., n - 1` in order. */
  function Upto(n: nat): (u: seq<nat>)
    ensures |u| == n && NoDup(u) && forall x :: 0 <= x < n ==> u[x] == x
  {
    seq(n, x requires 0 <= x < n => x)
  }

  /** A place is below the number of entries. */
  lemma PlaceBound(arr: seq<int>, i: nat)
    requires i < |arr|
    ensures Place(arr, i) < |arr|
  {
    var A := set x | 0 <= x < |arr| && Before(arr, x, i);
    var u := Upto(|arr|);
    var R := Elems(u);
    ElemsCard(u);
    forall x | x in A ensures x in R {
      assert u[x] == x;
    }
    assert i in R by {
      assert u[i] == i;
    }
    SubsetSmaller(A, R, i);
  }

  /** Every place below the number of entries is some entry's place. */
  lemma PlaceOf(arr: seq<int>, k: nat) returns (i: nat)
    requires k < |arr|
    ensures i < |arr| && Place(arr, i) == k
  {
    var n := |arr|;
    var t := seq(n, x requires 0 <= x < n => Place(arr, x));
    var u := Upto(n);
    forall x, y | 0 <= x < y < n ensures t[x] != t[y] {
      PlaceDistinct(arr, x, y);
    }
    forall x | 0 <= x < n ensures t[x] in u {
      PlaceBound(arr, x);
      assert u[t[x]] == t[x];
    }
    Pigeonhole(t, u);
    assert k in t by {
      assert u[k] == k;
    }
    var j :| 0 <= j < n && t[j] == k;
    i := j;
  }

  /** A higher score gets a better place; so does an equal score at an earlier position. */
  lemma RanksOrder(arr: seq<int>, i: nat, j: nat)
    requires i < |arr| && j < |arr|
    ensures arr[i] > arr[j] ==> Place(arr, i) < Place(arr, j)
    ensures arr[i] == arr[j] && i < j ==> Place(arr, i) < Place(arr, j)
  {
    if Before(arr, i, j) {
      PlaceBefore(arr, i, j);
    }
  }

  /** No label is handed out twice, and every place below the length is handed out. */
  lemma RanksOnce(arr: seq<int>, i: nat, j: nat, k: nat) returns (w: nat)
    requires i < |arr| && j < |arr| && k < |arr|
    ensures i != j ==> Ranks(arr)[i] != Ranks(arr)[j]
    ensures w < |arr| && Ranks(arr)[w] == Label(k)
  {
    if i != j {
      PlaceDistinct(arr, i, j);
      LabelInjective(Place(arr, i), Place(arr, j));
    }
    w := PlaceOf(arr, k);
  }

  /**
   * The gold medal goes to the entry no other entry is placed before: nothing
   * scores higher and no earlier entry scores the same; silver and bronze go
   * to the entries with one and two entries placed before them.
   */
  lemma Medals(arr: seq<int>, i: nat)
    requires i < |arr|
    ensures Ranks(arr)[i] == GOLD <==> forall j :: 0 <= j < |arr| ==> arr[j] < arr[i] || (arr[j] == arr[i] && i <= j)
    ensures Ranks(arr)[i] == SILVER <==> Place(arr, i) == 1
    ensures Ranks(arr)[i] == BRONZE <==> Place(arr, i) == 2
  {
    LabelMedals(Place(arr, i));
    var A := set x | 0 <= x < |arr| && Before(arr, x, i);
    if forall j :: 0 <= j < |arr| ==> arr[j] < arr[i] || (arr[j] == arr[i] && i <= j) {
      assert A == {};
    } else {
      var j :| 0 <= j < |arr| && !(arr[j] < arr[i] || (arr[j] == arr[i] && i <= j));
      assert j in A;
    }
  }

  /**
   * `tmpArr.sort(sortByNum)`, as an insertion sort. The entries arrive in
   * position order; afterwards they are in comparator order, entries with
   * equal scores keep their relative order (the sort is stable), and the
   * array holds the same entries.
   */
  method Sort(a: array<Item>)
    requires KeysAscending(a[..])
    modifies a
    ensures SortedDesc(a[..]) && StablySorted(a[..]) && multiset(a[..]) == multiset(old(a[..]))
  {
    var i := 0;
    while i < a.Length
      invariant 0 <= i <= a.Length
      invariant StablySorted(a[..i]) && multiset(a[..i]) == multiset(old(a[..i])) && a[i..] == old(a[i..])
    {
      ghost var t := a[..];
      PrefixKeys(t, old(a[..]), i);
      Sink(a, i);
      SortStep(old(a[..]), t, a[..], i);
      i := i + 1;
    }
    assert a[..a.Length] == a[..];
    assert old(a[..a.Length]) == old(a[..]);
  }

  /** The entry about to sink has a larger key than those already sorted. */
  lemma PrefixKeys(t: seq<Item>, o: seq<Item>, i: nat)
    requires i < |t| == |o| && KeysAscending(o)
    requires multiset(t[..i]) == multiset(o[..i]) && t[i..] == o[i..]
    ensures forall l :: 0 <= l < i ==> t[l].key < t[i].key
  {
    assert t[i] == o[i];
    forall l | 0 <= l < i ensures t[l].key < t[i].key {
      assert t[l] in multiset(o[..i]);
      var m :| 0 <= m < i && o[..i][m] == t[l];
    }
  }

  /** After sinking entry `i`, the sorted prefix grows by one and the rest is untouched. */
  lemma SortStep(o: seq<Item>, t: seq<Item>, u: seq<Item>, i: nat)
    requires i < |t| == |o| == |u|
    requires multiset(t[..i]) == multiset(o[..i]) && t[i..] == o[i..]
    requires multiset(u[..i + 1]) == multiset(t[..i + 1]) && u[i + 1..] == t[i + 1..]
    ensures multiset(u[..i + 1]) == multiset(o[..i + 1]) && u[i + 1..] == o[i + 1..]
  {
    assert t[..i + 1] == t[..i] + [t[i]];
    assert o[..i + 1] == o[..i] + [o[i]];
    assert t[i] == o[i];
    assert t[i + 1..] == t[i..][1..];
    assert o[i + 1..] == o[i..][1..];
  }

  /** Moves `a[i]` left past the lower-scoring entries of the sorted prefix `a[..i]`. */
  method Sink(a: array<Item>, i: nat)
    requires i < a.Length && StablySorted(a[..i])
    requires forall l :: 0 <= l < i ==> a[l].key < a[i].key
    modifies a
    ensures StablySorted(a[..i + 1])
    ensures multiset(a[..i + 1]) == multiset(old(a[..i + 1])) && a[i + 1..] == old(a[i + 1..])
  {
    var j: nat := i;
    SinkStart(a[..], i);
    while j > 0 && SortByNum(a[j - 1], a[j]) > 0
      invariant SinkState(a[..], i, j)
      invariant multiset(a[..i + 1]) == multiset(old(a[..i + 1])) && a[i + 1..] == old(a[i + 1..])
    {
      ghost var t := a[..];
      SinkStep(t, i, j);
      a[j - 1], a[j] := a[j], a[j - 1];
      assert a[..] == t[j - 1 := t[j]][j := t[j - 1]];
      j := j - 1;
    }
    SinkDone(a[..], i, j);
  }

  /**
   * While `t[j]` sinks towards its place in `t[..i + 1]`: the other entries
   * are in order, those it has passed score lower, and it has the largest key.
   */
  predicate SinkState(t: seq<Item>, i: nat, j: nat)
  {
    j <= i < |t| &&
    (forall k, l :: 0 <= k < l <= i && k != j && l != j ==> Precedes(t[k], t[l])) &&
    (forall l :: j < l <= i ==> t[l].value < t[j].value) &&
    (forall l :: 0 <= l <= i && l != j ==> t[l].key < t[j].key)
  }

  lemma SinkStart(t: seq<Item>, i: nat)
    requires i < |t| && StablySorted(t[..i])
    requires forall l :: 0 <= l < i ==> t[l].key < t[i].key
    ensures SinkState(t, i, i)
  {
    forall k, l | 0 <= k < l < i ensures Precedes(t[k], t[l]) {
      assert Precedes(t[..i][k], t[..i][l]);
    }
  }

  /** Swapping the sinking entry with a lower-scoring left neighbour keeps the state, one place further left. */
  lemma SinkStep(t: seq<Item>, i: nat, j: nat)
    requires SinkState(t, i, j) && 0 < j && t[j - 1].value < t[j].value
    ensures SinkState(t[j - 1 := t[j]][j := t[j - 1]], i, j - 1)
    ensures multiset(t[j - 1 := t[j]][j := t[j - 1]][..i + 1]) == multiset(t[..i + 1])
    ensures t[j - 1 := t[j]][j := t[j - 1]][i + 1..] == t[i + 1..]
  {
    var u := t[j - 1 := t[j]][j := t[j - 1]];
    assert u[..i + 1] == t[..i + 1][j - 1 := t[j]][j := t[j - 1]];
  }

  /** Once the left neighbour scores at least as much, the prefix up to `i` is in order. */
  lemma SinkDone(t: seq<Item>, i: nat, j: nat)
    requires SinkState(t, i, j) && (j == 0 || t[j - 1].value >= t[j].value)
    ensures StablySorted(t[..i + 1])
  {
    forall k, l | 0 <= k < l <= i ensures Precedes(t[k], t[l]) {
      if l == j && k < j - 1 {
        assert Precedes(t[k], t[j - 1]);
      }
    }
  }

  /**
   * `findRelativedRank(arr)`; `None` stands for a missing or non-array
   * argument (the function returns `undefined`). The result is the ranking
   * `Ranks`: each position gets the label of its place.
   */
  method FindRelativedRank(arr: Option<seq<int>>) returns (r: Option<seq<string>>)
    ensures r.None? <==> arr.None?
    ensures r.Some? ==> r.value == Ranks(arr.value)
  {
    if arr.None? {
      return None;
    }
    var scores := arr.value;
    var len := |scores|;
    var modalArr := [GOLD, SILVER, BRONZE];
    var tmpArr := PairWithPositions(scores);
    Sort(tmpArr);
    SortedKeyBounds(scores, tmpArr[..]);
    var result := new string[len](_ => "0");
    WriteLabels(tmpArr, modalArr, result);
    RankFacts(scores, tmpArr[..], result[..]);
    return Some(result[..]);
  }

  /** The first loop of `findRelativedRank`: `tmpArr[idx] = {key: idx, value: arr[idx]}`. */
  method PairWithPositions(scores: seq<int>) returns (tmpArr: array<Item>)
    ensures fresh(tmpArr) && tmpArr[..] == Items(scores) && KeysAscending(tmpArr[..])
  {
    tmpArr := new Item[|scores|](_ => Item(0, 0));
    for idx := 0 to |scores|
      invariant forall k :: 0 <= k < idx ==> tmpArr[k] == Item(k, scores[k])
    {
      tmpArr[idx] := Item(idx, scores[idx]);
    }
    assert tmpArr[..] == Items(scores);
  }

  /**
   * The labelling loop of `findRelativedRank`: the entry at sorted index
   * `idx` gets the label of place `idx`, written at its original position.
   */
  method WriteLabels(tmpArr: array<Item>, modalArr: seq<string>, result: array<string>)
    requires modalArr == [GOLD, SILVER, BRONZE] && tmpArr.Length == result.Length
    requires forall k :: 0 <= k < tmpArr.Length ==> tmpArr[k].key < result.Length
    requires forall k, l :: 0 <= k < l < tmpArr.Length ==> tmpArr[k].key != tmpArr[l].key
    modifies result
    ensures forall k :: 0 <= k < tmpArr.Length ==> result[tmpArr[k].key] == Label(k)
  {
    for idx := 0 to tmpArr.Length
      invariant forall k :: 0 <= k < idx ==> result[tmpArr[k].key] == Label(k)
    {
      LabelWritten(idx, modalArr);
      result[tmpArr[idx].key] := if idx < 3 then modalArr[idx] else NatToString(idx + 1);
    }
  }

  /** What the labelling loop writes for sorted place `k` is that place's label. */
  lemma LabelWritten(k: nat, modalArr: seq<string>)
    requires modalArr == [GOLD, SILVER, BRONZE]
    ensures (if k < 3 then modalArr[k] else NatToString(k + 1)) == Label(k)
  {
  }

  /**
   * The sorted entries are the original ones rearranged: each one is a
   * position paired with its score, and no key occurs twice.
   */
  lemma SortedKeys(arr: seq<int>, s: seq<Item>)
    requires multiset(s) == multiset(Items(arr))
    ensures |s| == |arr|
    ensures forall k :: 0 <= k < |s| ==> s[k].key < |arr| && s[k] == Item(s[k].key, arr[s[k].key])
    ensures forall k, l :: 0 <= k < l < |s| ==> s[k].key != s[l].key
  {
    var items := Items(arr);
    assert |s| == |multiset(s)| == |multiset(items)| == |arr|;
    forall k | 0 <= k < |s| ensures s[k].key < |arr| && s[k] == Item(s[k].key, arr[s[k].key]) {
      assert s[k] in multiset(items);
    }
    assert NoDup(items);
    NoDupPermutation(s, items);
  }

  /** The keys of the sorted entries are distinct positions. */
  lemma SortedKeyBounds(arr: seq<int>, s: seq<Item>)
    requires multiset(s) == multiset(Items(arr))
    ensures |s| == |arr| && forall k :: 0 <= k < |s| ==> s[k].key < |arr|
    ensures forall k, l :: 0 <= k < l < |s| ==> s[k].key != s[l].key
  {
    SortedKeys(arr, s);
  }

  /** Every position occurs as a key of the sorted entries. */
  lemma KeyPosition(arr: seq<int>, s: seq<Item>, i: nat) returns (k: nat)
    requires multiset(s) == multiset(Items(arr)) && i < |arr|
    ensures k < |s| && s[k] == Item(i, arr[i])
  {
    assert Items(arr)[i] in multiset(s);
    var j :| 0 <= j < |s| && s[j] == Items(arr)[i];
    k := j;
  }

  function Keys(s: seq<Item>): (keys: seq<nat>)
    ensures |keys| == |s| && forall k :: 0 <= k < |s| ==> keys[k] == s[k].key
  {
    seq(|s|, k requires 0 <= k < |s| => s[k].key)
  }

  /** In the stably sorted entries, the entry at index `k` has place `k`. */
  lemma SortedPlace(arr: seq<int>, s: seq<Item>, k: nat)
    requires StablySorted(s) && multiset(s) == multiset(Items(arr)) && k < |s|
    ensures s[k].key < |arr| && Place(arr, s[k].key) == k
  {
    SortedKeys(arr, s);
    var i := s[k].key;
    var A := set x | 0 <= x < |arr| && Before(arr, x, i);
    var keys := Keys(s[..k]);
    forall x | x in A ensures x in keys {
      var m := KeyPosition(arr, s, x);
      assert !Precedes(s[k], s[m]) && m != k;
      assert keys[m] == x;
    }
    forall m | 0 <= m < k ensures keys[m] in A {
      assert Precedes(s[m], s[k]);
    }
    assert A == Elems(keys);
    assert NoDup(keys);
    ElemsCard(keys);
  }

  /** From the writes of the labelling loop to the ranking. */
  lemma RankFacts(arr: seq<int>, s: seq<Item>, res: seq<string>)
    requires StablySorted(s) && multiset(s) == multiset(Items(arr)) && |res| == |arr|
    requires forall k :: 0 <= k < |s| ==> s[k].key < |res| && res[s[k].key] == Label(k)
    ensures res == Ranks(arr)
  {
    forall i | 0 <= i < |res| ensures res[i] == Ranks(arr)[i] {
      var k := KeyPosition(arr, s, i);
      SortedPlace(arr, s, k);
    }
  }
}
