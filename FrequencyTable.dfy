/** The per-node word table of the keypad trie (Value.java): a map from a
    word to the number of times it was added, and the ranking that lists the
    words most frequent first. */
module FrequencyTable {
  import opened Wrappers

  /** How often `w` was added to the table `m` (0 when it never was). */
  function CountOf(m: map<string, int>, w: string): int {
    if w in m then m[w] else 0
  }

  /** Every stored count is at least one. */
  ghost predicate AllPositive(m: map<string, int>) {
    forall w | w in m :: m[w] >= 1
  }

  predicate Distinct(s: seq<string>) {
    forall i, j | 0 <= i < j < |s| :: s[i] != s[j]
  }

  /** `r` lists every word of `m` exactly once and nothing else, and no word
      is listed before a word that is more frequent. Words of equal count may
      come in any order: the source takes them from a hash set. */
  ghost predicate IsRanking(m: map<string, int>, r: seq<string>) {
    && Distinct(r)
    && (forall w :: w in r <==> w in m)
    && (forall i, j | 0 <= i < j < |r| :: CountOf(m, r[i]) >= CountOf(m, r[j]))
  }

  ghost predicate Descending(s: seq<int>) {
    forall i, j | 0 <= i < j < |s| :: s[i] >= s[j]
  }

  /** The table after one more occurrence of `w`: addWord. */
  function Bump(m: map<string, int>, w: string): (m': map<string, int>)
    ensures m'.Keys == m.Keys + {w}
    ensures CountOf(m', w) == CountOf(m, w) + 1
    ensures forall v | v != w :: CountOf(m', v) == CountOf(m, v)
  {
    m[w := CountOf(m, w) + 1]
  }

  /** The table after adding each word of `ws` in turn. */
  function AddAll(m: map<string, int>, ws: seq<string>): map<string, int>
    decreases ws
  {
    if ws == [] then m else AddAll(Bump(m, ws[0]), ws[1..])
  }

  function Occurrences(ws: seq<string>, w: string): nat {
    if ws == [] then 0 else (if ws[0] == w then 1 else 0) + Occurrences(ws[1..], w)
  }

  /** A word's count is the number of times it was added. */
  lemma {:induction false} AddAllCounts(m: map<string, int>, ws: seq<string>, w: string)
    ensures CountOf(AddAll(m, ws), w) == CountOf(m, w) + Occurrences(ws, w)
    ensures w in AddAll(m, ws) <==> w in m || w in ws
    decreases ws
  {
    if ws != [] {
      AddAllCounts(Bump(m, ws[0]), ws[1..], w);
    }
  }

  /** Adding words never produces a count below one. */
  lemma {:induction false} AddAllPositive(m: map<string, int>, ws: seq<string>)
    requires AllPositive(m)
    ensures AllPositive(AddAll(m, ws))
    decreases ws
  {
    if ws != [] {
      AddAllPositive(Bump(m, ws[0]), ws[1..]);
    }
  }

  /** Starting from an empty table, a word is present exactly when it was
      added, and its count is how often it was added. */
  lemma CountIsNumberOfAdds(ws: seq<string>, w: string)
    ensures w in AddAll(map[], ws) <==> Occurrences(ws, w) >= 1
    ensures CountOf(AddAll(map[], ws), w) == Occurrences(ws, w)
  {
    AddAllCounts(map[], ws, w);
    OccurrencesPositive(ws, w);
  }

  lemma {:induction false} OccurrencesPositive(ws: seq<string>, w: string)
    ensures Occurrences(ws, w) >= 1 <==> w in ws
  {
    if ws != [] {
      OccurrencesPositive(ws[1..], w);
    }
  }

  /** Adding the same word twice raises its count by exactly two. */
  lemma AddTwiceAddsTwo(m: map<string, int>, w: string)
    ensures CountOf(AddAll(m, [w, w]), w) == CountOf(m, w) + 2
  {
    AddAllCounts(m, [w, w], w);
    assert [w, w][1..] == [w];
    assert [w][1..] == [];
    assert Occurrences([w], w) == 1;
  }

  /** A ranking lists as many words as the table holds. */
  lemma RankingLength(m: map<string, int>, r: seq<string>)
    requires IsRanking(m, r)
    ensures |r| == |m|
  {
    assert (set w | w in r) == m.Keys;
    DistinctSize(r);
  }

  /** A strictly more frequent word is always listed before a less frequent one. */
  lemma RankingPutsFrequentFirst(m: map<string, int>, r: seq<string>, i: nat, j: nat)
    requires IsRanking(m, r) && i < |r| && j < |r|
    requires CountOf(m, r[i]) > CountOf(m, r[j])
    ensures i < j
  {
  }

  /** Words of equal count sit next to each other: anything listed between
      two of them has that same count. */
  lemma RankingGroupsAreContiguous(m: map<string, int>, r: seq<string>, i: nat, j: nat, k: nat)
    requires IsRanking(m, r) && i < j < k < |r|
    requires CountOf(m, r[i]) == CountOf(m, r[k])
    ensures CountOf(m, r[j]) == CountOf(m, r[i])
  {
  }

  /** The ranking is determined up to the order inside each group of equal
      count: any two rankings of one table list the same words, with the same
      count at every position. */
  lemma RankingsAgree(m: map<string, int>, r1: seq<string>, r2: seq<string>)
    requires IsRanking(m, r1) && IsRanking(m, r2)
    ensures |r1| == |r2|
    ensures forall i | 0 <= i < |r1| :: CountOf(m, r1[i]) == CountOf(m, r2[i])
    ensures multiset(r1) == multiset(r2)
  {
    RankingLength(m, r1);
    RankingLength(m, r2);
    forall i | 0 <= i < |r1|
      ensures CountOf(m, r1[i]) == CountOf(m, r2[i])
    {
      CountNotAbove(m, r1, r2, i);
      CountNotAbove(m, r2, r1, i);
    }
    forall w
      ensures multiset(r1)[w] == multiset(r2)[w]
    {
      DistinctMultiplicity(r1, w);
      DistinctMultiplicity(r2, w);
    }
  }

  lemma CountNotAbove(m: map<string, int>, r1: seq<string>, r2: seq<string>, i: nat)
    requires IsRanking(m, r1) && IsRanking(m, r2)
    requires i < |r1| && |r1| == |r2|
    ensures CountOf(m, r1[i]) <= CountOf(m, r2[i])
  {
    var c1, c2 := CountOf(m, r1[i]), CountOf(m, r2[i]);
    if c1 > c2 {
      var atLeast := set w | w in m && CountOf(m, w) >= c1;
      var head1, head2 := r1[..i + 1], r2[..i];
      var top1 := set w | w in head1;
      var top2 := set w | w in head2;
      assert top1 <= atLeast;
      forall w | w in atLeast
        ensures w in top2
      {
        var p :| 0 <= p < |r2| && r2[p] == w;
        assert p < i;
      }
      SubsetSize(top1, atLeast);
      SubsetSize(atLeast, top2);
      DistinctSize(head1);
      SetOfSeqSize(head2);
      assert false;
    }
  }

  lemma SubsetSize(a: set<string>, b: set<string>)
    requires a <= b
    ensures |a| <= |b|
  {
    assert b == a + (b - a);
  }

  lemma {:induction false} SetOfSeqSize(s: seq<string>)
    ensures |set w | w in s| <= |s|
  {
    if s != [] {
      SetOfSeqSize(s[1..]);
      assert (set w | w in s) == {s[0]} + (set w | w in s[1..]);
    }
  }

  lemma {:induction false} DistinctSize(s: seq<string>)
    requires Distinct(s)
    ensures |set w | w in s| == |s|
  {
    if s != [] {
      DistinctSize(s[1..]);
      assert (set w | w in s) == {s[0]} + (set w | w in s[1..]);
      assert s[0] !in s[1..];
    }
  }

  lemma {:induction false} DistinctMultiplicity(s: seq<string>, w: string)
    requires Distinct(s)
    ensures multiset(s)[w] == if w in s then 1 else 0
  {
    if s != [] {
      DistinctMultiplicity(s[1..], w);
      assert s == [s[0]] + s[1..];
      assert s[0] !in s[1..];
    }
  }

  /** DecreasingOrderComparator.compare: positive when `a` belongs after `b`. */
  function Compare(a: int, b: int): (r: int)
    ensures r > 0 <==> a < b
    ensures r == 0 <==> a == b
  {
    if a < b then 1 else if a == b then 0 else -1
  }

  /** The table class of the source; `counts` is its mapOfKeyIndex field. */
  class Value {
    var counts: map<string, int>

    ghost predicate Valid()
      reads this
    {
      AllPositive(counts)
    }

    constructor ()
      ensures Valid() && counts == map[]
    {
      counts := map[];
    }

    /** addWord: one more occurrence of `key`. */
    method AddWord(key: string)
      requires Valid()
      modifies this
      ensures Valid()
      ensures counts == Bump(old(counts), key)
    {
      if key in counts {
        counts := counts[key := counts[key] + 1];
      } else {
        counts := counts[key := 1];
      }
    }

    /** getSortedSetOfWords: None (Java's null) for an empty table, otherwise
        a ranking of the table. */
    method GetSortedSetOfWords() returns (r: Option<seq<string>>)
      ensures r.None? <==> counts == map[]
      ensures r.Some? ==> IsRanking(counts, r.value)
    {
      r := SortMap(counts);
    }
  }

  /** sortMap: group the words by count, sort the counts in decreasing order
      and emit each group at the first occurrence of its count. */
  method SortMap(inpMap: map<string, int>) returns (r: Option<seq<string>>)
    ensures r.None? <==> inpMap == map[]
    ensures r.Some? ==> IsRanking(inpMap, r.value)
  {
    if |inpMap| == 0 {
      return None;
    }
    var auxMap := CopyIntoAux(inpMap);
    var freqArr, keys := ValuesToArray(inpMap);
    ghost var unsorted := freqArr[..];
    SortDescending(freqArr);
    forall k | 0 <= k < freqArr.Length
      ensures freqArr[k] in auxMap
    {
      assert freqArr[k] in multiset(unsorted);
    }
    var retList := GenerateArrayList(freqArr, auxMap, inpMap);
    forall w | w in inpMap
      ensures w in retList
    {
      var k :| 0 <= k < |keys| && keys[k] == w;
      assert unsorted[k] in multiset(freqArr[..]);
    }
    return Some(retList);
  }

  /** copyIntoAux: the map from each count to the set of words with that count. */
  method CopyIntoAux(inpMap: map<string, int>) returns (auxMap: map<int, set<string>>)
    ensures forall w | w in inpMap :: inpMap[w] in auxMap
    ensures forall c | c in auxMap :: auxMap[c] != {}
    ensures forall c | c in auxMap :: forall w :: w in auxMap[c] <==> w in inpMap && inpMap[w] == c
  {
    auxMap := map[];
    var rest := inpMap.Keys;
    while rest != {}
      invariant rest <= inpMap.Keys
      invariant forall w | w in inpMap && w !in rest :: inpMap[w] in auxMap
      invariant forall c | c in auxMap :: auxMap[c] != {}
      invariant forall c | c in auxMap ::
        forall w :: w in auxMap[c] <==> w in inpMap && w !in rest && inpMap[w] == c
      decreases rest
    {
      var key :| key in rest;
      var val := inpMap[key];
      if val in auxMap {
        auxMap := auxMap[val := auxMap[val] + {key}];
      } else {
        auxMap := auxMap[val := {key}];
      }
      rest := rest - {key};
    }
  }

  /** inpMap.values().toArray(): one entry per key, in the map's own
      iteration order, which `keys` records. */
  method ValuesToArray(inpMap: map<string, int>) returns (a: array<int>, ghost keys: seq<string>)
    ensures fresh(a)
    ensures a.Length == |keys| && Distinct(keys)
    ensures forall k | 0 <= k < |keys| :: keys[k] in inpMap && a[k] == inpMap[keys[k]]
    ensures forall w | w in inpMap :: w in keys
  {
    a := new int[|inpMap|];
    keys := [];
    var rest := inpMap.Keys;
    var i := 0;
    while rest != {}
      invariant rest <= inpMap.Keys
      invariant i == |keys| && i + |rest| == |inpMap|
      invariant Distinct(keys)
      invariant forall k | 0 <= k < i :: keys[k] in inpMap && keys[k] !in rest && a[k] == inpMap[keys[k]]
      invariant forall w | w in inpMap && w !in rest :: w in keys
      decreases rest
    {
      var key :| key in rest;
      a[i] := inpMap[key];
      keys := keys + [key];
      rest := rest - {key};
      i := i + 1;
    }
  }

  /** Arrays.sort(freqArr, new DecreasingOrderComparator()): sorts in place
      so that larger counts come first. */
  method SortDescending(a: array<int>)
    modifies a
    ensures Descending(a[..])
    ensures multiset(a[..]) == old(multiset(a[..]))
  {
    var i := 0;
    while i < a.Length
      invariant 0 <= i <= a.Length
      invariant Descending(a[..i])
      invariant multiset(a[..]) == old(multiset(a[..]))
    {
      SinkInto(a, i);
      i := i + 1;
    }
  }

  /** One insertion step: move a[i] left past every smaller count, so that
      the sorted prefix a[..i] grows to a[..i + 1]. */
  method SinkInto(a: array<int>, i: nat)
    requires i < a.Length && Descending(a[..i])
    modifies a
    ensures Descending(a[..i + 1])
    ensures multiset(a[..]) == old(multiset(a[..]))
  {
    var j := i;
    while 0 < j && Compare(a[j - 1], a[j]) > 0
      invariant 0 <= j <= i
      invariant forall p, q | 0 <= p < q <= i && p != j && q != j :: a[p] >= a[q]
      invariant forall q | j < q <= i :: a[j] >= a[q]
      invariant multiset(a[..]) == old(multiset(a[..]))
    {
      SwapAdjacent(a, j);
      j := j - 1;
    }
  }

  method SwapAdjacent(a: array<int>, j: nat)
    requires 0 < j < a.Length
    modifies a
    ensures a[j - 1] == old(a[j]) && a[j] == old(a[j - 1])
    ensures forall k | 0 <= k < a.Length && k != j - 1 && k != j :: a[k] == old(a[k])
    ensures multiset(a[..]) == old(multiset(a[..]))
  {
    a[j - 1], a[j] := a[j], a[j - 1];
  }

  /** generateArrayList: walk the sorted counts; the first time a count is
      met, append every word of its group. */
  method GenerateArrayList(freqArr: array<int>, auxMap: map<int, set<string>>, ghost inpMap: map<string, int>)
    returns (retList: seq<string>)
    requires Descending(freqArr[..])
    requires forall k | 0 <= k < freqArr.Length :: freqArr[k] in auxMap
    requires forall c | c in auxMap :: forall w :: w in auxMap[c] <==> w in inpMap && inpMap[w] == c
    ensures Distinct(retList)
    ensures forall w :: w in retList <==> w in inpMap && inpMap[w] in freqArr[..]
    ensures forall i, j | 0 <= i < j < |retList| :: CountOf(inpMap, retList[i]) >= CountOf(inpMap, retList[j])
  {
    retList := [];
    var alreadySeen: set<int> := {};
    var count := 0;
    while count < freqArr.Length
      invariant 0 <= count <= freqArr.Length
      invariant alreadySeen == set k | 0 <= k < count :: freqArr[k]
      invariant Distinct(retList)
      invariant forall w :: w in retList <==> w in inpMap && inpMap[w] in alreadySeen
      invariant forall i, j | 0 <= i < j < |retList| :: CountOf(inpMap, retList[i]) >= CountOf(inpMap, retList[j])
      invariant count < freqArr.Length ==> forall w | w in retList :: CountOf(inpMap, w) >= freqArr[count]
    {
      var c := freqArr[count];
      if c !in alreadySeen {
        var group := auxMap[c];
        ghost var before := retList;
        while group != {}
          invariant group <= auxMap[c]
          invariant Distinct(retList)
          invariant forall w :: w in retList <==> w in before || (w in auxMap[c] && w !in group)
          invariant forall i, j | 0 <= i < j < |retList| :: CountOf(inpMap, retList[i]) >= CountOf(inpMap, retList[j])
          invariant forall w | w in retList :: CountOf(inpMap, w) >= c
          decreases group
        {
          var s :| s in group;
          retList := retList + [s];
          group := group - {s};
        }
      }
      alreadySeen := alreadySeen + {c};
      count := count + 1;
    }
    forall w
      ensures w in retList <==> w in inpMap && inpMap[w] in freqArr[..]
    {
      if w in inpMap && inpMap[w] in freqArr[..] {
        var k :| 0 <= k < count && freqArr[k] == inpMap[w];
        assert inpMap[w] in alreadySeen;
      }
    }
  }
}
