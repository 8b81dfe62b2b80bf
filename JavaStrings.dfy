/** The two java.lang.String operations the word loader relies on:
    `trim()` and `split(sep)` for a separator that is a literal string
    (" " and "--"; neither contains a regular-expression metacharacter). */
module JavaStrings {
  import opened Wrappers

  /** A character `trim()` removes: any character up to and including U+0020, the space. */
  predicate IsBlank(c: char) {
    c <= ' '
  }

  /** Index of the first non-blank character at or after `i`, or |s|. */
  function SkipBlanks(s: string, i: nat): (r: nat)
    requires i <= |s|
    ensures i <= r <= |s|
    ensures forall k | i <= k < r :: IsBlank(s[k])
    ensures r < |s| ==> !IsBlank(s[r])
    decreases |s| - i
  {
    if i == |s| || !IsBlank(s[i]) then i else SkipBlanks(s, i + 1)
  }

  /** Index one past the last non-blank character of s[lo..hi], or lo. */
  function BackBlanks(s: string, lo: nat, hi: nat): (r: nat)
    requires lo <= hi <= |s|
    ensures lo <= r <= hi
    ensures forall k | r <= k < hi :: IsBlank(s[k])
    ensures r > lo ==> !IsBlank(s[r - 1])
    decreases hi - lo
  {
    if hi == lo || !IsBlank(s[hi - 1]) then hi else BackBlanks(s, lo, hi - 1)
  }

  /** String.trim(): drop the blank characters at both ends. */
  function Trim(s: string): (r: string)
    ensures r == [] || (!IsBlank(r[0]) && !IsBlank(r[|r| - 1]))
    ensures exists a :: TrimmedAt(s, r, a)
  {
    var a := SkipBlanks(s, 0);
    var b := BackBlanks(s, a, |s|);
    assert s[a..a + |s[a..b]|] == s[a..b];
    assert TrimmedAt(s, s[a..b], a);
    s[a..b]
  }

  /** `r` sits at index `a` of `s` with only blanks around it. */
  predicate TrimmedAt(s: string, r: string, a: int) {
    && 0 <= a <= |s| - |r|
    && s[a..a + |r|] == r
    && (forall k | 0 <= k < a :: IsBlank(s[k]))
    && (forall k | a + |r| <= k < |s| :: IsBlank(s[k]))
  }

  /** Trimming twice is trimming once. */
  lemma TrimIdempotent(s: string)
    ensures Trim(Trim(s)) == Trim(s)
  {
    var r := Trim(s);
    if r != [] {
      assert SkipBlanks(r, 0) == 0;
      assert BackBlanks(r, 0, |r|) == |r|;
      assert r[0..|r|] == r;
    }
  }

  /** `sep` occurs in `s` at index k. */
  predicate MatchAt(s: string, sep: string, k: nat) {
    k + |sep| <= |s| && s[k..k + |sep|] == sep
  }

  /** `sep` occurs somewhere in `s`. */
  predicate Contains(s: string, sep: string) {
    exists k: nat | k <= |s| :: MatchAt(s, sep, k)
  }

  /** The leftmost occurrence of `sep` in `s` at or after `from`. */
  function FirstMatch(s: string, sep: string, from: nat): (r: Option<nat>)
    requires from <= |s|
    ensures r.Some? ==> from <= r.value && MatchAt(s, sep, r.value)
    ensures forall k: nat | from <= k && (r.None? || k < r.value) :: !MatchAt(s, sep, k)
    decreases |s| - from
  {
    if from + |sep| > |s| then None
    else if s[from..from + |sep|] == sep then Some(from)
    else if from == |s| then None
    else FirstMatch(s, sep, from + 1)
  }

  /** The pieces between successive leftmost, non-overlapping occurrences of
      `sep`, trailing empty pieces included. */
  function Pieces(s: string, sep: string): (r: seq<string>)
    requires |sep| > 0
    ensures |r| >= 1
    decreases |s|
  {
    match FirstMatch(s, sep, 0)
    case None => [s]
    case Some(k) => [s[..k]] + Pieces(s[k + |sep|..], sep)
  }

  /** The pieces glued back together with `sep` between neighbours. */
  function Join(ps: seq<string>, sep: string): string {
    if ps == [] then []
    else if |ps| == 1 then ps[0]
    else ps[0] + sep + Join(ps[1..], sep)
  }

  /** Cutting at the separators and gluing them back gives the input. */
  lemma {:induction false} JoinPieces(s: string, sep: string)
    requires |sep| > 0
    ensures Join(Pieces(s, sep), sep) == s
    decreases |s|
  {
    match FirstMatch(s, sep, 0)
    case None =>
    case Some(k) =>
      var rest := s[k + |sep|..];
      var tail := Pieces(rest, sep);
      JoinPieces(rest, sep);
      var ps := [s[..k]] + tail;
      assert ps[0] == s[..k] && ps[1..] == tail;
      assert Join(ps, sep) == s[..k] + sep + rest;
      Around(s, k, k + |sep|);
  }

  /** A string is its three consecutive slices glued together. */
  lemma Around(s: string, i: nat, j: nat)
    requires i <= j <= |s|
    ensures s[..i] + s[i..j] + s[j..] == s
  {
    assert s[..i] + s[i..j] == s[..j];
  }

  /** No piece contains the separator: each cut is at the leftmost match. */
  lemma {:induction false} PiecesAreFree(s: string, sep: string)
    requires |sep| > 0
    ensures forall p | p in Pieces(s, sep) :: !Contains(p, sep)
    decreases |s|
  {
    match FirstMatch(s, sep, 0)
    case None =>
      forall k: nat ensures !MatchAt(s, sep, k) {
      }
    case Some(k) =>
      var rest := s[k + |sep|..];
      PiecesAreFree(rest, sep);
      forall j: nat
        ensures !MatchAt(s[..k], sep, j)
      {
        if j + |sep| <= k {
          assert s[..k][j..j + |sep|] == s[j..j + |sep|];
          assert !MatchAt(s, sep, j);
        }
      }
      assert !Contains(s[..k], sep);
      assert Pieces(s, sep) == [s[..k]] + Pieces(rest, sep);
  }

  /** The list with its trailing empty strings removed. */
  function DropTrailingEmpty(ps: seq<string>): (r: seq<string>)
    ensures |r| <= |ps| && r == ps[..|r|]
    ensures forall i | |r| <= i < |ps| :: ps[i] == []
    ensures r == [] || r[|r| - 1] != []
  {
    if ps != [] && ps[|ps| - 1] == [] then DropTrailingEmpty(ps[..|ps| - 1]) else ps
  }

  /** String.split(sep) with a literal separator and limit 0: the input
      itself when `sep` does not occur in it, otherwise the pieces without
      the trailing empty ones. */
  function Split(s: string, sep: string): (r: seq<string>)
    requires |sep| > 0
  {
    if FirstMatch(s, sep, 0).None? then [s] else DropTrailingEmpty(Pieces(s, sep))
  }

  /** What split returns: the input alone when the separator does not occur;
      otherwise a prefix of the pieces, ending in a non-empty piece, after
      which every piece is empty. */
  lemma SplitSpec(s: string, sep: string)
    requires |sep| > 0
    ensures !Contains(s, sep) ==> Split(s, sep) == [s]
    ensures Contains(s, sep) ==>
      && Split(s, sep) == Pieces(s, sep)[..|Split(s, sep)|]
      && (forall i | |Split(s, sep)| <= i < |Pieces(s, sep)| :: Pieces(s, sep)[i] == [])
      && (Split(s, sep) == [] || Split(s, sep)[|Split(s, sep)| - 1] != [])
  {
    if Contains(s, sep) {
      var k: nat :| MatchAt(s, sep, k);
      assert FirstMatch(s, sep, 0).Some?;
    }
  }

  /** No string that split returns contains the separator. */
  lemma SplitIsFree(s: string, sep: string)
    requires |sep| > 0
    ensures forall p | p in Split(s, sep) :: !Contains(p, sep)
  {
    SplitSpec(s, sep);
    PiecesAreFree(s, sep);
    if Contains(s, sep) {
      forall p | p in Split(s, sep) ensures p in Pieces(s, sep) {
        var i :| 0 <= i < |Split(s, sep)| && Split(s, sep)[i] == p;
        assert Pieces(s, sep)[i] == p;
      }
    }
  }

  /** Splitting the empty string yields one empty string, not an empty list. */
  lemma SplitEmpty(sep: string)
    requires |sep| > 0
    ensures Split([], sep) == [[]]
  {
  }

  /** A string made only of one separator splits into nothing. */
  lemma SplitOnlySeparator(sep: string)
    requires |sep| > 0
    ensures Split(sep, sep) == []
  {
    assert FirstMatch(sep, sep, 0) == Some(0);
    assert sep[|sep|..] == [];
    assert Pieces(sep, sep) == [[], []];
  }
}
