/** The predictive-text front end (Suggest.java): query validation, the
    letter-to-keypad encoding, loading the words of a text into the keypad
    trie, and the two listings printed for a query (exact matches, then
    longer words with the exact matches left out). */
module Suggest {
  import opened Wrappers
  import opened FrequencyTable
  import opened DigitTrie
  import opened JavaStrings

  /** The parts of purgeWord that depend on the Unicode character database:
      the classes \p{L} and \p{N} of the regular expression, and
      String.toLowerCase. */
  datatype Unicode = Unicode(isLetterOrNumber: char -> bool, toLowerCase: string -> string)

  /** What printSuggestions prints when the query finds nothing. */
  const NoSequencesFound := "No sequences found!"
  const NoPrefixMatches := "No matches found for the given prefix!"

  /** validateInput: a query is accepted exactly when every character is a
      keypad digit '2'..'9'; the empty query is accepted. */
  method ValidateInput(inp: string) returns (ok: bool)
    ensures ok <==> IsKey(inp)
  {
    for i := 0 to |inp|
      invariant forall j | 0 <= j < i :: IsKeyDigit(inp[j])
    {
      if inp[i] < '2' || inp[i] > '9' {
        return false;
      }
    }
    return true;
  }

  /** KEYPAD_MAP: the letters printed on each key. */
  function KeypadMap(): map<string, char> {
    map["abc" := '2', "def" := '3', "ghi" := '4', "jkl" := '5',
        "mno" := '6', "pqrs" := '7', "tuv" := '8', "wxyz" := '9']
  }

  /** The key a letter is printed on, by the alphabetical ranges of a
      telephone keypad; None for anything but 'a'..'z'. */
  function KeyOf(c: char): (r: Option<char>)
    ensures r.Some? <==> 'a' <= c <= 'z'
    ensures r.Some? ==> IsKeyDigit(r.value)
  {
    if c < 'a' || c > 'z' then None
    else if c <= 'c' then Some('2')
    else if c <= 'f' then Some('3')
    else if c <= 'i' then Some('4')
    else if c <= 'l' then Some('5')
    else if c <= 'o' then Some('6')
    else if c <= 's' then Some('7')
    else if c <= 'v' then Some('8')
    else Some('9')
  }

  /** A letter of a KEYPAD_MAP group is on that group's key. */
  lemma KeypadMapAgrees(g: string, c: char)
    requires g in KeypadMap() && c in g
    ensures KeyOf(c) == Some(KeypadMap()[g])
  {
  }

  /** Every letter 'a'..'z' is in some KEYPAD_MAP group. */
  lemma KeypadMapCovers(c: char)
    requires 'a' <= c <= 'z'
    ensures exists g :: g in KeypadMap() && c in g
  {
    var g :=
      if c <= 'c' then "abc" else if c <= 'f' then "def" else if c <= 'i' then "ghi"
      else if c <= 'l' then "jkl" else if c <= 'o' then "mno" else if c <= 's' then "pqrs"
      else if c <= 'v' then "tuv" else "wxyz";
    var i := c as int - g[0] as int;
    assert 0 <= i < |g| && g[i] == c;
    assert g in KeypadMap();
  }

  /** convert: the key of the first KEYPAD_MAP group (in the map's own
      iteration order) that contains `c`; None stands for the exception. */
  method Convert(c: char) returns (r: Option<char>)
    ensures r == KeyOf(c)
  {
    var groups := KeypadMap().Keys;
    while groups != {}
      invariant groups <= KeypadMap().Keys
      invariant forall g | g in KeypadMap() && g !in groups :: c !in g
      decreases |groups|
    {
      var g :| g in groups;
      if c in g {
        KeypadMapAgrees(g, c);
        return Some(KeypadMap()[g]);
      }
      groups := groups - {g};
    }
    if 'a' <= c <= 'z' {
      KeypadMapCovers(c);
      assert false;
    }
    return None;
  }

  /** The digit string of a word, or None when a character is not 'a'..'z'. */
  function Encode(word: string): (r: Option<string>)
    ensures r.Some? <==> forall i | 0 <= i < |word| :: 'a' <= word[i] <= 'z'
    ensures r.Some? ==> |r.value| == |word| && IsKey(r.value)
    decreases |word|
  {
    if word == [] then Some([])
    else
      var init := word[..|word| - 1];
      match (Encode(init), KeyOf(word[|word| - 1]))
      case (Some(k), Some(d)) => Some(k + [d])
      case _ =>
        assert forall i | 0 <= i < |init| :: init[i] == word[i];
        None
  }

  /** The i-th digit of an encoding is the key of the i-th letter. */
  lemma {:induction false} EncodeDigits(word: string)
    requires Encode(word).Some?
    ensures forall i | 0 <= i < |word| :: KeyOf(word[i]) == Some(Encode(word).value[i])
    decreases |word|
  {
    if word != [] {
      var init := word[..|word| - 1];
      EncodeDigits(init);
      assert forall i | 0 <= i < |init| :: init[i] == word[i];
    }
  }

  /** The encoding of a concatenation is the concatenation of encodings. */
  lemma {:induction false} EncodeAppend(a: string, b: string)
    requires Encode(a).Some? && Encode(b).Some?
    ensures Encode(a + b) == Some(Encode(a).value + Encode(b).value)
    decreases |b|
  {
    if b == [] {
      assert a + b == a;
      assert Encode(a).value + Encode(b).value == Encode(a).value;
    } else {
      var init := b[..|b| - 1];
      var last := b[|b| - 1];
      assert (a + b)[..|a + b| - 1] == a + init;
      assert (a + b)[|a + b| - 1] == last;
      assert forall i | 0 <= i < |init| :: init[i] == b[i];
      EncodeAppend(a, init);
      var ka, ki, d := Encode(a).value, Encode(init).value, KeyOf(last).value;
      assert Encode(b) == Some(ki + [d]);
      assert Encode(a + b) == Some((ka + ki) + [d]);
      assert (ka + ki) + [d] == ka + (ki + [d]);
    }
  }

  /** "cat" is typed 2-2-8. */
  lemma EncodeCat()
    ensures Encode("cat") == Some("228")
  {
    assert [] + ['2'] == "2" && [] + ['8'] == "8";
    assert "c"[..0] == "" && Encode("c") == Some("2");
    assert "a"[..0] == "" && Encode("a") == Some("2");
    assert "t"[..0] == "" && Encode("t") == Some("8");
    EncodeAppend("c", "a");
    assert "c" + "a" == "ca" && "2" + "2" == "22";
    EncodeAppend("ca", "t");
    assert "ca" + "t" == "cat" && "22" + "8" == "228";
  }

  /** toNumeric: fills a character array with the key of each letter; None
      stands for the exception convert throws. */
  method ToNumeric(word: string) returns (r: Option<string>)
    ensures r == Encode(word)
  {
    var numeric := new char[|word|];
    for i := 0 to |word|
      invariant Encode(word[..i]) == Some(numeric[..i])
    {
      var d := Convert(word[i]);
      if d.None? {
        return None;
      }
      assert word[..i + 1][..i] == word[..i];
      numeric[i] := d.value;
      assert numeric[..i + 1] == numeric[..i] + [d.value];
    }
    assert word[..|word|] == word;
    assert numeric[..] == numeric[..|word|];
    return Some(numeric[..]);
  }

  /** The characters of `w` that satisfy `keep`, in order (replaceAll of
      the complement class by ""). */
  function Keep(w: string, keep: char -> bool): (r: string)
    ensures |r| <= |w|
    ensures forall c :: c in r <==> c in w && keep(c)
    decreases |w|
  {
    if w == [] then []
    else
      var init := w[..|w| - 1];
      assert w == init + [w[|w| - 1]];
      Keep(init, keep) + (if keep(w[|w| - 1]) then [w[|w| - 1]] else [])
  }

  /** Keeping twice is keeping once. */
  lemma {:induction false} KeepIdempotent(w: string, keep: char -> bool)
    ensures Keep(Keep(w, keep), keep) == Keep(w, keep)
    decreases |w|
  {
    if w != [] {
      var init := w[..|w| - 1];
      var k := Keep(init, keep);
      KeepIdempotent(init, keep);
      var r := Keep(w, keep);
      if keep(w[|w| - 1]) {
        assert r[..|r| - 1] == k;
      } else {
        assert r == k;
      }
    }
  }

  /** purgeWord: drop every character that is neither a letter nor a digit,
      then lower-case. */
  function Purge(w: string, u: Unicode): string {
    u.toLowerCase(Keep(w, u.isLetterOrNumber))
  }

  /** Keep removes nothing from a word whose characters are all wanted. */
  lemma {:induction false} KeepAll(w: string, keep: char -> bool)
    requires forall i | 0 <= i < |w| :: keep(w[i])
    ensures Keep(w, keep) == w
    decreases |w|
  {
    if w != [] {
      KeepAll(w[..|w| - 1], keep);
      assert w == w[..|w| - 1] + [w[|w| - 1]];
    }
  }

  /** A word made only of letters and numbers loses nothing to purgeWord
      but its case. */
  lemma PurgeCleanWord(w: string, u: Unicode)
    requires forall i | 0 <= i < |w| :: u.isLetterOrNumber(w[i])
    ensures Purge(w, u) == u.toLowerCase(w)
  {
    KeepAll(w, u.isLetterOrNumber);
  }

  /** The words of a line of text: split the trimmed line at single spaces,
      then split each piece at "--". */
  function Tokens(line: string): seq<string> {
    DashWords(Split(Trim(line), " "))
  }

  /** The pieces of each space-separated token, split at "--", in order. */
  function DashWords(ts: seq<string>): seq<string>
    decreases |ts|
  {
    if ts == [] then [] else DashWords(ts[..|ts| - 1]) + Split(ts[|ts| - 1], "--")
  }

  /** No word cut from a list of tokens contains "--". */
  lemma {:induction false} DashWordsAreFree(ts: seq<string>)
    ensures forall w | w in DashWords(ts) :: !Contains(w, "--")
    decreases |ts|
  {
    if ts != [] {
      DashWordsAreFree(ts[..|ts| - 1]);
      SplitIsFree(ts[|ts| - 1], "--");
    }
  }

  /** No word of a line contains "--". */
  lemma TokensAreFree(line: string)
    ensures forall w | w in Tokens(line) :: !Contains(w, "--")
  {
    DashWordsAreFree(Split(Trim(line), " "));
  }

  /** A blank line yields one empty word. */
  lemma BlankLineTokens()
    ensures Tokens("") == [""]
  {
    assert Trim("") == "";
    SplitEmpty(" ");
    SplitEmpty("--");
    assert DashWords([""]) == DashWords([]) + Split("", "--");
  }

  /** A blank line stores the empty word at the root, provided lower-casing
      leaves the empty string empty. */
  lemma BlankLineLoadsEmptyWord(T: Tables, u: Unicode)
    requires u.toLowerCase("") == ""
    ensures LoadAll(T, Tokens(""), u) == Grow(T, "", 0, "")
  {
    BlankLineTokens();
    assert [""][..0] == [];
    assert LoadAll(T, [""], u) == LoadWord(T, "", u);
    assert Keep("", u.isLetterOrNumber) == "";
    assert Purge("", u) == "";
    assert Encode("") == Some("");
  }

  /** The words of all the lines, in order. */
  function LinesTokens(lines: seq<string>): seq<string>
    decreases |lines|
  {
    if lines == [] then [] else LinesTokens(lines[..|lines| - 1]) + Tokens(lines[|lines| - 1])
  }

  /** One word of insertWordsIntoTrie: purge it, encode the lower-cased
      result, and insert the purged word under that key; a word that does not
      encode is skipped. */
  function LoadWord(T: Tables, word: string, u: Unicode): Tables {
    var p := Purge(word, u);
    match Encode(u.toLowerCase(p))
    case None => T
    case Some(k) => Grow(T, k, 0, p)
  }

  /** Loading one word either skips it, when its purged form does not
      encode, or counts the purged form once more at its encoding and
      changes no other table. */
  lemma LoadWordEffect(T: Tables, word: string, u: Unicode, q: string)
    ensures Encode(u.toLowerCase(Purge(word, u))).None? ==> LoadWord(T, word, u) == T
    ensures Encode(u.toLowerCase(Purge(word, u))).Some? ==>
      TableAt(LoadWord(T, word, u), q) ==
        if Encode(u.toLowerCase(Purge(word, u))) == Some(q) then Bump(TableAt(T, q), Purge(word, u))
        else TableAt(T, q)
  {
    var p := Purge(word, u);
    if Encode(u.toLowerCase(p)).Some? {
      GrowTableAt(T, Encode(u.toLowerCase(p)).value, p, q);
    }
  }

  /** The tables after loading `words` in order. */
  function LoadAll(T: Tables, words: seq<string>, u: Unicode): Tables
    decreases |words|
  {
    if words == [] then T else LoadWord(LoadAll(T, words[..|words| - 1], u), words[|words| - 1], u)
  }

  /** One more step of the inner loop of insertWordsIntoTrie. */
  lemma WordNext(T: Tables, words: seq<string>, j: nat, u: Unicode)
    requires j < |words|
    ensures LoadAll(T, words[..j + 1], u) == LoadWord(LoadAll(T, words[..j], u), words[j], u)
  {
    assert words[..j + 1][..j] == words[..j];
  }

  /** One more step of the outer loop of insertWordsIntoTrie. */
  lemma DashNext(T: Tables, ts: seq<string>, i: nat, u: Unicode)
    requires i < |ts|
    ensures LoadAll(T, DashWords(ts[..i + 1]), u) ==
      LoadAll(LoadAll(T, DashWords(ts[..i]), u), Split(ts[i], "--"), u)
  {
    assert ts[..i + 1][..i] == ts[..i];
    LoadAllAppend(T, DashWords(ts[..i]), Split(ts[i], "--"), u);
  }

  /** A loop over the whole of a list has seen all of it. */
  lemma WholeList<X>(xs: seq<X>)
    ensures xs[..|xs|] == xs
  {
  }

  /** Loading two lists in turn is loading their concatenation. */
  lemma {:induction false} LoadAllAppend(T: Tables, a: seq<string>, b: seq<string>, u: Unicode)
    ensures LoadAll(T, a + b, u) == LoadAll(LoadAll(T, a, u), b, u)
    decreases |b|
  {
    if b == [] {
      assert a + b == a;
    } else {
      assert (a + b)[..|a + b| - 1] == a + b[..|b| - 1];
      LoadAllAppend(T, a, b[..|b| - 1], u);
    }
  }

  /** One more step of the loop of populateTrieFromFile. */
  lemma LineNext(T: Tables, lines: seq<string>, i: nat, u: Unicode)
    requires i < |lines|
    ensures LoadAll(T, LinesTokens(lines[..i + 1]), u) ==
      LoadAll(LoadAll(T, LinesTokens(lines[..i]), u), Tokens(lines[i]), u)
  {
    assert lines[..i + 1][..i] == lines[..i];
    LoadAllAppend(T, LinesTokens(lines[..i]), Tokens(lines[i]), u);
  }

  /** Every stored word sits at the key its lower-cased form encodes to. */
  ghost predicate AtEncodings(T: Tables, u: Unicode) {
    forall k, w | k in T && w in T[k] :: Encode(u.toLowerCase(w)) == Some(k)
  }

  /** Loading one word keeps every word at its encoding. */
  lemma LoadWordAtEncodings(T: Tables, word: string, u: Unicode)
    requires AtEncodings(T, u)
    ensures AtEncodings(LoadWord(T, word, u), u)
  {
    var p := Purge(word, u);
    match Encode(u.toLowerCase(p))
    case None =>
    case Some(key) =>
      var G := Grow(T, key, 0, p);
      forall k, w | k in G && w in G[k]
        ensures Encode(u.toLowerCase(w)) == Some(k)
      {
        GrowTableAt(T, key, p, k);
        assert TableAt(G, k) == G[k];
      }
  }

  /** Loading keeps every word at its encoding, so a word is stored under
      one key only. */
  lemma {:induction false} LoadAllAtEncodings(T: Tables, words: seq<string>, u: Unicode)
    requires AtEncodings(T, u)
    ensures AtEncodings(LoadAll(T, words, u), u)
    ensures forall k1, k2, w | k1 in LoadAll(T, words, u) && k2 in LoadAll(T, words, u) &&
      w in LoadAll(T, words, u)[k1] && w in LoadAll(T, words, u)[k2] :: k1 == k2
    decreases |words|
  {
    var L := LoadAll(T, words, u);
    if words != [] {
      LoadAllAtEncodings(T, words[..|words| - 1], u);
      LoadWordAtEncodings(LoadAll(T, words[..|words| - 1], u), words[|words| - 1], u);
    }
    forall k1, k2, w | k1 in L && k2 in L && w in L[k1] && w in L[k2]
      ensures k1 == k2
    {
      assert Encode(u.toLowerCase(w)) == Some(k1);
    }
  }

  /** The purged form of each word, in order. */
  function PurgeAll(words: seq<string>, u: Unicode): (r: seq<string>)
    ensures |r| == |words|
    decreases |words|
  {
    if words == [] then [] else PurgeAll(words[..|words| - 1], u) + [Purge(words[|words| - 1], u)]
  }

  /** Occurrences counted from the back. */
  lemma {:induction false} OccurrencesSnoc(ws: seq<string>, x: string, w: string)
    ensures Occurrences(ws + [x], w) == Occurrences(ws, w) + (if x == w then 1 else 0)
    decreases |ws|
  {
    if ws != [] {
      assert (ws + [x])[1..] == ws[1..] + [x];
      OccurrencesSnoc(ws[1..], x, w);
    }
  }

  /** The count of a word at its key grows by one for every loaded word
      that purges to it. */
  lemma {:induction false} LoadCounts(T: Tables, words: seq<string>, u: Unicode, p: string, key: string)
    requires Encode(u.toLowerCase(p)) == Some(key)
    ensures CountOf(TableAt(LoadAll(T, words, u), key), p) ==
      CountOf(TableAt(T, key), p) + Occurrences(PurgeAll(words, u), p)
    decreases |words|
  {
    if words != [] {
      var init := words[..|words| - 1];
      var w := words[|words| - 1];
      var L := LoadAll(T, init, u);
      LoadCounts(T, init, u, p, key);
      OccurrencesSnoc(PurgeAll(init, u), Purge(w, u), p);
      match Encode(u.toLowerCase(Purge(w, u)))
      case None =>
        assert Purge(w, u) != p;
      case Some(k) =>
        GrowTableAt(L, k, Purge(w, u), key);
        if k != key {
          assert Purge(w, u) != p;
        }
    }
  }

  /** `w` is stored at some path that has `p` as a prefix. */
  ghost predicate StoredUnder(T: Tables, p: string, w: string) {
    exists q :: q in T && p <= q && w in T[q]
  }

  /** The words of `ws` not in `printed`, in order. */
  function Unprinted(ws: seq<string>, printed: set<string>): (r: seq<string>)
    ensures |r| <= |ws|
    ensures forall w :: w in r <==> w in ws && w !in printed
    decreases |ws|
  {
    if ws == [] then []
    else
      var init := ws[..|ws| - 1];
      assert ws == init + [ws[|ws| - 1]];
      Unprinted(init, printed) + (if ws[|ws| - 1] in printed then [] else [ws[|ws| - 1]])
  }

  /** The result of printSuggestions: the lines printed for the exact
      matches and those printed for the prefix matches. */
  datatype Report = Report(exact: seq<string>, prefix: seq<string>)

  /** The suggester's state: the trie (Suggest.trie) and the words printed
      as exact matches so far (Suggest.alreadyPrinted). */
  class Suggester {
    const trie: RWayTrie
    var alreadyPrinted: set<string>
    const text: Unicode

    ghost predicate Valid()
      reads this, trie, trie.Repr
    {
      trie.Valid() && this !in trie.Repr && AtEncodings(trie.Tables, text)
    }

    /** The static initial state: an empty trie and nothing printed. */
    constructor (text: Unicode)
      ensures Valid() && fresh(trie) && fresh(trie.Repr) && this.text == text
      ensures trie.Tables == map[] && alreadyPrinted == {}
    {
      trie := new RWayTrie();
      alreadyPrinted := {};
      this.text := text;
    }

    /** insertWordsIntoTrie: load every word of one line of text. */
    method InsertWordsIntoTrie(line: string)
      requires Valid()
      modifies trie.Repr
      ensures Valid() && fresh(trie.Repr - old(trie.Repr))
      ensures trie.Tables == LoadAll(old(trie.Tables), Tokens(line), text)
    {
      var lineSplit := Split(Trim(line), " ");
      for i := 0 to |lineSplit|
        invariant Valid() && fresh(trie.Repr - old(trie.Repr))
        invariant trie.Tables == LoadAll(old(trie.Tables), DashWords(lineSplit[..i]), text)
      {
        InsertPieces(Split(lineSplit[i], "--"));
        DashNext(old(trie.Tables), lineSplit, i, text);
      }
      WholeList(lineSplit);
    }

    /** The inner loop of insertWordsIntoTrie: insert each piece of one
        token split at "--". */
    method InsertPieces(dashSplit: seq<string>)
      requires Valid()
      modifies trie.Repr
      ensures Valid() && fresh(trie.Repr - old(trie.Repr))
      ensures trie.Tables == LoadAll(old(trie.Tables), dashSplit, text)
    {
      for j := 0 to |dashSplit|
        invariant Valid() && fresh(trie.Repr - old(trie.Repr))
        invariant trie.Tables == LoadAll(old(trie.Tables), dashSplit[..j], text)
      {
        InsertWord(dashSplit[j]);
        WordNext(old(trie.Tables), dashSplit, j, text);
      }
      WholeList(dashSplit);
    }

    /** The body of the inner loop of insertWordsIntoTrie: purge one word,
        encode it, and insert it unless the encoding fails. */
    method InsertWord(word: string)
      requires Valid()
      modifies trie.Repr
      ensures Valid() && fresh(trie.Repr - old(trie.Repr))
      ensures trie.Tables == LoadWord(old(trie.Tables), word, text)
    {
      var purgedWord := Purge(word, text);
      var key := ToNumeric(text.toLowerCase(purgedWord));
      if key.Some? {
        trie.Insert(key.value, purgedWord);
      }
      LoadWordAtEncodings(old(trie.Tables), word, text);
    }

    /** populateTrieFromFile, with the file given as its lines. */
    method PopulateTrie(lines: seq<string>)
      requires Valid()
      modifies trie.Repr
      ensures Valid() && fresh(trie.Repr - old(trie.Repr))
      ensures trie.Tables == LoadAll(old(trie.Tables), LinesTokens(lines), text)
    {
      for i := 0 to |lines|
        invariant Valid() && fresh(trie.Repr - old(trie.Repr))
        invariant trie.Tables == LoadAll(old(trie.Tables), LinesTokens(lines[..i]), text)
      {
        InsertWordsIntoTrie(lines[i]);
        LineNext(old(trie.Tables), lines, i, text);
      }
      WholeList(lines);
    }

    /** retrieveSequencesFromTrie: print the exact matches most frequent
      first and remember them as printed. */
    method RetrieveSequencesFromTrie(query: string) returns (out: seq<string>)
      requires Valid() && SafeToWalk(trie.Tables, query)
      modifies this
      ensures Valid() && trie.Tables == old(trie.Tables)
      ensures Lookup(trie.Tables, query).None? ==>
        out == [NoSequencesFound] && alreadyPrinted == old(alreadyPrinted)
      ensures Lookup(trie.Tables, query).Some? ==>
        IsRanking(trie.Tables[query], out) && alreadyPrinted == old(alreadyPrinted) + trie.Tables[query].Keys
    {
      var result := trie.Retrieve(query);
      if result.None? {
        return [NoSequencesFound];
      }
      var printed;
      out, printed := LogAndRecord(result.value, alreadyPrinted);
      alreadyPrinted := printed;
    }

    /** The loop of retrieveSequencesFromTrie: log every word in order and
        add it to the printed set. */
    static method LogAndRecord(words: seq<string>, printed0: set<string>)
      returns (out: seq<string>, printed: set<string>)
      ensures out == words
      ensures printed == printed0 + set w | w in words
    {
      out := [];
      printed := printed0;
      for i := 0 to |words|
        invariant out == words[..i]
        invariant printed == printed0 + set w | w in out
      {
        out := out + [words[i]];
        printed := printed + {words[i]};
      }
      assert words[..|words|] == words;
    }

    /** retrievePrefixMatchesFromTrie: print the prefix listing, leaving out
        the words already printed. */
    method RetrievePrefixMatchesFromTrie(query: string)
      returns (out: seq<string>, ghost paths: seq<string>, ghost parts: seq<seq<string>>)
      requires Valid() && SafeToWalk(trie.Tables, query)
      ensures Listing(trie.Tables, query, paths, parts)
      ensures Flatten(parts) == [] ==> out == [NoPrefixMatches]
      ensures Flatten(parts) != [] ==> out == Unprinted(Flatten(parts), alreadyPrinted)
      ensures (forall w :: !StoredUnder(trie.Tables, query, w)) ==> out == [NoPrefixMatches]
      ensures (exists w :: StoredUnder(trie.Tables, query, w)) ==>
        forall w :: w in out <==> StoredUnder(trie.Tables, query, w) && w !in alreadyPrinted
    {
      var result;
      result, paths, parts := trie.RetrievePrefixMatches(query);
      ghost var T := trie.Tables;
      forall w
        ensures w in result <==> StoredUnder(T, query, w)
      {
      }
      if |result| == 0 {
        return [NoPrefixMatches], paths, parts;
      }
      out := LogUnprinted(result, alreadyPrinted);
    }

    /** The loop of retrievePrefixMatchesFromTrie: log, in order, every word
        not in the printed set. */
    static method LogUnprinted(words: seq<string>, printed: set<string>) returns (out: seq<string>)
      ensures out == Unprinted(words, printed)
    {
      out := [];
      for i := 0 to |words|
        invariant out == Unprinted(words[..i], printed)
      {
        assert words[..i + 1][..i] == words[..i];
        if words[i] !in printed {
          out := out + [words[i]];
        }
      }
      assert words[..|words|] == words;
    }

    /** printSuggestions, with the dictionary file given as its lines: an
        invalid query stops before loading (System.exit(1)); otherwise load,
        print the exact matches, then the prefix matches not printed yet. */
    method PrintSuggestions(lines: seq<string>, query: string) returns (r: Option<Report>)
      requires Valid() && alreadyPrinted == {}
      modifies this, trie.Repr
      ensures Valid()
      ensures r.None? <==> !IsKey(query)
      ensures r.None? ==> trie.Tables == old(trie.Tables)
      ensures r.Some? ==> trie.Tables == LoadAll(old(trie.Tables), LinesTokens(lines), text)
      ensures r.Some? && Lookup(trie.Tables, query).None? ==> r.value.exact == [NoSequencesFound]
      ensures r.Some? && Lookup(trie.Tables, query).Some? ==> IsRanking(trie.Tables[query], r.value.exact)
      ensures r.Some? && (forall w :: !StoredUnder(trie.Tables, query, w)) ==>
        r.value.prefix == [NoPrefixMatches]
      ensures r.Some? && (exists w :: StoredUnder(trie.Tables, query, w)) ==>
        forall w :: w in r.value.prefix <==>
          StoredUnder(trie.Tables, query, w) && !(query in trie.Tables && w in trie.Tables[query])
    {
      var ok := ValidateInput(query);
      if !ok {
        return None;
      }
      PopulateTrie(lines);
      var exact := RetrieveSequencesFromTrie(query);
      var prefix, paths, parts := RetrievePrefixMatchesFromTrie(query);
      return Some(Report(exact, prefix));
    }
  }
}
