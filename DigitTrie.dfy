/** The keypad trie (RWayTrie.java): an 8-way trie whose links are the keypad
    digits '2'..'9'. Each node owns a word table (FrequencyTable.Value); the
    table of the node reached by a digit string holds the words inserted under
    exactly that string.

    The abstract state of a trie is a map from digit strings to word tables:
    its keys are the paths of the nodes that exist, and the table at a path is
    the table of that node (possibly empty). */
module DigitTrie {
  import opened Wrappers
  import opened FrequencyTable

  /** The number of links of a node: one per digit '2'..'9'. */
  const Radix := 8

  type Tables = map<string, map<string, int>>

  predicate IsKeyDigit(c: char) {
    '2' <= c <= '9'
  }

  predicate IsKey(key: string) {
    forall i | 0 <= i < |key| :: IsKeyDigit(key[i])
  }

  /** computeActualIndex: the link slot of a key character, -1 below '2'.
      A character above '9' yields a slot past the end of the link array. */
  function ComputeActualIndex(link: char): (r: int)
    ensures r == -1 <==> link < '2'
    ensures IsKeyDigit(link) ==> 0 <= r < Radix && Digit(r) == link
  {
    if link < '2' then -1 else link as int - '2' as int
  }

  /** The key character of link slot `i`. */
  function Digit(i: int): char
    requires 0 <= i < Radix
  {
    ('2' as int + i) as char
  }

  /** The table stored at path `p`, or the empty table when there is no node. */
  function TableAt(T: Tables, p: string): map<string, int> {
    if p in T then T[p] else map[]
  }

  /** What an exact-key lookup finds: None when the node is missing or its
      table is empty (both are Java's null), otherwise the table. */
  function Lookup(T: Tables, key: string): (r: Option<map<string, int>>)
    ensures r.Some? <==> key in T && T[key] != map[]
    ensures r.Some? ==> r.value == T[key]
  {
    if key in T && T[key] != map[] then Some(T[key]) else None
  }

  /** Every prefix of a node path is a node path. (The trigger keeps the
      solver from applying the rule to the prefixes it produces.) */
  ghost predicate PrefixClosed(T: Tables) {
    forall p, i {:trigger p[..i]} | p in T && 0 <= i <= |p| :: p[..i] in T
  }

  ghost predicate KeysAreDigits(T: Tables) {
    forall p | p in T :: IsKey(p)
  }

  ghost predicate CountsPositive(T: Tables) {
    forall p | p in T :: AllPositive(T[p])
  }

  /** The abstract effect of insert(Node, key, word, from) on the tables:
      the node at key[..from] is created when missing (with an empty table);
      at the end of the key the word is counted there, otherwise the insert
      goes on one character deeper. */
  function Grow(T: Tables, key: string, from: nat, word: string): Tables
    requires from <= |key|
    decreases |key| - from
  {
    var T1 := T[key[..from] := TableAt(T, key[..from])];
    if from == |key| then T1[key[..from] := Bump(T1[key[..from]], word)]
    else Grow(T1, key, from + 1, word)
  }

  /** A walk along `key` never meets a character above '9' at a node that
      exists (there it would index past the end of the link array). */
  ghost predicate SafeToWalk(T: Tables, key: string) {
    forall i | 0 <= i < |key| && key[..i] in T :: key[i] <= '9'
  }

  /** A node of the trie: its word table and its eight links. Neither field
      is ever reassigned; the table and the link array change in place. */
  class Node {
    const value: Value
    const next: array<Node?>

    /** new Node(): an empty table and no links. */
    constructor ()
      ensures fresh(value) && fresh(next) && value.counts == map[]
      ensures next.Length == Radix && forall i | 0 <= i < Radix :: next[i] == null
    {
      value := new Value();
      next := new Node?[Radix](_ => null);
    }
  }

  /** The node at path `p`, null when there is none. */
  ghost function NodeAt(N: map<string, Node>, p: string): Node? {
    if p in N then N[p] else null
  }

  /** The word tables and the link arrays of the nodes. */
  ghost function ValuesOf(N: map<string, Node>): set<Value> {
    set p | p in N :: N[p].value
  }

  ghost function ArraysOf(N: map<string, Node>): set<array<Node?>> {
    set p | p in N :: N[p].next
  }

  /** The objects of the nodes: the nodes, their tables and link arrays. */
  ghost function ObjectsOf(N: map<string, Node>): set<object> {
    N.Values + ValuesOf(N) + ArraysOf(N)
  }

  /** The node paths form a prefix-closed set of digit strings and all
      counts are positive. */
  ghost predicate Shape(T: Tables) {
    PrefixClosed(T) && KeysAreDigits(T) && CountsPositive(T)
  }

  /** Every node has eight links, and no two nodes share a node object, a
      table or a link array. */
  ghost predicate Separate(N: map<string, Node>) {
    && (forall p | p in N :: N[p].next.Length == Radix)
    && (forall p, q | p in N && q in N && p != q ::
          N[p] != N[q] && N[p].value != N[q].value && N[p].next != N[q].next)
  }

  /** The abstract tables are the tables of the nodes. */
  ghost predicate Holds(N: map<string, Node>, T: Tables)
    reads ValuesOf(N)
  {
    && N.Keys == T.Keys
    && forall p | p in N :: N[p].value.counts == T[p]
  }

  /** Link `i` of the node at `p` lies on the way to key[..d]: it is one of
      the links the recursive insert of `key` is still to set, at depth d. */
  predicate OnKey(key: string, d: nat, p: string, i: int) {
    |p| < d && |p| < |key| && p == key[..|p|] && 0 <= i < Radix && Digit(i) == key[|p|]
  }

  /** Every link leads to the node of the longer path (null when there is
      none), except the links on the way to key[..d]. */
  ghost predicate LinkedExcept(N: map<string, Node>, key: string, d: nat)
    reads ArraysOf(N)
  {
    forall p, i {:trigger N[p].next[i]} | p in N && 0 <= i < Radix && !OnKey(key, d, p, i) ::
      i < N[p].next.Length && N[p].next[i] == NodeAt(N, p + [Digit(i)])
  }

  /** The invariant of a trie while the insert of `key` is at depth d. */
  ghost predicate Inv(N: map<string, Node>, T: Tables, key: string, d: nat)
    reads ValuesOf(N), ArraysOf(N)
  {
    Shape(T) && Separate(N) && Holds(N, T) && LinkedExcept(N, key, d)
  }

  /** The node paths under `p` (p itself included). */
  ghost function Below(N: map<string, Node>, p: string): set<string> {
    set q | q in N && p <= q
  }

  /** The order of a pre-order walk whose links go '2' to '9': a path comes
      before its extensions, and before every path that branches off it with
      a larger digit. */
  ghost predicate LexLess(a: string, b: string) {
    || (|a| < |b| && a == b[..|a|])
    || (exists k | 0 <= k < |a| && k < |b| :: a[..k] == b[..k] && a[k] < b[k])
  }

  ghost predicate Ascending(paths: seq<string>) {
    forall j, k | 0 <= j < k < |paths| :: LexLess(paths[j], paths[k])
  }

  /** The concatenation of the parts, in order: ArrayList.addAll, part
      after part. */
  function Flatten(parts: seq<seq<string>>): (r: seq<string>)
    ensures parts == [] ==> r == []
  {
    if parts == [] then [] else parts[0] + Flatten(parts[1..])
  }

  /** `q` is a node path under `p` whose table holds a word. */
  ghost predicate Listed(T: Tables, p: string, q: string) {
    q in T && p <= q && T[q] != map[]
  }

  /** The words under `p` as a prefix listing: `paths` are the listed node
      paths under `p` in walk order, and `parts[j]` ranks the table at
      `paths[j]`. */
  ghost predicate Listing(T: Tables, p: string, paths: seq<string>, parts: seq<seq<string>>) {
    && |paths| == |parts|
    && Ascending(paths)
    && (forall q :: q in paths <==> Listed(T, p, q))
    && (forall j | 0 <= j < |paths| :: paths[j] in T && IsRanking(T[paths[j]], parts[j]))
  }

  /** The link slot below `p` on the way to `q`. */
  function SlotBelow(p: string, q: string): int
    requires |p| < |q|
  {
    q[|p|] as int - '2' as int
  }

  /** A listing of `p` itself and of its children in slots below `c`. */
  ghost predicate ListsUpTo(T: Tables, p: string, c: int, paths: seq<string>, parts: seq<seq<string>>) {
    && |paths| == |parts|
    && Ascending(paths)
    && (forall q :: q in paths <==> Listed(T, p, q) && (|q| == |p| || SlotBelow(p, q) < c))
    && (forall j | 0 <= j < |paths| :: paths[j] in T && IsRanking(T[paths[j]], parts[j]))
  }

  class RWayTrie {
    var root: Node?
    /** The node reached by each digit string. */
    ghost var Nodes: map<string, Node>
    ghost var Tables: Tables

    /** The trie and the objects of its nodes. */
    ghost var Repr: set<object>

    ghost predicate Valid()
      reads this, Repr
    {
      && this in Repr && ObjectsOf(Nodes) <= Repr
      && Inv(Nodes, Tables, [], 0) && root == NodeAt(Nodes, [])
    }

    /** A new trie has no root node. */
    constructor ()
      ensures Valid() && Tables == map[] && fresh(Repr)
    {
      root := null;
      Nodes := map[];
      Tables := map[];
      Repr := {this};
    }

    /** insert(key, value): the source's callers pass keys over '2'..'9';
        any other character indexes outside the link array. */
    method Insert(key: string, value: string)
      requires Valid() && IsKey(key)
      modifies Repr
      ensures Valid() && fresh(Repr - old(Repr))
      ensures Tables == Grow(old(Tables), key, 0, value)
    {
      assert key[..0] == [];
      root := InsertAt(root, key, value, 0);
      Repr := old(Repr) + ObjectsOf(Nodes);
      NothingPending(Nodes, key);
      FreshObjects(old(Nodes), Nodes);
    }

    /** insert(Node, key, value, idx): walk the links of key[idx..],
        creating the missing nodes, and count the word at the last one.
        The links on the way to key[..idx] are the callers' to set. */
    method InsertAt(node: Node?, key: string, word: string, idx: nat) returns (n: Node)
      requires IsKey(key) && idx <= |key|
      requires Inv(Nodes, Tables, key, idx)
      requires idx > 0 ==> key[..idx - 1] in Nodes
      requires node == NodeAt(Nodes, key[..idx])
      modifies this, ValuesOf(Nodes), ArraysOf(Nodes)
      ensures Inv(Nodes, Tables, key, idx) && root == old(root)
      ensures key[..idx] in Nodes && n == Nodes[key[..idx]]
      ensures Extends(old(Nodes), Nodes)
      ensures Tables == Grow(old(Tables), key, idx, word)
      decreases |key| - idx, 1
    {
      n := Materialize(node, key, idx);
      if idx == |key| {
        assert key[..idx] == key;
        CountAt(key, n, word);
        return;
      }
      Descend(n, key, word, idx);
    }

    /** The recursive step of insert(Node, …): insert below the link of
        key[idx] and store the returned node in that link. */
    method Descend(n: Node, key: string, word: string, idx: nat)
      requires IsKey(key) && idx < |key|
      requires Inv(Nodes, Tables, key, idx) && key[..idx] in Nodes && n == Nodes[key[..idx]]
      modifies this, ValuesOf(Nodes), ArraysOf(Nodes)
      ensures Inv(Nodes, Tables, key, idx) && root == old(root)
      ensures Extends(old(Nodes), Nodes)
      ensures Tables == Grow(old(Tables), key, idx + 1, word)
      decreases |key| - idx, 0
    {
      var actualIdx := ComputeActualIndex(key[idx]);
      assert key[..idx + 1] == key[..idx] + [Digit(actualIdx)];
      var child := InsertAt(n.next[actualIdx], key, word, idx + 1);
      SetLink(n, key, idx, actualIdx, child);
    }

    /** The first step of insert(Node, …): a missing node at key[..idx] is
        created with an empty table. */
    method Materialize(node: Node?, key: string, idx: nat) returns (n: Node)
      requires IsKey(key) && idx <= |key|
      requires Inv(Nodes, Tables, key, idx)
      requires idx > 0 ==> key[..idx - 1] in Nodes
      requires node == NodeAt(Nodes, key[..idx])
      modifies this
      ensures Inv(Nodes, Tables, key, idx) && root == old(root)
      ensures key[..idx] in Nodes && n == Nodes[key[..idx]]
      ensures Extends(old(Nodes), Nodes)
      ensures Tables == old(Tables)[key[..idx] := TableAt(old(Tables), key[..idx])]
    {
      if node == null {
        n := new Node();
        ghost var N, T := Nodes, Tables;
        Nodes := Nodes[key[..idx] := n];
        Tables := Tables[key[..idx] := map[]];
        AddNode(N, T, key, idx, n);
      } else {
        n := node;
      }
    }

    /** n.next[actualIdx] = child: the link from key[..idx] to its child
        on the key is set. */
    method SetLink(n: Node, key: string, idx: nat, c: int, child: Node)
      requires idx < |key| && key[..idx] in Nodes && n == Nodes[key[..idx]]
      requires 0 <= c < Radix && Digit(c) == key[idx]
      requires Separate(Nodes) && LinkedExcept(Nodes, key, idx + 1)
      requires child == NodeAt(Nodes, key[..idx] + [Digit(c)])
      modifies n.next
      ensures LinkedExcept(Nodes, key, idx)
    {
      n.next[c] := child;
      forall p, i | p in Nodes && 0 <= i < Radix && !OnKey(key, idx, p, i)
        ensures Nodes[p].next[i] == NodeAt(Nodes, p + [Digit(i)])
      {
        if p != key[..idx] || i != c {
          assert !OnKey(key, idx + 1, p, i);
          assert Nodes[p].next[i] == old(Nodes[p].next[i]);
        }
      }
    }

    /** The last step of insert(Node, …): count the word at the key's node. */
    method CountAt(key: string, n: Node, word: string)
      requires Inv(Nodes, Tables, key, |key|)
      requires key in Nodes && n == Nodes[key]
      modifies this, n.value
      ensures Inv(Nodes, Tables, key, |key|) && root == old(root) && Nodes == old(Nodes)
      ensures Tables == old(Tables)[key := Bump(old(Tables[key]), word)]
    {
      n.value.AddWord(word);
      Tables := Tables[key := n.value.counts];
    }

    /** retrieve(key): the ranked words stored under exactly `key`, None
        when there is no such node or its table is empty. */
    method Retrieve(key: string) returns (r: Option<seq<string>>)
      requires Valid() && SafeToWalk(Tables, key)
      ensures r.None? <==> Lookup(Tables, key).None?
      ensures r.Some? ==> IsRanking(Tables[key], r.value)
    {
      var ret := FindNode(root, key, 0);
      if ret == null {
        return None;
      }
      r := ret.value.GetSortedSetOfWords();
    }

    /** retrievePrefixMatches(key): the words stored under every node path
        that starts with `key`, node by node in pre-order (each node's own
        ranking, then its children's listings for the digits '2' to '9').
        An unknown prefix lists nothing. */
    method RetrievePrefixMatches(key: string) returns (r: seq<string>, ghost paths: seq<string>, ghost parts: seq<seq<string>>)
      requires Valid() && SafeToWalk(Tables, key)
      ensures r == Flatten(parts) && Listing(Tables, key, paths, parts)
      ensures forall w :: w in r <==> exists q :: q in Tables && key <= q && w in Tables[q]
    {
      var ret := FindNode(root, key, 0);
      assert key[..0] == [];
      r, paths, parts := Traverse(ret, key, []);
      forall w
        ensures w in r <==> exists q :: q in Tables && key <= q && w in Tables[q]
      {
        ListingWords(Tables, key, paths, parts, w);
      }
    }

    /** traverse(node, key, prefixMatches): append to the accumulated
        `acc` the listing of the subtree at path `p`. The accumulator is
        threaded through instead of shared. */
    method Traverse(node: Node?, ghost p: string, acc: seq<string>)
      returns (res: seq<string>, ghost paths: seq<string>, ghost parts: seq<seq<string>>)
      requires Valid() && node == NodeAt(Nodes, p)
      ensures res == acc + Flatten(parts) && Listing(Tables, p, paths, parts)
      decreases Below(Nodes, p)
    {
      if node == null {
        NothingBelow(Tables, p);
        return acc, [], [];
      }
      res, paths, parts := acc, [], [];
      var words := node.value.GetSortedSetOfWords();
      if words.Some? {
        res := res + words.value;
        paths, parts := [p], [words.value];
      }
      OwnListing(Tables, p, paths, parts);
      for c := 0 to Radix
        invariant res == acc + Flatten(parts)
        invariant ListsUpTo(Tables, p, c, paths, parts)
      {
        ghost var cp := p + [Digit(c)];
        assert Below(Nodes, cp) < Below(Nodes, p) by {
          assert p in Below(Nodes, p) && p !in Below(Nodes, cp);
        }
        var more, ps, qs := Traverse(node.next[c], cp, res);
        ListingStep(Tables, p, c, paths, parts, ps, qs);
        Accumulate(acc, parts, qs);
        res, paths, parts := more, paths + ps, parts + qs;
      }
      ListsAll(Tables, p, paths, parts);
    }

    /** retrieve(Node, key, idx): the node reached from the node at
        key[..idx] by the characters key[idx..], null when there is none. */
    function FindNode(node: Node?, key: string, idx: nat): (r: Node?)
      requires Valid() && idx <= |key| && SafeToWalk(Tables, key)
      requires node == NodeAt(Nodes, key[..idx])
      reads this, Repr
      ensures r == NodeAt(Nodes, key)
      decreases |key| - idx
    {
      if node == null then
        assert key[..|key|][..idx] == key[..idx];
        null
      else if idx == |key| then
        assert key[..idx] == key;
        node
      else
        var actualIdx := ComputeActualIndex(key[idx]);
        if actualIdx == -1 then
          assert !IsKeyDigit(key[idx]);
          null
        else
          assert key[..idx + 1] == key[..idx] + [Digit(actualIdx)];
          FindNode(node.next[actualIdx], key, idx + 1)
    }
  }

  /** Adding a fresh node at key[..idx] keeps the invariant. */
  lemma AddNode(N: map<string, Node>, T: Tables, key: string, idx: nat, n: Node)
    requires IsKey(key) && idx <= |key|
    requires Inv(N, T, key, idx) && key[..idx] !in N
    requires idx > 0 ==> key[..idx - 1] in N
    requires n !in N.Values && n.value !in ValuesOf(N) && n.next !in ArraysOf(N)
    requires n.value.counts == map[]
    requires n.next.Length == Radix && forall i | 0 <= i < Radix :: n.next[i] == null
    ensures Inv(N[key[..idx] := n], T[key[..idx] := map[]], key, idx)
  {
    var x := key[..idx];
    var N', T' := N[x := n], T[x := map[]];
    forall p, i | p in T' && 0 <= i <= |p|
      ensures p[..i] in T'
    {
      if p == x && i < idx {
        assert key[..idx - 1] in T;
        assert p[..i] == key[..idx - 1][..i];
        assert key[..idx - 1][..i] in T;
      } else if p != x {
        assert p in T;
        assert p[..i] in T;
      } else {
        assert p[..i] == x;
      }
    }
    forall i | 0 <= i < Radix
      ensures NodeAt(N', x + [Digit(i)]) == null
    {
      var c := x + [Digit(i)];
      assert c[..idx] == x && c != x;
    }
  }

  /** N1 keeps every node of N0, and the nodes it adds are new objects
      with new tables and new link arrays. */
  twostate predicate Extends(N0: map<string, Node>, new N1: map<string, Node>) {
    && (forall p | p in N0 :: p in N1 && N1[p] == N0[p])
    && (forall p | p in N1 && p !in N0 ::
          fresh(N1[p]) && fresh(N1[p].value) && fresh(N1[p].next))
  }

  /** Objects added by an extension were not allocated before it. */
  twostate lemma FreshObjects(N0: map<string, Node>, new N1: map<string, Node>)
    requires Extends(N0, N1)
    ensures fresh(ObjectsOf(N1) - ObjectsOf(N0))
  {
  }

  /** At depth 0 no link is pending. */
  lemma NothingPending(N: map<string, Node>, key: string)
    requires LinkedExcept(N, key, 0)
    ensures LinkedExcept(N, [], 0)
  {
  }

  /** insert(key, word) below depth `from` adds exactly the prefixes of
      `key` at least `from` long as nodes, counts `word` once more at `key`,
      and leaves every other table as it was. */
  lemma {:induction false} GrowSpec(T: Tables, key: string, from: nat, word: string)
    requires from <= |key|
    ensures forall p :: p in Grow(T, key, from, word) <==> p in T || (from <= |p| && p <= key)
    ensures Grow(T, key, from, word)[key] == Bump(TableAt(T, key), word)
    ensures forall p | p in Grow(T, key, from, word) && p != key ::
      Grow(T, key, from, word)[p] == TableAt(T, p)
    decreases |key| - from
  {
    var T1 := T[key[..from] := TableAt(T, key[..from])];
    if from == |key| {
      assert key[..from] == key;
      forall p | from <= |p| && p <= key
        ensures p == key
      {
      }
    } else {
      GrowSpec(T1, key, from + 1, word);
      forall p | from <= |p| && p <= key && |p| == from
        ensures p == key[..from]
      {
      }
    }
  }

  /** Inserting a key keeps the node paths prefix-closed digit strings and
      all counts positive. */
  lemma GrowPreservesShape(T: Tables, key: string, word: string)
    requires Shape(T) && IsKey(key)
    ensures Shape(Grow(T, key, 0, word))
  {
    var G := Grow(T, key, 0, word);
    GrowSpec(T, key, 0, word);
    forall p, i | p in G && 0 <= i <= |p|
      ensures p[..i] in G
    {
      if p !in T {
        assert p[..i] <= key;
      }
    }
    forall p | p in G
      ensures IsKey(p) && AllPositive(G[p])
    {
      if p !in T {
        assert p == key[..|p|];
      }
    }
  }

  lemma {:induction false} FlattenAppend(a: seq<seq<string>>, b: seq<seq<string>>)
    ensures Flatten(a + b) == Flatten(a) + Flatten(b)
    decreases |a|
  {
    if a == [] {
      assert a + b == b;
    } else {
      assert (a + b)[1..] == a[1..] + b;
      FlattenAppend(a[1..], b);
    }
  }

  /** Appending the listing of child `c` of `p` extends the listing of `p`
      and its children before `c` by that child. */
  lemma ListingStep(T: Tables, p: string, c: int, paths: seq<string>, parts: seq<seq<string>>,
                    ps: seq<string>, qs: seq<seq<string>>)
    requires 0 <= c < Radix
    requires ListsUpTo(T, p, c, paths, parts)
    requires Listing(T, p + [Digit(c)], ps, qs)
    ensures ListsUpTo(T, p, c + 1, paths + ps, parts + qs)
  {
    ChildComesAfter(T, p, c, paths, parts, ps, qs);
    AscendingAppend(paths, ps);
    ChildRegion(T, p, c, paths, parts, ps, qs);
    var P, Q := paths + ps, parts + qs;
    forall j | 0 <= j < |P|
      ensures P[j] in T && IsRanking(T[P[j]], Q[j])
    {
      if j >= |paths| {
        assert P[j] == ps[j - |paths|] && Q[j] == qs[j - |paths|];
      }
    }
  }

  /** Every path listed so far comes before every path under child `c`. */
  lemma ChildComesAfter(T: Tables, p: string, c: int, paths: seq<string>, parts: seq<seq<string>>,
                        ps: seq<string>, qs: seq<seq<string>>)
    requires 0 <= c < Radix
    requires ListsUpTo(T, p, c, paths, parts)
    requires Listing(T, p + [Digit(c)], ps, qs)
    ensures forall a, b | a in paths && b in ps :: LexLess(a, b)
  {
    var cp := p + [Digit(c)];
    forall a, b | a in paths && b in ps
      ensures LexLess(a, b)
    {
      assert Listed(T, cp, b);
      assert b[..|cp|] == cp;
      assert b[..|p|] == p;
      if |a| == |p| {
        assert a == p;
      } else {
        assert a[..|p|] == p;
        assert b[|p|] == Digit(c);
      }
    }
  }

  lemma AscendingAppend(a: seq<string>, b: seq<string>)
    requires Ascending(a) && Ascending(b)
    requires forall x, y | x in a && y in b :: LexLess(x, y)
    ensures Ascending(a + b)
  {
    var P := a + b;
    forall j, k | 0 <= j < k < |P|
      ensures LexLess(P[j], P[k])
    {
      if j >= |a| {
        assert P[j] == b[j - |a|] && P[k] == b[k - |a|];
      } else if k >= |a| {
        assert P[j] in a && P[k] == b[k - |a|];
      }
    }
  }

  /** The paths listed after child `c` are the listed paths of `p` itself
      and of its children up to `c`. */
  lemma ChildRegion(T: Tables, p: string, c: int, paths: seq<string>, parts: seq<seq<string>>,
                    ps: seq<string>, qs: seq<seq<string>>)
    requires 0 <= c < Radix
    requires ListsUpTo(T, p, c, paths, parts)
    requires Listing(T, p + [Digit(c)], ps, qs)
    ensures forall q :: q in paths + ps <==> Listed(T, p, q) && (|q| == |p| || SlotBelow(p, q) < c + 1)
  {
    forall q | Listed(T, p, q) && |q| > |p| && SlotBelow(p, q) == c
      ensures Listed(T, p + [Digit(c)], q)
    {
      ChildPrefix(p, c, q);
    }
    forall q | Listed(T, p + [Digit(c)], q)
      ensures Listed(T, p, q) && |q| > |p| && SlotBelow(p, q) == c
    {
      UnderChild(p, c, q);
    }
  }

  /** A path that leaves `p` through slot `c` extends p + [Digit(c)]. */
  lemma ChildPrefix(p: string, c: int, q: string)
    requires 0 <= c < Radix && p <= q && |q| > |p| && SlotBelow(p, q) == c
    ensures p + [Digit(c)] <= q
  {
    assert q[..|p| + 1] == q[..|p|] + [q[|p|]];
  }

  /** A path under p + [Digit(c)] is under `p` and leaves it through slot `c`. */
  lemma UnderChild(p: string, c: int, q: string)
    requires 0 <= c < Radix && p + [Digit(c)] <= q
    ensures p <= q && |q| > |p| && SlotBelow(p, q) == c
  {
    assert q[..|p| + 1] == p + [Digit(c)];
    assert q[..|p|] == q[..|p| + 1][..|p|];
  }

  /** With no node at `p`, nothing is listed under `p`. */
  lemma NothingBelow(T: Tables, p: string)
    requires PrefixClosed(T) && p !in T
    ensures Listing(T, p, [], [])
  {
    forall q | p <= q
      ensures q !in T
    {
      assert q[..|p|] == p;
    }
  }

  /** The node's own ranking (when its table is not empty) starts the
      listing of `p`. */
  lemma OwnListing(T: Tables, p: string, paths: seq<string>, parts: seq<seq<string>>)
    requires KeysAreDigits(T) && p in T
    requires T[p] == map[] ==> paths == [] && parts == []
    requires T[p] != map[] ==> paths == [p] && |parts| == 1 && IsRanking(T[p], parts[0])
    ensures ListsUpTo(T, p, 0, paths, parts)
  {
    forall q | Listed(T, p, q)
      ensures |q| == |p| <==> q == p
      ensures |q| > |p| ==> SlotBelow(p, q) >= 0
    {
      assert q[..|p|] == p;
      if |q| > |p| {
        assert IsKeyDigit(q[|p|]);
      }
    }
  }

  /** Appending a child's words to the accumulator appends its parts: the
      associativity step that keeps Traverse's own proof small. */
  lemma Accumulate(acc: seq<string>, parts: seq<seq<string>>, qs: seq<seq<string>>)
    ensures acc + Flatten(parts) + Flatten(qs) == acc + Flatten(parts + qs)
  {
    FlattenAppend(parts, qs);
  }

  /** Once every slot is done, the listing of `p` and its children is the
      listing of `p`. */
  lemma ListsAll(T: Tables, p: string, paths: seq<string>, parts: seq<seq<string>>)
    requires KeysAreDigits(T) && ListsUpTo(T, p, Radix, paths, parts)
    ensures Listing(T, p, paths, parts)
  {
    forall q | Listed(T, p, q) && |q| > |p|
      ensures SlotBelow(p, q) < Radix
    {
      assert IsKeyDigit(q[|p|]);
    }
  }
  /** After insert(key, word), retrieve(key) finds a table holding the
      word, counted once more than before. */
  lemma InsertThenRetrieve(T: Tables, key: string, word: string)
    ensures Lookup(Grow(T, key, 0, word), key).Some?
    ensures word in Lookup(Grow(T, key, 0, word), key).value
    ensures CountOf(Grow(T, key, 0, word)[key], word) == CountOf(TableAt(T, key), word) + 1
  {
    GrowSpec(T, key, 0, word);
  }

  /** insert(key, word) does not change what retrieve finds at any other
      key: the nodes it creates on the way have empty tables. */
  lemma InsertKeepsOtherKeys(T: Tables, key: string, word: string, other: string)
    requires other != key
    ensures Lookup(Grow(T, key, 0, word), other) == Lookup(T, other)
  {
    GrowSpec(T, key, 0, word);
  }

  /** The table at any path after insert(key, word): one more `word` at
      `key`, and everywhere else what was there before (a new node has an
      empty table). */
  lemma GrowTableAt(T: Tables, key: string, word: string, q: string)
    ensures TableAt(Grow(T, key, 0, word), q) ==
      if q == key then Bump(TableAt(T, key), word) else TableAt(T, q)
  {
    GrowSpec(T, key, 0, word);
  }

  /** A path with p as a prefix never comes before p. */
  lemma NotBeforePrefix(p: string, a: string)
    requires p <= a
    ensures !LexLess(a, p)
  {
    forall k | 0 <= k < |a| && k < |p| && a[..k] == p[..k]
      ensures a[k] == p[k]
    {
      assert a[k] == a[..|p|][k];
    }
  }

  /** When the node at `p` holds words, the prefix listing of `p` starts
      with a ranking of them: retrieve(p) comes first. */
  lemma ListingStartsWithRetrieve(T: Tables, p: string, paths: seq<string>, parts: seq<seq<string>>)
    requires Listing(T, p, paths, parts) && Lookup(T, p).Some?
    ensures |paths| > 0 && paths[0] == p && IsRanking(T[p], parts[0])
    ensures Flatten(parts) == parts[0] + Flatten(parts[1..])
  {
    assert Listed(T, p, p) && p in paths;
    assert Listed(T, p, paths[0]);
    NotBeforePrefix(p, paths[0]);
    forall j | 0 < j < |paths|
      ensures paths[j] != p
    {
      assert LexLess(paths[0], paths[j]);
    }
  }

  lemma {:induction false} FlattenMember(parts: seq<seq<string>>, w: string)
    ensures w in Flatten(parts) <==> exists j | 0 <= j < |parts| :: w in parts[j]
    decreases |parts|
  {
    if parts != [] {
      FlattenMember(parts[1..], w);
      if w in Flatten(parts[1..]) {
        var j :| 0 <= j < |parts[1..]| && w in parts[1..][j];
        assert w in parts[j + 1];
      }
      forall j | 1 <= j < |parts| && w in parts[j]
        ensures w in Flatten(parts[1..])
      {
        assert parts[1..][j - 1] == parts[j];
      }
    }
  }

  /** As a set, the prefix listing of `p` is the union of the tables of all
      node paths that start with `p`. */
  lemma ListingWords(T: Tables, p: string, paths: seq<string>, parts: seq<seq<string>>, w: string)
    requires Listing(T, p, paths, parts)
    ensures w in Flatten(parts) <==> exists q :: q in T && p <= q && w in T[q]
  {
    FlattenMember(parts, w);
    if w in Flatten(parts) {
      var j :| 0 <= j < |parts| && w in parts[j];
      assert paths[j] in paths;
    }
    if exists q :: q in T && p <= q && w in T[q] {
      var q :| q in T && p <= q && w in T[q];
      assert Listed(T, p, q);
      var j :| 0 <= j < |paths| && paths[j] == q;
      assert w in parts[j];
    }
  }
  /** No path comes before itself. */
  lemma LexLessIrreflexive(a: string)
    ensures !LexLess(a, a)
  {
  }

  /** No two paths come each before the other. */
  lemma LexLessAsymmetric(a: string, b: string)
    requires LexLess(a, b)
    ensures !LexLess(b, a)
  {
    if |a| < |b| && a == b[..|a|] {
      forall k | 0 <= k < |b| && k < |a|
        ensures b[k] == a[k]
      {
        assert a[k] == b[..|a|][k];
      }
    } else {
      var k :| 0 <= k < |a| && k < |b| && a[..k] == b[..k] && a[k] < b[k];
      forall k' | 0 <= k' < |b| && k' < |a|
        ensures b[..k'] == a[..k'] ==> b[k'] >= a[k']
      {
        if k' > k {
          assert b[..k'][k] == b[k] && a[..k'][k] == a[k];
        } else if k' < k {
          assert b[k'] == b[..k][k'] && a[k'] == a[..k][k'];
        }
      }
      if |b| < |a| {
        assert a[..|b|][k] == a[k];
      }
    }
  }

  /** A path list in walk order has no repetitions. */
  lemma AscendingDistinct(xs: seq<string>)
    requires Ascending(xs)
    ensures Distinct(xs)
  {
    forall j, k | 0 <= j < k < |xs|
      ensures xs[j] != xs[k]
    {
      LexLessIrreflexive(xs[j]);
    }
  }

  /** A set of paths has exactly one arrangement in walk order. */
  lemma {:induction false} AscendingUnique(xs: seq<string>, ys: seq<string>)
    requires Ascending(xs) && Ascending(ys)
    requires forall q :: q in xs <==> q in ys
    ensures xs == ys
    decreases |xs|
  {
    AscendingDistinct(xs);
    AscendingDistinct(ys);
    DistinctSize(xs);
    DistinctSize(ys);
    assert (set q | q in xs) == (set q | q in ys);
    if xs != [] {
      SameFirst(xs, ys);
      SameRest(xs, ys);
      AscendingUnique(xs[1..], ys[1..]);
      assert xs == [xs[0]] + xs[1..] && ys == [ys[0]] + ys[1..];
    }
  }

  /** Two walk-order lists of one set start with the same path. */
  lemma SameFirst(xs: seq<string>, ys: seq<string>)
    requires Ascending(xs) && Ascending(ys) && xs != [] && ys != []
    requires forall q :: q in xs <==> q in ys
    ensures xs[0] == ys[0]
  {
    assert xs[0] in ys && ys[0] in xs;
    var j :| 0 <= j < |ys| && ys[j] == xs[0];
    if j > 0 {
      assert LexLess(ys[0], xs[0]);
      LexLessAsymmetric(ys[0], xs[0]);
    }
    var i :| 0 <= i < |xs| && xs[i] == ys[0];
  }

  /** Dropping a common first element from two lists without repetitions
      leaves lists with the same members. */
  lemma SameRest(xs: seq<string>, ys: seq<string>)
    requires Distinct(xs) && Distinct(ys) && xs != [] && ys != [] && xs[0] == ys[0]
    requires forall q :: q in xs <==> q in ys
    ensures forall q :: q in xs[1..] <==> q in ys[1..]
  {
    forall q
      ensures q in xs[1..] <==> q in ys[1..]
    {
      if q in xs[1..] {
        var a :| 0 <= a < |xs| - 1 && xs[1..][a] == q;
        assert q in ys && q != ys[0];
        var b :| 0 <= b < |ys| && ys[b] == q;
        assert ys[1..][b - 1] == q;
      }
      if q in ys[1..] {
        var b :| 0 <= b < |ys| - 1 && ys[1..][b] == q;
        assert q in xs && q != xs[0];
        var a :| 0 <= a < |xs| && xs[a] == q;
        assert xs[1..][a - 1] == q;
      }
    }
  }

  /** The prefix listing is determined up to the order of equal-count words
      inside each node's ranking: any two listings of one prefix visit the
      same node paths in the same order and rank the same tables. */
  lemma ListingsAgree(T: Tables, p: string, paths1: seq<string>, parts1: seq<seq<string>>,
                      paths2: seq<string>, parts2: seq<seq<string>>)
    requires Listing(T, p, paths1, parts1) && Listing(T, p, paths2, parts2)
    ensures paths1 == paths2 && |parts1| == |parts2|
    ensures forall j | 0 <= j < |parts1| :: multiset(parts1[j]) == multiset(parts2[j])
  {
    AscendingUnique(paths1, paths2);
    forall j | 0 <= j < |parts1|
      ensures multiset(parts1[j]) == multiset(parts2[j])
    {
      RankingsAgree(T[paths1[j]], parts1[j], parts2[j]);
    }
  }

  /** The trie after inserting "cat" twice and "cap" once. */
  function CatCapTables(): Tables {
    map["" := map[], "2" := map[], "22" := map[],
        "227" := map["cap" := 1], "228" := map["cat" := 2]]
  }

  lemma CatCapInserts()
    ensures Grow(Grow(Grow(map[], "228", 0, "cat"), "228", 0, "cat"), "227", 0, "cap") == CatCapTables()
  {
    CatInsert();
    CatAgain();
    CapInsert();
  }

  lemma CatInsert()
    ensures Grow(map[], "228", 0, "cat") == map["" := map[], "2" := map[], "22" := map[], "228" := map["cat" := 1]]
  {
    assert "228"[..0] == "" && "228"[..1] == "2" && "228"[..2] == "22" && "228"[..3] == "228";
  }

  /** An intermediate node exists but holds no words, so retrieve finds
      nothing there: after insert("228", "cat"), retrieve("22") is null. */
  lemma IntermediateNodeFindsNothing()
    ensures "22" in Grow(map[], "228", 0, "cat")
    ensures Lookup(Grow(map[], "228", 0, "cat"), "22").None?
  {
    CatInsert();
  }

  lemma CatAgain()
    ensures Grow(map["" := map[], "2" := map[], "22" := map[], "228" := map["cat" := 1]], "228", 0, "cat")
         == map["" := map[], "2" := map[], "22" := map[], "228" := map["cat" := 2]]
  {
    assert "228"[..0] == "" && "228"[..1] == "2" && "228"[..2] == "22" && "228"[..3] == "228";
    assert Bump(map["cat" := 1], "cat") == map["cat" := 2];
  }

  lemma CapInsert()
    ensures Grow(map["" := map[], "2" := map[], "22" := map[], "228" := map["cat" := 2]], "227", 0, "cap")
         == CatCapTables()
  {
    assert "227"[..0] == "" && "227"[..1] == "2" && "227"[..2] == "22" && "227"[..3] == "227";
  }

  /** The prefix listing concatenates node rankings instead of ranking all
      words together: "cap" (count 1, under 227) is listed before "cat"
      (count 2, under 228), since slot 5 is walked before slot 6. */
  lemma CatCapPrefixListing(paths: seq<string>, parts: seq<seq<string>>)
    requires Listing(CatCapTables(), "22", paths, parts)
    ensures Flatten(parts) == ["cap", "cat"]
  {
    CatCapPaths(paths, parts);
    SingleRanking("cap", 1, parts[0]);
    SingleRanking("cat", 2, parts[1]);
    assert parts == [["cap"], ["cat"]];
  }

  /** The node paths listed under "22" are 227 and then 228. */
  lemma CatCapPaths(paths: seq<string>, parts: seq<seq<string>>)
    requires Listing(CatCapTables(), "22", paths, parts)
    ensures paths == ["227", "228"]
    ensures IsRanking(map["cap" := 1], parts[0]) && IsRanking(map["cat" := 2], parts[1])
  {
    CatCapListed();
    assert "227" in paths && "228" in paths;
    forall j, k | 0 <= j < k < |paths|
      ensures paths[j] != paths[k]
    {
      LexLessIrreflexive(paths[j]);
    }
    assert Distinct(paths);
    DistinctSize(paths);
    SubsetSize(set w | w in paths, {"227", "228"});
    assert paths[0] in paths && paths[1] in paths;
    assert !LexLess("228", "227") by {
      forall k | 0 <= k < 3 && "228"[..k] == "227"[..k]
        ensures "228"[k] >= "227"[k]
      {
      }
    }
  }

  /** Under "22" only 227 and 228 hold words. */
  lemma CatCapListed()
    ensures forall q :: Listed(CatCapTables(), "22", q) <==> q == "227" || q == "228"
  {
    var T := CatCapTables();
    assert "22" <= "227" && "22" <= "228" && !("22" <= "2") && !("22" <= "");
    assert T.Keys == {"", "2", "22", "227", "228"};
    forall q | Listed(T, "22", q)
      ensures q == "227" || q == "228"
    {
      assert q in T.Keys;
    }
    assert "cap" in T["227"] && "cat" in T["228"];
  }

  /** A table of one word has one ranking. */
  lemma SingleRanking(w: string, n: int, r: seq<string>)
    requires IsRanking(map[w := n], r)
    ensures r == [w]
  {
    RankingLength(map[w := n], r);
    assert r[0] in map[w := n];
  }
}
