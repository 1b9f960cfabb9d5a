/** The autocomplete trie of TextEditorDSProject.java (TrieNode, Autocomplete).

    Each Java TrieNode owns an array of 28 child references. Here the nodes
    live in one sequence (an arena) and a child reference is the index of the
    child in that sequence, NoChild standing for null; node 0 is the root.
    A child is always allocated after its parent, so its index is larger.

    The ghost field Words is the set of words the trie holds; Paths gives,
    for every node, the string spelled by the edges from the root to it. */
module Trie {
  import opened Chars
  import opened Containers

  /** Number of children per node: 'a'..'z', space and apostrophe. */
  const Width: nat := 28

  /** A null child reference. */
  const NoChild: int := -1

  // ---------- The alphabet ----------

  /** idxOf: the child slot of a character, or -1 outside the alphabet. */
  function IdxOf(ch: char): (r: int)
    ensures -1 <= r < Width
    ensures r >= 0 <==> 'a' <= ch <= 'z' || ch == ' ' || ch == '\''
  {
    if 'a' <= ch <= 'z' then ch as int - 'a' as int
    else if ch == ' ' then 26
    else if ch == '\'' then 27
    else -1
  }

  /** The character of child slot i, as collectWords appends it. */
  function SymOf(i: int): (r: char)
    requires 0 <= i < Width
    ensures IdxOf(r) == i
  {
    if i < 26 then ('a' as int + i) as char else if i == 26 then ' ' else '\''
  }

  /** Every character of the alphabet is the character of its own slot. */
  lemma SymOfIdxOf(ch: char)
    requires IdxOf(ch) >= 0
    ensures SymOf(IdxOf(ch)) == ch
  {
  }

  predicate InAlphabet(ch: char) {
    IdxOf(ch) >= 0
  }

  /** The characters addWord keeps: those inside the alphabet, in order. */
  function Filter(s: string): (r: string)
    ensures |r| <= |s|
    ensures forall i :: 0 <= i < |r| ==> InAlphabet(r[i])
    ensures (forall i :: 0 <= i < |s| ==> InAlphabet(s[i])) ==> r == s
  {
    if s == [] then []
    else
      var last := s[|s| - 1];
      assert s == s[..|s| - 1] + [last];
      Filter(s[..|s| - 1]) + (if InAlphabet(last) then [last] else [])
  }

  // ---------- Nodes ----------

  datatype TrieNode = TrieNode(child: seq<int>, isWord: bool)

  /** new TrieNode(): no children, not the end of a word. */
  function EmptyNode(): (r: TrieNode)
    ensures |r.child| == Width && !r.isWord
    ensures forall c :: 0 <= c < Width ==> r.child[c] == NoChild
  {
    TrieNode(seq(Width, _ => NoChild), false)
  }

  /** Every node has 28 slots, and every child comes later in the arena. */
  ghost predicate WellFormed(nodes: seq<TrieNode>) {
    |nodes| > 0 &&
    (forall j :: 0 <= j < |nodes| ==> |nodes[j].child| == Width) &&
    (forall j, c {:trigger nodes[j].child[c]} :: 0 <= j < |nodes| && 0 <= c < Width ==>
      nodes[j].child[c] == NoChild || j < nodes[j].child[c] < |nodes|)
  }

  /** The node reached from node i by following the characters of s, or
      NoChild when a character is outside the alphabet or has no child. */
  function Find(nodes: seq<TrieNode>, i: int, s: string): (r: int)
    requires WellFormed(nodes) && 0 <= i < |nodes|
    ensures r == NoChild || 0 <= r < |nodes|
    decreases |s|
  {
    if s == [] then i
    else
      var id := IdxOf(s[0]);
      if id < 0 || nodes[i].child[id] == NoChild then NoChild
      else Find(nodes, nodes[i].child[id], s[1..])
  }

  /** w is a word of the trie: its path exists and ends at a word node. */
  ghost predicate IsWordIn(nodes: seq<TrieNode>, w: string)
    requires WellFormed(nodes)
  {
    var j := Find(nodes, 0, w);
    j != NoChild && nodes[j].isWord
  }

  /** p prepended to every string of ws. */
  function Prefixed(p: string, ws: seq<string>): (r: seq<string>)
    ensures |r| == |ws|
  {
    seq(|ws|, i requires 0 <= i < |ws| => p + ws[i])
  }

  /** The first n strings of ws (none when n <= 0, all when n >= |ws|). */
  function Take(ws: seq<string>, n: int): (r: seq<string>)
    ensures |r| == if n <= 0 then 0 else if n < |ws| then n else |ws|
  {
    if n <= 0 then [] else if n >= |ws| then ws else ws[..n]
  }

  /** The suffixes of the words below node i, in the order of collectWords'
      depth-first traversal: the node's own word first, then its children
      by slot. */
  function Enum(nodes: seq<TrieNode>, i: int): (r: seq<string>)
    requires WellFormed(nodes) && 0 <= i < |nodes|
    ensures nodes[i].isWord <==> (r != [] && r[0] == [])
    decreases |nodes| - i, Width + 1
  {
    (if nodes[i].isWord then [[]] else []) + EnumFrom(nodes, i, 0)
  }

  /** The suffixes below children lo..27 of node i, each starting with the
      character of its slot. */
  function EnumFrom(nodes: seq<TrieNode>, i: int, lo: int): (r: seq<string>)
    requires WellFormed(nodes) && 0 <= i < |nodes| && 0 <= lo <= Width
    ensures forall j :: 0 <= j < |r| ==> r[j] != []
    decreases |nodes| - i, Width - lo
  {
    if lo == Width then []
    else
      var c := nodes[i].child[lo];
      (if c == NoChild then [] else Prefixed([SymOf(lo)], Enum(nodes, c))) + EnumFrom(nodes, i, lo + 1)
  }

  /** No word lies below a node whose child slots lo..27 are all null. */
  lemma {:induction false} EnumFromEmpty(nodes: seq<TrieNode>, i: int, lo: int)
    requires WellFormed(nodes) && 0 <= i < |nodes| && 0 <= lo <= Width
    requires forall c :: lo <= c < Width ==> nodes[i].child[c] == NoChild
    ensures EnumFrom(nodes, i, lo) == []
    decreases Width - lo
  {
    if lo < Width {
      EnumFromEmpty(nodes, i, lo + 1);
    }
  }

  /** A node as new TrieNode() makes it holds no words. */
  lemma EmptyNodeHoldsNothing(nodes: seq<TrieNode>, i: int)
    requires WellFormed(nodes) && 0 <= i < |nodes| && nodes[i] == EmptyNode()
    ensures Enum(nodes, i) == []
  {
    EnumFromEmpty(nodes, i, 0);
  }

  // ---------- Paths and words ----------

  /** Every edge extends its parent's path by the character of its slot. */
  ghost predicate Shape(nodes: seq<TrieNode>, paths: seq<string>) {
    WellFormed(nodes) && |paths| == |nodes| && paths[0] == [] &&
    forall j, c {:trigger nodes[j].child[c]} :: 0 <= j < |nodes| && 0 <= c < Width && nodes[j].child[c] != NoChild ==>
      paths[nodes[j].child[c]] == paths[j] + [SymOf(c)]
  }

  /** Every word node spells a word of words. */
  ghost predicate FlagsIn(nodes: seq<TrieNode>, paths: seq<string>, words: set<string>)
    requires |paths| == |nodes|
  {
    forall j :: 0 <= j < |nodes| && nodes[j].isWord ==> paths[j] in words
  }

  /** Every word of words is found in the trie. */
  ghost predicate AllFound(nodes: seq<TrieNode>, words: set<string>)
    requires WellFormed(nodes)
  {
    forall w :: w in words ==> IsWordIn(nodes, w)
  }

  ghost predicate TrieInv(nodes: seq<TrieNode>, paths: seq<string>, words: set<string>) {
    Shape(nodes, paths) && FlagsIn(nodes, paths, words) && AllFound(nodes, words)
  }

  /** nodes' is nodes grown: nodes appended, children added, words marked. */
  ghost predicate Extends(nodes: seq<TrieNode>, nodes': seq<TrieNode>)
    requires WellFormed(nodes) && WellFormed(nodes')
  {
    |nodes| <= |nodes'| &&
    (forall j, c {:trigger nodes[j].child[c]} :: 0 <= j < |nodes| && 0 <= c < Width && nodes[j].child[c] != NoChild ==>
      nodes'[j].child[c] == nodes[j].child[c]) &&
    (forall j :: 0 <= j < |nodes| && nodes[j].isWord ==> nodes'[j].isWord)
  }

  // ---------- Structural lemmas ----------

  /** Following p and then q is following p + q. */
  lemma {:induction false} FindAppend(nodes: seq<TrieNode>, i: int, p: string, q: string)
    requires WellFormed(nodes) && 0 <= i < |nodes|
    ensures Find(nodes, i, p + q) ==
      if Find(nodes, i, p) == NoChild then NoChild else Find(nodes, Find(nodes, i, p), q)
    decreases |p|
  {
    if p == [] {
      assert p + q == q;
    } else {
      assert (p + q)[0] == p[0] && (p + q)[1..] == p[1..] + q;
      var id := IdxOf(p[0]);
      if id >= 0 && nodes[i].child[id] != NoChild {
        FindAppend(nodes, nodes[i].child[id], p[1..], q);
      }
    }
  }

  /** The node found from i by s spells paths[i] + s. */
  lemma {:induction false} FindPath(nodes: seq<TrieNode>, paths: seq<string>, i: int, s: string)
    requires Shape(nodes, paths) && 0 <= i < |nodes| && Find(nodes, i, s) != NoChild
    ensures paths[Find(nodes, i, s)] == paths[i] + s
    decreases |s|
  {
    if s != [] {
      var id := IdxOf(s[0]);
      SymOfIdxOf(s[0]);
      FindPath(nodes, paths, nodes[i].child[id], s[1..]);
      assert s == [s[0]] + s[1..];
    }
  }

  /** suggest's descent, one character at a time: a step that fails means
      the whole string leads nowhere. */
  lemma FindPrefixStep(nodes: seq<TrieNode>, s: string, i: int)
    requires WellFormed(nodes) && 0 <= i < |s| && Find(nodes, 0, s[..i]) != NoChild
    ensures var cur, id := Find(nodes, 0, s[..i]), IdxOf(s[i]);
      Find(nodes, 0, s[..i + 1]) == if id < 0 || nodes[cur].child[id] == NoChild then NoChild else nodes[cur].child[id]
    ensures Find(nodes, 0, s[..i + 1]) == NoChild ==> Find(nodes, 0, s) == NoChild
  {
    assert s[..i + 1] == s[..i] + [s[i]];
    assert s == s[..i + 1] + s[i + 1..];
    FindAppend(nodes, 0, s[..i], [s[i]]);
    FindAppend(nodes, 0, s[..i + 1], s[i + 1..]);
  }

  /** Growing the trie keeps every path that already existed. */
  lemma {:induction false} FindExtends(nodes: seq<TrieNode>, nodes': seq<TrieNode>, i: int, s: string)
    requires WellFormed(nodes) && WellFormed(nodes') && Extends(nodes, nodes')
    requires 0 <= i < |nodes| && Find(nodes, i, s) != NoChild
    ensures Find(nodes', i, s) == Find(nodes, i, s)
    decreases |s|
  {
    if s != [] {
      FindExtends(nodes, nodes', nodes[i].child[IdxOf(s[0])], s[1..]);
    }
  }

  lemma ExtendsTrans(a: seq<TrieNode>, b: seq<TrieNode>, c: seq<TrieNode>)
    requires WellFormed(a) && WellFormed(b) && WellFormed(c)
    requires Extends(a, b) && Extends(b, c)
    ensures Extends(a, c)
  {
  }

  /** cur.child[id] = new TrieNode(): appending the new node keeps the
      shape and the word flags. */
  lemma AddChildKeeps(nodes: seq<TrieNode>, paths: seq<string>, words: set<string>, cur: int, id: int,
                      nodes': seq<TrieNode>, paths': seq<string>)
    requires Shape(nodes, paths) && FlagsIn(nodes, paths, words)
    requires 0 <= cur < |nodes| && 0 <= id < Width && nodes[cur].child[id] == NoChild
    requires nodes' == nodes[cur := nodes[cur].(child := nodes[cur].child[id := |nodes|])] + [EmptyNode()]
    requires paths' == paths + [paths[cur] + [SymOf(id)]]
    ensures Shape(nodes', paths') && FlagsIn(nodes', paths', words)
    ensures Extends(nodes, nodes') && nodes'[cur].child[id] == |nodes|
  {
    assert forall j :: 0 <= j < |nodes| ==> |nodes'[j].child| == Width;
    forall j, c | 0 <= j < |nodes'| && 0 <= c < Width
      ensures nodes'[j].child[c] == NoChild || j < nodes'[j].child[c] < |nodes'|
    {
      if j < |nodes| && !(j == cur && c == id) {
        assert nodes'[j].child[c] == nodes[j].child[c];
      }
    }
    forall j, c | 0 <= j < |nodes'| && 0 <= c < Width && nodes'[j].child[c] != NoChild
      ensures paths'[nodes'[j].child[c]] == paths'[j] + [SymOf(c)]
    {
      if j < |nodes| && !(j == cur && c == id) {
        assert nodes'[j].child[c] == nodes[j].child[c];
      }
    }
  }

  /** Setting the word flag of node cur keeps the edges and adds the word
      cur spells. */
  lemma MarkShape(nodes: seq<TrieNode>, paths: seq<string>, words: set<string>, cur: int, nodes': seq<TrieNode>)
    requires Shape(nodes, paths) && FlagsIn(nodes, paths, words) && 0 <= cur < |nodes|
    requires nodes' == nodes[cur := nodes[cur].(isWord := true)]
    ensures Shape(nodes', paths) && FlagsIn(nodes', paths, words + {paths[cur]}) && Extends(nodes, nodes')
  {
    assert forall j, c {:trigger nodes'[j].child[c]} :: 0 <= j < |nodes| && 0 <= c < Width ==>
      nodes'[j].child[c] == nodes[j].child[c];
  }

  /** cur.isWord = true at the end of addWord, where cur spells f. */
  lemma MarkWordKeeps(nodes0: seq<TrieNode>, nodes: seq<TrieNode>, paths: seq<string>, words: set<string>,
                      f: string, nodes': seq<TrieNode>)
    requires WellFormed(nodes0) && AllFound(nodes0, words)
    requires Shape(nodes, paths) && FlagsIn(nodes, paths, words) && Extends(nodes0, nodes)
    requires Find(nodes, 0, f) != NoChild
    requires nodes' == nodes[Find(nodes, 0, f) := nodes[Find(nodes, 0, f)].(isWord := true)]
    ensures TrieInv(nodes', paths, words + {f})
  {
    var cur := Find(nodes, 0, f);
    FindPath(nodes, paths, 0, f);
    assert paths[cur] == f;
    MarkShape(nodes, paths, words, cur, nodes');
    ExtendsTrans(nodes0, nodes, nodes');
    forall w | w in words + {f} ensures IsWordIn(nodes', w) {
      if w == f {
        FindExtends(nodes, nodes', 0, f);
      } else {
        FindExtends(nodes0, nodes', 0, w);
      }
    }
  }

  /** The state of addWord's descent: cur is the node spelling f, in a trie
      grown from nodes0 whose shape and word flags are intact. */
  ghost predicate Descending(nodes0: seq<TrieNode>, nodes: seq<TrieNode>, paths: seq<string>, words: set<string>,
                             f: string, cur: int) {
    WellFormed(nodes0) && Shape(nodes, paths) && FlagsIn(nodes, paths, words) && Extends(nodes0, nodes) &&
    0 <= cur < |nodes| && cur == Find(nodes, 0, f)
  }

  /** One character of addWord's descent, creating the child when missing. */
  lemma DescendStep(nodes0: seq<TrieNode>, nodes: seq<TrieNode>, paths: seq<string>, words: set<string>,
                    f: string, cur: int, ch: char, nodes': seq<TrieNode>, paths': seq<string>, cur': int)
    requires Descending(nodes0, nodes, paths, words, f, cur) && InAlphabet(ch)
    requires var id := IdxOf(ch);
      if nodes[cur].child[id] == NoChild then
        nodes' == nodes[cur := nodes[cur].(child := nodes[cur].child[id := |nodes|])] + [EmptyNode()] &&
        paths' == paths + [paths[cur] + [SymOf(id)]]
      else nodes' == nodes && paths' == paths
    requires 0 <= cur < |nodes'| && cur' == nodes'[cur].child[IdxOf(ch)]
    ensures Descending(nodes0, nodes', paths', words, f + [ch], cur')
  {
    var id := IdxOf(ch);
    if nodes[cur].child[id] == NoChild {
      AddChildKeeps(nodes, paths, words, cur, id, nodes', paths');
      FindExtends(nodes, nodes', 0, f);
      ExtendsTrans(nodes0, nodes, nodes');
    }
    FindAppend(nodes', 0, f, [ch]);
  }

  lemma FilterSnoc(s: string, i: int)
    requires 0 <= i < |s|
    ensures Filter(s[..i + 1]) == Filter(s[..i]) + if InAlphabet(s[i]) then [s[i]] else []
  {
    assert s[..i + 1][..i] == s[..i];
  }

  // ---------- Suggestion lists ----------

  /** What suggest returns: nothing when the lower-cased prefix leaves the
      trie, otherwise the first k words below its node, in traversal order,
      each spelled with the prefix as passed (not lower-cased). */
  function SuggestSpec(nodes: seq<TrieNode>, prefix: string, k: int): (r: seq<string>)
    requires WellFormed(nodes)
    ensures |r| <= if k <= 0 then 0 else k
  {
    var j := Find(nodes, 0, Lower(prefix));
    if j == NoChild then [] else Take(Prefixed(prefix, Enum(nodes, j)), k)
  }

  lemma PrefixedAppend(p: string, a: seq<string>, b: seq<string>)
    ensures Prefixed(p, a + b) == Prefixed(p, a) + Prefixed(p, b)
  {
    assert forall i :: 0 <= i < |a + b| ==> Prefixed(p, a + b)[i] == (Prefixed(p, a) + Prefixed(p, b))[i];
  }

  lemma PrefixedTwice(p: string, q: string, ws: seq<string>)
    ensures Prefixed(p, Prefixed(q, ws)) == Prefixed(p + q, ws)
  {
    assert forall i :: 0 <= i < |ws| ==> p + (q + ws[i]) == (p + q) + ws[i];
  }

  lemma TakeAppend(a: seq<string>, b: seq<string>, n: int)
    ensures Take(a + b, n) == Take(a, n) + Take(b, n - |Take(a, n)|)
  {
    if 0 < n < |a| {
      assert (a + b)[..n] == a[..n];
    }
  }

  /** One child visit of collectWords: once the words below a child whose
      suffixes are [x] + e[j] have been added, what remains to be added is
      the rest of the traversal. */
  lemma CollectStep(prefix: string, x: char, e: seq<string>, rest: seq<string>, done: seq<string>, k: int)
    ensures
      var sub := Take(Prefixed(prefix + [x], e), k - |done|);
      done + Take(Prefixed(prefix, Prefixed([x], e) + rest), k - |done|) ==
      (done + sub) + Take(Prefixed(prefix, rest), k - |done + sub|)
  {
    PrefixedAppend(prefix, Prefixed([x], e), rest);
    PrefixedTwice(prefix, [x], e);
    TakeAppend(Prefixed(prefix + [x], e), Prefixed(prefix, rest), k - |done|);
  }

  /** A child visit followed by the rest of the loop: done' holds what the
      child added, and the loop goes on only while fewer than k are held. */
  lemma ChildVisit(prefix: string, x: char, e: seq<string>, rest: seq<string>,
                   done: seq<string>, done': seq<string>, k: int, after: seq<string>)
    requires done' == done + Take(Prefixed(prefix + [x], e), k - |done|)
    requires |done'| < k ==> after == done' + Take(Prefixed(prefix, rest), k - |done'|)
    requires |done'| >= k ==> after == done'
    ensures after == done + Take(Prefixed(prefix, Prefixed([x], e) + rest), k - |done|)
  {
    CollectStep(prefix, x, e, rest, done, k);
    if |done'| >= k {
      assert Take(Prefixed(prefix, rest), k - |done'|) == [];
    }
  }

  /** What collectWords leaves in a list that holds done: nothing is added
      once the list holds k strings; otherwise node's own word, then the
      children in slot order, stopping as soon as k strings are held. */
  function Collected(nodes: seq<TrieNode>, node: int, prefix: string, done: seq<string>, k: int): seq<string>
    requires WellFormed(nodes) && 0 <= node < |nodes|
    decreases |nodes| - node, Width + 1
  {
    if |done| >= k then done
    else Visit(nodes, node, prefix, 0, if nodes[node].isWord then done + [prefix] else done, k)
  }

  /** collectWords' loop over child slots lo..27 of node. */
  function Visit(nodes: seq<TrieNode>, node: int, prefix: string, lo: int, done: seq<string>, k: int): seq<string>
    requires WellFormed(nodes) && 0 <= node < |nodes| && 0 <= lo <= Width
    decreases |nodes| - node, Width - lo
  {
    if lo == Width then done
    else
      var c := nodes[node].child[lo];
      if c == NoChild then Visit(nodes, node, prefix, lo + 1, done, k)
      else
        var done' := Collected(nodes, c, prefix + [SymOf(lo)], done, k);
        if |done'| >= k then done' else Visit(nodes, node, prefix, lo + 1, done', k)
  }

  /** collectWords appends the first k - |done| words of the depth-first
      traversal below node, each spelled with prefix. */
  lemma {:induction false} CollectedIsTraversal(nodes: seq<TrieNode>, node: int, prefix: string, done: seq<string>, k: int)
    requires WellFormed(nodes) && 0 <= node < |nodes|
    ensures Collected(nodes, node, prefix, done, k) == done + Take(Prefixed(prefix, Enum(nodes, node)), k - |done|)
    decreases |nodes| - node, Width + 1
  {
    if |done| < k {
      var rest := EnumFrom(nodes, node, 0);
      var d := if nodes[node].isWord then done + [prefix] else done;
      assert Enum(nodes, node) == (if nodes[node].isWord then [[]] else []) + rest;
      HeadStep(prefix, nodes[node].isWord, rest, done, k);
      VisitIsTraversal(nodes, node, prefix, 0, d, k);
    }
  }

  /** collectWords adds the node's own word (spelled prefix) before the rest. */
  lemma HeadStep(prefix: string, isWord: bool, rest: seq<string>, done: seq<string>, k: int)
    requires |done| < k
    ensures var d := if isWord then done + [prefix] else done;
      done + Take(Prefixed(prefix, (if isWord then [[]] else []) + rest), k - |done|) ==
      d + Take(Prefixed(prefix, rest), k - |d|)
  {
    if isWord {
      PrefixedCons(prefix, [], rest);
      assert prefix + [] == prefix;
      TakeCons(prefix, Prefixed(prefix, rest), k - |done|);
      assert done + ([prefix] + Take(Prefixed(prefix, rest), k - |done| - 1)) ==
        (done + [prefix]) + Take(Prefixed(prefix, rest), k - |done| - 1);
    } else {
      assert [] + rest == rest;
    }
  }

  lemma PrefixedCons(p: string, x: string, ws: seq<string>)
    ensures Prefixed(p, [x] + ws) == [p + x] + Prefixed(p, ws)
  {
    assert forall i :: 0 <= i < |ws| ==> ([x] + ws)[i + 1] == ws[i];
  }

  /** Entry j of the first n of Prefixed(p, ws) is p + ws[j]. */
  lemma TakePrefixedAt(p: string, ws: seq<string>, n: int, j: int)
    requires 0 <= j < |Take(Prefixed(p, ws), n)|
    ensures j < |ws| && Take(Prefixed(p, ws), n)[j] == p + ws[j]
  {
  }

  lemma TakeCons(x: string, ws: seq<string>, n: int)
    requires n > 0
    ensures Take([x] + ws, n) == [x] + Take(ws, n - 1)
  {
    if n - 1 < |ws| {
      assert ([x] + ws)[..n] == [x] + ws[..n - 1];
    }
  }

  lemma {:induction false} VisitIsTraversal(nodes: seq<TrieNode>, node: int, prefix: string, lo: int, done: seq<string>, k: int)
    requires WellFormed(nodes) && 0 <= node < |nodes| && 0 <= lo <= Width
    ensures Visit(nodes, node, prefix, lo, done, k) == done + Take(Prefixed(prefix, EnumFrom(nodes, node, lo)), k - |done|)
    decreases |nodes| - node, Width - lo
  {
    if lo < Width {
      var c := nodes[node].child[lo];
      if c == NoChild {
        VisitIsTraversal(nodes, node, prefix, lo + 1, done, k);
        assert [] + EnumFrom(nodes, node, lo + 1) == EnumFrom(nodes, node, lo + 1);
      } else {
        var x := SymOf(lo);
        var done' := Collected(nodes, c, prefix + [x], done, k);
        CollectedIsTraversal(nodes, c, prefix + [x], done, k);
        if |done'| < k {
          VisitIsTraversal(nodes, node, prefix, lo + 1, done', k);
        }
        ChildVisit(prefix, x, Enum(nodes, c), EnumFrom(nodes, node, lo + 1), done, done', k,
                   Visit(nodes, node, prefix, lo, done, k));
        assert EnumFrom(nodes, node, lo) == Prefixed([x], Enum(nodes, c)) + EnumFrom(nodes, node, lo + 1);
      }
    }
  }

  // ---------- Autocomplete ----------

  class Autocomplete {
    var nodes: seq<TrieNode>
    ghost var Words: set<string>
    ghost var Paths: seq<string>

    ghost predicate Valid()
      reads this
    {
      TrieInv(nodes, Paths, Words)
    }

    /** A trie holding only its root. */
    constructor ()
      ensures Valid() && Words == {} && nodes == [EmptyNode()]
    {
      nodes := [EmptyNode()];
      Paths := [[]];
      Words := {};
    }

    /** addWord: an empty w is ignored; otherwise w is lower-cased, the
        characters outside the alphabet are skipped, and what remains
        becomes a word (possibly the empty word, at the root). */
    method AddWord(w: string)
      requires Valid()
      modifies this
      ensures Valid()
      ensures |w| == 0 ==> nodes == old(nodes) && Words == old(Words)
      ensures |w| > 0 ==> Words == old(Words) + {Filter(Lower(w))}
    {
      if |w| == 0 {
        return;
      }
      var s := Lower(w);
      ghost var nodes0 := nodes;
      var cur := 0;
      var leaf := EmptyNode();
      for i := 0 to |s|
        invariant Descending(nodes0, nodes, Paths, Words, Filter(s[..i]), cur)
        invariant Words == old(Words)
      {
        FilterSnoc(s, i);
        var id := IdxOf(s[i]);
        if id >= 0 {
          ghost var nodes1, paths1, cur1 := nodes, Paths, cur;
          if nodes[cur].child[id] == NoChild {
            nodes := nodes[cur := nodes[cur].(child := nodes[cur].child[id := |nodes|])] + [leaf];
            Paths := Paths + [Paths[cur] + [SymOf(id)]];
          }
          cur := nodes[cur].child[id];
          DescendStep(nodes0, nodes1, paths1, Words, Filter(s[..i]), cur1, s[i], nodes, Paths, cur);
        } else {
          assert Filter(s[..i + 1]) == Filter(s[..i]);
        }
      }
      assert s[..|s|] == s;
      ghost var f := Filter(s);
      assert Descending(nodes0, nodes, Paths, Words, f, cur);
      ghost var nodes2 := nodes;
      nodes := nodes[cur := nodes[cur].(isWord := true)];
      Words := Words + {f};
      MarkWordKeeps(nodes0, nodes2, Paths, old(Words), f, nodes);
    }

    /** collectWords: appends to out, in traversal order, prefix followed by
        each word suffix below node, stopping once out holds k strings. The
        Java method reaches the trie only through its node argument; here a
        node reference is the arena together with an index into it. */
    static method CollectWords(nodes: seq<TrieNode>, node: int, prefix: string, out: SimpleStringList, k: int)
      requires WellFormed(nodes) && 0 <= node < |nodes|
      requires out.Valid()
      modifies out.Repr
      ensures out.Valid() && fresh(out.Repr - old(out.Repr))
      ensures out.Contents == Collected(nodes, node, prefix, old(out.Contents), k)
      decreases |nodes| - node
    {
      var n := out.Size();
      if n >= k {
        return;
      }
      if nodes[node].isWord {
        out.Add(prefix);
      }
      ghost var goal := Visit(nodes, node, prefix, 0, out.Contents, k);
      var i := 0;
      while i < Width
        invariant 0 <= i <= Width
        invariant out.Valid() && fresh(out.Repr - old(out.Repr))
        invariant goal == Visit(nodes, node, prefix, i, out.Contents, k)
      {
        var c := nodes[node].child[i];
        if c != NoChild {
          CollectWords(nodes, c, prefix + [SymOf(i)], out, k);
          n := out.Size();
          if n >= k {
            return;
          }
        }
        i := i + 1;
      }
    }

    /** suggest: a new list holding SuggestSpec(nodes, prefix, k). */
    method Suggest(prefix: string, k: int) returns (out: SimpleStringList)
      requires Valid()
      ensures out.Valid() && fresh(out.Repr)
      ensures out.Contents == SuggestSpec(nodes, prefix, k)
    {
      out := new SimpleStringList();
      var s := Lower(prefix);
      var cur := 0;
      for i := 0 to |s|
        invariant 0 <= cur < |nodes| && cur == Find(nodes, 0, s[..i])
        modifies {}
      {
        FindPrefixStep(nodes, s, i);
        var id := IdxOf(s[i]);
        if id < 0 {
          return;
        }
        if nodes[cur].child[id] == NoChild {
          return;
        }
        cur := nodes[cur].child[id];
      }
      assert s[..|s|] == s;
      CollectWords(nodes, cur, prefix, out, k);
      CollectedIsTraversal(nodes, cur, prefix, [], k);
    }
  }
}
