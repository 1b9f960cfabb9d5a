/** What the autocomplete trie promises: it holds exactly the words added,
    suggest returns only stored words that extend the prefix, all of them
    when k is large enough, and in the trie's traversal order. */
module TrieLaws {
  import opened Chars
  import opened Trie

  /** u leads from node i to a word node. */
  ghost predicate WordBelow(nodes: seq<TrieNode>, i: int, u: string)
    requires WellFormed(nodes) && 0 <= i < |nodes|
  {
    var j := Find(nodes, i, u);
    j != NoChild && nodes[j].isWord
  }

  // ---------- The alphabet ----------

  /** A path that exists uses only characters of the alphabet. */
  lemma {:induction false} FindAlphabet(nodes: seq<TrieNode>, i: int, s: string)
    requires WellFormed(nodes) && 0 <= i < |nodes| && Find(nodes, i, s) != NoChild
    ensures forall j :: 0 <= j < |s| ==> InAlphabet(s[j])
    decreases |s|
  {
    if s != [] {
      FindAlphabet(nodes, nodes[i].child[IdxOf(s[0])], s[1..]);
      assert forall j :: 1 <= j < |s| ==> s[j] == s[1..][j - 1];
    }
  }

  /** Lower-casing leaves the alphabet's characters alone. */
  lemma LowerAlphabet(s: string)
    requires forall j :: 0 <= j < |s| ==> InAlphabet(s[j])
    ensures Lower(s) == s
  {
  }

  /** The trie holds exactly its words, and every word is already
      lower-case and inside the alphabet. */
  lemma WordsExact(nodes: seq<TrieNode>, paths: seq<string>, words: set<string>)
    requires TrieInv(nodes, paths, words)
    ensures forall w :: w in words <==> IsWordIn(nodes, w)
    ensures forall w :: w in words ==> Filter(w) == w && Lower(w) == w
  {
    forall w | IsWordIn(nodes, w) ensures w in words {
      FindPath(nodes, paths, 0, w);
      assert paths[0] + w == w;
    }
    forall w | w in words ensures Filter(w) == w && Lower(w) == w {
      FindAlphabet(nodes, 0, w);
      LowerAlphabet(w);
    }
  }

  // ---------- Soundness and completeness of the traversal ----------

  /** Every suffix the traversal of node i yields leads to a word node. */
  lemma {:induction false} EnumSound(nodes: seq<TrieNode>, i: int)
    requires WellFormed(nodes) && 0 <= i < |nodes|
    ensures forall j :: 0 <= j < |Enum(nodes, i)| ==> WordBelow(nodes, i, Enum(nodes, i)[j])
    decreases |nodes| - i, Width + 1
  {
    EnumFromSound(nodes, i, 0);
    assert nodes[i].isWord ==> Find(nodes, i, []) == i;
  }

  lemma {:induction false} EnumFromSound(nodes: seq<TrieNode>, i: int, lo: int)
    requires WellFormed(nodes) && 0 <= i < |nodes| && 0 <= lo <= Width
    ensures forall j :: 0 <= j < |EnumFrom(nodes, i, lo)| ==> WordBelow(nodes, i, EnumFrom(nodes, i, lo)[j])
    decreases |nodes| - i, Width - lo
  {
    if lo < Width {
      var c := nodes[i].child[lo];
      EnumFromSound(nodes, i, lo + 1);
      if c != NoChild {
        EnumSound(nodes, c);
        var sub := Prefixed([SymOf(lo)], Enum(nodes, c));
        forall j | 0 <= j < |sub| ensures WordBelow(nodes, i, sub[j]) {
          var v := Enum(nodes, c)[j];
          assert sub[j] == [SymOf(lo)] + v;
          assert sub[j][0] == SymOf(lo) && sub[j][1..] == v;
        }
        var rest := EnumFrom(nodes, i, lo + 1);
        assert EnumFrom(nodes, i, lo) == sub + rest;
        assert forall j :: |sub| <= j < |sub + rest| ==> (sub + rest)[j] == rest[j - |sub|];
      }
    }
  }

  /** The traversal of node i reaches every suffix that leads to a word node. */
  lemma {:induction false} EnumComplete(nodes: seq<TrieNode>, i: int, u: string)
    requires WellFormed(nodes) && 0 <= i < |nodes| && WordBelow(nodes, i, u)
    ensures u in Enum(nodes, i)
    decreases |u|
  {
    if u == [] {
      assert Enum(nodes, i)[0] == [];
    } else {
      var id := IdxOf(u[0]);
      var c := nodes[i].child[id];
      EnumComplete(nodes, c, u[1..]);
      SymOfIdxOf(u[0]);
      assert u == [SymOf(id)] + u[1..];
      var k :| 0 <= k < |Enum(nodes, c)| && Enum(nodes, c)[k] == u[1..];
      assert Prefixed([SymOf(id)], Enum(nodes, c))[k] == u;
      EnumFromContains(nodes, i, 0, id, u);
    }
  }

  lemma {:induction false} EnumFromContains(nodes: seq<TrieNode>, i: int, lo: int, c: int, x: string)
    requires WellFormed(nodes) && 0 <= i < |nodes| && 0 <= lo <= c < Width
    requires nodes[i].child[c] != NoChild && x in Prefixed([SymOf(c)], Enum(nodes, nodes[i].child[c]))
    ensures x in EnumFrom(nodes, i, lo)
    decreases Width - lo
  {
    if lo < c {
      EnumFromContains(nodes, i, lo + 1, c, x);
    }
  }

  // ---------- Traversal order ----------

  /** The order collectWords produces: by slot index character by character
      ('a' < ... < 'z' < space < apostrophe), a proper prefix first. */
  predicate Less(a: string, b: string)
    decreases |a|
  {
    b != [] && (a == [] || IdxOf(a[0]) < IdxOf(b[0]) || (a[0] == b[0] && Less(a[1..], b[1..])))
  }

  predicate Sorted(ws: seq<string>) {
    forall i, j :: 0 <= i < j < |ws| ==> Less(ws[i], ws[j])
  }

  lemma {:induction false} LessIrreflexive(a: string)
    ensures !Less(a, a)
    decreases |a|
  {
    if a != [] {
      LessIrreflexive(a[1..]);
    }
  }

  /** A sorted list has no repeated strings. */
  lemma SortedDistinct(ws: seq<string>)
    requires Sorted(ws)
    ensures forall i, j :: 0 <= i < j < |ws| ==> ws[i] != ws[j]
  {
    forall i, j | 0 <= i < j < |ws| ensures ws[i] != ws[j] {
      LessIrreflexive(ws[i]);
    }
  }

  lemma PrefixedSorted(x: char, ws: seq<string>)
    requires Sorted(ws)
    ensures Sorted(Prefixed([x], ws))
  {
    var ps := Prefixed([x], ws);
    forall i, j | 0 <= i < j < |ps| ensures Less(ps[i], ps[j]) {
      assert ps[i][0] == x && ps[i][1..] == ws[i];
      assert ps[j][0] == x && ps[j][1..] == ws[j];
    }
  }

  lemma SortedAppend(a: seq<string>, b: seq<string>)
    requires Sorted(a) && Sorted(b)
    requires forall i, j :: 0 <= i < |a| && 0 <= j < |b| ==> Less(a[i], b[j])
    ensures Sorted(a + b)
  {
    forall i, j | 0 <= i < j < |a + b| ensures Less((a + b)[i], (a + b)[j]) {
      if i >= |a| {
        assert (a + b)[i] == b[i - |a|] && (a + b)[j] == b[j - |a|];
      } else if j >= |a| {
        assert (a + b)[j] == b[j - |a|];
      }
    }
  }

  /** The traversal of node i yields its suffixes in increasing order. */
  lemma {:induction false} EnumSorted(nodes: seq<TrieNode>, i: int)
    requires WellFormed(nodes) && 0 <= i < |nodes|
    ensures Sorted(Enum(nodes, i))
    decreases |nodes| - i, Width + 1
  {
    var rest := EnumFrom(nodes, i, 0);
    EnumFromSorted(nodes, i, 0);
    var head: seq<string> := if nodes[i].isWord then [[]] else [];
    SortedAppend(head, rest);
  }

  /** The suffixes below slots lo..27 are sorted, non-empty, and start with
      a character of slot lo or later. */
  lemma {:induction false} EnumFromSorted(nodes: seq<TrieNode>, i: int, lo: int)
    requires WellFormed(nodes) && 0 <= i < |nodes| && 0 <= lo <= Width
    ensures Sorted(EnumFrom(nodes, i, lo))
    ensures forall j :: 0 <= j < |EnumFrom(nodes, i, lo)| ==>
      EnumFrom(nodes, i, lo)[j] != [] && lo <= IdxOf(EnumFrom(nodes, i, lo)[j][0])
    decreases |nodes| - i, Width - lo
  {
    if lo < Width {
      var c := nodes[i].child[lo];
      var rest := EnumFrom(nodes, i, lo + 1);
      EnumFromSorted(nodes, i, lo + 1);
      if c != NoChild {
        EnumSorted(nodes, c);
        var sub := Prefixed([SymOf(lo)], Enum(nodes, c));
        PrefixedSorted(SymOf(lo), Enum(nodes, c));
        assert forall j :: 0 <= j < |sub| ==> sub[j][0] == SymOf(lo);
        SortedAppend(sub, rest);
        assert EnumFrom(nodes, i, lo) == sub + rest;
        assert forall j :: |sub| <= j < |sub + rest| ==> (sub + rest)[j] == rest[j - |sub|];
      }
    }
  }

  // ---------- Counting ----------

  /** Distinct members of a set are no more than the set's size. */
  lemma {:induction false} DistinctBound(ws: seq<string>, s: set<string>)
    requires forall i, j :: 0 <= i < j < |ws| ==> ws[i] != ws[j]
    requires forall i :: 0 <= i < |ws| ==> ws[i] in s
    ensures |ws| <= |s|
    decreases |ws|
  {
    if ws != [] {
      assert forall i :: 0 <= i < |ws| - 1 ==> ws[1..][i] == ws[i + 1];
      DistinctBound(ws[1..], s - {ws[0]});
    }
  }

  // ---------- suggest ----------

  /** The words below the node of p, each spelled in full, are words of the trie. */
  lemma EnumInWords(nodes: seq<TrieNode>, paths: seq<string>, words: set<string>, p: string)
    requires TrieInv(nodes, paths, words) && Find(nodes, 0, p) != NoChild
    ensures forall j :: 0 <= j < |Enum(nodes, Find(nodes, 0, p))| ==> p + Enum(nodes, Find(nodes, 0, p))[j] in words
  {
    var n := Find(nodes, 0, p);
    var e := Enum(nodes, n);
    EnumSound(nodes, n);
    forall j | 0 <= j < |e| ensures p + e[j] in words {
      WordBelowIn(nodes, paths, words, p, e[j]);
    }
  }

  /** A word node below the node of p spells a word that starts with p. */
  lemma WordBelowIn(nodes: seq<TrieNode>, paths: seq<string>, words: set<string>, p: string, u: string)
    requires TrieInv(nodes, paths, words) && Find(nodes, 0, p) != NoChild
    requires WordBelow(nodes, Find(nodes, 0, p), u)
    ensures p + u in words
  {
    FindAppend(nodes, 0, p, u);
    var j := Find(nodes, 0, p + u);
    FindPath(nodes, paths, 0, p + u);
    assert paths[j] == p + u && nodes[j].isWord;
  }

  /** Suggestions are stored words: each is the prefix as passed followed
      by a suffix that completes the lower-cased prefix to a word. */
  lemma SuggestSound(nodes: seq<TrieNode>, paths: seq<string>, words: set<string>, prefix: string, k: int)
    requires TrieInv(nodes, paths, words)
    ensures var r := SuggestSpec(nodes, prefix, k);
      forall j :: 0 <= j < |r| ==>
        |prefix| <= |r[j]| && r[j][..|prefix|] == prefix && Lower(prefix) + r[j][|prefix|..] in words
  {
    var p := Lower(prefix);
    var n := Find(nodes, 0, p);
    if n != NoChild {
      var e := Enum(nodes, n);
      EnumInWords(nodes, paths, words, p);
      var r := SuggestSpec(nodes, prefix, k);
      forall j | 0 <= j < |r|
        ensures |prefix| <= |r[j]| && r[j][..|prefix|] == prefix && p + r[j][|prefix|..] in words
      {
        TakePrefixedAt(prefix, e, k, j);
        assert r[j][..|prefix|] == prefix && r[j][|prefix|..] == e[j];
      }
    }
  }

  /** Asked for at least as many suggestions as there are words, suggest
      returns every word that extends the lower-cased prefix. */
  lemma SuggestComplete(nodes: seq<TrieNode>, paths: seq<string>, words: set<string>, prefix: string, k: int, w: string)
    requires TrieInv(nodes, paths, words) && |words| <= k
    requires w in words && |prefix| <= |w| && w[..|prefix|] == Lower(prefix)
    ensures prefix + w[|prefix|..] in SuggestSpec(nodes, prefix, k)
  {
    var p, u := Lower(prefix), w[|prefix|..];
    assert w == w[..|prefix|] + u;
    FindAppend(nodes, 0, p, u);
    var n := Find(nodes, 0, p);
    EnumComplete(nodes, n, u);
    EnumBound(nodes, paths, words, p);
    SuggestHas(nodes, prefix, k, u);
  }

  /** A suffix below the node of the lower-cased prefix is suggested when
      the traversal there holds at most k suffixes. */
  lemma SuggestHas(nodes: seq<TrieNode>, prefix: string, k: int, u: string)
    requires WellFormed(nodes) && Find(nodes, 0, Lower(prefix)) != NoChild
    requires u in Enum(nodes, Find(nodes, 0, Lower(prefix))) && |Enum(nodes, Find(nodes, 0, Lower(prefix)))| <= k
    ensures prefix + u in SuggestSpec(nodes, prefix, k)
  {
    var e := Enum(nodes, Find(nodes, 0, Lower(prefix)));
    var m :| 0 <= m < |e| && e[m] == u;
    var r := Take(Prefixed(prefix, e), k);
    assert |r| == |e|;
    TakePrefixedAt(prefix, e, k, m);
    assert SuggestSpec(nodes, prefix, k) == r;
  }

  /** No more words lie below the node of p than the trie holds. */
  lemma EnumBound(nodes: seq<TrieNode>, paths: seq<string>, words: set<string>, p: string)
    requires TrieInv(nodes, paths, words) && Find(nodes, 0, p) != NoChild
    ensures |Enum(nodes, Find(nodes, 0, p))| <= |words|
  {
    var n := Find(nodes, 0, p);
    var e := Enum(nodes, n);
    EnumInWords(nodes, paths, words, p);
    EnumSorted(nodes, n);
    SortedDistinct(e);
    var full := Prefixed(p, e);
    forall i, j | 0 <= i < j < |full| ensures full[i] != full[j] {
      assert full[i][|p|..] == e[i] && full[j][|p|..] == e[j];
    }
    DistinctBound(full, words);
  }

  /** Suggestions come in traversal order, so none is repeated. */
  lemma SuggestOrdered(nodes: seq<TrieNode>, prefix: string, k: int)
    requires WellFormed(nodes)
    ensures var r := SuggestSpec(nodes, prefix, k);
      forall i, j :: 0 <= i < j < |r| ==>
        |prefix| <= |r[i]| && |prefix| <= |r[j]| && Less(r[i][|prefix|..], r[j][|prefix|..]) && r[i] != r[j]
  {
    var n := Find(nodes, 0, Lower(prefix));
    if n != NoChild {
      var e := Enum(nodes, n);
      EnumSorted(nodes, n);
      var r := SuggestSpec(nodes, prefix, k);
      forall i, j | 0 <= i < j < |r|
        ensures |prefix| <= |r[i]| && |prefix| <= |r[j]| && Less(r[i][|prefix|..], r[j][|prefix|..]) && r[i] != r[j]
      {
        assert r[i] == prefix + e[i] && r[j] == prefix + e[j];
        assert r[i][|prefix|..] == e[i] && r[j][|prefix|..] == e[j];
        LessIrreflexive(e[i]);
      }
    }
  }

  /** A prefix with a character outside the alphabet (after lower-casing)
      gets no suggestions. */
  lemma SuggestOutsideAlphabet(nodes: seq<TrieNode>, prefix: string, k: int, j: int)
    requires WellFormed(nodes) && 0 <= j < |prefix| && !InAlphabet(LowerChar(prefix[j]))
    ensures SuggestSpec(nodes, prefix, k) == []
  {
    if Find(nodes, 0, Lower(prefix)) != NoChild {
      FindAlphabet(nodes, 0, Lower(prefix));
    }
  }

  /** A prefix that no word extends gets no suggestions. */
  lemma SuggestNoMatch(nodes: seq<TrieNode>, paths: seq<string>, words: set<string>, prefix: string, k: int)
    requires TrieInv(nodes, paths, words)
    requires forall w :: w in words ==> !(|prefix| <= |w| && w[..|prefix|] == Lower(prefix))
    ensures SuggestSpec(nodes, prefix, k) == []
  {
    SuggestSound(nodes, paths, words, prefix, k);
  }

  /** A stored word, used as the prefix, is its own first suggestion. */
  lemma SuggestWordFirst(nodes: seq<TrieNode>, paths: seq<string>, words: set<string>, w: string, k: int)
    requires TrieInv(nodes, paths, words) && w in words && k > 0
    ensures |SuggestSpec(nodes, w, k)| > 0 && SuggestSpec(nodes, w, k)[0] == w
  {
    WordsExact(nodes, paths, words);
    var n := Find(nodes, 0, w);
    assert Enum(nodes, n)[0] == [];
    assert w + [] == w;
  }
}
