/** The nodes of a trie, and what its links say.

    A map gives the node of every prefix. The links are right when a node has a child for
    a letter exactly where the map has a node for the longer prefix. A trie is pruned when
    every node but the root leads to a stored word. */
module TrieLinks {
  import opened Words

  class TrieNode {
    var children: seq<TrieNode?>
    var isEnd: bool

    constructor ()
      ensures children == seq(26, _ => null) && !isEnd
    {
      children := seq(26, _ => null);
      isEnd := false;
    }
  }

  function Child(p: string, i: nat): string
    requires i < 26
  {
    p + [Letter(i)]
  }

  function Parent(p: string): string
    requires p != ""
  {
    p[..|p| - 1]
  }

  function IndexOf(c: char): (i: nat)
    requires 'a' <= c <= 'z'
    ensures i < 26 && Letter(i) == c
  {
    (c - 'a') as nat
  }

  lemma ChildIs(p: string, i: nat, q: string, j: nat)
    requires i < 26 && j < 26
    ensures Child(p, i) == Child(q, j) <==> p == q && i == j
  {
    assert Parent(Child(p, i)) == p && Parent(Child(q, j)) == q;
    assert Child(p, i)[|p|] == Letter(i) && Child(q, j)[|q|] == Letter(j);
  }

  ghost predicate LeadsTo(p: string, words: set<string>) {
    exists w :: w in words && p <= w
  }

  // ---------- The links as values ----------

  /** The prefix p has a child for letter i exactly where the map has a node. */
  ghost predicate LinkOk(nodes: map<string, TrieNode>, links: map<string, seq<TrieNode?>>, p: string, i: nat)
    requires i < 26
  {
    && p in links && |links[p]| == 26
    && links[p][i] == if Child(p, i) in nodes then nodes[Child(p, i)] else null
  }

  /** `nodes` gives the node of each prefix, `links` the children stored in it. */
  ghost predicate WellLinked(nodes: map<string, TrieNode>, links: map<string, seq<TrieNode?>>) {
    && "" in nodes && links.Keys == nodes.Keys
    && (forall p :: p in nodes ==> IsWord(p))
    && (forall p, q :: p in nodes && q in nodes && nodes[p] == nodes[q] ==> p == q)
    && (forall p, i: nat :: p in nodes && i < 26 ==> LinkOk(nodes, links, p, i))
    && (forall p :: p in nodes && p != "" ==> Parent(p) in nodes)
  }

  lemma GrowLinks(nodes: map<string, TrieNode>, links: map<string, seq<TrieNode?>>, p: string, i: nat, child: TrieNode)
    requires WellLinked(nodes, links) && p in nodes && i < 26 && Child(p, i) !in nodes && child !in nodes.Values
    requires |links[p]| == 26
    ensures WellLinked(nodes[Child(p, i) := child],
                       links[p := links[p][i := child]][Child(p, i) := seq(26, _ => null)])
  {
    var q := Child(p, i);
    var nodes', links' := nodes[q := child], links[p := links[p][i := child]][q := seq(26, _ => null)];
    assert Parent(q) == p;
    forall r, j: nat | r in nodes' && j < 26
      ensures LinkOk(nodes', links', r, j)
    {
      assert Parent(Child(r, j)) == r;
      ChildIs(r, j, p, i);
      if r != q {
        assert LinkOk(nodes, links, r, j);
      }
    }
    assert LinkOk(nodes, links, p, i);
    forall r, t | r in nodes' && t in nodes' && nodes'[r] == nodes'[t]
      ensures r == t
    {
      assert r in nodes ==> nodes[r] in nodes.Values;
      assert t in nodes ==> nodes[t] in nodes.Values;
    }
    forall r | r in nodes'
      ensures IsWord(r)
    {
    }
  }

  ghost predicate Childless(nodes: map<string, TrieNode>, q: string) {
    forall i: nat :: i < 26 ==> Child(q, i) !in nodes
  }

  lemma PruneLinks(nodes: map<string, TrieNode>, links: map<string, seq<TrieNode?>>, p: string, i: nat)
    requires WellLinked(nodes, links) && p in nodes && i < 26 && Childless(nodes, Child(p, i))
    requires |links[p]| == 26
    ensures WellLinked(nodes - {Child(p, i)}, links[p := links[p][i := null]] - {Child(p, i)})
  {
    var q := Child(p, i);
    var nodes', links' := nodes - {q}, links[p := links[p][i := null]] - {q};
    forall r, j: nat | r in nodes' && j < 26
      ensures LinkOk(nodes', links', r, j)
    {
      assert LinkOk(nodes, links, r, j);
      ChildIs(r, j, p, i);
    }
    forall r | r in nodes' && r != ""
      ensures Parent(r) in nodes'
    {
      assert IsWord(r);
      ChildOfParent(r);
    }
  }

  /** A word is the child of its parent for its last letter. */
  lemma ChildOfParent(r: string)
    requires r != "" && IsWord(r)
    ensures Child(Parent(r), IndexOf(r[|r| - 1])) == r
  {
  }

  lemma LinkAt(nodes: map<string, TrieNode>, links: map<string, seq<TrieNode?>>, p: string, i: nat)
    requires WellLinked(nodes, links) && p in nodes && i < 26
    ensures LinkOk(nodes, links, p, i)
  {
  }

  /** Every prefix of a node's word has a node. */
  lemma {:induction false} PrefixHasNode(nodes: map<string, TrieNode>, links: map<string, seq<TrieNode?>>,
                                         p: string, k: nat)
    requires WellLinked(nodes, links) && p in nodes && k <= |p|
    ensures p[..k] in nodes
    decreases |p|
  {
    if k < |p| {
      PrefixHasNode(nodes, links, Parent(p), k);
      assert Parent(p)[..k] == p[..k];
    } else {
      assert p[..k] == p;
    }
  }

  /** Every node but the root leads to one of the given words. */
  ghost predicate Pruned(nodes: map<string, TrieNode>, words: set<string>) {
    forall p :: p in nodes && p != "" ==> LeadsTo(p, words)
  }

  /** The same, but the first n prefixes of word may lead to nothing. */
  ghost predicate PrunedBut(nodes: map<string, TrieNode>, words: set<string>, word: string, n: int) {
    forall p :: p in nodes && p != "" ==> LeadsTo(p, words) || (p <= word && |p| <= n)
  }

  lemma PrunedForMore(nodes: map<string, TrieNode>, words: set<string>, more: set<string>)
    requires Pruned(nodes, words) && words <= more
    ensures Pruned(nodes, more)
  {
  }

  /** Without the word itself its prefixes may be of no further use. */
  lemma PrunedForLess(nodes: map<string, TrieNode>, words: set<string>, word: string)
    requires Pruned(nodes, words)
    ensures PrunedBut(nodes, words - {word}, word, |word|)
  {
    forall p | p in nodes && p != "" && !(p <= word)
      ensures LeadsTo(p, words - {word})
    {
      var w :| w in words && p <= w;
      assert w in words - {word};
    }
  }

  lemma PrunedOneMore(nodes: map<string, TrieNode>, words: set<string>, word: string, n: nat)
    requires PrunedBut(nodes, words, word, n + 1) && n < |word|
    ensures PrunedBut(nodes - {word[..n + 1]}, words, word, n)
  {
    forall p | p in nodes && p <= word && p != word[..n + 1]
      ensures |p| != n + 1
    {
    }
  }

  lemma AllPruned(nodes: map<string, TrieNode>, words: set<string>, word: string)
    requires PrunedBut(nodes, words, word, 0)
    ensures Pruned(nodes, words)
  {
  }

  /** A prefix that ends a word or has a child keeps all its own prefixes useful. */
  lemma StillNeeded(nodes: map<string, TrieNode>, words: set<string>, word: string, n: nat)
    requires n <= |word| && PrunedBut(nodes, words, word, n)
    requires word[..n] in words || !Childless(nodes, word[..n])
    ensures Pruned(nodes, words)
  {
    var q := word[..n];
    if q !in words {
      var i: nat :| i < 26 && Child(q, i) in nodes;
      var w :| w in words && Child(q, i) <= w;
      assert q <= Child(q, i);
      LeadsThere(q, w, words);
    } else {
      LeadsThere(q, q, words);
    }
    var w :| w in words && q <= w;
    forall p | p in nodes && p != ""
      ensures LeadsTo(p, words)
    {
      if p <= word && |p| <= n {
        assert p <= q;
        LeadsThere(p, w, words);
      }
    }
  }

  /** The first n nodes on the way to word, each with the letter taken from there. */
  ghost predicate IsPath(nodes: map<string, TrieNode>, path: seq<(TrieNode, nat)>, word: string, n: nat) {
    && IsWord(word) && n <= |path| <= |word|
    && forall j :: 0 <= j < n ==>
         word[..j] in nodes && path[j].0 == nodes[word[..j]] && path[j].1 == IndexOf(word[j])
  }

  lemma OnPath(nodes: map<string, TrieNode>, path: seq<(TrieNode, nat)>, word: string, i: nat)
    requires IsPath(nodes, path, word, i + 1)
    ensures path[i].1 < 26 && word[..i] in nodes && path[i].0 == nodes[word[..i]]
    ensures Child(word[..i], path[i].1) == word[..i + 1]
    ensures IsPath(nodes - {word[..i + 1]}, path, word, i)
  {
    forall j | 0 <= j <= i
      ensures word[..j] != word[..i + 1]
    {
      assert |word[..j]| == j;
    }
  }

  // ---------- Autocompletion ----------

  /** The words that begin with p. */
  ghost function Under(words: set<string>, p: string): set<string> {
    set w | w in words && p <= w
  }

  /** Those of them that are p itself or go on with one of the first i letters. */
  ghost function UpTo(words: set<string>, p: string, i: nat): set<string> {
    set w | w in words && p <= w && (w == p || w[|p|] as int < 'a' as int + i)
  }

  /** `results` with as much of the list behind it as the limit allows; size_t(limit) makes
      a negative limit no limit at all. */
  function Filled(results: seq<string>, list: seq<string>, limit: int): seq<string> {
    if limit < 0 || |results| + |list| <= limit then results + list
    else if |results| >= limit then results
    else results + list[..limit - |results|]
  }

  lemma FilledTwice(results: seq<string>, a: seq<string>, b: seq<string>, limit: int)
    ensures Filled(Filled(results, a, limit), b, limit) == Filled(results, a + b, limit)
  {
    if limit < 0 || |results| + |a| <= limit {
      assert results + a + b == results + (a + b);
      if limit >= 0 && limit < |results| + |a + b| {
        assert (a + b)[..limit - |results|] == a + b[..limit - |results| - |a|];
      }
    } else if |results| < limit {
      assert (a + b)[..limit - |results|] == a[..limit - |results|];
    }
  }

  lemma FilledBy(results: seq<string>, list: seq<string>, limit: int)
    ensures limit >= 0 && |results| >= limit ==> Filled(results, list, limit) == results
    ensures Filled(results, [], limit) == results
    ensures !(limit >= 0 && |results| >= limit) && |list| == 1 ==> Filled(results, list, limit) == results + list
  {
  }

  lemma NothingYet(words: set<string>, p: string)
    requires forall w :: w in words ==> IsWord(w)
    ensures UpTo(words, p, 0) == if p in words then {p} else {}
    ensures UpTo(words, p, 26) == Under(words, p)
    ensures Listed(UpTo(words, p, 0)) == if p in words then [p] else []
  {
    forall w | w in words && p <= w && w != p
      ensures 'a' <= w[|p|] <= 'z'
    {
    }
    ListedAscends({p});
    assert p in Listed({p});
  }

  lemma NextLetter(words: set<string>, p: string, i: nat)
    requires i < 26 && forall w :: w in words ==> IsWord(w)
    ensures UpTo(words, p, i + 1) == UpTo(words, p, i) + Under(words, Child(p, i))
    ensures Listed(UpTo(words, p, i + 1)) == Listed(UpTo(words, p, i)) + Listed(Under(words, Child(p, i)))
  {
    forall w | w in words && p <= w && w != p
      ensures Child(p, i) <= w <==> w[|p|] == Letter(i)
    {
    }
    assert UpTo(words, p, i + 1) == UpTo(words, p, i) + Under(words, Child(p, i));
    forall a, b | a in UpTo(words, p, i) && b in Under(words, Child(p, i))
      ensures Less(a, b)
    {
      assert a == p + a[|p|..] && b == p + b[|p|..];
      SmallerLetter(p, a[|p|..], b[|p|..]);
    }
    ListedUnion(UpTo(words, p, i), Under(words, Child(p, i)));
  }

  lemma SmallerLetter(p: string, a: string, b: string)
    requires b != "" && (a == "" || a[0] < b[0])
    ensures Less(p + a, p + b)
  {
    LessAfter(p, a, b);
  }

  lemma LeadsThere(p: string, w: string, words: set<string>)
    requires p <= w && w in words
    ensures LeadsTo(p, words)
  {
  }

  lemma Sized(nodes: map<string, TrieNode>, links: map<string, seq<TrieNode?>>, p: string)
    requires WellLinked(nodes, links) && p in nodes
    ensures |links[p]| == 26
  {
    assert LinkOk(nodes, links, p, 0);
  }

  lemma ChildIsNew(p: string, i: nat)
    requires i < 26
    ensures Child(p, i) != p && Child(p, i) != ""
  {
  }

  lemma OnlyThere(nodes: map<string, TrieNode>, links: map<string, seq<TrieNode?>>, p: string)
    requires WellLinked(nodes, links) && p in nodes
    ensures forall q :: q in nodes && q != p ==> nodes[q] != nodes[p]
  {
  }
}
