/** A trie over a..z with pruning removal and limited autocompletion. */
module Tries {
  import opened TrieLinks
  import opened Words

  class Trie {
    const root: TrieNode
    /** The node that each prefix leads to. */
    ghost var nodes: map<string, TrieNode>

    ghost function Links(): map<string, seq<TrieNode?>>
      reads this, nodes.Values
    {
      map p | p in nodes :: nodes[p].children
    }

    ghost predicate Shape()
      reads this, nodes.Values
    {
      WellLinked(nodes, Links()) && "" in nodes && nodes[""] == root
    }

    /** The stored words. */
    ghost function Words(): set<string>
      reads this, nodes.Values
    {
      set p | p in nodes && nodes[p].isEnd
    }

    ghost predicate Valid()
      reads this, nodes.Values
    {
      Shape() && Pruned(nodes, Words())
    }

    constructor ()
      ensures Valid() && Words() == {} && fresh(nodes.Values)
    {
      root := new TrieNode();
      new;
      nodes := map["" := root];
    }

    /** The walk from the root that search, starts_with and autocomplete share. */
    method Walk(word: string) returns (curr: TrieNode?)
      requires Shape() && IsWord(word)
      ensures curr == if word in nodes then nodes[word] else null
    {
      hide WellLinked;
      var at := root;
      var k := 0;
      while k < |word|
        invariant 0 <= k <= |word| && word[..k] in nodes && at == nodes[word[..k]]
      {
        var idx := IndexOf(word[k]);
        LinkAt(nodes, Links(), word[..k], idx);
        assert word[..k + 1] == Child(word[..k], idx);
        if at.children[idx] == null {
          if word in nodes {
            PrefixHasNode(nodes, Links(), word, k + 1);
          }
          return null;
        }
        at := at.children[idx];
        k := k + 1;
      }
      assert word[..k] == word;
      return at;
    }

    method Search(word: string) returns (found: bool)
      requires Valid() && IsWord(word)
      ensures found == (word in Words())
    {
      var curr := Walk(word);
      return curr != null && curr.isEnd;
    }

    /** The empty prefix is always found; any other one exactly when a stored word has it. */
    method StartsWith(prefix: string) returns (found: bool)
      requires Valid() && IsWord(prefix)
      ensures found == (prefix == "" || LeadsTo(prefix, Words()))
    {
      var curr := Walk(prefix);
      if LeadsTo(prefix, Words()) {
        var w :| w in Words() && prefix <= w;
        PrefixHasNode(nodes, Links(), w, |prefix|);
        assert w[..|prefix|] == prefix;
      }
      return curr != null;
    }

    /** A new node below curr. */
    method Grow(curr: TrieNode, idx: nat, ghost p: string)
      requires Shape() && p in nodes && nodes[p] == curr && idx < 26 && Child(p, idx) !in nodes
      modifies this`nodes, curr`children
      ensures Shape() && Words() == old(Words())
      ensures nodes.Keys == old(nodes.Keys) + {Child(p, idx)}
      ensures forall q :: q in old(nodes) ==> nodes[q] == old(nodes[q])
      ensures fresh(nodes[Child(p, idx)])
    {
      hide WellLinked, LinkOk, Child;
      ghost var words := Words();
      ghost var q, before, links := Child(p, idx), nodes, Links();
      Sized(before, links, p);
      ChildIsNew(p, idx);
      OnlyThere(before, links, p);
      var child := new TrieNode();
      GrowLinks(before, links, p, idx, child);
      curr.children := curr.children[idx := child];
      nodes := nodes[q := child];
      ghost var after := links[p := links[p][idx := child]][q := seq(26, _ => null)];
      assert after.Keys == nodes.Keys;
      assert forall r :: r in nodes ==> nodes[r].children == after[r];
      assert Links() == after;
      forall r
        ensures r in Words() <==> r in words
      {
      }
    }

    /** curr->is_end = ends */
    method SetEnd(curr: TrieNode, ends: bool, ghost p: string)
      requires Shape() && p in nodes && nodes[p] == curr
      modifies curr`isEnd
      ensures Shape() && Words() == if ends then old(Words()) + {p} else old(Words()) - {p}
    {
      hide WellLinked;
      OnlyThere(nodes, Links(), p);
      ghost var links := Links();
      curr.isEnd := ends;
      assert Links() == links;
    }

    /** The child of curr for a letter, which is made if it is missing. */
    method Descend(curr: TrieNode, idx: nat, ghost p: string) returns (next: TrieNode)
      requires Shape() && p in nodes && nodes[p] == curr && idx < 26
      modifies this`nodes, curr`children
      ensures Shape() && Words() == old(Words())
      ensures nodes.Keys == old(nodes.Keys) + {Child(p, idx)} && nodes[Child(p, idx)] == next
      ensures nodes.Values <= old(nodes.Values) + {next} && (next in old(nodes.Values) || fresh(next))
    {
      hide WellLinked;
      LinkAt(nodes, Links(), p, idx);
      if curr.children[idx] == null {
        Grow(curr, idx, p);
        LinkAt(nodes, Links(), p, idx);
      }
      next := curr.children[idx];
    }

    method Insert(word: string)
      requires Valid() && IsWord(word)
      modifies this`nodes, nodes.Values
      ensures Valid() && Words() == old(Words()) + {word}
      ensures fresh(nodes.Values - old(nodes.Values))
    {
      hide WellLinked, Trie.Shape, Trie.Links, Trie.Words, LeadsTo;
      ghost var words := Words() + {word};
      RootIsThere();
      PrunedForMore(nodes, Words(), words);
      var curr := root;
      var k := 0;
      while k < |word|
        invariant 0 <= k <= |word| && Shape() && word[..k] in nodes && curr == nodes[word[..k]]
        invariant Words() == old(Words()) && Pruned(nodes, words)
        invariant fresh(nodes.Values - old(nodes.Values))
      {
        var idx := IndexOf(word[k]);
        assert word[..k + 1] == Child(word[..k], idx);
        LeadsThere(word[..k + 1], word, words);
        assert curr in nodes.Values;
        curr := Descend(curr, idx, word[..k]);
        k := k + 1;
      }
      assert word[..k] == word;
      assert curr in nodes.Values;
      SetEnd(curr, true, word);
    }

    method HasChildren(node: TrieNode, ghost p: string) returns (found: bool)
      requires Shape() && p in nodes && nodes[p] == node
      ensures found == !Childless(nodes, p)
    {
      hide WellLinked;
      var i := 0;
      LinkAt(nodes, Links(), p, 0);
      while i < 26
        invariant 0 <= i <= 26
        invariant forall j: nat :: j < i ==> Child(p, j) !in nodes
      {
        LinkAt(nodes, Links(), p, i);
        if node.children[i] != null { return true; }
        i := i + 1;
      }
      return false;
    }

    /** delete child; parent->children[idx] = nullptr */
    method Unlink(parent: TrieNode, idx: nat, ghost p: string)
      requires Shape() && p in nodes && nodes[p] == parent && idx < 26
      requires Childless(nodes, Child(p, idx)) && Child(p, idx) !in Words()
      modifies this`nodes, parent`children
      ensures Shape() && Words() == old(Words()) && nodes == old(nodes) - {Child(p, idx)}
    {
      hide WellLinked, Childless, LinkOk, Child;
      ghost var words := Words();
      ghost var q, before, links := Child(p, idx), nodes, Links();
      Sized(before, links, p);
      ChildIsNew(p, idx);
      PruneLinks(before, links, p, idx);
      OnlyThere(before, links, p);
      parent.children := parent.children[idx := null];
      nodes := nodes - {q};
      ghost var after := links[p := links[p][idx := null]] - {q};
      assert after.Keys == nodes.Keys;
      assert forall r :: r in nodes ==> nodes[r].children == after[r];
      assert Links() == after;
      forall r
        ensures r in Words() <==> r in words
      {
      }
    }

    /** Removes exactly the given word, and every node that then leads to no word. */
    method Remove(word: string) returns (removed: bool)
      requires Valid() && IsWord(word)
      modifies this`nodes, nodes.Values
      ensures Valid() && nodes.Keys <= old(nodes.Keys)
      ensures removed == (word in old(Words())) && Words() == old(Words()) - {word}
    {
      hide WellLinked, Trie.Links, Pruned, PrunedBut;
      var curr := root;
      var path: seq<(TrieNode, nat)> := [];
      var k := 0;
      while k < |word|
        invariant 0 <= k <= |word| && word[..k] in nodes && curr == nodes[word[..k]]
        invariant |path| == k && IsPath(nodes, path, word, k)
        modifies {}
      {
        var idx := IndexOf(word[k]);
        NodeAt(word[..k], idx);
        assert word[..k + 1] == Child(word[..k], idx);
        if curr.children[idx] == null {
          if word in nodes {
            PrefixHasNode(nodes, Links(), word, k + 1);
          }
          return false;
        }
        path := path + [(curr, idx)];
        curr := curr.children[idx];
        k := k + 1;
      }
      assert word[..k] == word;
      if !curr.isEnd { return false; }
      PrunedForLess(nodes, Words(), word);
      assert curr in nodes.Values;
      SetEnd(curr, false, word);
      PruneUpwards(path, word);
      return true;
    }

    /** Goes back up the path and deletes nodes until one is still needed. */
    method PruneUpwards(path: seq<(TrieNode, nat)>, ghost word: string)
      requires Shape() && |path| == |word| && IsPath(nodes, path, word, |word|)
      requires word in nodes && PrunedBut(nodes, Words(), word, |word|)
      modifies this`nodes, nodes.Values
      ensures Valid() && Words() == old(Words()) && nodes.Keys <= old(nodes.Keys)
    {
      hide WellLinked, Trie.Links, Trie.Words, Trie.Shape, LeadsTo, Pruned, PrunedBut, IsPath;
      ghost var words := Words();
      var i := |path| - 1;
      assert word[..|word|] == word;
      while i >= 0
        invariant -1 <= i < |path| && Shape() && Words() == words
        invariant nodes.Keys <= old(nodes.Keys) && nodes.Values <= old(nodes.Values)
        invariant word[..i + 1] in nodes && IsPath(nodes, path, word, i + 1)
        invariant PrunedBut(nodes, words, word, i + 1)
      {
        var (parent, idx) := path[i];
        OnPath(nodes, path, word, i);
        assert parent in nodes.Values;
        NodeAt(word[..i], idx);
        NodeAt(word[..i + 1], 0);
        var child := parent.children[idx];
        var hasChildren := HasChildren(child, word[..i + 1]);
        if child.isEnd || hasChildren {
          StillNeeded(nodes, words, word, i + 1);
          return;
        }
        PrunedOneMore(nodes, words, word, i);
        Unlink(parent, idx, word[..i]);
        i := i - 1;
      }
      AllPruned(nodes, words, word);
    }

    /** The prefixes at or below p. */
    ghost function Below(p: string): set<string>
      reads this
    {
      set q | q in nodes && p <= q
    }

    /** Depth first, children in the order of their letters. */
    method Collect(node: TrieNode, prefix: string, results: seq<string>, limit: int) returns (r: seq<string>)
      requires Shape() && prefix in nodes && nodes[prefix] == node
      ensures r == Filled(results, Listed(Under(Words(), prefix)), limit)
      decreases Below(prefix)
    {
      hide WellLinked, Trie.Shape, Trie.Words, Trie.Below, Under, UpTo, Filled, Listed;
      ghost var words := Words();
      r := results;
      FilledBy(results, Listed(Under(words, prefix)), limit);
      if limit >= 0 && |results| >= limit { return; }
      WordsAreWords();
      NothingYet(words, prefix);
      FilledBy(results, Listed(UpTo(words, prefix, 0)), limit);
      NodeAt(prefix, 0);
      if node.isEnd { r := r + [prefix]; }
      var i := 0;
      while i < 26
        invariant 0 <= i <= 26 && r == Filled(results, Listed(UpTo(words, prefix, i)), limit)
      {
        var child := prefix + ['a' + i as char];
        NodeAt(prefix, i);
        NextLetter(words, prefix, i);
        FilledTwice(results, Listed(UpTo(words, prefix, i)), Listed(Under(words, child)), limit);
        FilledBy(r, [], limit);
        if node.children[i] != null {
          SmallerBelow(prefix, i);
          r := Collect(node.children[i], child, r, limit);
        } else {
          NoneUnder(child);
        }
        i := i + 1;
      }
    }

    /** The first `limit` of the stored words with the prefix, in lexicographic order. */
    method Autocomplete(prefix: string, limit: int) returns (results: seq<string>)
      requires Valid() && IsWord(prefix)
      ensures results == Filled([], Listed(Under(Words(), prefix)), limit)
    {
      var curr := Walk(prefix);
      if curr == null {
        NoneUnder(prefix);
        return [];
      }
      results := Collect(curr, prefix, [], limit);
    }

    lemma WordsAreWords()
      requires Shape()
      ensures forall w :: w in Words() ==> IsWord(w)
    {
    }

    lemma SmallerBelow(p: string, i: nat)
      requires p in nodes && i < 26
      ensures Below(Child(p, i)) < Below(p)
    {
      assert p <= Child(p, i);
      assert p in Below(p) && p !in Below(Child(p, i));
    }

    lemma NoneUnder(p: string)
      requires Shape() && p !in nodes
      ensures Listed(Under(Words(), p)) == []
    {
      forall w | w in Words()
        ensures !(p <= w)
      {
        if p <= w {
          assert w[..|p|] == p;
          PrefixHasNode(nodes, Links(), w, |p|);
        }
      }
    }

    lemma NodeAt(p: string, i: nat)
      requires Shape() && p in nodes && i < 26
      ensures |nodes[p].children| == 26
      ensures nodes[p].children[i] == if Child(p, i) in nodes then nodes[Child(p, i)] else null
      ensures nodes[p].isEnd <==> p in Words()
    {
      LinkAt(nodes, Links(), p, i);
    }

    lemma RootIsThere()
      requires Shape()
      ensures "" in nodes && nodes[""] == root
    {
    }
  }
}
