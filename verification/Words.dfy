/** Lower-case words in lexicographic order.

    Words are compared as strings of letters, and the list of a set is what a trie that holds
    it prints from left to right. */
module Words {
  predicate IsWord(w: string) {
    forall k :: 0 <= k < |w| ==> 'a' <= w[k] <= 'z'
  }

  function Letter(i: nat): char
    requires i < 26
  {
    'a' + i as char
  }

  /** Lexicographic order, as operator< on strings. */
  predicate Less(a: string, b: string) {
    b != "" && (a == "" || a[0] < b[0] || (a[0] == b[0] && Less(a[1..], b[1..])))
  }

  lemma {:induction false} LessIsTotal(a: string, b: string)
    ensures Less(a, b) || a == b || Less(b, a)
    ensures !(Less(a, b) && Less(b, a)) && !Less(a, a)
  {
    if a != "" && b != "" {
      LessIsTotal(a[1..], b[1..]);
      LessIsTotal(a[1..], a[1..]);
      assert a == [a[0]] + a[1..] && b == [b[0]] + b[1..];
    } else if a != "" {
      LessIsTotal(a[1..], a[1..]);
    }
  }

  lemma {:induction false} LessChains(a: string, b: string, c: string)
    requires Less(a, b) && Less(b, c)
    ensures Less(a, c)
  {
    if a != "" && a[0] == b[0] == c[0] {
      LessChains(a[1..], b[1..], c[1..]);
    }
  }

  lemma {:induction false} LessAfter(p: string, a: string, b: string)
    requires Less(a, b)
    ensures Less(p + a, p + b)
  {
    if p == "" {
      assert p + a == a && p + b == b;
    } else {
      LessAfter(p[1..], a, b);
      assert (p + a)[1..] == p[1..] + a && (p + b)[1..] == p[1..] + b;
    }
  }

  ghost predicate AllLess(s: set<string>, t: set<string>) {
    forall a, b :: a in s && b in t ==> Less(a, b)
  }

  ghost predicate IsLeast(w: string, s: set<string>) {
    w in s && forall x :: x in s && x != w ==> Less(w, x)
  }

  lemma {:induction false} LeastExists(s: set<string>)
    requires s != {}
    ensures exists w :: IsLeast(w, s)
    decreases s
  {
    var x :| x in s;
    if s == {x} {
      assert IsLeast(x, s);
    } else {
      LeastExists(s - {x});
      var y :| IsLeast(y, s - {x});
      LessIsTotal(x, y);
      if Less(x, y) {
        forall z | z in s && z != x
          ensures Less(x, z)
        {
          if z != y {
            LessChains(x, y, z);
          }
        }
        assert IsLeast(x, s);
      } else {
        assert IsLeast(y, s);
      }
    }
  }

  ghost function Least(s: set<string>): (w: string)
    requires s != {}
    ensures IsLeast(w, s)
  {
    LeastExists(s);
    var w :| IsLeast(w, s);
    w
  }

  /** The words of a finite set in lexicographic order. */
  ghost function Listed(s: set<string>): (list: seq<string>)
    ensures |list| == |s|
    decreases s
  {
    if s == {} then [] else [Least(s)] + Listed(s - {Least(s)})
  }

  lemma {:induction false} ListedAscends(s: set<string>)
    ensures forall i, j :: 0 <= i < j < |Listed(s)| ==> Less(Listed(s)[i], Listed(s)[j])
    ensures forall w :: w in Listed(s) <==> w in s
    decreases s
  {
    if s != {} {
      var rest := s - {Least(s)};
      ListedAscends(rest);
      forall j | 0 <= j < |Listed(rest)|
        ensures Less(Least(s), Listed(rest)[j])
      {
        assert Listed(rest)[j] in rest;
      }
      forall w
        ensures w in Listed(s) <==> w in s
      {
        assert w in Listed(s) <==> w == Least(s) || w in Listed(rest);
      }
    }
  }

  lemma LeastIsUnique(s: set<string>, v: string, w: string)
    requires IsLeast(v, s) && IsLeast(w, s)
    ensures v == w
  {
    LessIsTotal(v, w);
  }

  /** Everything in s comes before everything in t. */
  lemma {:induction false} ListedUnion(s: set<string>, t: set<string>)
    requires AllLess(s, t)
    ensures Listed(s + t) == Listed(s) + Listed(t)
    decreases s
  {
    if s == {} {
      assert s + t == t;
    } else {
      var w := Least(s);
      LeastIsUnique(s + t, w, Least(s + t));
      LessIsTotal(w, w);
      assert w !in t;
      assert (s + t) - {w} == (s - {w}) + t;
      ListedUnion(s - {w}, t);
    }
  }
}
