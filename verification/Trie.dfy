/** A character trie: finding out whether one of the added strings begins, or ends, a literal. */
module Tries {
  type Text = seq<int>

  function Reversed(s: Text): (r: Text)
    ensures |r| == |s|
  {
    if s == [] then [] else Reversed(s[1..]) + [s[0]]
  }

  lemma {:induction false} ReversedAt(s: Text, i: nat)
    requires i < |s|
    ensures Reversed(s)[i] == s[|s| - 1 - i]
  {
    if i == |s| - 1 {
    } else {
      ReversedAt(s[1..], i);
    }
  }

  /** `w` ends `s`. */
  predicate Ends(w: Text, s: Text)
  {
    |w| <= |s| && s[|s| - |w|..] == w
  }

  /** A prefix of the reversed literal is a suffix of the literal. */
  lemma ReversedPrefix(w: Text, s: Text)
    ensures Reversed(w) <= Reversed(s) <==> Ends(w, s)
  {
    if |w| <= |s| {
      var a, b := Reversed(w), Reversed(s);
      forall i | 0 <= i < |w|
        ensures a[i] == w[|w| - 1 - i] && b[i] == s[|s| - 1 - i]
      {
        ReversedAt(w, i);
        ReversedAt(s, i);
      }
      if a <= b {
        forall j | 0 <= j < |w|
          ensures s[|s| - |w| + j] == w[j]
        {
          assert a[|w| - 1 - j] == b[|w| - 1 - j];
        }
      }
      if Ends(w, s) {
        forall i | 0 <= i < |w|
          ensures a[i] == b[i]
        {
          assert s[|s| - |w|..][|w| - 1 - i] == w[|w| - 1 - i];
        }
      }
    }
  }

  lemma SnocEqual(p: Text, c: int, q: Text, d: int)
    ensures p + [c] == q + [d] <==> p == q && c == d
  {
    if p + [c] == q + [d] {
      assert (p + [c])[..|p|] == p && (q + [d])[..|q|] == q && (p + [c])[|p|] == c;
    }
  }

  class TrieNode {
    var nodes: seq<TrieNode?>
    var end: bool

    constructor (n: nat)
      ensures |nodes| == n && !end && forall i :: 0 <= i < n ==> nodes[i] == null
    {
      nodes := seq(n, _ => null);
      end := false;
    }
  }

  predicate InRange(c: int, lo: int, n: nat)
  {
    lo <= c < lo + n
  }

  function Nulls(n: nat): seq<TrieNode?>
  {
    seq(n, _ => null)
  }

  /** The edge labelled `c` under path `p` leads to the node of the longer path, if there is one. */
  ghost predicate EdgeOf(paths: map<Text, TrieNode>, kids: map<Text, seq<TrieNode?>>, p: Text, c: int, lo: int, n: nat)
    requires p in kids && |kids[p]| == n && InRange(c, lo, n)
  {
    var child := kids[p][c - lo];
    if child == null then p + [c] !in paths else p + [c] in paths && paths[p + [c]] == child
  }

  /** The nodes form a tree, in which a path is spelled by its edges. */
  ghost predicate TreeOf(paths: map<Text, TrieNode>, kids: map<Text, seq<TrieNode?>>, lo: int, n: nat)
  {
    && [] in paths && paths.Keys == kids.Keys
    && (forall p, q :: p in paths && q in paths && paths[p] == paths[q] ==> p == q)
    && (forall p, c {:trigger p + [c]} :: p + [c] in paths ==> p in paths && InRange(c, lo, n))
    && (forall p :: p in kids ==> |kids[p]| == n)
    && (forall p, c :: p in kids && InRange(c, lo, n) ==> EdgeOf(paths, kids, p, c, lo, n))
  }

  /** Where a path ends, no longer one goes on. */
  lemma NoLongerPath(paths: map<Text, TrieNode>, kids: map<Text, seq<TrieNode?>>, lo: int, n: nat, p: Text, d: int)
    requires TreeOf(paths, kids, lo, n) && p !in paths
    ensures p + [d] !in paths
  {
  }

  /** A new leaf under `p`. */
  lemma ExtendTree(paths: map<Text, TrieNode>, kids: map<Text, seq<TrieNode?>>, lo: int, n: nat, p: Text, c: int,
                   child: TrieNode)
    requires TreeOf(paths, kids, lo, n) && p in paths && InRange(c, lo, n) && kids[p][c - lo] == null
    requires child !in paths.Values
    ensures p + [c] !in paths
    ensures TreeOf(paths[p + [c] := child], kids[p := kids[p][c - lo := child]][p + [c] := Nulls(n)], lo, n)
  {
    assert EdgeOf(paths, kids, p, c, lo, n);
    var at := p + [c];
    var paths2, kids2 := paths[at := child], kids[p := kids[p][c - lo := child]][at := Nulls(n)];
    forall q, d | q in kids2 && InRange(d, lo, n)
      ensures EdgeOf(paths2, kids2, q, d, lo, n)
    {
      SnocEqual(p, c, q, d);
      if q == at {
        NoLongerPath(paths, kids, lo, n, at, d);
      } else {
        assert EdgeOf(paths, kids, q, d, lo, n);
      }
    }
    forall q, d | q + [d] in paths2
      ensures q in paths2 && InRange(d, lo, n)
    {
      SnocEqual(p, c, q, d);
    }
    assert paths2.Keys == kids2.Keys;
  }

  lemma {:induction false} AllInRange(paths: map<Text, TrieNode>, kids: map<Text, seq<TrieNode?>>, lo: int, n: nat,
                                      p: Text)
    requires TreeOf(paths, kids, lo, n) && p in paths
    ensures forall j :: 0 <= j < |p| ==> InRange(p[j], lo, n)
  {
    if p == [] {
    } else {
      var q, c := p[..|p| - 1], p[|p| - 1];
      assert p == q + [c];
      assert q + [c] in paths;
      AllInRange(paths, kids, lo, n, q);
    }
  }

  /** A path in the tree stays in it as far as one walks. */
  lemma {:induction false} PathInside(paths: map<Text, TrieNode>, kids: map<Text, seq<TrieNode?>>, lo: int, n: nat,
                                      p: Text, i: nat)
    requires TreeOf(paths, kids, lo, n) && p in paths && i <= |p|
    ensures p[..i] in paths && forall j :: 0 <= j < i ==> InRange(p[j], lo, n)
    decreases |p| - i
  {
    if i == |p| {
      assert p[..i] == p;
      AllInRange(paths, kids, lo, n, p);
    } else {
      PathInside(paths, kids, lo, n, p, i + 1);
      var q := p[..i];
      assert p[..i + 1] == q + [p[i]];
      assert q + [p[i]] in paths;
    }
  }

  /** The string as it is walked. */
  function Order(s: Text, reverse: bool): Text
  {
    if reverse then Reversed(s) else s
  }

  lemma OrderFacts(s: Text, reverse: bool)
    ensures |Order(s, reverse)| == |s| && forall c :: c in Order(s, reverse) <==> c in s
  {
    if reverse {
      forall i | 0 <= i < |s|
        ensures Reversed(s)[i] in s && s[i] in Reversed(s)
      {
        ReversedAt(s, i);
        ReversedAt(s, |s| - 1 - i);
      }
    }
  }

  /** The marked paths are those of the added strings. */
  ghost predicate EndsOf(ends: map<Text, bool>, added: set<Text>, reverse: bool)
  {
    && (forall p :: p in ends && ends[p] ==> exists w :: w in added && Order(w, reverse) == p)
    && (forall w :: w in added ==> w != [] && Order(w, reverse) in ends && ends[Order(w, reverse)])
  }

  lemma EndsMore(ends: map<Text, bool>, added: set<Text>, reverse: bool, p: Text)
    requires EndsOf(ends, added, reverse) && p !in ends
    ensures EndsOf(ends[p := false], added, reverse)
  {
  }

  lemma EndsMarked(ends: map<Text, bool>, added: set<Text>, reverse: bool, w: Text)
    requires EndsOf(ends, added, reverse) && w != [] && Order(w, reverse) in ends
    ensures EndsOf(ends[Order(w, reverse) := true], added + {w}, reverse)
  {
    var p := Order(w, reverse);
    var ends2, added2 := ends[p := true], added + {w};
    forall q | q in ends2 && ends2[q]
      ensures exists v :: v in added2 && Order(v, reverse) == q
    {
      if q == p {
        assert w in added2 && Order(w, reverse) == q;
      } else {
        var v :| v in added && Order(v, reverse) == q;
        assert v in added2;
      }
    }
  }

  lemma OtherNodes(paths: map<Text, TrieNode>, kids: map<Text, seq<TrieNode?>>, lo: int, n: nat, p: Text)
    requires TreeOf(paths, kids, lo, n) && p in paths
    ensures forall q :: q in paths && q != p ==> paths[q] != paths[p]
    ensures |kids[p]| == n && paths.Keys == kids.Keys
  {
  }

  class Trie {
    const offset: int
    const nodeSize: nat
    const reverse: bool
    const root: TrieNode
    /** The node at the end of each path from the root, its children and its mark. */
    ghost var paths: map<Text, TrieNode>
    ghost var kids: map<Text, seq<TrieNode?>>
    ghost var ends: map<Text, bool>
    /** The strings accepted so far. */
    ghost var added: set<Text>

    /** The nodes hold what the maps say. */
    ghost predicate Mirrors()
      reads this, paths.Values
    {
      && kids.Keys == ends.Keys == paths.Keys
      && forall p :: p in paths ==> paths[p].nodes == kids[p] && paths[p].end == ends[p]
    }

    ghost predicate Valid()
      reads this, paths.Values
    {
      && TreeOf(paths, kids, offset, nodeSize) && EndsOf(ends, added, reverse)
      && Mirrors() && paths[[]] == root
    }

    constructor (offset: int, nodeSize: nat, reverse: bool)
      ensures Valid() && added == {} && this.offset == offset && this.nodeSize == nodeSize && this.reverse == reverse
      ensures fresh(paths.Values)
    {
      this.offset, this.nodeSize, this.reverse := offset, nodeSize, reverse;
      var node := new TrieNode(nodeSize);
      root := node;
      paths, kids, ends, added := map[[] := node], map[[] := node.nodes], map[[] := false], {};
    }

    method SetEdge(node: TrieNode, ghost p: Text, c: int, child: TrieNode)
      requires Mirrors() && p in paths && paths[p] == node && InRange(c, offset, nodeSize) && |kids[p]| == nodeSize
      requires forall q :: q in paths && q != p ==> paths[q] != node
      modifies this`kids, node`nodes
      ensures Mirrors() && kids == old(kids)[p := old(kids)[p][c - offset := child]]
    {
      node.nodes := node.nodes[c - offset := child];
      kids := kids[p := node.nodes];
    }

    method Attach(node: TrieNode, ghost p: Text, c: int, child: TrieNode)
      requires Mirrors() && p in paths && paths[p] == node && p + [c] !in paths && InRange(c, offset, nodeSize)
      requires |kids[p]| == nodeSize && child !in paths.Values && child.nodes == Nulls(nodeSize) && !child.end
      requires forall q :: q in paths && q != p ==> paths[q] != node
      modifies this`paths, this`kids, this`ends, node`nodes
      ensures Mirrors() && paths == old(paths)[p + [c] := child]
      ensures kids == old(kids)[p := old(kids)[p][c - offset := child]][p + [c] := Nulls(nodeSize)]
      ensures ends == old(ends)[p + [c] := false]
    {
      ghost var at := p + [c];
      SetEdge(node, p, c, child);
      kids := kids[at := Nulls(nodeSize)];
      ends := ends[at := false];
      paths := paths[at := child];
    }

    lemma KeepRoot(at: Text)
      requires Valid() && at !in paths
      ensures at != [] && [] in paths
    {
    }

    /** Hangs a new node under the one at the end of `p`. */
    method Extend(node: TrieNode, ghost p: Text, c: int) returns (child: TrieNode)
      requires Valid() && p in paths && paths[p] == node && InRange(c, offset, nodeSize)
      requires node.nodes[c - offset] == null
      modifies this`paths, this`kids, this`ends, node`nodes
      ensures Valid() && fresh(child) && p + [c] !in old(paths) && paths == old(paths)[p + [c] := child]
    {
      OtherNodes(paths, kids, offset, nodeSize, p);
      KeepRoot(p + [c]);
      child := new TrieNode(nodeSize);
      ExtendTree(paths, kids, offset, nodeSize, p, c, child);
      EndsMore(ends, added, reverse, p + [c]);
      hide TreeOf, EndsOf;
      Attach(node, p, c, child);
    }

    lemma EdgeFacts(p: Text, c: int)
      requires Valid() && p in paths && InRange(c, offset, nodeSize)
      ensures |paths[p].nodes| == nodeSize
      ensures var child := paths[p].nodes[c - offset];
        if child == null then p + [c] !in paths else p + [c] in paths && paths[p + [c]] == child
    {
      assert EdgeOf(paths, kids, p, c, offset, nodeSize);
    }

    /** The child of a node, made if it is missing. */
    method Follow(node: TrieNode, ghost p: Text, c: int) returns (next: TrieNode)
      requires Valid() && p in paths && paths[p] == node && InRange(c, offset, nodeSize)
      modifies this`paths, this`kids, this`ends, node`nodes
      ensures Valid() && p + [c] in paths && paths[p + [c]] == next
      ensures paths == old(paths) || (fresh(next) && paths == old(paths)[p + [c] := next])
    {
      EdgeFacts(p, c);
      hide TreeOf, EndsOf;
      var child := node.nodes[c - offset];
      if child == null {
        next := Extend(node, p, c);
      } else {
        next := child;
      }
    }

    /** One step along a path. */
    method Walk(node: TrieNode, path: Text, i: nat) returns (next: TrieNode)
      requires Valid() && i < |path| && InRange(path[i], offset, nodeSize)
      requires path[..i] in paths && paths[path[..i]] == node
      modifies this`paths, this`kids, this`ends, paths.Values
      ensures Valid() && fresh(paths.Values - old(paths.Values))
      ensures path[..i + 1] in paths && paths[path[..i + 1]] == next
    {
      hide Valid;
      assert path[..i + 1] == path[..i] + [path[i]];
      next := Follow(node, path[..i], path[i]);
    }

    lemma RootFacts()
      requires Valid()
      ensures [] in paths && paths[[]] == root
    {
    }

    /** Walks a path, making the nodes that are missing. */
    method Descend(path: Text) returns (node: TrieNode)
      requires Valid() && forall c :: c in path ==> InRange(c, offset, nodeSize)
      modifies this`paths, this`kids, this`ends, paths.Values
      ensures Valid() && fresh(paths.Values - old(paths.Values)) && path in paths && paths[path] == node
    {
      RootFacts();
      hide Valid;
      node := root;
      var i := 0;
      while i < |path|
        invariant i <= |path| && Valid() && fresh(paths.Values - old(paths.Values))
        invariant path[..i] in paths && paths[path[..i]] == node
      {
        node := Walk(node, path, i);
        i := i + 1;
      }
      assert path[..i] == path;
    }

    method SetEnd(node: TrieNode, ghost p: Text)
      requires Mirrors() && p in paths && paths[p] == node
      requires forall q :: q in paths && q != p ==> paths[q] != node
      modifies this`ends, node`end
      ensures Mirrors() && ends == old(ends)[p := true]
    {
      node.end := true;
      ends := ends[p := true];
    }

    method Mark(node: TrieNode, ghost w: Text)
      requires Valid() && w != [] && Order(w, reverse) in paths && paths[Order(w, reverse)] == node
      modifies this`ends, this`added, node`end
      ensures Valid() && added == old(added) + {w}
    {
      ghost var p := Order(w, reverse);
      OtherNodes(paths, kids, offset, nodeSize, p);
      EndsMarked(ends, added, reverse, w);
      hide TreeOf, EndsOf;
      SetEnd(node, p);
      added := added + {w};
    }

    ghost predicate Accepted(prefix: Text)
    {
      prefix != [] && forall c :: c in prefix ==> InRange(c, offset, nodeSize)
    }

    /** Rejects the empty string and characters outside the alphabet; any other string is in the trie afterwards. */
    method AddPrefix(prefix: Text) returns (ok: bool)
      requires Valid()
      modifies this`paths, this`kids, this`ends, this`added, paths.Values
      ensures Valid() && fresh(paths.Values - old(paths.Values))
      ensures ok <==> Accepted(prefix)
      ensures ok <==> prefix != [] && forall i :: 0 <= i < |prefix| ==> offset <= prefix[i] < offset + nodeSize
      ensures added == if ok then old(added) + {prefix} else old(added)
    {
      hide Valid;
      if |prefix| == 0 {
        return false;
      }
      var i := 0;
      while i < |prefix|
        invariant i <= |prefix| && forall j :: 0 <= j < i ==> InRange(prefix[j], offset, nodeSize)
      {
        if prefix[i] < offset || prefix[i] >= offset + nodeSize {
          assert prefix[i] in prefix;
          return false;
        }
        i := i + 1;
      }
      OrderFacts(prefix, reverse);
      var node := Descend(Order(prefix, reverse));
      Mark(node, prefix);
      ok := true;
    }

    /** Some accepted string begins the literal; in reverse mode, ends it. */
    ghost predicate Matches(literal: Text)
      reads this
    {
      exists w :: w in added && if reverse then Ends(w, literal) else w <= literal
    }

    /** In terms of the path: some marked path begins it. */
    lemma MatchedBy(literal: Text)
      requires Valid()
      ensures Matches(literal) <==> exists p :: p in ends && ends[p] && p <= Order(literal, reverse)
    {
      var path := Order(literal, reverse);
      if Matches(literal) {
        var w :| w in added && if reverse then Ends(w, literal) else w <= literal;
        ReversedPrefix(w, literal);
        assert Order(w, reverse) in ends && ends[Order(w, reverse)];
      }
      if p :| p in ends && ends[p] && p <= path {
        var w :| w in added && Order(w, reverse) == p;
        ReversedPrefix(w, literal);
      }
    }

    /** No path as long as this or shorter is marked. */
    ghost predicate NoEndYet(path: Text, i: nat)
      reads this
    {
      forall j :: 0 <= j <= i && j <= |path| && path[..j] in ends ==> !ends[path[..j]]
    }

    lemma EmptyNotMarked()
      requires Valid()
      ensures [] in ends && !ends[[]]
    {
      forall w | w in added
        ensures Order(w, reverse) != []
      {
        OrderFacts(w, reverse);
      }
    }

    lemma PathOver(path: Text)
      requires NoEndYet(path, |path|)
      ensures !exists p :: p in ends && ends[p] && p <= path
    {
      forall p | p in ends && p <= path
        ensures !ends[p]
      {
        assert path[..|p|] == p;
      }
    }

    lemma NoEmptyEnd(path: Text, i: nat)
      requires Valid() && i == 0
      ensures NoEndYet(path, 0)
      ensures path == [] ==> !exists p :: p in ends && ends[p] && p <= path
    {
      EmptyNotMarked();
      assert path[..0] == [];
      if path == [] {
        PathOver(path);
      }
    }

    lemma NoEndNext(path: Text, i: nat)
      requires i < |path| && NoEndYet(path, i) && path[..i + 1] in ends && !ends[path[..i + 1]]
      ensures NoEndYet(path, i + 1)
    {
    }

    lemma StaysShort(p: Text, path: Text, i: nat)
      requires Valid() && i < |path| && p in ends && p <= path
      requires !InRange(path[i], offset, nodeSize) || path[..i + 1] !in paths
      ensures |p| <= i
    {
      if |p| > i {
        assert p[..i + 1] == path[..i + 1] && p[i] == path[i];
        PathInside(paths, kids, offset, nodeSize, p, i + 1);
      }
    }

    /** Behind the edge of the tree no marked path can follow. */
    lemma PathLeaves(path: Text, i: nat)
      requires Valid() && i < |path| && NoEndYet(path, i)
      requires !InRange(path[i], offset, nodeSize) || path[..i + 1] !in paths
      ensures !exists p :: p in ends && ends[p] && p <= path
    {
      forall p | p in ends && p <= path
        ensures !ends[p]
      {
        assert path[..|p|] == p;
        StaysShort(p, path, i);
      }
    }

    /** Walks down until a marked node, or until the path leaves the tree or the alphabet. */
    method MatchPath(path: Text) returns (r: bool)
      requires Valid()
      ensures r <==> exists p :: p in ends && ends[p] && p <= path
    {
      hide TreeOf, EndsOf;
      if |path| == 0 {
        NoEmptyEnd(path, 0);
        return false;
      }
      var node := root;
      var i := 0;
      RootFacts();
      NoEmptyEnd(path, 0);
      while i < |path|
        invariant i <= |path| && path[..i] in paths && paths[path[..i]] == node
        invariant NoEndYet(path, i)
      {
        if path[i] < offset || path[i] >= offset + nodeSize {
          PathLeaves(path, i);
          return false;
        }
        EdgeFacts(path[..i], path[i]);
        assert path[..i + 1] == path[..i] + [path[i]];
        var next := node.nodes[path[i] - offset];
        if next == null {
          PathLeaves(path, i);
          return false;
        }
        node := next;
        if node.end {
          assert path[..i + 1] in ends && ends[path[..i + 1]] && path[..i + 1] <= path;
          return true;
        }
        NoEndNext(path, i);
        i := i + 1;
      }
      PathOver(path);
      r := false;
    }

    method MatchPrefixWith(literal: Text) returns (r: bool)
      requires Valid()
      ensures r <==> Matches(literal)
      ensures r <==>
        exists w :: w in added && |w| <= |literal| &&
          w == if reverse then literal[|literal| - |w|..] else literal[..|w|]
    {
      var path := Order(literal, reverse);
      OrderFacts(literal, reverse);
      MatchedBy(literal);
      r := MatchPath(path);
    }
  }
}
