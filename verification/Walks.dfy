/** Depth-first descent with a stack, as both the rc-file importer and the config
    expander perform it, against the plain graph statement of when it goes through. */
module Walks {
  import opened Prelude

  type Graph = map<string, set<string>>

  function Successors(g: Graph, n: string): set<string> {
    if n in g then g[n] else {}
  }

  /** A non-empty sequence of nodes that follows edges. */
  ghost predicate IsWalk(g: Graph, w: seq<string>) {
    && |w| > 0
    && forall i :: 0 <= i < |w| - 1 ==> w[i + 1] in Successors(g, w[i])
  }

  /** The walk repeats no node, meets no bad node and stays off the stack. */
  ghost predicate IsClean(bad: iset<string>, w: seq<string>, stack: seq<string>) {
    && Distinct(w)
    && forall i :: 0 <= i < |w| ==> w[i] !in bad && w[i] !in stack
  }

  ghost predicate AllWalksClean(g: Graph, bad: iset<string>, n: string, stack: seq<string>) {
    forall w :: IsWalk(g, w) && w[0] == n ==> IsClean(bad, w, stack)
  }

  /** The descent itself: refuse a node that is bad or already on the stack, then
      visit every successor with the node pushed. */
  ghost predicate Descends(g: Graph, bad: iset<string>, n: string, stack: seq<string>)
    decreases g.Keys - Elements(stack)
  {
    && n !in stack
    && n !in bad
    && (n in g ==>
          assert n in g.Keys - Elements(stack) && n !in g.Keys - Elements(stack + [n]);
          forall m :: m in g[n] ==> Descends(g, bad, m, stack + [n]))
  }

  lemma {:induction false} DescentCleansWalk(g: Graph, bad: iset<string>, w: seq<string>, stack: seq<string>)
    requires IsWalk(g, w) && Descends(g, bad, w[0], stack)
    ensures IsClean(bad, w, stack)
    decreases |w|
  {
    if |w| > 1 {
      var rest, pushed := w[1..], stack + [w[0]];
      assert w[1] in Successors(g, w[0]);
      assert IsWalk(g, rest) by {
        forall i | 0 <= i < |rest| - 1 ensures rest[i + 1] in Successors(g, rest[i]) {
          assert w[i + 2] in Successors(g, w[i + 1]);
        }
      }
      DescentCleansWalk(g, bad, rest, pushed);
      forall i | 0 <= i < |w|
        ensures w[i] !in bad && w[i] !in stack && (i > 0 ==> w[i] != w[0])
      {
        if i > 0 {
          assert w[i] == rest[i - 1];
          assert w[0] in pushed;
          assert forall x :: x in stack ==> x in pushed;
        }
      }
      forall i, j | 0 <= i < j < |w| ensures w[i] != w[j] {
        if i > 0 {
          assert rest[i - 1] != rest[j - 1];
        }
      }
    }
  }

  lemma {:induction false} RefusalHasDirtyWalk(g: Graph, bad: iset<string>, n: string, stack: seq<string>)
      returns (w: seq<string>)
    requires !Descends(g, bad, n, stack)
    ensures IsWalk(g, w) && w[0] == n && !IsClean(bad, w, stack)
    decreases g.Keys - Elements(stack)
  {
    w := [n];
    if n !in stack && n !in bad {
      assert n in g.Keys - Elements(stack) && n !in g.Keys - Elements(stack + [n]);
      var m :| m in g[n] && !Descends(g, bad, m, stack + [n]);
      var rest := RefusalHasDirtyWalk(g, bad, m, stack + [n]);
      w := [n] + rest;
      assert IsWalk(g, w) by {
        forall i | 0 <= i < |w| - 1 ensures w[i + 1] in Successors(g, w[i]) {
          if i > 0 {
            assert rest[i - 1 + 1] in Successors(g, rest[i - 1]);
          }
        }
      }
      if IsClean(bad, w, stack) {
        forall i | 0 <= i < |rest| ensures rest[i] !in bad && rest[i] !in stack + [n] {
          assert rest[i] == w[i + 1];
          assert w[0] != w[i + 1];
        }
        forall i, j | 0 <= i < j < |rest| ensures rest[i] != rest[j] {
          assert w[i + 1] != w[j + 1];
        }
        assert false;
      }
    }
  }

  /** The descent goes through exactly when every walk from the node is free of
      repetition, of bad nodes and of nodes already on the stack. */
  lemma DescentIffAllWalksClean(g: Graph, bad: iset<string>, n: string, stack: seq<string>)
    ensures Descends(g, bad, n, stack) <==> AllWalksClean(g, bad, n, stack)
  {
    if Descends(g, bad, n, stack) {
      forall w | IsWalk(g, w) && w[0] == n ensures IsClean(bad, w, stack) {
        DescentCleansWalk(g, bad, w, stack);
      }
    } else {
      var w := RefusalHasDirtyWalk(g, bad, n, stack);
      assert IsWalk(g, w) && w[0] == n && !IsClean(bad, w, stack);
    }
  }

  lemma WalkExtends(g: Graph, w: seq<string>, n: string)
    requires IsWalk(g, w) && n in Successors(g, w[|w| - 1])
    ensures IsWalk(g, w + [n])
  {
    var x := w + [n];
    forall i | 0 <= i < |x| - 1 ensures x[i + 1] in Successors(g, x[i]) {
      if i < |w| - 1 {
        assert w[i + 1] in Successors(g, w[i]);
      }
    }
  }

  /** A walk whose last node already occurs in it. */
  ghost predicate ClosesCycle(g: Graph, chain: seq<string>) {
    IsWalk(g, chain) && chain[|chain| - 1] in chain[..|chain| - 1]
  }
}
