/** The worklist of check-lint-targets-reachable: exactly the targets some chain of
    prerequisites reaches, on every finite graph. */
module LintReachability {

  type Graph = map<string, seq<string>>

  function Prerequisites(g: Graph, node: string): seq<string> {
    if node in g then g[node] else []
  }

  /** Each target on the chain is a prerequisite of the one before it. */
  ghost predicate IsChain(g: Graph, chain: seq<string>) {
    && chain != []
    && forall i :: 0 <= i < |chain| - 1 ==> chain[i] in g && chain[i + 1] in g[chain[i]]
  }

  ghost predicate Reaches(g: Graph, roots: seq<string>, node: string) {
    exists chain :: IsChain(g, chain) && chain[0] in roots && chain[|chain| - 1] == node
  }

  /** Every node the worklist can ever meet. */
  ghost function Universe(g: Graph, roots: seq<string>): set<string> {
    (set r | r in roots) + (set n, p | n in g && p in g[n] :: p)
  }

  lemma RootReaches(g: Graph, roots: seq<string>, root: string)
    requires root in roots
    ensures Reaches(g, roots, root)
  {
    assert IsChain(g, [root]);
  }

  lemma ReachesOneMore(g: Graph, roots: seq<string>, node: string, next: string)
    requires Reaches(g, roots, node) && next in Prerequisites(g, node)
    ensures Reaches(g, roots, next)
  {
    var chain :| IsChain(g, chain) && chain[0] in roots && chain[|chain| - 1] == node;
    assert IsChain(g, chain + [next]);
  }

  /** A set that holds the roots and is closed under prerequisites holds everything reachable. */
  lemma {:induction false} ClosedHoldsChains(g: Graph, roots: seq<string>, seen: set<string>, chain: seq<string>)
    requires forall r <- roots :: r in seen
    requires forall n <- seen, p <- Prerequisites(g, n) :: p in seen
    requires IsChain(g, chain) && chain[0] in roots
    ensures chain[|chain| - 1] in seen
  {
    if |chain| > 1 {
      ClosedHoldsChains(g, roots, seen, chain[..|chain| - 1]);
      assert chain[|chain| - 1] in Prerequisites(g, chain[|chain| - 2]);
    }
  }

  /** Nothing already met is lost: it has been seen or still waits. */
  ghost predicate Covered(g: Graph, roots: seq<string>, seen: set<string>, stack: seq<string>) {
    && (forall r <- roots :: r in seen || r in stack)
    && (forall n <- seen, p <- Prerequisites(g, n) :: p in seen || p in stack)
  }

  /** Nothing is met that no chain reaches. */
  ghost predicate Justified(g: Graph, roots: seq<string>, met: set<string>) {
    forall n <- met :: n in Universe(g, roots) && Reaches(g, roots, n)
  }

  ghost function Elements(s: seq<string>): set<string> {
    set x | x in s
  }

  lemma VisitJustified(g: Graph, roots: seq<string>, seen: set<string>, stack: seq<string>, node: string)
    requires Justified(g, roots, seen) && Justified(g, roots, Elements(stack + [node]))
    ensures Justified(g, roots, Elements(stack)) && node in Universe(g, roots)
    ensures Justified(g, roots, seen + {node}) && Justified(g, roots, Elements(stack + Prerequisites(g, node)))
  {
    assert node in Elements(stack + [node]);
    forall x | x in stack ensures x in Elements(stack + [node]) {}
    forall p | p in Prerequisites(g, node) ensures p in Universe(g, roots) && Reaches(g, roots, p) {
      ReachesOneMore(g, roots, node, p);
    }
  }

  lemma VisitCovers(g: Graph, roots: seq<string>, seen: set<string>, stack: seq<string>, node: string)
    requires Covered(g, roots, seen, stack + [node])
    ensures node in seen ==> Covered(g, roots, seen, stack)
    ensures Covered(g, roots, seen + {node}, stack + Prerequisites(g, node))
  {
    forall x ensures x in stack + [node] <==> x in stack || x == node {}
  }

  lemma SeenIsReachable(g: Graph, roots: seq<string>, seen: set<string>)
    requires Covered(g, roots, seen, []) && Justified(g, roots, seen)
    ensures forall node :: node in seen <==> Reaches(g, roots, node)
  {
    forall node | Reaches(g, roots, node) ensures node in seen {
      var chain :| IsChain(g, chain) && chain[0] in roots && chain[|chain| - 1] == node;
      ClosedHoldsChains(g, roots, seen, chain);
    }
  }

  lemma RootsJustified(g: Graph, roots: seq<string>)
    ensures Justified(g, roots, Elements(roots))
  {
    forall r | r in roots ensures Reaches(g, roots, r) {
      RootReaches(g, roots, r);
    }
  }

  method ReachableFrom(roots: seq<string>, g: Graph) returns (seen: set<string>)
    ensures forall node :: node in seen <==> Reaches(g, roots, node)
  {
    seen := {};
    var stack := roots;
    RootsJustified(g, roots);
    while stack != []
      invariant Covered(g, roots, seen, stack)
      invariant Justified(g, roots, seen) && Justified(g, roots, Elements(stack))
      decreases Universe(g, roots) - seen, |stack|
    {
      var node, rest := stack[|stack| - 1], stack[..|stack| - 1];
      assert stack == rest + [node];
      VisitCovers(g, roots, seen, rest, node);
      VisitJustified(g, roots, seen, rest, node);
      stack := rest;
      if node in seen {
        continue;
      }
      seen := seen + {node};
      stack := stack + Prerequisites(g, node);
    }
    SeenIsReachable(g, roots, seen);
  }
}
