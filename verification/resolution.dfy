/**
  Alias resolution (`generator::processVars`) and the whole of
  `generator::loadVars`.

  A variable is an alias of `n` when its entire value is one placeholder
  token naming `n`. The aliases form a graph with at most one edge out of
  each variable. The source orders the graph's nodes by a depth-first
  traversal that marks a node visited on entry and emits it after its
  neighbour (post-order), then walks that order and overwrites every alias
  with the current value of its target. The source's cycle check is a stub
  that is never called: a cyclic table is resolved the same way and the
  result is always success. The model keeps that behaviour; the "no alias
  remains" guarantee is proved for acyclic graphs only.
 */
module Resolution {
  import opened Common
  import opened Substitutor
  import opened VarTable

  /** Target of an alias value: the whole value must be one token, with nothing before or after it. */
  function AliasTarget(v: string): (r: Option<string>)
  {
    match MatchPrefix(v)
    case Some(t) =>
      if t.len == |v| then
        Some(t.name)
      else
        None
    case None => None
  }

  /** A value is an alias of `n` exactly when it is a token of the grammar naming `n`. */
  lemma AliasTargetExact(v: string, n: string)
    ensures AliasTarget(v) == Some(n) <==> IsPlaceholder(v, n)
  {
    MatchPrefixExact(v, |v|, n);
    assert v[..|v|] == v;
  }

  /** The alias graph: an edge from every alias to the variable it names. A map, so out-degree is at most one. */
  type Graph = map<string, string>

  function Nodes(g: Graph): set<string> {
    g.Keys + g.Values
  }

  function AliasGraph(vars: Vars): (g: Graph)
    ensures g.Keys <= vars.Keys
  {
    map k | k in vars && AliasTarget(vars[k]).Some? :: AliasTarget(vars[k]).value
  }

  /** The edge out of one variable, read off its value. */
  lemma AliasGraphAt(vars: Vars, k: string)
    ensures k in AliasGraph(vars) <==> k in vars && AliasTarget(vars[k]).Some?
    ensures k in AliasGraph(vars) ==> AliasTarget(vars[k]) == Some(AliasGraph(vars)[k])
  {
  }

  /** An edge `k -> n` exists iff the whole value of `k` is a token naming `n`. */
  lemma AliasGraphEdges(vars: Vars, k: string, n: string)
    ensures (k in AliasGraph(vars) && AliasGraph(vars)[k] == n) <==> (k in vars && IsPlaceholder(vars[k], n))
  {
    if k in vars {
      AliasTargetExact(vars[k], n);
    }
  }

  /** The node reached from `x` after `n` alias steps, if the chain is that long. */
  function Follow(g: Graph, x: string, n: nat): Option<string>
    decreases n
  {
    if n == 0 then Some(x)
    else if x in g then Follow(g, g[x], n - 1)
    else None
  }

  /** No variable comes back to itself by following one or more alias steps. */
  ghost predicate Acyclic(g: Graph) {
    forall x, n: nat :: x in g && n >= 1 ==> Follow(g, x, n) != Some(x)
  }

  lemma {:induction false} FollowSnoc(g: Graph, x: string, n: nat)
    ensures Follow(g, x, n + 1)
            == match Follow(g, x, n)
               case Some(y) => if y in g then Some(g[y]) else None
               case None => None
    decreases n
  {
    if n > 0 && x in g {
      FollowSnoc(g, g[x], n - 1);
    }
  }

  function Elems(s: seq<string>): set<string> {
    set x | x in s
  }

  predicate Distinct(s: seq<string>) {
    forall i, j :: 0 <= i < j < |s| ==> s[i] != s[j]
  }

  /** `e` lists an alias chain backwards: each element is the target of the one after it. */
  ghost predicate BackwardChain(g: Graph, e: seq<string>) {
    forall j :: 1 <= j < |e| ==> e[j] in g && g[e[j]] == e[j - 1]
  }

  /**
    The `dfs` lambda of `topologicalSort`: marks `node` visited, descends into
    its one neighbour if that is not visited yet, then emits `node`. Returns
    the nodes emitted, in emission order. Because every node has at most one
    neighbour, what it emits is the alias chain from `node`, target first,
    and it stops at a chain end or at a node already visited, which on a
    cycle is one it is still inside.
   */
  function Dfs(g: Graph, node: string, visited: set<string>): (e: seq<string>)
    requires node in Nodes(g) && visited <= Nodes(g) && node !in visited
    ensures |e| >= 1 && e[|e| - 1] == node
    ensures BackwardChain(g, e)
    ensures e[0] !in g || g[e[0]] in visited || g[e[0]] in e
    ensures forall j :: 0 <= j < |e| ==> e[j] in Nodes(g) && e[j] !in visited
    ensures Distinct(e)
    decreases Nodes(g) - visited
  {
    var visited' := visited + {node};
    if node in g && g[node] !in visited' then
      Dfs(g, g[node], visited') + [node]
    else
      [node]
  }

  /** Along a backward chain, `k` steps from `e[m]` lead to `e[m - k]`. */
  lemma {:induction false} ChainFollow(g: Graph, e: seq<string>, m: nat, k: nat)
    requires BackwardChain(g, e)
    requires m < |e| && k <= m
    ensures Follow(g, e[m], k) == Some(e[m - k])
    decreases k
  {
    if k > 0 {
      ChainFollow(g, e, m, k - 1);
      FollowSnoc(g, e[m], k - 1);
      assert e[m - k + 1] in g && g[e[m - k + 1]] == e[m - k];
    }
  }

  /** If the chain's last target points back into the chain, the graph has a cycle. */
  lemma ChainBackEdgeIsCycle(g: Graph, e: seq<string>, m: nat)
    requires BackwardChain(g, e)
    requires m < |e| && e[0] in g && g[e[0]] == e[m]
    ensures !Acyclic(g)
  {
    ChainFollow(g, e, m, m);
    FollowSnoc(g, e[m], m);
    assert Follow(g, e[m], m + 1) == Some(e[m]);
    assert e[m] in g;
  }

  /** Every alias target occurs before its alias. */
  ghost predicate TargetsFirst(g: Graph, order: seq<string>) {
    forall j :: 0 <= j < |order| && order[j] in g ==> g[order[j]] in order[..j]
  }

  /** On an acyclic graph, appending the chain one `Dfs` call emits keeps targets ahead of aliases. */
  lemma AppendChainTargetsFirst(g: Graph, order: seq<string>, e: seq<string>)
    requires Acyclic(g)
    requires TargetsFirst(g, order)
    requires |e| >= 1 && BackwardChain(g, e)
    requires e[0] !in g || g[e[0]] in order || g[e[0]] in e
    ensures TargetsFirst(g, order + e)
  {
    var o := order + e;
    if e[0] in g && g[e[0]] !in order {
      var m :| 0 <= m < |e| && e[m] == g[e[0]];
      ChainBackEdgeIsCycle(g, e, m);
      assert false;
    }
    forall j | 0 <= j < |o| && o[j] in g
      ensures g[o[j]] in o[..j]
    {
      if j < |order| {
        assert o[..j] == order[..j];
      } else if j == |order| {
        assert o[..j] == order;
      } else {
        assert o[j - 1] == e[j - |order| - 1];
      }
    }
  }

  /**
    Where an alias comes before its target in `order` (the back edge that
    closes a cycle), every node from the alias up to the target points to
    the node just before it: the stretch is a backward chain.
   */
  ghost predicate BackEdgesChained(g: Graph, order: seq<string>) {
    forall j, m :: 0 <= j < m < |order| && order[j] in g && g[order[j]] == order[m] ==>
      BackwardChain(g, order[j..m + 1])
  }

  /** Inside a backward chain appended at position `b`, the node at `j` points to the one just before it. */
  lemma ChainStep(g: Graph, o: seq<string>, b: nat, j: nat)
    requires b <= |o| && BackwardChain(g, o[b..]) && b < j < |o|
    ensures o[j] in g && g[o[j]] == o[j - 1]
  {
    assert o[b..][j - b] == o[j] && o[b..][j - b - 1] == o[j - 1];
  }

  /** In a sequence without repetitions, an element of the appended part is not in the first part. */
  lemma AppendedNotEarlier(order: seq<string>, e: seq<string>, m: nat)
    requires Distinct(order + e) && |order| <= m < |order + e|
    ensures (order + e)[m] !in Elems(order)
  {
    forall q | 0 <= q < |order|
      ensures order[q] != (order + e)[m]
    {
      assert (order + e)[q] == order[q];
    }
  }

  /** Appending the chain one `Dfs` call emits keeps back edges chained, on every graph. */
  lemma AppendChainBackEdges(g: Graph, order: seq<string>, e: seq<string>)
    requires BackEdgesChained(g, order)
    requires forall x :: x in Elems(order) && x in g ==> g[x] in Elems(order)
    requires Distinct(order + e)
    requires |e| >= 1 && BackwardChain(g, e)
    requires e[0] !in g || g[e[0]] in order || g[e[0]] in e
    ensures BackEdgesChained(g, order + e)
  {
    var o := order + e;
    assert o[|order|..] == e;
    forall j, m | 0 <= j < m < |o| && o[j] in g && g[o[j]] == o[m]
      ensures BackwardChain(g, o[j..m + 1])
    {
      if m < |order| {
        assert o[j..m + 1] == order[j..m + 1];
      } else if j < |order| {
        AppendedNotEarlier(order, e, m);
        assert false;
      } else if j > |order| {
        ChainStep(g, o, |order|, j);
        assert false;
      } else {
        assert o[j..m + 1] == e[..m + 1 - j];
      }
    }
  }

  /**
    `topologicalSort`: a `Dfs` from every alias not yet visited. The roots
    are taken in an arbitrary order (the source's `std::map` order plays no
    role in what is proved). Every alias and every target is emitted exactly
    once, and on an acyclic graph every target precedes its alias.
   */
  method TopologicalSort(g: Graph) returns (order: seq<string>)
    ensures Distinct(order)
    ensures Elems(order) == Nodes(g)
    ensures Acyclic(g) ==> TargetsFirst(g, order)
    ensures BackEdgesChained(g, order)
  {
    var visited: set<string> := {};
    order := [];
    var roots := g.Keys;
    while roots != {}
      invariant visited == Elems(order)
      invariant visited <= Nodes(g)
      invariant g.Keys - roots <= visited
      invariant Distinct(order)
      invariant forall x :: x in visited && x in g ==> g[x] in visited
      invariant Acyclic(g) ==> TargetsFirst(g, order)
      invariant BackEdgesChained(g, order)
      decreases roots
    {
      var k :| k in roots;
      roots := roots - {k};
      if k !in visited {
        var e := Dfs(g, k, visited);
        if Acyclic(g) {
          AppendChainTargetsFirst(g, order, e);
        }
        assert Distinct(order + e) by {
          forall i, j | 0 <= i < j < |order + e|
            ensures (order + e)[i] != (order + e)[j]
          {
            if i < |order| <= j {
              assert (order + e)[i] in visited;
            }
          }
        }
        AppendChainBackEdges(g, order, e);
        forall x | x in Elems(e) && x in g
          ensures g[x] in visited + Elems(e)
        {
          var j :| 0 <= j < |e| && e[j] == x;
          if j > 0 {
            assert g[e[j]] == e[j - 1];
          }
        }
        order := order + e;
        visited := visited + Elems(e);
      }
    }
  }

  /**
    One pass of the final loop of `processVars` for `p`: when the current
    value of `p` is an alias, `p` takes the current value of its target
    (a missing target is created with the empty value); otherwise `p` keeps
    its value (and is created empty if it is missing).
   */
  function ResolveStep(cur: Vars, p: string): Vars {
    var v := Lookup(cur, p);
    match AliasTarget(v)
    case Some(n) =>
      var withTarget := if n in cur then cur else cur[n := ""];
      withTarget[p := Lookup(cur, n)]
    case None => cur[p := v]
  }

  /** Loop invariant of the final loop of `processVars` that holds for every table: `done` are the nodes processed so far. */
  ghost predicate Progress(vars: Vars, g: Graph, done: seq<string>, r: Vars) {
    && (forall x :: x in vars ==> x in r)
    && (forall x :: x in done ==> x in r)
    && (forall x :: x in r ==> x in vars || x in Nodes(g))
    && (forall x :: x in vars && x !in done ==> r[x] == vars[x])
    && (forall x :: x in vars && x !in g ==> r[x] == vars[x])
    && (forall x :: x in r && x !in vars ==> r[x] == "")
  }

  /** The part of the invariant that needs targets to be processed before their aliases. */
  ghost predicate ResolvedSoFar(g: Graph, done: seq<string>, r: Vars) {
    && (forall x :: x in done ==> x in r && AliasTarget(r[x]).None?)
    && (forall x :: x in done && x in g ==> g[x] in done && r[x] == r[g[x]])
  }

  /** What the alias graph `g` of `vars` says about one node `p`. */
  ghost predicate EdgeAt(vars: Vars, g: Graph, p: string)
    requires g.Keys <= vars.Keys
  {
    && (p in g ==> AliasTarget(vars[p]) == Some(g[p]))
    && (p in vars && p !in g ==> AliasTarget(vars[p]) == None)
  }

  lemma EmptyIsNoAlias()
    ensures AliasTarget("") == None
  {
  }

  lemma ResolveStepProgress(vars: Vars, g: Graph, done: seq<string>, p: string, r: Vars)
    requires g.Keys <= vars.Keys && EdgeAt(vars, g, p)
    requires Progress(vars, g, done, r)
    requires p !in done && p in Nodes(g)
    ensures Progress(vars, g, done + [p], ResolveStep(r, p))
  {
    var r' := ResolveStep(r, p);
    var v := Lookup(r, p);
    if p in g {
      assert v == vars[p];
      var n := g[p];
      var withTarget := if n in r then r else r[n := ""];
      assert r' == withTarget[p := Lookup(r, n)];
      assert n in Nodes(g);
    } else {
      if p in vars {
        assert v == vars[p];
      } else {
        assert v == "";
        EmptyIsNoAlias();
      }
      assert r' == r[p := v];
    }
  }

  lemma ResolveStepResolved(vars: Vars, g: Graph, done: seq<string>, p: string, r: Vars)
    requires g.Keys <= vars.Keys && EdgeAt(vars, g, p)
    requires Progress(vars, g, done, r) && ResolvedSoFar(g, done, r)
    requires p !in done && p in Nodes(g)
    requires p in g ==> g[p] in done
    ensures ResolvedSoFar(g, done + [p], ResolveStep(r, p))
  {
    EmptyIsNoAlias();
    var r' := ResolveStep(r, p);
    if p in g {
      assert Lookup(r, p) == vars[p];
      assert r' == r[p := r[g[p]]];
    } else if p in vars {
      assert r' == r[p := vars[p]];
    } else {
      assert r' == r[p := ""];
    }
  }

  /** The part of the loop invariant that holds on every graph: each processed alias holds the current value of its target. */
  ghost predicate AliasesAgree(g: Graph, done: seq<string>, r: Vars) {
    forall x :: x in done && x in g ==> x in r && g[x] in r && r[x] == r[g[x]]
  }

  /** Along a processed backward chain of the order that starts at an alias, every node holds the value of the chain's first node. */
  lemma {:induction false} ChainValuesAgree(g: Graph, order: seq<string>, r: Vars, i: nat, j: nat, t: nat)
    requires j <= t < i < |order|
    requires order[j] in g
    requires AliasesAgree(g, order[..i], r)
    requires BackwardChain(g, order[j..i + 1])
    ensures order[t] in r && order[j] in r && r[order[t]] == r[order[j]]
    decreases t - j
  {
    assert order[j] in order[..i];
    if t > j {
      assert order[j..i + 1][t - j] == order[t] && order[j..i + 1][t - j - 1] == order[t - 1];
      assert order[t] in order[..i];
      ChainValuesAgree(g, order, r, i, j, t - 1);
    }
  }

  /**
    When `order[i]` is processed, an earlier alias pointing to it (a back edge
    closing a cycle) already holds the value `order[i]` is about to take.
   */
  lemma BackEdgeValue(g: Graph, order: seq<string>, i: nat, r: Vars)
    requires Distinct(order) && BackEdgesChained(g, order)
    requires i < |order| && order[i] in g
    requires AliasesAgree(g, order[..i], r)
    ensures forall x :: x in order[..i] && x in g && g[x] == order[i] ==> x in r && r[x] == Lookup(r, g[order[i]])
  {
    forall x | x in order[..i] && x in g && g[x] == order[i]
      ensures x in r && r[x] == Lookup(r, g[order[i]])
    {
      var j :| 0 <= j < i && order[j] == x;
      assert BackwardChain(g, order[j..i + 1]);
      assert order[j..i + 1][i - j] == order[i] && order[j..i + 1][i - j - 1] == order[i - 1];
      ChainValuesAgree(g, order, r, i, j, i - 1);
    }
  }

  /** Processing a node that is not an alias changes no value, so the agreement is kept. */
  lemma StepNonAliasAgrees(vars: Vars, g: Graph, done: seq<string>, p: string, r: Vars)
    requires g.Keys <= vars.Keys && EdgeAt(vars, g, p)
    requires Progress(vars, g, done, r) && AliasesAgree(g, done, r)
    requires p !in done && p !in g
    ensures AliasesAgree(g, done + [p], ResolveStep(r, p))
  {
    EmptyIsNoAlias();
    if p in vars {
      assert Lookup(r, p) == vars[p];
    } else if p in r {
      assert r[p] == "";
    }
    var r' := ResolveStep(r, p);
    assert r' == r[p := Lookup(r, p)];
    forall x | x in done + [p] && x in g
      ensures x in r' && g[x] in r' && r'[x] == r'[g[x]]
    {
      assert x in done;
    }
  }

  /** Processing an alias keeps the agreement, given that earlier aliases of it already hold the value it takes. */
  lemma StepAliasAgrees(vars: Vars, g: Graph, done: seq<string>, p: string, r: Vars)
    requires g.Keys <= vars.Keys && EdgeAt(vars, g, p)
    requires Progress(vars, g, done, r) && AliasesAgree(g, done, r)
    requires p !in done && p in g
    requires forall x :: x in done && x in g && g[x] == p ==> x in r && r[x] == Lookup(r, g[p])
    ensures AliasesAgree(g, done + [p], ResolveStep(r, p))
  {
    var n := g[p];
    assert Lookup(r, p) == vars[p];
    var withTarget := if n in r then r else r[n := ""];
    var r' := ResolveStep(r, p);
    assert r' == withTarget[p := Lookup(r, n)];
    forall x | x in done + [p] && x in g
      ensures x in r' && g[x] in r' && r'[x] == r'[g[x]]
    {
      if x != p {
        assert x in done;
      }
    }
  }

  /** The node at `i` extends the prefix before it, occurs there for the first time, and is a node of the graph. */
  lemma NextInOrder(g: Graph, order: seq<string>, i: nat)
    requires Distinct(order) && Elems(order) == Nodes(g) && i < |order|
    ensures order[..i + 1] == order[..i] + [order[i]]
    ensures order[i] !in order[..i] && order[i] in Nodes(g)
  {
    assert order[i] in Elems(order);
  }

  /** One iteration of the final loop keeps every processed alias equal to its target, cyclic graphs included. */
  lemma ResolveStepAgrees(vars: Vars, g: Graph, order: seq<string>, i: nat, r: Vars)
    requires g.Keys <= vars.Keys
    requires forall p {:trigger EdgeAt(vars, g, p)} :: p in Nodes(g) ==> EdgeAt(vars, g, p)
    requires Distinct(order) && Elems(order) == Nodes(g) && BackEdgesChained(g, order)
    requires i < |order|
    requires Progress(vars, g, order[..i], r) && AliasesAgree(g, order[..i], r)
    ensures AliasesAgree(g, order[..i + 1], ResolveStep(r, order[i]))
  {
    var p := order[i];
    NextInOrder(g, order, i);
    assert EdgeAt(vars, g, p);
    if p in g {
      BackEdgeValue(g, order, i, r);
      StepAliasAgrees(vars, g, order[..i], p, r);
    } else {
      StepNonAliasAgrees(vars, g, order[..i], p, r);
    }
  }

  /**
    Resolution invents no value: every value of `r` is an original value of
    `vars`, or the empty one, and the empty one only when `r` gained a key.
   */
  ghost predicate ValuesDrawn(vars: Vars, r: Vars) {
    forall k :: k in r ==> r[k] in vars.Values || (r[k] == "" && !(r.Keys <= vars.Keys))
  }

  /** The final loop of `processVars` as a function: one resolution step per node of `s`, in order. */
  function ResolveAll(vars: Vars, s: seq<string>): Vars
    decreases |s|
  {
    if |s| == 0 then vars else ResolveStep(ResolveAll(vars, s[..|s| - 1]), s[|s| - 1])
  }

  /** However many steps are taken, no value is invented and no key is lost. */
  lemma {:induction false} ResolveAllDrawn(vars: Vars, s: seq<string>)
    ensures vars.Keys <= ResolveAll(vars, s).Keys && ValuesDrawn(vars, ResolveAll(vars, s))
    decreases |s|
  {
    if |s| == 0 {
      ValuesDrawnInitially(vars);
    } else {
      ResolveAllDrawn(vars, s[..|s| - 1]);
      ResolveStepDrawn(vars, ResolveAll(vars, s[..|s| - 1]), s[|s| - 1]);
    }
  }

  /** Before the final loop every value is its own original. */
  lemma ValuesDrawnInitially(vars: Vars)
    ensures ValuesDrawn(vars, vars)
  {
    forall k | k in vars
      ensures vars[k] in vars.Values
    {
    }
  }

  /** A resolution step only copies a current value or inserts the empty one, so no value is invented. */
  lemma ResolveStepDrawn(vars: Vars, r: Vars, p: string)
    requires vars.Keys <= r.Keys && ValuesDrawn(vars, r)
    ensures vars.Keys <= ResolveStep(r, p).Keys && ValuesDrawn(vars, ResolveStep(r, p))
  {
    var r2 := ResolveStep(r, p);
    assert r.Keys <= r2.Keys;
    if !(r2.Keys <= r.Keys) {
      var k :| k in r2 && k !in r;
      assert k !in vars;
    }
  }

  /** The final loop of `processVars`: resolve the nodes in the given order, one step each. */
  method ResolveInOrder(vars: Vars, order: seq<string>) returns (r: Vars)
    ensures r == ResolveAll(vars, order)
    ensures vars.Keys <= r.Keys && ValuesDrawn(vars, r)
  {
    r := vars;
    var i := 0;
    while i < |order|
      invariant 0 <= i <= |order|
      invariant r == ResolveAll(vars, order[..i])
    {
      assert order[..i + 1][..i] == order[..i];
      r := ResolveStep(r, order[i]);
      i := i + 1;
    }
    assert order[..i] == order;
    ResolveAllDrawn(vars, order);
  }

  /** After all of `order`, the loop invariants of the final loop hold. */
  lemma ResolveAllInvariants(vars: Vars, g: Graph, order: seq<string>)
    requires g.Keys <= vars.Keys
    requires forall p {:trigger EdgeAt(vars, g, p)} :: p in Nodes(g) ==> EdgeAt(vars, g, p)
    requires Distinct(order) && Elems(order) == Nodes(g)
    requires Acyclic(g) ==> TargetsFirst(g, order)
    requires BackEdgesChained(g, order)
    ensures Progress(vars, g, order, ResolveAll(vars, order))
    ensures AliasesAgree(g, order, ResolveAll(vars, order))
    ensures Acyclic(g) ==> ResolvedSoFar(g, order, ResolveAll(vars, order))
  {
    var n := |order|;
    ResolveAllProgress(vars, g, order, n);
    ResolveAllAgrees(vars, g, order, n);
    if Acyclic(g) {
      ResolveAllResolved(vars, g, order, n);
    }
    assert order[..n] == order;
  }

  /** Every prefix of the order keeps the invariant that holds for every table. */
  lemma {:induction false} ResolveAllProgress(vars: Vars, g: Graph, order: seq<string>, i: nat)
    requires g.Keys <= vars.Keys
    requires forall p {:trigger EdgeAt(vars, g, p)} :: p in Nodes(g) ==> EdgeAt(vars, g, p)
    requires Distinct(order) && Elems(order) == Nodes(g)
    requires i <= |order|
    ensures Progress(vars, g, order[..i], ResolveAll(vars, order[..i]))
    decreases i
  {
    if i == 0 {
      assert order[..0] == [];
    } else {
      ResolveAllProgress(vars, g, order, i - 1);
      PrefixStep(vars, g, order, i);
      ResolveStepProgress(vars, g, order[..i - 1], order[i - 1], ResolveAll(vars, order[..i - 1]));
    }
  }

  /** Every prefix of the order keeps each processed alias equal to its target, cyclic graphs included. */
  lemma {:induction false} ResolveAllAgrees(vars: Vars, g: Graph, order: seq<string>, i: nat)
    requires g.Keys <= vars.Keys
    requires forall p {:trigger EdgeAt(vars, g, p)} :: p in Nodes(g) ==> EdgeAt(vars, g, p)
    requires Distinct(order) && Elems(order) == Nodes(g)
    requires BackEdgesChained(g, order)
    requires i <= |order|
    ensures AliasesAgree(g, order[..i], ResolveAll(vars, order[..i]))
    decreases i
  {
    if i == 0 {
      assert order[..0] == [];
    } else {
      ResolveAllAgrees(vars, g, order, i - 1);
      ResolveAllProgress(vars, g, order, i - 1);
      AgreesStepAt(vars, g, order, i);
    }
  }

  /** Step `i` of the final loop keeps every processed alias equal to its target. */
  lemma AgreesStepAt(vars: Vars, g: Graph, order: seq<string>, i: nat)
    requires g.Keys <= vars.Keys
    requires forall p {:trigger EdgeAt(vars, g, p)} :: p in Nodes(g) ==> EdgeAt(vars, g, p)
    requires Distinct(order) && Elems(order) == Nodes(g)
    requires BackEdgesChained(g, order)
    requires 0 < i <= |order|
    requires Progress(vars, g, order[..i - 1], ResolveAll(vars, order[..i - 1]))
    requires AliasesAgree(g, order[..i - 1], ResolveAll(vars, order[..i - 1]))
    ensures AliasesAgree(g, order[..i], ResolveAll(vars, order[..i]))
  {
    PrefixStep(vars, g, order, i);
    ResolveStepAgrees(vars, g, order, i - 1, ResolveAll(vars, order[..i - 1]));
  }

  /** Where every target comes before its alias, every prefix of the order is fully resolved. */
  lemma {:induction false} ResolveAllResolved(vars: Vars, g: Graph, order: seq<string>, i: nat)
    requires g.Keys <= vars.Keys
    requires forall p {:trigger EdgeAt(vars, g, p)} :: p in Nodes(g) ==> EdgeAt(vars, g, p)
    requires Distinct(order) && Elems(order) == Nodes(g)
    requires TargetsFirst(g, order)
    requires i <= |order|
    ensures ResolvedSoFar(g, order[..i], ResolveAll(vars, order[..i]))
    decreases i
  {
    if i == 0 {
      assert order[..0] == [];
    } else {
      ResolveAllResolved(vars, g, order, i - 1);
      ResolveAllProgress(vars, g, order, i - 1);
      ResolvedStepAt(vars, g, order, i);
    }
  }

  /** Step `i` of the final loop keeps the processed prefix fully resolved when targets come first. */
  lemma ResolvedStepAt(vars: Vars, g: Graph, order: seq<string>, i: nat)
    requires g.Keys <= vars.Keys
    requires forall p {:trigger EdgeAt(vars, g, p)} :: p in Nodes(g) ==> EdgeAt(vars, g, p)
    requires Distinct(order) && Elems(order) == Nodes(g)
    requires TargetsFirst(g, order)
    requires 0 < i <= |order|
    requires Progress(vars, g, order[..i - 1], ResolveAll(vars, order[..i - 1]))
    requires ResolvedSoFar(g, order[..i - 1], ResolveAll(vars, order[..i - 1]))
    ensures ResolvedSoFar(g, order[..i], ResolveAll(vars, order[..i]))
  {
    PrefixStep(vars, g, order, i);
    TargetBefore(g, order, i - 1);
    assert EdgeAt(vars, g, order[i - 1]);
    ResolveStepResolved(vars, g, order[..i - 1], order[i - 1], ResolveAll(vars, order[..i - 1]));
  }

  /** The facts about the order that one more step of the final loop needs. */
  lemma PrefixStep(vars: Vars, g: Graph, order: seq<string>, i: nat)
    requires Distinct(order) && Elems(order) == Nodes(g)
    requires 0 < i <= |order|
    ensures order[..i] == order[..i - 1] + [order[i - 1]]
    ensures order[..i - 1 + 1] == order[..i]
    ensures ResolveAll(vars, order[..i]) == ResolveStep(ResolveAll(vars, order[..i - 1]), order[i - 1])
    ensures order[i - 1] !in order[..i - 1] && order[i - 1] in Nodes(g)
  {
    assert order[..i][..i - 1] == order[..i - 1];
    assert order[i - 1] in Elems(order);
  }

  /** Where targets come first, the target of the alias at `j` is among the nodes before it. */
  lemma TargetBefore(g: Graph, order: seq<string>, j: nat)
    requires TargetsFirst(g, order) && j < |order|
    ensures order[j] in g ==> g[order[j]] in order[..j]
  {
  }

  lemma AliasGraphIsEdgeAt(vars: Vars)
    ensures forall p {:trigger EdgeAt(vars, AliasGraph(vars), p)} ::
              p in vars || p in AliasGraph(vars).Values ==> EdgeAt(vars, AliasGraph(vars), p)
  {
    forall p {:trigger EdgeAt(vars, AliasGraph(vars), p)} | p in vars || p in AliasGraph(vars).Values
      ensures EdgeAt(vars, AliasGraph(vars), p)
    {
      AliasGraphAt(vars, p);
    }
  }

  /** Once every node is done, the keys are the variables and the targets, and the targets that were missing are empty. */
  lemma ProgressKeys(vars: Vars, g: Graph, order: seq<string>, r: Vars)
    requires g.Keys <= vars.Keys
    requires Elems(order) == Nodes(g) && Progress(vars, g, order, r)
    ensures r.Keys == vars.Keys + g.Values
    ensures forall k :: k in r && k !in vars ==> r[k] == ""
  {
    assert forall x :: x in Nodes(g) ==> x in order;
  }

  /** A variable that is not an alias keeps its value. */
  lemma ProgressUnaliased(vars: Vars, g: Graph, order: seq<string>, r: Vars)
    requires g.Keys <= vars.Keys
    requires forall p {:trigger EdgeAt(vars, g, p)} :: p in vars || p in g.Values ==> EdgeAt(vars, g, p)
    requires Progress(vars, g, order, r)
    ensures forall k :: k in vars && AliasTarget(vars[k]).None? ==> r[k] == vars[k]
    ensures forall k :: k in g ==> k in vars && AliasTarget(vars[k]).Some?
  {
    forall k | k in vars && AliasTarget(vars[k]).None?
      ensures r[k] == vars[k]
    {
      assert EdgeAt(vars, g, k);
    }
    forall k | k in g
      ensures k in vars && AliasTarget(vars[k]).Some?
    {
      assert EdgeAt(vars, g, k);
    }
  }

  /** What the acyclic part of the loop invariant gives once every node is done. */
  lemma ResolvedComplete(vars: Vars, g: Graph, order: seq<string>, r: Vars)
    requires g.Keys <= vars.Keys
    requires forall p {:trigger EdgeAt(vars, g, p)} :: p in vars || p in g.Values ==> EdgeAt(vars, g, p)
    requires Elems(order) == Nodes(g) && Progress(vars, g, order, r) && ResolvedSoFar(g, order, r)
    ensures forall k :: k in r ==> AliasTarget(r[k]).None?
    ensures forall k :: k in g ==> r[k] == r[g[k]]
  {
    assert forall x :: x in Nodes(g) ==> x in order;
    forall k | k in r
      ensures AliasTarget(r[k]).None?
    {
      if k !in order {
        assert EdgeAt(vars, g, k);
      }
    }
  }

  /**
    Resolution over any graph `g` that records the aliases of `vars`: the
    topological order, then one resolution step per node in that order.
   */
  method ResolveGraph(vars: Vars, g: Graph) returns (r: Vars)
    requires g.Keys <= vars.Keys
    requires forall p {:trigger EdgeAt(vars, g, p)} :: p in vars || p in g.Values ==> EdgeAt(vars, g, p)
    ensures r.Keys == vars.Keys + g.Values
    ensures forall k :: k in vars && AliasTarget(vars[k]).None? ==> r[k] == vars[k]
    ensures forall k :: k in r && k !in vars ==> r[k] == ""
    ensures Acyclic(g) ==> forall k :: k in r ==> AliasTarget(r[k]).None?
    ensures forall k :: k in g ==> r[k] == r[g[k]]
    ensures (forall k :: k in vars ==> AliasTarget(vars[k]).None?) ==> r == vars
    ensures ValuesDrawn(vars, r)
  {
    forall p | p in Nodes(g) ensures EdgeAt(vars, g, p) {
      assert p in vars || p in g.Values;
    }
    var order := TopologicalSort(g);
    r := ResolveInOrder(vars, order);
    ResolveAllInvariants(vars, g, order);
    ProgressKeys(vars, g, order, r);
    ProgressUnaliased(vars, g, order, r);
    if forall k :: k in vars ==> AliasTarget(vars[k]).None? {
      assert g.Keys == {};
      assert r == vars;
    }
    assert forall k :: k in g ==> k in order;
    if Acyclic(g) {
      ResolvedComplete(vars, g, order, r);
    }
  }

  /**
    `processVars`. On every table, cyclic ones included: the keys are the
    original ones plus the targets, non-alias values are untouched, targets
    that were missing are empty, and every former alias holds the final
    value of its target, and every value is the original value of some key
    (empty for a key that did not exist). On an acyclic alias graph
    additionally no value is an alias any more.
   */
  method ProcessVars(vars: Vars) returns (r: Vars)
    ensures r.Keys == vars.Keys + AliasGraph(vars).Values
    ensures forall k :: k in vars && AliasTarget(vars[k]).None? ==> r[k] == vars[k]
    ensures forall k :: k in r && k !in vars ==> r[k] == ""
    ensures Acyclic(AliasGraph(vars)) ==> forall k :: k in r ==> AliasTarget(r[k]).None?
    ensures forall k :: k in AliasGraph(vars) ==> r[k] == r[AliasGraph(vars)[k]]
    ensures (forall k :: k in vars ==> AliasTarget(vars[k]).None?) ==> r == vars
    ensures ValuesDrawn(vars, r)
  {
    AliasGraphIsEdgeAt(vars);
    r := ResolveGraph(vars, AliasGraph(vars));
  }

  /**
    In a table that satisfies the resolution equations (each alias equals its
    target, non-aliases keep their raw value, variables that did not exist
    are empty), an alias holds the raw value found at the end of its chain.
   */
  lemma {:induction false} ResolvedFollowsChain(vars: Vars, g: Graph, r: Vars, k: string, n: nat, y: string)
    requires forall x :: x in vars ==> x in r
    requires forall x :: x in g ==> x in r && g[x] in r && r[x] == r[g[x]]
    requires forall x :: x in vars && x !in g ==> r[x] == vars[x]
    requires forall x :: x in r && x !in vars ==> r[x] == ""
    requires k in r
    requires Follow(g, k, n) == Some(y) && y !in g
    ensures r[k] == Lookup(vars, y)
    decreases n
  {
    if n > 0 {
      assert k in g;
      ResolvedFollowsChain(vars, g, r, g[k], n - 1, y);
    } else {
      assert k == y;
    }
  }

  /** What `loadVars` promises about the table it produces from the raw table `raw`. */
  ghost predicate ResolutionOf(raw: Vars, r: Vars) {
    && r.Keys == raw.Keys + AliasGraph(raw).Values
    && (forall k :: k in raw && AliasTarget(raw[k]).None? ==> r[k] == raw[k])
    && (forall k :: k in r && k !in raw ==> r[k] == "")
    && (Acyclic(AliasGraph(raw)) ==> forall k :: k in r ==> AliasTarget(r[k]).None?)
    && (forall k :: k in AliasGraph(raw) ==> r[k] == r[AliasGraph(raw)[k]])
    && ValuesDrawn(raw, r)
  }

  /**
    `generator::loadVars`: build the raw table, then resolve it. Fails only
    when the table cannot be built; resolution itself never fails, cyclic
    tables included.
   */
  method LoadVars(defaults: Vars, params: Params) returns (r: Result<Vars, string>)
    ensures params.name.None? ==> r == Failure(NameRequired)
    ensures BuildTable(defaults, params).Failure? ==> r == Failure(BuildTable(defaults, params).error)
    ensures BuildTable(defaults, params).Success? ==>
              r.Success? && ResolutionOf(BuildTable(defaults, params).value, r.value)
  {
    var built := BuildTable(defaults, params);
    match built
    case Failure(e) =>
      r := Failure(e);
    case Success(raw) =>
      var resolved := ProcessVars(raw);
      r := Success(resolved);
  }

  /**
    A variable whose alias chain reaches a non-alias ends up with the raw
    value of that variable (empty when it was never defined). This holds on
    cyclic tables too, for every chain that does not run into a cycle.
   */
  lemma ResolutionFollowsChains(raw: Vars, r: Vars, k: string, n: nat, y: string)
    requires ResolutionOf(raw, r)
    requires k in r
    requires Follow(AliasGraph(raw), k, n) == Some(y) && y !in AliasGraph(raw)
    ensures r[k] == Lookup(raw, y)
  {
    var g := AliasGraph(raw);
    forall x | x in raw && x !in g
      ensures r[x] == raw[x]
    {
      AliasGraphAt(raw, x);
    }
    ResolvedFollowsChain(raw, g, r, k, n, y);
  }

  lemma ValidNamesAB()
    ensures ValidName("a") && ValidName("b")
  {
  }

  /** Two variables may be defined as aliases of each other: the table builds. */
  lemma MutualAliasesBuild()
    ensures BuildTable(map[], Params(Some("n"), ["a={{b}}", "b={{a}}"]))
            == Success(map["name" := "n", "a" := "{{b}}", "b" := "{{a}}"])
  {
    var ds := ["a={{b}}", "b={{a}}"];
    ValidNamesAB();
    ParseDefineExact(ds[0], "a", "{{b}}");
    ParseDefineExact(ds[1], "b", "{{a}}");
    assert ds[1..] == ["b={{a}}"];
    assert ds[1..][1..] == [];
    assert map["name" := "n"]["a" := "{{b}}"]["b" := "{{a}}"]
           == map["name" := "n", "a" := "{{b}}", "b" := "{{a}}"];
  }

  /** The alias graph of two mutually aliased variables is cyclic, so `processVars` runs on a cycle without complaint. */
  lemma MutualAliasesAreCyclic(vars: Vars)
    requires "a" in vars && "b" in vars && vars["a"] == "{{b}}" && vars["b"] == "{{a}}"
    ensures !Acyclic(AliasGraph(vars))
  {
    ValidNamesAB();
    assert Spaces(0) == "";
    assert IsPlaceholder("{{b}}", "b") by {
      assert "{{b}}" == Placeholder("b", 0, 0);
    }
    assert IsPlaceholder("{{a}}", "a") by {
      assert "{{a}}" == Placeholder("a", 0, 0);
    }
    AliasGraphEdges(vars, "a", "b");
    AliasGraphEdges(vars, "b", "a");
    assert Follow(AliasGraph(vars), "a", 2) == Some("a");
  }
  /**
    `processVars` on the table `a={{b}}, b={{a}}`: it completes without an
    error, and both variables end with the same value, which is one of the
    two original values. Which one depends on where the traversal starts.
   */
  method MutualAliasesResolve(raw: Vars) returns (r: Vars)
    requires raw.Keys == {"a", "b"} && raw["a"] == "{{b}}" && raw["b"] == "{{a}}"
    ensures r.Keys == {"a", "b"}
    ensures r["a"] == r["b"]
    ensures r["a"] == "{{a}}" || r["a"] == "{{b}}"
  {
    r := ProcessVars(raw);
    MutualAliasGraph(raw);
    TwoNodeCycleOutcome(raw, AliasGraph(raw), r);
  }

  /** The alias graph of `a={{b}}, b={{a}}` has the edges from `a` to `b` and back. */
  lemma MutualAliasGraph(raw: Vars)
    requires "a" in raw && "b" in raw && raw["a"] == "{{b}}" && raw["b"] == "{{a}}"
    ensures "a" in AliasGraph(raw) && AliasGraph(raw)["a"] == "b"
    ensures "b" in AliasGraph(raw) && AliasGraph(raw)["b"] == "a"
  {
    ValidNamesAB();
    assert Spaces(0) == "";
    assert IsPlaceholder("{{b}}", "b") by {
      assert "{{b}}" == Placeholder("b", 0, 0);
    }
    assert IsPlaceholder("{{a}}", "a") by {
      assert "{{a}}" == Placeholder("a", 0, 0);
    }
    AliasGraphEdges(raw, "a", "b");
    AliasGraphEdges(raw, "b", "a");
  }

  /**
    What the postconditions of `ProcessVars` leave open for a table of two
    variables `a` and `b` aliasing each other: a common value, one of the
    two originals.
   */
  lemma TwoNodeCycleOutcome(raw: Vars, g: Graph, r: Vars)
    requires raw.Keys == {"a", "b"}
    requires g.Keys <= raw.Keys && "a" in g && g["a"] == "b" && "b" in g && g["b"] == "a"
    requires r.Keys == raw.Keys + g.Values
    requires forall k :: k in g ==> k in r && g[k] in r && r[k] == r[g[k]]
    requires ValuesDrawn(raw, r)
    ensures r.Keys == {"a", "b"}
    ensures r["a"] == r["b"]
    ensures r["a"] == raw["a"] || r["a"] == raw["b"]
  {
    forall v | v in g.Values
      ensures v in raw.Keys
    {
      var k :| k in g && g[k] == v;
      assert k == "a" || k == "b";
    }
    assert r["a"] in raw.Values;
  }
}
