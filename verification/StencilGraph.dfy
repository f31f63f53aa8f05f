/**
  The embed graph of the stencil library: three-colour cycle detection (stencil.go) and the AI taint
  fixpoint (llm.go).
 */
module StencilGraph {
  import opened BodyRefs

  datatype Stencil = Stencil(id: string, kind: string, body: string)

  // ---- the graph --------------------------------------------------------------------------------

  function Ids(stencils: seq<Stencil>): set<string> {
    set s | s in stencils :: s.id
  }

  /** ByID: the last entry under an id, and an empty body for an id without entry. */
  function BodyOf(stencils: seq<Stencil>, id: string): string {
    if stencils == [] then ""
    else if stencils[|stencils| - 1].id == id then stencils[|stencils| - 1].body
    else BodyOf(stencils[..|stencils| - 1], id)
  }

  /** Of several entries under one id the last counts. */
  lemma {:induction false} BodyIsLast(stencils: seq<Stencil>, i: nat)
    requires i < |stencils| && forall j :: i < j < |stencils| ==> stencils[j].id != stencils[i].id
    ensures BodyOf(stencils, stencils[i].id) == stencils[i].body
  {
    if i < |stencils| - 1 {
      BodyIsLast(stencils[..|stencils| - 1], i);
    }
  }

  predicate Edge(stencils: seq<Stencil>, declared: set<string>, a: string, b: string) {
    b in declared && b in Refs(BodyOf(stencils, a))
  }

  lemma EdgeIsRef(stencils: seq<Stencil>, declared: set<string>, a: string, b: string)
    ensures Edge(stencils, declared, a, b) <==> b in declared && b in Refs(BodyOf(stencils, a))
  {
  }

  lemma {:induction false} EdgesLeaveStencils(stencils: seq<Stencil>, declared: set<string>, a: string, b: string)
    requires Edge(stencils, declared, a, b)
    ensures a in Ids(stencils)
  {
    if stencils != [] {
      var n := |stencils| - 1;
      assert stencils[n] in stencils;
      if stencils[n].id != a {
        EdgesLeaveStencils(stencils[..n], declared, a, b);
        var s :| s in stencils[..n] && s.id == a;
        assert s in stencils;
      }
    }
  }

  /** c closes on itself and every step is an embed of a declared stencil. */
  ghost predicate IsCycle(stencils: seq<Stencil>, declared: set<string>, c: seq<string>) {
    && |c| >= 2 && c[0] == c[|c| - 1]
    && forall i :: 0 <= i < |c| - 1 ==> Edge(stencils, declared, c[i], c[i + 1])
  }

  /** Every edge out of a ranked node goes to a node of smaller rank. */
  ghost predicate Ranked(stencils: seq<Stencil>, declared: set<string>, rank: map<string, nat>) {
    forall a, b :: a in rank && Edge(stencils, declared, a, b) ==> b in rank && rank[b] < rank[a]
  }

  lemma {:induction false} RankFalls(stencils: seq<Stencil>, declared: set<string>, rank: map<string, nat>,
      c: seq<string>, i: nat)
    requires Ranked(stencils, declared, rank) && IsCycle(stencils, declared, c) && c[0] in rank && i < |c|
    ensures c[i] in rank && rank[c[i]] <= rank[c[0]] && (i > 0 ==> rank[c[i]] < rank[c[0]])
  {
    if i > 0 {
      RankFalls(stencils, declared, rank, c, i - 1);
      assert Edge(stencils, declared, c[i - 1], c[i - 1 + 1]);
    }
  }

  /** A ranking of all stencils leaves no cycle. */
  lemma RankedIsAcyclic(stencils: seq<Stencil>, declared: set<string>, rank: map<string, nat>, c: seq<string>)
    requires Ranked(stencils, declared, rank) && Ids(stencils) <= rank.Keys
    ensures !IsCycle(stencils, declared, c)
  {
    if IsCycle(stencils, declared, c) {
      assert Edge(stencils, declared, c[0], c[0 + 1]);
      EdgesLeaveStencils(stencils, declared, c[0], c[1]);
      RankFalls(stencils, declared, rank, c, |c| - 1);
    }
  }

  // ---- the depth-first search -------------------------------------------------------------------

  datatype Colour = Visiting | Done

  /** The stack is a walk of distinct visiting nodes; the done nodes are ranked by finishing order. */
  ghost predicate Coherent(stencils: seq<Stencil>, declared: set<string>, state: map<string, Colour>,
      path: seq<string>, rank: map<string, nat>) {
    && (forall i, j :: 0 <= i < j < |path| ==> path[i] != path[j])
    && (forall i :: 0 <= i < |path| - 1 ==> Edge(stencils, declared, path[i], path[i + 1]))
    && (forall id :: id in path <==> id in state && state[id] == Visiting)
    && (forall id :: id in rank <==> id in state && state[id] == Done)
    && Ranked(stencils, declared, rank)
    && (forall id :: id in rank ==> rank[id] < |rank|)
  }

  lemma ColourMeans(stencils: seq<Stencil>, declared: set<string>, state: map<string, Colour>, path: seq<string>,
      rank: map<string, nat>, id: string)
    requires Coherent(stencils, declared, state, path, rank) && id in state
    ensures if state[id] == Visiting then id in path else id in rank
  {
  }

  lemma CoherentRanks(stencils: seq<Stencil>, declared: set<string>, state: map<string, Colour>, path: seq<string>,
      rank: map<string, nat>)
    requires Coherent(stencils, declared, state, path, rank)
    ensures Ranked(stencils, declared, rank)
  {
  }

  lemma AllRanked(stencils: seq<Stencil>, rank: map<string, nat>)
    requires forall j :: 0 <= j < |stencils| ==> stencils[j].id in rank
    ensures Ids(stencils) <= rank.Keys
  {
  }

  lemma PushCoherent(stencils: seq<Stencil>, declared: set<string>, state: map<string, Colour>, path: seq<string>,
      rank: map<string, nat>, id: string)
    requires Coherent(stencils, declared, state, path, rank) && id !in state
    requires path != [] ==> Edge(stencils, declared, path[|path| - 1], id)
    ensures Coherent(stencils, declared, state[id := Visiting], path + [id], rank)
  {
    hide Edge, Ranked;
    forall x ensures x in path + [id] <==> x in path || x == id {
    }
  }

  lemma PopCoherent(stencils: seq<Stencil>, declared: set<string>, state: map<string, Colour>, path: seq<string>,
      rank: map<string, nat>, id: string)
    requires Coherent(stencils, declared, state, path + [id], rank)
    requires forall b :: Edge(stencils, declared, id, b) ==> b in rank
    ensures Coherent(stencils, declared, state[id := Done], path, rank[id := |rank|])
  {
    hide Edge, Ranked;
    var full := path + [id];
    assert full[|path|] == id;
    RankNext(stencils, declared, rank, id);
    forall x ensures x in full <==> x in path || x == id {
    }
    forall i | 0 <= i < |path| ensures path[i] == full[i] && path[i] != id {
    }
  }

  class CycleFinder {
    const stencils: seq<Stencil>
    const declared: set<string>
    var state: map<string, Colour>
    var path: seq<string>
    /** Finished nodes by finishing order. */
    ghost var rank: map<string, nat>

    constructor (stencils: seq<Stencil>, declared: set<string>)
      ensures this.stencils == stencils && this.declared == declared
      ensures Valid() && path == [] && state == map[]
    {
      this.stencils := stencils;
      this.declared := declared;
      state := map[];
      path := [];
      rank := map[];
    }

    ghost function Universe(): set<string> {
      Ids(stencils) + declared
    }

    ghost predicate Valid()
      reads this
    {
      state.Keys <= Universe() && Coherent(stencils, declared, state, path, rank)
    }

    /** The part of the stack from ref on, closed by ref. */
    method CycleThrough(ref: string) returns (cycle: seq<string>)
      requires Valid() && path != [] && ref in path && Edge(stencils, declared, path[|path| - 1], ref)
      ensures cycle != [] && IsCycle(stencils, declared, cycle)
    {
      hide Edge, Ranked, Ids, IsCycle;
      ghost var k :| 0 <= k < |path| && path[k] == ref;
      var start := 0;
      while path[start] != ref
        invariant 0 <= start <= k
        decreases k - start
      {
        start := start + 1;
      }
      CloseCycle(stencils, declared, path, start, ref);
      return path[start..] + [ref];
    }

    /**
      walk: explores everything below id. It either finishes id and pops it, or reports a cycle.
     */
    method Walk(id: string) returns (cycle: seq<string>)
      requires Valid() && id !in state && id in Universe()
      requires path != [] ==> Edge(stencils, declared, path[|path| - 1], id)
      modifies this
      ensures cycle == [] ==> Valid() && path == old(path) && id in rank
      ensures cycle == [] ==> old(rank.Keys) <= rank.Keys && old(state.Keys) < state.Keys
      ensures cycle != [] ==> IsCycle(stencils, declared, cycle)
      decreases Universe() - state.Keys
    {
      hide Edge, BodyOf, Refs, Coherent, IsCycle, Ids;
      PushCoherent(stencils, declared, state, path, rank, id);
      state := state[id := Visiting];
      path := path + [id];
      var refs := Scan(BodyOf(stencils, id));
      for i := 0 to |refs|
        invariant Valid() && path == old(path) + [id]
        invariant old(rank.Keys) <= rank.Keys && old(state.Keys) + {id} <= state.Keys
        invariant forall j :: 0 <= j < i && refs[j] in declared ==> refs[j] in rank
      {
        var ref := refs[i];
        if ref !in declared {
          continue;
        }
        EdgeIsRef(stencils, declared, id, ref);
        if ref in state {
          ColourMeans(stencils, declared, state, path, rank, ref);
        }
        if ref in state && state[ref] == Visiting {
          cycle := CycleThrough(ref);
          return;
        }
        if ref !in state {
          cycle := Walk(ref);
          if cycle != [] {
            return;
          }
        }
      }
      forall b | Edge(stencils, declared, id, b) ensures b in rank {
        EdgeIsRef(stencils, declared, id, b);
        var j :| 0 <= j < |refs| && refs[j] == b;
      }
      PopCoherent(stencils, declared, state, old(path), rank, id);
      path := path[..|path| - 1];
      assert path == old(path);
      state := state[id := Done];
      rank := rank[id := |rank|];
      cycle := [];
    }
  }

  lemma RankNext(stencils: seq<Stencil>, declared: set<string>, rank: map<string, nat>, id: string)
    requires Ranked(stencils, declared, rank) && id !in rank && forall a :: a in rank ==> rank[a] < |rank|
    requires forall b :: Edge(stencils, declared, id, b) ==> b in rank
    ensures Ranked(stencils, declared, rank[id := |rank|])
    ensures |rank[id := |rank|]| == |rank| + 1
  {
    var more := rank[id := |rank|];
    assert more.Keys == rank.Keys + {id};
    assert |more| == |rank| + 1;
  }

  lemma CloseCycle(stencils: seq<Stencil>, declared: set<string>, path: seq<string>, start: nat, ref: string)
    requires start < |path| && path[start] == ref
    requires forall i :: 0 <= i < |path| - 1 ==> Edge(stencils, declared, path[i], path[i + 1])
    requires Edge(stencils, declared, path[|path| - 1], ref)
    ensures IsCycle(stencils, declared, path[start..] + [ref])
  {
    var c := path[start..] + [ref];
    forall i | 0 <= i < |c| - 1 ensures Edge(stencils, declared, c[i], c[i + 1]) {
      assert c[i] == path[start + i];
      if i < |c| - 2 {
        assert c[i + 1] == path[start + i + 1];
      }
    }
  }

  /**
    findStencilCycle: empty exactly when the embed graph is acyclic; otherwise a real cycle.
   */
  method FindStencilCycle(stencils: seq<Stencil>, declared: set<string>) returns (cycle: seq<string>)
    ensures cycle == [] <==> forall c :: !IsCycle(stencils, declared, c)
    ensures cycle != [] ==> IsCycle(stencils, declared, cycle)
  {
    hide Edge, BodyOf, Refs, Coherent, IsCycle;
    var finder := new CycleFinder(stencils, declared);
    for i := 0 to |stencils|
      invariant finder.stencils == stencils && finder.declared == declared
      invariant finder.Valid() && finder.path == []
      invariant forall j :: 0 <= j < i ==> stencils[j].id in finder.rank
    {
      assert stencils[i] in stencils;
      if stencils[i].id in finder.state {
        ColourMeans(stencils, declared, finder.state, finder.path, finder.rank, stencils[i].id);
      } else {
        cycle := finder.Walk(stencils[i].id);
        if cycle != [] {
          return;
        }
      }
    }
    CoherentRanks(stencils, declared, finder.state, finder.path, finder.rank);
    AllRanked(stencils, finder.rank);
    forall c ensures !IsCycle(stencils, declared, c) {
      RankedIsAcyclic(stencils, declared, finder.rank, c);
    }
    cycle := [];
  }

  // ---- taint ------------------------------------------------------------------------------------

  /** Some entry under a embeds b. */
  ghost predicate Embeds(stencils: seq<Stencil>, a: string, b: string) {
    exists s :: s in stencils && s.id == a && b in Refs(s.body)
  }

  ghost predicate IsLlm(stencils: seq<Stencil>, id: string) {
    exists s :: s in stencils && s.id == id && s.kind == "llm"
  }

  /** chain leads from its first stencil through embeds to an llm stencil. */
  ghost predicate Carries(stencils: seq<Stencil>, chain: seq<string>) {
    && chain != [] && IsLlm(stencils, chain[|chain| - 1])
    && forall i :: 0 <= i < |chain| - 1 ==> Embeds(stencils, chain[i], chain[i + 1])
  }

  ghost predicate Tainted(stencils: seq<Stencil>, id: string) {
    exists chain :: Carries(stencils, chain) && chain[0] == id
  }

  lemma TaintSpreads(stencils: seq<Stencil>, a: string, b: string)
    requires Embeds(stencils, a, b) && Tainted(stencils, b)
    ensures Tainted(stencils, a)
  {
    var chain :| Carries(stencils, chain) && chain[0] == b;
    var longer := [a] + chain;
    forall i | 0 <= i < |longer| - 1 ensures Embeds(stencils, longer[i], longer[i + 1]) {
      if i > 0 {
        assert longer[i] == chain[i - 1] && longer[i + 1] == chain[i - 1 + 1];
      }
    }
    assert Carries(stencils, longer);
  }

  lemma LlmIsTainted(stencils: seq<Stencil>, id: string)
    requires IsLlm(stencils, id)
    ensures Tainted(stencils, id)
  {
    assert Carries(stencils, [id]);
  }

  /** The taint comes from the stencils of kind llm, and from nothing else. */
  lemma TaintComesFromLlm(stencils: seq<Stencil>, id: string)
    ensures (exists s <- stencils :: s.id == id && s.kind == "llm") ==> Tainted(stencils, id)
    ensures Tainted(stencils, id) ==> exists s <- stencils :: s.kind == "llm"
  {
    if exists s <- stencils :: s.id == id && s.kind == "llm" {
      LlmIsTainted(stencils, id);
    }
    if Tainted(stencils, id) {
      var chain :| Carries(stencils, chain) && chain[0] == id;
      assert IsLlm(stencils, chain[|chain| - 1]);
    }
  }

  /** A set with the llm stencils that nothing outside embeds into contains all of the taint. */
  lemma {:induction false} ClosedContainsTaint(stencils: seq<Stencil>, closed: set<string>, chain: seq<string>)
    requires forall id :: IsLlm(stencils, id) ==> id in closed
    requires Closed(stencils, closed)
    requires Carries(stencils, chain)
    ensures chain[0] in closed
  {
    if |chain| > 1 {
      forall i | 0 <= i < |chain[1..]| - 1 ensures Embeds(stencils, chain[1..][i], chain[1..][i + 1]) {
        assert Embeds(stencils, chain[i + 1], chain[i + 1 + 1]);
      }
      ClosedContainsTaint(stencils, closed, chain[1..]);
      assert Embeds(stencils, chain[0], chain[0 + 1]);
    }
  }

  /** One round over the library; changed tells whether it grew the set. */
  method SpreadOnce(stencils: seq<Stencil>, before: set<string>) returns (tainted: set<string>, changed: bool)
    requires before <= Ids(stencils) && forall id :: id in before ==> Tainted(stencils, id)
    ensures before <= tainted <= Ids(stencils) && (forall id :: id in tainted ==> Tainted(stencils, id))
    ensures if changed then before < tainted && |before| < |tainted| else tainted == before && Closed(stencils, tainted)
  {
    hide Refs, Tainted;
    tainted, changed := before, false;
    for i := 0 to |stencils|
      invariant before <= tainted <= Ids(stencils)
      invariant if changed then before < tainted && |before| < |tainted| else tainted == before
      invariant forall id :: id in tainted ==> Tainted(stencils, id)
      invariant !changed ==> forall j, b :: 0 <= j < i && b in Refs(stencils[j].body) && b in tainted ==>
                  stencils[j].id in tainted
    {
      var s := stencils[i];
      assert s in stencils;
      if s.id in tainted || s.body == "" {
        EmptyBodyHasNoRefs();
        continue;
      }
      var refs := Scan(s.body);
      for k := 0 to |refs|
        invariant forall j :: 0 <= j < k ==> refs[j] !in tainted
      {
        if refs[k] in tainted {
          assert Embeds(stencils, s.id, refs[k]);
          TaintSpreads(stencils, s.id, refs[k]);
          tainted := tainted + {s.id};
          changed := true;
          break;
        }
      }
    }
  }

  lemma EmptyBodyHasNoRefs()
    ensures Refs("") == []
  {
  }

  /** passes counts the rounds of the repeat-until-unchanged loop. */
  method LLMTaintedStencils(stencils: seq<Stencil>) returns (tainted: set<string>, passes: nat)
    ensures forall id :: id in tainted <==> Tainted(stencils, id)
    ensures passes <= |stencils| + 1
  {
    hide Refs, Tainted, Closed;
    tainted := {};
    for i := 0 to |stencils|
      invariant tainted <= Ids(stencils)
      invariant forall id :: id in tainted ==> Tainted(stencils, id)
      invariant forall j :: 0 <= j < i && stencils[j].kind == "llm" ==> stencils[j].id in tainted
    {
      var s := stencils[i];
      if s.kind == "llm" {
        assert s in stencils;
        LlmIsTainted(stencils, s.id);
        tainted := tainted + {s.id};
      }
    }
    passes := 0;
    var changed := true;
    while changed
      invariant tainted <= Ids(stencils)
      invariant forall id :: id in tainted ==> Tainted(stencils, id)
      invariant forall id :: IsLlm(stencils, id) ==> id in tainted
      invariant passes <= |tainted| + (if changed then 0 else 1)
      invariant !changed ==> Closed(stencils, tainted)
      decreases changed, Ids(stencils) - tainted
    {
      ghost var before := tainted;
      tainted, changed := SpreadOnce(stencils, tainted);
      passes := passes + 1;
    }
    forall id | Tainted(stencils, id) ensures id in tainted {
      ClosedContainsTainted(stencils, tainted, id);
    }
    IdsBound(stencils);
    SubsetSize(tainted, Ids(stencils));
  }

  lemma SubsetSize(a: set<string>, b: set<string>)
    requires a <= b
    ensures |a| <= |b|
  {
    assert b == a + (b - a);
  }

  lemma ClosedContainsTainted(stencils: seq<Stencil>, closed: set<string>, id: string)
    requires (forall id :: IsLlm(stencils, id) ==> id in closed) && Closed(stencils, closed) && Tainted(stencils, id)
    ensures id in closed
  {
    var chain :| Carries(stencils, chain) && chain[0] == id;
    ClosedContainsTaint(stencils, closed, chain);
  }

  ghost predicate Closed(stencils: seq<Stencil>, t: set<string>) {
    forall a, b :: Embeds(stencils, a, b) && b in t ==> a in t
  }

  lemma {:induction false} IdsBound(stencils: seq<Stencil>)
    ensures |Ids(stencils)| <= |stencils|
  {
    if stencils != [] {
      var n := |stencils| - 1;
      IdsBound(stencils[..n]);
      assert Ids(stencils) == Ids(stencils[..n]) + {stencils[n].id};
    }
  }

  /** The taint depends on the library's entries, not on their order or repetition. */
  lemma OrderDoesNotMatter(s1: seq<Stencil>, s2: seq<Stencil>, id: string)
    requires forall s :: s in s1 <==> s in s2
    ensures Tainted(s1, id) <==> Tainted(s2, id)
  {
    forall chain ensures Carries(s1, chain) <==> Carries(s2, chain) {
      assert forall a, b :: Embeds(s1, a, b) <==> Embeds(s2, a, b);
      assert forall a :: IsLlm(s1, a) <==> IsLlm(s2, a);
    }
  }
}
