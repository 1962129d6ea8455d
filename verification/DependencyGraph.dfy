/** The workflow dependency graph: one vertex per step plus `trigger`, one edge per reference, no cycles. */
module DependencyGraph {
  import opened Options
  import opened WorkflowInputs

  const KEYWORD_TRIGGER := "trigger"

  datatype StepDefinition = StepDefinition(id: string, ref: string, outputRef: string, mapping: seq<Entry>)

  type Edge = (string, string)

  function InputsOf(step: StepDefinition): Value {
    if step.outputRef != "" then Text(step.outputRef) else Mapping(step.mapping)
  }

  /** A step without a reference of its own is known by its type. */
  function RefName(step: StepDefinition): string {
    if step.ref == "" then step.id else step.ref
  }

  // ---------- paths ----------

  ghost predicate IsPath(edges: set<Edge>, p: seq<string>) {
    |p| >= 1 && forall i :: 0 <= i < |p| - 1 ==> (p[i], p[i + 1]) in edges
  }

  ghost predicate PathFromTo(edges: set<Edge>, p: seq<string>, a: string, b: string) {
    IsPath(edges, p) && p[0] == a && p[|p| - 1] == b
  }

  ghost predicate Reaches(edges: set<Edge>, a: string, b: string) {
    exists p :: PathFromTo(edges, p, a, b)
  }

  /** No path of at least one edge comes back to where it started. */
  ghost predicate Acyclic(edges: set<Edge>) {
    forall p :: IsPath(edges, p) && |p| >= 2 ==> p[0] != p[|p| - 1]
  }

  lemma ReachesSelf(edges: set<Edge>, a: string)
    ensures Reaches(edges, a, a)
  {
    assert PathFromTo(edges, [a], a, a);
  }

  lemma ReachesStep(edges: set<Edge>, a: string, b: string, c: string)
    requires Reaches(edges, a, b) && (b, c) in edges
    ensures Reaches(edges, a, c)
  {
    var p :| PathFromTo(edges, p, a, b);
    assert PathFromTo(edges, p + [c], a, c);
  }

  /** A set of vertices closed under edges contains whatever its members reach. */
  lemma {:induction false} ClosedUnderPaths(edges: set<Edge>, closed: set<string>, p: seq<string>)
    requires IsPath(edges, p) && p[0] in closed
    requires forall e :: e in edges && e.0 in closed ==> e.1 in closed
    ensures p[|p| - 1] in closed
    decreases |p|
  {
    if |p| > 1 {
      assert (p[0], p[1]) in edges;
      ClosedUnderPaths(edges, closed, p[1..]);
    }
  }

  method IsReachable(edges: set<Edge>, a: string, b: string) returns (reachable: bool)
    ensures reachable <==> Reaches(edges, a, b)
  {
    var visited := {a};
    ghost var all := {a} + set e | e in edges :: e.1;
    ReachesSelf(edges, a);
    while exists e :: e in edges && e.0 in visited && e.1 !in visited
      invariant a in visited && visited <= all
      invariant forall v :: v in visited ==> Reaches(edges, a, v)
      decreases all - visited
    {
      var e :| e in edges && e.0 in visited && e.1 !in visited;
      ReachesStep(edges, a, e.0, e.1);
      visited := visited + {e.1};
    }
    if b !in visited && Reaches(edges, a, b) {
      ghost var p :| PathFromTo(edges, p, a, b);
      ClosedUnderPaths(edges, visited, p);
    }
    return b in visited;
  }

  lemma PathHasEdge(edges: set<Edge>, p: seq<string>)
    requires IsPath(edges, p) && |p| >= 2
    ensures edges != {}
  {
    assert (p[0], p[1]) in edges;
  }

  lemma NoEdgesNoCycles()
    ensures Acyclic({})
  {
    forall p
      ensures !(IsPath({}, p) && |p| >= 2)
    {
      if IsPath({}, p) && |p| >= 2 {
        PathHasEdge({}, p);
      }
    }
  }

  lemma CycleStays(small: set<Edge>, large: set<Edge>)
    requires small <= large && !Acyclic(small)
    ensures !Acyclic(large)
  {
    var p :| IsPath(small, p) && |p| >= 2 && p[0] == p[|p| - 1];
    assert IsPath(large, p);
  }

  /** A path that ends in `r` without passing it before does not use an edge that leaves `r`. */
  lemma {:induction false} PathAvoidingEdge(edges: set<Edge>, r: string, s: string, q: seq<string>)
    requires PathFromTo(edges + {(r, s)}, q, s, r)
    ensures Reaches(edges, s, r)
    decreases |q|
  {
    if i :| 0 <= i < |q| - 1 && q[i] == r {
      PathAvoidingEdge(edges, r, s, q[..i + 1]);
    } else {
      assert PathFromTo(edges, q, s, r);
    }
  }

  /** A cycle that needs the new edge shows that the edge's target already reaches its source. */
  lemma CycleUsesEdge(edges: set<Edge>, r: string, s: string, p: seq<string>)
    requires Acyclic(edges) && IsPath(edges + {(r, s)}, p) && |p| >= 2 && p[0] == p[|p| - 1]
    ensures r == s || Reaches(edges, s, r)
  {
    var more := edges + {(r, s)};
    assert !IsPath(edges, p);
    var i :| 0 <= i < |p| - 1 && (p[i], p[i + 1]) !in edges;
    if r != s {
      var q := p[i + 1..] + p[1..i + 1];
      assert PathFromTo(more, q, s, r);
      PathAvoidingEdge(edges, r, s, q);
    }
  }

  /** Adding an edge keeps the graph acyclic exactly when its target does not already reach its source. */
  lemma EdgeClosesCycle(edges: set<Edge>, r: string, s: string)
    requires Acyclic(edges)
    ensures Acyclic(edges + {(r, s)}) <==> r != s && !Reaches(edges, s, r)
  {
    var more := edges + {(r, s)};
    if r == s {
      assert IsPath(more, [r, s]);
    }
    if Reaches(edges, s, r) {
      var p :| PathFromTo(edges, p, s, r);
      assert IsPath(more, p + [s]);
    }
    if p :| IsPath(more, p) && |p| >= 2 && p[0] == p[|p| - 1] {
      CycleUsesEdge(edges, r, s, p);
    }
  }

  // ---------- the graph object ----------

  datatype EdgeResult = Added | AlreadyExists | VertexNotFound | CreatesCycle

  /** A directed graph that refuses duplicate vertices, duplicate edges and cycles. */
  class Graph {
    var vertices: map<string, Value>
    var dependencies: map<string, seq<string>>
    var edges: set<Edge>

    ghost predicate Valid()
      reads this
    {
      Acyclic(edges) && forall e :: e in edges ==> e.0 in vertices && e.1 in vertices
    }

    constructor ()
      ensures Valid() && vertices == map[] && edges == {} && dependencies == map[]
    {
      vertices, dependencies, edges := map[], map[], {};
      NoEdgesNoCycles();
    }

    method AddVertex(name: string, inputs: Value) returns (ok: bool)
      requires Valid()
      modifies this
      ensures Valid() && edges == old(edges) && dependencies == old(dependencies)
      ensures ok <==> name !in old(vertices)
      ensures vertices == if ok then old(vertices)[name := inputs] else old(vertices)
    {
      ok := name !in vertices;
      if ok {
        vertices := vertices[name := inputs];
      }
    }

    method AddEdge(source: string, target: string) returns (r: EdgeResult)
      requires Valid()
      modifies this
      ensures Valid() && vertices == old(vertices) && dependencies == old(dependencies)
      ensures edges == if r == Added then old(edges) + {(source, target)} else old(edges)
      ensures r == VertexNotFound <==> source !in vertices || target !in vertices
      ensures r == AlreadyExists <==> r != VertexNotFound && (source, target) in old(edges)
      ensures r == CreatesCycle <==> r != VertexNotFound && !Acyclic(old(edges) + {(source, target)})
    {
      if source !in vertices || target !in vertices {
        return VertexNotFound;
      }
      if (source, target) in edges {
        assert edges + {(source, target)} == edges;
        return AlreadyExists;
      }
      EdgeClosesCycle(edges, source, target);
      var back := IsReachable(edges, target, source);
      if source == target || back {
        return CreatesCycle;
      }
      edges := edges + {(source, target)};
      return Added;
    }
  }

  // ---------- what a specification declares ----------

  function VertexMap(steps: seq<StepDefinition>): map<string, Value> {
    if steps == [] then map[KEYWORD_TRIGGER := Mapping([])]
    else VertexMap(steps[..|steps| - 1])[RefName(steps[|steps| - 1]) := InputsOf(steps[|steps| - 1])]
  }

  /** No two steps share a name and none is called `trigger`. */
  predicate DistinctNames(steps: seq<StepDefinition>) {
    steps == [] ||
    (DistinctNames(steps[..|steps| - 1]) && RefName(steps[|steps| - 1]) !in VertexMap(steps[..|steps| - 1]))
  }

  function RefSeq(v: Value): seq<string> {
    match Refs(v) case None => [] case Some(refs) => refs
  }

  /** An edge for every reference made by one of the given vertices. */
  function EdgesInto(vertices: map<string, Value>, names: set<string>): set<Edge>
    requires names <= vertices.Keys
  {
    set s, r | s in names && r in RefSeq(vertices[s]) :: (r, s)
  }

  function DeclaredEdges(vertices: map<string, Value>): set<Edge> {
    EdgesInto(vertices, vertices.Keys)
  }

  /** A vertex's inputs are traversable, name at least one step, and name only steps that exist. */
  predicate WellFormedVertex(vertices: map<string, Value>, name: string)
    requires name in vertices
  {
    && Refs(vertices[name]).Some?
    && (name != KEYWORD_TRIGGER ==> RefSeq(vertices[name]) != [])
    && forall r :: r in RefSeq(vertices[name]) ==> r in vertices
  }

  ghost predicate Buildable(steps: seq<StepDefinition>) {
    var vertices := VertexMap(steps);
    && DistinctNames(steps)
    && (forall name :: name in vertices ==> WellFormedVertex(vertices, name))
    && Acyclic(DeclaredEdges(vertices))
  }

  datatype BuildResult = Built(graph: Graph) | DuplicateVertex | BadInputs | NoRefs | BadEdge

  method AddVertices(g: Graph, steps: seq<StepDefinition>) returns (ok: bool)
    requires g.Valid() && g.vertices == map[] && g.edges == {}
    modifies g
    ensures g.Valid() && g.edges == {}
    ensures ok <==> DistinctNames(steps)
    ensures ok ==> g.vertices == VertexMap(steps)
  {
    var first := g.AddVertex(KEYWORD_TRIGGER, Mapping([]));
    for k := 0 to |steps|
      invariant g.Valid() && g.edges == {}
      invariant DistinctNames(steps[..k]) && g.vertices == VertexMap(steps[..k])
    {
      assert steps[..k + 1][..k] == steps[..k];
      ok := g.AddVertex(RefName(steps[k]), InputsOf(steps[k]));
      if !ok {
        NotDistinct(steps, k + 1);
        return;
      }
    }
    assert steps[..|steps|] == steps;
    ok := true;
  }

  lemma {:induction false} NotDistinct(steps: seq<StepDefinition>, k: nat)
    requires k <= |steps| && !DistinctNames(steps[..k])
    ensures !DistinctNames(steps)
    decreases |steps| - k
  {
    if k < |steps| {
      assert steps[..k + 1][..k] == steps[..k];
      NotDistinct(steps, k + 1);
    } else {
      assert steps[..k] == steps;
    }
  }

  function EdgesTo(refs: seq<string>, name: string): set<Edge> {
    set r | r in refs :: (r, name)
  }

  lemma OneMoreEdge(refs: seq<string>, k: nat, name: string)
    requires k < |refs|
    ensures EdgesTo(refs[..k], name) + {(refs[k], name)} == EdgesTo(refs[..k + 1], name)
  {
    assert refs[..k + 1] == refs[..k] + [refs[k]];
  }

  /** The edges of one step, in the order of its references. */
  method AddEdges(g: Graph, name: string, refs: seq<string>, ghost all: set<Edge>) returns (ok: bool)
    requires g.Valid() && name in g.vertices
    requires g.edges <= all && forall r :: r in refs ==> (r, name) in all
    modifies g
    ensures g.Valid() && g.vertices == old(g.vertices) && g.dependencies == old(g.dependencies)
    ensures ok ==> g.edges == old(g.edges) + EdgesTo(refs, name) && forall r :: r in refs ==> r in g.vertices
    ensures !ok ==> !Acyclic(all) || exists r :: r in refs && r !in g.vertices
  {
    hide Acyclic;
    assert EdgesTo(refs[..0], name) == {};
    hide EdgesTo;
    for k := 0 to |refs|
      invariant g.Valid() && g.vertices == old(g.vertices) && g.dependencies == old(g.dependencies)
      invariant g.edges == old(g.edges) + EdgesTo(refs[..k], name)
      invariant forall r :: r in refs[..k] ==> r in g.vertices
    {
      OneMoreEdge(refs, k, name);
      ghost var before := g.edges;
      var res := g.AddEdge(refs[k], name);
      if res != Added && res != AlreadyExists {
        if res == CreatesCycle {
          assert (refs[k], name) in all;
          CycleStays(before + {(refs[k], name)}, all);
        }
        return false;
      }
    }
    assert refs[..|refs|] == refs;
    return true;
  }

  function DependenciesOf(vertices: map<string, Value>, names: set<string>): map<string, seq<string>>
    requires names <= vertices.Keys
  {
    map name | name in names :: RefSeq(vertices[name])
  }

  /** The graph after the vertices in `done` have been connected. */
  ghost predicate Connected(g: Graph, vertices: map<string, Value>, done: set<string>)
    requires done <= vertices.Keys
    reads g
  {
    && g.Valid() && g.vertices == vertices
    && g.edges == EdgesInto(vertices, done)
    && g.dependencies == DependenciesOf(vertices, done)
    && forall name :: name in done ==> WellFormedVertex(vertices, name)
  }

  /** The body of the second loop: finds the references of one step and adds their edges. */
  method ConnectStep(g: Graph, name: string, ghost done: set<string>) returns (failure: Option<BuildResult>)
    requires done <= g.vertices.Keys && name in g.vertices && name !in done && Connected(g, g.vertices, done)
    modifies g
    ensures g.vertices == old(g.vertices)
    ensures failure == None ==> Connected(g, g.vertices, done + {name})
    ensures failure.Some? ==> failure.value in {BadInputs, NoRefs, BadEdge}
    ensures failure == Some(BadInputs) <==> Refs(g.vertices[name]) == None
    ensures failure == Some(NoRefs) <==> name != "trigger" && Refs(g.vertices[name]) == Some([])
    ensures failure.Some? ==> !WellFormedVertex(g.vertices, name) || !Acyclic(DeclaredEdges(g.vertices))
  {
    var vertices := g.vertices;
    var refs := FindRefs(vertices[name]);
    if refs == None {
      return Some(BadInputs);
    }
    g.dependencies := g.dependencies[name := refs.value];
    if name != KEYWORD_TRIGGER && |refs.value| == 0 {
      return Some(NoRefs);
    }
    EdgesIntoGrow(vertices, done, name);
    var ok := AddEdges(g, name, refs.value, DeclaredEdges(vertices));
    if !ok {
      return Some(BadEdge);
    }
    assert g.dependencies == DependenciesOf(vertices, done + {name});
    return None;
  }

  lemma EdgesIntoGrow(vertices: map<string, Value>, done: set<string>, name: string)
    requires done <= vertices.Keys && name in vertices
    ensures EdgesInto(vertices, done + {name}) == EdgesInto(vertices, done) + EdgesTo(RefSeq(vertices[name]), name)
    ensures EdgesInto(vertices, done) <= DeclaredEdges(vertices)
    ensures forall r :: r in RefSeq(vertices[name]) ==> (r, name) in DeclaredEdges(vertices)
  {
  }

  /** `BuildDependencyGraph`: visits the vertices in any order, and succeeds exactly on buildable specifications,
      with exactly the declared edges. */
  method BuildDependencyGraph(steps: seq<StepDefinition>) returns (r: BuildResult)
    ensures r.Built? <==> Buildable(steps)
    ensures r.Built? ==> fresh(r.graph) && Connected(r.graph, VertexMap(steps), VertexMap(steps).Keys)
    ensures r == DuplicateVertex <==> !DistinctNames(steps)
  {
    var g := new Graph();
    var ok := AddVertices(g, steps);
    if !ok {
      return DuplicateVertex;
    }
    g.dependencies := map[];
    hide Acyclic, EdgesInto, DependenciesOf, WellFormedVertex, DistinctNames;
    ghost var vertices := VertexMap(steps);
    var todo := g.vertices.Keys;
    ghost var done := {};
    StartConnected(g, vertices);
    while todo != {}
      invariant g.vertices == vertices && todo !! done && todo + done == vertices.Keys && fresh(g)
      invariant Connected(g, vertices, done)
      decreases todo
    {
      var name :| name in todo;
      var failure := ConnectStep(g, name, done);
      if failure.Some? {
        return failure.value;
      }
      todo, done := todo - {name}, done + {name};
    }
    assert done == vertices.Keys;
    return Built(g);
  }

  lemma StartConnected(g: Graph, vertices: map<string, Value>)
    requires g.Valid() && g.vertices == vertices && g.edges == {} && g.dependencies == map[]
    ensures Connected(g, vertices, {})
  {
  }

  // ---------- reachability ----------

  ghost predicate HasNoRepeat(walk: seq<string>) {
    forall i, j :: 0 <= i < j < |walk| ==> walk[i] != walk[j]
  }

  /** In a finite set where everyone has a predecessor inside the set, walking back must come round. */
  lemma {:induction false} WalkBack(edges: set<Edge>, inside: set<string>, walk: seq<string>)
    requires IsPath(edges, walk) && HasNoRepeat(walk)
    requires forall i :: 0 <= i < |walk| ==> walk[i] in inside
    requires forall v :: v in inside ==> exists u :: u in inside && (u, v) in edges
    ensures !Acyclic(edges)
    decreases |inside| - |walk|
  {
    hide HasNoRepeat;
    assert walk[0] in inside;
    var u :| u in inside && (u, walk[0]) in edges;
    if i :| 0 <= i < |walk| && walk[i] == u {
      assert IsPath(edges, [u] + walk[..i + 1]);
    } else {
      hide IsPath, Acyclic;
      ExtendWalk(edges, inside, walk, u);
      NoRepeatFits(inside, [u] + walk);
      WalkBack(edges, inside, [u] + walk);
    }
  }

  lemma ExtendWalk(edges: set<Edge>, inside: set<string>, walk: seq<string>, u: string)
    requires IsPath(edges, walk) && HasNoRepeat(walk) && u in inside && u !in walk && (u, walk[0]) in edges
    requires forall i :: 0 <= i < |walk| ==> walk[i] in inside
    ensures IsPath(edges, [u] + walk) && HasNoRepeat([u] + walk)
    ensures forall i :: 0 <= i < |walk| + 1 ==> ([u] + walk)[i] in inside
  {
  }

  lemma {:induction false} NoRepeatFits(inside: set<string>, walk: seq<string>)
    requires HasNoRepeat(walk) && forall i :: 0 <= i < |walk| ==> walk[i] in inside
    ensures |walk| <= |inside|
    decreases |walk|
  {
    if walk != [] {
      var last := walk[|walk| - 1];
      NoRepeatFits(inside - {last}, walk[..|walk| - 1]);
    }
  }

  /** The vertices that `trigger` does not reach. */
  ghost function Lost(vertices: map<string, Value>): set<string> {
    set v | v in vertices && !Reaches(DeclaredEdges(vertices), KEYWORD_TRIGGER, v)
  }

  lemma LostFromLost(vertices: map<string, Value>, v: string)
    requires v in vertices && v in Lost(vertices) && WellFormedVertex(vertices, v)
    ensures exists u :: u in Lost(vertices) && (u, v) in DeclaredEdges(vertices)
  {
    var edges := DeclaredEdges(vertices);
    ReachesSelf(edges, KEYWORD_TRIGGER);
    assert v != KEYWORD_TRIGGER;
    var u := RefSeq(vertices[v])[0];
    assert u in RefSeq(vertices[v]) && (u, v) in edges;
    if Reaches(edges, KEYWORD_TRIGGER, u) {
      ReachesStep(edges, KEYWORD_TRIGGER, u, v);
    }
  }

  /** In the graph of every buildable specification, `trigger` has no incoming edge and every step is reachable from it. */
  lemma EveryStepReachable(steps: seq<StepDefinition>, name: string)
    requires Buildable(steps) && name in VertexMap(steps)
    ensures var edges := DeclaredEdges(VertexMap(steps));
            Reaches(edges, KEYWORD_TRIGGER, name) && (name, KEYWORD_TRIGGER) !in edges
  {
    hide WellFormedVertex, Reaches, Acyclic, DistinctNames, VertexMap, DeclaredEdges;
    var vertices := VertexMap(steps);
    NothingIntoTrigger(steps, name);
    if !Reaches(DeclaredEdges(vertices), KEYWORD_TRIGGER, name) {
      assert name in Lost(vertices);
      hide Lost;
      forall v | v in Lost(vertices)
        ensures exists u :: u in Lost(vertices) && (u, v) in DeclaredEdges(vertices)
      {
        assert v in vertices by { LostIsVertex(vertices, v); }
        LostFromLost(vertices, v);
      }
      WalkBack(DeclaredEdges(vertices), Lost(vertices), [name]);
    }
  }

  lemma LostIsVertex(vertices: map<string, Value>, v: string)
    requires v in Lost(vertices)
    ensures v in vertices
  {
  }

  lemma NothingIntoTrigger(steps: seq<StepDefinition>, name: string)
    requires DistinctNames(steps)
    ensures (name, KEYWORD_TRIGGER) !in DeclaredEdges(VertexMap(steps))
  {
    TriggerHasNoInputs(steps);
  }

  lemma {:induction false} TriggerHasNoInputs(steps: seq<StepDefinition>)
    requires DistinctNames(steps)
    ensures KEYWORD_TRIGGER in VertexMap(steps) && VertexMap(steps)[KEYWORD_TRIGGER] == Mapping([])
    decreases |steps|
  {
    if steps != [] {
      TriggerHasNoInputs(steps[..|steps| - 1]);
    }
  }

  /** The declared edges, spelled out: `r` to `s` exactly when the inputs of step `s` mention `r`. */
  lemma {:induction false} DeclaredMeaning(steps: seq<StepDefinition>, r: string, s: string)
    requires DistinctNames(steps) && forall k :: 0 <= k < |steps| ==> !HasNull(InputsOf(steps[k]))
    ensures (r, s) in DeclaredEdges(VertexMap(steps))
       <==> exists k :: 0 <= k < |steps| && RefName(steps[k]) == s && Mentions(InputsOf(steps[k]), r)
  {
    var vertices := VertexMap(steps);
    VertexMeaning(steps, s);
    if s in vertices {
      RefsMeaning(vertices[s]);
      assert (r, s) in DeclaredEdges(vertices) <==> r in RefSeq(vertices[s]);
    }
  }

  lemma {:induction false} VertexMeaning(steps: seq<StepDefinition>, s: string)
    requires DistinctNames(steps)
    ensures s in VertexMap(steps) <==> s == KEYWORD_TRIGGER || exists k :: 0 <= k < |steps| && RefName(steps[k]) == s
    ensures s in VertexMap(steps) ==>
              || (VertexMap(steps)[s] == Mapping([]) && s == KEYWORD_TRIGGER)
              || exists k :: 0 <= k < |steps| && RefName(steps[k]) == s && VertexMap(steps)[s] == InputsOf(steps[k])
    ensures forall k :: 0 <= k < |steps| ==>
              && RefName(steps[k]) != KEYWORD_TRIGGER
              && RefName(steps[k]) in VertexMap(steps)
              && VertexMap(steps)[RefName(steps[k])] == InputsOf(steps[k])
    decreases |steps|
  {
    hide RefName, InputsOf;
    if steps != [] {
      var front, last := steps[..|steps| - 1], steps[|steps| - 1];
      VertexMeaning(front, s);
      TriggerHasNoInputs(front);
      assert forall k :: 0 <= k < |front| ==> front[k] == steps[k];
      if s == RefName(last) {
        assert steps[|steps| - 1] == last;
      }
    }
  }

  /** Names are all different, and none is the trigger's. */
  ghost predicate NamesDiffer(steps: seq<StepDefinition>) {
    && (forall k :: 0 <= k < |steps| ==> RefName(steps[k]) != KEYWORD_TRIGGER)
    && (forall i, j :: 0 <= i < j < |steps| ==> RefName(steps[i]) != RefName(steps[j]))
  }

  lemma NamesDifferSnoc(front: seq<StepDefinition>, last: StepDefinition)
    ensures NamesDiffer(front + [last]) <==>
              && NamesDiffer(front) && RefName(last) != KEYWORD_TRIGGER
              && !exists k :: 0 <= k < |front| && RefName(front[k]) == RefName(last)
  {
    hide RefName;
    var steps := front + [last];
    assert forall k :: 0 <= k < |front| ==> front[k] == steps[k];
    assert steps[|front|] == last;
  }

  lemma {:induction false} DistinctMeaning(steps: seq<StepDefinition>)
    ensures DistinctNames(steps) <==> NamesDiffer(steps)
    decreases |steps|
  {
    hide RefName, NamesDiffer, VertexMap;
    if steps == [] {
      assert NamesDiffer([]) by { EmptyDiffers(); }
    } else {
      var front, last := steps[..|steps| - 1], steps[|steps| - 1];
      assert steps == front + [last];
      DistinctMeaning(front);
      NamesDifferSnoc(front, last);
      if DistinctNames(front) {
        VertexMeaning(front, RefName(last));
      }
    }
  }

  lemma EmptyDiffers()
    ensures NamesDiffer([])
  {
  }

  /** What one step needs: traversable inputs that mention at least one step, and only steps that exist. */
  ghost predicate StepIsSound(steps: seq<StepDefinition>, k: nat)
    requires k < |steps|
  {
    && !HasNull(InputsOf(steps[k]))
    && (exists r :: Mentions(InputsOf(steps[k]), r))
    && forall r :: Mentions(InputsOf(steps[k]), r) ==> r in VertexMap(steps)
  }

  /** The success condition, step by step: names are distinct and not `trigger`, every step mentions some step and only
      existing ones, no input holds a nil, and the declared relation has no cycle. */
  lemma BuildableMeaning(steps: seq<StepDefinition>)
    ensures Buildable(steps) <==>
              && NamesDiffer(steps)
              && (forall k :: 0 <= k < |steps| ==> StepIsSound(steps, k))
              && Acyclic(DeclaredEdges(VertexMap(steps)))
  {
    hide Acyclic, DeclaredEdges, VertexMap, DistinctNames;
    DistinctMeaning(steps);
    if DistinctNames(steps) {
      var vertices := VertexMap(steps);
      TriggerHasNoInputs(steps);
      forall k | 0 <= k < |steps|
        ensures RefName(steps[k]) in vertices && (StepIsSound(steps, k) <==> WellFormedVertex(vertices, RefName(steps[k])))
      {
        VertexMeaning(steps, RefName(steps[k]));
        SoundIsWellFormed(steps, k);
      }
      forall name | name in vertices
        ensures name == KEYWORD_TRIGGER || exists k :: 0 <= k < |steps| && RefName(steps[k]) == name
      {
        VertexMeaning(steps, name);
      }
      assert WellFormedVertex(vertices, KEYWORD_TRIGGER);
    }
  }

  lemma SoundIsWellFormed(steps: seq<StepDefinition>, k: nat)
    requires k < |steps| && DistinctNames(steps)
    ensures RefName(steps[k]) in VertexMap(steps)
    ensures StepIsSound(steps, k) <==> WellFormedVertex(VertexMap(steps), RefName(steps[k]))
  {
    hide VertexMap, DistinctNames, Mentions, Refs, HasNull;
    VertexMeaning(steps, RefName(steps[k]));
    var refs := RefSeq(InputsOf(steps[k]));
    RefsMeaning(InputsOf(steps[k]));
    if refs != [] {
      assert refs[0] in refs;
    }
  }

  // ---------- workflows spelled out ----------

  /** A step's own reference wins over its type, and an output reference over the mapping. */
  lemma StepReadings(id: string, ref: string, outputRef: string, mapping: seq<Entry>)
    ensures ref != "" ==> RefName(StepDefinition(id, ref, outputRef, mapping)) == ref
    ensures RefName(StepDefinition(id, "", outputRef, mapping)) == id
    ensures outputRef != "" ==> InputsOf(StepDefinition(id, ref, outputRef, mapping)) == Text(outputRef)
    ensures InputsOf(StepDefinition(id, ref, "", mapping)) == Mapping(mapping)
  {
  }

  /** An output reference `$(source.path)` is an edge from `source`, and a step's only one. */
  lemma OutputRefIsEdge(steps: seq<StepDefinition>, k: nat, source: string, rest: string, r: string)
    requires DistinctNames(steps) && k < |steps| && (forall i :: 0 <= i < |steps| ==> !HasNull(InputsOf(steps[i])))
    requires '.' !in source && (rest == "" || rest[0] == '.') && source + rest != "" && Unspaced(source) && Unspaced(rest)
    requires steps[k].outputRef == "$(" + source + rest + ")"
    ensures (r, RefName(steps[k])) in DeclaredEdges(VertexMap(steps)) <==> r == source
  {
    hide VertexMap, DeclaredEdges, RefName, DistinctNames;
    InterpolationNamesStep(source, rest);
    VertexMeaning(steps, RefName(steps[k]));
    EdgesOfVertex(VertexMap(steps), RefName(steps[k]), r);
  }

  lemma EdgesOfVertex(vertices: map<string, Value>, name: string, r: string)
    requires name in vertices
    ensures (r, name) in DeclaredEdges(vertices) <==> r in RefSeq(vertices[name])
  {
  }

  /** The smallest workflow: one step that reads the trigger's outputs is built, with the one edge from `trigger`. */
  method BuildOneStep(id: string, name: string) returns (g: Graph)
    requires name != "" && name != "trigger"
    ensures fresh(g) && g.Valid() && g.vertices.Keys == {"trigger", name} && g.edges == {("trigger", name)}
  {
    var step := StepDefinition(id, name, "$(trigger.outputs)", []);
    OneStepBuildable(step);
    var r := BuildDependencyGraph([step]);
    g := r.graph;
  }

  lemma OneStepVertices(step: StepDefinition)
    requires step.ref != "" && step.ref != "trigger" && step.outputRef != ""
    ensures DistinctNames([step])
    ensures VertexMap([step]) == map["trigger" := Mapping([]), step.ref := Text(step.outputRef)]
  {
    assert VertexMap([]) == map["trigger" := Mapping([])] && DistinctNames([]);
    assert [step][..0] == [];
  }

  lemma OneStepEdges(vertices: map<string, Value>, name: string)
    requires name != "trigger" && vertices == map["trigger" := Mapping([]), name := Text("$(trigger.outputs)")]
    ensures DeclaredEdges(vertices) == {("trigger", name)}
    ensures WellFormedVertex(vertices, "trigger") && WellFormedVertex(vertices, name)
  {
    assert "$(" + "trigger" + ".outputs" + ")" == "$(trigger.outputs)";
    InterpolationNamesStep("trigger", ".outputs");
    EmptyMappingHasNoRefs();
    hide Refs, DeclaredEdges;
    EdgesOfTwo(vertices, "trigger", name);
  }

  lemma EdgesOfTwo(vertices: map<string, Value>, a: string, b: string)
    requires a != b && vertices.Keys == {a, b} && RefSeq(vertices[a]) == [] && RefSeq(vertices[b]) == [a]
    ensures DeclaredEdges(vertices) == {(a, b)}
  {
    hide RefSeq, DeclaredEdges;
    forall e: Edge
      ensures e in DeclaredEdges(vertices) <==> e == (a, b)
    {
      assert e == (e.0, e.1);
      if e.1 in vertices {
        EdgesOfVertex(vertices, e.1, e.0);
      } else {
        EdgesEndInVertices(vertices, e.0, e.1);
      }
    }
  }

  lemma EmptyMappingHasNoRefs()
    ensures Refs(Mapping([])) == Some([])
  {
  }

  lemma EdgesEndInVertices(vertices: map<string, Value>, r: string, s: string)
    requires s !in vertices
    ensures (r, s) !in DeclaredEdges(vertices)
  {
  }

  lemma OneStepBuildable(step: StepDefinition)
    requires step.ref != "" && step.ref != "trigger" && step.outputRef == "$(trigger.outputs)"
    ensures Buildable([step]) && VertexMap([step]).Keys == {"trigger", step.ref}
    ensures DeclaredEdges(VertexMap([step])) == {("trigger", step.ref)}
  {
    hide VertexMap, DistinctNames, DeclaredEdges, WellFormedVertex, Acyclic, Reaches;
    OneStepVertices(step);
    OneStepEdges(VertexMap([step]), step.ref);
    NoEdgesNoCycles();
    SingleEdge("trigger", step.ref);
    EdgeClosesCycle({}, "trigger", step.ref);
    assert {} + {("trigger", step.ref)} == {("trigger", step.ref)};
  }

  lemma SingleEdge(a: string, b: string)
    requires a != b
    ensures !Reaches({}, b, a)
  {
    if p :| PathFromTo({}, p, b, a) {
      PathHasEdge({}, p);
    }
  }
}
