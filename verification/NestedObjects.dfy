/**
 `FinmarsNestedObjects`: the forest shown before a delete, built from a possibly cyclic object graph.

 An object stands for itself; its class name, content type, id and user code in the reported node
 are read off it.
 */
module NestedObjects {

  datatype Option<+T> = None | Some(value: T)

  /** The collector: its root list (kept under the key None), its edges and its protected objects. */
  datatype Collector<Obj(==)> = Collector(roots: seq<Obj>, edges: map<Obj, seq<Obj>>, protect: set<Obj>)
  {
    /** `self.edges.get(obj, ())`. */
    function Children(obj: Obj): (r: seq<Obj>)
      ensures forall k | k in r :: k in Universe()
    {
      if obj in edges then edges[obj] else []
    }

    /** Every object the traversal can meet. */
    ghost function Universe(): set<Obj> {
      (set r | r in roots) + (set k, c | k in edges && c in edges[k] :: c)
    }
  }

  /** A reported object and its "related" list. */
  datatype Tree<Obj> = Node(obj: Obj, related: seq<Tree<Obj>>)

  /** A top-level entry and its "protected" flag. */
  datatype Root<Obj> = Root(tree: Tree<Obj>, protected: bool)

  // ----- The traversal as functions of the set of objects already seen

  function Visit<Obj(==)>(c: Collector<Obj>, obj: Obj, seen: set<Obj>): (r: (Option<Tree<Obj>>, set<Obj>))
    requires obj in c.Universe()
    ensures seen <= r.1
    ensures r.0.None? <==> obj in seen
    ensures r.0.Some? ==> r.0.value.obj == obj
    decreases c.Universe() - seen, 0
  {
    if obj in seen then (None, seen)
    else
      assert obj in c.Universe() - seen && obj !in c.Universe() - (seen + {obj});
      var (related, seen') := VisitAll(c, c.Children(obj), seen + {obj});
      (Some(Node(obj, related)), seen')
  }

  function VisitAll<Obj(==)>(c: Collector<Obj>, objs: seq<Obj>, seen: set<Obj>): (r: (seq<Tree<Obj>>, set<Obj>))
    requires forall o | o in objs :: o in c.Universe()
    ensures seen <= r.1
    decreases c.Universe() - seen, |objs|
  {
    if objs == [] then ([], seen)
    else
      var (first, seen1) := Visit(c, objs[0], seen);
      var (rest, seen2) := VisitAll(c, objs[1..], seen1);
      (if first.Some? then [first.value] + rest else rest, seen2)
  }

  // ----- The traversal as the source runs it

  /** The set passed by reference through the recursion. */
  class Seen<Obj(==)> {
    var members: set<Obj>

    constructor ()
      ensures members == {}
    {
      members := {};
    }
  }

  /** `_nested`. */
  method NestedUnder<Obj(==)>(c: Collector<Obj>, obj: Obj, seen: Seen<Obj>) returns (ret: Option<Tree<Obj>>)
    requires obj in c.Universe()
    modifies seen
    ensures (ret, seen.members) == Visit(c, obj, old(seen.members))
    decreases c.Universe() - seen.members
  {
    if obj in seen.members {
      return None;
    }
    ghost var before := seen.members;
    seen.members := seen.members + {obj};
    ghost var entered := seen.members;
    var children: seq<Tree<Obj>> := [];
    var objs := c.Children(obj);
    assert objs[0..] == objs;
    for i := 0 to |objs|
      invariant entered <= seen.members
      invariant VisitAll(c, objs, entered).0 == children + VisitAll(c, objs[i..], seen.members).0
      invariant VisitAll(c, objs, entered).1 == VisitAll(c, objs[i..], seen.members).1
    {
      assert objs[i..][1..] == objs[i + 1..];
      assert obj in c.Universe() - before && obj !in c.Universe() - seen.members;
      var nested := NestedUnder(c, objs[i], seen);
      if nested.Some? {
        children := children + [nested.value];
      }
    }
    assert children + [] == children;
    ret := Some(Node(obj, children));
  }

  /** `nested`. */
  method Nested<Obj(==)>(c: Collector<Obj>) returns (roots: seq<Root<Obj>>)
    ensures var forest := VisitAll(c, c.roots, {}).0;
            && |roots| == |forest|
            && forall i | 0 <= i < |roots| :: roots[i] == Root(forest[i], forest[i].obj in c.protect)
  {
    var seen := new Seen<Obj>();
    ghost var trees: seq<Tree<Obj>> := [];
    roots := [];
    assert c.roots[0..] == c.roots;
    for i := 0 to |c.roots|
      invariant VisitAll(c, c.roots, {}).0 == trees + VisitAll(c, c.roots[i..], seen.members).0
      invariant |roots| == |trees|
      invariant forall k | 0 <= k < |roots| :: roots[k] == Root(trees[k], trees[k].obj in c.protect)
    {
      assert c.roots[i..][1..] == c.roots[i + 1..];
      var root := c.roots[i];
      var item := NestedUnder(c, root, seen);
      if item.Some? {
        roots := roots + [Root(item.value, root in c.protect)];
        trees := trees + [item.value];
      }
    }
  }

  // ----- Reachability

  /** v is listed under u in the collector's edges. */
  predicate Edge<Obj(==)>(c: Collector<Obj>, u: Obj, v: Obj) {
    u in c.edges && v in c.edges[u]
  }

  /** A walk along edges that starts in a given set and never meets an avoided object. */
  ghost predicate IsPath<Obj>(c: Collector<Obj>, starts: set<Obj>, avoid: set<Obj>, p: seq<Obj>) {
    && p != [] && p[0] in starts
    && (forall i | 0 <= i < |p| :: p[i] !in avoid)
    && (forall i | 0 <= i < |p| - 1 :: Edge(c, p[i], p[i + 1]))
  }

  ghost predicate Reaches<Obj(!new)>(c: Collector<Obj>, starts: set<Obj>, avoid: set<Obj>, v: Obj) {
    exists p :: IsPath(c, starts, avoid, p) && p[|p| - 1] == v
  }

  lemma ReachesMore<Obj(!new)>(c: Collector<Obj>, starts: set<Obj>, avoid: set<Obj>, starts': set<Obj>, avoid': set<Obj>, v: Obj)
    requires Reaches(c, starts, avoid, v) && starts <= starts' && avoid' <= avoid
    ensures Reaches(c, starts', avoid', v)
  {
    var p :| IsPath(c, starts, avoid, p) && p[|p| - 1] == v;
    assert IsPath(c, starts', avoid', p);
  }

  lemma ReachesStart<Obj(!new)>(c: Collector<Obj>, starts: set<Obj>, avoid: set<Obj>, v: Obj)
    requires v in starts && v !in avoid
    ensures Reaches(c, starts, avoid, v)
  {
    assert IsPath(c, starts, avoid, [v]);
  }

  lemma ReachesStep<Obj(!new)>(c: Collector<Obj>, starts: set<Obj>, avoid: set<Obj>, u: Obj, v: Obj)
    requires Reaches(c, starts, avoid, u) && Edge(c, u, v) && v !in avoid
    ensures Reaches(c, starts, avoid, v)
  {
    var p :| IsPath(c, starts, avoid, p) && p[|p| - 1] == u;
    assert IsPath(c, starts, avoid, p + [v]);
  }

  /** A walk splits into what the first start reaches and what the other starts reach outside that. */
  lemma {:induction false} PathSplits<Obj(!new)>(c: Collector<Obj>, x: Obj, rest: set<Obj>, seen: set<Obj>, seen1: set<Obj>, p: seq<Obj>)
    requires IsPath(c, {x} + rest, seen, p)
    requires forall v :: v in seen1 <==> v in seen || Reaches(c, {x}, seen, v)
    ensures var v := p[|p| - 1]; Reaches(c, {x}, seen, v) || Reaches(c, rest, seen1, v)
    decreases |p|
  {
    var v := p[|p| - 1];
    if |p| == 1 {
      if v == x {
        ReachesStart(c, {x}, seen, v);
      } else if v !in seen1 {
        ReachesStart(c, rest, seen1, v);
      }
    } else {
      var q := p[..|p| - 1];
      var u := q[|q| - 1];
      PathSplits(c, x, rest, seen, seen1, q);
      assert Edge(c, u, v);
      if Reaches(c, {x}, seen, u) {
        ReachesStep(c, {x}, seen, u, v);
      } else if v !in seen1 {
        ReachesStep(c, rest, seen1, u, v);
      }
    }
  }

  /** A walk from an object ends there, or is a walk from its children that avoids it. */
  lemma {:induction false} PathUnder<Obj(!new)>(c: Collector<Obj>, obj: Obj, seen: set<Obj>, kids: set<Obj>, p: seq<Obj>)
    requires IsPath(c, {obj}, seen, p)
    requires forall k :: k in kids <==> Edge(c, obj, k)
    ensures var v := p[|p| - 1]; v == obj || Reaches(c, kids, seen + {obj}, v)
    decreases |p|
  {
    var v := p[|p| - 1];
    if |p| > 1 && v != obj {
      var q := p[..|p| - 1];
      var u := q[|q| - 1];
      PathUnder(c, obj, seen, kids, q);
      assert Edge(c, u, v);
      if u == obj {
        ReachesStart(c, kids, seen + {obj}, v);
      } else {
        ReachesStep(c, kids, seen + {obj}, u, v);
      }
    }
  }

  // ----- What the forest contains

  /** The objects of a tree, parents before children. */
  function Nodes<Obj>(t: Tree<Obj>): seq<Obj> {
    [t.obj] + NodesOf(t.related)
  }

  function NodesOf<Obj>(ts: seq<Tree<Obj>>): seq<Obj> {
    if ts == [] then [] else Nodes(ts[0]) + NodesOf(ts[1..])
  }

  ghost predicate NoDuplicates<Obj>(s: seq<Obj>) {
    forall i, j | 0 <= i < j < |s| :: s[i] != s[j]
  }

  /** Every "related" entry is a child of the object it is listed under. */
  ghost predicate LinksAreEdges<Obj>(c: Collector<Obj>, t: Tree<Obj>) {
    forall s | s in t.related :: Edge(c, t.obj, s.obj) && LinksAreEdges(c, s)
  }

  /**
   Depth-first order, read off the result alone: each tree holds exactly what its top object
   reaches without passing through an object listed before it, and below it stands a tree for
   each child, in order, that was not listed before its turn.
   */
  ghost predicate DepthFirst<Obj(!new)>(c: Collector<Obj>, before: set<Obj>, t: Tree<Obj>)
    decreases t, 0
  {
    && (forall v :: v in Nodes(t) <==> Reaches(c, {t.obj}, before, v))
    && (if t.obj in c.edges then DepthFirstAll(c, before + {t.obj}, c.edges[t.obj], t.related) else t.related == [])
  }

  ghost predicate DepthFirstAll<Obj(!new)>(c: Collector<Obj>, before: set<Obj>, objs: seq<Obj>, ts: seq<Tree<Obj>>)
    decreases ts, |objs|
  {
    if objs == [] then ts == []
    else if objs[0] in before then DepthFirstAll(c, before, objs[1..], ts)
    else
      && ts != [] && ts[0].obj == objs[0]
      && DepthFirst(c, before, ts[0])
      && DepthFirstAll(c, before + (set v | v in Nodes(ts[0])), objs[1..], ts[1..])
  }

  lemma NoDuplicatesConcat<Obj>(a: seq<Obj>, b: seq<Obj>)
    requires NoDuplicates(a) && NoDuplicates(b)
    requires forall x | x in a :: x !in b
    ensures NoDuplicates(a + b)
  {
    forall i, j | 0 <= i < j < |a + b|
      ensures (a + b)[i] != (a + b)[j]
    {
      assert i < |a| <= j ==> (a + b)[i] in a && (a + b)[j] in b;
    }
  }

  /** t is what visiting obj adds: the objects it reaches outside the seen set, once each, depth first. */
  ghost predicate AddsTree<Obj(!new)>(c: Collector<Obj>, obj: Obj, seen: set<Obj>, t: Tree<Obj>, seen': set<Obj>) {
    && t.obj == obj
    && NoDuplicates(Nodes(t))
    && (forall v :: v in Nodes(t) <==> Reaches(c, {obj}, seen, v))
    && seen' == seen + (set v | v in Nodes(t))
    && LinksAreEdges(c, t)
    && DepthFirst(c, seen, t)
  }

  ghost function Members<Obj>(s: seq<Obj>): set<Obj> {
    set o | o in s
  }

  /** The same for a list of starting objects. */
  ghost predicate AddsForest<Obj(!new)>(c: Collector<Obj>, objs: seq<Obj>, seen: set<Obj>, ts: seq<Tree<Obj>>, seen': set<Obj>) {
    && NoDuplicates(NodesOf(ts))
    && (forall v :: v in NodesOf(ts) <==> Reaches(c, Members(objs), seen, v))
    && seen' == seen + (set v | v in NodesOf(ts))
    && (forall t | t in ts :: t.obj in objs && LinksAreEdges(c, t))
    && DepthFirstAll(c, seen, objs, ts)
  }

  lemma {:induction false} VisitAdds<Obj(!new)>(c: Collector<Obj>, obj: Obj, seen: set<Obj>)
    requires obj in c.Universe() && obj !in seen
    ensures AddsTree(c, obj, seen, Visit(c, obj, seen).0.value, Visit(c, obj, seen).1)
    decreases c.Universe() - seen, 0
  {
    hide AddsTree, AddsForest;
    assert obj in c.Universe() - seen && obj !in c.Universe() - (seen + {obj});
    var objs := c.Children(obj);
    var (related, seen') := VisitAll(c, objs, seen + {obj});
    VisitAllAdds(c, objs, seen + {obj});
    ParentAdded(c, obj, seen, related, seen');
  }

  lemma {:induction false} VisitAllAdds<Obj(!new)>(c: Collector<Obj>, objs: seq<Obj>, seen: set<Obj>)
    requires forall o | o in objs :: o in c.Universe()
    ensures AddsForest(c, objs, seen, VisitAll(c, objs, seen).0, VisitAll(c, objs, seen).1)
    decreases c.Universe() - seen, |objs|
  {
    if objs == [] {
      NothingFrom(c, Members(objs), seen);
    } else {
      hide AddsTree, AddsForest;
      var x, others := objs[0], objs[1..];
      var (first, seen1) := Visit(c, x, seen);
      var (ts, seen2) := VisitAll(c, others, seen1);
      VisitAllAdds(c, others, seen1);
      if first.Some? {
        VisitAdds(c, x, seen);
        FirstTreeAdded(c, objs, seen, first.value, seen1, ts, seen2);
      } else {
        SeenStartAdded(c, objs, seen, ts, seen2);
      }
    }
  }

  lemma NothingFrom<Obj(!new)>(c: Collector<Obj>, starts: set<Obj>, seen: set<Obj>)
    requires starts <= seen
    ensures forall v :: !Reaches(c, starts, seen, v)
  {
  }

  lemma NotReached<Obj(!new)>(c: Collector<Obj>, starts: set<Obj>, avoid: set<Obj>, v: Obj)
    requires v in avoid
    ensures !Reaches(c, starts, avoid, v)
  {
  }

  /** An object and the forest found under its children. */
  lemma ParentAdded<Obj(!new)>(c: Collector<Obj>, obj: Obj, seen: set<Obj>, related: seq<Tree<Obj>>, seen': set<Obj>)
    requires obj !in seen
    requires AddsForest(c, c.Children(obj), seen + {obj}, related, seen')
    ensures AddsTree(c, obj, seen, Node(obj, related), seen')
  {
    var kids := Members(c.Children(obj));
    var t := Node(obj, related);
    forall v
      ensures v in Nodes(t) <==> Reaches(c, {obj}, seen, v)
    {
      ReachesUnder(c, obj, seen, kids, v);
    }
    NotReached(c, kids, seen + {obj}, obj);
    NoDuplicatesConcat([obj], NodesOf(related));
  }

  lemma ReachesUnder<Obj(!new)>(c: Collector<Obj>, obj: Obj, seen: set<Obj>, kids: set<Obj>, v: Obj)
    requires obj !in seen
    requires forall k :: k in kids <==> Edge(c, obj, k)
    ensures Reaches(c, {obj}, seen, v) <==> v == obj || Reaches(c, kids, seen + {obj}, v)
  {
    if Reaches(c, {obj}, seen, v) {
      var p :| IsPath(c, {obj}, seen, p) && p[|p| - 1] == v;
      PathUnder(c, obj, seen, kids, p);
    }
    if v == obj {
      ReachesStart(c, {obj}, seen, obj);
    } else if Reaches(c, kids, seen + {obj}, v) {
      var p :| IsPath(c, kids, seen + {obj}, p) && p[|p| - 1] == v;
      assert IsPath(c, {obj}, seen, [obj] + p);
    }
  }

  /** A tree and the forest found after it. */
  lemma FirstTreeAdded<Obj(!new)>(c: Collector<Obj>, objs: seq<Obj>, seen: set<Obj>, t: Tree<Obj>, seen1: set<Obj>,
                                  ts: seq<Tree<Obj>>, seen2: set<Obj>)
    requires objs != [] && objs[0] !in seen
    requires AddsTree(c, objs[0], seen, t, seen1) && AddsForest(c, objs[1..], seen1, ts, seen2)
    ensures AddsForest(c, objs, seen, [t] + ts, seen2)
  {
    var x, rest := objs[0], Members(objs[1..]);
    assert Members(objs) == {x} + rest;
    var all := [t] + ts;
    assert all[0] == t && all[1..] == ts;
    assert NodesOf(all) == Nodes(t) + NodesOf(ts);
    forall v | v in Nodes(t)
      ensures v !in NodesOf(ts)
    {
      NotReached(c, rest, seen1, v);
    }
    NoDuplicatesConcat(Nodes(t), NodesOf(ts));
    forall v
      ensures v in NodesOf(all) <==> Reaches(c, {x} + rest, seen, v)
    {
      StartsSplit(c, x, rest, seen, seen1, v);
    }
  }

  /** A start that was already seen adds nothing. */
  lemma SeenStartAdded<Obj(!new)>(c: Collector<Obj>, objs: seq<Obj>, seen: set<Obj>, ts: seq<Tree<Obj>>, seen2: set<Obj>)
    requires objs != [] && objs[0] in seen && AddsForest(c, objs[1..], seen, ts, seen2)
    ensures AddsForest(c, objs, seen, ts, seen2)
  {
    var x, rest := objs[0], Members(objs[1..]);
    assert Members(objs) == {x} + rest;
    NothingFrom(c, {x}, seen);
    forall v
      ensures Reaches(c, {x} + rest, seen, v) <==> Reaches(c, rest, seen, v)
    {
      StartsSplit(c, x, rest, seen, seen, v);
    }
  }

  lemma StartsSplit<Obj(!new)>(c: Collector<Obj>, x: Obj, rest: set<Obj>, seen: set<Obj>, seen1: set<Obj>, v: Obj)
    requires forall u :: u in seen1 <==> u in seen || Reaches(c, {x}, seen, u)
    ensures Reaches(c, {x} + rest, seen, v) <==> Reaches(c, {x}, seen, v) || Reaches(c, rest, seen1, v)
  {
    if Reaches(c, {x} + rest, seen, v) {
      var p :| IsPath(c, {x} + rest, seen, p) && p[|p| - 1] == v;
      PathSplits(c, x, rest, seen, seen1, p);
    }
    if Reaches(c, {x}, seen, v) {
      ReachesMore(c, {x}, seen, {x} + rest, seen, v);
    }
    if Reaches(c, rest, seen1, v) {
      ReachesMore(c, rest, seen1, {x} + rest, seen, v);
    }
  }

  /**
   For every finite object graph, cyclic or shared: the forest holds each object reachable from the
   roots exactly once and no other, every link is an edge, the trees are in depth-first order, and
   the objects marked seen are exactly the reachable ones.
   */
  lemma ForestIsReachableSet<Obj(!new)>(c: Collector<Obj>)
    ensures var (forest, seen) := VisitAll(c, c.roots, {}); var roots := Members(c.roots);
            && NoDuplicates(NodesOf(forest))
            && (forall v :: v in NodesOf(forest) <==> Reaches(c, roots, {}, v))
            && (forall v :: v in seen <==> Reaches(c, roots, {}, v))
            && (forall t | t in forest :: t.obj in c.roots && LinksAreEdges(c, t))
            && DepthFirstAll(c, {}, c.roots, forest)
  {
    VisitAllAdds(c, c.roots, {});
  }
}
