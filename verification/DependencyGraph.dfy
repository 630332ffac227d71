/** The dependency graph endpoint: a level-by-level breadth-first search over the
    dependency rows of one snapshot, walking imports both ways, with a depth limit
    and a cap on the number of nodes. */
module DependencyGraph {
  import opened Text

  const MAX_GRAPH_NODES: nat := 200

  /** A row of the dependencies table. `target` is absent for external packages. */
  datatype Dependency = Dependency(
    source: string,
    target: Option<string>,
    importName: string,
    importType: string,
    package: Option<string>)

  datatype Edge = Edge(source: string, target: string, importName: string, importType: string, package: Option<string>)

  datatype EdgeKey = EdgeKey(source: string, target: string, importName: string)

  datatype Node = Node(path: string, isExternal: bool, depth: nat)

  datatype Response =
    | QueryFailed
    | Graph(nodes: seq<Node>, edges: seq<Edge>, root: string, depth: nat, truncated: bool)

  /** The node a row points at: its target file, or a sink named after the package or import. */
  function TargetNode(d: Dependency): string {
    if d.target.Some? then d.target.value
    else if d.package.Some? then "ext:" + d.package.value
    else "ext:" + d.importName
  }

  function EdgeOf(d: Dependency): Edge {
    Edge(d.source, TargetNode(d), d.importName, d.importType, d.package)
  }

  function EdgesOf(deps: seq<Dependency>): seq<Edge> {
    seq(|deps|, i requires 0 <= i < |deps| => EdgeOf(deps[i]))
  }

  function KeyOf(e: Edge): EdgeKey {
    EdgeKey(e.source, e.target, e.importName)
  }

  // ----- Reference definitions: walks and distances

  /** The row leads to its target file or, without one, to `ext:` and the package or, without that
      too, the import name. */
  predicate LeadsTo(d: Dependency, v: string) {
    && (d.target.Some? ==> v == d.target.value)
    && (d.target.None? && d.package.Some? ==> v == "ext:" + d.package.value)
    && (d.target.None? && d.package.None? ==> v == "ext:" + d.importName)
  }

  /** One step of a walk: along an import, or back from an imported file to its importer.
      Nothing leads out of an external package. */
  predicate Joins(d: Dependency, u: string, v: string) {
    (d.source == u && LeadsTo(d, v)) || (d.target == Some(u) && d.source == v)
  }

  ghost predicate Linked(rows: seq<Dependency>, u: string, v: string) {
    exists d :: d in rows && Joins(d, u, v)
  }

  ghost predicate Walk(rows: seq<Dependency>, from: string, to: string, p: seq<string>) {
    && |p| > 0 && p[0] == from && p[|p| - 1] == to
    && forall i :: 0 <= i < |p| - 1 ==> Linked(rows, p[i], p[i + 1])
  }

  /** `k` is the length of a shortest walk from `root` to `v`. */
  ghost predicate IsDistance(rows: seq<Dependency>, root: string, v: string, k: nat) {
    && (exists p :: Walk(rows, root, v, p) && |p| == k + 1)
    && (forall p :: Walk(rows, root, v, p) ==> |p| >= k + 1)
  }

  ghost predicate WithinDepth(rows: seq<Dependency>, root: string, v: string, depth: nat) {
    exists p :: Walk(rows, root, v, p) && |p| <= depth + 1
  }

  /** The names given to external packages. */
  ghost function ExternalNames(rows: seq<Dependency>): set<string> {
    set d | d in rows && d.target.None? :: TargetNode(d)
  }

  /** No indexed file is named like an external package (no path starts with `ext:`). */
  ghost predicate ExternalNamesFree(rows: seq<Dependency>) {
    forall d :: d in rows ==> d.source !in ExternalNames(rows) && (d.target.Some? ==> d.target.value !in ExternalNames(rows))
  }

  // ----- Balls around the root

  ghost function Targets(rows: seq<Dependency>, s: set<string>): set<string> {
    set d | d in rows && d.source in s :: TargetNode(d)
  }

  ghost function Importers(rows: seq<Dependency>, s: set<string>): set<string> {
    set d | d in rows && d.target.Some? && d.target.value in s :: d.source
  }

  ghost function Ball(rows: seq<Dependency>, root: string, k: nat): set<string> {
    if k == 0 then {root}
    else
      var inner := Ball(rows, root, k - 1);
      inner + Targets(rows, inner) + Importers(rows, inner)
  }

  lemma {:induction false} BallMonotone(rows: seq<Dependency>, root: string, j: nat, k: nat)
    requires j <= k
    ensures Ball(rows, root, j) <= Ball(rows, root, k)
  {
    if j < k {
      BallMonotone(rows, root, j, k - 1);
    }
  }

  lemma LinkedStaysInBall(rows: seq<Dependency>, root: string, k: nat, u: string, v: string)
    requires u in Ball(rows, root, k) && Linked(rows, u, v)
    ensures v in Ball(rows, root, k + 1)
  {
    var d :| d in rows && Joins(d, u, v);
    var inner := Ball(rows, root, k);
    if d.source == u && LeadsTo(d, v) {
      assert v in Targets(rows, inner);
    } else {
      assert v in Importers(rows, inner);
    }
  }

  lemma {:induction false} WalkEndsInBall(rows: seq<Dependency>, root: string, v: string, p: seq<string>)
    requires Walk(rows, root, v, p)
    ensures v in Ball(rows, root, |p| - 1)
    decreases |p|
  {
    if |p| > 1 {
      var q := p[..|p| - 1];
      WalkEndsInBall(rows, root, q[|q| - 1], q);
      assert Linked(rows, p[|p| - 2], p[|p| - 2 + 1]);
      LinkedStaysInBall(rows, root, |q| - 1, q[|q| - 1], v);
    }
  }

  lemma BallPredecessor(rows: seq<Dependency>, root: string, v: string, k: nat) returns (u: string)
    requires k > 0 && v in Ball(rows, root, k) && v !in Ball(rows, root, k - 1)
    ensures u in Ball(rows, root, k - 1) && Linked(rows, u, v)
  {
    var inner := Ball(rows, root, k - 1);
    var d;
    if v in Targets(rows, inner) {
      d :| d in rows && d.source in inner && TargetNode(d) == v;
      u := d.source;
    } else {
      d :| d in rows && d.target.Some? && d.target.value in inner && d.source == v;
      u := d.target.value;
    }
    assert Joins(d, u, v);
  }

  lemma WalkExtends(rows: seq<Dependency>, from: string, u: string, v: string, p: seq<string>)
    requires Walk(rows, from, u, p) && Linked(rows, u, v)
    ensures Walk(rows, from, v, p + [v])
  {
    hide Linked;
    var q := p + [v];
    forall i | 0 <= i < |q| - 1
      ensures Linked(rows, q[i], q[i + 1])
    {
      if i < |p| - 1 {
        assert Linked(rows, p[i], p[i + 1]);
      }
    }
  }

  lemma {:induction false} BallHasWalk(rows: seq<Dependency>, root: string, v: string, k: nat) returns (p: seq<string>)
    requires v in Ball(rows, root, k)
    ensures Walk(rows, root, v, p) && |p| <= k + 1
    decreases k
  {
    if k == 0 {
      p := [root];
    } else if v in Ball(rows, root, k - 1) {
      p := BallHasWalk(rows, root, v, k - 1);
    } else {
      var u := BallPredecessor(rows, root, v, k);
      p := BallHasWalk(rows, root, u, k - 1);
      WalkExtends(rows, root, u, v, p);
      p := p + [v];
    }
  }

  /** Being in a ball is having a walk that short. */
  lemma BallIsWithinDepth(rows: seq<Dependency>, root: string, v: string, k: nat)
    ensures v in Ball(rows, root, k) <==> WithinDepth(rows, root, v, k)
  {
    if v in Ball(rows, root, k) {
      var p := BallHasWalk(rows, root, v, k);
    }
    if WithinDepth(rows, root, v, k) {
      var p :| Walk(rows, root, v, p) && |p| <= k + 1;
      WalkEndsInBall(rows, root, v, p);
      BallMonotone(rows, root, |p| - 1, k);
    }
  }

  /** First appearing in the `k`-th ball is being at distance `k`. */
  ghost predicate FirstIn(rows: seq<Dependency>, root: string, v: string, k: nat) {
    v in Ball(rows, root, k) && (k > 0 ==> v !in Ball(rows, root, k - 1))
  }

  lemma FirstInIsDistance(rows: seq<Dependency>, root: string, v: string, k: nat)
    requires FirstIn(rows, root, v, k)
    ensures IsDistance(rows, root, v, k)
  {
    forall p | Walk(rows, root, v, p)
      ensures |p| >= k + 1
    {
      WalkEndsInBall(rows, root, v, p);
      if |p| < k + 1 {
        BallMonotone(rows, root, |p| - 1, k - 1);
      }
    }
    var p := BallHasWalk(rows, root, v, k);
  }

  /** The frontier holds every file first met at the last level; only these can lead anywhere new. */
  ghost predicate IsFrontier(rows: seq<Dependency>, root: string, k: nat, frontier: set<string>) {
    && (forall v :: v in frontier ==> FirstIn(rows, root, v, k))
    && (forall v :: FirstIn(rows, root, v, k) && v !in ExternalNames(rows) ==> v in frontier)
  }

  lemma FrontierSuffices(rows: seq<Dependency>, root: string, k: nat, frontier: set<string>)
    requires ExternalNamesFree(rows) && IsFrontier(rows, root, k, frontier)
    ensures Ball(rows, root, k + 1) == Ball(rows, root, k) + Targets(rows, frontier) + Importers(rows, frontier)
  {
    var ball := Ball(rows, root, k);
    forall v | v in Targets(rows, ball)
      ensures v in ball || v in Targets(rows, frontier)
    {
      var d :| d in rows && d.source in ball && TargetNode(d) == v;
      if d.source !in frontier {
        assert v in Targets(rows, Ball(rows, root, k - 1));
      }
    }
    forall v | v in Importers(rows, ball)
      ensures v in ball || v in Importers(rows, frontier)
    {
      var d :| d in rows && d.target.Some? && d.target.value in ball && d.source == v;
      if d.target.value !in frontier {
        assert v in Importers(rows, Ball(rows, root, k - 1));
      }
    }
  }

  lemma {:induction false} EmptyFrontierIsFixpoint(rows: seq<Dependency>, root: string, k: nat, n: nat)
    requires ExternalNamesFree(rows) && IsFrontier(rows, root, k, {}) && k <= n
    ensures Ball(rows, root, n) == Ball(rows, root, k)
  {
    hide IsFrontier, ExternalNamesFree, Ball, Targets, Importers;
    if k < n {
      FrontierSuffices(rows, root, k, {});
      EmptyFrontierIsFixpoint(rows, root, k, n - 1);
      NothingBeyondNothing(rows);
      BallStep(rows, root, k);
      BallStep(rows, root, n - 1);
    }
  }

  lemma BallStep(rows: seq<Dependency>, root: string, k: nat)
    ensures Ball(rows, root, k + 1) == Ball(rows, root, k) + Targets(rows, Ball(rows, root, k)) + Importers(rows, Ball(rows, root, k))
  {
  }

  lemma NothingBeyondNothing(rows: seq<Dependency>)
    ensures Targets(rows, {}) == {} && Importers(rows, {}) == {}
  {
  }

  // ----- The store

  /** The batch lookups of `dependencies.sql`; either may fail. Only membership of the
      result is promised, so what follows holds for every order of the rows. */
  class DependencyStore {
    const rows: seq<Dependency>
    /** Whether every lookup is answered. */
    const reliable: bool

    constructor (rows: seq<Dependency>, reliable: bool)
      ensures this.rows == rows && this.reliable == reliable
    {
      this.rows, this.reliable := rows, reliable;
    }

    method ListDependenciesFromFiles(files: seq<string>) returns (result: Option<seq<Dependency>>)
      ensures reliable ==> result.Some?
      ensures result.Some? ==> forall d :: d in result.value <==> d in rows && d.source in files
    {
      if !reliable {
        if * { return None; }
      }
      var out: seq<Dependency> := [];
      for i := 0 to |rows|
        invariant forall d :: d in out <==> d in rows[..i] && d.source in files
      {
        if rows[i].source in files { out := out + [rows[i]]; }
      }
      result := Some(out);
    }

    method ListDependenciesToFiles(files: seq<string>) returns (result: Option<seq<Dependency>>)
      ensures reliable ==> result.Some?
      ensures result.Some? ==> forall d :: d in result.value <==> d in rows && d.target.Some? && d.target.value in files
    {
      if !reliable {
        if * { return None; }
      }
      var out: seq<Dependency> := [];
      for i := 0 to |rows|
        invariant forall d :: d in out <==> d in rows[..i] && d.target.Some? && d.target.value in files
      {
        if rows[i].target.Some? && rows[i].target.value in files { out := out + [rows[i]]; }
      }
      result := Some(out);
    }
  }

  // ----- Expanding one level

  /** The part of the search state that decides which nodes are listed. */
  datatype Frontline = Frontline(visited: map<string, nat>, next: seq<string>, truncated: bool)

  /** A node an edge leads to. */
  datatype Offer = Offer(node: string, isExternal: bool)

  /** Visits the offered node unless it was seen already or the graph is full. */
  function Visit(f: Frontline, offer: Offer, level: nat): Frontline {
    if offer.node in f.visited then f
    else if |f.visited| >= MAX_GRAPH_NODES then f.(truncated := true)
    else Frontline(f.visited[offer.node := level + 1], if offer.isExternal then f.next else f.next + [offer.node], f.truncated)
  }

  function VisitAll(f: Frontline, offers: seq<Offer>, level: nat): Frontline
    decreases |offers|
  {
    if offers == [] then f
    else VisitAll(Visit(f, offers[0], level), offers[1..], level)
  }

  function ForwardOffers(deps: seq<Dependency>): seq<Offer> {
    seq(|deps|, i requires 0 <= i < |deps| => Offer(TargetNode(deps[i]), deps[i].target.None?))
  }

  function ReverseOffers(deps: seq<Dependency>): seq<Offer> {
    seq(|deps|, i requires 0 <= i < |deps| => Offer(deps[i].source, false))
  }

  /** What holds while a level is being expanded. `base` is what was visited when the
      level began, `within` everything one step further out. */
  ghost predicate Expanding(f: Frontline, base: map<string, nat>, within: set<string>, external: set<string>, level: nat) {
    && (forall v :: v in base ==> v in f.visited && f.visited[v] == base[v])
    && (forall v :: v in f.visited ==> v in within && (v !in base ==> f.visited[v] == level + 1))
    && (forall v :: v in f.next <==> v in f.visited && v !in base && v !in external)
    && |f.visited| <= MAX_GRAPH_NODES
    && (f.truncated ==> |f.visited| == MAX_GRAPH_NODES && f.visited.Keys != within)
  }

  /** Nothing is forgotten, and unless the search is cut short every offer is taken. */
  ghost predicate Covers(g: Frontline, f: Frontline, offers: seq<Offer>) {
    && (forall v :: v in f.visited ==> v in g.visited)
    && (f.truncated ==> g.truncated)
    && (!g.truncated ==> forall i :: 0 <= i < |offers| ==> offers[i].node in g.visited)
  }

  ghost predicate GoodOffer(o: Offer, within: set<string>, external: set<string>) {
    o.node in within && (o.isExternal <==> o.node in external)
  }

  lemma VisitExpands(f: Frontline, offer: Offer, base: map<string, nat>, within: set<string>, external: set<string>, level: nat)
    requires Expanding(f, base, within, external, level) && GoodOffer(offer, within, external)
    ensures Expanding(Visit(f, offer, level), base, within, external, level)
    ensures Covers(Visit(f, offer, level), f, [offer])
  {
  }

  lemma {:induction false} VisitAllExpands(f: Frontline, offers: seq<Offer>, base: map<string, nat>, within: set<string>, external: set<string>, level: nat)
    requires Expanding(f, base, within, external, level)
    requires forall i :: 0 <= i < |offers| ==> GoodOffer(offers[i], within, external)
    ensures Expanding(VisitAll(f, offers, level), base, within, external, level)
    ensures Covers(VisitAll(f, offers, level), f, offers)
    decreases |offers|
  {
    if offers != [] {
      VisitExpands(f, offers[0], base, within, external, level);
      VisitAllExpands(Visit(f, offers[0], level), offers[1..], base, within, external, level);
      CoversCompose(VisitAll(f, offers, level), Visit(f, offers[0], level), f, offers);
    }
  }

  lemma CoversCompose(h: Frontline, g: Frontline, f: Frontline, offers: seq<Offer>)
    requires offers != [] && Covers(g, f, [offers[0]]) && Covers(h, g, offers[1..])
    ensures Covers(h, f, offers)
  {
    assert [offers[0]][0] == offers[0];
    forall i | 0 <= i < |offers| && !h.truncated
      ensures offers[i].node in h.visited
    {
      if i > 0 {
        assert offers[1..][i - 1] == offers[i];
      }
    }
  }

  /** One whole level, forward edges before reverse edges. */
  function ExpandLevel(visited: map<string, nat>, fwd: seq<Dependency>, rev: seq<Dependency>, level: nat): Frontline {
    VisitAll(VisitAll(Frontline(visited, [], false), ForwardOffers(fwd), level), ReverseOffers(rev), level)
  }

  /** The labels given so far are exact, and complete up to `level`. */
  ghost predicate LevelDone(rows: seq<Dependency>, root: string, level: nat, visited: map<string, nat>) {
    && visited.Keys == Ball(rows, root, level)
    && |visited| <= MAX_GRAPH_NODES
    && forall v :: v in visited ==> visited[v] <= level && FirstIn(rows, root, v, visited[v])
  }

  ghost predicate Answers(rows: seq<Dependency>, frontier: seq<string>, fwd: seq<Dependency>, rev: seq<Dependency>) {
    && (forall d :: d in fwd <==> d in rows && d.source in frontier)
    && (forall d :: d in rev <==> d in rows && d.target.Some? && d.target.value in frontier)
  }

  /** Expanding a level from complete exact labels gives exact labels again: complete for the
      next level, or truncated with the graph full and a node of the next level missing. */
  lemma LevelExpansion(rows: seq<Dependency>, root: string, level: nat, visited: map<string, nat>, frontier: seq<string>,
                       fwd: seq<Dependency>, rev: seq<Dependency>)
    requires ExternalNamesFree(rows) && LevelDone(rows, root, level, visited)
    requires IsFrontier(rows, root, level, set v | v in frontier) && Answers(rows, frontier, fwd, rev)
    ensures Expanded(rows, root, level + 1, ExpandLevel(visited, fwd, rev, level))
  {
    var within := Ball(rows, root, level + 1);
    var external := ExternalNames(rows);
    var f0 := Frontline(visited, [], false);
    var f1 := VisitAll(f0, ForwardOffers(fwd), level);
    var f2 := VisitAll(f1, ReverseOffers(rev), level);
    FrontierSuffices(rows, root, level, set v | v in frontier);
    OffersAreGood(rows, root, level, frontier, fwd, rev);
    VisitAllExpands(f0, ForwardOffers(fwd), visited, within, external, level);
    VisitAllExpands(f1, ReverseOffers(rev), visited, within, external, level);
    EverythingOffered(rows, (set v | v in frontier), fwd, rev, f1, f2);
    ExpandingIsExpanded(rows, root, level, visited, f2);
  }

  ghost predicate Expanded(rows: seq<Dependency>, root: string, k: nat, g: Frontline) {
    && (forall v :: v in g.visited ==> g.visited[v] <= k && FirstIn(rows, root, v, g.visited[v]))
    && (!g.truncated ==> LevelDone(rows, root, k, g.visited) && IsFrontier(rows, root, k, set v | v in g.next))
    && (g.truncated ==> |g.visited| == MAX_GRAPH_NODES && g.visited.Keys < Ball(rows, root, k))
  }

  lemma ExpandingIsExpanded(rows: seq<Dependency>, root: string, level: nat, visited: map<string, nat>, g: Frontline)
    requires LevelDone(rows, root, level, visited)
    requires Expanding(g, visited, Ball(rows, root, level + 1), ExternalNames(rows), level)
    requires !g.truncated ==> Ball(rows, root, level + 1) <= g.visited.Keys
    ensures Expanded(rows, root, level + 1, g)
  {
    forall v | v in g.visited
      ensures g.visited[v] <= level + 1 && FirstIn(rows, root, v, g.visited[v])
    {
      NewLabelIsFirst(rows, root, level, visited, g, v);
    }
    assert g.visited.Keys <= Ball(rows, root, level + 1);
    if !g.truncated {
      assert g.visited.Keys == Ball(rows, root, level + 1);
      NextIsFrontier(rows, root, level, visited, g);
    }
  }

  lemma NewLabelIsFirst(rows: seq<Dependency>, root: string, level: nat, visited: map<string, nat>, g: Frontline, v: string)
    requires LevelDone(rows, root, level, visited)
    requires Expanding(g, visited, Ball(rows, root, level + 1), ExternalNames(rows), level)
    requires v in g.visited
    ensures g.visited[v] <= level + 1 && FirstIn(rows, root, v, g.visited[v])
  {
    if v in visited {
      assert g.visited[v] == visited[v];
    } else {
      assert g.visited[v] == level + 1 && v !in Ball(rows, root, level);
    }
  }

  lemma NextIsFrontier(rows: seq<Dependency>, root: string, level: nat, visited: map<string, nat>, g: Frontline)
    requires visited.Keys == Ball(rows, root, level) && g.visited.Keys == Ball(rows, root, level + 1)
    requires forall v :: v in g.next <==> v in g.visited && v !in visited && v !in ExternalNames(rows)
    ensures IsFrontier(rows, root, level + 1, set v | v in g.next)
  {
    forall v
      ensures v in (set w | w in g.next) <==> FirstIn(rows, root, v, level + 1) && v !in ExternalNames(rows)
    {
      assert v in visited <==> v in Ball(rows, root, level);
    }
  }

  lemma OffersAreGood(rows: seq<Dependency>, root: string, level: nat, frontier: seq<string>,
                      fwd: seq<Dependency>, rev: seq<Dependency>)
    requires ExternalNamesFree(rows) && Answers(rows, frontier, fwd, rev)
    requires var files := set v | v in frontier;
             Targets(rows, files) + Importers(rows, files) <= Ball(rows, root, level + 1)
    ensures forall i :: 0 <= i < |ForwardOffers(fwd)| ==>
              GoodOffer(ForwardOffers(fwd)[i], Ball(rows, root, level + 1), ExternalNames(rows))
    ensures forall i :: 0 <= i < |ReverseOffers(rev)| ==>
              GoodOffer(ReverseOffers(rev)[i], Ball(rows, root, level + 1), ExternalNames(rows))
  {
    var files := set v | v in frontier;
    forall i | 0 <= i < |ForwardOffers(fwd)|
      ensures GoodOffer(ForwardOffers(fwd)[i], Ball(rows, root, level + 1), ExternalNames(rows))
    {
      assert fwd[i] in fwd;
      assert TargetNode(fwd[i]) in Targets(rows, files);
    }
    forall i | 0 <= i < |ReverseOffers(rev)|
      ensures GoodOffer(ReverseOffers(rev)[i], Ball(rows, root, level + 1), ExternalNames(rows))
    {
      assert rev[i] in rev;
      assert rev[i].source in Importers(rows, files);
    }
  }

  lemma EverythingOffered(rows: seq<Dependency>, files: set<string>, fwd: seq<Dependency>, rev: seq<Dependency>,
                          g: Frontline, h: Frontline)
    requires forall d :: d in rows && d.source in files ==> d in fwd
    requires forall d :: d in rows && d.target.Some? && d.target.value in files ==> d in rev
    requires !g.truncated ==> forall i :: 0 <= i < |ForwardOffers(fwd)| ==> ForwardOffers(fwd)[i].node in g.visited
    requires Covers(h, g, ReverseOffers(rev))
    ensures !h.truncated ==> Targets(rows, files) <= h.visited.Keys && Importers(rows, files) <= h.visited.Keys
  {
    if !h.truncated {
      forall d | d in rows && d.source in files
        ensures TargetNode(d) in h.visited
      {
        var i :| 0 <= i < |fwd| && fwd[i] == d;
        assert ForwardOffers(fwd)[i].node == TargetNode(d);
      }
      forall d | d in rows && d.target.Some? && d.target.value in files
        ensures d.source in h.visited
      {
        var i :| 0 <= i < |rev| && rev[i] == d;
        assert ReverseOffers(rev)[i].node == d.source;
      }
    }
  }

  /** Offering the nodes from `i` on is offering the `i`-th and then the rest. */
  lemma VisitNext(f: Frontline, offers: seq<Offer>, i: nat, level: nat)
    requires i < |offers|
    ensures VisitAll(f, offers[i..], level) == VisitAll(Visit(f, offers[i], level), offers[i + 1..], level)
  {
    hide Visit;
    assert offers[i..][1..] == offers[i + 1..];
  }

  lemma VisitStartAndEnd(f: Frontline, offers: seq<Offer>, level: nat)
    ensures VisitAll(f, offers[0..], level) == VisitAll(f, offers, level)
    ensures forall g :: VisitAll(g, offers[|offers|..], level) == g
  {
    assert offers[0..] == offers;
  }

  lemma EdgesOfEmpty(deps: seq<Dependency>)
    ensures EdgesOf(deps[..0]) == [] && deps[..|deps|] == deps
  {
  }

  lemma EdgesOfNext(deps: seq<Dependency>, i: nat)
    requires i < |deps|
    ensures EdgesOf(deps[..i + 1]) == EdgesOf(deps[..i]) + [EdgeOf(deps[i])]
  {
  }

  method ProcessForward(f0: Frontline, edges0: seq<Edge>, deps: seq<Dependency>, level: nat)
    returns (f: Frontline, edges: seq<Edge>)
    ensures f == VisitAll(f0, ForwardOffers(deps), level)
    ensures edges == edges0 + EdgesOf(deps)
  {
    hide VisitAll, EdgesOf;
    var visited: map<string, nat>, next, truncated := f0.visited, f0.next, f0.truncated;
    edges := edges0;
    VisitStartAndEnd(f0, ForwardOffers(deps), level);
    EdgesOfEmpty(deps);
    for i := 0 to |deps|
      invariant edges == edges0 + EdgesOf(deps[..i])
      invariant VisitAll(Frontline(visited, next, truncated), ForwardOffers(deps)[i..], level)
             == VisitAll(f0, ForwardOffers(deps), level)
    {
      var d := deps[i];
      var target, isExternal := "", false;
      if d.target.Some? {
        target := d.target.value;
      } else if d.package.Some? {
        target, isExternal := "ext:" + d.package.value, true;
      } else {
        target, isExternal := "ext:" + d.importName, true;
      }
      EdgesOfNext(deps, i);
      edges := edges + [Edge(d.source, target, d.importName, d.importType, d.package)];
      VisitNext(Frontline(visited, next, truncated), ForwardOffers(deps), i, level);
      if target !in visited {
        if |visited| >= MAX_GRAPH_NODES {
          truncated := true;
        } else {
          visited := visited[target := level + 1];
          if !isExternal {
            next := next + [target];
          }
        }
      }
    }
    f := Frontline(visited, next, truncated);
  }

  method ProcessReverse(f0: Frontline, edges0: seq<Edge>, deps: seq<Dependency>, level: nat)
    returns (f: Frontline, edges: seq<Edge>)
    requires forall d :: d in deps ==> d.target.Some?
    ensures f == VisitAll(f0, ReverseOffers(deps), level)
    ensures edges == edges0 + EdgesOf(deps)
  {
    hide VisitAll, EdgesOf;
    var visited: map<string, nat>, next, truncated := f0.visited, f0.next, f0.truncated;
    edges := edges0;
    VisitStartAndEnd(f0, ReverseOffers(deps), level);
    EdgesOfEmpty(deps);
    for i := 0 to |deps|
      invariant edges == edges0 + EdgesOf(deps[..i])
      invariant VisitAll(Frontline(visited, next, truncated), ReverseOffers(deps)[i..], level)
             == VisitAll(f0, ReverseOffers(deps), level)
    {
      var d := deps[i];
      EdgesOfNext(deps, i);
      edges := edges + [Edge(d.source, d.target.value, d.importName, d.importType, d.package)];
      VisitNext(Frontline(visited, next, truncated), ReverseOffers(deps), i, level);
      if d.source !in visited {
        if |visited| >= MAX_GRAPH_NODES {
          truncated := true;
        } else {
          visited := visited[d.source := level + 1];
          next := next + [d.source];
        }
      }
    }
    f := Frontline(visited, next, truncated);
  }

  // ----- Edges

  /** The row has an end in `s`. A package is an end only of the rows that lead to it. */
  predicate Touches(d: Dependency, s: set<string>) {
    d.source in s || (d.target.Some? && d.target.value in s)
  }

  ghost predicate EdgesWithin(rows: seq<Dependency>, s: set<string>, edges: seq<Edge>) {
    forall e :: e in edges ==> e.source in s && e.target in s && exists d :: d in rows && e == EdgeOf(d)
  }

  ghost predicate EdgesCover(rows: seq<Dependency>, s: set<string>, edges: seq<Edge>) {
    forall d :: d in rows && Touches(d, s) ==> EdgeOf(d) in edges
  }

  /** The nodes whose rows have all been fetched before `level` is expanded. */
  ghost function Inner(rows: seq<Dependency>, root: string, level: nat): set<string> {
    if level == 0 then {} else Ball(rows, root, level - 1)
  }

  lemma TouchesLastLevel(rows: seq<Dependency>, root: string, level: nat, frontier: set<string>, d: Dependency)
    requires ExternalNamesFree(rows) && IsFrontier(rows, root, level, frontier)
    requires d in rows && Touches(d, Ball(rows, root, level))
    ensures Touches(d, Inner(rows, root, level)) || Touches(d, frontier)
  {
    if d.source in Ball(rows, root, level) {
      assert d.source in frontier || d.source in Inner(rows, root, level);
    } else {
      assert d.target.value in frontier;
    }
  }

  lemma EdgesOfMember(deps: seq<Dependency>, d: Dependency)
    requires d in deps
    ensures EdgeOf(d) in EdgesOf(deps)
  {
    var i :| 0 <= i < |deps| && deps[i] == d;
    assert EdgesOf(deps)[i] == EdgeOf(d);
  }

  lemma EdgesExpansion(rows: seq<Dependency>, root: string, level: nat, frontier: seq<string>,
                       fwd: seq<Dependency>, rev: seq<Dependency>, edges: seq<Edge>)
    requires ExternalNamesFree(rows)
    requires IsFrontier(rows, root, level, set v | v in frontier) && Answers(rows, frontier, fwd, rev)
    requires EdgesWithin(rows, Ball(rows, root, level), edges) && EdgesCover(rows, Inner(rows, root, level), edges)
    ensures EdgesWithin(rows, Ball(rows, root, level + 1), edges + EdgesOf(fwd) + EdgesOf(rev))
    ensures EdgesCover(rows, Ball(rows, root, level), edges + EdgesOf(fwd) + EdgesOf(rev))
  {
    var all := edges + EdgesOf(fwd) + EdgesOf(rev);
    forall d | d in rows && Touches(d, Ball(rows, root, level))
      ensures EdgeOf(d) in all
    {
      TouchesLastLevel(rows, root, level, (set v | v in frontier), d);
      if d in fwd { EdgesOfMember(fwd, d); }
      if d in rev { EdgesOfMember(rev, d); }
    }
    forall e | e in all
      ensures e.source in Ball(rows, root, level + 1) && e.target in Ball(rows, root, level + 1)
      ensures exists d :: d in rows && e == EdgeOf(d)
    {
      if e in EdgesOf(fwd) {
        var d :| d in fwd && e == EdgeOf(d);
        assert Joins(d, e.source, e.target);
        LinkedStaysInBall(rows, root, level, e.source, e.target);
      } else if e in EdgesOf(rev) {
        var d :| d in rev && e == EdgeOf(d);
        assert Joins(d, e.target, e.source);
        LinkedStaysInBall(rows, root, level, e.target, e.source);
      }
    }
  }

  /** The first edge of each key, in order of appearance. */
  function FirstPerKey(edges: seq<Edge>): seq<Edge> {
    if edges == [] then []
    else
      var n := |edges| - 1;
      if exists i :: 0 <= i < n && KeyOf(edges[i]) == KeyOf(edges[n]) then FirstPerKey(edges[..n])
      else FirstPerKey(edges[..n]) + [edges[n]]
  }

  ghost predicate HasKey(edges: seq<Edge>, key: EdgeKey) {
    exists e :: e in edges && KeyOf(e) == key
  }

  ghost predicate DistinctKeys(edges: seq<Edge>) {
    forall i, j :: 0 <= i < j < |edges| ==> KeyOf(edges[i]) != KeyOf(edges[j])
  }

  /** `e` is the first edge with its key. */
  ghost predicate IsFirst(edges: seq<Edge>, e: Edge) {
    exists i :: 0 <= i < |edges| && edges[i] == e && forall j :: 0 <= j < i ==> KeyOf(edges[j]) != KeyOf(e)
  }

  /** Deduplication keeps exactly the first edge of each key, and each key once. */
  lemma {:induction false} FirstPerKeyMeaning(edges: seq<Edge>)
    ensures DistinctKeys(FirstPerKey(edges))
    ensures forall e :: e in FirstPerKey(edges) <==> IsFirst(edges, e)
  {
    if edges != [] {
      var n := |edges| - 1;
      FirstPerKeyMeaning(edges[..n]);
      forall e
        ensures e in FirstPerKey(edges) <==> IsFirst(edges, e)
      {
        IsFirstOfPrefix(edges, e);
      }
      var kept := FirstPerKey(edges[..n]);
      forall i | 0 <= i < |kept|
        ensures exists j :: 0 <= j < n && edges[j] == kept[i]
      {
        assert IsFirst(edges[..n], kept[i]);
      }
    }
  }

  lemma IsFirstOfPrefix(edges: seq<Edge>, e: Edge)
    requires edges != []
    ensures var n := |edges| - 1;
            IsFirst(edges, e) <==>
              (IsFirst(edges[..n], e) || (e == edges[n] && forall i :: 0 <= i < n ==> KeyOf(edges[i]) != KeyOf(edges[n])))
  {
    var n := |edges| - 1;
    var prefix := edges[..n];
    if IsFirst(edges, e) {
      var i :| 0 <= i < |edges| && edges[i] == e && forall j :: 0 <= j < i ==> KeyOf(edges[j]) != KeyOf(e);
      if i < n { assert prefix[i] == e && forall j :: 0 <= j < i ==> prefix[j] == edges[j]; }
    }
    if IsFirst(prefix, e) {
      var i :| 0 <= i < n && prefix[i] == e && forall j :: 0 <= j < i ==> KeyOf(prefix[j]) != KeyOf(e);
      assert edges[i] == e && forall j :: 0 <= j < i ==> prefix[j] == edges[j];
    }
  }

  lemma {:induction false} EveryKeyKept(edges: seq<Edge>, e: Edge)
    requires e in edges
    ensures HasKey(FirstPerKey(edges), KeyOf(e))
  {
    var n := |edges| - 1;
    if i :| 0 <= i < n && KeyOf(edges[i]) == KeyOf(e) {
      assert edges[..n][i] == edges[i];
      EveryKeyKept(edges[..n], edges[i]);
      var o :| o in FirstPerKey(edges[..n]) && KeyOf(o) == KeyOf(e);
      assert o in FirstPerKey(edges);
    } else {
      assert e == edges[n];
      assert e in FirstPerKey(edges);
    }
  }

  method DeduplicateEdges(edges: seq<Edge>) returns (out: seq<Edge>)
    ensures out == FirstPerKey(edges)
  {
    var seen: set<EdgeKey> := {};
    out := [];
    for i := 0 to |edges|
      invariant out == FirstPerKey(edges[..i])
      invariant forall k :: k in seen <==> exists j :: 0 <= j < i && KeyOf(edges[j]) == k
    {
      assert edges[..i + 1][..i] == edges[..i];
      var k := KeyOf(edges[i]);
      if k !in seen {
        seen := seen + {k};
        out := out + [edges[i]];
      }
    }
    assert edges[..|edges|] == edges;
  }

  /** Drops the edges with an end outside `visited`. */
  method FilterEdges(edges: seq<Edge>, visited: map<string, nat>) returns (out: seq<Edge>)
    requires DistinctKeys(edges)
    ensures DistinctKeys(out)
    ensures forall e :: e in out <==> e in edges && e.source in visited && e.target in visited
  {
    out := [];
    for k := 0 to |edges|
      invariant DistinctKeys(out)
      invariant forall e :: e in out <==> e in edges[..k] && e.source in visited && e.target in visited
      invariant forall i, j :: 0 <= i < |out| && k <= j < |edges| ==> KeyOf(out[i]) != KeyOf(edges[j])
    {
      if edges[k].source in visited {
        if edges[k].target in visited {
          out := out + [edges[k]];
        }
      }
    }
  }

  /** One node per visited path, in whatever order the map is iterated. */
  method BuildNodes(visited: map<string, nat>) returns (nodes: seq<Node>)
    ensures NodesOf(nodes, visited)
  {
    nodes := [];
    var rest := visited.Keys;
    while rest != {}
      invariant rest <= visited.Keys && |nodes| + |rest| == |visited|
      invariant forall i, j :: 0 <= i < j < |nodes| ==> nodes[i].path != nodes[j].path
      invariant forall n :: n in nodes <==>
                  n.path in visited && n.path !in rest && n.depth == visited[n.path] && n.isExternal == ("ext:" <= n.path)
      decreases rest
    {
      var fp :| fp in rest;
      rest := rest - {fp};
      nodes := nodes + [Node(fp, "ext:" <= fp, visited[fp])];
    }
  }

  // ----- The endpoint

  ghost predicate Listed(nodes: seq<Node>, v: string) {
    exists n :: n in nodes && n.path == v
  }

  /** Every listed depth is the exact distance from the root, even when the cap stopped the search. */
  ghost predicate ExactDepths(rows: seq<Dependency>, root: string, depth: nat, nodes: seq<Node>) {
    && (forall n :: n in nodes ==> n.depth <= depth && IsDistance(rows, root, n.path, n.depth))
    && (forall i, j :: 0 <= i < j < |nodes| ==> nodes[i].path != nodes[j].path)
  }

  /** Truncation is reported exactly when a node within the depth is missing, and then the
      graph is full; otherwise the nodes are exactly those within the depth. */
  ghost predicate HonestTruncation(rows: seq<Dependency>, root: string, depth: nat, r: Response)
    requires r.Graph?
  {
    && (forall n :: n in r.nodes ==> WithinDepth(rows, root, n.path, depth))
    && (r.truncated <==> exists v :: WithinDepth(rows, root, v, depth) && !Listed(r.nodes, v))
    && (r.truncated ==> |r.nodes| == MAX_GRAPH_NODES)
    && |r.nodes| <= MAX_GRAPH_NODES
  }

  /** Both ends of every edge are listed, every edge is a row, and no key occurs twice. */
  ghost predicate ClosedGraph(rows: seq<Dependency>, r: Response)
    requires r.Graph?
  {
    && (forall e :: e in r.edges ==> Listed(r.nodes, e.source) && Listed(r.nodes, e.target))
    && (forall e :: e in r.edges ==> exists d :: d in rows && e == EdgeOf(d))
    && DistinctKeys(r.edges)
  }

  /** Without truncation, every row touching a node nearer than the depth is there under its key. */
  ghost predicate CompleteEdges(rows: seq<Dependency>, root: string, depth: nat, r: Response)
    requires r.Graph?
  {
    !r.truncated && depth > 0 ==>
      forall d, v :: d in rows && WithinDepth(rows, root, v, depth - 1) && Touches(d, {v}) ==>
        HasKey(r.edges, KeyOf(EdgeOf(d)))
  }

  /** With truncation, every row between listed nodes that touches a node nearer than the
      farthest listed one is there under its key. */
  ghost predicate NearEdges(rows: seq<Dependency>, r: Response)
    requires r.Graph?
  {
    r.truncated ==>
      forall d, m, n :: d in rows && m in r.nodes && n in r.nodes && m.depth < n.depth && Touches(d, {m.path}) &&
                        Listed(r.nodes, d.source) && Listed(r.nodes, TargetNode(d)) ==>
        HasKey(r.edges, KeyOf(EdgeOf(d)))
  }

  /** The edge goes from the row's file to where the row leads, under the row's import name. */
  predicate LeadsFor(e: Edge, d: Dependency) {
    e.source == d.source && LeadsTo(d, e.target) && e.importName == d.importName
  }

  ghost predicate HasEdgeFor(edges: seq<Edge>, d: Dependency) {
    exists e :: e in edges && LeadsFor(e, d)
  }

  /** Any two edges differ in source, target or import name. */
  ghost predicate EdgesDiffer(edges: seq<Edge>) {
    forall i, j :: 0 <= i < j < |edges| ==>
      edges[i].source != edges[j].source || edges[i].target != edges[j].target || edges[i].importName != edges[j].importName
  }

  /** Each edge is some row, in all fields. */
  ghost predicate EdgesAreRows(rows: seq<Dependency>, edges: seq<Edge>) {
    forall e :: e in edges ==>
      exists d :: d in rows && LeadsFor(e, d) && e.importType == d.importType && e.package == d.package
  }

  /** The row starts or ends at this file. */
  predicate HasEnd(d: Dependency, v: string) {
    d.source == v || d.target == Some(v)
  }

  /** Every row that touches a node nearer than the depth has its edge. */
  ghost predicate AllRowsCovered(rows: seq<Dependency>, root: string, depth: nat, edges: seq<Edge>) {
    depth > 0 ==>
      forall d, v :: d in rows && WithinDepth(rows, root, v, depth - 1) && HasEnd(d, v) ==> HasEdgeFor(edges, d)
  }

  /** Every row between listed nodes that touches one nearer than the farthest has its edge. */
  ghost predicate NearRowsCovered(rows: seq<Dependency>, nodes: seq<Node>, edges: seq<Edge>) {
    forall d, m, n, end :: d in rows && m in nodes && n in nodes && m.depth < n.depth && HasEnd(d, m.path) &&
                           LeadsTo(d, end) && Listed(nodes, d.source) && Listed(nodes, end) ==>
      HasEdgeFor(edges, d)
  }

  lemma EdgeOfLeads(d: Dependency)
    ensures LeadsFor(EdgeOf(d), d) && EdgeOf(d).importType == d.importType && EdgeOf(d).package == d.package
  {
  }

  lemma TargetIs(d: Dependency, v: string)
    ensures LeadsTo(d, v) <==> v == TargetNode(d)
  {
  }

  lemma KeyIsThere(edges: seq<Edge>, d: Dependency)
    requires HasKey(edges, KeyOf(EdgeOf(d)))
    ensures HasEdgeFor(edges, d)
  {
    var e :| e in edges && KeyOf(e) == KeyOf(EdgeOf(d));
    EdgeOfLeads(d);
    assert LeadsFor(e, d);
  }

  lemma KeysDiffer(edges: seq<Edge>)
    requires DistinctKeys(edges)
    ensures EdgesDiffer(edges)
  {
    forall i, j | 0 <= i < j < |edges|
      ensures edges[i].source != edges[j].source || edges[i].target != edges[j].target || edges[i].importName != edges[j].importName
    {
      assert KeyOf(edges[i]) != KeyOf(edges[j]);
    }
  }

  lemma ClosedMeansRows(rows: seq<Dependency>, r: Response)
    requires r.Graph? && ClosedGraph(rows, r)
    ensures EdgesDiffer(r.edges) && EdgesAreRows(rows, r.edges)
  {
    KeysDiffer(r.edges);
    hide Listed, EdgeOf, LeadsFor, EdgesDiffer;
    forall e | e in r.edges
      ensures exists d :: d in rows && LeadsFor(e, d) && e.importType == d.importType && e.package == d.package
    {
      var d :| d in rows && e == EdgeOf(d);
      EdgeOfLeads(d);
    }
  }

  lemma CompleteMeansCovered(rows: seq<Dependency>, root: string, depth: nat, r: Response)
    requires r.Graph? && CompleteEdges(rows, root, depth, r) && !r.truncated
    ensures AllRowsCovered(rows, root, depth, r.edges)
  {
    hide HasKey, HasEdgeFor, KeyOf, EdgeOf, WithinDepth;
    if depth > 0 {
      forall d, v | d in rows && WithinDepth(rows, root, v, depth - 1) && HasEnd(d, v)
        ensures HasEdgeFor(r.edges, d)
      {
        assert Touches(d, {v});
        KeyIsThere(r.edges, d);
      }
    }
  }

  lemma NearMeansCovered(rows: seq<Dependency>, r: Response)
    requires r.Graph? && NearEdges(rows, r) && r.truncated
    ensures NearRowsCovered(rows, r.nodes, r.edges)
  {
    hide HasKey, HasEdgeFor, KeyOf, EdgeOf, LeadsTo, TargetNode, Listed;
    forall d, m, n, end | d in rows && m in r.nodes && n in r.nodes && m.depth < n.depth && HasEnd(d, m.path) &&
                          LeadsTo(d, end) && Listed(r.nodes, d.source) && Listed(r.nodes, end)
      ensures HasEdgeFor(r.edges, d)
    {
      TargetIs(d, end);
      assert Touches(d, {m.path});
      KeyIsThere(r.edges, d);
    }
  }

  /** The visited nodes nearer than some other visited node. */
  ghost function Nearer(visited: map<string, nat>): set<string> {
    set u, w | u in visited && w in visited && visited[u] < visited[w] :: u
  }

  /** What the search has established about the nodes when it stops. */
  ghost predicate NodesDone(rows: seq<Dependency>, root: string, depth: nat, visited: map<string, nat>, truncated: bool) {
    && (forall v :: v in visited ==> visited[v] <= depth && FirstIn(rows, root, v, visited[v]))
    && visited.Keys <= Ball(rows, root, depth)
    && |visited| <= MAX_GRAPH_NODES
    && (truncated <==> visited.Keys != Ball(rows, root, depth))
    && (truncated ==> |visited| == MAX_GRAPH_NODES)
  }

  /** What the search has established about the edges when it stops. */
  ghost predicate EdgesDone(rows: seq<Dependency>, root: string, depth: nat, visited: map<string, nat>, edges: seq<Edge>, truncated: bool) {
    && EdgesWithin(rows, Ball(rows, root, depth), edges)
    && EdgesCover(rows, if truncated then Nearer(visited) else Inner(rows, root, depth), edges)
  }

  /** What holds before `level` is expanded. */
  ghost predicate Ready(rows: seq<Dependency>, root: string, level: nat, visited: map<string, nat>, frontier: seq<string>, edges: seq<Edge>) {
    && LevelDone(rows, root, level, visited)
    && IsFrontier(rows, root, level, set v | v in frontier)
    && EdgesWithin(rows, Ball(rows, root, level), edges)
    && EdgesCover(rows, Inner(rows, root, level), edges)
  }

  /** The body of the search loop: both queries, then both kinds of edges. */
  method ExpandFrontier(store: DependencyStore, root: string, level: nat, visited: map<string, nat>, frontier: seq<string>, edges: seq<Edge>)
    returns (f: Option<Frontline>, allEdges: seq<Edge>)
    requires ExternalNamesFree(store.rows) && Ready(store.rows, root, level, visited, frontier, edges)
    ensures store.reliable ==> f.Some?
    ensures f.Some? ==> Expanded(store.rows, root, level + 1, f.value)
    ensures f.Some? ==> EdgesWithin(store.rows, Ball(store.rows, root, level + 1), allEdges)
    ensures f.Some? ==> EdgesCover(store.rows, Inner(store.rows, root, level + 1), allEdges)
    ensures f.Some? && !f.value.truncated ==> Ready(store.rows, root, level + 1, f.value.visited, f.value.next, allEdges)
  {
    var fwd := store.ListDependenciesFromFiles(frontier);
    if fwd.None? { return None, edges; }
    var rev := store.ListDependenciesToFiles(frontier);
    if rev.None? { return None, edges; }
    LevelExpansion(store.rows, root, level, visited, frontier, fwd.value, rev.value);
    EdgesExpansion(store.rows, root, level, frontier, fwd.value, rev.value, edges);
    var f1, edges1 := ProcessForward(Frontline(visited, [], false), edges, fwd.value, level);
    var f2, edges2 := ProcessReverse(f1, edges1, rev.value, level);
    f, allEdges := Some(f2), edges2;
  }

  method Search(store: DependencyStore, root: string, depth: nat)
    returns (ok: bool, visited: map<string, nat>, allEdges: seq<Edge>, truncated: bool)
    requires ExternalNamesFree(store.rows)
    ensures store.reliable ==> ok
    ensures ok ==> NodesDone(store.rows, root, depth, visited, truncated)
    ensures ok ==> EdgesDone(store.rows, root, depth, visited, allEdges, truncated)
  {
    hide *;
    visited, allEdges, truncated, ok := map[root := 0], [], false, true;
    var frontier := [root];
    var level := 0;
    RootIsReady(store.rows, root);
    while level < depth && |frontier| > 0
      invariant level <= depth && !truncated && ok
      invariant Ready(store.rows, root, level, visited, frontier, allEdges)
    {
      var f;
      f, allEdges := ExpandFrontier(store, root, level, visited, frontier, allEdges);
      if f.None? { ok := false; return; }
      visited, frontier, truncated := f.value.visited, f.value.next, f.value.truncated;
      if truncated {
        TruncatedIsDone(store.rows, root, level + 1, depth, f.value, allEdges);
        return;
      }
      level := level + 1;
    }
    StoppedIsDone(store.rows, root, level, depth, visited, frontier, allEdges);
  }

  lemma RootIsReady(rows: seq<Dependency>, root: string)
    ensures Ready(rows, root, 0, map[root := 0], [root], [])
  {
    assert Ball(rows, root, 0) == {root};
  }

  lemma StoppedIsDone(rows: seq<Dependency>, root: string, level: nat, depth: nat, visited: map<string, nat>,
                      frontier: seq<string>, edges: seq<Edge>)
    requires ExternalNamesFree(rows) && level <= depth && (level == depth || frontier == [])
    requires Ready(rows, root, level, visited, frontier, edges)
    ensures NodesDone(rows, root, depth, visited, false)
    ensures EdgesDone(rows, root, depth, visited, edges, false)
  {
    if level < depth {
      assert (set v | v in frontier) == {};
      EmptyFrontierIsFixpoint(rows, root, level, depth);
      EdgesAreComplete(rows, root, level, depth, visited, edges);
    }
    NodesAreComplete(rows, root, level, depth, visited);
  }

  lemma TruncatedIsDone(rows: seq<Dependency>, root: string, k: nat, depth: nat, f: Frontline, edges: seq<Edge>)
    requires f.truncated && Expanded(rows, root, k, f) && k <= depth
    requires EdgesWithin(rows, Ball(rows, root, k), edges) && EdgesCover(rows, Inner(rows, root, k), edges)
    ensures NodesDone(rows, root, depth, f.visited, true)
    ensures EdgesDone(rows, root, depth, f.visited, edges, true)
  {
    BallMonotone(rows, root, k, depth);
    NearerIsInner(rows, root, k, f.visited);
  }

  lemma NearerIsInner(rows: seq<Dependency>, root: string, k: nat, visited: map<string, nat>)
    requires forall v :: v in visited ==> visited[v] <= k && FirstIn(rows, root, v, visited[v])
    ensures Nearer(visited) <= Inner(rows, root, k)
  {
    hide Ball;
    forall u | u in Nearer(visited)
      ensures u in Inner(rows, root, k)
    {
      assert visited[u] < k;
      BallMonotone(rows, root, visited[u], k - 1);
    }
  }

  lemma NodesAreComplete(rows: seq<Dependency>, root: string, level: nat, depth: nat, visited: map<string, nat>)
    requires level <= depth && LevelDone(rows, root, level, visited)
    requires Ball(rows, root, level) == Ball(rows, root, depth)
    ensures NodesDone(rows, root, depth, visited, false)
  {
  }

  lemma EdgesAreComplete(rows: seq<Dependency>, root: string, level: nat, depth: nat, visited: map<string, nat>, edges: seq<Edge>)
    requires ExternalNamesFree(rows) && level < depth && IsFrontier(rows, root, level, {})
    requires EdgesWithin(rows, Ball(rows, root, level), edges) && EdgesCover(rows, Inner(rows, root, level), edges)
    ensures EdgesDone(rows, root, depth, visited, edges, false)
  {
    EmptyFrontierIsFixpoint(rows, root, level, depth);
    EmptyFrontierIsFixpoint(rows, root, level, depth - 1);
    EmptyFrontierCovers(rows, root, level, edges);
  }

  lemma EmptyFrontierCovers(rows: seq<Dependency>, root: string, level: nat, edges: seq<Edge>)
    requires ExternalNamesFree(rows) && IsFrontier(rows, root, level, {})
    requires EdgesCover(rows, Inner(rows, root, level), edges)
    ensures EdgesCover(rows, Ball(rows, root, level), edges)
  {
    forall d | d in rows && Touches(d, Ball(rows, root, level))
      ensures EdgeOf(d) in edges
    {
      TouchesLastLevel(rows, root, level, {}, d);
    }
  }

  /** `nodes` lists the visited paths with their depths. */
  ghost predicate NodesOf(nodes: seq<Node>, visited: map<string, nat>) {
    && |nodes| == |visited|
    && (forall i, j :: 0 <= i < j < |nodes| ==> nodes[i].path != nodes[j].path)
    && (forall n :: n in nodes <==> n.path in visited && n.depth == visited[n.path] && n.isExternal == ("ext:" <= n.path))
  }

  lemma ListedIsVisited(nodes: seq<Node>, visited: map<string, nat>, v: string)
    requires NodesOf(nodes, visited)
    ensures Listed(nodes, v) <==> v in visited
  {
    if v in visited {
      assert Node(v, "ext:" <= v, visited[v]) in nodes;
    }
  }

  lemma NodesAreCorrect(rows: seq<Dependency>, root: string, depth: nat, visited: map<string, nat>, r: Response)
    requires r.Graph? && NodesOf(r.nodes, visited)
    requires NodesDone(rows, root, depth, visited, r.truncated)
    ensures ExactDepths(rows, root, depth, r.nodes) && HonestTruncation(rows, root, depth, r)
  {
    forall n | n in r.nodes
      ensures n.depth <= depth && IsDistance(rows, root, n.path, n.depth) && WithinDepth(rows, root, n.path, depth)
    {
      FirstInIsDistance(rows, root, n.path, n.depth);
      BallIsWithinDepth(rows, root, n.path, depth);
    }
    forall v
      ensures WithinDepth(rows, root, v, depth) <==> v in Ball(rows, root, depth)
      ensures Listed(r.nodes, v) <==> v in visited
    {
      BallIsWithinDepth(rows, root, v, depth);
      ListedIsVisited(r.nodes, visited, v);
    }
    if r.truncated {
      var v :| v in Ball(rows, root, depth) && v !in visited;
      assert WithinDepth(rows, root, v, depth) && !Listed(r.nodes, v);
    }
  }

  /** The edges left after deduplication and, when truncated, filtering. */
  ghost predicate EdgesKept(kept: seq<Edge>, all: seq<Edge>, visited: map<string, nat>, truncated: bool) {
    && DistinctKeys(kept)
    && (if truncated then forall e :: e in kept <==> e in FirstPerKey(all) && e.source in visited && e.target in visited
        else kept == FirstPerKey(all))
  }

  lemma EdgesAreClosed(rows: seq<Dependency>, root: string, depth: nat, visited: map<string, nat>, allEdges: seq<Edge>, r: Response)
    requires r.Graph? && NodesOf(r.nodes, visited)
    requires NodesDone(rows, root, depth, visited, r.truncated) && EdgesDone(rows, root, depth, visited, allEdges, r.truncated)
    requires EdgesKept(r.edges, allEdges, visited, r.truncated)
    ensures ClosedGraph(rows, r)
  {
    FirstPerKeyMeaning(allEdges);
    forall e | e in r.edges
      ensures Listed(r.nodes, e.source) && Listed(r.nodes, e.target) && exists d :: d in rows && e == EdgeOf(d)
    {
      assert IsFirst(allEdges, e);
      ListedIsVisited(r.nodes, visited, e.source);
      ListedIsVisited(r.nodes, visited, e.target);
    }
  }

  lemma EdgesAreAllThere(rows: seq<Dependency>, root: string, depth: nat, visited: map<string, nat>, allEdges: seq<Edge>, r: Response)
    requires r.Graph? && EdgesDone(rows, root, depth, visited, allEdges, r.truncated)
    requires !r.truncated ==> r.edges == FirstPerKey(allEdges)
    ensures CompleteEdges(rows, root, depth, r)
  {
    if !r.truncated && depth > 0 {
      forall d, v | d in rows && WithinDepth(rows, root, v, depth - 1) && Touches(d, {v})
        ensures HasKey(r.edges, KeyOf(EdgeOf(d)))
      {
        BallIsWithinDepth(rows, root, v, depth - 1);
        assert Touches(d, Inner(rows, root, depth));
        EveryKeyKept(allEdges, EdgeOf(d));
      }
    }
  }

  lemma NearEdgesAreThere(rows: seq<Dependency>, root: string, depth: nat, visited: map<string, nat>, allEdges: seq<Edge>, r: Response)
    requires r.Graph? && NodesOf(r.nodes, visited) && EdgesDone(rows, root, depth, visited, allEdges, r.truncated)
    requires EdgesKept(r.edges, allEdges, visited, r.truncated)
    ensures NearEdges(rows, r)
  {
    if r.truncated {
      forall d, m, n | d in rows && m in r.nodes && n in r.nodes && m.depth < n.depth && Touches(d, {m.path}) &&
                       Listed(r.nodes, d.source) && Listed(r.nodes, TargetNode(d))
        ensures HasKey(r.edges, KeyOf(EdgeOf(d)))
      {
        assert m.path in Nearer(visited) by { assert visited[m.path] < visited[n.path]; }
        assert Touches(d, Nearer(visited));
        EveryKeyKept(allEdges, EdgeOf(d));
        ListedIsVisited(r.nodes, visited, d.source);
        ListedIsVisited(r.nodes, visited, TargetNode(d));
      }
    }
  }

  method HandleDependencyGraph(store: DependencyStore, root: string, depth: nat) returns (r: Response)
    requires ExternalNamesFree(store.rows)
    ensures store.reliable ==> r.Graph?
    ensures r.Graph? ==> r.root == root && r.depth == depth
    ensures r.Graph? ==> ExactDepths(store.rows, root, depth, r.nodes)
    ensures r.Graph? ==> HonestTruncation(store.rows, root, depth, r)
    ensures r.Graph? ==> ClosedGraph(store.rows, r)
    ensures r.Graph? ==> CompleteEdges(store.rows, root, depth, r)
    ensures r.Graph? ==> NearEdges(store.rows, r)
    ensures r.Graph? ==> EdgesDiffer(r.edges) && EdgesAreRows(store.rows, r.edges)
    ensures r.Graph? && !r.truncated ==> AllRowsCovered(store.rows, root, depth, r.edges)
    ensures r.Graph? && r.truncated ==> NearRowsCovered(store.rows, r.nodes, r.edges)
    ensures r.Graph? ==> |r.nodes| <= 200 && (r.truncated ==> |r.nodes| == 200)
    ensures r.Graph? ==> forall n :: n in r.nodes ==> n.isExternal == ("ext:" <= n.path)
  {
    var ok, visited, allEdges, truncated := Search(store, root, depth);
    if !ok { return QueryFailed; }
    var nodes := BuildNodes(visited);
    var edges := DeduplicateEdges(allEdges);
    FirstPerKeyMeaning(allEdges);
    if truncated {
      edges := FilterEdges(edges, visited);
    }
    r := Graph(nodes, edges, root, depth, truncated);
    NodesAreCorrect(store.rows, root, depth, visited, r);
    EdgesAreClosed(store.rows, root, depth, visited, allEdges, r);
    EdgesAreAllThere(store.rows, root, depth, visited, allEdges, r);
    NearEdgesAreThere(store.rows, root, depth, visited, allEdges, r);
    ClosedMeansRows(store.rows, r);
    if truncated {
      NearMeansCovered(store.rows, r);
    } else {
      CompleteMeansCovered(store.rows, root, depth, r);
    }
  }
}
