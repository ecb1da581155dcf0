/** `Node::connect`: programming a route hop by hop, planning anew at each. */
module Routing {
  import opened Text
  import opened Crossbar

  /** A port of an IP; identified by its three fields. */
  datatype StreamVertex = StreamVertex(node: string, port: string, isMaster: bool)

  type Edge = (StreamVertex, StreamVertex)

  type Path = seq<StreamVertex>

  /** What the configuration fixes: the links between IPs, the ports of the
      switches, and the names under which the card finds stream nodes. */
  datatype Net = Net(links: set<Edge>, switches: map<string, Ports>, nodes: set<string>) {

    /** The edges `AxiStreamSwitch::init` adds: every slave to every master. */
    predicate Internal(a: StreamVertex, b: StreamVertex) {
      && a.node == b.node && a.node in switches && !a.isMaster && b.isMaster
      && a.port in switches[a.node].slaves && b.port in switches[a.node].masters
    }

    predicate HasEdge(a: StreamVertex, b: StreamVertex) {
      (a, b) in links || Internal(a, b)
    }

    ghost predicate NoSelfLink() {
      forall e | e in links :: e.0.node != e.1.node
    }

    /** A walk along edges, given by the vertices it visits. */
    ghost predicate Walk(p: Path) {
      p != [] && forall i | 0 <= i < |p| - 1 :: HasEdge(p[i], p[i + 1])
    }

    ghost predicate WalkBetween(p: Path, a: StreamVertex, b: StreamVertex) {
      Walk(p) && p[0] == a && p[|p| - 1] == b
    }

    ghost predicate Reachable(a: StreamVertex, b: StreamVertex) {
      exists p :: WalkBetween(p, a, b)
    }
  }

  /** `StreamGraph::getPath`, as a function from two vertices to a walk. */
  type Planner = (StreamVertex, StreamVertex) -> Option<Path>

  ghost predicate FindsWalks(net: Net, plan: Planner) {
    && (forall a, b :: plan(a, b).Some? ==> net.WalkBetween(plan(a, b).value, a, b))
    && (forall a, b :: plan(a, b).None? ==> !net.Reachable(a, b))
  }

  /** The contract of the path search: it succeeds exactly when the target is
      reachable, and then with a walk no longer than any other. */
  ghost predicate Shortest(net: Net, plan: Planner) {
    && FindsWalks(net, plan)
    && (forall a, b, q :: plan(a, b).Some? && net.WalkBetween(q, a, b) ==> |plan(a, b).value| <= |q|)
  }

  /** The number of vertices between here and the target: the rank of `a`. */
  function Rank(plan: Planner, a: StreamVertex, to: StreamVertex): nat {
    match plan(a, to) case None => 0 case Some(p) => |p|
  }

  lemma WalkSuffix(net: Net, p: Path, i: nat)
    requires net.Walk(p) && i < |p|
    ensures net.WalkBetween(p[i..], p[i], p[|p| - 1])
  {
  }

  /** Re-planning from a vertex of a planned walk cannot get farther away. */
  lemma ReplanShrinks(net: Net, plan: Planner, a: StreamVertex, to: StreamVertex, i: nat)
    requires Shortest(net, plan)
    requires plan(a, to).Some? && i < |plan(a, to).value|
    ensures plan(plan(a, to).value[i], to).Some?
    ensures Rank(plan, plan(a, to).value[i], to) == Rank(plan, a, to) - i
  {
    var p := plan(a, to).value;
    WalkSuffix(net, p, i);
    assert net.Reachable(p[i], to);
    var q := plan(p[i], to).value;
    if |q| < |p| - i {
      var shortcut := p[..i] + q;
      assert net.WalkBetween(shortcut, a, to);
      assert false;
    }
  }

  // ------------------------------------------------------------ programming

  /** The port table of every switch. */
  type Config = map<string, Mapping>

  ghost predicate ConfigOk(net: Net, cfg: Config) {
    && cfg.Keys == net.switches.Keys
    && forall n | n in cfg :: MappingOk(net.switches[n], cfg[n])
  }

  /** `connectInternal`: only a switch can do it. */
  function InternalOutcome(net: Net, cfg: Config, node: string, slave: string, master: string): Outcome {
    if node in net.switches && node in cfg then ConnectOutcome(net.switches[node], cfg[node], slave, master)
    else Done(false)
  }

  function InternalConfig(net: Net, cfg: Config, node: string, slave: string, master: string): Config {
    if node in net.switches && node in cfg
    then cfg[node := ConnectMapping(net.switches[node], cfg[node], slave, master)]
    else cfg
  }

  /** Where the recursion goes next: past an internal connection, or along a
      link. None when the walk ends here. */
  function NextHop(p: Path): Option<StreamVertex>
    requires p != []
  {
    if |p| == 1 then None
    else if p[1].node != p[0].node then Some(p[1])
    else if |p| == 2 then None
    else Some(p[2])
  }

  /** `Node::connect`, called on the IP named `self`. */
  function ConnectHops(net: Net, plan: Planner, cfg: Config, self: string, from: StreamVertex, to: StreamVertex)
    : (Outcome, Config)
    requires Shortest(net, plan)
    decreases Rank(plan, from, to)
  {
    if from.node != self then (Done(false), cfg)
    else if plan(from, to).None? then (Done(false), cfg)
    else
      var p := plan(from, to).value;
      assert net.WalkBetween(p, from, to);
      var crosses := |p| > 1 && p[1].node == self;
      var outcome := if crosses then InternalOutcome(net, cfg, self, from.port, p[1].port) else Done(true);
      var cfg' := if crosses then InternalConfig(net, cfg, self, from.port, p[1].port) else cfg;
      if outcome != Done(true) || NextHop(p).None? then (outcome, cfg')
      else
        var next := NextHop(p).value;
        if next.node !in net.nodes then (Done(false), cfg')
        else
          ReplanShrinks(net, plan, from, to, if crosses then 2 else 1);
          ConnectHops(net, plan, cfg', next.node, next, to)
  }

  /** Data entering `a` comes out at `b`: over a link, or through a switch
      whose table joins the two ports. */
  predicate Carries(net: Net, cfg: Config, a: StreamVertex, b: StreamVertex) {
    || (a, b) in net.links
    || Joined(net, cfg, a, b)
  }

  predicate Joined(net: Net, cfg: Config, a: StreamVertex, b: StreamVertex) {
    && net.Internal(a, b) && a.node in cfg && b.port in cfg[a.node]
    && cfg[a.node][b.port] == a.port != PORT_DISABLED
  }

  ghost predicate Delivers(net: Net, cfg: Config, route: Path) {
    route != [] && forall i | 0 <= i < |route| - 1 :: Carries(net, cfg, route[i], route[i + 1])
  }

  // ------------------------------------------------------------ one hop

  lemma InternalKeepsConfig(net: Net, cfg: Config, node: string, slave: string, master: string)
    requires ConfigOk(net, cfg)
    ensures ConfigOk(net, InternalConfig(net, cfg, node, slave, master))
  {
    if node in net.switches {
      ConnectKeepsMapping(net.switches[node], cfg[node], slave, master);
    }
  }

  /** A connection between two ports survives an internal connection that
      involves neither of them. */
  lemma InternalFrame(net: Net, cfg: Config, node: string, slave: string, master: string,
                      a: StreamVertex, b: StreamVertex)
    requires ConfigOk(net, cfg) && Joined(net, cfg, a, b)
    requires a != StreamVertex(node, slave, false) && b != StreamVertex(node, master, true)
    ensures Joined(net, InternalConfig(net, cfg, node, slave, master), a, b)
  {
  }

  lemma InternalJoins(net: Net, cfg: Config, a: StreamVertex, b: StreamVertex)
    requires ConfigOk(net, cfg) && net.Internal(a, b)
    requires InternalOutcome(net, cfg, a.node, a.port, b.port) == Done(true)
    ensures Joined(net, InternalConfig(net, cfg, a.node, a.port, b.port), a, b)
  {
  }

  // ------------------------------------------------------------ the route

  /** The vertices a call visits; the planner alone decides, no switch does. */
  function RouteOf(net: Net, plan: Planner, from: StreamVertex, to: StreamVertex): Path
    requires Shortest(net, plan)
    decreases Rank(plan, from, to)
  {
    if plan(from, to).None? then []
    else
      var p := plan(from, to).value;
      assert net.WalkBetween(p, from, to);
      if NextHop(p).None? then p
      else
        var k := if p[1].node == from.node then 2 else 1;
        ReplanShrinks(net, plan, from, to, k);
        p[..k] + RouteOf(net, plan, NextHop(p).value, to)
  }

  /** Appending a hop in front of a walk. */
  lemma WalkJoin(net: Net, p: Path, k: nat, q: Path)
    requires net.Walk(p) && net.Walk(q) && 0 < k < |p| && p[k] == q[0]
    ensures net.WalkBetween(p[..k] + q, p[0], q[|q| - 1])
  {
  }

  /** However often the path is planned anew, the route taken is a walk to the
      target, as short as the first plan, and it gets closer at every vertex. */
  lemma {:induction false} RouteIsShortest(net: Net, plan: Planner, from: StreamVertex, to: StreamVertex)
    requires Shortest(net, plan) && plan(from, to).Some?
    ensures net.WalkBetween(RouteOf(net, plan, from, to), from, to)
    ensures |RouteOf(net, plan, from, to)| == Rank(plan, from, to)
    ensures forall i | 0 <= i < |RouteOf(net, plan, from, to)| ::
      Rank(plan, RouteOf(net, plan, from, to)[i], to) == Rank(plan, from, to) - i
    decreases Rank(plan, from, to)
  {
    var p, r := plan(from, to).value, RouteOf(net, plan, from, to);
    assert net.WalkBetween(p, from, to);
    if NextHop(p).None? {
      forall i | 0 <= i < |p| ensures Rank(plan, p[i], to) == |p| - i {
        ReplanShrinks(net, plan, from, to, i);
      }
    } else {
      var k := if p[1].node == from.node then 2 else 1;
      ReplanShrinks(net, plan, from, to, k);
      RouteIsShortest(net, plan, p[k], to);
      var q := RouteOf(net, plan, p[k], to);
      WalkJoin(net, p, k, q);
      forall i | 0 <= i < |r| ensures Rank(plan, r[i], to) == |p| - i {
        if i < k {
          ReplanShrinks(net, plan, from, to, i);
        } else {
          assert r[i] == q[i - k];
        }
      }
    }
  }

  /** The switch ports that a route programs. */
  ghost predicate Programs(net: Net, route: Path, a: StreamVertex, b: StreamVertex) {
    exists i | 0 <= i < |route| - 1 :: route[i] == a && route[i + 1] == b && net.Internal(a, b)
  }

  /** The route sends `a` elsewhere, or feeds `b` from elsewhere. */
  ghost predicate Diverts(net: Net, route: Path, a: StreamVertex, b: StreamVertex) {
    exists x, y :: Programs(net, route, x, y) && (x == a) != (y == b)
  }

  /** The route uses one of the two ports. */
  ghost predicate Uses(net: Net, route: Path, a: StreamVertex, b: StreamVertex) {
    exists x, y :: Programs(net, route, x, y) && (x == a || y == b)
  }

  lemma ProgramsTail(net: Net, head: Path, tail: Path, a: StreamVertex, b: StreamVertex)
    requires Programs(net, tail, a, b)
    ensures Programs(net, head + tail, a, b)
  {
    var i :| 0 <= i < |tail| - 1 && tail[i] == a && tail[i + 1] == b && net.Internal(a, b);
    var route := head + tail;
    var j := |head| + i;
    assert route[j] == a && route[j + 1] == b;
  }

  lemma UsesTail(net: Net, head: Path, tail: Path, a: StreamVertex, b: StreamVertex)
    requires !Uses(net, head + tail, a, b)
    ensures !Uses(net, tail, a, b)
  {
    if Uses(net, tail, a, b) {
      var x, y :| Programs(net, tail, x, y) && (x == a || y == b);
      ProgramsTail(net, head, tail, x, y);
    }
  }

  /** Frame of a whole call, successful or not: a connection whose two ports
      the route does not use is still there afterwards. */
  lemma {:induction false} ConnectFrame(net: Net, plan: Planner, cfg: Config, self: string,
                                        from: StreamVertex, to: StreamVertex, a: StreamVertex, b: StreamVertex)
    requires Shortest(net, plan) && ConfigOk(net, cfg) && net.NoSelfLink()
    requires Joined(net, cfg, a, b) && !Uses(net, RouteOf(net, plan, from, to), a, b)
    ensures ConfigOk(net, ConnectHops(net, plan, cfg, self, from, to).1)
    ensures Joined(net, ConnectHops(net, plan, cfg, self, from, to).1, a, b)
    decreases Rank(plan, from, to)
  {
    hide InternalConfig, InternalOutcome, ConfigOk, Joined;
    if from.node == self && plan(from, to).Some? {
      var p, route := plan(from, to).value, RouteOf(net, plan, from, to);
      RouteIsShortest(net, plan, from, to);
      assert net.WalkBetween(p, from, to);
      var cfg' := cfg;
      if |p| > 1 && p[1].node == self {
        assert net.HasEdge(p[0], p[1]);
        assert route[0] == p[0] && route[1] == p[1];
        assert Programs(net, route, p[0], p[1]);
        InternalKeepsConfig(net, cfg, self, from.port, p[1].port);
        InternalFrame(net, cfg, self, from.port, p[1].port, a, b);
        cfg' := InternalConfig(net, cfg, self, from.port, p[1].port);
      }
      if NextHop(p).Some? {
        var k := if p[1].node == self then 2 else 1;
        ReplanShrinks(net, plan, from, to, k);
        UsesTail(net, p[..k], RouteOf(net, plan, p[k], to), a, b);
        ConnectFrame(net, plan, cfg', p[k].node, p[k], to, a, b);
      }
    }
  }

  lemma {:induction false} ConnectKeepsConfig(net: Net, plan: Planner, cfg: Config, self: string,
                                              from: StreamVertex, to: StreamVertex)
    requires Shortest(net, plan) && ConfigOk(net, cfg)
    ensures ConfigOk(net, ConnectHops(net, plan, cfg, self, from, to).1)
    decreases Rank(plan, from, to)
  {
    hide InternalConfig, InternalOutcome, ConfigOk;
    if from.node == self && plan(from, to).Some? {
      var p := plan(from, to).value;
      assert net.WalkBetween(p, from, to);
      var cfg' := cfg;
      if |p| > 1 && p[1].node == self {
        InternalKeepsConfig(net, cfg, self, from.port, p[1].port);
        cfg' := InternalConfig(net, cfg, self, from.port, p[1].port);
      }
      if NextHop(p).Some? {
        var k := if p[1].node == self then 2 else 1;
        ReplanShrinks(net, plan, from, to, k);
        ConnectKeepsConfig(net, plan, cfg', p[k].node, p[k], to);
      }
    }
  }

  /** No vertex of the remaining route is farther away than its first. */
  lemma BehindIsUnused(net: Net, plan: Planner, from: StreamVertex, to: StreamVertex, a: StreamVertex, b: StreamVertex)
    requires Shortest(net, plan) && plan(from, to).Some?
    requires Rank(plan, a, to) > Rank(plan, from, to) && Rank(plan, b, to) > Rank(plan, from, to)
    ensures !Uses(net, RouteOf(net, plan, from, to), a, b)
  {
    RouteIsShortest(net, plan, from, to);
  }

  lemma DeliversJoin(net: Net, cfg: Config, p: Path, k: nat, tail: Path)
    requires 0 < k < |p| && tail != [] && tail[0] == p[k]
    requires forall i | 0 <= i < k :: Carries(net, cfg, p[i], p[i + 1])
    requires Delivers(net, cfg, tail)
    ensures Delivers(net, cfg, p[..k] + tail)
  {
    hide Carries;
    var route := p[..k] + tail;
    forall i | 0 <= i < |route| - 1 ensures Carries(net, cfg, route[i], route[i + 1]) {
      if i >= k {
        assert route[i] == tail[i - k] && route[i + 1] == tail[i - k + 1];
      }
    }
  }

  /** What the planner found, edge by edge. */
  lemma PlanEdges(net: Net, plan: Planner, from: StreamVertex, to: StreamVertex)
    requires Shortest(net, plan) && plan(from, to).Some?
    ensures var p := plan(from, to).value;
      && p != [] && p[0] == from && p[|p| - 1] == to
      && forall i | 0 <= i < |p| - 1 :: net.HasEdge(p[i], p[i + 1])
  {
    assert net.WalkBetween(plan(from, to).value, from, to);
  }

  /** End to end: when `connect` returns true, data entering at `from` leaves at
      `to` along the route, under the tables as they are at the very end. */
  lemma {:induction false} ConnectDelivers(net: Net, plan: Planner, cfg: Config, self: string,
                                           from: StreamVertex, to: StreamVertex)
    requires Shortest(net, plan) && ConfigOk(net, cfg) && net.NoSelfLink()
    requires ConnectHops(net, plan, cfg, self, from, to).0 == Done(true)
    ensures var route := RouteOf(net, plan, from, to);
      && net.WalkBetween(route, from, to)
      && Delivers(net, ConnectHops(net, plan, cfg, self, from, to).1, route)
    decreases Rank(plan, from, to)
  {
    hide InternalConfig, InternalOutcome, ConfigOk, Joined, Shortest, Net.Walk, Programs, Uses, Delivers;
    var p := plan(from, to).value;
    var final := ConnectHops(net, plan, cfg, self, from, to).1;
    RouteIsShortest(net, plan, from, to);
    PlanEdges(net, plan, from, to);
    if |p| > 1 {
      var crosses := p[1].node == self;
      var k := if crosses then 2 else 1;
      var cfg' := cfg;
      if crosses {
        InternalKeepsConfig(net, cfg, self, from.port, p[1].port);
        InternalJoins(net, cfg, p[0], p[1]);
        cfg' := InternalConfig(net, cfg, self, from.port, p[1].port);
      }
      if NextHop(p).Some? {
        ReplanShrinks(net, plan, from, to, 1);
        ReplanShrinks(net, plan, from, to, k);
        ConnectDelivers(net, plan, cfg', p[k].node, p[k], to);
        if crosses {
          BehindIsUnused(net, plan, p[k], to, p[0], p[1]);
          ConnectFrame(net, plan, cfg', p[k].node, p[k], to, p[0], p[1]);
        }
        RouteIsShortest(net, plan, p[k], to);
        DeliversJoin(net, final, p, k, RouteOf(net, plan, p[k], to));
      } else {
        SinglesDeliver(net, final, p);
      }
    } else {
      SinglesDeliver(net, final, p);
    }
  }

  lemma SinglesDeliver(net: Net, cfg: Config, p: Path)
    requires 0 < |p| <= 2
    requires |p| == 2 ==> Carries(net, cfg, p[0], p[1])
    ensures Delivers(net, cfg, p)
  {
  }

  // ------------------------------------------------------------ consequences

  /** Nothing in the configuration stands in the way: every link ends at an IP
      the card knows, and every pair of ports of a switch can be connected. */
  ghost predicate Complete(net: Net) {
    && (forall e | e in net.links :: e.1.node in net.nodes)
    && (forall n, s, m | n in net.switches && s in net.switches[n].slaves && m in net.switches[n].masters ::
          Connectable(net.switches[n], s, m))
  }

  lemma InternalSucceeds(net: Net, cfg: Config, a: StreamVertex, b: StreamVertex)
    requires Complete(net) && ConfigOk(net, cfg) && net.Internal(a, b)
    ensures InternalOutcome(net, cfg, a.node, a.port, b.port) == Done(true)
  {
    assert Connectable(net.switches[a.node], a.port, b.port);
  }

  /** `connect` returns true exactly when it is called on the IP that owns
      `from` and `to` can be reached from there. */
  lemma {:induction false} ConnectSucceedsIff(net: Net, plan: Planner, cfg: Config, self: string,
                                              from: StreamVertex, to: StreamVertex)
    requires Shortest(net, plan) && ConfigOk(net, cfg) && net.NoSelfLink() && Complete(net)
    ensures ConnectHops(net, plan, cfg, self, from, to).0 == Done(from.node == self && net.Reachable(from, to))
    decreases Rank(plan, from, to)
  {
    hide InternalConfig, InternalOutcome, ConfigOk;
    if from.node == self && plan(from, to).Some? {
      var p := plan(from, to).value;
      PlanEdges(net, plan, from, to);
      assert net.Reachable(from, to) by {
        assert net.WalkBetween(p, from, to);
      }
      if |p| > 1 {
        var cfg' := cfg;
        var k := if p[1].node == self then 2 else 1;
        if p[1].node == self {
          InternalSucceeds(net, cfg, p[0], p[1]);
          InternalKeepsConfig(net, cfg, self, from.port, p[1].port);
          cfg' := InternalConfig(net, cfg, self, from.port, p[1].port);
        }
        if NextHop(p).Some? {
          assert net.HasEdge(p[k - 1], p[k]);
          assert (p[k - 1], p[k]) in net.links;
          ReplanShrinks(net, plan, from, to, k);
          ConnectSucceedsIff(net, plan, cfg', p[k].node, p[k], to);
          assert net.Reachable(p[k], to);
        }
      }
    }
  }

  /** A connection made earlier is still there after a successful call exactly
      when the new route does not divert one of its two ports. */
  lemma {:induction false} ConnectionSurvivesIff(net: Net, plan: Planner, cfg: Config, self: string,
                              from: StreamVertex, to: StreamVertex, a: StreamVertex, b: StreamVertex)
    requires Shortest(net, plan) && ConfigOk(net, cfg) && net.NoSelfLink()
    requires ConnectHops(net, plan, cfg, self, from, to).0 == Done(true)
    requires Joined(net, cfg, a, b)
    ensures Joined(net, ConnectHops(net, plan, cfg, self, from, to).1, a, b)
       <==> !Diverts(net, RouteOf(net, plan, from, to), a, b)
  {
    var final, route := ConnectHops(net, plan, cfg, self, from, to).1, RouteOf(net, plan, from, to);
    ConnectDelivers(net, plan, cfg, self, from, to);
    ConnectKeepsConfig(net, plan, cfg, self, from, to);
    forall x, y | Programs(net, route, x, y) ensures Joined(net, final, x, y) {
      ProgrammedIsJoined(net, final, route, x, y);
    }
    if !Uses(net, route, a, b) {
      ConnectFrame(net, plan, cfg, self, from, to, a, b);
    }
    if Joined(net, final, a, b) {
      forall x, y | Programs(net, route, x, y) ensures x == a <==> y == b {
        JoinedIsExclusive(net, final, a, b, x, y);
      }
    }
  }

  lemma ProgrammedIsJoined(net: Net, cfg: Config, route: Path, x: StreamVertex, y: StreamVertex)
    requires net.NoSelfLink() && Delivers(net, cfg, route) && Programs(net, route, x, y)
    ensures Joined(net, cfg, x, y)
  {
    var i :| 0 <= i < |route| - 1 && route[i] == x && route[i + 1] == y && net.Internal(x, y);
    assert Carries(net, cfg, route[i], route[i + 1]);
  }

  lemma JoinedIsExclusive(net: Net, cfg: Config, a: StreamVertex, b: StreamVertex, x: StreamVertex, y: StreamVertex)
    requires ConfigOk(net, cfg) && Joined(net, cfg, a, b) && Joined(net, cfg, x, y)
    ensures x == a <==> y == b
  {
    assert MappingOk(net.switches[a.node], cfg[a.node]);
  }

  datatype Request = Request(self: string, from: StreamVertex, to: StreamVertex)

  function RunConnects(net: Net, plan: Planner, cfg: Config, requests: seq<Request>): Config
    requires Shortest(net, plan)
    decreases |requests|
  {
    if requests == [] then cfg
    else
      var r := requests[0];
      RunConnects(net, plan, ConnectHops(net, plan, cfg, r.self, r.from, r.to).1, requests[1..])
  }

  /** The request programs neither a switch input nor a switch output of `route`. */
  ghost predicate StaysClear(net: Net, plan: Planner, r: Request, route: Path)
    requires Shortest(net, plan)
  {
    forall a, b | Programs(net, route, a, b) :: !Uses(net, RouteOf(net, plan, r.from, r.to), a, b)
  }

  /** A working route survives any sequence of calls that stay clear of its
      switch ports, whether those calls succeed, fail or throw. */
  lemma {:induction false} RouteSurvives(net: Net, plan: Planner, cfg: Config, route: Path, requests: seq<Request>)
    requires Shortest(net, plan) && ConfigOk(net, cfg) && net.NoSelfLink()
    requires Delivers(net, cfg, route)
    requires forall r | r in requests :: StaysClear(net, plan, r, route)
    ensures Delivers(net, RunConnects(net, plan, cfg, requests), route)
    decreases |requests|
  {
    if requests != [] {
      var r := requests[0];
      assert r in requests && StaysClear(net, plan, r, route);
      var cfg' := ConnectHops(net, plan, cfg, r.self, r.from, r.to).1;
      ConnectKeepsConfig(net, plan, cfg, r.self, r.from, r.to);
      forall i | 0 <= i < |route| - 1 ensures Carries(net, cfg', route[i], route[i + 1]) {
        assert Carries(net, cfg, route[i], route[i + 1]);
        if Joined(net, cfg, route[i], route[i + 1]) {
          assert Programs(net, route, route[i], route[i + 1]);
          ConnectFrame(net, plan, cfg, r.self, r.from, r.to, route[i], route[i + 1]);
        }
      }
      RouteSurvives(net, plan, cfg', route, requests[1..]);
    }
  }

  /** `Node::connect` with the `reverse` flag. */
  function ConnectBoth(net: Net, plan: Planner, cfg: Config, self: string,
                       from: StreamVertex, to: StreamVertex, reverse: bool): (Outcome, Config)
    requires Shortest(net, plan)
  {
    var (there, cfg1) := ConnectHops(net, plan, cfg, self, from, to);
    if there == Thrown || !reverse then (there, cfg1)
    else
      var (back, cfg2) := ConnectHops(net, plan, cfg1, self, to, from);
      if back == Thrown then (Thrown, cfg2) else (Done(there.ok && back.ok), cfg2)
  }

  /** The way back is requested from the same IP as the way there, so it can
      only be made when both ends belong to that IP. */
  lemma ReverseNeedsOneNode(net: Net, plan: Planner, cfg: Config, self: string, from: StreamVertex, to: StreamVertex)
    requires Shortest(net, plan) && ConfigOk(net, cfg) && net.NoSelfLink() && Complete(net)
    ensures ConnectBoth(net, plan, cfg, self, from, to, true).0 == Done(true)
       <==> from.node == to.node == self && net.Reachable(from, to) && net.Reachable(to, from)
  {
    ConnectSucceedsIff(net, plan, cfg, self, from, to);
    ConnectKeepsConfig(net, plan, cfg, self, from, to);
    ConnectSucceedsIff(net, plan, ConnectHops(net, plan, cfg, self, from, to).1, self, to, from);
  }

  /** When both calls return true, the way back works, and the way there still
      does exactly when the way back diverts none of its switch ports. */
  lemma ReverseDelivers(net: Net, plan: Planner, cfg: Config, self: string, from: StreamVertex, to: StreamVertex)
    requires Shortest(net, plan) && ConfigOk(net, cfg) && net.NoSelfLink()
    requires ConnectBoth(net, plan, cfg, self, from, to, true).0 == Done(true)
    ensures var final := ConnectBoth(net, plan, cfg, self, from, to, true).1;
      && Delivers(net, final, RouteOf(net, plan, to, from))
      && (Delivers(net, final, RouteOf(net, plan, from, to)) <==>
            forall a, b | Programs(net, RouteOf(net, plan, from, to), a, b) ::
              !Diverts(net, RouteOf(net, plan, to, from), a, b))
  {
    hide ConnectHops, RouteOf, Diverts, ConfigOk, Shortest;
    var (there, cfg1) := ConnectHops(net, plan, cfg, self, from, to);
    var (back, final) := ConnectHops(net, plan, cfg1, self, to, from);
    var route := RouteOf(net, plan, from, to);
    assert there == Done(true) && back == Done(true);
    ConnectDelivers(net, plan, cfg, self, from, to);
    ConnectKeepsConfig(net, plan, cfg, self, from, to);
    ConnectDelivers(net, plan, cfg1, self, to, from);
    forall a, b | Programs(net, route, a, b)
      ensures Joined(net, final, a, b) <==> !Diverts(net, RouteOf(net, plan, to, from), a, b)
    {
      ProgrammedIsJoined(net, cfg1, route, a, b);
      ConnectionSurvivesIff(net, plan, cfg1, self, to, from, a, b);
    }
    DeliversIff(net, cfg1, final, route);
  }

  /** A route that works under one configuration works under another exactly
      when its switch connections are there. */
  lemma DeliversIff(net: Net, cfg: Config, final: Config, route: Path)
    requires net.NoSelfLink() && Delivers(net, cfg, route)
    ensures Delivers(net, final, route) <==> forall a, b | Programs(net, route, a, b) :: Joined(net, final, a, b)
  {
    if Delivers(net, final, route) {
      forall a, b | Programs(net, route, a, b) ensures Joined(net, final, a, b) {
        ProgrammedIsJoined(net, final, route, a, b);
      }
    }
    if forall a, b | Programs(net, route, a, b) :: Joined(net, final, a, b) {
      forall i | 0 <= i < |route| - 1 ensures Carries(net, final, route[i], route[i + 1]) {
        assert Carries(net, cfg, route[i], route[i + 1]);
        if Joined(net, cfg, route[i], route[i + 1]) {
          assert Programs(net, route, route[i], route[i + 1]);
        }
      }
    }
  }

  /** Two outputs of switch `x` lead to switch `y`, whose one output leads back. */
  function CrossedNet(): Net {
    Net({(StreamVertex("x", "M00", true), StreamVertex("y", "S00", false)),
         (StreamVertex("x", "M01", true), StreamVertex("y", "S01", false)),
         (StreamVertex("y", "M00", true), StreamVertex("x", "S00", false))},
        map["x" := Ports({"M00", "M01"}, {"S00"}), "y" := Ports({"M00"}, {"S00", "S01"})],
        {"x", "y"})
  }

  lemma CrossedNetEdges(v: StreamVertex)
    ensures CrossedNet().HasEdge(StreamVertex("x", "M00", true), v) ==> v == StreamVertex("y", "S00", false)
    ensures CrossedNet().HasEdge(StreamVertex("x", "M01", true), v) ==> v == StreamVertex("y", "S01", false)
    ensures CrossedNet().HasEdge(StreamVertex("y", "S00", false), v) ==> v == StreamVertex("y", "M00", true)
    ensures CrossedNet().HasEdge(StreamVertex("y", "S01", false), v) ==> v == StreamVertex("y", "M00", true)
  {
  }

  /** Any walk from the one output of `x` to the other starts by crossing `y`. */
  lemma CrossesY(p: Path, there: bool)
    requires var a, b := StreamVertex("x", "M00", true), StreamVertex("x", "M01", true);
      CrossedNet().WalkBetween(p, if there then a else b, if there then b else a)
    ensures Programs(CrossedNet(), p, StreamVertex("y", if there then "S00" else "S01", false), StreamVertex("y", "M00", true))
  {
    var net := CrossedNet();
    assert "M00"[2] != "M01"[2] && "x"[0] != "y"[0];
    assert |p| > 1 && net.HasEdge(p[0], p[0 + 1]);
    CrossedNetEdges(p[1]);
    assert |p| > 2 && net.HasEdge(p[1], p[1 + 1]);
    CrossedNetEdges(p[2]);
    assert p[1] == StreamVertex("y", if there then "S00" else "S01", false) && p[1 + 1] == StreamVertex("y", "M00", true);
  }

  lemma CrossedNetIsFine()
    ensures CrossedNet().NoSelfLink() && Complete(CrossedNet())
    ensures var a, b := StreamVertex("x", "M00", true), StreamVertex("x", "M01", true);
      CrossedNet().Reachable(a, b) && CrossedNet().Reachable(b, a)
  {
    var net := CrossedNet();
    var a, b := StreamVertex("x", "M00", true), StreamVertex("x", "M01", true);
    var s0, s1, m, back := StreamVertex("y", "S00", false), StreamVertex("y", "S01", false),
                           StreamVertex("y", "M00", true), StreamVertex("x", "S00", false);
    assert "x"[0] != "y"[0];
    assert net.WalkBetween([a, s0, m, back, b], a, b);
    assert net.WalkBetween([b, s1, m, back, a], b, a);
    TwoDigits("M00", 0, 0);
    TwoDigits("M01", 0, 1);
    TwoDigits("S00", 0, 0);
    TwoDigits("S01", 0, 1);
  }

  /** So `connect` with the reverse flag can return true although the way there
      is broken by the way back. */
  lemma ReverseBreaks(plan: Planner, cfg: Config)
    requires Shortest(CrossedNet(), plan) && ConfigOk(CrossedNet(), cfg)
    ensures var a, b := StreamVertex("x", "M00", true), StreamVertex("x", "M01", true);
      var (outcome, final) := ConnectBoth(CrossedNet(), plan, cfg, "x", a, b, true);
      outcome == Done(true) && !Delivers(CrossedNet(), final, RouteOf(CrossedNet(), plan, a, b))
  {
    hide ConnectBoth, Delivers, RouteOf, Complete, ConfigOk, CrossedNet;
    var net, a, b := CrossedNet(), StreamVertex("x", "M00", true), StreamVertex("x", "M01", true);
    var s0, s1, m := StreamVertex("y", "S00", false), StreamVertex("y", "S01", false), StreamVertex("y", "M00", true);
    CrossedNetIsFine();
    ReverseNeedsOneNode(net, plan, cfg, "x", a, b);
    ReverseDelivers(net, plan, cfg, "x", a, b);
    RouteIsShortest(net, plan, a, b);
    RouteIsShortest(net, plan, b, a);
    CrossesY(RouteOf(net, plan, a, b), true);
    CrossesY(RouteOf(net, plan, b, a), false);
    assert s0 != s1 by {
      assert "S00"[2] != "S01"[2];
    }
    assert Diverts(net, RouteOf(net, plan, b, a), s0, m);
  }

  // ------------------------------------------------------------ the hardware

  /** As `Carries`, but read from the mux registers instead of the tables: the
      register with the number of the output selects the input. */
  ghost predicate HardwareCarries(net: Net, regs: map<string, Registers>, a: StreamVertex, b: StreamVertex) {
    || (a, b) in net.links
    || (&& net.Internal(a, b) && a.node in regs
        && exists n :: Numbered(b.port, n) && Selects(regs[a.node], n, a.port))
  }

  /** Tables that agree with their registers deliver in hardware, too. */
  lemma {:induction false} TablesReachHardware(net: Net, cfg: Config, regs: map<string, Registers>, route: Path)
    requires ConfigOk(net, cfg) && regs.Keys == cfg.Keys
    requires forall n | n in cfg :: WellNumbered(net.switches[n]) && Agrees(net.switches[n], cfg[n], regs[n])
    requires Delivers(net, cfg, route)
    ensures forall i | 0 <= i < |route| - 1 :: HardwareCarries(net, regs, route[i], route[i + 1])
  {
    forall i | 0 <= i < |route| - 1 ensures HardwareCarries(net, regs, route[i], route[i + 1]) {
      var a, b := route[i], route[i + 1];
      assert Carries(net, cfg, a, b);
      if Joined(net, cfg, a, b) {
        var ports := net.switches[a.node];
        assert MappingOk(ports, cfg[a.node]);
        assert a.port in ports.slaves;
        assert cfg[a.node][b.port] == PORT_DISABLED || Connectable(ports, a.port, b.port);
        JoinedRegister(ports, cfg[a.node], regs[a.node], a.port, b.port);
      }
    }
  }

  lemma JoinedRegister(ports: Ports, mapping: Mapping, regs: Registers, slave: string, master: string)
    requires WellNumbered(ports) && MappingOk(ports, mapping) && Agrees(ports, mapping, regs)
    requires Connectable(ports, slave, master) && mapping[master] == slave
    ensures exists n :: Numbered(master, n) && Selects(regs, n, slave)
  {
    var n := PortNumber(master).value;
    PortNumberIff(master, n);
    RegistersIdentifyTheSlave(ports, mapping, regs, slave, master, n);
  }

  // ------------------------------------------------------------ the objects

  /** The stream nodes of a card. */
  class StreamCard {
    const net: Net
    const switches: map<string, AxiStreamSwitch>

    ghost predicate Valid()
      reads this, switches.Values
    {
      && switches.Keys == net.switches.Keys
      && (forall n | n in switches :: switches[n].ports == net.switches[n] && switches[n].Valid())
      && (forall n, m | n in switches && m in switches && switches[n] == switches[m] :: n == m)
    }

    ghost function Tables(): Config
      reads switches.Values
    {
      map n | n in switches :: switches[n].portMapping
    }

    ghost function Muxes(): map<string, Registers>
      reads switches.Values
    {
      map n | n in switches :: switches[n].regs
    }

    constructor (net: Net, switches: map<string, AxiStreamSwitch>)
      ensures this.net == net && this.switches == switches
    {
      this.net := net;
      this.switches := switches;
    }

    lemma TablesOk()
      requires Valid()
      ensures ConfigOk(net, Tables())
    {
    }

    /** Virtual dispatch: the base class refuses, a switch obeys. */
    method ConnectInternal(node: string, slave: string, master: string) returns (outcome: Outcome)
      requires Valid()
      modifies switches.Values
      ensures Valid()
      ensures outcome == InternalOutcome(net, old(Tables()), node, slave, master)
      ensures node !in net.switches ==> outcome == Done(false) && Tables() == old(Tables())
      ensures Tables() == InternalConfig(net, old(Tables()), node, slave, master)
    {
      hide ConnectMapping, ConnectOutcome, AxiStreamSwitch.Valid;
      if node !in switches {
        return Done(false);
      }
      outcome := switches[node].ConnectInternal(slave, master);
    }

    method Connect(plan: Planner, self: string, from: StreamVertex, to: StreamVertex) returns (outcome: Outcome)
      requires Valid() && Shortest(net, plan)
      modifies switches.Values
      ensures Valid()
      ensures (outcome, Tables()) == ConnectHops(net, plan, old(Tables()), self, from, to)
      decreases Rank(plan, from, to)
    {
      hide InternalConfig, InternalOutcome, Valid, Rank;
      if from.node != self {
        return Done(false);
      }
      var found := plan(from, to);
      if found.None? {
        return Done(false);
      }
      var path := found.value;
      PlanEdges(net, plan, from, to);
      if |path| == 1 {
        return Done(true);
      }
      var current := 1;
      if path[current].node == self {
        outcome := ConnectInternal(self, from.port, path[current].port);
        if outcome != Done(true) {
          return;
        }
        current := current + 1;
        if current == |path| {
          return Done(true);
        }
      }
      var next := path[current];
      if next.node !in net.nodes {
        return Done(false);
      }
      ReplanShrinks(net, plan, from, to, current);
      outcome := Connect(plan, next.node, next, to);
    }

    /** The promise to the caller, in terms of hardware: after a call that
        returns true the registers of all switches carry data from `from` to `to`. */
    method Establish(plan: Planner, self: string, from: StreamVertex, to: StreamVertex)
      returns (outcome: Outcome, ghost route: Path)
      requires Valid() && Shortest(net, plan) && net.NoSelfLink()
      modifies switches.Values
      ensures Valid()
      ensures (outcome, Tables()) == ConnectHops(net, plan, old(Tables()), self, from, to)
      ensures outcome == Done(true) ==>
        && net.WalkBetween(route, from, to)
        && forall i | 0 <= i < |route| - 1 :: HardwareCarries(net, Muxes(), route[i], route[i + 1])
    {
      TablesOk();
      ghost var before := Tables();
      outcome := Connect(plan, self, from, to);
      route := RouteOf(net, plan, from, to);
      if outcome == Done(true) {
        ConnectDelivers(net, plan, before, self, from, to);
        TablesOk();
        TablesReachHardware(net, Tables(), Muxes(), route);
      }
    }
  }

  // ------------------------------------------------------------ why shortest

  ghost predicate HasWalkOf(net: Net, a: StreamVertex, b: StreamVertex, n: nat) {
    exists p :: net.WalkBetween(p, a, b) && |p| == n
  }

  /** The least length of a walk, not below `n`. */
  lemma {:induction false} LeastWalk(net: Net, a: StreamVertex, b: StreamVertex, p: Path, n: nat) returns (q: Path)
    requires net.WalkBetween(p, a, b) && n <= |p|
    requires forall k: nat | k < n :: !HasWalkOf(net, a, b, k)
    ensures net.WalkBetween(q, a, b)
    ensures forall r | net.WalkBetween(r, a, b) :: |q| <= |r|
    decreases |p| - n
  {
    if HasWalkOf(net, a, b, n) {
      q :| net.WalkBetween(q, a, b) && |q| == n;
      forall r | net.WalkBetween(r, a, b) ensures |q| <= |r| {
        assert HasWalkOf(net, a, b, |r|);
      }
    } else {
      assert HasWalkOf(net, a, b, |p|);
      q := LeastWalk(net, a, b, p, n + 1);
    }
  }

  ghost predicate IsShortest(net: Net, a: StreamVertex, b: StreamVertex, q: Path) {
    net.WalkBetween(q, a, b) && forall r | net.WalkBetween(r, a, b) :: |q| <= |r|
  }

  lemma ShortestWalkExists(net: Net, a: StreamVertex, b: StreamVertex)
    requires net.Reachable(a, b)
    ensures exists q :: IsShortest(net, a, b, q)
  {
    var p :| net.WalkBetween(p, a, b);
    var q := LeastWalk(net, a, b, p, 0);
    assert IsShortest(net, a, b, q);
  }

  ghost function ShortestWalk(net: Net, a: StreamVertex, b: StreamVertex): Option<Path> {
    if !net.Reachable(a, b) then None
    else
      ShortestWalkExists(net, a, b);
      var q :| IsShortest(net, a, b, q);
      Some(q)
  }

  /** Every network has a planner that meets the contract. */
  lemma PlannerExists(net: Net) returns (plan: Planner)
    ensures Shortest(net, plan)
  {
    var n := net;
    plan := (a, b) => ShortestWalk(n, a, b);
    forall a, b, q | plan(a, b).Some? && net.WalkBetween(q, a, b) ensures |plan(a, b).value| <= |q| {
      assert IsShortest(net, a, b, plan(a, b).value);
    }
  }

  ghost function SomeWalk(net: Net, a: StreamVertex, b: StreamVertex): Option<Path> {
    if net.Reachable(a, b) then var p :| net.WalkBetween(p, a, b); Some(p) else None
  }

  ghost predicate Simple(p: Path) {
    forall i, j | 0 <= i < j < |p| :: p[i] != p[j]
  }

  /** A search that merely finds some path without loops is not enough: two
      switches can hand the request to each other forever. */
  lemma SimplePathsPingPong()
    returns (net: Net, plan: Planner, a: StreamVertex, b: StreamVertex, to: StreamVertex)
    ensures net.NoSelfLink() && FindsWalks(net, plan)
    ensures plan(a, to).Some? && Simple(plan(a, to).value) && NextHop(plan(a, to).value) == Some(b)
    ensures plan(b, to).Some? && Simple(plan(b, to).value) && NextHop(plan(b, to).value) == Some(a)
  {
    var M := (n, p) => StreamVertex(n, p, true);
    var S := (n, p) => StreamVertex(n, p, false);
    var two := Ports({"M00", "M01"}, {"S00"});
    net := Net({(M("x", "M00"), S("y", "S00")), (M("y", "M00"), S("x", "S00")),
                (M("x", "M01"), S("z", "S00")), (M("y", "M01"), S("z", "S01"))},
               map["x" := two, "y" := two, "z" := Ports({"M00"}, {"S00", "S01"})],
               {"x", "y", "z"});
    a, b, to := S("x", "S00"), S("y", "S00"), M("z", "M00");
    var p := [a, M("x", "M00"), b, M("y", "M01"), S("z", "S01"), to];
    var q := [b, M("y", "M00"), a, M("x", "M01"), S("z", "S00"), to];
    assert net.WalkBetween(p, a, to);
    assert net.WalkBetween(q, b, to);
    var n, v, w := net, a, b;
    var t := to;
    plan := (c, d) => if c == v && d == t then Some(p) else if c == w && d == t then Some(q) else SomeWalk(n, c, d);
  }
}
