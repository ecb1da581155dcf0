/** From the configuration to the graph of stream ports, and loopbacks in it. */
module StreamGraphs {
  import opened Text
  import opened Crossbar
  import opened Routing

  /** What an IP's configuration has under `ports`. */
  datatype PortList = NoPorts | NotAnArray | Array(entries: seq<PortEntry>) {
    function Entries(): seq<PortEntry> {
      if Array? then entries else []
    }
  }

  /** An element of that array. */
  datatype PortEntry = NotAnObject | Unreadable | Port(role: string, target: string, name: string)

  /** `utils::tokenize` at colons. */
  type Tokenizer = string -> seq<string>

  predicate IsMaster(role: string) {
    role == "master" || role == "initiator"
  }

  predicate Readable(tok: Tokenizer, e: PortEntry) {
    e.Port? && |tok(e.target)| == 2
  }

  /** The IP's own port, and the port it declares as its counterpart. */
  function Own(ip: string, e: PortEntry): StreamVertex
    requires e.Port?
  {
    StreamVertex(ip, e.name, IsMaster(e.role))
  }

  function Peer(tok: Tokenizer, e: PortEntry): StreamVertex
    requires Readable(tok, e)
  {
    StreamVertex(tok(e.target)[0], tok(e.target)[1], !IsMaster(e.role))
  }

  /** How many entries are read before one is refused. */
  ghost function ReadableLength(tok: Tokenizer, entries: seq<PortEntry>): (n: nat)
    ensures n <= |entries|
    ensures forall i | 0 <= i < n :: Readable(tok, entries[i]) && entries[i].Port? && |tok(entries[i].target)| == 2
    ensures n < |entries| ==> !Readable(tok, entries[n]) && (!entries[n].Port? || |tok(entries[n].target)| != 2)
    decreases |entries|
  {
    if entries == [] || !Readable(tok, entries[0]) then 0 else 1 + ReadableLength(tok, entries[1..])
  }

  /** The links the first `n` entries declare. Only the side of the master makes
      a link; the side of the slave just makes the two ports known. */
  ghost function Declared(tok: Tokenizer, ip: string, entries: seq<PortEntry>, n: nat): set<Edge>
    requires n <= ReadableLength(tok, entries)
    decreases n
  {
    if n == 0 then {}
    else
      var e := entries[n - 1];
      Declared(tok, ip, entries, n - 1) + if IsMaster(e.role) then {(Own(ip, e), Peer(tok, e))} else {}
  }

  /** The names under which the IP afterwards finds its masters, or its slaves. */
  ghost function Names(tok: Tokenizer, entries: seq<PortEntry>, n: nat, master: bool): set<string>
    requires n <= ReadableLength(tok, entries)
    decreases n
  {
    if n == 0 then {}
    else
      var e := entries[n - 1];
      Names(tok, entries, n - 1, master) + if IsMaster(e.role) == master then {e.name} else {}
  }

  /** What accumulates over the entries, from any start. */
  ghost predicate ReadSoFar(tok: Tokenizer, ip: string, entries: seq<PortEntry>, n: nat,
                            links: set<Edge>, masters: set<string>, slaves: set<string>,
                            links': set<Edge>, masters': set<string>, slaves': set<string>)
  {
    && n <= ReadableLength(tok, entries)
    && links' == links + Declared(tok, ip, entries, n)
    && masters' == masters + Names(tok, entries, n, true)
    && slaves' == slaves + Names(tok, entries, n, false)
  }

  lemma NoneRead(tok: Tokenizer, ip: string, entries: seq<PortEntry>, links: set<Edge>, masters: set<string>, slaves: set<string>)
    ensures ReadSoFar(tok, ip, entries, 0, links, masters, slaves, links, masters, slaves)
  {
  }

  lemma OneMoreRead(tok: Tokenizer, ip: string, entries: seq<PortEntry>, n: nat,
                    links: set<Edge>, masters: set<string>, slaves: set<string>,
                    links': set<Edge>, masters': set<string>, slaves': set<string>)
    requires ReadSoFar(tok, ip, entries, n, links, masters, slaves, links', masters', slaves')
    requires n < |entries| && Readable(tok, entries[n])
    ensures var e := entries[n];
      ReadSoFar(tok, ip, entries, n + 1, links, masters, slaves,
        links' + (if IsMaster(e.role) then {(Own(ip, e), Peer(tok, e))} else {}),
        masters' + (if IsMaster(e.role) then {e.name} else {}),
        slaves' + (if IsMaster(e.role) then {} else {e.name}))
  {
  }

  // ------------------------------------------------------------ the graph

  class StreamGraph {
    var vertices: seq<StreamVertex>
    var edges: seq<(nat, nat)>

    /** One identifier per port; edges join existing ports. */
    ghost predicate Valid()
      reads this
    {
      && (forall i, j | 0 <= i < j < |vertices| :: vertices[i] != vertices[j])
      && (forall k | 0 <= k < |edges| :: edges[k].0 < |vertices| && edges[k].1 < |vertices|)
    }

    ghost function Links(): set<Edge>
      reads this
      requires Valid()
    {
      set k | 0 <= k < |edges| :: (vertices[edges[k].0], vertices[edges[k].1])
    }

    constructor ()
      ensures Valid() && vertices == [] && Links() == {}
    {
      vertices := [];
      edges := [];
    }

    /** The existing vertex if there is one, else a new one at the end. */
    method GetOrCreateStreamVertex(node: string, port: string, isMaster: bool) returns (id: nat)
      requires Valid()
      modifies `vertices
      ensures Valid() && Links() == old(Links())
      ensures id < |vertices| && vertices[id] == StreamVertex(node, port, isMaster)
      ensures vertices == old(vertices) || vertices == old(vertices) + [StreamVertex(node, port, isMaster)]
    {
      for i := 0 to |vertices|
        invariant StreamVertex(node, port, isMaster) !in vertices[..i]
      {
        var v := vertices[i];
        if v.node == node && v.port == port && v.isMaster == isMaster {
          return i;
        }
      }
      id := |vertices|;
      vertices := vertices + [StreamVertex(node, port, isMaster)];
    }

    method AddDefaultEdge(from: nat, to: nat)
      requires Valid() && from < |vertices| && to < |vertices|
      modifies `edges
      ensures Valid() && Links() == old(Links()) + {(vertices[from], vertices[to])}
    {
      ghost var before := edges;
      edges := edges + [(from, to)];
      assert forall k | 0 <= k < |before| :: edges[k] == before[k];
      assert edges[|before|] == (from, to);
      forall e | e in old(Links()) ensures e in Links() {
        var k :| 0 <= k < |before| && e == (vertices[before[k].0], vertices[before[k].1]);
        assert edges[k] == before[k];
      }
    }
  }

  // ------------------------------------------------------------ the nodes

  ghost predicate Refer(ip: string, ports: map<string, nat>, isMaster: bool, vertices: seq<StreamVertex>) {
    forall p | p in ports :: ports[p] < |vertices| && vertices[ports[p]] == StreamVertex(ip, p, isMaster)
  }

  lemma StillRefer(ip: string, ports: map<string, nat>, isMaster: bool, before: seq<StreamVertex>, after: seq<StreamVertex>)
    requires Refer(ip, ports, isMaster, before) && before <= after
    ensures Refer(ip, ports, isMaster, after)
  {
  }

  lemma ReferAlso(ip: string, ports: map<string, nat>, isMaster: bool, vertices: seq<StreamVertex>, port: string, id: nat)
    requires Refer(ip, ports, isMaster, vertices)
    requires id < |vertices| && vertices[id] == StreamVertex(ip, port, isMaster)
    ensures Refer(ip, ports[port := id], isMaster, vertices)
  {
  }

  lemma Longer(a: seq<StreamVertex>, b: seq<StreamVertex>, c: seq<StreamVertex>)
    requires a <= b && b <= c
    ensures a <= c
  {
  }

  class StreamNode {
    const name: string
    var portsMaster: map<string, nat>
    var portsSlave: map<string, nat>

    constructor (name: string)
      ensures this.name == name && portsMaster == map[] && portsSlave == map[]
    {
      this.name := name;
      portsMaster, portsSlave := map[], map[];
    }

    /** Every port of this IP refers to the vertex with its name and role. */
    ghost predicate Owns(vertices: seq<StreamVertex>)
      reads this
    {
      Refer(name, portsMaster, true, vertices) && Refer(name, portsSlave, false, vertices)
    }

    /** The ports read before the first bad one stay in the graph. */
    method Parse(graph: StreamGraph, tok: Tokenizer, ports: PortList) returns (ok: bool)
      requires graph.Valid() && Owns(graph.vertices)
      modifies this, graph
      ensures graph.Valid() && Owns(graph.vertices) && old(graph.vertices) <= graph.vertices
      ensures var entries := ports.Entries();
        var n := ReadableLength(tok, entries);
        && ok == (!ports.NotAnArray? && n == |entries|)
        && graph.Links() == old(graph.Links()) + Declared(tok, name, entries, n)
        && portsMaster.Keys == old(portsMaster.Keys) + Names(tok, entries, n, true)
        && portsSlave.Keys == old(portsSlave.Keys) + Names(tok, entries, n, false)
    {
      hide Owns, StreamGraph.Valid, StreamGraph.Links;
      match ports {
        case NoPorts => return true;
        case NotAnArray => return false;
        case Array(entries) => ok := ParseArray(graph, tok, entries);
      }
    }

    method ParseArray(graph: StreamGraph, tok: Tokenizer, entries: seq<PortEntry>) returns (ok: bool)
      requires graph.Valid() && Owns(graph.vertices)
      modifies this, graph
      ensures graph.Valid() && Owns(graph.vertices) && old(graph.vertices) <= graph.vertices
      ensures var n := ReadableLength(tok, entries);
        && ok == (n == |entries|)
        && graph.Links() == old(graph.Links()) + Declared(tok, name, entries, n)
        && portsMaster.Keys == old(portsMaster.Keys) + Names(tok, entries, n, true)
        && portsSlave.Keys == old(portsSlave.Keys) + Names(tok, entries, n, false)
    {
      hide Owns, StreamGraph.Valid, StreamGraph.Links, Declared, Names;
      NoneRead(tok, name, entries, graph.Links(), portsMaster.Keys, portsSlave.Keys);
      for index := 0 to |entries|
        invariant graph.Valid() && Owns(graph.vertices) && old(graph.vertices) <= graph.vertices
        invariant ReadSoFar(tok, name, entries, index,
          old(graph.Links()), old(portsMaster).Keys, old(portsSlave).Keys,
          graph.Links(), portsMaster.Keys, portsSlave.Keys)
      {
        match entries[index] {
          case NotAnObject => return false;
          case Unreadable => return false;
          case Port(role, target, port) =>
            var tokens := tok(target);
            if |tokens| != 2 {
              return false;
            }
            assert Readable(tok, entries[index]);
            OneMoreRead(tok, name, entries, index,
              old(graph.Links()), old(portsMaster).Keys, old(portsSlave).Keys,
              graph.Links(), portsMaster.Keys, portsSlave.Keys);
            ghost var known := graph.vertices;
            AddPort(graph, port, IsMaster(role), tokens[0], tokens[1]);
            Longer(old(graph.vertices), known, graph.vertices);
        }
      }
      return true;
    }

    method AddPort(graph: StreamGraph, port: string, isMaster: bool, peer: string, peerPort: string)
      requires graph.Valid() && Owns(graph.vertices)
      modifies this, graph
      ensures graph.Valid() && Owns(graph.vertices) && old(graph.vertices) <= graph.vertices
      ensures graph.Links() == old(graph.Links()) +
        if isMaster then {(StreamVertex(name, port, true), StreamVertex(peer, peerPort, false))} else {}
      ensures portsMaster.Keys == old(portsMaster.Keys) + if isMaster then {port} else {}
      ensures portsSlave.Keys == old(portsSlave.Keys) + if isMaster then {} else {port}
    {
      hide StreamGraph.Valid, StreamGraph.Links, Refer;
      var thisVertex := graph.GetOrCreateStreamVertex(name, port, isMaster);
      ghost var known := graph.vertices;
      assert old(graph.vertices) <= known;
      var connectedVertex := graph.GetOrCreateStreamVertex(peer, peerPort, !isMaster);
      assert known <= graph.vertices;
      Longer(old(graph.vertices), known, graph.vertices);
      StillRefer(name, portsMaster, true, old(graph.vertices), graph.vertices);
      StillRefer(name, portsSlave, false, old(graph.vertices), graph.vertices);
      if isMaster {
        graph.AddDefaultEdge(thisVertex, connectedVertex);
        ReferAlso(name, portsMaster, true, graph.vertices, port, thisVertex);
        portsMaster := portsMaster[port := thisVertex];
      } else {
        ReferAlso(name, portsSlave, false, graph.vertices, port, thisVertex);
        portsSlave := portsSlave[port := thisVertex];
      }
    }

    /** The part of `AxiStreamSwitch::init` that extends the graph. */
    method InitEdges(graph: StreamGraph)
      requires graph.Valid() && Owns(graph.vertices)
      modifies graph`edges
      ensures graph.Valid()
      ensures graph.Links() == old(graph.Links()) + Crossing(name, portsMaster.Keys, portsSlave.Keys)
    {
      hide *;
      var masters := portsMaster.Keys;
      CrossingNone(name, portsSlave.Keys);
      assert portsMaster.Keys - masters == {};
      while masters != {}
        invariant masters <= portsMaster.Keys && graph.Valid()
        invariant graph.Links() == old(graph.Links()) + Crossing(name, portsMaster.Keys - masters, portsSlave.Keys)
      {
        var master :| master in masters;
        FeedMaster(graph, master);
        CrossingMaster(name, portsMaster.Keys - masters, master, portsSlave.Keys);
        ghost var left := masters;
        masters := masters - {master};
        assert portsMaster.Keys - masters == portsMaster.Keys - left + {master};
      }
      assert portsMaster.Keys - {} == portsMaster.Keys;
    }

    method FeedMaster(graph: StreamGraph, master: string)
      requires graph.Valid() && Owns(graph.vertices) && master in portsMaster
      modifies graph`edges
      ensures graph.Valid()
      ensures graph.Links() == old(graph.Links()) + Crossing(name, {master}, portsSlave.Keys)
    {
      hide Crossing, StreamGraph.Valid, StreamGraph.Links;
      var slaves := portsSlave.Keys;
      CrossingNone(name, {master});
      assert portsSlave.Keys - slaves == {};
      while slaves != {}
        invariant slaves <= portsSlave.Keys && graph.Valid()
        invariant graph.Links() == old(graph.Links()) + Crossing(name, {master}, portsSlave.Keys - slaves)
      {
        var slave :| slave in slaves;
        graph.AddDefaultEdge(portsSlave[slave], portsMaster[master]);
        CrossingSlave(name, master, portsSlave.Keys - slaves, slave);
        ghost var left := slaves;
        slaves := slaves - {slave};
        assert portsSlave.Keys - slaves == portsSlave.Keys - left + {slave};
      }
      assert portsSlave.Keys - {} == portsSlave.Keys;
    }
  }

  ghost function Crossing(ip: string, masters: set<string>, slaves: set<string>): set<Edge> {
    set m, s | m in masters && s in slaves :: (StreamVertex(ip, s, false), StreamVertex(ip, m, true))
  }

  lemma CrossingNone(ip: string, names: set<string>)
    ensures Crossing(ip, {}, names) == Crossing(ip, names, {}) == {}
  {
  }

  lemma CrossingSlave(ip: string, master: string, slaves: set<string>, slave: string)
    ensures Crossing(ip, {master}, slaves + {slave}) ==
      Crossing(ip, {master}, slaves) + {(StreamVertex(ip, slave, false), StreamVertex(ip, master, true))}
  {
  }

  lemma CrossingMaster(ip: string, masters: set<string>, master: string, slaves: set<string>)
    ensures Crossing(ip, masters + {master}, slaves) == Crossing(ip, masters, slaves) + Crossing(ip, {master}, slaves)
  {
  }

  // ------------------------------------------------------------ all IPs

  datatype IpConfig = IpConfig(name: string, isSwitch: bool, ports: PortList) {
    function Entries(): seq<PortEntry> {
      ports.Entries()
    }
  }

  ghost predicate PortsReadable(tok: Tokenizer, c: IpConfig) {
    !c.ports.NotAnArray? && ReadableLength(tok, c.Entries()) == |c.Entries()|
  }

  ghost predicate AllReadable(tok: Tokenizer, configs: seq<IpConfig>) {
    forall c | c in configs :: PortsReadable(tok, c)
  }

  ghost predicate DistinctNames(configs: seq<IpConfig>) {
    forall i, j | 0 <= i < |configs| && 0 <= j < |configs| && configs[i].name == configs[j].name :: i == j
  }

  ghost function PortsOf(tok: Tokenizer, c: IpConfig): Ports {
    var n := ReadableLength(tok, c.Entries());
    Ports(Names(tok, c.Entries(), n, true), Names(tok, c.Entries(), n, false))
  }

  ghost function LinksOf(tok: Tokenizer, configs: seq<IpConfig>, n: nat): set<Edge>
    requires n <= |configs|
    decreases n
  {
    if n == 0 then {}
    else
      var c := configs[n - 1];
      LinksOf(tok, configs, n - 1) + Declared(tok, c.name, c.Entries(), ReadableLength(tok, c.Entries()))
  }

  ghost function CrossingsOf(tok: Tokenizer, configs: seq<IpConfig>, n: nat): set<Edge>
    requires n <= |configs|
    decreases n
  {
    if n == 0 then {}
    else
      var c := configs[n - 1];
      CrossingsOf(tok, configs, n - 1) +
      if c.isSwitch then Crossing(c.name, PortsOf(tok, c).masters, PortsOf(tok, c).slaves) else {}
  }

  /** The network that a configuration describes. */
  ghost function NetOf(tok: Tokenizer, configs: seq<IpConfig>): Net
    requires DistinctNames(configs)
  {
    Net(LinksOf(tok, configs, |configs|),
        map c | c in configs && c.isSwitch :: c.name := PortsOf(tok, c),
        set c | c in configs :: c.name)
  }

  lemma {:induction false} CrossingsMeaning(tok: Tokenizer, configs: seq<IpConfig>, n: nat, e: Edge)
    requires n <= |configs|
    ensures e in CrossingsOf(tok, configs, n) <==>
      exists i | 0 <= i < n :: configs[i].isSwitch &&
        e in Crossing(configs[i].name, PortsOf(tok, configs[i]).masters, PortsOf(tok, configs[i]).slaves)
    decreases n
  {
    hide Crossing, PortsOf;
    if n > 0 {
      CrossingsMeaning(tok, configs, n - 1, e);
    }
  }

  /** The graph has exactly the edges of that network. */
  lemma {:induction false} GraphIsNet(tok: Tokenizer, configs: seq<IpConfig>, a: StreamVertex, b: StreamVertex)
    requires DistinctNames(configs)
    ensures (a, b) in LinksOf(tok, configs, |configs|) + CrossingsOf(tok, configs, |configs|)
       <==> NetOf(tok, configs).HasEdge(a, b)
  {
    CrossingsMeaning(tok, configs, |configs|, (a, b));
    forall i | 0 <= i < |configs| && configs[i].isSwitch ensures configs[i].name in NetOf(tok, configs).switches {
      SwitchPorts(tok, configs, i);
    }
    forall i | 0 <= i < |configs| && configs[i].isSwitch
      ensures NetOf(tok, configs).switches[configs[i].name] == PortsOf(tok, configs[i])
    {
      SwitchPorts(tok, configs, i);
    }
  }

  lemma SwitchPorts(tok: Tokenizer, configs: seq<IpConfig>, i: nat)
    requires DistinctNames(configs) && i < |configs| && configs[i].isSwitch
    ensures configs[i].name in NetOf(tok, configs).switches
    ensures NetOf(tok, configs).switches[configs[i].name] == PortsOf(tok, configs[i])
  {
    assert configs[i] in configs;
  }

  lemma {:induction false} DeclaredMeaning(tok: Tokenizer, ip: string, entries: seq<PortEntry>, n: nat, e: Edge)
    requires n <= ReadableLength(tok, entries)
    ensures e in Declared(tok, ip, entries, n) <==>
      exists k | 0 <= k < n :: entries[k].role in {"master", "initiator"} &&
        e == (StreamVertex(ip, entries[k].name, true), StreamVertex(tok(entries[k].target)[0], tok(entries[k].target)[1], false))
    decreases n
  {
    if n > 0 {
      DeclaredMeaning(tok, ip, entries, n - 1, e);
    }
  }

  lemma {:induction false} NamesMeaning(tok: Tokenizer, entries: seq<PortEntry>, n: nat, master: bool, name: string)
    requires n <= ReadableLength(tok, entries)
    ensures name in Names(tok, entries, n, master) <==>
      exists k | 0 <= k < n :: (entries[k].role in {"master", "initiator"}) == master && entries[k].name == name
    decreases n
  {
    if n > 0 {
      NamesMeaning(tok, entries, n - 1, master, name);
    }
  }

  lemma {:induction false} LinksMeaning(tok: Tokenizer, configs: seq<IpConfig>, n: nat, e: Edge)
    requires n <= |configs|
    ensures e in LinksOf(tok, configs, n) <==>
      exists i | 0 <= i < n ::
        e in Declared(tok, configs[i].name, configs[i].Entries(), ReadableLength(tok, configs[i].Entries()))
    decreases n
  {
    hide Declared, ReadableLength, IpConfig.Entries;
    if n > 0 {
      LinksMeaning(tok, configs, n - 1, e);
    }
  }

  /** A master entry whose target is a port of the IP that declares it. */
  predicate TargetsItself(tok: Tokenizer, c: IpConfig, e: PortEntry) {
    Readable(tok, e) && e.role in {"master", "initiator"} && tok(e.target)[0] == c.name
  }

  /** What routing needs of the links can be read off the configuration: no
      link joins an IP to itself exactly when no master entry targets its IP. */
  lemma NoSelfLinkIff(tok: Tokenizer, configs: seq<IpConfig>)
    requires DistinctNames(configs) && AllReadable(tok, configs)
    ensures NetOf(tok, configs).NoSelfLink()
       <==> forall c, e | c in configs && e in c.Entries() :: !TargetsItself(tok, c, e)
  {
    hide ReadableLength, Declared, Names, PortsOf, DistinctNames;
    if c, e :| c in configs && e in c.Entries() && TargetsItself(tok, c, e) {
      SelfTargetLinks(tok, configs, c, e);
    }
    forall link | link in LinksOf(tok, configs, |configs|) && link.0.node == link.1.node
      ensures exists c, e | c in configs && e in c.Entries() :: TargetsItself(tok, c, e)
    {
      SelfLinkIsDeclared(tok, configs, link);
    }
  }

  lemma SelfTargetLinks(tok: Tokenizer, configs: seq<IpConfig>, c: IpConfig, e: PortEntry)
    requires AllReadable(tok, configs) && c in configs && e in c.Entries() && TargetsItself(tok, c, e)
    ensures (Own(c.name, e), Peer(tok, e)) in LinksOf(tok, configs, |configs|)
  {
    hide ReadableLength, Declared, LinksOf;
    var i :| 0 <= i < |configs| && configs[i] == c;
    var link := (Own(c.name, e), Peer(tok, e));
    DeclaredMeaning(tok, c.name, c.Entries(), |c.Entries()|, link);
    LinksMeaning(tok, configs, |configs|, link);
  }

  lemma SelfLinkIsDeclared(tok: Tokenizer, configs: seq<IpConfig>, link: Edge)
    requires link in LinksOf(tok, configs, |configs|) && link.0.node == link.1.node
    ensures exists c, e | c in configs && e in c.Entries() :: TargetsItself(tok, c, e)
  {
    hide ReadableLength, Declared, LinksOf;
    LinksMeaning(tok, configs, |configs|, link);
    var i :| 0 <= i < |configs| &&
      link in Declared(tok, configs[i].name, configs[i].Entries(), ReadableLength(tok, configs[i].Entries()));
    var c := configs[i];
    DeclaredMeaning(tok, c.name, c.Entries(), ReadableLength(tok, c.Entries()), link);
    var entries := c.Entries();
    var k :| 0 <= k < ReadableLength(tok, entries) && entries[k].role in {"master", "initiator"} && link ==
      (StreamVertex(c.name, entries[k].name, true), StreamVertex(tok(entries[k].target)[0], tok(entries[k].target)[1], false));
    hide IpConfig.Entries;
    assert c in configs && entries[k] in entries && TargetsItself(tok, c, entries[k]);
  }

  /** Links lead from masters to slaves and switches from slaves to masters, so
      the ports along any walk alternate. */
  lemma {:induction false} WalkAlternates(tok: Tokenizer, configs: seq<IpConfig>, p: Path, i: nat)
    requires DistinctNames(configs) && NetOf(tok, configs).Walk(p) && i < |p|
    ensures p[i].isMaster == (p[0].isMaster == (i % 2 == 0))
    decreases i
  {
    hide NetOf, DistinctNames;
    if i > 0 {
      WalkAlternates(tok, configs, p, i - 1);
      assert NetOf(tok, configs).HasEdge(p[i - 1], p[i - 1 + 1]);
      EdgeTurns(tok, configs, p[i - 1], p[i]);
    }
  }

  lemma EdgeTurns(tok: Tokenizer, configs: seq<IpConfig>, a: StreamVertex, b: StreamVertex)
    requires DistinctNames(configs) && NetOf(tok, configs).HasEdge(a, b)
    ensures a.isMaster != b.isMaster
  {
    hide DistinctNames, LinksOf, PortsOf;
    if (a, b) in NetOf(tok, configs).links {
      LinkDirection(tok, configs, (a, b));
    }
  }

  lemma LinkDirection(tok: Tokenizer, configs: seq<IpConfig>, e: Edge)
    requires e in LinksOf(tok, configs, |configs|)
    ensures e.0.isMaster && !e.1.isMaster
  {
    LinksMeaning(tok, configs, |configs|, e);
    var i :| 0 <= i < |configs| &&
      e in Declared(tok, configs[i].name, configs[i].Entries(), ReadableLength(tok, configs[i].Entries()));
    var c := configs[i];
    DeclaredMeaning(tok, c.name, c.Entries(), ReadableLength(tok, c.Entries()), e);
  }

  // ------------------------------------------------------------ bring-up

  ghost predicate Fit(configs: seq<IpConfig>, nodes: seq<StreamNode>) {
    && |nodes| == |configs|
    && (forall i | 0 <= i < |nodes| :: nodes[i].name == configs[i].name)
    && (forall i, j | 0 <= i < j < |nodes| :: nodes[i] != nodes[j])
  }

  ghost predicate HasParsed(tok: Tokenizer, c: IpConfig, node: StreamNode, vertices: seq<StreamVertex>)
    reads node
  {
    node.Owns(vertices) && Ports(node.portsMaster.Keys, node.portsSlave.Keys) == PortsOf(tok, c)
  }

  lemma StillParsed(tok: Tokenizer, c: IpConfig, node: StreamNode, before: seq<StreamVertex>, after: seq<StreamVertex>)
    requires HasParsed(tok, c, node, before) && before <= after
    ensures HasParsed(tok, c, node, after)
  {
  }

  /** All IPs are parsed, then the switches initialised: unless an entry is
      refused, the graph is that of the described network. */
  method Build(tok: Tokenizer, configs: seq<IpConfig>, nodes: seq<StreamNode>) returns (graph: StreamGraph, ok: bool)
    requires DistinctNames(configs) && Fit(configs, nodes)
    requires forall node | node in nodes :: node.portsMaster == node.portsSlave == map[]
    modifies nodes
    ensures fresh(graph) && graph.Valid()
    ensures ok == AllReadable(tok, configs)
    ensures ok ==> forall i | 0 <= i < |nodes| :: HasParsed(tok, configs[i], nodes[i], graph.vertices)
    ensures ok ==> forall a, b :: (a, b) in graph.Links() <==> NetOf(tok, configs).HasEdge(a, b)
  {
    hide StreamGraph.Valid, StreamGraph.Links, NetOf, ReadableLength;
    graph := new StreamGraph();
    ok := ParseAll(graph, tok, configs, nodes);
    if ok {
      InitAll(graph, tok, configs, nodes);
      forall a, b ensures (a, b) in graph.Links() <==> NetOf(tok, configs).HasEdge(a, b) {
        GraphIsNet(tok, configs, a, b);
      }
    }
  }

  method ParseAll(graph: StreamGraph, tok: Tokenizer, configs: seq<IpConfig>, nodes: seq<StreamNode>) returns (ok: bool)
    requires Fit(configs, nodes) && graph.Valid() && graph.vertices == [] && graph.Links() == {}
    requires forall node | node in nodes :: node.portsMaster == node.portsSlave == map[]
    modifies graph, nodes
    ensures graph.Valid() && ok == AllReadable(tok, configs)
    ensures ok ==> graph.Links() == LinksOf(tok, configs, |configs|)
    ensures ok ==> forall i | 0 <= i < |nodes| :: HasParsed(tok, configs[i], nodes[i], graph.vertices)
  {
    LinksNone(tok, configs);
    hide StreamGraph.Valid, StreamGraph.Links, ReadableLength, Names, Declared, HasParsed, PortsReadable, LinksOf, IpConfig.Entries;
    for n := 0 to |nodes|
      invariant graph.Valid() && graph.Links() == LinksOf(tok, configs, n)
      invariant forall i | 0 <= i < n :: PortsReadable(tok, configs[i])
      invariant forall i | 0 <= i < n :: HasParsed(tok, configs[i], nodes[i], graph.vertices)
      invariant forall i | n <= i < |nodes| :: nodes[i].portsMaster == nodes[i].portsSlave == map[]
    {
      ghost var before := graph.vertices;
      var read := ParseNode(graph, tok, configs[n], nodes[n]);
      if !read {
        assert configs[n] in configs;
        return false;
      }
      LinksNext(tok, configs, n);
      AllStillParsed(tok, configs, nodes, n, before, graph.vertices);
    }
    return true;
  }

  lemma LinksNone(tok: Tokenizer, configs: seq<IpConfig>)
    ensures LinksOf(tok, configs, 0) == {}
  {
  }

  lemma LinksNext(tok: Tokenizer, configs: seq<IpConfig>, n: nat)
    requires n < |configs|
    ensures var c := configs[n];
      LinksOf(tok, configs, n + 1) ==
        LinksOf(tok, configs, n) + Declared(tok, c.name, c.Entries(), ReadableLength(tok, c.Entries()))
  {
  }

  method ParseNode(graph: StreamGraph, tok: Tokenizer, c: IpConfig, node: StreamNode) returns (ok: bool)
    requires graph.Valid() && node.name == c.name && node.portsMaster == node.portsSlave == map[]
    modifies graph, node
    ensures graph.Valid() && ok == PortsReadable(tok, c)
    ensures ok ==> old(graph.vertices) <= graph.vertices && HasParsed(tok, c, node, graph.vertices)
    ensures ok ==> graph.Links() == old(graph.Links()) + Declared(tok, c.name, c.Entries(), ReadableLength(tok, c.Entries()))
  {
    hide StreamGraph.Valid, StreamGraph.Links, ReadableLength, Names, Declared;
    ok := node.Parse(graph, tok, c.ports);
  }

  lemma AllStillParsed(tok: Tokenizer, configs: seq<IpConfig>, nodes: seq<StreamNode>, n: nat,
                       before: seq<StreamVertex>, after: seq<StreamVertex>)
    requires n <= |nodes| == |configs| && before <= after
    requires forall i | 0 <= i < n :: HasParsed(tok, configs[i], nodes[i], before)
    ensures forall i | 0 <= i < n :: HasParsed(tok, configs[i], nodes[i], after)
  {
    hide HasParsed;
    forall i | 0 <= i < n ensures HasParsed(tok, configs[i], nodes[i], after) {
      StillParsed(tok, configs[i], nodes[i], before, after);
    }
  }

  method InitAll(graph: StreamGraph, tok: Tokenizer, configs: seq<IpConfig>, nodes: seq<StreamNode>)
    requires Fit(configs, nodes) && graph.Valid()
    requires forall i | 0 <= i < |nodes| :: HasParsed(tok, configs[i], nodes[i], graph.vertices)
    modifies graph`edges
    ensures graph.Valid() && graph.Links() == old(graph.Links()) + CrossingsOf(tok, configs, |configs|)
  {
    hide StreamGraph.Valid, StreamGraph.Links, Crossing, PortsOf;
    for n := 0 to |nodes|
      invariant graph.Valid() && graph.Links() == old(graph.Links()) + CrossingsOf(tok, configs, n)
    {
      if configs[n].isSwitch {
        nodes[n].InitEdges(graph);
      }
    }
  }

  // ------------------------------------------------------------ loopbacks

  /** The two ports, looked up by name, are joined by some path. */
  ghost predicate Loops(net: Net, node: StreamNode, master: string, slave: string)
    reads node
  {
    && master in node.portsMaster && slave in node.portsSlave
    && net.Reachable(StreamVertex(node.name, master, true), StreamVertex(node.name, slave, false))
  }

  ghost predicate HasLoop(net: Net, node: StreamNode)
    reads node
  {
    exists master, slave :: Loops(net, node, master, slave)
  }

  /** Empty names stand for "none found". */
  ghost predicate NamesUsable(node: StreamNode)
    reads node
  {
    "" !in node.portsMaster && "" !in node.portsSlave
  }

  /** The order in which a map with strings as keys is gone through. */
  predicate Leq(a: string, b: string) {
    a == [] || (b != [] && (a[0] < b[0] || (a[0] == b[0] && Leq(a[1..], b[1..]))))
  }

  lemma {:induction false} LeqSelf(a: string)
    ensures Leq(a, a)
  {
    if a != [] {
      LeqSelf(a[1..]);
    }
  }

  lemma {:induction false} LeqTotal(a: string, b: string)
    ensures Leq(a, b) || Leq(b, a)
    decreases |a|
  {
    if a != [] && b != [] {
      LeqTotal(a[1..], b[1..]);
    }
  }

  lemma {:induction false} LeqTransitive(a: string, b: string, c: string)
    requires Leq(a, b) && Leq(b, c)
    ensures Leq(a, c)
    decreases |a|
  {
    if a != [] && a[0] == b[0] == c[0] {
      LeqTransitive(a[1..], b[1..], c[1..]);
    }
  }

  predicate IsFirst(name: string, names: set<string>) {
    name in names && forall other | other in names :: Leq(name, other)
  }

  lemma {:induction false} FirstExists(names: set<string>)
    requires names != {}
    ensures exists name | name in names :: IsFirst(name, names)
    decreases |names|
  {
    hide Leq;
    var some :| some in names;
    var rest := names - {some};
    LeqSelf(some);
    if rest == {} {
      assert names == {some} && IsFirst(some, names);
    } else {
      FirstExists(rest);
      var first :| first in rest && IsFirst(first, rest);
      LeqTotal(first, some);
      if Leq(first, some) {
        FirstIsFirst(names, rest, some, first);
      } else {
        SomeIsFirst(names, rest, some, first);
      }
    }
  }

  lemma FirstIsFirst(names: set<string>, rest: set<string>, some: string, first: string)
    requires rest == names - {some} && IsFirst(first, rest) && Leq(first, some)
    ensures IsFirst(first, names)
  {
    hide Leq;
    forall other | other in names ensures Leq(first, other) {
      assert other == some || other in rest;
    }
  }

  lemma SomeIsFirst(names: set<string>, rest: set<string>, some: string, first: string)
    requires rest == names - {some} && IsFirst(first, rest) && Leq(some, first) && some in names
    ensures IsFirst(some, names)
  {
    LeqSelf(some);
    hide Leq;
    forall other | other in names ensures Leq(some, other) {
      if other in rest {
        LeqTransitive(some, first, other);
      }
    }
  }

  /** Of all joined pairs, the first in the order of the names of the masters,
      then of the slaves. */
  ghost predicate FirstLoop(net: Net, node: StreamNode, ports: (string, string))
    reads node
  {
    && Loops(net, node, ports.0, ports.1)
    && forall m, s | Loops(net, node, m, s) :: Leq(ports.0, m) && (m == ports.0 ==> Leq(ports.1, s))
  }

  method GetLoopbackPorts(net: Net, plan: Planner, graph: StreamGraph, node: StreamNode) returns (ports: (string, string))
    requires FindsWalks(net, plan) && node.Owns(graph.vertices)
    ensures if HasLoop(net, node) then FirstLoop(net, node, ports) else ports == ("", "")
  {
    hide Leq;
    var masters := node.portsMaster.Keys;
    while masters != {}
      invariant masters <= node.portsMaster.Keys
      invariant forall m, s | m in node.portsMaster.Keys - masters :: !Loops(net, node, m, s)
    {
      FirstExists(masters);
      var master :| master in masters && IsFirst(master, masters);
      var slaves := node.portsSlave.Keys;
      while slaves != {}
        invariant slaves <= node.portsSlave.Keys
        invariant forall s | s in node.portsSlave.Keys - slaves :: !Loops(net, node, master, s)
      {
        FirstExists(slaves);
        var slave :| slave in slaves && IsFirst(slave, slaves);
        var from, to := graph.vertices[node.portsMaster[master]], graph.vertices[node.portsSlave[slave]];
        if plan(from, to).Some? {
          assert net.WalkBetween(plan(from, to).value, from, to);
          assert FirstLoop(net, node, (master, slave));
          return (master, slave);
        }
        slaves := slaves - {slave};
      }
      masters := masters - {master};
    }
    return ("", "");
  }

  lemma {:induction false} LeqOneWay(a: string, b: string)
    requires Leq(a, b) && Leq(b, a)
    ensures a == b
    decreases |a|
  {
    if a != [] {
      LeqOneWay(a[1..], b[1..]);
      assert a == [a[0]] + a[1..] && b == [b[0]] + b[1..];
    }
  }

  lemma OneFirst(net: Net, node: StreamNode, ports: (string, string), other: (string, string))
    requires FirstLoop(net, node, ports) && FirstLoop(net, node, other)
    ensures ports == other
  {
    hide Loops, Leq;
    LeqOneWay(ports.0, other.0);
    LeqOneWay(ports.1, other.1);
  }

  method LoopbackPossible(net: Net, plan: Planner, graph: StreamGraph, node: StreamNode) returns (possible: bool)
    requires FindsWalks(net, plan) && node.Owns(graph.vertices)
    ensures possible <==> exists ports :: FirstLoop(net, node, ports) && ports.0 != "" && ports.1 != ""
    ensures NamesUsable(node) ==> possible == HasLoop(net, node)
  {
    var ports := GetLoopbackPorts(net, plan, graph, node);
    forall other | FirstLoop(net, node, other) ensures other == ports {
      OneFirst(net, node, ports, other);
    }
    possible := ports.0 != "" && ports.1 != "";
  }

  lemma NoWayIsRefused(net: Net, plan: Planner, cfg: Routing.Config, self: string, from: StreamVertex, to: StreamVertex)
    requires Shortest(net, plan) && !net.Reachable(from, to)
    ensures ConnectHops(net, plan, cfg, self, from, to) == (Done(false), cfg)
  {
  }

  /** None stands for following the null pointer that `operator[]` leaves for
      the missing name. A loopback that is reported carries data sent by the IP
      back to it, and with a complete configuration one is made exactly when there
      is one. (If the IP has ports of the empty name, "none found" leads to these.) */
  method ConnectLoopback(card: StreamCard, plan: Planner, graph: StreamGraph, node: StreamNode)
    returns (outcome: Option<Outcome>, ghost route: Path)
    requires card.Valid() && Shortest(card.net, plan) && card.net.NoSelfLink()
    requires node.Owns(graph.vertices)
    modifies card.switches.Values
    ensures card.Valid()
    ensures outcome.None? <==> !HasLoop(card.net, node) && !("" in node.portsMaster && "" in node.portsSlave)
    ensures outcome.Some? && !HasLoop(card.net, node) ==> outcome == Some(Done(false))
    ensures HasLoop(card.net, node) && Complete(card.net) ==> outcome == Some(Done(true))
    ensures outcome == Some(Done(true)) ==>
      && |route| > 1 && route[0].node == route[|route| - 1].node == node.name
      && route[0].isMaster && !route[|route| - 1].isMaster
      && FirstLoop(card.net, node, (route[0].port, route[|route| - 1].port))
      && card.net.Walk(route)
      && forall i | 0 <= i < |route| - 1 :: HardwareCarries(card.net, card.Muxes(), route[i], route[i + 1])
  {
    var ports := GetLoopbackPorts(card.net, plan, graph, node);
    hide ConnectHops, Complete, Shortest, HardwareCarries, Net.NoSelfLink, StreamCard.Valid;
    route := [];
    if ports.0 !in node.portsMaster || ports.1 !in node.portsSlave {
      return None, [];
    }
    var from, to := graph.vertices[node.portsMaster[ports.0]], graph.vertices[node.portsSlave[ports.1]];
    assert Loops(card.net, node, ports.0, ports.1) <==> card.net.Reachable(from, to);
    if !HasLoop(card.net, node) {
      NoWayIsRefused(card.net, plan, card.Tables(), node.name, from, to);
    } else if Complete(card.net) {
      card.TablesOk();
      ConnectSucceedsIff(card.net, plan, card.Tables(), node.name, from, to);
    }
    var result;
    result, route := card.Establish(plan, node.name, from, to);
    return Some(result), route;
  }
}
