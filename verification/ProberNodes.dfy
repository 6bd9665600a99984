/** What the prober knows of the nodes and when it calls one ready: prober/prober/node_states.go.
    Maps are walked in no particular order. */
module ProberNodes {
  import opened Option
  import opened Text

  datatype Endpoint = Endpoint(status: string, dc: string)

  /** `simple` holds how the node sees each other node, `endpoint` what gossip says of the node itself. */
  datatype Node = Node(simple: map<string, string>, endpoint: Endpoint)

  const EMPTY := Node(map[], Endpoint("", ""))

  /** The answer of a node to a poll. */
  datatype Response = Response(status: nat, simple: map<string, string>, endpoints: map<string, Endpoint>)

  const OK := 200
  const SERVER_ERROR := 500

  /** strings.ToLower, as far as comparisons with "normal" and "up" can tell. */
  function Lower(s: string): string {
    seq(|s|, i requires 0 <= i < |s| => if 'A' <= s[i] <= 'Z' then (s[i] as int + 32) as char else s[i])
  }

  function Get(m: map<string, string>, key: string): string {
    if key in m then m[key] else ""
  }

  predicate SaysUp(simple: map<string, string>, ip: string) {
    Lower(Get(simple, ip)) == "up"
  }

  /** The node is up by its own account; only then its view of others counts. */
  predicate Healthy(n: Node, ip: string) {
    Lower(n.endpoint.status) == "normal" && SaysUp(n.simple, ip)
  }

  /** The node says of the other that it is up, in capital or small letters. */
  lemma SaysUpMeans(simple: map<string, string>, ip: string)
    ensures SaysUp(simple, ip) <==> ip in simple && simple[ip] in {"UP", "Up", "uP", "up"}
  {
    if ip in simple && |simple[ip]| == 2 {
      var s := simple[ip];
      assert Lower(s)[0] == 'u' && Lower(s)[1] == 'p' <==> s[0] in {'u', 'U'} && s[1] in {'p', 'P'};
      assert s == [s[0], s[1]];
    }
    assert ip in simple && simple[ip] in {"UP", "Up", "uP", "up"} ==> |Lower(simple[ip])| == 2;
  }

  /** A healthy node says of itself that it is up, and gossip says it is in the normal state, in letters of
      either case. */
  lemma HealthyMeans(n: Node, ip: string)
    ensures Healthy(n, ip) <==>
              && SaysUp(n.simple, ip) && |n.endpoint.status| == 6
              && forall i :: 0 <= i < 6 ==> n.endpoint.status[i] in {"normal"[i], "NORMAL"[i]}
  {
    hide SaysUp;
    var s := n.endpoint.status;
    var t := Lower(s);
    if |s| == 6 {
      assert forall i :: 0 <= i < 6 ==> (t[i] == "normal"[i] <==> s[i] in {"normal"[i], "NORMAL"[i]});
    }
  }

  /** Somebody healthy is there, and all healthy nodes see `ip` as up. */
  ghost predicate Ready(nodes: map<string, Node>, ip: string) {
    && (exists p :: p in nodes && Healthy(nodes[p], p))
    && (forall p :: p in nodes && Healthy(nodes[p], p) ==> SaysUp(nodes[p].simple, ip))
  }

  /******* What a poll teaches *******/

  function OwnEndpoint(r: Response, ip: string): Endpoint {
    if ip in r.endpoints then r.endpoints[ip] else Endpoint("", "")
  }

  /** A node that answered for itself. */
  predicate Answered(responses: map<string, Response>, ip: string) {
    ip in responses && responses[ip].status == OK && OwnEndpoint(responses[ip], ip).dc != ""
  }

  /** `q` answered and named `ip` as a node of one of our DCs. */
  predicate Names(responses: map<string, Response>, dcs: seq<string>, q: string, ip: string) {
    q in responses && responses[q].status == OK && ip in responses[q].endpoints && responses[q].endpoints[ip].dc in dcs
  }

  /** The order-free account of the nodes known after a poll. */
  ghost predicate Known(responses: map<string, Response>, dcs: seq<string>, ip: string) {
    if ip in responses then Answered(responses, ip) else exists q :: Names(responses, dcs, q, ip)
  }

  function Polled(r: Response, ip: string): Node {
    if r.status == OK then Node(r.simple, OwnEndpoint(r, ip)) else Node(map[ip := Itoa(r.status)], Endpoint("", ""))
  }

  ghost predicate FromPeer(responses: map<string, Response>, dcs: seq<string>, ip: string, n: Node) {
    exists q :: Names(responses, dcs, q, ip) && n == Node(map[], responses[q].endpoints[ip])
  }

  /** The nodes after a poll: exactly the known ones, with what they or some peer said. */
  ghost predicate AfterPoll(responses: map<string, Response>, dcs: seq<string>, nodes: map<string, Node>) {
    && (forall ip :: ip in nodes <==> Known(responses, dcs, ip))
    && (forall ip :: ip in nodes && ip in responses ==> nodes[ip] == Polled(responses[ip], ip))
    && (forall ip :: ip in nodes && ip !in responses ==> FromPeer(responses, dcs, ip, nodes[ip]))
  }

  /** A node that is up by its own answer to the poll. */
  predicate HealthyAnswer(responses: map<string, Response>, q: string) {
    Answered(responses, q) && Healthy(Polled(responses[q], q), q)
  }

  /** Readiness after a poll depends on the answers alone, not on the order they were looked at:
      the healthy answers are not empty and all report the node up. */
  lemma ReadyAfterPoll(responses: map<string, Response>, dcs: seq<string>, nodes: map<string, Node>, ip: string)
    requires AfterPoll(responses, dcs, nodes)
    ensures Ready(nodes, ip) <==>
            && (exists q :: HealthyAnswer(responses, q))
            && (forall q :: HealthyAnswer(responses, q) ==> SaysUp(responses[q].simple, ip))
  {
    forall p ensures p in nodes && Healthy(nodes[p], p) <==> HealthyAnswer(responses, p) {
      if p in nodes && p !in responses {
        var q :| Names(responses, dcs, q, p) && nodes[p] == Node(map[], responses[q].endpoints[p]);
        assert !SaysUp(nodes[p].simple, p);
      }
      if HealthyAnswer(responses, p) {
        assert Known(responses, dcs, p);
      }
    }
    forall q | HealthyAnswer(responses, q) ensures nodes[q].simple == responses[q].simple {
    }
  }

  /** A known node whose poll fails is forgotten, whoever names it. */
  lemma FailedPollForgets(responses: map<string, Response>, dcs: seq<string>, nodes: map<string, Node>, ip: string)
    requires AfterPoll(responses, dcs, nodes) && ip in responses && responses[ip].status != 200
    ensures ip !in nodes
  {
    assert !Known(responses, dcs, ip);
  }

  /** An unknown node that asks changes nobody's verdict. */
  lemma RegisteringKeepsVerdicts(nodes: map<string, Node>, newcomer: string, ip: string)
    requires newcomer !in nodes
    ensures Ready(nodes[newcomer := EMPTY], ip) <==> Ready(nodes, ip)
  {
    var more := nodes[newcomer := EMPTY];
    assert Lower("") == "";
    assert !Healthy(more[newcomer], newcomer);
    forall p ensures (p in more && Healthy(more[p], p)) <==> (p in nodes && Healthy(nodes[p], p)) {
    }
    forall p | p in nodes ensures more[p] == nodes[p] {
    }
  }

  function ViewOf(n: Node, ip: string): string {
    if ip in n.simple then n.simple[ip] else "?"
  }

  /** The walk of isNodeReady over the nodes in `done`. */
  ghost predicate Walked(nodes: map<string, Node>, ip: string, done: set<string>, healthy: set<string>, unready: seq<string>) {
    && done <= nodes.Keys
    && (forall p :: p in healthy <==> p in done && Healthy(nodes[p], p))
    && (unready == [] <==> forall p :: p in healthy ==> SaysUp(nodes[p].simple, ip))
  }

  lemma NothingWalked(nodes: map<string, Node>, ip: string)
    ensures Walked(nodes, ip, nodes.Keys - nodes.Keys, {}, [])
  {
  }

  lemma WalkedOneMore(nodes: map<string, Node>, ip: string, done: set<string>, healthy: set<string>, unready: seq<string>, p: string)
    requires Walked(nodes, ip, done, healthy, unready) && p in nodes && p !in done
    ensures p !in healthy
    ensures !Healthy(nodes[p], p) ==> Walked(nodes, ip, done + {p}, healthy, unready)
    ensures Healthy(nodes[p], p) && SaysUp(nodes[p].simple, ip) ==> Walked(nodes, ip, done + {p}, healthy + {p}, unready)
    ensures Healthy(nodes[p], p) && !SaysUp(nodes[p].simple, ip) ==> Walked(nodes, ip, done + {p}, healthy + {p}, unready + [p])
  {
    hide Healthy, SaysUp;
  }

  lemma WalkedIsReady(nodes: map<string, Node>, ip: string, healthy: set<string>, unready: seq<string>)
    requires Walked(nodes, ip, nodes.Keys, healthy, unready)
    ensures Ready(nodes, ip) <==> |healthy| != 0 && unready == []
  {
    hide Healthy, SaysUp;
    assert |healthy| != 0 <==> exists p :: p in healthy;
  }

  /******* One walk *******/

  /** The peers of one answer that are new and of own DCs. */
  function NewPeers(r: Response, dcs: seq<string>, states: map<string, Node>, seen: set<string>): map<string, Node> {
    map x | x in r.endpoints && x in seen && x !in states && r.endpoints[x].dc in dcs :: Node(map[], r.endpoints[x])
  }

  /** What one answer adds; its own peers are all different, so their order does not matter. */
  function AfterOne(responses: map<string, Response>, dcs: seq<string>, states: map<string, Node>, ip: string): map<string, Node>
    requires ip in responses
  {
    var r := responses[ip];
    (if r.status == OK then states + NewPeers(r, dcs, states, r.endpoints.Keys) else states)[ip := Polled(r, ip)]
  }

  /** The states collected when the answers are walked in this order. */
  function Walk(responses: map<string, Response>, dcs: seq<string>, order: seq<string>): map<string, Node>
    requires forall ip :: ip in order ==> ip in responses
  {
    if order == [] then map[]
    else AfterOne(responses, dcs, Walk(responses, dcs, order[..|order| - 1]), order[|order| - 1])
  }

  /** Nodes without a DC are removed after the walk. */
  function Remaining(states: map<string, Node>): map<string, Node> {
    map ip | ip in states && states[ip].endpoint.dc != "" :: states[ip]
  }

  lemma NoPeer(r: Response, dcs: seq<string>, states: map<string, Node>)
    ensures states == states + NewPeers(r, dcs, states, r.endpoints.Keys - r.endpoints.Keys)
  {
  }

  lemma OneMorePeer(r: Response, dcs: seq<string>, states: map<string, Node>, seen: set<string>, x: string)
    requires x in r.endpoints && x !in seen
    ensures states + NewPeers(r, dcs, states, seen + {x})
            == if x !in states && r.endpoints[x].dc in dcs then (states + NewPeers(r, dcs, states, seen))[x := Node(map[], r.endpoints[x])]
               else states + NewPeers(r, dcs, states, seen)
    ensures x in states + NewPeers(r, dcs, states, seen) <==> x in states
  {
  }

  /******* The states collected while the answers are walked *******/

  /** As FromPeer, from the answers walked so far. */
  ghost predicate FromPeerIn(responses: map<string, Response>, dcs: seq<string>, done: set<string>, ip: string, n: Node) {
    exists q :: q in done && Names(responses, dcs, q, ip) && n == Node(map[], responses[q].endpoints[ip])
  }

  ghost predicate Collected(responses: map<string, Response>, dcs: seq<string>, done: set<string>, states: map<string, Node>) {
    && done <= responses.Keys
    && (forall p :: p in done ==> p in states && states[p] == Polled(responses[p], p))
    && (forall p :: p in states && p !in done ==> FromPeerIn(responses, dcs, done, p, states[p]))
    && (forall q, p :: q in done && Names(responses, dcs, q, p) ==> p in states)
  }

  lemma NothingCollected(responses: map<string, Response>, dcs: seq<string>)
    ensures Collected(responses, dcs, {}, map[])
  {
  }

  lemma CollectOneAnswer(responses: map<string, Response>, dcs: seq<string>, done: set<string>, states: map<string, Node>, ip: string)
    requires Collected(responses, dcs, done, states) && ip in responses
    ensures Collected(responses, dcs, done + {ip}, AfterOne(responses, dcs, states, ip))
  {
    hide Polled;
    var more := AfterOne(responses, dcs, states, ip);
    forall p | p in more && p !in done + {ip} ensures FromPeerIn(responses, dcs, done + {ip}, p, more[p]) {
      if p in states {
        var q :| q in done && Names(responses, dcs, q, p) && states[p] == Node(map[], responses[q].endpoints[p]);
        assert q in done + {ip} && more[p] == states[p];
      } else {
        assert Names(responses, dcs, ip, p) && ip in done + {ip};
      }
    }
    forall p | p in done + {ip} ensures p in more && more[p] == Polled(responses[p], p) {
    }
    forall q, p | q in done + {ip} && Names(responses, dcs, q, p) ensures p in more {
      if q != ip {
        assert p in states;
      }
    }
  }

  /** The walk is over and the nodes without a DC are removed. */
  lemma CollectedIsAfterPoll(responses: map<string, Response>, dcs: seq<string>, states: map<string, Node>, nodes: map<string, Node>)
    requires "" !in dcs && Collected(responses, dcs, responses.Keys, states)
    requires nodes == Remaining(states)
    ensures AfterPoll(responses, dcs, nodes)
  {
    forall ip ensures ip in nodes <==> Known(responses, dcs, ip) {
      if ip in responses {
        assert states[ip] == Polled(responses[ip], ip);
      } else if ip in states {
        var q :| q in responses.Keys && Names(responses, dcs, q, ip) && states[ip] == Node(map[], responses[q].endpoints[ip]);
      }
    }
    forall ip | ip in nodes && ip !in responses ensures FromPeer(responses, dcs, ip, nodes[ip]) {
      assert FromPeerIn(responses, dcs, responses.Keys, ip, states[ip]);
    }
  }

  lemma {:induction false} WalkIsCollected(responses: map<string, Response>, dcs: seq<string>, order: seq<string>)
    requires forall ip :: ip in order ==> ip in responses
    ensures Collected(responses, dcs, (set ip | ip in order), Walk(responses, dcs, order))
  {
    hide Collected, AfterOne;
    if order == [] {
      NothingCollected(responses, dcs);
      assert (set ip | ip in order) == {};
    } else {
      var front, last := order[..|order| - 1], order[|order| - 1];
      WalkIsCollected(responses, dcs, front);
      CollectOneAnswer(responses, dcs, (set ip | ip in front), Walk(responses, dcs, front), last);
      assert (set ip | ip in order) == (set ip | ip in front) + {last};
    }
  }

  /** With named DCs every walk of all answers gives the nodes of the order-free account. */
  lemma WalkIsAfterPoll(responses: map<string, Response>, dcs: seq<string>, order: seq<string>)
    requires "" !in dcs && forall ip :: ip in order <==> ip in responses
    ensures AfterPoll(responses, dcs, Remaining(Walk(responses, dcs, order)))
  {
    hide Collected, AfterPoll, Walk;
    WalkIsCollected(responses, dcs, order);
    assert (set ip | ip in order) == responses.Keys;
    CollectedIsAfterPoll(responses, dcs, Walk(responses, dcs, order), Remaining(Walk(responses, dcs, order)));
  }

  /** The first answer of a walk decides the DC of an unpolled node it names. */
  lemma {:induction false} FirstAnswerDecides(responses: map<string, Response>, dcs: seq<string>, order: seq<string>, x: string)
    requires order != [] && (forall ip :: ip in order ==> ip in responses)
    requires x !in responses && Names(responses, dcs, order[0], x)
    ensures var states := Walk(responses, dcs, order);
            x in states && states[x] == Node(map[], responses[order[0]].endpoints[x])
  {
    hide Polled;
    var front := order[..|order| - 1];
    if |order| > 1 {
      assert front[0] == order[0];
      FirstAnswerDecides(responses, dcs, front, x);
    } else {
      assert Walk(responses, dcs, front) == map[];
    }
  }

  /** A walk meets every answer once. */
  ghost predicate IsOrder(responses: map<string, Response>, order: seq<string>) {
    |order| == |responses.Keys| && (forall ip :: ip in order <==> ip in responses)
  }

  ghost predicate Survives(responses: map<string, Response>, dcs: seq<string>, x: string, order: seq<string>) {
    IsOrder(responses, order) && x in Remaining(Walk(responses, dcs, order))
  }

  ghost predicate Lost(responses: map<string, Response>, dcs: seq<string>, x: string, order: seq<string>) {
    IsOrder(responses, order) && x !in Remaining(Walk(responses, dcs, order))
  }

  predicate Places(responses: map<string, Response>, dcs: seq<string>, q: string, x: string, named: bool) {
    Names(responses, dcs, q, x) && (responses[q].endpoints[x].dc != "") == named
  }

  /** Why the DCs must have names: whether an unpolled node survives depends on the order of the walk
      exactly when one answer places it in a named DC of ours and another in an unnamed one. */
  lemma OrderMattersExactlyWhen(responses: map<string, Response>, dcs: seq<string>, x: string)
    requires x !in responses
    ensures (exists o :: Survives(responses, dcs, x, o)) && (exists o :: Lost(responses, dcs, x, o))
            <==> (exists q :: Places(responses, dcs, q, x, true)) && (exists q :: Places(responses, dcs, q, x, false))
  {
    hide Walk, Places;
    forall q, named | Places(responses, dcs, q, x, named)
      ensures exists o :: if named then Survives(responses, dcs, x, o) else Lost(responses, dcs, x, o)
    {
      var o := StartingWith(responses, dcs, q, x, named);
    }
    if o :| Survives(responses, dcs, x, o) {
      var q := PlacedInWalk(responses, dcs, o, x);
      if o' :| Lost(responses, dcs, x, o') {
        LostIsPlaced(responses, dcs, o', x, q);
        var q' := PlacedInWalk(responses, dcs, o', x);
      }
    }
  }

  /** A walk that starts with this answer. */
  lemma StartingWith(responses: map<string, Response>, dcs: seq<string>, q: string, x: string, named: bool) returns (order: seq<string>)
    requires x !in responses && Places(responses, dcs, q, x, named)
    ensures if named then Survives(responses, dcs, x, order) else Lost(responses, dcs, x, order)
  {
    hide Walk;
    order := Enumeration(responses.Keys - {q});
    order := [q] + order;
    FirstAnswerDecides(responses, dcs, order, x);
  }

  lemma {:induction false} Enumeration(s: set<string>) returns (order: seq<string>)
    ensures |order| == |s| && forall x :: x in order <==> x in s
  {
    order := [];
    if x :| x in s {
      order := Enumeration(s - {x});
      order := [x] + order;
    }
  }

  lemma PlacedInWalk(responses: map<string, Response>, dcs: seq<string>, order: seq<string>, x: string) returns (q: string)
    requires x !in responses && IsOrder(responses, order) && x in Walk(responses, dcs, order)
    ensures Places(responses, dcs, q, x, Walk(responses, dcs, order)[x].endpoint.dc != "")
  {
    hide Walk;
    WalkIsCollected(responses, dcs, order);
    var states := Walk(responses, dcs, order);
    assert FromPeerIn(responses, dcs, (set ip | ip in order), x, states[x]);
    q :| Names(responses, dcs, q, x) && states[x] == Node(map[], responses[q].endpoints[x]);
  }

  lemma LostIsPlaced(responses: map<string, Response>, dcs: seq<string>, order: seq<string>, x: string, q: string)
    requires Lost(responses, dcs, x, order) && Places(responses, dcs, q, x, true)
    ensures x in Walk(responses, dcs, order) && Walk(responses, dcs, order)[x].endpoint.dc == ""
  {
    hide Walk;
    WalkIsCollected(responses, dcs, order);
    assert q in (set ip | ip in order);
  }

  class Prober {
    var nodes: map<string, Node>
    var podIPs: map<string, string>
    var dcs: seq<string>

    constructor (dcs: seq<string>)
      ensures nodes == map[] && podIPs == map[] && this.dcs == dcs
    {
      nodes, podIPs, this.dcs := map[], map[], dcs;
    }

    method ProcessReadinessProbe(podIP: string, broadcastIP: string) returns (ready: bool, view: map<string, string>)
      modifies `nodes, `podIPs
      ensures ready <==> Ready(old(nodes), "/" + broadcastIP)
      ensures nodes == if "/" + broadcastIP in old(nodes) then old(nodes) else old(nodes)["/" + broadcastIP := EMPTY]
      ensures podIPs == if "/" + broadcastIP in old(nodes) then old(podIPs) else old(podIPs)["/" + broadcastIP := "/" + podIP]
      ensures view.Keys == nodes.Keys
    {
      var ip := "/" + broadcastIP;
      if ip !in nodes {
        RegisteringKeepsVerdicts(nodes, ip, ip);
        nodes := nodes[ip := EMPTY];
        podIPs := podIPs[ip := "/" + podIP];
      }
      ready, view := IsNodeReady(ip);
    }

    /** isNodeReady: counts the nodes it ignores and the healthy nodes that do not see `ip` as up. */
    method IsNodeReady(ip: string) returns (ready: bool, view: map<string, string>)
      ensures ready <==> Ready(nodes, ip)
      ensures view.Keys == nodes.Keys
      ensures forall p :: p in nodes ==> view[p] == ViewOf(nodes[p], ip)
    {
      hide Healthy, SaysUp, ViewOf, Walked;
      var peersUnreadyView: seq<string> := [];
      var ignoredPeerNodes: seq<string> := [];
      view := map[];
      var rest := nodes.Keys;
      NothingWalked(nodes, ip);
      ghost var healthy: set<string> := {};
      while rest != {}
        invariant rest <= nodes.Keys && view.Keys == nodes.Keys - rest
        invariant forall p :: p in view ==> view[p] == ViewOf(nodes[p], ip)
        invariant |ignoredPeerNodes| + |healthy| + |rest| == |nodes.Keys|
        invariant Walked(nodes, ip, nodes.Keys - rest, healthy, peersUnreadyView)
        decreases |rest|
      {
        var p :| p in rest;
        WalkedOneMore(nodes, ip, nodes.Keys - rest, healthy, peersUnreadyView, p);
        assert nodes.Keys - rest + {p} == nodes.Keys - (rest - {p});
        rest := rest - {p};
        view := view[p := ViewOf(nodes[p], ip)];
        if !Healthy(nodes[p], p) {
          ignoredPeerNodes := ignoredPeerNodes + [p];
          continue;
        }
        healthy := healthy + {p};
        if !SaysUp(nodes[p].simple, ip) {
          peersUnreadyView := peersUnreadyView + [p];
        }
      }
      assert nodes.Keys - rest == nodes.Keys;
      WalkedIsReady(nodes, ip, healthy, peersUnreadyView);
      if |ignoredPeerNodes| == |nodes.Keys| {
        return false, view;
      }
      return |peersUnreadyView| == 0, view;
    }

    /** allNodesStates: a request that fails counts as a server error. */
    method AllNodesStates(ask: string -> Option<Response>) returns (responses: map<string, Response>)
      ensures responses.Keys == nodes.Keys
      ensures forall ip :: ip in nodes ==>
                responses[ip] == match ask(Get(podIPs, ip)) case Some(r) => r case None => Response(500, map[], map[])
    {
      responses := map[];
      var rest := nodes.Keys;
      while rest != {}
        invariant rest <= nodes.Keys && responses.Keys == nodes.Keys - rest
        invariant forall ip :: ip in responses ==>
                    responses[ip] == match ask(Get(podIPs, ip)) case Some(r) => r case None => Response(SERVER_ERROR, map[], map[])
        decreases |rest|
      {
        var ip :| ip in rest;
        rest := rest - {ip};
        match ask(Get(podIPs, ip)) {
          case Some(r) => responses := responses[ip := r];
          case None => responses := responses[ip := Response(SERVER_ERROR, map[], map[])];
        }
      }
    }

    /** The loop over the peers of one answer. */
    method AddPeers(r: Response, states: map<string, Node>) returns (states': map<string, Node>)
      ensures states' == states + NewPeers(r, dcs, states, r.endpoints.Keys)
    {
      hide NewPeers;
      states' := states;
      NoPeer(r, dcs, states);
      var left := r.endpoints.Keys;
      while left != {}
        invariant left <= r.endpoints.Keys
        invariant states' == states + NewPeers(r, dcs, states, r.endpoints.Keys - left)
        decreases |left|
      {
        var x :| x in left;
        OneMorePeer(r, dcs, states, r.endpoints.Keys - left, x);
        assert r.endpoints.Keys - left + {x} == r.endpoints.Keys - (left - {x});
        left := left - {x};
        if x !in states' && r.endpoints[x].dc in dcs {
          states' := states'[x := Node(map[], r.endpoints[x])];
        }
      }
      assert r.endpoints.Keys - left == r.endpoints.Keys;
    }

    /** The body of the loop over the answers. */
    method CollectFrom(responses: map<string, Response>, states: map<string, Node>, ip: string)
      returns (states': map<string, Node>)
      requires ip in responses
      ensures states' == AfterOne(responses, dcs, states, ip)
    {
      hide NewPeers;
      states' := states;
      var newNodeState := EMPTY;
      if responses[ip].status == OK {
        newNodeState := Node(responses[ip].simple, OwnEndpoint(responses[ip], ip));
        states' := AddPeers(responses[ip], states);
      } else {
        newNodeState := Node(map[ip := Itoa(responses[ip].status)], Endpoint("", ""));
      }
      states' := states'[ip := newNodeState];
    }

    /** The loop that deletes the nodes without a DC. */
    method RemoveUnreferenced(states: map<string, Node>) returns (nodes: map<string, Node>)
      ensures nodes == Remaining(states)
    {
      nodes := states;
      var rest := states.Keys;
      while rest != {}
        invariant rest <= states.Keys
        invariant forall ip :: ip in nodes <==> ip in states && (ip in rest || states[ip].endpoint.dc != "")
        invariant forall ip :: ip in nodes ==> nodes[ip] == states[ip]
        decreases |rest|
      {
        var ip :| ip in rest;
        rest := rest - {ip};
        if states[ip].endpoint.dc == "" {
          nodes := nodes - {ip};
        }
      }
    }

    /** updateNodeStates, for the order in which the walk happens to go. */
    method UpdateNodeStates(ask: string -> Option<Response>)
      returns (ghost responses: map<string, Response>, ghost order: seq<string>)
      modifies `nodes
      ensures responses.Keys == old(nodes.Keys)
      ensures |order| == |responses.Keys| && (forall ip :: ip in order <==> ip in responses)
      ensures nodes == Remaining(Walk(responses, dcs, order))
      ensures "" !in dcs ==> AfterPoll(responses, dcs, nodes)
    {
      hide AfterPoll, AfterOne, Remaining;
      var answers := AllNodesStates(ask);
      responses, order := answers, [];
      var newNodeStates: map<string, Node> := map[];
      var rest := answers.Keys;
      while rest != {}
        invariant rest <= answers.Keys
        invariant |order| + |rest| == |answers.Keys| && (forall ip :: ip in order <==> ip in answers.Keys - rest)
        invariant newNodeStates == Walk(answers, dcs, order)
        decreases |rest|
      {
        var ip :| ip in rest;
        newNodeStates := CollectFrom(answers, newNodeStates, ip);
        rest := rest - {ip};
        assert (order + [ip])[..|order|] == order;
        order := order + [ip];
      }
      nodes := RemoveUnreferenced(newNodeStates);
      if "" !in dcs {
        WalkIsAfterPoll(answers, dcs, order);
      }
    }
  }
}
