/**
 Removing an interface point of a node, after `removeInterface` and its helpers in
 lib/ncl30-presenter/src/FormatterMediator.cpp: the ports that map to the point go with it, and
 the ports that map to those, up the composition tree; and so do the links that bind any of them.
 */
module Interfaces {

  /** An anchor, a port that maps to an interface point of a node, or a switch port with several mappings. */
  class InterfacePoint {
    const id: string
    const isAnchor: bool
    const isSwitch: bool
    const node: Node?
    const point: InterfacePoint?
    const mappings: seq<InterfacePoint>

    constructor (id: string, isAnchor: bool, isSwitch: bool, node: Node?, point: InterfacePoint?,
                 mappings: seq<InterfacePoint>)
      ensures this.id == id && this.isAnchor == isAnchor && this.isSwitch == isSwitch
      ensures this.node == node && this.point == point && this.mappings == mappings
    {
      this.id, this.isAnchor, this.isSwitch := id, isAnchor, isSwitch;
      this.node, this.point, this.mappings := node, point, mappings;
    }
  }

  datatype Bind = Bind(node: Node, point: InterfacePoint?)

  class Link {
    const id: string
    const binds: seq<Bind>

    constructor (id: string, binds: seq<Bind>)
      ensures this.id == id && this.binds == binds
    {
      this.id, this.binds := id, binds;
    }
  }

  /** A node of the document; the fields of composites are empty in the others. */
  class Node {
    const id: string
    const parent: Node?
    const isComposite: bool
    const isLinkComposition: bool
    const isEntity: bool
    ghost const depth: nat

    var anchors: seq<InterfacePoint>
    var ports: seq<InterfacePoint>
    var links: seq<Link>

    constructor (id: string, parent: Node?, isComposite: bool, isLinkComposition: bool, isEntity: bool)
      ensures this.id == id && this.parent == parent && this.isComposite == isComposite
      ensures this.isLinkComposition == isLinkComposition && this.isEntity == isEntity
      ensures depth == if parent == null then 0 else parent.depth + 1
      ensures anchors == [] && ports == [] && links == []
    {
      this.id, this.parent := id, parent;
      this.isComposite, this.isLinkComposition, this.isEntity := isComposite, isLinkComposition, isEntity;
      depth := if parent == null then 0 else parent.depth + 1;
      anchors, ports, links := [], [], [];
    }
  }

  /** An interface point of a node. */
  datatype Ref = Ref(node: Node, point: InterfacePoint)

  // ----- What depends on what

  /** The port maps to the point, directly or through one of its mappings. */
  predicate Maps(port: InterfacePoint, node: Node, point: InterfacePoint) {
    if port.isSwitch then
      exists k :: 0 <= k < |port.mappings| && port.mappings[k].node == node && port.mappings[k].point == point
    else port.node == node && port.point == point
  }

  /** The ports of every node, at one moment. */
  type Ports = map<Node, seq<InterfacePoint>>

  ghost predicate IsTree(nodes: set<Node>) {
    forall n :: n in nodes && n.parent != null ==> n.parent in nodes && n.parent.depth < n.depth
  }

  ghost function Mapping(ports: seq<InterfacePoint>, node: Node, point: InterfacePoint): (r: seq<InterfacePoint>)
    ensures forall q :: q in r ==> q in ports && Maps(q, node, point)
    ensures forall q :: q in ports && Maps(q, node, point) ==> q in r
  {
    if ports == [] then []
    else (if Maps(ports[0], node, point) then [ports[0]] else []) + Mapping(ports[1..], node, point)
  }

  /** The point, the ports of its parent that map to it, the ports that map to those, and so on. */
  ghost function Doomed(ps: Ports, node: Node, point: InterfacePoint): set<Ref>
    requires IsTree(ps.Keys) && node in ps
    decreases node.depth, 1, 0
  {
    {Ref(node, point)} +
    if node.parent == null then {}
    else DoomedAll(ps, node.parent, Mapping(ps[node.parent], node, point), node.depth)
  }

  ghost function DoomedAll(ps: Ports, node: Node, points: seq<InterfacePoint>, bound: nat): set<Ref>
    requires IsTree(ps.Keys) && node in ps && node.depth < bound
    decreases bound, 0, |points|
  {
    if points == [] then {} else Doomed(ps, node, points[0]) + DoomedAll(ps, node, points[1..], bound)
  }

  /** With a point, the set has every port that maps to it. */
  ghost predicate Closed(ps: Ports, s: set<Ref>) {
    forall x :: x in s && x.node.parent != null && x.node.parent in ps ==>
      forall q :: q in ps[x.node.parent] && Maps(q, x.node, x.point) ==> Ref(x.node.parent, q) in s
  }

  lemma {:induction false} DoomedAllHas(ps: Ports, node: Node, points: seq<InterfacePoint>, bound: nat,
                                        p: InterfacePoint)
    requires IsTree(ps.Keys) && node in ps && node.depth < bound && p in points
    ensures Ref(node, p) in DoomedAll(ps, node, points, bound)
  {
    if p != points[0] {
      DoomedAllHas(ps, node, points[1..], bound, p);
    }
  }

  lemma {:induction false} DoomedIsClosed(ps: Ports, node: Node, point: InterfacePoint)
    requires IsTree(ps.Keys) && node in ps
    ensures Closed(ps, Doomed(ps, node, point))
    decreases node.depth, 1, 0
  {
    if node.parent != null {
      var next := Mapping(ps[node.parent], node, point);
      DoomedAllIsClosed(ps, node.parent, next, node.depth);
      forall q | q in ps[node.parent] && Maps(q, node, point)
        ensures Ref(node.parent, q) in DoomedAll(ps, node.parent, next, node.depth)
      {
        DoomedAllHas(ps, node.parent, next, node.depth, q);
      }
    }
  }

  lemma {:induction false} DoomedAllIsClosed(ps: Ports, node: Node, points: seq<InterfacePoint>, bound: nat)
    requires IsTree(ps.Keys) && node in ps && node.depth < bound
    ensures Closed(ps, DoomedAll(ps, node, points, bound))
    decreases bound, 0, |points|
  {
    if points != [] {
      DoomedIsClosed(ps, node, points[0]);
      DoomedAllIsClosed(ps, node, points[1..], bound);
    }
  }

  /** It is the least such set: nothing is doomed but what depends on the point. */
  lemma {:induction false} DoomedIsLeast(ps: Ports, node: Node, point: InterfacePoint, s: set<Ref>)
    requires IsTree(ps.Keys) && node in ps && Closed(ps, s) && Ref(node, point) in s
    ensures Doomed(ps, node, point) <= s
    decreases node.depth, 1, 0
  {
    if node.parent != null {
      var next := Mapping(ps[node.parent], node, point);
      DoomedAllIsLeast(ps, node.parent, next, node.depth, s);
    }
  }

  lemma {:induction false} DoomedAllIsLeast(ps: Ports, node: Node, points: seq<InterfacePoint>, bound: nat, s: set<Ref>)
    requires IsTree(ps.Keys) && node in ps && node.depth < bound && Closed(ps, s)
    requires forall p :: p in points ==> Ref(node, p) in s
    ensures DoomedAll(ps, node, points, bound) <= s
    decreases bound, 0, |points|
  {
    if points != [] {
      DoomedIsLeast(ps, node, points[0], s);
      DoomedAllIsLeast(ps, node, points[1..], bound, s);
    }
  }

  /** Nothing goes without a reason: it is the point itself, or a port that refers to a point of a child that goes. */
  lemma DoomedForAReason(ps: Ports, node: Node, point: InterfacePoint, x: Ref)
    requires IsTree(ps.Keys) && node in ps && x in Doomed(ps, node, point) && x != Ref(node, point)
    ensures x.node in ps && x.point in ps[x.node]
    ensures exists y :: y in Doomed(ps, node, point) && y.node.parent == x.node &&
              if x.point.isSwitch then
                exists k :: 0 <= k < |x.point.mappings| && x.point.mappings[k].node == y.node
                            && x.point.mappings[k].point == y.point
              else x.point.node == y.node && x.point.point == y.point
  {
    var all := Doomed(ps, node, point);
    DoomedIsClosed(ps, node, point);
    if !(x.node in ps && x.point in ps[x.node]
         && exists y :: y in all && y.node.parent == x.node && Maps(x.point, y.node, y.point)) {
      assert Closed(ps, all - {x});
      DoomedIsLeast(ps, node, point, all - {x});
    }
  }

  /** And whatever has such a reason goes. */
  lemma ReferringPortIsDoomed(ps: Ports, node: Node, point: InterfacePoint, y: Ref, q: InterfacePoint)
    requires IsTree(ps.Keys) && node in ps && y in Doomed(ps, node, point)
    requires y.node.parent != null && y.node.parent in ps && q in ps[y.node.parent]
    requires if q.isSwitch then
               exists k :: 0 <= k < |q.mappings| && q.mappings[k].node == y.node && q.mappings[k].point == y.point
             else q.node == y.node && q.point == y.point
    ensures Ref(y.node.parent, q) in Doomed(ps, node, point)
  {
    DoomedIsClosed(ps, node, point);
    assert Maps(q, y.node, y.point);
  }

  // ----- What is left

  ghost function PortsLeft(ports: seq<InterfacePoint>, node: Node, gone: set<Ref>): seq<InterfacePoint> {
    if ports == [] then []
    else if Ref(node, ports[0]) in gone then PortsLeft(ports[1..], node, gone)
    else [ports[0]] + PortsLeft(ports[1..], node, gone)
  }

  ghost function Without(ps: Ports, gone: set<Ref>): (r: Ports)
    ensures r.Keys == ps.Keys
  {
    map n | n in ps :: PortsLeft(ps[n], n, gone)
  }

  /** The link binds one of the points of a child of the composition. */
  ghost predicate Binds(link: Link, c: Node, gone: set<Ref>) {
    exists b :: b in link.binds && b.point != null && b.node.parent == c && Ref(b.node, b.point) in gone
  }

  ghost function LinksLeft(links: seq<Link>, c: Node, gone: set<Ref>): seq<Link> {
    if links == [] then []
    else if Binds(links[0], c, gone) then LinksLeft(links[1..], c, gone)
    else [links[0]] + LinksLeft(links[1..], c, gone)
  }

  /** Those that it does not leave. */
  ghost function LinksGone(links: seq<Link>, c: Node, gone: set<Ref>): seq<Link> {
    if links == [] then []
    else (if Binds(links[0], c, gone) then [links[0]] else []) + LinksGone(links[1..], c, gone)
  }

  /** The links of every composition, at one moment. */
  type Links = map<Node, seq<Link>>

  ghost function LinksWithout(ls: Links, gone: set<Ref>): (r: Links)
    ensures r.Keys == ls.Keys
  {
    map c | c in ls :: LinksLeft(ls[c], c, gone)
  }

  lemma {:induction false} PortsLeftAre(ports: seq<InterfacePoint>, node: Node, gone: set<Ref>)
    ensures forall q :: q in PortsLeft(ports, node, gone) ==> q in ports && Ref(node, q) !in gone
    ensures forall q :: q in ports && Ref(node, q) !in gone ==> q in PortsLeft(ports, node, gone)
  {
    if ports != [] {
      PortsLeftAre(ports[1..], node, gone);
    }
  }

  lemma {:induction false} LinksLeftAre(links: seq<Link>, c: Node, gone: set<Ref>)
    ensures forall l :: l in LinksLeft(links, c, gone) ==> l in links && !Binds(l, c, gone)
    ensures forall l :: l in links && !Binds(l, c, gone) ==> l in LinksLeft(links, c, gone)
  {
    if links != [] {
      LinksLeftAre(links[1..], c, gone);
    }
  }

  /** A link stays exactly if it binds none of the points of a child that go. */
  lemma LinkStays(ls: Links, gone: set<Ref>, c: Node, l: Link)
    requires c in ls
    ensures l in LinksWithout(ls, gone)[c] <==>
            l in ls[c] && forall b :: b in l.binds && b.point != null && b.node.parent == c ==>
                            Ref(b.node, b.point) !in gone
  {
    LinksLeftAre(ls[c], c, gone);
  }

  /** And a port exactly if it does not go. */
  lemma PortStaysIff(ps: Ports, gone: set<Ref>, c: Node, q: InterfacePoint)
    requires c in ps
    ensures q in Without(ps, gone)[c] <==> q in ps[c] && Ref(c, q) !in gone
  {
    PortsLeftAre(ps[c], c, gone);
  }

  lemma {:induction false} LinksGoneAre(links: seq<Link>, c: Node, gone: set<Ref>)
    ensures forall l :: l in LinksGone(links, c, gone) <==> l in links && Binds(l, c, gone)
    ensures links == [] ==> LinksGone(links, c, gone) == []
  {
    if links != [] {
      LinksGoneAre(links[1..], c, gone);
    }
  }

  lemma LinksGoneNext(links: seq<Link>, j: nat, c: Node, gone: set<Ref>, found: seq<Link>)
    requires j < |links|
    ensures found + LinksGone(links[j..], c, gone) ==
            (if Binds(links[j], c, gone) then found + [links[j]] else found) + LinksGone(links[j + 1..], c, gone)
  {
    assert links[j..][0] == links[j] && links[j..][1..] == links[j + 1..];
  }

  lemma {:induction false} PortsLeftTwice(ports: seq<InterfacePoint>, node: Node, a: set<Ref>, b: set<Ref>)
    ensures PortsLeft(PortsLeft(ports, node, a), node, b) == PortsLeft(ports, node, a + b)
  {
    if ports != [] {
      PortsLeftTwice(ports[1..], node, a, b);
      var rest := PortsLeft(ports[1..], node, a);
      assert ([ports[0]] + rest)[1..] == rest;
    }
  }

  lemma {:induction false} LinksLeftTwice(links: seq<Link>, c: Node, a: set<Ref>, b: set<Ref>)
    ensures LinksLeft(LinksLeft(links, c, a), c, b) == LinksLeft(links, c, a + b)
  {
    if links != [] {
      LinksLeftTwice(links[1..], c, a, b);
      var rest := LinksLeft(links[1..], c, a);
      assert ([links[0]] + rest)[1..] == rest;
      assert Binds(links[0], c, a + b) <==> Binds(links[0], c, a) || Binds(links[0], c, b);
    }
  }

  lemma LinksWithoutTwice(ls: Links, a: set<Ref>, b: set<Ref>)
    ensures LinksWithout(LinksWithout(ls, a), b) == LinksWithout(ls, a + b)
  {
    forall c | c in ls
      ensures LinksLeft(LinksLeft(ls[c], c, a), c, b) == LinksLeft(ls[c], c, a + b)
    {
      LinksLeftTwice(ls[c], c, a, b);
    }
  }

  lemma WithoutTwice(ps: Ports, a: set<Ref>, b: set<Ref>)
    ensures Without(Without(ps, a), b) == Without(ps, a + b)
  {
    forall n | n in ps
      ensures PortsLeft(PortsLeft(ps[n], n, a), n, b) == PortsLeft(ps[n], n, a + b)
    {
      PortsLeftTwice(ps[n], n, a, b);
    }
  }

  /**
   When what depended on some points has gone already, what is doomed then is what was doomed in
   the first place, but for what has gone.
   */
  lemma DoomedLater(ps: Ports, gone: set<Ref>, node: Node, point: InterfacePoint)
    requires IsTree(ps.Keys) && node in ps && Closed(ps, gone)
    ensures gone + Doomed(Without(ps, gone), node, point) == gone + Doomed(ps, node, point)
    ensures Closed(ps, gone + Doomed(ps, node, point))
  {
    var later := Without(ps, gone);
    forall n | n in ps
      ensures forall q :: q in later[n] <==> q in ps[n] && Ref(n, q) !in gone
    {
      PortsLeftAre(ps[n], n, gone);
    }
    DoomedIsClosed(ps, node, point);
    DoomedIsClosed(later, node, point);
    assert Closed(later, Doomed(ps, node, point));
    DoomedIsLeast(later, node, point, Doomed(ps, node, point));
    var both := gone + Doomed(later, node, point);
    assert Closed(ps, both) by {
      forall x, q | x in both && x.node.parent != null && x.node.parent in ps
                    && q in ps[x.node.parent] && Maps(q, x.node, x.point)
        ensures Ref(x.node.parent, q) in both
      {
        if Ref(x.node.parent, q) !in gone {
          assert q in later[x.node.parent];
        }
      }
    }
    DoomedIsLeast(ps, node, point, both);
  }

  // ----- The document

  /** Ports and anchors are kept apart, and their lists hold them once; links are in compositions of links. */
  ghost predicate IsDocument(nodes: set<Node>)
    reads nodes
  {
    IsTree(nodes) && forall n :: n in nodes ==> IsNode(n, n.anchors, n.ports, n.links)
  }

  ghost predicate Apart(points: seq<InterfacePoint>) {
    forall i, j :: 0 <= i < j < |points| ==> points[i] != points[j]
  }

  ghost predicate IsNode(n: Node, anchors: seq<InterfacePoint>, ports: seq<InterfacePoint>, links: seq<Link>) {
    && Apart(anchors) && Apart(ports)
    && (forall a :: a in anchors ==> a.isAnchor)
    && (forall p :: p in ports ==> !p.isAnchor)
    && (!n.isLinkComposition ==> links == [])
  }

  ghost function PortsOf(nodes: set<Node>): (r: Ports)
    reads nodes
    ensures r.Keys == nodes
  {
    map n | n in nodes :: n.ports
  }

  ghost function LinksOf(nodes: set<Node>): (r: Links)
    reads nodes
    ensures r.Keys == nodes
  {
    map n | n in nodes :: n.links
  }

  ghost function AnchorsOf(nodes: set<Node>): (r: Ports)
    reads nodes
    ensures r.Keys == nodes
  {
    map n | n in nodes :: n.anchors
  }

  /** A port or bind of the composition that refers to a point refers to one that a child of it has. */
  ghost predicate RefersTo(c: Node, node: Node?, point: InterfacePoint?, anchors: Ports, ps: Ports)
    requires anchors.Keys == ps.Keys
  {
    point != null ==>
      node != null && node in ps && node.parent == c && (point in anchors[node] || point in ps[node])
  }

  ghost predicate PortIsIntact(c: Node, q: InterfacePoint, anchors: Ports, ps: Ports)
    requires anchors.Keys == ps.Keys
  {
    if q.isSwitch then forall m :: m in q.mappings ==> RefersTo(c, m.node, m.point, anchors, ps)
    else RefersTo(c, q.node, q.point, anchors, ps)
  }

  ghost predicate LinkIsIntact(c: Node, l: Link, anchors: Ports, ps: Ports)
    requires anchors.Keys == ps.Keys
  {
    forall b :: b in l.binds ==> RefersTo(c, b.node, b.point, anchors, ps)
  }

  ghost predicate AllIntact(anchors: Ports, ps: Ports, ls: Links)
    requires anchors.Keys == ps.Keys == ls.Keys
  {
    && (forall c :: c in ps ==> forall q :: q in ps[c] ==> PortIsIntact(c, q, anchors, ps))
    && (forall c :: c in ls ==> forall l :: l in ls[c] ==> LinkIsIntact(c, l, anchors, ps))
  }

  /** No reference dangles. */
  ghost predicate Intact(nodes: set<Node>)
    reads nodes
  {
    AllIntact(AnchorsOf(nodes), PortsOf(nodes), LinksOf(nodes))
  }

  // ----- Removing

  /** `removePort`, as it is meant: the port leaves the list. */
  method RemovePort(n: Node, port: InterfacePoint) returns (r: bool)
    requires Apart(n.ports)
    modifies n`ports
    ensures n.ports == PortsLeft(old(n.ports), n, {Ref(n, port)}) && r == (port in old(n.ports))
  {
    var i := 0;
    while i < |n.ports|
      invariant i <= |n.ports| && n.ports == old(n.ports) && port !in n.ports[..i]
    {
      if n.ports[i] == port {
        OneLess(n.ports, n, i);
        n.ports := n.ports[..i] + n.ports[i + 1..];
        return true;
      }
      i := i + 1;
    }
    NoneLess(n.ports, n, port);
    r := false;
  }

  lemma {:induction false} NoneLess(ports: seq<InterfacePoint>, n: Node, port: InterfacePoint)
    requires port !in ports
    ensures PortsLeft(ports, n, {Ref(n, port)}) == ports
  {
    if ports != [] {
      NoneLess(ports[1..], n, port);
    }
  }

  lemma {:induction false} OneLess(ports: seq<InterfacePoint>, n: Node, i: nat)
    requires i < |ports| && Apart(ports)
    ensures PortsLeft(ports, n, {Ref(n, ports[i])}) == ports[..i] + ports[i + 1..]
  {
    if i == 0 {
      NoneLess(ports[1..], n, ports[0]);
    } else {
      OneLess(ports[1..], n, i - 1);
    }
  }

  /** `removeAnchor`; an entity keeps its first anchor. */
  method RemoveAnchor(n: Node, anchor: InterfacePoint) returns (r: bool)
    modifies n`anchors
    ensures r == (anchor in old(n.anchors) && !(n.isEntity && old(n.anchors)[0] == anchor))
    ensures if r then exists i :: 0 <= i < |old(n.anchors)| && old(n.anchors)[i] == anchor
                             && n.anchors == old(n.anchors)[..i] + old(n.anchors)[i + 1..]
            else n.anchors == old(n.anchors)
  {
    var i := 0;
    while i < |n.anchors| && n.anchors[i] != anchor
      invariant i <= |n.anchors| && n.anchors == old(n.anchors) && anchor !in n.anchors[..i]
    {
      i := i + 1;
    }
    if i == |n.anchors| || (i == 0 && n.isEntity) {
      return false;
    }
    n.anchors := n.anchors[..i] + n.anchors[i + 1..];
    r := true;
  }

  /** The links that are not among the removed ones. */
  ghost function Minus(links: seq<Link>, removed: seq<Link>): seq<Link> {
    if links == [] then []
    else if links[0] in removed then Minus(links[1..], removed)
    else [links[0]] + Minus(links[1..], removed)
  }

  lemma {:induction false} NoneMinus(links: seq<Link>, removed: seq<Link>)
    requires forall l :: l in links ==> l !in removed
    ensures Minus(links, removed) == links
  {
    if links != [] {
      NoneMinus(links[1..], removed);
    }
  }

  lemma {:induction false} MinusDrop(links: seq<Link>, i: nat)
    requires i < |links|
    ensures Minus(links[..i] + links[i + 1..], [links[i]]) == Minus(links, [links[i]])
  {
    if i == 0 {
      assert links[..0] + links[1..] == links[1..];
    } else {
      var rest := links[1..][..i - 1] + links[1..][i..];
      assert links[..i] + links[i + 1..] == [links[0]] + rest;
      MinusDrop(links[1..], i - 1);
    }
  }

  lemma {:induction false} MinusTwice(links: seq<Link>, a: seq<Link>, b: seq<Link>)
    ensures Minus(Minus(links, a), b) == Minus(links, a + b)
  {
    if links != [] {
      MinusTwice(links[1..], a, b);
      var rest := Minus(links[1..], a);
      assert ([links[0]] + rest)[1..] == rest;
    }
  }

  /** `removeLink` of a composition, as it is meant: the link leaves the list, and no other does. */
  method TakeLink(c: Node, link: Link)
    modifies c`links
    ensures c.links == Minus(old(c.links), [link])
  {
    var i := 0;
    while i < |c.links|
      invariant i <= |c.links| && link !in c.links[..i]
      invariant Minus(c.links, [link]) == Minus(old(c.links), [link])
    {
      if c.links[i] == link {
        MinusDrop(c.links, i);
        c.links := c.links[..i] + c.links[i + 1..];
      } else {
        i := i + 1;
      }
    }
    NoneMinus(c.links, [link]);
  }

  // ----- The cascade

  /** Of the ports and links there were, those are left that do not depend on what has gone. */
  ghost predicate Left(nodes: set<Node>, ps: Ports, ls: Links, gone: set<Ref>)
    reads nodes
  {
    PortsOf(nodes) == Without(ps, gone) && LinksOf(nodes) == LinksWithout(ls, gone)
  }

  /** `removeInterface`. */
  method RemoveInterface(ghost nodes: set<Node>, node: Node, point: InterfacePoint)
    requires IsDocument(nodes) && node in nodes
    modifies nodes
    ensures IsDocument(nodes)
    ensures Left(nodes, old(PortsOf(nodes)), old(LinksOf(nodes)), Doomed(old(PortsOf(nodes)), node, point))
    ensures forall n :: n in nodes && (n != node || !point.isAnchor) ==> n.anchors == old(n.anchors)
    ensures point.isAnchor ==> IsAnchorGone(node, point, old(node.anchors), node.anchors)
    ensures old(Intact(nodes)) ==> Intact(nodes)
    decreases node.depth, 2
  {
    hide IsNode, IsAnchorGone, Without, LinksWithout, PortIsIntact, LinkIsIntact;
    ghost var ps, ls := PortsOf(nodes), LinksOf(nodes);
    ghost var gone: set<Ref> := {};
    NothingGone(ps, ls);
    var parent := node.parent;
    if parent != null {
      RemoveInterfaceMappings(nodes, node, point, parent);
      gone := DoomedAll(ps, parent, Mapping(ps[parent], node, point), node.depth);
    }
    RemoveFromNode(nodes, node, point);
    LeftTwice(nodes, ps, ls, gone, {Ref(node, point)});
    assert gone + {Ref(node, point)} == Doomed(ps, node, point);
    if old(Intact(nodes)) {
      StaysIntact(old(AnchorsOf(nodes)), ps, ls, node, point, AnchorsOf(nodes));
    }
  }

  /** What becomes of the anchors of every node. */
  ghost predicate AnchorsLeft(node: Node, point: InterfacePoint, was: Ports, now: Ports) {
    was.Keys == now.Keys && forall n :: n in was ==>
      if n == node && point.isAnchor then IsAnchorGone(n, point, was[n], now[n]) else now[n] == was[n]
  }

  /** References to points that have not gone still refer to points that are there. */
  lemma StillRefers(anchors: Ports, ps: Ports, node: Node, point: InterfacePoint, now: Ports,
                    c: Node, m: Node?, j: InterfacePoint?)
    requires IsTree(ps.Keys) && node in ps && anchors.Keys == ps.Keys && AnchorsLeft(node, point, anchors, now)
    requires RefersTo(c, m, j, anchors, ps)
    requires m != null && j != null ==> Ref(m, j) !in Doomed(ps, node, point)
    ensures RefersTo(c, m, j, now, Without(ps, Doomed(ps, node, point)))
  {
    var gone := Doomed(ps, node, point);
    if j != null {
      PortsLeftAre(ps[m], m, gone);
    }
  }

  /** After the removal no reference dangles, if none did before. */
  lemma StaysIntact(anchors: Ports, ps: Ports, ls: Links, node: Node, point: InterfacePoint, now: Ports)
    requires IsTree(ps.Keys) && node in ps && anchors.Keys == ps.Keys == ls.Keys
    requires AnchorsLeft(node, point, anchors, now) && AllIntact(anchors, ps, ls)
    ensures AllIntact(now, Without(ps, Doomed(ps, node, point)), LinksWithout(ls, Doomed(ps, node, point)))
  {
    hide Doomed, PortsLeft, LinksLeft;
    var gone := Doomed(ps, node, point);
    var later, links := Without(ps, gone), LinksWithout(ls, gone);
    DoomedIsClosed(ps, node, point);
    forall c, q | c in later && q in later[c]
      ensures PortIsIntact(c, q, now, later)
    {
      PortsLeftAre(ps[c], c, gone);
      PortStays(anchors, ps, node, point, now, c, q);
    }
    forall c, l | c in links && l in links[c]
      ensures LinkIsIntact(c, l, now, later)
    {
      LinksLeftAre(ls[c], c, gone);
      forall b | b in l.binds
        ensures RefersTo(c, b.node, b.point, now, later)
      {
        StillRefers(anchors, ps, node, point, now, c, b.node, b.point);
      }
    }
  }

  lemma PortStays(anchors: Ports, ps: Ports, node: Node, point: InterfacePoint, now: Ports, c: Node, q: InterfacePoint)
    requires IsTree(ps.Keys) && node in ps && anchors.Keys == ps.Keys && AnchorsLeft(node, point, anchors, now)
    requires Closed(ps, Doomed(ps, node, point))
    requires c in ps && q in ps[c] && PortIsIntact(c, q, anchors, ps) && Ref(c, q) !in Doomed(ps, node, point)
    ensures PortIsIntact(c, q, now, Without(ps, Doomed(ps, node, point)))
  {
    hide Doomed, Without;
    if q.isSwitch {
      forall m | m in q.mappings
        ensures m.node != null && m.point != null && m.node.parent == c ==> Maps(q, m.node, m.point)
        ensures RefersTo(c, m.node, m.point, now, Without(ps, Doomed(ps, node, point)))
      {
        StillRefers(anchors, ps, node, point, now, c, m.node, m.point);
      }
    } else {
      StillRefers(anchors, ps, node, point, now, c, q.node, q.point);
    }
  }

  /** The nodes are still a document when one point has gone, with the links that bind it. */
  lemma NodesStay(nodes: set<Node>, anchors: Ports, ps: Ports, ls: Links, node: Node, point: InterfacePoint)
    requires anchors.Keys == ps.Keys == ls.Keys == nodes && IsTree(nodes)
    requires forall n :: n in nodes ==> IsNode(n, anchors[n], ps[n], ls[n])
    requires forall n :: n in nodes ==> n.anchors == anchors[n] || IsAnchorGone(n, point, anchors[n], n.anchors)
    requires forall n :: n in nodes ==> n.ports == PortsLeft(ps[n], n, {Ref(node, point)})
    requires forall n :: n in nodes ==> n.links == LinksLeft(ls[n], n, {Ref(node, point)})
    ensures IsDocument(nodes) && Left(nodes, ps, ls, {Ref(node, point)})
  {
    hide IsNode, IsAnchorGone, PortsLeft, LinksLeft, IsTree;
    forall n | n in nodes
      ensures IsNode(n, n.anchors, n.ports, n.links)
    {
      NodeStays(n, anchors[n], ps[n], ls[n], n.anchors, point, {Ref(node, point)});
    }
  }

  /** The rest of `removeInterface`: the links of the parent, and the point itself. */
  method RemoveFromNode(ghost nodes: set<Node>, node: Node, point: InterfacePoint)
    requires IsDocument(nodes) && node in nodes
    modifies nodes
    ensures IsDocument(nodes)
    ensures Left(nodes, old(PortsOf(nodes)), old(LinksOf(nodes)), {Ref(node, point)})
    ensures forall n :: n in nodes && (n != node || !point.isAnchor) ==> n.anchors == old(n.anchors)
    ensures point.isAnchor ==> IsAnchorGone(node, point, old(node.anchors), node.anchors)
  {
    hide IsNode, IsAnchorGone, PortsLeft, LinksLeft, Left, IsTree, Apart;
    ghost var anchors, ps, ls := AnchorsOf(nodes), PortsOf(nodes), LinksOf(nodes);
    PortsAreNoAnchors(nodes, node);
    OnlyNodeChanges(ps, ls, node, point);
    assert forall n :: n in nodes && n != node ==> PortsLeft(ps[n], n, {Ref(node, point)}) == ps[n] by {
      assert forall n :: n in ps ==> Without(ps, {Ref(node, point)})[n] == PortsLeft(ps[n], n, {Ref(node, point)});
    }
    RemoveLinks(nodes, node, point);
    RemovePoint(node, point);
    NodesStay(nodes, anchors, ps, ls, node, point);
  }

  /** The point leaves the list that it is in. */
  method RemovePoint(node: Node, point: InterfacePoint)
    requires Apart(node.ports) && forall p :: p in node.ports ==> !p.isAnchor
    modifies node`anchors, node`ports
    ensures node.ports == PortsLeft(old(node.ports), node, {Ref(node, point)})
    ensures if point.isAnchor then IsAnchorGone(node, point, old(node.anchors), node.anchors)
            else node.anchors == old(node.anchors)
  {
    if point.isAnchor {
      AllPortsLeft(node.ports, node, {Ref(node, point)});
      var _ := RemoveAnchor(node, point);
    } else {
      var _ := RemovePort(node, point);
    }
  }

  /** The links of the parent, if it has any. */
  method RemoveLinks(ghost nodes: set<Node>, node: Node, point: InterfacePoint)
    requires IsDocument(nodes) && node in nodes
    modifies (set n | n in nodes && n == node.parent)`links
    ensures forall n :: n in nodes ==> n.links == LinksLeft(old(n.links), n, {Ref(node, point)})
  {
    hide Apart;
    OnlyNodeChanges(PortsOf(nodes), LinksOf(nodes), node, point);
    var parent := node.parent;
    if parent != null {
      assert IsNode(parent, parent.anchors, parent.ports, parent.links);
      if parent.isLinkComposition {
        RemoveInterfaceLinks(node, point, parent);
      } else {
        assert LinksLeft([], parent, {Ref(node, point)}) == [];
      }
    }
  }

  /** Only the node has the point, and only its parent has links that bind it as a child's. */
  lemma OnlyNodeChanges(ps: Ports, ls: Links, node: Node, point: InterfacePoint)
    requires node in ps
    ensures Without(ps, {Ref(node, point)}) == ps[node := PortsLeft(ps[node], node, {Ref(node, point)})]
    ensures forall c :: c in ls && c != node.parent ==> LinksLeft(ls[c], c, {Ref(node, point)}) == ls[c]
  {
    forall n | n in ps && n != node
      ensures PortsLeft(ps[n], n, {Ref(node, point)}) == ps[n]
    {
      AllPortsLeft(ps[n], n, {Ref(node, point)});
    }
    forall c | c in ls && c != node.parent
      ensures LinksLeft(ls[c], c, {Ref(node, point)}) == ls[c]
    {
      AllLinksLeft(ls[c], c, {Ref(node, point)});
    }
  }

  lemma {:induction false} PortsStayApart(n: Node, ports: seq<InterfacePoint>, gone: set<Ref>)
    requires Apart(ports)
    ensures Apart(PortsLeft(ports, n, gone)) && forall p :: p in PortsLeft(ports, n, gone) ==> p in ports
  {
    if ports != [] {
      var rest := PortsLeft(ports[1..], n, gone);
      assert ports[0] !in ports[1..];
      PortsStayApart(n, ports[1..], gone);
      OneMoreApart(ports[0], rest);
    }
  }

  lemma OneMoreApart(p: InterfacePoint, rest: seq<InterfacePoint>)
    requires Apart(rest) && p !in rest
    ensures Apart([p] + rest)
  {
  }

  /** A node stays a node when some of its points and links go. */
  lemma NodeStays(n: Node, anchors: seq<InterfacePoint>, ports: seq<InterfacePoint>, links: seq<Link>,
                  left: seq<InterfacePoint>, anchor: InterfacePoint, gone: set<Ref>)
    requires IsNode(n, anchors, ports, links)
    requires left == anchors || IsAnchorGone(n, anchor, anchors, left)
    ensures IsNode(n, left, PortsLeft(ports, n, gone), LinksLeft(links, n, gone))
  {
    PortsStayApart(n, ports, gone);
  }

  lemma LeftTwice(nodes: set<Node>, ps: Ports, ls: Links, gone: set<Ref>, more: set<Ref>)
    requires Left(nodes, Without(ps, gone), LinksWithout(ls, gone), more)
    ensures Left(nodes, ps, ls, gone + more)
  {
    WithoutTwice(ps, gone, more);
    LinksWithoutTwice(ls, gone, more);
  }

  /** The anchor has gone, unless it is the first one of an entity. */
  ghost predicate IsAnchorGone(n: Node, anchor: InterfacePoint, was: seq<InterfacePoint>, now: seq<InterfacePoint>) {
    if anchor !in was || (n.isEntity && was[0] == anchor) then now == was
    else exists i :: 0 <= i < |was| && was[i] == anchor && now == was[..i] + was[i + 1..]
  }

  /** `removeInterfaceMappings`: the ports of the parent that map to the point are removed like the point itself. */
  method RemoveInterfaceMappings(ghost nodes: set<Node>, node: Node, point: InterfacePoint, composition: Node)
    requires IsDocument(nodes) && node in nodes && node.parent == composition
    modifies nodes
    ensures IsDocument(nodes)
    ensures forall n :: n in nodes ==> n.anchors == old(n.anchors)
    ensures Left(nodes, old(PortsOf(nodes)), old(LinksOf(nodes)),
                 DoomedAll(old(PortsOf(nodes)), composition, Mapping(old(composition.ports), node, point), node.depth))
    decreases node.depth, 1
  {
    hide Closed, Without, LinksWithout, Doomed, IsNode, Mapping, Maps;
    ghost var ps, ls := PortsOf(nodes), LinksOf(nodes);
    var portsToBeRemoved := FindMappings(node, point, composition);
    PortsAreNoAnchors(nodes, composition);
    ghost var gone: set<Ref> := {};
    NothingGone(ps, ls);
    var i := 0;
    while i < |portsToBeRemoved|
      invariant i <= |portsToBeRemoved| && IsDocument(nodes) && Closed(ps, gone)
      invariant forall n :: n in nodes ==> n.anchors == old(n.anchors)
      invariant forall p :: p in portsToBeRemoved ==> !p.isAnchor
      invariant Left(nodes, ps, ls, gone)
      invariant gone + DoomedAll(ps, composition, portsToBeRemoved[i..], node.depth) ==
                DoomedAll(ps, composition, portsToBeRemoved, node.depth)
    {
      var port := portsToBeRemoved[i];
      RemoveInterface(nodes, composition, port);
      assert portsToBeRemoved[i..][1..] == portsToBeRemoved[i + 1..];
      DoomedLater(ps, gone, composition, port);
      ghost var more := Doomed(Without(ps, gone), composition, port);
      LeftTwice(nodes, ps, ls, gone, more);
      gone := gone + more;
      i := i + 1;
    }
    assert portsToBeRemoved[i..] == [];
  }

  lemma PortsAreNoAnchors(nodes: set<Node>, c: Node)
    requires IsDocument(nodes) && c in nodes
    ensures Apart(c.ports) && forall p :: p in c.ports ==> !p.isAnchor
  {
    assert IsNode(c, c.anchors, c.ports, c.links);
  }

  /** The loop of `removeInterfaceMappings` that collects the ports. */
  method FindMappings(node: Node, point: InterfacePoint, composition: Node) returns (found: seq<InterfacePoint>)
    ensures found == Mapping(composition.ports, node, point)
    ensures forall p :: p in found ==> p in composition.ports
  {
    var ports := composition.ports;
    hide Maps, Mapping;
    found := [];
    assert ports[0..] == ports && [] + Mapping(ports, node, point) == Mapping(ports, node, point);
    var j := 0;
    while j < |ports|
      invariant j <= |ports| && found + Mapping(ports[j..], node, point) == Mapping(ports, node, point)
    {
      var port := ports[j];
      var maps := MapsTo(port, node, point);
      MappingNext(ports, j, node, point, found);
      if maps {
        found := found + [port];
      }
      j := j + 1;
    }
    assert ports[j..] == [] && found + [] == found;
    assert Mapping([], node, point) == [];
  }

  lemma MappingNext(ports: seq<InterfacePoint>, j: nat, node: Node, point: InterfacePoint, found: seq<InterfacePoint>)
    requires j < |ports|
    ensures found + Mapping(ports[j..], node, point) ==
            (if Maps(ports[j], node, point) then found + [ports[j]] else found) + Mapping(ports[j + 1..], node, point)
  {
    assert ports[j..][0] == ports[j] && ports[j..][1..] == ports[j + 1..];
  }

  /** Whether the port, or one of the mappings of a switch port, maps to the point. */
  method MapsTo(port: InterfacePoint, node: Node, point: InterfacePoint) returns (maps: bool)
    ensures maps == Maps(port, node, point)
  {
    if port.isSwitch {
      var k := 0;
      while k < |port.mappings|
        invariant k <= |port.mappings|
        invariant !exists m :: 0 <= m < k && port.mappings[m].node == node && port.mappings[m].point == point
      {
        if port.mappings[k].node == node && port.mappings[k].point == point {
          return true;
        }
        k := k + 1;
      }
      maps := false;
    } else {
      maps := port.node == node && port.point == point;
    }
  }

  lemma NothingGone(ps: Ports, ls: Links)
    ensures Without(ps, {}) == ps && LinksWithout(ls, {}) == ls && Closed(ps, {})
  {
    forall n | n in ps
      ensures PortsLeft(ps[n], n, {}) == ps[n]
    {
      AllPortsLeft(ps[n], n, {});
    }
    forall c | c in ls
      ensures LinksLeft(ls[c], c, {}) == ls[c]
    {
      AllLinksLeft(ls[c], c, {});
    }
  }

  lemma {:induction false} AllPortsLeft(ports: seq<InterfacePoint>, n: Node, gone: set<Ref>)
    requires forall q :: q in ports ==> Ref(n, q) !in gone
    ensures PortsLeft(ports, n, gone) == ports
  {
    if ports != [] {
      AllPortsLeft(ports[1..], n, gone);
    }
  }

  lemma {:induction false} AllLinksLeft(links: seq<Link>, c: Node, gone: set<Ref>)
    requires forall l :: l in links ==> !Binds(l, c, gone)
    ensures LinksLeft(links, c, gone) == links
  {
    if links != [] {
      AllLinksLeft(links[1..], c, gone);
    }
  }

  /** `removeInterfaceLinks`, as it is meant: the links of the parent that bind the point go. */
  method RemoveInterfaceLinks(node: Node, point: InterfacePoint, composition: Node)
    requires node.parent == composition
    modifies composition`links
    ensures composition.links == LinksLeft(old(composition.links), composition, {Ref(node, point)})
  {
    hide Minus, LinksLeft, LinksGone, Binds;
    var linksToBeRemoved := FindLinks(node, point, composition);
    ghost var links := composition.links;
    NoneMinus(links, []);
    var i := 0;
    while i < |linksToBeRemoved|
      invariant i <= |linksToBeRemoved|
      invariant composition.links == Minus(links, linksToBeRemoved[..i])
    {
      assert linksToBeRemoved[..i + 1] == linksToBeRemoved[..i] + [linksToBeRemoved[i]];
      TakeLink(composition, linksToBeRemoved[i]);
      MinusTwice(links, linksToBeRemoved[..i], [linksToBeRemoved[i]]);
      i := i + 1;
    }
    assert linksToBeRemoved[..i] == linksToBeRemoved;
    LinksGoneAre(links, composition, {Ref(node, point)});
    MinusIsLeft(links, composition, {Ref(node, point)}, linksToBeRemoved);
  }

  /** The loop of `removeInterfaceLinks` that collects the links. */
  method FindLinks(node: Node, point: InterfacePoint, composition: Node) returns (found: seq<Link>)
    requires node.parent == composition
    ensures found == LinksGone(composition.links, composition, {Ref(node, point)})
  {
    hide Binds, LinksGone;
    var links := composition.links;
    found := [];
    ghost var gone := {Ref(node, point)};
    assert links[0..] == links && [] + LinksGone(links, composition, gone) == LinksGone(links, composition, gone);
    var j := 0;
    while j < |links|
      invariant j <= |links|
      invariant found + LinksGone(links[j..], composition, gone) == LinksGone(links, composition, gone)
    {
      var binds := BindsTo(links[j], node, point);
      LinksGoneNext(links, j, composition, gone, found);
      if binds {
        found := found + [links[j]];
      }
      j := j + 1;
    }
    LinksGoneAre(links[j..], composition, gone);
    assert found + [] == found;
  }

  /** Whether one of the link's binds is to the point. */
  method BindsTo(link: Link, node: Node, point: InterfacePoint) returns (binds: bool)
    ensures node.parent != null ==> binds == Binds(link, node.parent, {Ref(node, point)})
  {
    var k := 0;
    while k < |link.binds|
      invariant k <= |link.binds|
      invariant forall m :: 0 <= m < k ==> !(link.binds[m].node == node && link.binds[m].point == point)
    {
      if link.binds[k].node == node && link.binds[k].point == point {
        return true;
      }
      k := k + 1;
    }
    binds := false;
  }

  lemma {:induction false} MinusIsLeft(links: seq<Link>, c: Node, gone: set<Ref>, removed: seq<Link>)
    requires forall l :: l in links ==> (l in removed <==> Binds(l, c, gone))
    ensures Minus(links, removed) == LinksLeft(links, c, gone)
  {
    hide Binds;
    if links != [] {
      MinusIsLeft(links[1..], c, gone, removed);
    }
  }

  /** No port of the parent maps to the point any more. */
  lemma NobodyMaps(ps: Ports, node: Node, point: InterfacePoint, q: InterfacePoint)
    requires IsTree(ps.Keys) && node in ps && node.parent != null
    requires q in Without(ps, Doomed(ps, node, point))[node.parent]
    ensures !Maps(q, node, point)
  {
    DoomedIsClosed(ps, node, point);
    PortsLeftAre(ps[node.parent], node.parent, Doomed(ps, node, point));
  }

  // ----- By name

  /** The interface is the first one with that identifier, which is not empty. */
  ghost predicate IsFirstOf(r: InterfacePoint, points: seq<InterfacePoint>, id: string) {
    id != "" && r.id == id &&
    exists i :: 0 <= i < |points| && points[i] == r && forall j :: 0 <= j < i ==> points[j].id != id
  }

  method Find(points: seq<InterfacePoint>, id: string) returns (r: InterfacePoint?)
    ensures r != null ==> IsFirstOf(r, points, id)
    ensures r == null ==> id == "" || forall p :: p in points ==> p.id != id
  {
    r := null;
    var i := 0;
    while i < |points|
      invariant i <= |points| && r == null && (id == "" || forall j :: 0 <= j < i ==> points[j].id != id)
    {
      if points[i].id != "" && points[i].id == id {
        return points[i];
      }
      i := i + 1;
    }
  }

  /** What a name stands for: the first anchor of that name, or else the first port, if the node is a composite. */
  ghost predicate IsNamed(node: Node?, anchors: seq<InterfacePoint>, ports: seq<InterfacePoint>, id: string,
                          r: InterfacePoint?) {
    if r == null then
      node == null || id == "" || ((forall p :: p in anchors ==> p.id != id)
                                   && (node.isComposite ==> forall p :: p in ports ==> p.id != id))
    else
      node != null && (IsFirstOf(r, anchors, id)
                       || (node.isComposite && (forall p :: p in anchors ==> p.id != id) && IsFirstOf(r, ports, id)))
  }

  /** `removeInterface` by names, once the node has been looked up: nothing happens if there is none of the name. */
  method RemoveInterfaceById(ghost nodes: set<Node>, node: Node?, interfaceId: string) returns (r: InterfacePoint?)
    requires IsDocument(nodes) && (node != null ==> node in nodes)
    modifies nodes
    ensures IsDocument(nodes) && (old(Intact(nodes)) ==> Intact(nodes))
    ensures r == null ==> forall n :: n in nodes ==> unchanged(n)
    ensures IsNamed(node, if node == null then [] else old(node.anchors), if node == null then [] else old(node.ports),
                    interfaceId, r)
    ensures r != null ==>
              && node != null && r.id == interfaceId && (r in old(node.anchors) || r in old(node.ports))
              && Left(nodes, old(PortsOf(nodes)), old(LinksOf(nodes)), Doomed(old(PortsOf(nodes)), node, r))
  {
    hide IsNode, Intact, Left;
    if node == null {
      return null;
    }
    r := Find(node.anchors, interfaceId);
    if r == null && node.isComposite {
      r := Find(node.ports, interfaceId);
    }
    if r != null {
      RemoveInterface(nodes, node, r);
    }
  }

  // ----- The code as it is written

  /** A call that has returned, or one that has done something for which the language defines no outcome. */
  datatype Outcome = Completed | Undefined

  /** The iterator of `removePort`, which the loop compares before anything has set it. */
  datatype Iterator = Unset | At(index: nat)

  function NotAtEnd(it: Iterator, ports: seq<InterfacePoint>): Option<bool> {
    match it
    case Unset => None
    case At(index) => Some(index < |ports|)
  }

  datatype Option<T> = None | Some(value: T)

  /** `removePort`. */
  method RemovePortAsWritten(n: Node, port: InterfacePoint) returns (outcome: Outcome)
    ensures outcome.Undefined?
  {
    var it := Unset;
    outcome := if NotAtEnd(it, n.ports).None? then Undefined else Completed;
  }

  /** The point is an anchor of a child of a composition without links, none of whose ports maps to it. */
  ghost predicate IsFree(ps: Ports, node: Node, point: InterfacePoint)
    requires node.parent != null ==> node.parent in ps
  {
    && point.isAnchor && node.parent != null && !node.parent.isLinkComposition
    && forall q :: q in ps[node.parent] ==> !Maps(q, node, point)
  }

  lemma NobodyMapsIff(ports: seq<InterfacePoint>, node: Node, point: InterfacePoint)
    ensures Mapping(ports, node, point) == [] <==> forall q :: q in ports ==> !Maps(q, node, point)
  {
    hide Maps;
    if Mapping(ports, node, point) != [] {
      assert Mapping(ports, node, point)[0] in ports;
    }
  }

  /** That is to say, nothing depends on the anchor. */
  lemma FreeMeansDoomedAlone(ps: Ports, node: Node, point: InterfacePoint)
    requires IsTree(ps.Keys) && node in ps
    ensures IsFree(ps, node, point) <==>
            && point.isAnchor && node.parent != null && !node.parent.isLinkComposition
            && Doomed(ps, node, point) == {Ref(node, point)}
  {
    if node.parent != null {
      var next := Mapping(ps[node.parent], node, point);
      NobodyMapsIff(ps[node.parent], node, point);
      if next != [] {
        DoomedAllHas(ps, node.parent, next, node.depth, next[0]);
        assert next[0] in ps[node.parent] && Ref(node.parent, next[0]) in Doomed(ps, node, point);
      }
    }
  }

  /** `removeInterfaceMappings`: it reads the ports of the parent, if there is one or not. */
  method RemoveInterfaceMappingsAsWritten(ghost nodes: set<Node>, node: Node, point: InterfacePoint,
                                          composition: Node?) returns (outcome: Outcome)
    requires IsDocument(nodes) && node in nodes && node.parent == composition
    modifies nodes
    ensures outcome.Completed? <==> composition != null && Mapping(old(composition.ports), node, point) == []
    ensures outcome.Completed? ==> forall n :: n in nodes ==> unchanged(n)
    decreases node.depth, 1
  {
    hide IsNode, Mapping, Maps;
    if composition == null {
      return Undefined;
    }
    var portsToBeRemoved := FindMappings(node, point, composition);
    PortsAreNoAnchors(nodes, composition);
    outcome := Completed;
    var i := 0;
    while i < |portsToBeRemoved| && outcome.Completed?
      invariant i <= |portsToBeRemoved| && (outcome.Completed? <==> i == 0)
      invariant i == 0 ==> IsDocument(nodes) && forall n :: n in nodes ==> unchanged(n)
    {
      outcome := RemoveInterfaceAsWritten(nodes, composition, portsToBeRemoved[i]);
      i := i + 1;
    }
  }

  /** What the removal of an anchor that no port maps to leaves. */
  ghost predicate IsRemoved(nodes: set<Node>, node: Node, point: InterfacePoint, anchors: Ports, ps: Ports, ls: Links)
    requires IsTree(ps.Keys) && node in ps && anchors.Keys == ps.Keys == ls.Keys
    reads nodes
  {
    && IsDocument(nodes)
    && Left(nodes, ps, ls, Doomed(ps, node, point))
    && AnchorsLeft(node, point, anchors, AnchorsOf(nodes))
    && (AllIntact(anchors, ps, ls) ==> Intact(nodes))
  }

  method RemoveFreeAnchor(ghost nodes: set<Node>, node: Node, point: InterfacePoint)
    requires IsDocument(nodes) && node in nodes && IsFree(PortsOf(nodes), node, point)
    modifies nodes
    ensures IsRemoved(nodes, node, point, old(AnchorsOf(nodes)), old(PortsOf(nodes)), old(LinksOf(nodes)))
  {
    hide IsFree, IsNode, Without, LinksWithout, PortIsIntact, LinkIsIntact, IsAnchorGone;
    ghost var anchors, ps, ls := AnchorsOf(nodes), PortsOf(nodes), LinksOf(nodes);
    FreeMeansDoomedAlone(ps, node, point);
    RemoveFromNode(nodes, node, point);
    if AllIntact(anchors, ps, ls) {
      StaysIntact(anchors, ps, ls, node, point, AnchorsOf(nodes));
    }
  }

  /**
   `removeInterface`: it completes exactly for a free anchor, and does then what it should.  The links of
   a parent that has any are asked for through a pointer that was cast from `CompositeNode` to
   `LinkComposition`; neither of these classes derives from the other, so that the call has no defined
   outcome.
   */
  method RemoveInterfaceAsWritten(ghost nodes: set<Node>, node: Node, point: InterfacePoint)
      returns (outcome: Outcome)
    requires IsDocument(nodes) && node in nodes
    modifies nodes
    ensures outcome.Completed? <==> IsFree(old(PortsOf(nodes)), node, point)
    ensures outcome.Completed? ==>
              IsRemoved(nodes, node, point, old(AnchorsOf(nodes)), old(PortsOf(nodes)), old(LinksOf(nodes)))
    decreases node.depth, 2
  {
    hide IsNode, Mapping, Maps, IsRemoved;
    if node.parent != null {
      NobodyMapsIff(node.parent.ports, node, point);
    }
    outcome := RemoveInterfaceMappingsAsWritten(nodes, node, point, node.parent);
    if outcome.Completed? {
      if node.parent.isLinkComposition {
        outcome := Undefined;
      } else if point.isAnchor {
        assert PortsOf(nodes) == old(PortsOf(nodes)) && LinksOf(nodes) == old(LinksOf(nodes));
        assert AnchorsOf(nodes) == old(AnchorsOf(nodes));
        RemoveFreeAnchor(nodes, node, point);
      } else {
        outcome := RemovePortAsWritten(node, point);
      }
    }
  }

  /** `removeInterface` by names, once the node has been looked up. */
  method RemoveInterfaceByIdAsWritten(ghost nodes: set<Node>, node: Node?, interfaceId: string)
      returns (outcome: Outcome, r: InterfacePoint?)
    requires IsDocument(nodes) && (node != null ==> node in nodes)
    modifies nodes
    ensures outcome.Completed? <==> r == null || (node != null && IsFree(old(PortsOf(nodes)), node, r))
    ensures r == null ==> forall n :: n in nodes ==> unchanged(n)
    ensures IsNamed(node, if node == null then [] else old(node.anchors), if node == null then [] else old(node.ports),
                    interfaceId, r)
    ensures r != null ==>
              node != null && r.id == interfaceId && (r in old(node.anchors) || r in old(node.ports))
    ensures r != null && outcome.Completed? ==>
              IsRemoved(nodes, node, r, old(AnchorsOf(nodes)), old(PortsOf(nodes)), old(LinksOf(nodes)))
  {
    hide IsNode, IsRemoved, IsFree;
    if node == null {
      return Completed, null;
    }
    r := Find(node.anchors, interfaceId);
    if r == null && node.isComposite {
      r := Find(node.ports, interfaceId);
    }
    outcome := Completed;
    if r != null {
      outcome := RemoveInterfaceAsWritten(nodes, node, r);
    }
  }

  /** A child with two anchors, and a parent with no port or with one that maps to the second. */
  lemma OneChildIsDocument(body: Node, node: Node, whole: InterfacePoint, anchor: InterfacePoint,
                           ports: seq<InterfacePoint>)
    requires body.parent == null && node.parent == body && body.depth < node.depth && body != node
    requires body.anchors == [] && body.ports == ports && body.links == []
    requires node.anchors == [whole, anchor] && node.ports == [] && node.links == []
    requires whole.isAnchor && anchor.isAnchor && whole != anchor && |ports| <= 1
    requires forall q :: q in ports ==> !q.isAnchor && !q.isSwitch && q.node == node && q.point == anchor
    ensures IsDocument({body, node}) && Intact({body, node})
  {
    var nodes := {body, node};
    assert IsNode(body, [], ports, []) && IsNode(node, [whole, anchor], [], []);
    forall c, q | c in nodes && q in PortsOf(nodes)[c]
      ensures PortIsIntact(c, q, AnchorsOf(nodes), PortsOf(nodes))
    {
      assert PortsOf(nodes)[c] == if c == body then ports else [];
      assert anchor in AnchorsOf(nodes)[node];
      assert RefersTo(body, node, anchor, AnchorsOf(nodes), PortsOf(nodes));
    }
    assert forall c :: c in nodes ==> LinksOf(nodes)[c] == [];
  }

  /** A context or a switch whose one child has an anchor beside its first one, and a port that maps to it or none. */
  method OneChild(isContext: bool, isMapped: bool)
      returns (ghost nodes: set<Node>, node: Node, whole: InterfacePoint, anchor: InterfacePoint)
    ensures fresh(nodes) && IsDocument(nodes) && Intact(nodes) && node in nodes && node.parent in nodes
    ensures node.parent.isComposite && node.parent.isEntity && node.parent.isLinkComposition == isContext
    ensures !node.isComposite && !node.isLinkComposition && node.isEntity
    ensures node.anchors == [whole, anchor] && whole != anchor && anchor.isAnchor
    ensures if isMapped then |node.parent.ports| == 1 && Maps(node.parent.ports[0], node, anchor)
            else node.parent.ports == []
  {
    hide IsDocument, Intact;
    var body := new Node("body", null, true, isContext, true);
    node := new Node("media", body, false, false, true);
    whole := new InterfacePoint("", true, false, null, null, []);
    anchor := new InterfacePoint("anchor", true, false, null, null, []);
    node.anchors := [whole, anchor];
    if isMapped {
      var port := new InterfacePoint("port", false, false, node, anchor, []);
      body.ports := [port];
    }
    nodes := {body, node};
    OneChildIsDocument(body, node, whole, anchor, body.ports);
  }

  /** Removing an anchor that a port maps to is undefined as the code is written. */
  method MappedAnchorIsUndefined(isContext: bool) returns (outcome: Outcome)
    ensures outcome.Undefined?
  {
    hide IsDocument, Intact, IsRemoved, Maps;
    var nodes, node, whole, anchor := OneChild(isContext, true);
    assert !IsFree(PortsOf(nodes), node, anchor) by {
      assert node.parent.ports[0] in node.parent.ports;
    }
    outcome := RemoveInterfaceAsWritten(nodes, node, anchor);
  }

  /** So is removing any anchor of a child of a context. */
  method AnchorInContextIsUndefined(isMapped: bool) returns (outcome: Outcome)
    ensures outcome.Undefined?
  {
    hide IsDocument, Intact, IsRemoved, Maps;
    var nodes, node, whole, anchor := OneChild(true, isMapped);
    outcome := RemoveInterfaceAsWritten(nodes, node, anchor);
  }

  /** An anchor of a child of a switch, to which no port maps, is removed as it should be. */
  method AnchorInSwitchGoes() returns (outcome: Outcome, node: Node, whole: InterfacePoint)
    ensures outcome.Completed? && node.anchors == [whole]
  {
    hide IsDocument, Intact, Maps, Left;
    var nodes, child, first, anchor := OneChild(false, false);
    node, whole := child, first;
    outcome := RemoveInterfaceAsWritten(nodes, node, anchor);
    assert IsAnchorGone(node, anchor, [whole, anchor], node.anchors);
  }

  lemma DocumentIsTree(nodes: set<Node>)
    requires IsDocument(nodes)
    ensures IsTree(nodes)
  {
  }

  /** As it is meant, the only port of the parent goes with an anchor that it maps to. */
  method MappedAnchorIsMeantToGo(ghost nodes: set<Node>, node: Node, anchor: InterfacePoint, ghost port: InterfacePoint)
    requires IsDocument(nodes) && node in nodes && node.parent != null && node.parent in nodes
    requires anchor.isAnchor && node.parent.ports == [port] && Maps(port, node, anchor)
    modifies nodes
    ensures node.parent.ports == []
  {
    hide IsDocument, Intact, Maps;
    ghost var ps := PortsOf(nodes);
    assert IsTree(nodes) by {
      DocumentIsTree(nodes);
    }
    RemoveInterface(nodes, node, anchor);
    if node.parent.ports != [] {
      PortsLeftAre(ps[node.parent], node.parent, Doomed(ps, node, anchor));
      NobodyMaps(ps, node, anchor, node.parent.ports[0]);
    }
  }

  // ----- Removing a link, as it is written

  /**
   What the loop of `removeLink` leaves where iterators are addresses: every link of that identifier is
   erased, except that the one after an erased link is passed over.
   */
  ghost function Swept(links: seq<Link>, id: string): seq<Link> {
    if links == [] then []
    else if links[0].id != id then [links[0]] + Swept(links[1..], id)
    else if |links| == 1 then []
    else [links[1]] + Swept(links[2..], id)
  }

  /** The last link is among the erased ones, which is what the loop's result says. */
  ghost predicate ErasesLast(links: seq<Link>, id: string) {
    if links == [] then false
    else if links[0].id != id then ErasesLast(links[1..], id)
    else if |links| == 1 then true
    else ErasesLast(links[2..], id)
  }

  /** `removeLink` of a composition: the loop goes on after it has erased a link that is not the last. */
  method RemoveLink(c: Node, link: Link) returns (r: bool)
    modifies c`links
    ensures c.links == Swept(old(c.links), link.id)
    ensures r == ErasesLast(old(c.links), link.id)
  {
    var i := 0;
    assert c.links[0..] == c.links && [] + Swept(c.links, link.id) == Swept(c.links, link.id);
    while i < |c.links|
      invariant i <= |c.links|
      invariant c.links[..i] + Swept(c.links[i..], link.id) == Swept(old(c.links), link.id)
      invariant ErasesLast(c.links[i..], link.id) == ErasesLast(old(c.links), link.id)
    {
      if c.links[i].id == link.id {
        SweepErases(c.links, i, link.id);
        c.links := c.links[..i] + c.links[i + 1..];
        if i == |c.links| {
          assert c.links[..i] + [] == c.links;
          return true;
        }
      } else {
        SweepPasses(c.links, i, link.id);
      }
      i := i + 1;
    }
    assert c.links[..i] + [] == c.links;
    r := false;
  }

  lemma SweepPasses(links: seq<Link>, i: nat, id: string)
    requires i < |links| && links[i].id != id
    ensures links[..i + 1] + Swept(links[i + 1..], id) == links[..i] + Swept(links[i..], id)
    ensures ErasesLast(links[i + 1..], id) == ErasesLast(links[i..], id)
  {
    assert links[i..][1..] == links[i + 1..] && links[..i] + [links[i]] == links[..i + 1];
  }

  lemma SweepErases(links: seq<Link>, i: nat, id: string)
    requires i < |links| && links[i].id == id
    ensures var rest := links[..i] + links[i + 1..];
            if i == |rest| then
              Swept(links[i..], id) == [] && ErasesLast(links[i..], id)
            else
              && rest[..i + 1] + Swept(rest[i + 1..], id) == links[..i] + Swept(links[i..], id)
              && ErasesLast(rest[i + 1..], id) == ErasesLast(links[i..], id)
  {
    var rest := links[..i] + links[i + 1..];
    if i < |rest| {
      assert rest[i + 1..] == links[i..][2..] && rest[..i + 1] == links[..i] + [links[i..][1]];
    }
  }

  lemma {:induction false} SweepShortens(links: seq<Link>, id: string)
    ensures |Swept(links, id)| <= |links|
    ensures |Swept(links, id)| == |links| ==> Swept(links, id) == links
    ensures Swept(links, id) == links <==> forall l :: l in links ==> l.id != id
  {
    if links != [] {
      if links[0].id != id {
        SweepShortens(links[1..], id);
      } else if |links| > 1 {
        SweepShortens(links[2..], id);
        assert links[0] in links;
      }
    }
  }

  /** No link is called so but the two at these places, which may be past the end. */
  ghost predicate OnlyAt(links: seq<Link>, id: string, i: int, k: int) {
    forall j :: 0 <= j < |links| && links[j].id == id ==> j == i || j == k
  }

  lemma OnlyAtNext(links: seq<Link>, id: string, i: int, k: int)
    requires links != [] && links[0].id != id
    ensures OnlyAt(links, id, i, k) <==> OnlyAt(links[1..], id, i - 1, k - 1)
  {
    assert forall j :: 0 <= j < |links| - 1 ==> links[1..][j] == links[j + 1];
    assert forall j :: 1 <= j < |links| ==> links[j] == links[1..][j - 1];
  }

  /**
   The loop takes out the link that it was called for and nothing else exactly if no other has its
   identifier, except that the next one may: or it takes out the previous one, if that is the same link.
   */
  lemma {:induction false} RemovesOnlyThatLink(links: seq<Link>, at: nat)
    requires at < |links|
    ensures Swept(links, links[at].id) == links[..at] + links[at + 1..] <==>
            || OnlyAt(links, links[at].id, at, at + 1)
            || (at > 0 && links[at - 1] == links[at] && OnlyAt(links, links[at].id, at - 1, at))
  {
    var id := links[at].id;
    if links[0].id != id {
      RemovesOnlyThatLink(links[1..], at - 1);
      OnlyAtNext(links, id, at, at + 1);
      OnlyAtNext(links, id, at - 1, at);
      assert links[..at] + links[at + 1..] == [links[0]] + (links[1..][..at - 1] + links[1..][at..]);
      assert ([links[0]] + Swept(links[1..], id))[1..] == Swept(links[1..], id);
    } else if |links| > 1 {
      var rest := links[2..];
      SweepShortens(rest, id);
      assert ([links[1]] + Swept(rest, id))[1..] == Swept(rest, id);
      assert OnlyAt(links, id, 0, 1) <==> forall l :: l in rest ==> l.id != id by {
        assert forall j :: 0 <= j < |rest| ==> rest[j] == links[j + 2];
        assert forall j :: 2 <= j < |links| ==> links[j] in rest;
      }
      if at >= 2 {
        assert links[at] in rest;
      } else {
        assert links[..at] + links[at + 1..] == [links[1 - at]] + rest;
        assert ([links[1 - at]] + rest)[1..] == rest;
      }
    }
  }

  /** When it takes out that link alone, it says so only if the link was the last. */
  lemma {:induction false} ReportsOnlyTheLast(links: seq<Link>, at: nat)
    requires at < |links| && OnlyAt(links, links[at].id, at, at + 1)
    ensures ErasesLast(links, links[at].id) <==> at == |links| - 1
  {
    var id := links[at].id;
    if at > 0 {
      assert links[0].id != id;
      OnlyAtNext(links, id, at, at + 1);
      ReportsOnlyTheLast(links[1..], at - 1);
    } else if |links| > 1 {
      assert forall j :: 0 <= j < |links| - 2 ==> links[2..][j] == links[j + 2];
      NoneErased(links[2..], id);
    }
  }

  lemma {:induction false} NoneErased(links: seq<Link>, id: string)
    requires forall l :: l in links ==> l.id != id
    ensures !ErasesLast(links, id)
  {
    if links != [] {
      NoneErased(links[1..], id);
    }
  }

  /** `removeLink` by the letter of the language: erasing invalidates the iterator that the loop then advances. */
  method RemoveLinkAsWritten(c: Node, link: Link) returns (outcome: Outcome)
    modifies c`links
    ensures outcome.Completed? <==> forall j :: 0 <= j < |old(c.links)| - 1 ==> old(c.links)[j].id != link.id
    ensures outcome.Completed? && link in old(c.links) ==> c.links == Minus(old(c.links), [link])
    ensures outcome.Completed? ==> c.links == Swept(old(c.links), link.id)
  {
    var i := 0;
    while i < |c.links|
      invariant i <= |c.links| && c.links == old(c.links)
      invariant forall j :: 0 <= j < i ==> c.links[j].id != link.id
    {
      if c.links[i].id == link.id {
        c.links := c.links[..i] + c.links[i + 1..];
        if i < |c.links| {
          return Undefined;
        }
        LastOnly(old(c.links), link);
        return Completed;
      }
      i := i + 1;
    }
    SweepShortens(c.links, link.id);
    outcome := Completed;
  }

  lemma {:induction false} LastOnly(links: seq<Link>, link: Link)
    requires links != [] && links[|links| - 1].id == link.id
    requires forall j :: 0 <= j < |links| - 1 ==> links[j].id != link.id
    ensures Swept(links, link.id) == links[..|links| - 1]
    ensures link in links ==> Minus(links, [link]) == links[..|links| - 1]
  {
    if |links| == 1 {
    } else {
      LastOnly(links[1..], link);
    }
  }

  /** Three links without an identifier: removing the first removes the third as well. */
  method ThreeUnnamedLinks() returns (ghost c: Node, first: Link, second: Link, third: Link)
    ensures first.id == second.id == third.id == "" && first != second && second != third && first != third
    ensures c.isComposite && c.isLinkComposition && c.links == [second]
  {
    first := new Link("", []);
    second := new Link("", []);
    third := new Link("", []);
    var context := new Node("body", null, true, true, true);
    context.links := [first, second, third];
    c := context;
    assert context.links[2..] == [third] && Swept([third], "") == [];
    var _ := RemoveLink(context, first);
  }
}
