/** The linked list of addrinfo structures, as the procedures of libgai change it. */
module AddrList {
  import opened Families
  import opened Wrappers
  import Sequences
  import opened AddrSpec

  /** A socket address in a block of its own. */
  class SockAddr {
    var port: int
    const address: seq<int>

    constructor (port: int, address: seq<int>)
      ensures this.port == port && this.address == address
    {
      this.port, this.address := port, address;
    }
  }

  class AddrInfo {
    var clone: bool
    const family: Family
    var sockType: int
    const protocol: int
    const addr: SockAddr
    var next: AddrInfo?

    constructor (clone: bool, family: Family, sockType: int, protocol: int, addr: SockAddr, next: AddrInfo?)
      ensures this.clone == clone && this.family == family && this.sockType == sockType && this.protocol == protocol
      ensures this.addr == addr && this.next == next
    {
      this.clone, this.family, this.sockType, this.protocol := clone, family, sockType, protocol;
      this.addr, this.next := addr, next;
    }

    function Value(): Entry
      reads this, addr
    {
      Entry(clone, family, sockType, protocol, addr.port, addr.address)
    }
  }

  // ----- The list and its value -----

  ghost function Blocks(nodes: seq<AddrInfo>): set<object> {
    set n | n in nodes :: n.addr
  }

  /** The node behind the i-th. */
  ghost function After(nodes: seq<AddrInfo>, i: int): AddrInfo? {
    if 0 <= i + 1 < |nodes| then nodes[i + 1] else null
  }

  /** The nodes are linked in this order, and share neither nodes nor address blocks. */
  ghost predicate Linked(nodes: seq<AddrInfo>)
    reads nodes
  {
    && (forall i {:trigger nodes[i].next} | 0 <= i < |nodes| :: nodes[i].next == After(nodes, i))
    && Separate(nodes)
  }

  ghost predicate Separate(nodes: seq<AddrInfo>) {
    forall i, j | 0 <= i < j < |nodes| :: nodes[i] != nodes[j] && nodes[i].addr != nodes[j].addr
  }

  ghost function Head(nodes: seq<AddrInfo>): AddrInfo? {
    After(nodes, -1)
  }

  ghost function Values(nodes: seq<AddrInfo>): (es: seq<Entry>)
    reads nodes, Blocks(nodes)
    ensures |es| == |nodes| && forall i {:trigger es[i]} | 0 <= i < |nodes| :: es[i] == nodes[i].Value()
  {
    seq(|nodes|, i requires 0 <= i < |nodes| reads nodes, Blocks(nodes) => nodes[i].Value())
  }

  /** A copy of an entry behind it, with an address block of its own and without the
      flag. */
  method Clone(ai: AddrInfo) returns (new': AddrInfo)
    modifies ai`next
    ensures fresh(new') && fresh(new'.addr)
    ensures ai.next == new' && new'.next == old(ai.next)
    ensures new'.Value() == ai.Value().(clone := false)
  {
    var block := new SockAddr(ai.addr.port, ai.addr.address);
    new' := new AddrInfo(false, ai.family, ai.sockType, ai.protocol, block, ai.next);
    ai.next := new';
  }

  /** Clone in place: the copy of the k-th node becomes the next one. */
  method Grow(ai: AddrInfo, ghost nodes: seq<AddrInfo>, ghost k: nat)
    returns (copy: AddrInfo, ghost after: seq<AddrInfo>)
    requires Linked(nodes) && k < |nodes| && ai == nodes[k]
    modifies ai`next
    ensures fresh(copy) && fresh(copy.addr) && after == nodes[..k + 1] + [copy] + nodes[k + 1..] && Linked(after)
    ensures Values(after)
            == old(Values(nodes))[..k + 1] + [old(ai.Value()).(clone := false)] + old(Values(nodes))[k + 1..]
  {
    copy := Clone(ai);
    after := nodes[..k + 1] + [copy] + nodes[k + 1..];
    forall i | 0 <= i < |after| ensures after[i].next == After(after, i) {
      if i < k {
        assert after[i] == nodes[i] && nodes[i] != nodes[k];
      } else if i > k + 1 {
        assert after[i] == nodes[i - 1] && nodes[i - 1] != nodes[k];
      }
    }
  }

  /** The k-th node takes the service. */
  method Assign(ai: AddrInfo, s: Service, ghost nodes: seq<AddrInfo>, ghost k: nat) returns (found: nat)
    requires Linked(nodes) && k < |nodes| && ai == nodes[k]
    modifies ai`sockType, ai.addr
    ensures Linked(nodes) && Values(nodes) == old(Values(nodes))[k := Assigned(old(ai.Value()), s)]
    ensures found == if HasPort(ai.family) then 1 else 0
  {
    found := 0;
    ai.sockType := s.sockType;
    if HasPort(ai.family) {
      ai.addr.port := s.port;
      found := 1;
    }
  }

  lemma {:induction false} Middle<T>(front: seq<T>, rest: seq<T>)
    requires rest != []
    ensures (front + rest)[..|front|] == front && (front + rest)[|front|] == rest[0]
    ensures (front + rest)[|front| + 1..] == rest[1..]
  {
  }

  /** The body of the loop of ga_port for the first node behind `front`: it is passed
      over, takes the service, or gets a clone behind it that takes it. `last` is the
      node from which the walk goes on. */
  method Visit(ai: AddrInfo, s: Service, ghost nodes: seq<AddrInfo>, ghost front: seq<Entry>, ghost rest: seq<Entry>)
    returns (last: AddrInfo, found: nat, ghost after: seq<AddrInfo>)
    requires Linked(nodes) && Values(nodes) == front + rest && rest != [] && ai == nodes[|front|]
    modifies ai, ai.addr
    ensures Linked(after) && Head(after) == Head(nodes)
    ensures Values(after) == front + PassOne(rest[0], s) + rest[1..]
    ensures last.next == After(after, |front + PassOne(rest[0], s)| - 1)
    ensures found == Found([rest[0]], s)
    ensures forall n | n in after :: n in nodes || (fresh(n) && fresh(n.addr))
  {
    ghost var e, k := rest[0], |front|;
    PassSingle(e, s);
    Middle(front, rest);
    assert Values(nodes)[k] == ai.Value();
    last, found, after := ai, 0, nodes;
    if ai.clone {
      if ai.sockType != 0 {
        last, after := Grow(ai, nodes, k);
        assert Values(after)[k + 1] == last.Value();
        found := Assign(last, s, after, k + 1);
        assert Values(after) == front + [e, Assigned(e.(clone := false), s)] + rest[1..];
        return;
      }
    } else if ai.sockType != s.sockType {
      assert front + [e] + rest[1..] == front + rest;
      return;
    }
    found := Assign(ai, s, nodes, k);
    assert (front + rest)[k := Assigned(e, s)] == front + [Assigned(e, s)] + rest[1..];
  }

  /** ga_port. `nodes` are the nodes of the list, `after` those it has in the end; it
      grows while it is walked. */
  method Port(head: AddrInfo?, s: Service, ghost nodes: seq<AddrInfo>) returns (found: nat, ghost after: seq<AddrInfo>)
    requires Linked(nodes) && head == Head(nodes)
    modifies nodes, Blocks(nodes)
    ensures Linked(after) && head == Head(after)
    ensures Values(after) == Pass(old(Values(nodes)), s)
    ensures found == Found(old(Values(nodes)), s)
    ensures forall n | n in after :: n in nodes || (fresh(n) && fresh(n.addr))
  {
    ghost var front, rest: seq<Entry> := [], Values(nodes);
    ghost var goal, total := Pass(rest, s), Found(rest, s);
    found, after := 0, nodes;
    var ai := head;
    assert [] + goal == goal && [] + rest == rest;
    while ai != null
      invariant Linked(after) && head == Head(after) && ai == After(after, |front| - 1)
      invariant Values(after) == front + rest
      invariant goal == front + Pass(rest, s) && total == found + Found(rest, s)
      invariant forall n | n in after :: n in nodes || (fresh(n) && fresh(n.addr))
      decreases |rest|
    {
      ghost var one := PassOne(rest[0], s);
      PassSingle(rest[0], s);
      Sequences.AppendAssociates(front, one, Pass(rest[1..], s));
      var last, n;
      last, n, after := Visit(ai, s, after, front, rest);
      front, rest := front + one, rest[1..];
      found := found + n;
      ai := last.next;
    }
    assert rest == [] && front + [] == front;
  }

  // ----- The service -----

  lemma {:induction false} OneMore(es: seq<Entry>, done: seq<Service>, s: Service)
    ensures Passes(es, done + [s]) == Pass(Passes(es, done), s)
    ensures FoundInAll(es, done + [s]) == FoundInAll(es, done) + Found(Passes(es, done), s)
  {
    assert (done + [s])[..|done|] == done;
  }

  /** One of the passes, behind those `done` over the list of the entries `es`. */
  method OnePass(head: AddrInfo?, s: Service, so: nat, ghost nodes: seq<AddrInfo>, ghost es: seq<Entry>,
                 ghost done: seq<Service>)
    returns (found: nat, ghost after: seq<AddrInfo>, ghost all: seq<Service>)
    requires Linked(nodes) && head == Head(nodes)
    requires Values(nodes) == Passes(es, done) && so == FoundInAll(es, done)
    modifies nodes, Blocks(nodes)
    ensures Linked(after) && head == Head(after) && all == done + [s]
    ensures Values(after) == Passes(es, all) && found == FoundInAll(es, all)
    ensures forall n | n in after :: n in nodes || (fresh(n) && fresh(n.addr))
  {
    OneMore(es, done, s);
    all := done + [s];
    found, after := Port(head, s, nodes);
    found := so + found;
  }

  /** The passes for a port number. */
  method ServeNumber(head: AddrInfo?, hint: int, port: int, ghost nodes: seq<AddrInfo>, ghost es: seq<Entry>)
    returns (found: nat, ghost after: seq<AddrInfo>, ghost done: seq<Service>)
    requires Linked(nodes) && head == Head(nodes) && Values(nodes) == es
    modifies nodes, Blocks(nodes)
    ensures Linked(after) && head == Head(after) && done == Requested(hint, Number(port))
    ensures Values(after) == Passes(es, done) && found == FoundInAll(es, done)
  {
    found, after, done := 0, nodes, [];
    if hint != 0 {
      found, after, done := OnePass(head, Service(port, hint), found, after, es, done);
    } else {
      found, after, done := OnePass(head, Service(port, SOCK_STREAM), found, after, es, done);
      found, after, done := OnePass(head, Service(port, SOCK_DGRAM), found, after, es, done);
    }
  }

  /** The pass for a protocol, if its type is wanted and the service has a port there. */
  method ProtocolPass(head: AddrInfo?, hint: int, sockType: int, port: Option<int>, so: nat, ghost nodes: seq<AddrInfo>,
                      ghost es: seq<Entry>, ghost done: seq<Service>)
    returns (found: nat, ghost after: seq<AddrInfo>, ghost all: seq<Service>)
    requires Linked(nodes) && head == Head(nodes)
    requires Values(nodes) == Passes(es, done) && so == FoundInAll(es, done)
    modifies nodes, Blocks(nodes)
    ensures Linked(after) && head == Head(after)
    ensures all
            == done + (if (hint == 0 || hint == sockType) && port.Some? then [Service(port.value, sockType)] else [])
    ensures Values(after) == Passes(es, all) && found == FoundInAll(es, all)
    ensures forall n | n in after :: n in nodes || (fresh(n) && fresh(n.addr))
  {
    found, after, all := so, nodes, done;
    if hint == 0 || hint == sockType {
      if port.Some? {
        found, after, all := OnePass(head, Service(port.value, sockType), so, nodes, es, done);
      }
    }
  }

  /** The passes for a service name, for each protocol it was found for. */
  method ServeName(head: AddrInfo?, hint: int, tcp: Option<int>, udp: Option<int>, ghost nodes: seq<AddrInfo>,
                   ghost es: seq<Entry>)
    returns (found: nat, ghost after: seq<AddrInfo>, ghost done: seq<Service>)
    requires Linked(nodes) && head == Head(nodes) && Values(nodes) == es
    modifies nodes, Blocks(nodes)
    ensures Linked(after) && head == Head(after) && done == Requested(hint, Named(tcp, udp))
    ensures Values(after) == Passes(es, done) && found == FoundInAll(es, done)
  {
    found, after, done := ProtocolPass(head, hint, SOCK_STREAM, tcp, 0, nodes, es, []);
    found, after, done := ProtocolPass(head, hint, SOCK_DGRAM, udp, found, after, es, done);
  }

  /** ga_serv: the passes that the service asks for, and whether they found anything. */
  method Serve(head: AddrInfo?, hint: int, name: Name, ghost nodes: seq<AddrInfo>)
    returns (status: Status, ghost after: seq<AddrInfo>)
    requires Linked(nodes) && head == Head(nodes)
    modifies nodes, Blocks(nodes)
    ensures Linked(after) && head == Head(after)
    ensures Values(after) == Passes(old(Values(nodes)), Requested(hint, name))
    ensures status == Outcome(FoundInAll(old(Values(nodes)), Requested(hint, name)), hint)
  {
    ghost var es, done := Values(nodes), [];
    var found;
    match name {
      case Number(port) => found, after, done := ServeNumber(head, hint, port, nodes, es);
      case Named(tcp, udp) => found, after, done := ServeName(head, hint, tcp, udp, nodes, es);
    }
    status := if found > 0 then Success else if hint == 0 then NoName else NoService;
  }

  // ----- Building the list -----

  /** The list under construction; the source keeps a pointer to the link to fill in. */
  class Builder {
    var head: AddrInfo?
    var last: AddrInfo?
    ghost var nodes: seq<AddrInfo>

    ghost predicate Valid()
      reads this, nodes
    {
      Linked(nodes) && head == Head(nodes) && last == After(nodes, |nodes| - 2)
    }

    constructor ()
      ensures Valid() && nodes == []
    {
      head, last, nodes := null, null, [];
    }

    /** ga_aistruct for an internet address: flagged for cloning exactly when no socket
        type was asked for. */
    method Append(hint: int, protocol: int, family: Family, address: seq<int>) returns (ghost added: AddrInfo)
      requires Valid() && HasPort(family)
      modifies this, nodes
      ensures Valid() && nodes == old(nodes) + [added] && fresh(added) && fresh(added.addr)
      ensures Values(nodes) == old(Values(nodes)) + [Entry(hint == 0, family, hint, protocol, 0, address)]
    {
      ghost var es := Values(nodes);
      var block := new SockAddr(0, address);
      var ai := new AddrInfo(hint == 0, family, hint, protocol, block, null);
      if last == null {
        head := ai;
      } else {
        last.next := ai;
      }
      last := ai;
      ghost var was := nodes;
      nodes, added := nodes + [ai], ai;
      forall i | 0 <= i < |nodes| ensures nodes[i].next == After(nodes, i) {
        if i < |was| {
          assert nodes[i] == was[i];
        }
      }
      assert Values(nodes)[|was|] == ai.Value();
      forall i | 0 <= i < |was| ensures Values(nodes)[i] == es[i] {
        assert Values(nodes)[i] == was[i].Value();
      }
    }
  }

  datatype Host = Host(family: Family, address: seq<int>)

  /** The entries a host search leaves. */
  function Entries(hosts: seq<Host>, hint: int, protocol: int): (es: seq<Entry>)
    ensures |es| == |hosts|
    ensures forall i | 0 <= i < |es| ::
              es[i] == Entry(hint == 0, hosts[i].family, hint, protocol, 0, hosts[i].address)
  {
    seq(|hosts|, i requires 0 <= i < |hosts| =>
      Entry(hint == 0, hosts[i].family, hint, protocol, 0, hosts[i].address))
  }

  /** The addresses of a host, then its service: without a socket type every address gets
      one entry for each protocol the service has, in the order of the addresses. */
  method Lookup(hosts: seq<Host>, hint: int, protocol: int, name: Name)
    returns (head: AddrInfo?, status: Status, ghost nodes: seq<AddrInfo>)
    requires forall i | 0 <= i < |hosts| :: HasPort(hosts[i].family)
    ensures Linked(nodes) && head == Head(nodes)
    ensures Values(nodes) == Passes(Entries(hosts, hint, protocol), Requested(hint, name))
    ensures hint == 0 ==> Values(nodes) == Groups(Entries(hosts, hint, protocol), Requested(hint, name))
    ensures status == Outcome(FoundInAll(Entries(hosts, hint, protocol), Requested(hint, name)), hint)
  {
    var list := new Builder();
    for k := 0 to |hosts|
      invariant fresh(list) && list.Valid() && fresh(list.nodes) && fresh(Blocks(list.nodes))
      invariant Values(list.nodes) == Entries(hosts[..k], hint, protocol)
    {
      ghost var before := list.nodes;
      ghost var added := list.Append(hint, protocol, hosts[k].family, hosts[k].address);
      assert Blocks(list.nodes) == Blocks(before) + {added.addr};
      assert hosts[..k + 1] == hosts[..k] + [hosts[k]];
    }
    assert hosts[..|hosts|] == hosts;
    ghost var es := Entries(hosts, hint, protocol);
    if hint == 0 {
      PassesGroup(es, Requested(hint, name));
    }
    head := list.head;
    status, nodes := Serve(head, hint, name, list.nodes);
  }
}
