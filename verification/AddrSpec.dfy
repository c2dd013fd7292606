/** The list of addresses that getaddrinfo builds, as values: what one pass for a
    socket type does to it, and what a number of passes amount to. */
module AddrSpec {
  import opened Families
  import opened Wrappers
  import Sequences

  /** The families that carry a port. */
  predicate HasPort(f: Family) {
    !f.Other?
  }

  /** One addrinfo with its address block; `clone` is the AI_CLONE flag. */
  datatype Entry = Entry(clone: bool, family: Family, sockType: int, protocol: int, port: int, address: seq<int>)

  /** A port for a socket type. */
  datatype Service = Service(port: int, sockType: int)

  function Assigned(e: Entry, s: Service): Entry {
    e.(sockType := s.sockType, port := if HasPort(e.family) then s.port else e.port)
  }

  /** What a pass makes of one entry: an entry to be cloned that has a type already is
      followed by a clone, one without a type takes it, and any other entry takes the
      port if it is of that type. */
  function PassOne(e: Entry, s: Service): seq<Entry> {
    if e.clone && e.sockType != 0 then [e, Assigned(e.(clone := false), s)]
    else if e.clone || e.sockType == s.sockType then [Assigned(e, s)]
    else [e]
  }

  function Pass(es: seq<Entry>, s: Service): seq<Entry> {
    if es == [] then [] else PassOne(es[0], s) + Pass(es[1..], s)
  }

  /** How many entries, new or old, take the port. */
  function Found(es: seq<Entry>, s: Service): nat {
    if es == [] then 0
    else (if (es[0].clone || es[0].sockType == s.sockType) && HasPort(es[0].family) then 1 else 0) + Found(es[1..], s)
  }

  function Passes(es: seq<Entry>, services: seq<Service>): seq<Entry> {
    if services == [] then es else Pass(Passes(es, services[..|services| - 1]), services[|services| - 1])
  }

  function FoundInAll(es: seq<Entry>, services: seq<Service>): nat {
    if services == [] then 0
    else
      var init := services[..|services| - 1];
      FoundInAll(es, init) + Found(Passes(es, init), services[|services| - 1])
  }

  // ----- What the passes amount to -----

  /** The clones of an entry for the later services, newest first. */
  function Clones(e: Entry, later: seq<Service>): (c: seq<Entry>)
    ensures |c| == |later|
  {
    if later == [] then []
    else [Assigned(e.(clone := false), later[|later| - 1])] + Clones(e, later[..|later| - 1])
  }

  /** What becomes of one entry: it takes the first service, and a clone follows for
      every other, the newest first. */
  function Group(e: Entry, services: seq<Service>): (g: seq<Entry>)
    ensures |g| == if services == [] then 1 else |services|
  {
    if services == [] then [e] else [Assigned(e, services[0])] + Clones(e, services[1..])
  }

  function Groups(es: seq<Entry>, services: seq<Service>): seq<Entry> {
    if es == [] then [] else Group(es[0], services) + Groups(es[1..], services)
  }

  /** Socket types are not 0, and no two services have the same. */
  predicate Distinct(services: seq<Service>) {
    && (forall i | 0 <= i < |services| :: services[i].sockType != 0)
    && forall i, j | 0 <= i < j < |services| :: services[i].sockType != services[j].sockType
  }

  /** Entries as the host search leaves them when no socket type was asked for. */
  predicate Untyped(es: seq<Entry>) {
    forall i | 0 <= i < |es| :: es[i].clone && es[i].sockType == 0 && HasPort(es[i].family)
  }

  lemma {:induction false} PassAppend(a: seq<Entry>, b: seq<Entry>, s: Service)
    ensures Pass(a + b, s) == Pass(a, s) + Pass(b, s)
    ensures Found(a + b, s) == Found(a, s) + Found(b, s)
  {
    if a == [] {
      assert a + b == b;
    } else {
      assert (a + b)[1..] == a[1..] + b;
      PassAppend(a[1..], b, s);
      Sequences.AppendAssociates(PassOne(a[0], s), Pass(a[1..], s), Pass(b, s));
    }
  }

  /** Clones of other types are passed over. */
  lemma {:induction false} PassClones(e: Entry, later: seq<Service>, s: Service)
    requires forall i | 0 <= i < |later| :: later[i].sockType != s.sockType
    ensures Pass(Clones(e, later), s) == Clones(e, later) && Found(Clones(e, later), s) == 0
  {
    if later != [] {
      PassClones(e, later[..|later| - 1], s);
      assert Clones(e, later)[1..] == Clones(e, later[..|later| - 1]);
    }
  }

  lemma {:induction false} ClonesPush(e: Entry, later: seq<Service>, s: Service)
    ensures Clones(e, later + [s]) == [Assigned(e.(clone := false), s)] + Clones(e, later)
  {
    assert (later + [s])[..|later|] == later;
  }

  lemma {:induction false} DistinctLast(services: seq<Service>, s: Service)
    requires Distinct(services + [s])
    ensures s.sockType != 0 && Distinct(services)
    ensures forall i | 0 <= i < |services| :: services[i].sockType != s.sockType && services[i].sockType != 0
  {
    var all := services + [s];
    assert all[|services|] == s;
    assert forall i | 0 <= i < |services| :: all[i] == services[i];
  }

  lemma {:induction false} PassSingle(e: Entry, s: Service)
    ensures Pass([e], s) == PassOne(e, s)
    ensures Found([e], s) == if (e.clone || e.sockType == s.sockType) && HasPort(e.family) then 1 else 0
  {
    assert [e][1..] == [] && PassOne(e, s) + [] == PassOne(e, s);
  }

  lemma {:induction false} GroupPush(e: Entry, services: seq<Service>, s: Service)
    requires services != []
    ensures Group(e, services + [s])
            == [Assigned(e, services[0]), Assigned(e.(clone := false), s)] + Clones(e, services[1..])
  {
    assert (services + [s])[1..] == services[1..] + [s];
    ClonesPush(e, services[1..], s);
  }

  /** One more pass adds the new service to a group, and counts it once. */
  lemma {:induction false} PassGroup(e: Entry, services: seq<Service>, s: Service)
    requires e.clone && e.sockType == 0 && HasPort(e.family) && Distinct(services + [s])
    ensures Pass(Group(e, services), s) == Group(e, services + [s]) && Found(Group(e, services), s) == 1
  {
    DistinctLast(services, s);
    if services == [] {
      PassSingle(e, s);
      assert [] + [s] == [s];
    } else {
      var first := Assigned(e, services[0]);
      PassSingle(first, s);
      PassClones(e, services[1..], s);
      PassAppend([first], Clones(e, services[1..]), s);
      GroupPush(e, services, s);
    }
  }

  lemma {:induction false} PassGroups(es: seq<Entry>, services: seq<Service>, s: Service)
    requires Untyped(es) && Distinct(services + [s])
    ensures Pass(Groups(es, services), s) == Groups(es, services + [s]) && Found(Groups(es, services), s) == |es|
  {
    if es != [] {
      PassGroup(es[0], services, s);
      PassGroups(es[1..], services, s);
      PassAppend(Group(es[0], services), Groups(es[1..], services), s);
    }
  }

  lemma {:induction false} NoPasses(es: seq<Entry>)
    ensures Groups(es, []) == es
  {
    if es != [] {
      NoPasses(es[1..]);
    }
  }

  lemma {:induction false} MulStep(n: nat, m: nat)
    ensures (n + 1) * m == n * m + m && m * (n + 1) == m * n + m
  {
  }

  /** After any number of passes for distinct types over untyped entries, the list is
      made of one group for every entry, in the original order. */
  lemma {:induction false} PassesGroup(es: seq<Entry>, services: seq<Service>)
    requires Untyped(es) && Distinct(services)
    ensures Passes(es, services) == Groups(es, services)
    ensures FoundInAll(es, services) == |services| * |es|
  {
    if services == [] {
      NoPasses(es);
    } else {
      var init, s := services[..|services| - 1], services[|services| - 1];
      assert init + [s] == services;
      DistinctLast(init, s);
      PassesGroup(es, init);
      PassGroups(es, init, s);
      MulStep(|init|, |es|);
    }
  }

  /** Every single pass finds every entry once. */
  lemma {:induction false} EveryPassFinds(es: seq<Entry>, services: seq<Service>, k: nat)
    requires Untyped(es) && Distinct(services) && k < |services|
    ensures Found(Passes(es, services[..k]), services[k]) == |es|
  {
    PassesGroup(es, services[..k]);
    PassGroups(es, services[..k], services[k]);
  }

  lemma {:induction false} ClonesAt(e: Entry, later: seq<Service>, j: nat)
    requires j < |later|
    ensures Clones(e, later)[|later| - 1 - j] == Assigned(e.(clone := false), later[j])
  {
    if j < |later| - 1 {
      ClonesAt(e, later[..|later| - 1], j);
    }
  }

  /** Inside a group: the original first, then the services from the last to the second. */
  lemma {:induction false} GroupAt(e: Entry, services: seq<Service>, j: nat)
    requires j < |services|
    ensures Group(e, services)[if j == 0 then 0 else |services| - j]
            == if j == 0 then Assigned(e, services[0]) else Assigned(e.(clone := false), services[j])
  {
    if j > 0 {
      ClonesAt(e, services[1..], j - 1);
    }
  }

  /** Where the i-th of groups of n entries begins. */
  function Offset(i: nat, n: nat): nat {
    if i == 0 then 0 else n + Offset(i - 1, n)
  }

  lemma {:induction false} OffsetIsProduct(i: nat, n: nat)
    ensures Offset(i, n) == i * n
  {
    if i > 0 {
      OffsetIsProduct(i - 1, n);
      MulStep(i - 1, n);
    }
  }

  lemma {:induction false} GroupsLength(es: seq<Entry>, services: seq<Service>)
    requires services != []
    ensures |Groups(es, services)| == Offset(|es|, |services|)
  {
    if es != [] {
      GroupsLength(es[1..], services);
    }
  }

  lemma {:induction false} AppendAt<T>(a: seq<T>, b: seq<T>, n: nat, o: nat, p: nat, v: T)
    requires |a| == n && o + p < |b| && b[o + p] == v
    ensures n + o + p < |a + b| && (a + b)[n + o + p] == v
  {
  }

  lemma {:induction false} EntryAt(es: seq<Entry>, services: seq<Service>, i: nat, p: nat) returns (o: nat, v: Entry)
    requires i < |es| && p < |services|
    ensures o == Offset(i, |services|) && v == Group(es[i], services)[p]
    ensures o + p < |Groups(es, services)| && Groups(es, services)[o + p] == v
  {
    if i == 0 {
      o, v := 0, Group(es[0], services)[p];
    } else {
      o, v := EntryAt(es[1..], services, i - 1, p);
      AppendAt(Group(es[0], services), Groups(es[1..], services), |services|, o, p, v);
      o := |services| + o;
    }
  }

  /** The groups stand one behind the other, each as long as there are services. */
  lemma {:induction false} GroupsAt(es: seq<Entry>, services: seq<Service>, i: nat, p: nat)
    requires i < |es| && p < |services|
    ensures Offset(i, |services|) + p < |Groups(es, services)|
    ensures Groups(es, services)[Offset(i, |services|) + p] == Group(es[i], services)[p]
  {
    var o, v := EntryAt(es, services, i, p);
  }

  // ----- A socket type that was asked for -----

  predicate Typed(es: seq<Entry>, sockType: int) {
    forall i | 0 <= i < |es| :: !es[i].clone && es[i].sockType == sockType && HasPort(es[i].family)
  }

  /** Entries that have their type already keep their places and take the port if the
      service is of that type; otherwise they are left alone. */
  lemma {:induction false} PassTyped(es: seq<Entry>, sockType: int, s: Service)
    requires Typed(es, sockType)
    ensures |Pass(es, s)| == |es|
    ensures forall i | 0 <= i < |es| ::
              Pass(es, s)[i] == if s.sockType == sockType then es[i].(port := s.port) else es[i]
    ensures Found(es, s) == if s.sockType == sockType then |es| else 0
  {
    if es != [] {
      PassTyped(es[1..], sockType, s);
    }
  }

  // ----- The service string -----

  const SOCK_STREAM := 1
  const SOCK_DGRAM := 2

  /** A port number, or a name with what the two lookups find for it. */
  datatype Name = Number(port: int) | Named(tcp: Option<int>, udp: Option<int>)

  /** The passes that a service asks for. */
  function Requested(hint: int, name: Name): seq<Service> {
    match name
    case Number(port) =>
      if hint != 0 then [Service(port, hint)] else [Service(port, SOCK_STREAM), Service(port, SOCK_DGRAM)]
    case Named(tcp, udp) =>
      (if (hint == 0 || hint == SOCK_STREAM) && tcp.Some? then [Service(tcp.value, SOCK_STREAM)] else [])
      + (if (hint == 0 || hint == SOCK_DGRAM) && udp.Some? then [Service(udp.value, SOCK_DGRAM)] else [])
  }

  datatype Status = Success | NoName | NoService

  function Outcome(found: nat, hint: int): Status {
    if found > 0 then Success else if hint == 0 then NoName else NoService
  }

  /** Without a socket type, a service known to both protocols gives every address, in
      order, a stream entry and behind it a datagram entry, each with its own port. */
  lemma {:induction false} BothProtocols(es: seq<Entry>, name: Name)
    requires Untyped(es) && es != []
    requires name.Named? ==> name.tcp.Some? && name.udp.Some?
    ensures var result := Passes(es, Requested(0, name));
            && |result| == 2 * |es|
            && Outcome(FoundInAll(es, Requested(0, name)), 0) == Success
            && forall i | 0 <= i < |es| ::
                 && result[2 * i] == es[i].(sockType := SOCK_STREAM,
                                            port := if name.Number? then name.port else name.tcp.value)
                 && result[2 * i + 1] == es[i].(clone := false, sockType := SOCK_DGRAM,
                                                port := if name.Number? then name.port else name.udp.value)
  {
    var services := Requested(0, name);
    assert |services| == 2;
    PassesGroup(es, services);
    forall i | 0 <= i < |es|
      ensures |Groups(es, services)| == 2 * |es|
      ensures Groups(es, services)[2 * i] == Assigned(es[i], services[0])
      ensures Groups(es, services)[2 * i + 1] == Assigned(es[i].(clone := false), services[1])
    {
      OffsetIsProduct(i, 2);
      OffsetIsProduct(|es|, 2);
      GroupsLength(es, services);
      GroupsAt(es, services, i, 0);
      GroupsAt(es, services, i, 1);
      GroupAt(es[i], services, 0);
      GroupAt(es[i], services, 1);
    }
  }

  lemma {:induction false} SinglePass(es: seq<Entry>, s: Service)
    ensures Passes(es, [s]) == Pass(es, s) && FoundInAll(es, [s]) == Found(es, s)
    ensures Passes(es, []) == es && FoundInAll(es, []) == 0
  {
    assert [s][..0] == [] && [s][0] == s;
  }

  /** The port that a service has for a socket type, if it has one: a number goes for any. */
  function PortFor(name: Name, sockType: int): Option<int> {
    match name
    case Number(port) => Some(port)
    case Named(tcp, udp) => if sockType == SOCK_STREAM then tcp else if sockType == SOCK_DGRAM then udp else None
  }

  /** With a socket type, every address keeps its one entry and takes the port that the
      service has for that type; if it has none, nothing changes and the service is refused. */
  lemma {:induction false} AskedType(es: seq<Entry>, hint: int, name: Name)
    requires hint != 0 && Typed(es, hint)
    ensures var result, port := Passes(es, Requested(hint, name)), PortFor(name, hint);
            && |result| == |es|
            && (forall i | 0 <= i < |es| :: result[i] == if port.Some? then es[i].(port := port.value) else es[i])
            && Outcome(FoundInAll(es, Requested(hint, name)), hint)
               == if port.Some? && es != [] then Success else NoService
  {
    var port := PortFor(name, hint);
    var s := Service(if port.Some? then port.value else 0, hint);
    assert Requested(hint, name) == if port.Some? then [s] else [];
    SinglePass(es, s);
    PassTyped(es, hint, s);
  }

  lemma {:induction false} PassUntyped(es: seq<Entry>, s: Service)
    requires Untyped(es)
    ensures |Pass(es, s)| == |es| == Found(es, s)
    ensures forall i | 0 <= i < |es| :: Pass(es, s)[i] == es[i].(sockType := s.sockType, port := s.port)
  {
    if es != [] {
      PassUntyped(es[1..], s);
    }
  }

  /** Without one, a name that only one protocol knows gives every address one entry of that
      protocol's type, and a name that neither knows is no name. */
  lemma {:induction false} OneProtocol(es: seq<Entry>, tcp: Option<int>, udp: Option<int>)
    requires Untyped(es) && es != [] && (tcp.None? || udp.None?)
    ensures var services := Requested(0, Named(tcp, udp));
            var result, status := Passes(es, services), Outcome(FoundInAll(es, services), 0);
            if tcp.None? && udp.None? then result == es && status == NoName
            else
              && |result| == |es| && status == Success
              && forall i | 0 <= i < |es| ::
                   result[i] == if tcp.Some? then es[i].(sockType := SOCK_STREAM, port := tcp.value)
                                else es[i].(sockType := SOCK_DGRAM, port := udp.value)
  {
    var s := if tcp.Some? then Service(tcp.value, SOCK_STREAM)
             else if udp.Some? then Service(udp.value, SOCK_DGRAM) else Service(0, 0);
    SinglePass(es, s);
    if tcp.Some? || udp.Some? {
      assert Requested(0, Named(tcp, udp)) == [s];
      PassUntyped(es, s);
    }
  }

  /** Addresses of other families are never given a port, nor counted. */
  lemma {:induction false} OthersKeepPort(es: seq<Entry>, s: Service, port: int)
    requires forall i | 0 <= i < |es| :: es[i].family.Other? && es[i].port == port
    ensures Found(es, s) == 0
    ensures forall i | 0 <= i < |Pass(es, s)| :: Pass(es, s)[i].family.Other? && Pass(es, s)[i].port == port
  {
    if es != [] {
      OthersKeepPort(es[1..], s, port);
    }
  }
}
