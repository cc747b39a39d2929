/**
 * Registration of services and protocols by flooding a network of message dispatchers
 * (inet/common/MessageDispatcher and inet/common/IProtocolRegistrationListener).
 *
 * A dispatcher that hears of a registration records the gate it came through and passes it
 * on through its gates of the other direction.  The network may contain cycles; a flag in
 * every dispatcher stops a registration from entering the same dispatcher twice at a time.
 */
module MessageDispatchers {

  import opened Options

  datatype Side = In | Out

  function Opposite(s: Side): Side { if s == In then Out else In }

  datatype Primitive = Request | Indication | Response | Confirm

  datatype Key = Key(protocolId: int, primitive: Primitive)

  /** What is being registered: one protocol or any protocol, in the service or the protocol table. */
  datatype Kind = Service(protocol: nat) | AnyService | Protocol(protocol: nat) | AnyProtocol
  {
    predicate IsService() { Service? || AnyService? }

    predicate IsAny() { AnyService? || AnyProtocol? }

    function ToKey(p: Primitive): Key { Key(if IsAny() then -1 else protocol, p) }
  }

  /** A place in one of the two tables. */
  datatype Slot = Slot(service: bool, key: Key)
  {
    /**
     * The direction of the dispatcher gates recorded here.  Modules register requests and responses
     * of a service, indications and confirmations of a protocol, by an input gate, which an output
     * gate of the dispatcher leads to; the others the other way round.
     */
    function Direction(): Side {
      if service == (key.primitive.Request? || key.primitive.Response?) then Out else In
    }
  }

  function SlotOf(kind: Kind, p: Primitive): Slot { Slot(kind.IsService(), kind.ToKey(p)) }

  /** Different registrations have different places. */
  lemma SlotsAreDistinct(kind: Kind, p: Primitive, other: Kind, q: Primitive)
    ensures SlotOf(kind, p) == SlotOf(other, q) <==> kind == other && p == q
  {
  }

  datatype Outcome = Ok | Conflict | Nested

  class MessageDispatcher {
    const forwardServiceRegistration: bool
    const forwardProtocolRegistration: bool
    const ins: nat
    const outs: nat
    var serviceToGateIndex: map<Key, nat>
    var protocolToGateIndex: map<Key, nat>
    var registeringProtocol: Option<nat>
    var registeringAny: bool
    ghost var rank: map<Slot, nat>   // when an entry was made

    constructor (ins: nat, outs: nat, forwardService: bool, forwardProtocol: bool)
      ensures serviceToGateIndex == map[] && protocolToGateIndex == map[] && registeringProtocol == None && !registeringAny
      ensures this.ins == ins && this.outs == outs
      ensures forwardServiceRegistration == forwardService && forwardProtocolRegistration == forwardProtocol
    {
      this.ins, this.outs := ins, outs;
      forwardServiceRegistration, forwardProtocolRegistration := forwardService, forwardProtocol;
      serviceToGateIndex, protocolToGateIndex := map[], map[];
      registeringProtocol, registeringAny := None, false;
      rank := map[];
    }

    function GateSize(s: Side): nat { if s == In then ins else outs }

    predicate Forwards(kind: Kind) {
      if kind.IsService() then forwardServiceRegistration else forwardProtocolRegistration
    }

    function Table(service: bool): map<Key, nat>
      reads this`serviceToGateIndex, this`protocolToGateIndex
    {
      if service then serviceToGateIndex else protocolToGateIndex
    }

    predicate Has(s: Slot)
      reads this`serviceToGateIndex, this`protocolToGateIndex
    {
      s.key in Table(s.service)
    }

    function Entry(s: Slot): nat
      requires Has(s)
      reads this`serviceToGateIndex, this`protocolToGateIndex
    {
      Table(s.service)[s.key]
    }

    predicate Busy()
      reads this`registeringProtocol, this`registeringAny
    {
      registeringProtocol != None || registeringAny
    }
  }

  datatype Module = Node(dispatcher: MessageDispatcher) | Leaf(id: nat)

  datatype Gate = Gate(owner: Module, side: Side, index: nat)

  /** A gate of a dispatcher together with the slot it matters for. */
  datatype Spot = Spot(dispatcher: MessageDispatcher, slot: Slot, index: nat)

  /** A registration for the slot that has come from `via` to `start`. */
  datatype Pass = Pass(start: MessageDispatcher, via: MessageDispatcher, slot: Slot)

  /** Where a registration enters a dispatcher. */
  datatype Hop = Hop(dispatcher: MessageDispatcher, index: nat)

  datatype Arrival = Arrival(spot: Spot, kind: Kind, primitive: Primitive, busy: set<MessageDispatcher>)

  class Network {
    const dispatchers: set<MessageDispatcher>
    const peer: map<Gate, Gate>
    var registrationPath: seq<Module>
    ghost var clock: nat
    ghost var registered: set<(Slot, Gate)>   // what modules registered by which of their gates

    constructor (dispatchers: set<MessageDispatcher>, peer: map<Gate, Gate>)
      ensures this.dispatchers == dispatchers && this.peer == peer && registrationPath == [] && registered == {}
    {
      this.dispatchers, this.peer := dispatchers, peer;
      registrationPath, clock, registered := [], 0, {};
    }

    /** Gates are connected in pairs of opposite directions. */
    ghost predicate Wired() {
      && (forall g | g in peer :: peer[g] in peer && peer[peer[g]] == g && peer[g].side == Opposite(g.side))
      && (forall g | g in peer && g.owner.Node? ::
            g.owner.dispatcher in dispatchers && g.index < g.owner.dispatcher.GateSize(g.side))
    }

    /** The module at the other end of gate `i` on side `s` of dispatcher `d`; `d` itself if there is none. */
    ghost function Across(d: MessageDispatcher, s: Side, i: nat): Module {
      var g := Gate(Node(d), s, i);
      if g in peer then peer[g].owner else Node(d)
    }

    /** The entry of `d` leads to a module that registered, or to a forwarding dispatcher with an older entry. */
    ghost predicate RoutedAt(d: MessageDispatcher, s: Slot)
      reads this`clock, this`registered, dispatchers`serviceToGateIndex, dispatchers`protocolToGateIndex, dispatchers`rank
    {
      d in dispatchers && d.Has(s) ==>
        var g := Gate(Node(d), s.Direction(), d.Entry(s));
        && s in d.rank && d.rank[s] < clock && g in peer
        && match peer[g].owner
           case Leaf(_) => (s, peer[g]) in registered
           case Node(e) => e in dispatchers && e.Has(s) && s in e.rank && e.rank[s] < d.rank[s] && ForwardsSlot(e, s)
    }

    ghost predicate Routed()
      reads this`clock, this`registered, dispatchers`serviceToGateIndex, dispatchers`protocolToGateIndex, dispatchers`rank
    {
      forall d: MessageDispatcher, s: Slot {:trigger RoutedAt(d, s)} | d in dispatchers :: RoutedAt(d, s)
    }

    predicate ForwardsSlot(d: MessageDispatcher, s: Slot) {
      if s.service then d.forwardServiceRegistration else d.forwardProtocolRegistration
    }

    /** Whoever follows the entries from `start` on comes to `via`. */
    ghost predicate Through(start: MessageDispatcher, via: MessageDispatcher, s: Slot)
      reads dispatchers`serviceToGateIndex, dispatchers`protocolToGateIndex
    {
      forall up: set<MessageDispatcher> | up <= dispatchers && Closed(up, s) && start in up :: via in up
    }

    /**
     * The dispatcher behind gate `i` of `d`, against the direction of `s`, has an entry as well.  The entry leads
     * back through this gate, unless `d` has its own entry from there.
     */
    ghost predicate CoveredGate(d: MessageDispatcher, s: Slot, i: nat)
      reads dispatchers`serviceToGateIndex, dispatchers`protocolToGateIndex
    {
      var g := Gate(Node(d), Opposite(s.Direction()), i);
      g in peer && peer[g].owner.Node? && peer[g].owner != Node(d) ==> CoversBehind(d, peer[g].owner.dispatcher, s, peer[g].index)
    }

    ghost predicate CoversBehind(d: MessageDispatcher, e: MessageDispatcher, s: Slot, index: nat)
      reads dispatchers`serviceToGateIndex, dispatchers`protocolToGateIndex
    {
      e in dispatchers && e.Has(s) && (e.Entry(s) == index || Through(d, e, s))
    }

    /** If `d` has and forwards an entry for `s`, then so have the dispatchers behind its first `n` gates. */
    ghost predicate CoveredAt(d: MessageDispatcher, s: Slot, n: nat)
      requires d in dispatchers
      reads dispatchers`serviceToGateIndex, dispatchers`protocolToGateIndex
    {
      d.Has(s) && ForwardsSlot(d, s) ==> forall i: nat {:trigger CoveredGate(d, s, i)} | i < n :: CoveredGate(d, s, i)
    }

    ghost predicate Complete(d: MessageDispatcher, s: Slot)
      requires d in dispatchers
      reads dispatchers`serviceToGateIndex, dispatchers`protocolToGateIndex
    {
      CoveredAt(d, s, d.GateSize(Opposite(s.Direction())))
    }

    ghost predicate Covered(busy: set<MessageDispatcher>, s: Slot)
      reads dispatchers`serviceToGateIndex, dispatchers`protocolToGateIndex
    {
      forall d: MessageDispatcher, t: Slot {:trigger Complete(d, t)} | d in dispatchers && (d !in busy || t != s) ::
        Complete(d, t)
    }

    /** The dispatchers in `up` have entries, which lead to one another or out of the network of dispatchers. */
    ghost predicate Closed(up: set<MessageDispatcher>, s: Slot)
      reads dispatchers`serviceToGateIndex, dispatchers`protocolToGateIndex
    {
      && up <= dispatchers
      && (forall d | d in up :: d.Has(s) && LeadsInto(Gate(Node(d), s.Direction(), d.Entry(s)), up))
    }

    predicate LeadsInto(g: Gate, up: set<MessageDispatcher>) {
      g in peer && (peer[g].owner.Node? ==> peer[g].owner.dispatcher in up)
    }

    /** Besides the gate of its entry, `d` has gate `i` that leads to a registered module without coming back to `d`. */
    ghost predicate ClashAt(d: MessageDispatcher, i: nat, up: set<MessageDispatcher>, s: Slot)
      reads this`registered, dispatchers`serviceToGateIndex, dispatchers`protocolToGateIndex
    {
      var g := Gate(Node(d), s.Direction(), i);
      && d in dispatchers && d !in up && d.Has(s) && i != d.Entry(s)
      && Source(g, s) && LeadsInto(g, up) && Closed(up, s)
    }

    ghost predicate Clash(s: Slot)
      reads this`registered, dispatchers`serviceToGateIndex, dispatchers`protocolToGateIndex
    {
      exists d: MessageDispatcher, i: nat, up: set<MessageDispatcher> | d in dispatchers && up <= dispatchers ::
        ClashAt(d, i, up, s)
    }

    /** Exactly the dispatchers in `busy` are in the middle of registering `kind`; their entries lead back to its origin. */
    ghost predicate Flags(kind: Kind, p: Primitive, busy: set<MessageDispatcher>)
      reads dispatchers
    {
      && Closed(busy, SlotOf(kind, p))
      && (forall d | d in dispatchers && d !in busy :: !d.Busy())
      && (forall d | d in busy :: d.Has(SlotOf(kind, p)) &&
            if kind.IsAny() then d.registeringProtocol == None && d.registeringAny
            else d.registeringProtocol == Some(kind.protocol) && !d.registeringAny)
    }

    twostate predicate Kept()
      reads dispatchers`serviceToGateIndex, dispatchers`protocolToGateIndex
    {
      forall d: MessageDispatcher, t: Slot {:trigger d.Has(t)} | d in dispatchers ::
        old(d.Has(t)) ==> d.Has(t) && d.Entry(t) == old(d.Entry(t))
    }

    /** Entries are never changed or removed, and only those for `s` are added. */
    twostate predicate Grown(s: Slot)
      reads dispatchers
    {
      forall d: MessageDispatcher, t: Slot {:trigger d.Has(t)} | d in dispatchers ::
        && (old(d.Has(t)) ==> d.Has(t) && d.Entry(t) == old(d.Entry(t)))
        && (d.Has(t) && t != s ==> old(d.Has(t)))
    }

    twostate lemma ThroughStays(x: Pass)
      requires old(Routed()) && Kept() && x.start in dispatchers && old(x.start.Has(x.slot)) && old(Through(x.start, x.via, x.slot))
      ensures Through(x.start, x.via, x.slot)
    {
      forall up: set<MessageDispatcher> | up <= dispatchers && Closed(up, x.slot) && x.start in up ensures x.via in up {
        var inner := set b | b in up && old(b.Has(x.slot));
        forall b | b in inner ensures old(b.Has(x.slot) && LeadsInto(Gate(Node(b), x.slot.Direction(), b.Entry(x.slot)), inner)) {
          assert old(RoutedAt(b, x.slot));
        }
        assert old(Closed(inner, x.slot));
      }
    }

    twostate lemma CoveredGateStays(x: Spot)
      requires old(Routed()) && Kept() && x.dispatcher in dispatchers && old(x.dispatcher.Has(x.slot))
      requires old(CoveredGate(x.dispatcher, x.slot, x.index))
      ensures CoveredGate(x.dispatcher, x.slot, x.index)
    {
      var g := Gate(Node(x.dispatcher), Opposite(x.slot.Direction()), x.index);
      if g in peer && peer[g].owner.Node? && old(Through(x.dispatcher, peer[g].owner.dispatcher, x.slot)) {
        ThroughStays(Pass(x.dispatcher, peer[g].owner.dispatcher, x.slot));
      }
    }

    /** The registration has come to `d` through all the dispatchers in `busy`. */
    ghost predicate Chain(d: MessageDispatcher, busy: set<MessageDispatcher>, s: Slot)
      reads dispatchers`serviceToGateIndex, dispatchers`protocolToGateIndex
    {
      forall b | b in busy :: Through(d, b, s)
    }

    twostate lemma ChainStays(a: Arrival)
      requires old(Routed()) && Kept() && a.spot.dispatcher in dispatchers && old(a.spot.dispatcher.Has(a.spot.slot))
      requires old(Chain(a.spot.dispatcher, a.busy, a.spot.slot))
      ensures Chain(a.spot.dispatcher, a.busy, a.spot.slot)
    {
      forall b | b in a.busy ensures Through(a.spot.dispatcher, b, a.spot.slot) {
        ThroughStays(Pass(a.spot.dispatcher, b, a.spot.slot));
      }
    }

    twostate lemma EnteredChain(a: Arrival)
      requires old(Routed()) && Entered(a.spot) && Kept()
      requires var g := Gate(Node(a.spot.dispatcher), a.spot.slot.Direction(), a.spot.index);
        g in peer && match peer[g].owner
          case Leaf(_) => a.busy == {}
          case Node(e) => e in dispatchers && old(e.Has(a.spot.slot)) && old(Chain(e, a.busy, a.spot.slot))
      ensures Chain(a.spot.dispatcher, a.busy + {a.spot.dispatcher}, a.spot.slot)
    {
      var d, s := a.spot.dispatcher, a.spot.slot;
      var g := Gate(Node(d), s.Direction(), a.spot.index);
      if peer[g].owner.Node? {
        var e := peer[g].owner.dispatcher;
        ChainStays(a.(spot := Spot(e, s, a.spot.index)));
        forall b | b in a.busy ensures Through(d, b, s) {
          assert Through(e, b, s);
          forall up: set<MessageDispatcher> | up <= dispatchers && Closed(up, s) && d in up ensures b in up {
            assert e in up;
          }
        }
      }
    }

    twostate predicate SameEntries()
      reads dispatchers`serviceToGateIndex, dispatchers`protocolToGateIndex
    {
      forall d: MessageDispatcher, t: Slot {:trigger d.Has(t)} | d in dispatchers ::
        d.Has(t) == old(d.Has(t)) && (d.Has(t) ==> d.Entry(t) == old(d.Entry(t)))
    }

    ghost predicate Inv(kind: Kind, p: Primitive, busy: set<MessageDispatcher>)
      reads this`clock, this`registered, dispatchers
    {
      Wired() && Routed() && Covered(busy, SlotOf(kind, p)) && Flags(kind, p, busy)
    }

    /** The hop from a module to the listener at the other end of one of its gates. */
    method Register(kind: Kind, gate: Gate, p: Primitive, ghost busy: set<MessageDispatcher>) returns (r: Outcome)
      requires Inv(kind, p, busy) && gate.side == Opposite(SlotOf(kind, p).Direction())
      requires match gate.owner
        case Node(d) => d in busy && d.Forwards(kind) && Chain(d, busy, SlotOf(kind, p))
        case Leaf(_) => (SlotOf(kind, p), gate) in registered && busy == {}
      modifies this`registrationPath, this`clock, dispatchers
      ensures r != Nested && registered == old(registered)
      ensures r == Conflict ==> Routed() && Clash(SlotOf(kind, p))
      ensures r == Ok ==> Inv(kind, p, busy) && Grown(SlotOf(kind, p)) && registrationPath == old(registrationPath)
      ensures r == Ok && gate in peer && peer[gate].owner.Node? && peer[gate].owner != gate.owner ==>
        match gate.owner
        case Node(d) => CoversBehind(d, peer[gate].owner.dispatcher, SlotOf(kind, p), peer[gate].index)
        case Leaf(_) => Told(gate, SlotOf(kind, p))
      decreases dispatchers - busy, 2
    {
      hide Closed, Routed, Covered, Complete, Clash, Through;
      registrationPath := registrationPath + [gate.owner];
      assert SameEntries();
      if gate in peer && peer[gate].owner != gate.owner {
        match peer[gate].owner
        case Leaf(_) =>
        case Node(d) =>
          assert peer[peer[gate]] == gate;
          r := HandleRegister(kind, d, peer[gate], p, busy);
          if r != Ok { return; }
          if gate.owner.Node? && d in busy {
            ThroughStays(Pass(gate.owner.dispatcher, d, SlotOf(kind, p)));
          }
          assert gate.owner.Node? ==> CoversBehind(gate.owner.dispatcher, d, SlotOf(kind, p), peer[gate].index);
      }
      registrationPath := registrationPath[..|registrationPath| - 1];
      r := Ok;
    }

    method End(kind: Kind, d: MessageDispatcher)
      requires if kind.IsAny() then d.registeringProtocol == None else !d.registeringAny
      modifies d`registeringAny, d`registeringProtocol
      ensures !d.Busy()
    {
      if kind.IsAny() {
        d.registeringAny := false;
      } else {
        d.registeringProtocol := None;
      }
    }

    ghost predicate Arriving(kind: Kind, d: MessageDispatcher, g: Gate, p: Primitive, busy: set<MessageDispatcher>)
      reads this`clock, this`registered, dispatchers
    {
      && Inv(kind, p, busy) && d in dispatchers && g.owner == Node(d) && g.side == SlotOf(kind, p).Direction()
      && g in peer
      && match peer[g].owner
         case Node(e) => e in busy && e != d && e.Forwards(kind) && Chain(e, busy, SlotOf(kind, p))
         case Leaf(_) => (SlotOf(kind, p), peer[g]) in registered && busy == {}
    }

    /** Sets the flag of `d` and records gate index `i` for the registration. */
    method Enter(kind: Kind, d: MessageDispatcher, p: Primitive, i: nat)
      requires !d.Busy()
      modifies this`clock, d
      ensures if kind.IsAny() then d.registeringProtocol == None && d.registeringAny
              else d.registeringProtocol == Some(kind.protocol) && !d.registeringAny
      ensures var s := SlotOf(kind, p);
        d.Has(s) && d.Entry(s) == i && d.rank == old(d.rank)[s := old(clock)] && clock == old(clock) + 1
      ensures forall t {:trigger d.Has(t)} | t != SlotOf(kind, p) ::
        d.Has(t) == old(d.Has(t)) && (d.Has(t) ==> d.Entry(t) == old(d.Entry(t)))
    {
      if kind.IsAny() {
        d.registeringAny := true;
      } else {
        d.registeringProtocol := Some(kind.protocol);
      }
      var key := kind.ToKey(p);
      if kind.IsService() {
        d.serviceToGateIndex := d.serviceToGateIndex[key := i];
      } else {
        d.protocolToGateIndex := d.protocolToGateIndex[key := i];
      }
      d.rank := d.rank[SlotOf(kind, p) := clock];
      clock := clock + 1;
    }

    /** The effect of `Enter` on all entries of all dispatchers. */
    twostate predicate Entered(x: Spot)
      reads this`clock, this`registered, dispatchers`serviceToGateIndex, dispatchers`protocolToGateIndex, dispatchers`rank
    {
      && x.dispatcher in dispatchers && x.dispatcher.Has(x.slot) && x.dispatcher.Entry(x.slot) == x.index
      && old(!x.dispatcher.Has(x.slot)) && registered == old(registered) && clock == old(clock) + 1
      && x.dispatcher.rank == old(x.dispatcher.rank)[x.slot := old(clock)]
      && (forall d: MessageDispatcher {:trigger d.rank} | d in dispatchers && d != x.dispatcher :: d.rank == old(d.rank))
      && (forall d: MessageDispatcher, t: Slot {:trigger d.Has(t)} | d in dispatchers && (d != x.dispatcher || t != x.slot) ::
           d.Has(t) == old(d.Has(t)) && (d.Has(t) ==> d.Entry(t) == old(d.Entry(t))))
    }

    /** The gate a registration arrived through leads to a module that registered, or to a forwarding dispatcher with an entry. */
    ghost predicate Source(g: Gate, s: Slot)
      reads this`registered, dispatchers`serviceToGateIndex, dispatchers`protocolToGateIndex
    {
      g in peer && match peer[g].owner
      case Leaf(_) => (s, peer[g]) in registered
      case Node(e) => e in dispatchers && e.Has(s) && ForwardsSlot(e, s)
    }

    twostate lemma EnteredRouted(x: Spot)
      requires old(Routed()) && Entered(x) && old(Source(Gate(Node(x.dispatcher), x.slot.Direction(), x.index), x.slot))
      ensures Routed()
    {
      var g := Gate(Node(x.dispatcher), x.slot.Direction(), x.index);
      assert peer[g].owner.Node? ==> old(RoutedAt(peer[g].owner.dispatcher, x.slot));
      forall e, t | e in dispatchers ensures RoutedAt(e, t) {
        assert old(RoutedAt(e, t));
      }
    }

    twostate lemma EnteredCovered(a: Arrival)
      requires old(Routed()) && old(Covered(a.busy, a.spot.slot)) && Entered(a.spot) && Kept()
      ensures Covered(a.busy + {a.spot.dispatcher}, a.spot.slot)
    {
      var x, busy := a.spot, a.busy;
      forall e: MessageDispatcher, t: Slot | e in dispatchers && (e !in busy + {x.dispatcher} || t != x.slot)
        ensures Complete(e, t)
      {
        assert old(Complete(e, t));
        forall i: nat | i < e.GateSize(Opposite(t.Direction())) && e.Has(t) && ForwardsSlot(e, t) ensures CoveredGate(e, t, i) {
          assert old(CoveredGate(e, t, i));
          CoveredGateStays(Spot(e, t, i));
        }
      }
    }

    twostate lemma EnteredGrown(x: Spot)
      requires Entered(x)
      ensures Grown(x.slot) && Kept()
    {
    }

    twostate lemma EnteredKeeps(a: Arrival)
      requires a.spot.slot == SlotOf(a.kind, a.primitive) && a.spot.dispatcher !in a.busy && old(Inv(a.kind, a.primitive, a.busy))
      requires Entered(a.spot) && Flags(a.kind, a.primitive, a.busy + {a.spot.dispatcher})
      requires old(Source(Gate(Node(a.spot.dispatcher), a.spot.slot.Direction(), a.spot.index), a.spot.slot))
      ensures Inv(a.kind, a.primitive, a.busy + {a.spot.dispatcher}) && Grown(a.spot.slot)
    {
      EnteredRouted(a.spot);
      EnteredGrown(a.spot);
      EnteredCovered(a);
    }

    /** The flag of `d` is cleared once all its gates have been served. */
    method Leave(kind: Kind, d: MessageDispatcher, p: Primitive, ghost busy: set<MessageDispatcher>)
      requires Inv(kind, p, busy + {d}) && d in dispatchers && d !in busy && Complete(d, SlotOf(kind, p))
      requires Closed(busy, SlotOf(kind, p))
      modifies d`registeringAny, d`registeringProtocol
      ensures Inv(kind, p, busy) && SameEntries()
    {
      End(kind, d);
      forall e: MessageDispatcher, t: Slot | e in dispatchers && (e !in busy || t != SlotOf(kind, p)) ensures Complete(e, t) {
      }
    }

    /** `d` passes the registration on through all its gates of the other direction. */
    method Forward(kind: Kind, d: MessageDispatcher, p: Primitive, ghost busy: set<MessageDispatcher>) returns (r: Outcome)
      requires Inv(kind, p, busy) && d in busy && d.Forwards(kind) && Chain(d, busy, SlotOf(kind, p))
      modifies this`registrationPath, this`clock, dispatchers
      ensures r != Nested && registered == old(registered)
      ensures r == Conflict ==> Routed() && Clash(SlotOf(kind, p))
      ensures r == Ok ==> Inv(kind, p, busy) && Grown(SlotOf(kind, p)) && registrationPath == old(registrationPath)
      ensures r == Ok ==> Complete(d, SlotOf(kind, p))
      decreases dispatchers - busy, 3
    {
      var side := Opposite(SlotOf(kind, p).Direction());
      for i := 0 to d.GateSize(side)
        invariant Inv(kind, p, busy) && Grown(SlotOf(kind, p)) && registrationPath == old(registrationPath)
        invariant registered == old(registered)
        invariant CoveredAt(d, SlotOf(kind, p), i) && Chain(d, busy, SlotOf(kind, p))
      {
        label before:
        r := Register(kind, Gate(Node(d), side, i), p, busy);
        if r != Ok { return; }
        StillCovered@before(Spot(d, SlotOf(kind, p), i));
        ChainStays@before(Arrival(Spot(d, SlotOf(kind, p), i), kind, p, busy));
      }
      r := Ok;
    }

    twostate lemma StillCovered(x: Spot)
      requires x.dispatcher in dispatchers && old(CoveredAt(x.dispatcher, x.slot, x.index)) && Grown(x.slot) && old(Routed())
      requires old(x.dispatcher.Has(x.slot)) && CoveredGate(x.dispatcher, x.slot, x.index)
      ensures CoveredAt(x.dispatcher, x.slot, x.index + 1)
    {
      forall d: MessageDispatcher, t: Slot | d in dispatchers && old(d.Has(t)) ensures d.Has(t) && d.Entry(t) == old(d.Entry(t)) {
        assert d.Has(t);
      }
      forall i: nat | i < x.index && ForwardsSlot(x.dispatcher, x.slot) ensures CoveredGate(x.dispatcher, x.slot, i) {
        assert old(CoveredGate(x.dispatcher, x.slot, i));
        CoveredGateStays(Spot(x.dispatcher, x.slot, i));
      }
    }

    /** `d` learns of a registration through its gate `g`. */
    method HandleRegister(kind: Kind, d: MessageDispatcher, g: Gate, p: Primitive, ghost busy: set<MessageDispatcher>)
      returns (r: Outcome)
      requires Arriving(kind, d, g, p, busy)
      modifies this`registrationPath, this`clock, dispatchers
      ensures r != Nested && registered == old(registered)
      ensures r == Conflict ==> Routed() && Clash(SlotOf(kind, p))
      ensures r == Ok ==> Inv(kind, p, busy) && Grown(SlotOf(kind, p)) && registrationPath == old(registrationPath)
      ensures r == Ok ==> d.Has(SlotOf(kind, p)) && (d !in busy ==> d.Entry(SlotOf(kind, p)) == g.index)
      ensures d in busy ==> r == Ok
      ensures d !in busy && old(d.Has(SlotOf(kind, p))) ==> r == if old(d.Entry(SlotOf(kind, p))) == g.index then Ok else Conflict
      ensures old(d.Has(SlotOf(kind, p))) ==> SameEntries()
      decreases dispatchers - busy, 1
    {
      if kind.IsAny() {
        if d.registeringAny { return Ok; }
      } else if d.registeringProtocol != None {
        return if d.registeringProtocol == Some(kind.protocol) then Ok else Nested;
      }
      assert d !in busy;
      var s := SlotOf(kind, p);
      if d.Has(s) {
        if d.Entry(s) == g.index { return Ok; }
        // the exception leaves the flag set
        if kind.IsAny() { d.registeringAny := true; } else { d.registeringProtocol := Some(kind.protocol); }
        assert ClashAt(d, g.index, busy, s);
        return Conflict;
      }
      r := Process(kind, d, g, p, busy);
    }

    /** `d` records the registration, passes it on if it forwards such registrations, and is done. */
    method Process(kind: Kind, d: MessageDispatcher, g: Gate, p: Primitive, ghost busy: set<MessageDispatcher>)
      returns (r: Outcome)
      requires Arriving(kind, d, g, p, busy) && d !in busy && !d.Has(SlotOf(kind, p))
      modifies this`registrationPath, this`clock, dispatchers
      ensures r != Nested && registered == old(registered)
      ensures r == Conflict ==> Routed() && Clash(SlotOf(kind, p))
      ensures r == Ok ==> Inv(kind, p, busy) && Grown(SlotOf(kind, p)) && registrationPath == old(registrationPath)
      ensures r == Ok ==> d.Has(SlotOf(kind, p)) && d.Entry(SlotOf(kind, p)) == g.index
      decreases dispatchers - busy, 0
    {
      hide Inv, Covered, Routed, Complete, Wired;
      Record(kind, d, g, p, busy);
      label recorded:
      if d.Forwards(kind) {
        r := Forward(kind, d, p, busy + {d});
        if r != Ok { return; }
      }
      Leave(kind, d, p, busy);
      forall e: MessageDispatcher, t: Slot | e in dispatchers
        ensures old(e.Has(t)) ==> e.Has(t) && e.Entry(t) == old(e.Entry(t))
        ensures e.Has(t) && t != SlotOf(kind, p) ==> old(e.Has(t))
      {
        assert old(e.Has(t)) ==> old@recorded(e.Has(t));
        assert old@recorded(e.Has(t)) ==> e.Has(t);
      }
      r := Ok;
    }

    method Record(kind: Kind, d: MessageDispatcher, g: Gate, p: Primitive, ghost busy: set<MessageDispatcher>)
      requires Arriving(kind, d, g, p, busy) && d !in busy && !d.Has(SlotOf(kind, p))
      modifies this`clock, d
      ensures Inv(kind, p, busy + {d}) && Grown(SlotOf(kind, p)) && d.Has(SlotOf(kind, p)) && d.Entry(SlotOf(kind, p)) == g.index
      ensures !d.Forwards(kind) ==> Complete(d, SlotOf(kind, p))
      ensures Closed(busy, SlotOf(kind, p)) && Chain(d, busy + {d}, SlotOf(kind, p))
    {
      Enter(kind, d, p, g.index);
      EnteredKeeps(Arrival(Spot(d, SlotOf(kind, p), g.index), kind, p, busy));
      EnteredGrown(Spot(d, SlotOf(kind, p), g.index));
      EnteredChain(Arrival(Spot(d, SlotOf(kind, p), g.index), kind, p, busy));
    }

    // ------------------------------------------------------------ whole registrations

    /** No registration is under way, and all tables are as the theorems below need them. */
    ghost predicate Quiet()
      reads this`clock, this`registered, dispatchers
    {
      && Wired() && Routed() && (forall d | d in dispatchers :: !d.Busy())
      && (forall x | x in registered :: x.1.owner.Leaf? && x.1.side == Opposite(x.0.Direction()) && Told(x.1, x.0))
      && (forall d: MessageDispatcher, t: Slot {:trigger Complete(d, t)} | d in dispatchers :: Complete(d, t))
    }

    /** So it is before anything has been registered. */
    lemma FreshIsQuiet()
      requires Wired() && registered == {}
      requires forall d | d in dispatchers :: d.serviceToGateIndex == map[] && d.protocolToGateIndex == map[] && !d.Busy()
      ensures Quiet()
    {
    }

    /** A module registers through its own gate; an error stops everything. */
    method RegisterGate(kind: Kind, gate: Gate, p: Primitive) returns (r: Outcome)
      requires Quiet() && gate.owner.Leaf? && gate.side == Opposite(SlotOf(kind, p).Direction())
      modifies this, dispatchers
      ensures r != Nested
      ensures r == Conflict ==> Routed() && Clash(SlotOf(kind, p))
      ensures r == Ok ==> Quiet() && Grown(SlotOf(kind, p)) && registrationPath == old(registrationPath)
      ensures registered == old(registered) + {(SlotOf(kind, p), gate)}
      ensures r == Ok ==> Told(gate, SlotOf(kind, p))
      ensures r == Ok <==> !Clash(SlotOf(kind, p))
      ensures r == Ok <==> UniqueWays(SlotOf(kind, p), old(registered) + {(SlotOf(kind, p), gate)})
    {
      registered := registered + {(SlotOf(kind, p), gate)};
      forall d, t | d in dispatchers ensures RoutedAt(d, t) {
        assert old(RoutedAt(d, t));
      }
      label told:
      r := Register(kind, gate, p, {});
      if r == Ok {
        forall d: MessageDispatcher, t: Slot | d in dispatchers
          ensures old(d.Has(t)) ==> d.Has(t) && d.Entry(t) == old(d.Entry(t))
          ensures d.Has(t) && t != SlotOf(kind, p) ==> old(d.Has(t))
        {
          assert old@told(d.Has(t)) == old(d.Has(t));
        }
        QuietHasNoClash(SlotOf(kind, p));
        QuietHasUniqueWays(SlotOf(kind, p));
      } else {
        ClashHasTwoWays(SlotOf(kind, p));
      }
    }

    /** What a module registers by its gates for the first `n` primitives, in the order in which they are served. */
    ghost function Registrations(kind: Kind, gates: map<Primitive, Gate>, n: nat): set<(Slot, Gate)>
      requires n <= 4
    {
      set i | 0 <= i < n && Primitives()[i] in gates :: (SlotOf(kind, Primitives()[i]), gates[Primitives()[i]])
    }

    function Primitives(): seq<Primitive> { [Request, Indication, Response, Confirm] }

    method RegisterModule(kind: Kind, gates: map<Primitive, Gate>) returns (r: Outcome)
      requires Quiet()
      requires forall p | p in gates :: gates[p].owner.Leaf? && gates[p].side == Opposite(SlotOf(kind, p).Direction())
      modifies this, dispatchers
      ensures r != Nested
      ensures r == Conflict ==> exists p | p in gates :: Routed() && Clash(SlotOf(kind, p))
      ensures r == Ok ==> Quiet() && Kept() && registrationPath == old(registrationPath)
      ensures r == Ok ==> registered == old(registered) + Registrations(kind, gates, 4)
      ensures r == Ok ==> forall p | p in gates :: Told(gates[p], SlotOf(kind, p))
      ensures r == Ok <==> forall p | p in gates :: UniqueWays(SlotOf(kind, p), old(registered) + {(SlotOf(kind, p), gates[p])})
    {
      hide Clash, UniqueWays, Quiet;
      r := Ok;
      for i := 0 to 4
        invariant r == Ok && Quiet() && Kept() && registrationPath == old(registrationPath)
        invariant registered == old(registered) + Registrations(kind, gates, i)
        invariant forall j | 0 <= j < i && Primitives()[j] in gates ::
          && Told(gates[Primitives()[j]], SlotOf(kind, Primitives()[j]))
          && UniqueWays(SlotOf(kind, Primitives()[j]), old(registered) + {(SlotOf(kind, Primitives()[j]), gates[Primitives()[j]])})
      {
        var p := Primitives()[i];
        OneMorePrimitive(kind, gates, i);
        if p in gates {
          ghost var s, before := SlotOf(kind, p), registered;
          label before:
          r := RegisterGate(kind, gates[p], p);
          OnlyOwnGatesMatter(s, before + {(s, gates[p])}, old(registered) + {(s, gates[p])});
          if r != Ok { return; }
          forall d: MessageDispatcher, t: Slot | d in dispatchers && old(d.Has(t)) ensures d.Has(t) && d.Entry(t) == old(d.Entry(t)) {
            assert old@before(d.Has(t)) && d.Has(t);
          }
        }
      }
      forall p | p in gates
        ensures Told(gates[p], SlotOf(kind, p)) && UniqueWays(SlotOf(kind, p), old(registered) + {(SlotOf(kind, p), gates[p])})
      {
        var k := if p.Request? then 0 else if p.Indication? then 1 else if p.Response? then 2 else 3;
        assert Primitives()[k] == p;
      }
    }

    lemma OneMorePrimitive(kind: Kind, gates: map<Primitive, Gate>, i: nat)
      requires i < 4
      ensures Registrations(kind, gates, 0) == {}
      ensures var p := Primitives()[i];
        Registrations(kind, gates, i + 1) == Registrations(kind, gates, i) + if p in gates then {(SlotOf(kind, p), gates[p])} else {}
      ensures forall x | x in Registrations(kind, gates, i) :: x.0 != SlotOf(kind, Primitives()[i])
    {
      forall j | 0 <= j < i ensures Primitives()[j] != Primitives()[i] {}
    }

    /** If there is a dispatcher behind the gate, it has an entry for it. */
    ghost predicate Told(gate: Gate, s: Slot)
      reads dispatchers`serviceToGateIndex, dispatchers`protocolToGateIndex
    {
      gate in peer && peer[gate].owner.Node? ==>
        && peer[gate].owner.dispatcher in dispatchers && peer[gate].owner.dispatcher.Has(s)
        && peer[gate].owner.dispatcher.Entry(s) == peer[gate].index
    }

    // ------------------------------------------------------------ what the tables are good for

    /** The dispatchers that a message passes when it follows the entries for `s` from `d` on. */
    ghost function Route(d: MessageDispatcher, s: Slot): (path: seq<MessageDispatcher>)
      requires Routed() && d in dispatchers && d.Has(s) && s in d.rank
      reads this`clock, this`registered, dispatchers
      decreases d.rank[s]
    {
      assert RoutedAt(d, s);
      match peer[Gate(Node(d), s.Direction(), d.Entry(s))].owner
      case Leaf(_) => [d]
      case Node(e) => [d] + Route(e, s)
    }

    /** Following the entries reaches a module that registered and passes no dispatcher twice. */
    lemma {:induction false} RouteReachesModule(d: MessageDispatcher, s: Slot)
      requires Routed() && d in dispatchers && d.Has(s) && s in d.rank
      ensures var path := Route(d, s);
        && 0 < |path| && path[0] == d && (forall i | 0 <= i < |path| :: path[i] in dispatchers && path[i].Has(s) && s in path[i].rank)
        && (forall i, j | 0 <= i < j < |path| :: path[i].rank[s] > path[j].rank[s] && path[i] != path[j])
        && (forall i | 0 <= i < |path| - 1 ::
              Linked(Gate(Node(path[i]), s.Direction(), path[i].Entry(s)), Node(path[i + 1])))
        && Arrives(Gate(Node(path[|path| - 1]), s.Direction(), path[|path| - 1].Entry(s)), s)
      decreases d.rank[s]
    {
      assert RoutedAt(d, s);
      match peer[Gate(Node(d), s.Direction(), d.Entry(s))].owner
      case Leaf(_) =>
      case Node(e) =>
        RouteReachesModule(e, s);
        var rest := Route(e, s);
        var path := Route(d, s);
        assert path == [d] + rest;
        assert forall i | 0 < i < |path| :: path[i] == rest[i - 1];
    }

    /** Between registrations no dispatcher has a second gate that leads to a module without coming back to it. */
    lemma QuietHasNoClash(s: Slot)
      requires Quiet()
      ensures !Clash(s)
    {
      forall d: MessageDispatcher, i: nat, up: set<MessageDispatcher> | d in dispatchers && up <= dispatchers
        ensures !ClashAt(d, i, up, s)
      {
        var g := Gate(Node(d), s.Direction(), i);
        if Source(g, s) {
          assert peer[peer[g]] == g;
          match peer[g].owner
          case Leaf(_) => assert Told(peer[g], s);
          case Node(e) => assert Complete(e, s) && (e != d ==> CoveredGate(e, s, peer[g].index));
        }
      }
    }

    /** A registration is refused only if some dispatcher could send by two gates, the second one not leading back to it. */
    lemma ClashMeansTwoRoutes(s: Slot) returns (d: MessageDispatcher, i: nat)
      requires Routed() && Clash(s)
      ensures d in dispatchers && d.Has(s) && i != d.Entry(s)
      ensures var g := Gate(Node(d), s.Direction(), i); g in peer && match peer[g].owner
              case Leaf(_) => (s, peer[g]) in registered
              case Node(e) => e in dispatchers && e.Has(s) && s in e.rank && ForwardsSlot(e, s) && d !in Route(e, s)
    {
      var up: set<MessageDispatcher>;
      d, i, up :| d in dispatchers && up <= dispatchers && ClashAt(d, i, up, s);
      match peer[Gate(Node(d), s.Direction(), i)].owner
      case Leaf(_) =>
      case Node(e) =>
        assert RoutedAt(e, s);
        RouteStaysInside(e, s, up);
    }

    lemma {:induction false} RouteStaysInside(d: MessageDispatcher, s: Slot, up: set<MessageDispatcher>)
      requires Routed() && Closed(up, s) && d in up && s in d.rank
      ensures forall e | e in Route(d, s) :: e in up
      decreases d.rank[s]
    {
      assert RoutedAt(d, s);
      match peer[Gate(Node(d), s.Direction(), d.Entry(s))].owner
      case Leaf(_) =>
      case Node(e) => RouteStaysInside(e, s, up);
    }

    predicate Linked(g: Gate, m: Module) { g in peer && peer[g].owner == m }

    /** The gate leads to a gate by which a module registered `s`. */
    ghost predicate Arrives(g: Gate, s: Slot)
      reads this`registered
    {
      g in peer && peer[g].owner.Leaf? && (s, peer[g]) in registered
    }

    /** A way through the network against the direction of `s`, along which everyone forwards. */
    ghost predicate GatePath(path: seq<MessageDispatcher>, s: Slot) {
      && 0 < |path| && (forall i | 0 <= i < |path| :: path[i] in dispatchers)
      && (forall i {:trigger path[i]} | 0 <= i < |path| - 1 :: ForwardsSlot(path[i], s) && Adjacent(path[i], path[i + 1], s))
    }

    ghost predicate Adjacent(d: MessageDispatcher, e: MessageDispatcher, s: Slot) {
      exists i: nat {:trigger Across(d, Opposite(s.Direction()), i)} | i < d.GateSize(Opposite(s.Direction())) ::
        Across(d, Opposite(s.Direction()), i) == Node(e)
    }

    /** Once a dispatcher holds an entry, so does every dispatcher that a forwarding gate path leads to from it. */
    lemma {:induction false} PathIsCovered(path: seq<MessageDispatcher>, s: Slot)
      requires Quiet() && GatePath(path, s) && path[0].Has(s)
      ensures path[|path| - 1].Has(s)
      decreases |path|
    {
      if |path| > 1 {
        var d, e := path[0], path[1];
        assert Complete(d, s);
        var i: nat :| i < d.GateSize(Opposite(s.Direction())) && Across(d, Opposite(s.Direction()), i) == Node(e);
        assert CoveredGate(d, s, i);
        var rest := path[1..];
        assert forall j | 0 <= j < |rest| :: rest[j] == path[j + 1];
        PathIsCovered(rest, s);
      }
    }

    /** A module registered `s` by a gate that leads to `d`. */
    ghost predicate Attached(d: MessageDispatcher, s: Slot)
      reads this`registered
    {
      exists i: nat {:trigger Gate(Node(d), s.Direction(), i)} :: Arrives(Gate(Node(d), s.Direction(), i), s)
    }

    ghost predicate Reached(d: MessageDispatcher, s: Slot, path: seq<MessageDispatcher>)
      reads this`registered
    {
      GatePath(path, s) && Attached(path[0], s) && path[|path| - 1] == d
    }

    /** The dispatchers with an entry are exactly those that forwarding dispatchers connect with a registered module. */
    lemma EntryExactlyIfReached(d: MessageDispatcher, s: Slot)
      requires Quiet() && d in dispatchers
      ensures d.Has(s) <==> exists path: seq<MessageDispatcher> :: Reached(d, s, path)
    {
      if d.Has(s) {
        assert RoutedAt(d, s);
        var path := ReachedFrom(d, s);
        assert Reached(d, s, path);
      }
      forall path: seq<MessageDispatcher> | Reached(d, s, path) ensures d.Has(s) {
        var i: nat :| Arrives(Gate(Node(path[0]), s.Direction(), i), s);
        var g := Gate(Node(path[0]), s.Direction(), i);
        assert peer[peer[g]] == g && (s, peer[g]) in registered;
        PathIsCovered(path, s);
      }
    }

    /** A dispatcher that forwards registrations of a kind has told its neighbours, and whoever was told was told by one that does. */
    lemma ForwardersTell(d: MessageDispatcher, e: MessageDispatcher, kind: Kind, p: Primitive)
      requires Quiet() && d in dispatchers && d.Has(SlotOf(kind, p))
      ensures Adjacent(d, e, SlotOf(kind, p)) && (kind.Service? || kind.AnyService?) && d.forwardServiceRegistration ==> e.Has(SlotOf(kind, p))
      ensures Adjacent(d, e, SlotOf(kind, p)) && (kind.Protocol? || kind.AnyProtocol?) && d.forwardProtocolRegistration ==> e.Has(SlotOf(kind, p))
      ensures Linked(Gate(Node(d), SlotOf(kind, p).Direction(), d.Entry(SlotOf(kind, p))), Node(e)) ==>
        if kind.Service? || kind.AnyService? then e.forwardServiceRegistration else e.forwardProtocolRegistration
    {
      var s := SlotOf(kind, p);
      assert RoutedAt(d, s);
      if ForwardsSlot(d, s) && Adjacent(d, e, s) {
        var i: nat :| i < d.GateSize(Opposite(s.Direction())) && Across(d, Opposite(s.Direction()), i) == Node(e);
        assert Complete(d, s) && CoveredGate(d, s, i);
      }
    }

    lemma {:induction false} ReachedFrom(d: MessageDispatcher, s: Slot) returns (path: seq<MessageDispatcher>)
      requires Wired() && Routed() && d in dispatchers && d.Has(s) && s in d.rank
      ensures Reached(d, s, path)
      decreases d.rank[s]
    {
      assert RoutedAt(d, s);
      var g := Gate(Node(d), s.Direction(), d.Entry(s));
      match peer[g].owner
      case Leaf(_) =>
        assert Arrives(g, s);
        path := [d];
      case Node(e) =>
        var before := ReachedFrom(e, s);
        path := before + [d];
        assert peer[peer[g]] == g;
        assert Across(e, Opposite(s.Direction()), peer[g].index) == Node(d);
        assert Adjacent(e, d, s);
    }

    // ------------------------------------------------------------ the topology decides

    /** Hop `k` leads from a registered gate, or from the hop before it if that dispatcher forwards. */
    predicate EntersAt(way: seq<Hop>, k: nat, s: Slot, gates: set<(Slot, Gate)>)
      requires k < |way|
    {
      var g := Gate(Node(way[k].dispatcher), s.Direction(), way[k].index);
      && g in peer
      && if k == 0 then peer[g].owner.Leaf? && (s, peer[g]) in gates
         else peer[g].owner == Node(way[k - 1].dispatcher) && ForwardsSlot(way[k - 1].dispatcher, s)
    }

    /** A way that a registration of `s` by one of the gates can take, through no dispatcher twice. */
    ghost predicate IsWay(older way: seq<Hop>, s: Slot, gates: set<(Slot, Gate)>)
    {
      && way != [] && (forall k | 0 <= k < |way| :: way[k].dispatcher in dispatchers && EntersAt(way, k, s, gates))
      && (forall j, k | 0 <= j < k < |way| :: way[j].dispatcher != way[k].dispatcher)
    }

    /** Each dispatcher is reached on one way at most. */
    ghost predicate UniqueWays(s: Slot, gates: set<(Slot, Gate)>)
    {
      forall u: seq<Hop>, v: seq<Hop> | IsWay(u, s, gates) && IsWay(v, s, gates) && u[|u| - 1].dispatcher == v[|v| - 1].dispatcher :: u == v
    }

    function Members(way: seq<Hop>): set<MessageDispatcher> {
      set k | 0 <= k < |way| :: way[k].dispatcher
    }

    lemma EntersInFront(way: seq<Hop>, n: nat, k: nat, s: Slot, gates: set<(Slot, Gate)>)
      requires k < n <= |way|
      ensures EntersAt(way[..n], k, s, gates) <==> EntersAt(way, k, s, gates)
    {
    }

    lemma WayBefore(way: seq<Hop>, s: Slot, gates: set<(Slot, Gate)>)
      requires IsWay(way, s, gates) && |way| > 1
      ensures IsWay(way[..|way| - 1], s, gates)
    {
      hide EntersAt;
      var front := way[..|way| - 1];
      forall k | 0 <= k < |front| ensures front[k].dispatcher in dispatchers && EntersAt(front, k, s, gates) {
        EntersInFront(way, |front|, k, s, gates);
      }
    }

    /** The last hop of a way, and the way before it. */
    lemma LastHop(way: seq<Hop>, s: Slot, gates: set<(Slot, Gate)>)
      requires IsWay(way, s, gates)
      ensures |way| > 0
      ensures var n := |way| - 1; way == way[..n] + [way[n]] && way[n].dispatcher in dispatchers && EntersAt(way, n, s, gates)
      ensures var n := |way| - 1; way[n].dispatcher !in Members(way[..n]) && Members(way) == Members(way[..n]) + {way[n].dispatcher}
      ensures var n := |way| - 1; n > 0 ==> IsWay(way[..n], s, gates) && way[n - 1].dispatcher in Members(way[..n])
    {
      if |way| > 1 { WayBefore(way, s, gates); }
      hide EntersAt;
      var n := |way| - 1;
      var front := way[..n];
      assert way == front + [way[n]];
      MembersGrow(front, way[n]);
      if n > 0 { assert front[n - 1] == way[n - 1]; }
    }

    lemma MembersGrow(way: seq<Hop>, h: Hop)
      ensures Members(way + [h]) == Members(way) + {h.dispatcher}
    {
      var more := way + [h];
      forall d | d in Members(way) + {h.dispatcher} ensures d in Members(more) {
        if d in Members(way) {
          var k :| 0 <= k < |way| && way[k].dispatcher == d;
          assert more[k] == way[k];
        } else {
          assert more[|way|] == h;
        }
      }
    }

    lemma FirstFollows(d: MessageDispatcher, i: nat, s: Slot)
      requires Quiet() && d in dispatchers
      requires var g := Gate(Node(d), s.Direction(), i); g in peer && peer[g].owner.Leaf? && (s, peer[g]) in registered
      ensures d.Has(s) && d.Entry(s) == i && Closed({d}, s)
    {
      var g := Gate(Node(d), s.Direction(), i);
      assert peer[peer[g]] == g && Told(peer[g], s);
    }

    lemma NextFollows(e: MessageDispatcher, d: MessageDispatcher, i: nat, up: set<MessageDispatcher>, s: Slot)
      requires Quiet() && Closed(up, s) && e in up && d !in up && d in dispatchers && ForwardsSlot(e, s)
      requires var g := Gate(Node(d), s.Direction(), i); g in peer && peer[g].owner == Node(e)
      ensures d.Has(s) && d.Entry(s) == i && Closed(up + {d}, s)
    {
      var g := Gate(Node(d), s.Direction(), i);
      assert peer[peer[g]] == g;
      assert Complete(e, s) && CoveredGate(e, s, peer[g].index);
    }

    predicate FollowsEntries(way: seq<Hop>, s: Slot)
      reads set h | h in way :: h.dispatcher
    {
      forall k | 0 <= k < |way| :: way[k].dispatcher.Has(s) && way[k].dispatcher.Entry(s) == way[k].index
    }

    /** Between registrations each dispatcher on a way has its entry for the gate that the way comes by. */
    lemma {:induction false} WayFollowsEntries(way: seq<Hop>, s: Slot)
      requires Quiet() && IsWay(way, s, registered)
      ensures FollowsEntries(way, s) && Closed(Members(way), s)
      decreases |way|
    {
      hide Quiet, Closed, IsWay, Members;
      var n := |way| - 1;
      LastHop(way, s, registered);
      if n == 0 {
        NoMembers();
        assert way[..0] == [] && Members(way) == {} + {way[0].dispatcher} == {way[0].dispatcher};
        FirstFollows(way[0].dispatcher, way[0].index, s);
      } else {
        WayFollowsEntries(way[..n], s);
        NextFollows(way[n - 1].dispatcher, way[n].dispatcher, way[n].index, Members(way[..n]), s);
        FollowsLonger(way[..n], way[n], s);
      }
    }

    lemma NoMembers()
      ensures Members([]) == {}
    {
    }

    lemma FollowsLonger(way: seq<Hop>, h: Hop, s: Slot)
      requires FollowsEntries(way, s) && h.dispatcher.Has(s) && h.dispatcher.Entry(s) == h.index
      ensures FollowsEntries(way + [h], s)
    {
    }

    lemma {:induction false} SameWay(u: seq<Hop>, v: seq<Hop>, s: Slot)
      requires Quiet() && IsWay(u, s, registered) && IsWay(v, s, registered)
      requires u[|u| - 1].dispatcher == v[|v| - 1].dispatcher
      ensures u == v
      decreases |u|
    {
      hide Quiet, Closed, IsWay, Members;
      WayFollowsEntries(u, s);
      WayFollowsEntries(v, s);
      LastHop(u, s, registered);
      LastHop(v, s, registered);
      var m, n := |u| - 1, |v| - 1;
      assert u[m] == v[n];
      if m > 0 && n > 0 {
        SameWay(u[..m], v[..n], s);
      }
    }

    lemma QuietHasUniqueWays(s: Slot)
      requires Quiet()
      ensures UniqueWays(s, registered)
    {
      forall u: seq<Hop>, v: seq<Hop> | IsWay(u, s, registered) && IsWay(v, s, registered) && u[|u| - 1].dispatcher == v[|v| - 1].dispatcher
        ensures u == v
      {
        SameWay(u, v, s);
      }
    }

    lemma OneMoreHop(way: seq<Hop>, h: Hop, s: Slot, gates: set<(Slot, Gate)>)
      requires h.dispatcher in dispatchers && h.dispatcher !in Members(way)
      requires way == [] || IsWay(way, s, gates)
      requires EntersAt(way + [h], |way|, s, gates)
      ensures IsWay(way + [h], s, gates)
    {
      var more := way + [h];
      forall k | 0 <= k < |more| ensures more[k].dispatcher in dispatchers && EntersAt(more, k, s, gates) {
        if k < |way| { assert EntersAt(way, k, s, gates); }
      }
    }

    /** The entries show a way, backwards. */
    lemma {:induction false} WayOfRoute(d: MessageDispatcher, s: Slot) returns (way: seq<Hop>)
      requires Wired() && Routed() && d in dispatchers && d.Has(s) && s in d.rank
      ensures IsWay(way, s, registered) && way[|way| - 1] == Hop(d, d.Entry(s))
      ensures forall e | e in Members(way) :: e in Route(d, s) && s in e.rank && e.rank[s] <= d.rank[s]
      decreases d.rank[s]
    {
      assert RoutedAt(d, s);
      var g := Gate(Node(d), s.Direction(), d.Entry(s));
      var h := Hop(d, d.Entry(s));
      match peer[g].owner
      case Leaf(_) =>
        way := [h];
        OneMoreHop([], h, s, registered);
      case Node(e) =>
        var before := WayOfRoute(e, s);
        way := before + [h];
        OneMoreHop(before, h, s, registered);
    }

    /** A dispatcher with two routes is reached on two ways. */
    lemma ClashHasTwoWays(s: Slot)
      requires Wired() && Routed() && Clash(s)
      ensures !UniqueWays(s, registered)
    {
      hide Clash, Closed, IsWay, Members;
      var d, i := ClashMeansTwoRoutes(s);
      assert RoutedAt(d, s);
      var u := WayOfRoute(d, s);
      var v := SecondWay(d, i, s);
    }

    lemma SecondWay(d: MessageDispatcher, i: nat, s: Slot) returns (way: seq<Hop>)
      requires Wired() && Routed() && d in dispatchers
      requires var g := Gate(Node(d), s.Direction(), i); g in peer && match peer[g].owner
        case Leaf(_) => (s, peer[g]) in registered
        case Node(e) => e in dispatchers && e.Has(s) && s in e.rank && ForwardsSlot(e, s) && d !in Route(e, s)
      ensures IsWay(way, s, registered) && way[|way| - 1] == Hop(d, i)
    {
      hide Routed, IsWay;
      var g, h := Gate(Node(d), s.Direction(), i), Hop(d, i);
      match peer[g].owner
      case Leaf(_) =>
        way := [h];
        assert [] + [h] == way;
        OneMoreHop([], h, s, registered);
      case Node(e) =>
        var before := WayOfRoute(e, s);
        way := before + [h];
        OneMoreHop(before, h, s, registered);
    }

    /** Only the gates for the slot matter. */
    lemma OnlyOwnGatesMatter(s: Slot, a: set<(Slot, Gate)>, b: set<(Slot, Gate)>)
      requires (forall x | x in a && x.0 == s :: x in b) && (forall x | x in b && x.0 == s :: x in a)
      ensures UniqueWays(s, a) <==> UniqueWays(s, b)
    {
      forall way: seq<Hop> ensures IsWay(way, s, a) <==> IsWay(way, s, b) {
        SameGatesSameWay(way, s, a, b);
        SameGatesSameWay(way, s, b, a);
      }
    }

    lemma SameGatesSameWay(way: seq<Hop>, s: Slot, a: set<(Slot, Gate)>, b: set<(Slot, Gate)>)
      requires forall x | x in a && x.0 == s :: x in b
      ensures IsWay(way, s, a) ==> IsWay(way, s, b)
    {
      if IsWay(way, s, a) {
        forall k | 0 <= k < |way| ensures EntersAt(way, k, s, b) { assert EntersAt(way, k, s, a); }
      }
    }

    /** The table place `handlePacket` and `handleMessage` use: the protocol's own, else that of any protocol. */
    function Lookup(d: MessageDispatcher, service: bool, protocol: nat): (r: Option<Slot>)
      reads d`serviceToGateIndex, d`protocolToGateIndex
    {
      var primitive := if service then Request else Indication;
      if d.Has(Slot(service, Key(protocol, primitive))) then Some(Slot(service, Key(protocol, primitive)))
      else if d.Has(Slot(service, Key(-1, primitive))) then Some(Slot(service, Key(-1, primitive)))
      else None
    }

    /** What `handlePacket` and `handleMessage` do with a request or an indication: the gate it leaves by, or an error. */
    method Dispatch(d: MessageDispatcher, service: bool, protocol: nat) returns (gate: Option<Gate>)
      ensures gate == if Lookup(d, service, protocol).Some? then Some(OutGate(d, service, protocol)) else None
      ensures var table := if service then d.serviceToGateIndex else d.protocolToGateIndex;
        var primitive := if service then Request else Indication;
        gate == if Key(protocol, primitive) in table then Some(Gate(Node(d), Out, table[Key(protocol, primitive)]))
                else if Key(-1, primitive) in table then Some(Gate(Node(d), Out, table[Key(-1, primitive)]))
                else None
    {
      if service {
        if Key(protocol, Request) in d.serviceToGateIndex {
          return Some(Gate(Node(d), Out, d.serviceToGateIndex[Key(protocol, Request)]));
        }
        if Key(-1, Request) in d.serviceToGateIndex {
          return Some(Gate(Node(d), Out, d.serviceToGateIndex[Key(-1, Request)]));
        }
        return None;
      }
      if Key(protocol, Indication) in d.protocolToGateIndex {
        return Some(Gate(Node(d), Out, d.protocolToGateIndex[Key(protocol, Indication)]));
      }
      if Key(-1, Indication) in d.protocolToGateIndex {
        return Some(Gate(Node(d), Out, d.protocolToGateIndex[Key(-1, Indication)]));
      }
      return None;
    }

    /** The slot of a registration for the protocol itself, and the one for any protocol. */
    function OwnSlot(service: bool, protocol: nat): Slot
    {
      if service then SlotOf(Service(protocol), Request) else SlotOf(Protocol(protocol), Indication)
    }

    function AnySlot(service: bool): Slot
    {
      if service then SlotOf(AnyService, Request) else SlotOf(AnyProtocol, Indication)
    }

    /** A dispatcher that only knows where to send any protocol heard that from one that knows no better either. */
    lemma NoOwnBehind(d: MessageDispatcher, e: MessageDispatcher, service: bool, protocol: nat)
      requires Quiet() && d in dispatchers && !d.Has(OwnSlot(service, protocol)) && d.Has(AnySlot(service))
      requires Linked(Gate(Node(d), Out, d.Entry(AnySlot(service))), Node(e))
      ensures e in dispatchers && !e.Has(OwnSlot(service, protocol)) && e.Has(AnySlot(service))
    {
      var own, any := OwnSlot(service, protocol), AnySlot(service);
      var g := Gate(Node(d), Out, d.Entry(any));
      assert RoutedAt(d, any) && peer[peer[g]] == g;
      assert Complete(e, own) && (e.Has(own) ==> CoveredGate(e, own, peer[g].index));
    }

    /**
     * Dispatching hop by hop, with a fresh lookup at each dispatcher, ends at a module that registered: for the protocol
     * itself if the first dispatcher has an entry for it, else for any protocol.
     */
    lemma {:induction false} DispatchDelivers(d: MessageDispatcher, service: bool, protocol: nat)
      returns (path: seq<MessageDispatcher>)
      requires Quiet() && d in dispatchers && (d.Has(OwnSlot(service, protocol)) || d.Has(AnySlot(service)))
      ensures 0 < |path| && path[0] == d
      ensures forall i | 0 <= i < |path| :: path[i] in dispatchers && Lookup(path[i], service, protocol).Some?
      ensures forall i | 0 <= i < |path| - 1 :: Linked(OutGate(path[i], service, protocol), Node(path[i + 1]))
      ensures var g := OutGate(path[|path| - 1], service, protocol);
        Arrives(g, if d.Has(OwnSlot(service, protocol)) then OwnSlot(service, protocol) else AnySlot(service))
      decreases var s := if d.Has(OwnSlot(service, protocol)) then OwnSlot(service, protocol) else AnySlot(service);
        if s in d.rank then d.rank[s] else 0
    {
      var s := if d.Has(OwnSlot(service, protocol)) then OwnSlot(service, protocol) else AnySlot(service);
      assert Lookup(d, service, protocol) == Some(s) && RoutedAt(d, s);
      match peer[OutGate(d, service, protocol)].owner
      case Leaf(_) => path := [d];
      case Node(e) =>
        if !d.Has(OwnSlot(service, protocol)) { NoOwnBehind(d, e, service, protocol); }
        var rest := DispatchDelivers(e, service, protocol);
        path := [d] + rest;
        assert forall i | 0 < i < |path| :: path[i] == rest[i - 1];
    }

    /** A request for a protocol ends at a gate registered for its service, if the dispatcher has an entry for that. */
    lemma RequestIsDelivered(d: MessageDispatcher, n: nat) returns (path: seq<MessageDispatcher>)
      requires Quiet() && d in dispatchers && (d.Has(SlotOf(Service(n), Request)) || d.Has(SlotOf(AnyService, Request)))
      ensures 0 < |path| && path[0] == d && (forall i | 0 <= i < |path| :: path[i] in dispatchers && Lookup(path[i], true, n).Some?)
      ensures forall i | 0 <= i < |path| - 1 :: Linked(OutGate(path[i], true, n), Node(path[i + 1]))
      ensures OutGate(path[|path| - 1], true, n) in peer && peer[OutGate(path[|path| - 1], true, n)].owner.Leaf?
      ensures d.Has(SlotOf(Service(n), Request)) ==> (SlotOf(Service(n), Request), peer[OutGate(path[|path| - 1], true, n)]) in registered
      ensures !d.Has(SlotOf(Service(n), Request)) ==> (SlotOf(AnyService, Request), peer[OutGate(path[|path| - 1], true, n)]) in registered
    {
      path := DispatchDelivers(d, true, n);
    }

    /** An indication of a protocol ends at a gate registered for it, if the dispatcher has an entry for that. */
    lemma IndicationIsDelivered(d: MessageDispatcher, n: nat) returns (path: seq<MessageDispatcher>)
      requires Quiet() && d in dispatchers && (d.Has(SlotOf(Protocol(n), Indication)) || d.Has(SlotOf(AnyProtocol, Indication)))
      ensures 0 < |path| && path[0] == d && (forall i | 0 <= i < |path| :: path[i] in dispatchers && Lookup(path[i], false, n).Some?)
      ensures forall i | 0 <= i < |path| - 1 :: Linked(OutGate(path[i], false, n), Node(path[i + 1]))
      ensures OutGate(path[|path| - 1], false, n) in peer && peer[OutGate(path[|path| - 1], false, n)].owner.Leaf?
      ensures d.Has(SlotOf(Protocol(n), Indication)) ==> (SlotOf(Protocol(n), Indication), peer[OutGate(path[|path| - 1], false, n)]) in registered
      ensures !d.Has(SlotOf(Protocol(n), Indication)) ==> (SlotOf(AnyProtocol, Indication), peer[OutGate(path[|path| - 1], false, n)]) in registered
    {
      path := DispatchDelivers(d, false, n);
    }

    function OutGate(d: MessageDispatcher, service: bool, protocol: nat): Gate
      requires Lookup(d, service, protocol).Some?
      reads d`serviceToGateIndex, d`protocolToGateIndex
    {
      Gate(Node(d), Out, d.Entry(Lookup(d, service, protocol).value))
    }
  }

  /** What modules take in leaves a dispatcher by an output gate: requests and responses for services, the others for protocols. */
  lemma ModuleGates(kind: Kind, p: Primitive)
    ensures SlotOf(kind, p).Direction() == Out <==>
      if kind.Service? || kind.AnyService? then p == Request || p == Response else p == Indication || p == Confirm
  {
  }
}
