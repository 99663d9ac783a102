/** Two nodes over a channel that loses and reorders: an acknowledgement means what it says. */
module KissSystem {
  import opened Prelude
  import opened Kiss

  /** `toA` and `toB` hold what is in flight. `raised` lists the receive events of node `b`; `born` maps the
      serial of each packet of node `a` to the number of events raised when the packet was created. */
  datatype System = System(a: Node, b: Node, toA: multiset<seq<byte>>, toB: multiset<seq<byte>>,
                           raised: seq<Event>, born: map<nat, nat>)

  datatype Move =
    | SendA(kind: byte, data: seq<byte>, now: nat)
    | SendB(kind: byte, data: seq<byte>, now: nat)
    | TaskA(now: nat)
    | TaskB(now: nat)
    | DeliverA(m: seq<byte>, now: nat)
    | DeliverB(m: seq<byte>, now: nat)
    | LoseA(m: seq<byte>)
    | LoseB(m: seq<byte>)

  /** The settings and addresses of the two nodes. */
  datatype Setup = Setup(a: Settings, b: Settings, addrA: nat, addrB: nat)

  predicate Fresh(n: Node) {
    n.packets == [] && n.serials == 0
  }

  predicate Start(s: System) {
    Fresh(s.a) && Fresh(s.b) && s.toA == multiset{} && s.toB == multiset{} && s.raised == [] && s.born == map[]
  }

  function Post(channel: multiset<seq<byte>>, out: Option<Out>): multiset<seq<byte>> {
    match out case None => channel case Some(o) => channel + multiset{o.payload}
  }

  function Registered(s: System, a: Node): map<nat, nat> {
    if a.serials == s.a.serials then s.born else s.born[s.a.serials := |s.raised|]
  }

  /** Node `a` has acted on its own. */
  function ActA(s: System, r: (Node, Option<Out>)): System {
    s.(a := r.0, toB := Post(s.toB, r.1), born := Registered(s, r.0))
  }

  function Next(u: Setup, s: System, e: Move): System {
    match e
    case SendA(kind, data, now) => ActA(s, Transmit(s.a, kind, data, now))
    case TaskA(now) => ActA(s, MainTask(u.a, s.a, now))
    case SendB(kind, data, now) =>
      var (b, out) := Transmit(s.b, kind, data, now);
      s.(b := b, toA := Post(s.toA, out))
    case TaskB(now) =>
      var (b, out) := MainTask(u.b, s.b, now);
      s.(b := b, toA := Post(s.toA, out))
    case DeliverA(m, now) =>
      if m !in s.toA then s
      else
        var (a, out, _) := Receive(s.a, u.addrB, m, now);
        s.(a := a, toA := s.toA - multiset{m}, toB := Post(s.toB, out))
    case DeliverB(m, now) =>
      if m !in s.toB then s
      else
        var (b, out, event) := Receive(s.b, u.addrA, m, now);
        s.(b := b, toB := s.toB - multiset{m}, toA := Post(s.toA, out),
           raised := match event case None => s.raised case Some(x) => s.raised + [x])
    case LoseA(m) => s.(toA := s.toA - multiset{m})
    case LoseB(m) => s.(toB := s.toB - multiset{m})
  }

  /** What a move is for one of the two nodes, if it is that node's. */
  function InputA(u: Setup, s: System, e: Move): Option<Input> {
    match e
    case SendA(kind, data, now) => Some(Send(kind, data, now))
    case TaskA(now) => Some(Task(now))
    case DeliverA(m, now) => if m in s.toA then Some(Arrive(u.addrB, m, now)) else None
    case _ => None
  }

  function InputB(u: Setup, s: System, e: Move): Option<Input> {
    match e
    case SendB(kind, data, now) => Some(Send(kind, data, now))
    case TaskB(now) => Some(Task(now))
    case DeliverB(m, now) => if m in s.toB then Some(Arrive(u.addrA, m, now)) else None
    case _ => None
  }

  /** The payload that a node hands over. */
  function Posted(st: Settings, n: Node, i: Option<Input>): multiset<seq<byte>> {
    if i == None then multiset{}
    else match Emits(st, n, i.value) case None => multiset{} case Some(o) => multiset{o.payload}
  }

  /** Each node takes the steps of a node on its own, so that what holds over the runs of one holds here. */
  lemma MovesAreSteps(u: Setup, s: System, e: Move)
    ensures var i := InputA(u, s, e);
            Next(u, s, e).a == match i case None => s.a case Some(x) => Step(u.a, s.a, x)
    ensures var i := InputB(u, s, e);
            Next(u, s, e).b == match i case None => s.b case Some(x) => Step(u.b, s.b, x)
  {
  }

  lemma PostIs(channel: multiset<seq<byte>>, st: Settings, n: Node, i: Option<Input>)
    ensures channel + Posted(st, n, i) == if i == None then channel else Post(channel, Emits(st, n, i.value))
  {
    assert channel + multiset{} == channel;
  }

  /** Nothing appears in a channel but what was handed over, or leaves it but by delivery or loss. */
  lemma ChannelConserves(u: Setup, s: System, e: Move)
    ensures Next(u, s, e).toA ==
            if (e.DeliverA? && e.m in s.toA) || e.LoseA? then s.toA - multiset{e.m}
            else s.toA + Posted(u.b, s.b, InputB(u, s, e))
  {
    PostIs(s.toA, u.b, s.b, InputB(u, s, e));
  }

  /** The same for the other direction. */
  lemma OtherChannelConserves(u: Setup, s: System, e: Move)
    ensures Next(u, s, e).toB ==
            if (e.DeliverB? && e.m in s.toB) || e.LoseB? then s.toB - multiset{e.m}
            else s.toB + Posted(u.a, s.a, InputA(u, s, e))
  {
    PostIs(s.toB, u.a, s.a, InputA(u, s, e));
  }

  predicate IsAck(m: seq<byte>) {
    |m| >= 2 && m[0] == ACK_TYPE
  }

  predicate IsPacket(m: seq<byte>) {
    |m| >= 2 && m[0] != ACK_TYPE
  }

  /** No packet of node `a` with this id is pending or in flight, and no acknowledgement for it is. */
  ghost predicate IdFree(s: System, id: byte) {
    && (forall p :: p in s.a.packets ==> p.id != id)
    && (forall m :: m in s.toB && IsPacket(m) ==> m[1] != id)
    && (forall m :: m in s.toA && IsAck(m) ==> m[1] != id)
  }

  /** The peer has raised an event with the packet's type and data since the packet was created. */
  ghost predicate Raised(s: System, p: Packet) {
    && p.serial in s.born && p.kind >= TYPE_OFFSET
    && exists k :: s.born[p.serial] <= k < |s.raised| && s.raised[k] == Event(p.kind - TYPE_OFFSET, p.data)
  }

  /** A new packet `p` is harmless, although its id may still be in use. A user packet: no acknowledgement
      for the id is in flight, what is in flight with the id looks exactly like the packet, and so does
      every pending packet with the id that may be sent again or is still waited for. A ping: no user packet
      with the id is still waited for. */
  ghost predicate Harmless(u: Setup, s: System, p: Packet) {
    if p.kind >= TYPE_OFFSET then
      && (forall m :: m in s.toA && IsAck(m) ==> m[1] != p.id)
      && (forall m :: m in s.toB && IsPacket(m) && m[1] == p.id ==> m == Wire(p))
      && (forall q :: q in s.a.packets && q.id == p.id ==>
            Wire(q) == Wire(p) || (Exhausted(u.a, q) && (q.kind >= TYPE_OFFSET ==> Raised(s, q))))
    else
      forall q :: q in s.a.packets && q.id == p.id && q.kind >= TYPE_OFFSET ==> Raised(s, q)
  }

  /** An id that is not in use at all is harmless. */
  lemma FreeIdIsHarmless(u: Setup, s: System, p: Packet)
    requires IdFree(s, p.id)
    ensures Harmless(u, s, p)
  {
    forall q | q in s.a.packets ensures q.id != p.id {}
  }

  /** What a move finds when it creates a packet: `main_task` sweeps first. */
  function Swept(u: Setup, s: System, e: Move): System {
    match e
    case TaskA(now) => s.(a := s.a.(packets := Sweep(u.a, s.a.packets, 0, now).0))
    case _ => s
  }

  /** If node `a` creates a packet, it is a harmless one. */
  ghost predicate Allowed(u: Setup, s: System, e: Move) {
    var a := Next(u, s, e).a;
    a.serials != s.a.serials && a.packets != [] ==> Harmless(u, Swept(u, s, e), a.packets[|a.packets| - 1])
  }

  predicate Pending(s: System, p: Packet) {
    && p.kind != ACK_TYPE && p.retries >= 1 && p.serial < s.a.serials
    && p.serial in s.born && s.born[p.serial] <= |s.raised|
  }

  /** No pending packet looks like an acknowledgement. */
  ghost predicate NoAcks(n: Node) {
    forall p :: p in n.packets ==> p.kind != ACK_TYPE
  }

  /** The packet has been raised, or nothing that is in flight or will be sent again can get it acknowledged
      without raising it. */
  ghost predicate Safe(u: Setup, s: System, p: Packet) {
    || Raised(s, p)
    || (&& (forall m :: m in s.toA && IsAck(m) ==> m[1] != p.id)
        && (forall m :: m in s.toB && IsPacket(m) && m[1] == p.id ==> m == Wire(p))
        && (forall q :: q in s.a.packets && q.id == p.id ==> Wire(q) == Wire(p) || Exhausted(u.a, q)))
  }

  ghost predicate Inv(u: Setup, s: System) {
    && NoAcks(s.b)
    && (forall p :: p in s.a.packets ==> Pending(s, p))
    && (forall p :: p in s.a.packets && p.kind >= TYPE_OFFSET ==> Safe(u, s, p))
  }

  /** Node `t.a` holds nothing but packets of `s.a`, one of which may just have been sent again. */
  predicate Inherits(u: Setup, s: System, t: System, sent: Option<Packet>, now: nat) {
    && (sent.Some? ==> sent.value in s.a.packets && !Exhausted(u.a, sent.value))
    && (forall p :: p in t.a.packets ==> p in s.a.packets || (sent.Some? && p == Resent(sent.value, now)))
    && (forall m :: m in t.toB && IsPacket(m) ==> m in s.toB || (sent.Some? && m == Wire(sent.value)))
    && (forall m :: m in t.toA && IsAck(m) ==> m in s.toA)
    && t.a.serials == s.a.serials && t.raised == s.raised && t.born == s.born
  }

  lemma SafeStays(u: Setup, s: System, t: System, sent: Option<Packet>, now: nat, p: Packet)
    requires Inv(u, s) && Inherits(u, s, t, sent, now) && p in t.a.packets && p.kind >= TYPE_OFFSET
    ensures Safe(u, t, p)
  {
    var o := if p in s.a.packets then p else sent.value;
    assert Safe(u, s, o);
    if Raised(s, o) {
      assert Raised(t, p);
    } else {
      forall m | m in t.toB && IsPacket(m) && m[1] == p.id ensures m == Wire(p) {
        assert m !in s.toB ==> m == Wire(sent.value) && sent.value.id == p.id;
      }
      forall q | q in t.a.packets && q.id == p.id ensures Wire(q) == Wire(p) || Exhausted(u.a, q) {
        assert q !in s.a.packets ==> q == Resent(sent.value, now) && sent.value.id == p.id;
      }
    }
  }

  /** Fewer pending packets, fewer messages for node `a`, and a channel to `b` that gains nothing but
      acknowledgements and a copy of a pending packet: the invariant stays. */
  lemma ShrinkKeepsInv(u: Setup, s: System, t: System, sent: Option<Packet>, now: nat)
    requires Inv(u, s) && NoAcks(t.b) && Inherits(u, s, t, sent, now)
    ensures Inv(u, t)
  {
    forall p | p in t.a.packets
      ensures Pending(t, p) && (p.kind >= TYPE_OFFSET ==> Safe(u, t, p))
    {
      assert Pending(s, if p in s.a.packets then p else sent.value);
      if p.kind >= TYPE_OFFSET {
        SafeStays(u, s, t, sent, now, p);
      }
    }
  }

  /** A harmless new packet. */
  lemma CreateKeepsInv(u: Setup, s: System, kind: byte, data: seq<byte>, now: nat)
    requires Inv(u, s) && kind != ACK_TYPE
    requires var ps := Create(s.a, kind, data, now).0.packets; Harmless(u, s, ps[|ps| - 1])
    ensures Inv(u, ActA(s, Create(s.a, kind, data, now)))
  {
    var t := ActA(s, Create(s.a, kind, data, now));
    var n := t.a.packets[|s.a.packets|];
    forall p | p in t.a.packets
      ensures Pending(t, p) && (p.kind >= TYPE_OFFSET ==> Safe(u, t, p))
    {
      if p in s.a.packets {
        OldStaysSafe(u, s, t, n, p);
      } else {
        assert p == n;
      }
    }
  }

  /** A pending packet next to a new one. */
  lemma OldStaysSafe(u: Setup, s: System, t: System, n: Packet, p: Packet)
    requires Inv(u, s) && Harmless(u, s, n) && p in s.a.packets && n.serial == s.a.serials
    requires t.a.packets == s.a.packets + [n] && t.a.serials == s.a.serials + 1
    requires t.toA == s.toA && t.toB == s.toB + multiset{Wire(n)}
    requires t.raised == s.raised && t.born == s.born[n.serial := |s.raised|]
    ensures Pending(t, p) && (p.kind >= TYPE_OFFSET ==> Safe(u, t, p))
  {
    assert Pending(s, p);
    if p.kind >= TYPE_OFFSET {
      assert Safe(u, s, p);
      if Raised(s, p) {
        assert Raised(t, p);
      } else {
        assert n.id == p.id ==> Wire(n) == Wire(p);
        forall m | m in t.toB && IsPacket(m) && m[1] == p.id ensures m == Wire(p) {}
        forall q | q in t.a.packets && q.id == p.id ensures Wire(q) == Wire(p) || Exhausted(u.a, q) {}
      }
    }
  }

  lemma TaskKeepsInv(u: Setup, s: System, now: nat)
    requires Inv(u, s) && Allowed(u, s, TaskA(now))
    ensures Inv(u, Next(u, s, TaskA(now)))
  {
    var (ps, sent) := Sweep(u.a, s.a.packets, 0, now);
    SweepKeepsOrSends(u.a, s.a.packets, 0, now);
    var t := Swept(u, s, TaskA(now));
    match sent
    case Some(p) => ShrinkKeepsInv(u, s, Next(u, s, TaskA(now)), sent, now);
    case None =>
      ShrinkKeepsInv(u, s, t, None, now);
      if PingDue(u.a, t.a, now) {
        CreateKeepsInv(u, t, PING_TYPE, [], now);
        assert Next(u, s, TaskA(now)) == ActA(t, Create(t.a, PING_TYPE, [], now));
      }
  }

  /** Node `b` acknowledges only what it has just raised. */
  lemma DeliverBKeepsInv(u: Setup, s: System, m: seq<byte>, now: nat)
    requires Inv(u, s) && m in s.toB
    ensures Inv(u, Next(u, s, DeliverB(m, now)))
  {
    var t := Next(u, s, DeliverB(m, now));
    forall p | p in t.a.packets
      ensures Pending(t, p) && (p.kind >= TYPE_OFFSET ==> Safe(u, t, p))
    {
      assert Pending(s, p);
      if p.kind >= TYPE_OFFSET {
        DeliveryKeepsSafe(u, s, m, now, p);
      }
    }
  }

  lemma DeliveryKeepsSafe(u: Setup, s: System, m: seq<byte>, now: nat, p: Packet)
    requires Inv(u, s) && m in s.toB && p in s.a.packets && p.kind >= TYPE_OFFSET
    ensures Safe(u, Next(u, s, DeliverB(m, now)), p)
  {
    var t := Next(u, s, DeliverB(m, now));
    assert Safe(u, s, p) && Pending(s, p);
    if Raised(s, p) {
      var k :| s.born[p.serial] <= k < |s.raised| && s.raised[k] == Event(p.kind - TYPE_OFFSET, p.data);
      assert t.raised[k] == s.raised[k];
    } else if IsPacket(m) && m[1] == p.id {
      assert m == Wire(p) && m[2..] == p.data;
      assert t.raised[|s.raised|] == Event(p.kind - TYPE_OFFSET, p.data);
    }
  }

  /** A move of node `b` on its own posts no acknowledgement. */
  lemma BPostsNoAcks(st: Settings, b: Node, toA: multiset<seq<byte>>, r: (Node, Option<Out>), e: Move)
    requires NoAcks(b)
    requires match e
             case SendB(kind, data, now) => r == Transmit(b, kind, data, now)
             case TaskB(now) => r == MainTask(st, b, now)
             case _ => r == (b, None)
    ensures NoAcks(r.0) && forall m :: m in Post(toA, r.1) && IsAck(m) ==> m in toA
  {
    if e.TaskB? {
      var (ps, sent) := Sweep(st, b.packets, 0, e.now);
      SweepKeepsOrSends(st, b.packets, 0, e.now);
      forall p | p in ps ensures p.kind != ACK_TYPE {
        if p !in b.packets {
          assert p == Resent(sent.value, e.now);
        }
      }
      match sent
      case Some(p) => assert Wire(p)[0] != ACK_TYPE;
      case None =>
    }
  }

  /** A received message removes pending packets at most, and is answered by acknowledgements only. */
  lemma DeliverAKeepsInv(u: Setup, s: System, m: seq<byte>, now: nat)
    requires Inv(u, s)
    ensures Inv(u, Next(u, s, DeliverA(m, now)))
  {
    ShrinkKeepsInv(u, s, Next(u, s, DeliverA(m, now)), None, now);
  }

  lemma BMovesKeepInv(u: Setup, s: System, e: Move)
    requires Inv(u, s) && (e.SendB? || e.TaskB?)
    ensures Inv(u, Next(u, s, e))
  {
    var r := match e
      case SendB(kind, data, now) => Transmit(s.b, kind, data, now)
      case TaskB(now) => MainTask(u.b, s.b, now);
    BPostsNoAcks(u.b, s.b, s.toA, r, e);
    ShrinkKeepsInv(u, s, Next(u, s, e), None, 0);
  }

  lemma LossKeepsInv(u: Setup, s: System, e: Move)
    requires Inv(u, s) && (e.LoseA? || e.LoseB?)
    ensures Inv(u, Next(u, s, e))
  {
    ShrinkKeepsInv(u, s, Next(u, s, e), None, 0);
  }

  lemma SendKeepsInv(u: Setup, s: System, kind: byte, data: seq<byte>, now: nat)
    requires Inv(u, s) && Allowed(u, s, SendA(kind, data, now))
    ensures Inv(u, Next(u, s, SendA(kind, data, now)))
  {
    if kind <= 255 - TYPE_OFFSET {
      var t := Next(u, s, SendA(kind, data, now));
      assert t == ActA(s, Create(s.a, kind + TYPE_OFFSET, data, now));
      assert Harmless(u, s, t.a.packets[|t.a.packets| - 1]) by {
        assert Swept(u, s, SendA(kind, data, now)) == s;
      }
      CreateKeepsInv(u, s, kind + TYPE_OFFSET, data, now);
    } else {
      assert Next(u, s, SendA(kind, data, now)) == s;
    }
  }

  /** Every move but the creation of a harmful packet keeps the invariant. */
  lemma NextKeepsInv(u: Setup, s: System, e: Move)
    requires Inv(u, s) && Allowed(u, s, e)
    ensures Inv(u, Next(u, s, e))
  {
    match e
    case SendA(kind, data, now) => SendKeepsInv(u, s, kind, data, now);
    case TaskA(now) => TaskKeepsInv(u, s, now);
    case DeliverA(m, now) => DeliverAKeepsInv(u, s, m, now);
    case DeliverB(m, now) =>
      if m in s.toB {
        DeliverBKeepsInv(u, s, m, now);
      }
    case SendB(_, _, _) => BMovesKeepInv(u, s, e);
    case TaskB(_) => BMovesKeepInv(u, s, e);
    case LoseA(_) => LossKeepsInv(u, s, e);
    case LoseB(_) => LossKeepsInv(u, s, e);
  }

  // --- every run ---

  function Run(u: Setup, s: System, moves: seq<Move>): System
    decreases |moves|
  {
    if moves == [] then s else Run(u, Next(u, s, moves[0]), moves[1..])
  }

  ghost predicate AllAllowed(u: Setup, s: System, moves: seq<Move>)
    decreases |moves|
  {
    moves != [] ==> Allowed(u, s, moves[0]) && AllAllowed(u, Next(u, s, moves[0]), moves[1..])
  }

  lemma {:induction false} RunKeepsInv(u: Setup, s: System, moves: seq<Move>)
    requires Inv(u, s) && AllAllowed(u, s, moves)
    ensures Inv(u, Run(u, s, moves))
    decreases |moves|
  {
    if moves != [] {
      NextKeepsInv(u, s, moves[0]);
      RunKeepsInv(u, Next(u, s, moves[0]), moves[1..]);
    }
  }

  /** A message received at `clock` or later removes no user packet but one that node `b` has raised. */
  ghost predicate RemovesOnlyRaised(u: Setup, t: System, clock: nat) {
    forall m, now: nat, p ::
      clock <= now && p in t.a.packets && p.kind >= TYPE_OFFSET && p !in Next(u, t, DeliverA(m, now)).a.packets ==>
        Raised(t, p)
  }

  lemma InvIsSound(u: Setup, t: System)
    requires Inv(u, t)
    ensures RemovesOnlyRaised(u, t, 0)
  {
    forall m, now: nat, p |
      p in t.a.packets && p.kind >= TYPE_OFFSET && p !in Next(u, t, DeliverA(m, now)).a.packets
      ensures Raised(t, p)
    {
      assert Safe(u, t, p);
    }
  }

  /** In every run, a user packet leaves the list of node `a` because of a received message only if node
      `b` has raised the receive event with that packet's type and data since the packet was created. */
  lemma AcksAreSound(u: Setup, s: System, moves: seq<Move>, m: seq<byte>, now: nat, p: Packet)
    requires Start(s) && AllAllowed(u, s, moves)
    ensures var t := Run(u, s, moves);
            p in t.a.packets && p.kind >= TYPE_OFFSET && p !in Next(u, t, DeliverA(m, now)).a.packets ==>
              Raised(t, p)
  {
    RunKeepsInv(u, s, moves);
    InvIsSound(u, Run(u, s, moves));
  }

  // --- the condition on new packets is exact ---

  /** Whatever happens from here, whatever the clocks do, as long as all further new packets are harmless. */
  ghost predicate AlwaysSound(u: Setup, s: System) {
    forall moves: seq<Move> :: AllAllowed(u, s, moves) ==> RemovesOnlyRaised(u, Run(u, s, moves), 0)
  }

  /** The time of a move, if it has one. */
  function At(e: Move, clock: nat): nat {
    match e
    case SendA(_, _, now) => now
    case SendB(_, _, now) => now
    case TaskA(now) => now
    case TaskB(now) => now
    case DeliverA(_, now) => now
    case DeliverB(_, now) => now
    case LoseA(_) => clock
    case LoseB(_) => clock
  }

  /** The clock never goes back. */
  predicate Timely(clock: nat, moves: seq<Move>)
    decreases |moves|
  {
    moves != [] ==> clock <= At(moves[0], clock) && Timely(At(moves[0], clock), moves[1..])
  }

  function End(clock: nat, moves: seq<Move>): nat
    decreases |moves|
  {
    if moves == [] then clock else End(At(moves[0], clock), moves[1..])
  }

  /** Whatever happens from here with a clock that never goes back, as long as all further new packets are
      harmless. */
  ghost predicate SoundFrom(u: Setup, s: System, clock: nat) {
    forall moves: seq<Move> :: AllAllowed(u, s, moves) && Timely(clock, moves) ==>
      RemovesOnlyRaised(u, Run(u, s, moves), End(clock, moves))
  }

  lemma InvIsAlwaysSound(u: Setup, s: System)
    requires Inv(u, s)
    ensures AlwaysSound(u, s)
  {
    forall moves: seq<Move> | AllAllowed(u, s, moves) ensures RemovesOnlyRaised(u, Run(u, s, moves), 0) {
      RunKeepsInv(u, s, moves);
      InvIsSound(u, Run(u, s, moves));
    }
  }

  lemma AlwaysIsFromHere(u: Setup, s: System, clock: nat)
    requires AlwaysSound(u, s)
    ensures SoundFrom(u, s, clock)
  {
    forall moves: seq<Move> | AllAllowed(u, s, moves) && Timely(clock, moves)
      ensures RemovesOnlyRaised(u, Run(u, s, moves), End(clock, moves))
    {
      assert RemovesOnlyRaised(u, Run(u, s, moves), 0);
    }
  }

  lemma SoundFromHere(u: Setup, s: System, clock: nat)
    requires SoundFrom(u, s, clock)
    ensures RemovesOnlyRaised(u, s, clock)
  {
    assert AllAllowed(u, s, []) && Timely(clock, []) && Run(u, s, []) == s && End(clock, []) == clock;
  }

  lemma SoundFromNext(u: Setup, s: System, clock: nat, e: Move)
    requires SoundFrom(u, s, clock) && Allowed(u, s, e) && clock <= At(e, clock)
    ensures SoundFrom(u, Next(u, s, e), At(e, clock))
  {
    var t, now := Next(u, s, e), At(e, clock);
    forall moves: seq<Move> | AllAllowed(u, t, moves) && Timely(now, moves)
      ensures RemovesOnlyRaised(u, Run(u, t, moves), End(now, moves))
    {
      RunCons(u, s, e, moves);
      assert ([e] + moves)[1..] == moves;
      assert AllAllowed(u, s, [e] + moves) && Timely(clock, [e] + moves);
      assert End(clock, [e] + moves) == End(now, moves);
    }
  }

  /** An acknowledgement in flight removes a packet that was not raised. */
  lemma AckHurts(u: Setup, s: System, clock: nat, p: Packet, m: seq<byte>)
    requires p in s.a.packets && p.kind >= TYPE_OFFSET && !Raised(s, p)
    requires m in s.toA && IsAck(m) && m[1] == p.id
    ensures !SoundFrom(u, s, clock)
  {
    assert p !in Next(u, s, DeliverA(m, clock)).a.packets;
    if SoundFrom(u, s, clock) {
      SoundFromHere(u, s, clock);
    }
  }

  /** A packet in flight with the id of a pending user packet, but another type or other data, gets that
      one acknowledged without being raised. */
  lemma CopyHurts(u: Setup, s: System, clock: nat, p: Packet, m: seq<byte>)
    requires p in s.a.packets && p.kind >= TYPE_OFFSET && Pending(s, p) && !Raised(s, p)
    requires m in s.toB && IsPacket(m) && m[1] == p.id && m != Wire(p)
    ensures !SoundFrom(u, s, clock)
  {
    var e := DeliverB(m, clock);
    var t := Next(u, s, e);
    assert m == [m[0], m[1]] + m[2..];
    assert Ack(m[1]) in t.toA;
    assert !Raised(t, p);
    if SoundFrom(u, s, clock) {
      SoundFromNext(u, s, clock, e);
      AckHurts(u, t, clock, p, Ack(m[1]));
    }
  }

  /** Packets that are not due stay in the list, or are sent again. */
  lemma {:induction false} SweepKeepsTheRest(st: Settings, ps: seq<Packet>, i: nat, now: nat, p: Packet)
    requires p in ps && !Due(st, p, now)
    ensures var (r, sent) := Sweep(st, ps, i, now);
            p in r || (sent == Some(p) && Resent(p, now) in r)
    decreases |ps| - i
  {
    if i < |ps| {
      if !Expired(st, ps[i], now) {
        SweepKeepsTheRest(st, ps, i + 1, now, p);
      } else if Exhausted(st, ps[i]) {
        assert ps == ps[..i] + [ps[i]] + ps[i + 1..];
        SweepKeepsTheRest(st, ps[..i] + ps[i + 1..], i + 1, now, p);
      } else {
        assert ps[i := Resent(ps[i], now)][i] == Resent(ps[i], now);
        var j :| 0 <= j < |ps| && ps[j] == p;
        assert j != i ==> ps[i := Resent(ps[i], now)][j] == p;
      }
    }
  }

  /** Calls of `main_task` at one time send every expired packet with retries left, sooner or later; when
      one of them has the id of a packet that is not raised but not its wire form, that one is lost. */
  lemma {:induction false} RetransmissionHurts(u: Setup, s: System, p: Packet, q: Packet, now: nat)
    requires u.a.retryHoldoff > 0 && s.a.lastTransmitted == now
    requires p in s.a.packets && p.kind >= TYPE_OFFSET && Pending(s, p) && !Raised(s, p) && !Due(u.a, p, now)
    requires q in s.a.packets && q.kind != ACK_TYPE && Expired(u.a, q, now) && !Exhausted(u.a, q)
    requires q.id == p.id && Wire(q) != Wire(p)
    ensures !SoundFrom(u, s, now)
    decreases Weight(u.a, s.a.packets)
  {
    var t := Next(u, s, TaskA(now));
    var (ps, sent) := Sweep(u.a, s.a.packets, 0, now);
    SweepKeepsTheRest(u.a, s.a.packets, 0, now, p);
    SweepKeepsTheRest(u.a, s.a.packets, 0, now, q);
    SweepLowersWeight(u.a, s.a.packets, 0, now);
    var p' := if p in ps then p else Resent(p, now);
    assert t.a.packets == ps && !Raised(t, p');
    if SoundFrom(u, s, now) {
      SoundFromNext(u, s, now, TaskA(now));
      if sent == Some(q) {
        CopyHurts(u, t, now, p', Wire(q));
      } else {
        RetransmissionHurts(u, t, p', q, now);
      }
    }
  }

  /** A packet from the peer makes any ping wait. */
  lemma PeerDelaysPings(u: Setup, s: System, clock: nat, now: nat) returns (t: System)
    requires clock <= now
    ensures SoundFrom(u, s, clock) ==> SoundFrom(u, t, now)
    ensures t.a == s.a.(lastTransmitted := now, lastReceived := Some(now))
    ensures t.raised == s.raised && t.born == s.born
  {
    var e := SendB(0, [], now);
    var s1 := Next(u, s, e);
    var m := Wire(s1.b.packets[|s.b.packets|]);
    assert m in s1.toA && m[0] == TYPE_OFFSET;
    t := Next(u, s1, DeliverA(m, now));
    if SoundFrom(u, s, clock) {
      SoundFromNext(u, s, clock, e);
      SoundFromNext(u, s1, now, DeliverA(m, now));
    }
  }

  /** Node `a` has just created the packet `n`, with retries counted once. */
  predicate JustCreated(s: System, t: System, n: Packet) {
    && t.a.packets == s.a.packets + [n] && t.a.serials == s.a.serials + 1 && n.serial == s.a.serials
    && t.toA == s.toA && t.toB == s.toB + multiset{Wire(n)}
    && t.raised == s.raised && t.born == s.born[n.serial := |s.raised|]
    && n.kind != ACK_TYPE && n.retries == 1
  }

  /** The first copy of a new packet gets an older one acknowledged. */
  lemma NewHurtsPending(u: Setup, s: System, t: System, clock: nat, n: Packet, q: Packet)
    requires Inv(u, s) && JustCreated(s, t, n) && q in s.a.packets && q.kind >= TYPE_OFFSET && !Raised(s, q)
    requires n.id == q.id && Wire(n) != Wire(q)
    ensures !SoundFrom(u, t, clock)
  {
    assert Pending(s, q);
    assert !Raised(t, q);
    CopyHurts(u, t, clock, q, Wire(n));
  }

  /** An older packet that will be sent again gets a new one acknowledged. */
  lemma OldHurtsNew(u: Setup, s: System, t: System, clock: nat, n: Packet, q: Packet)
    requires Inv(u, s) && JustCreated(s, t, n) && q in s.a.packets && !Exhausted(u.a, q)
    requires u.a.retryHoldoff > 0 && n.kind >= TYPE_OFFSET && n.id == q.id && Wire(n) != Wire(q)
    ensures !SoundFrom(u, t, clock)
  {
    assert Pending(s, q) && Pending(t, n) && !Raised(t, n);
    assert !Exhausted(u.a, n);
    var expiry := q.sentAt + u.a.retryHoldoff;
    var later := if clock <= expiry then expiry else clock;
    var t' := PeerDelaysPings(u, t, clock, later);
    assert !Raised(t', n) && Pending(t', n);
    assert n in t'.a.packets && q in t'.a.packets;
    RetransmissionHurts(u, t', n, q, later);
  }

  /** What hurts without a retransmission. A user packet: an acknowledgement in flight, another packet in
      flight, or another pending packet that is still waited for. A ping: the latter. */
  ghost predicate HarmlessAtOnce(s: System, p: Packet) {
    && (p.kind >= TYPE_OFFSET ==>
          && (forall m :: m in s.toA && IsAck(m) ==> m[1] != p.id)
          && (forall m :: m in s.toB && IsPacket(m) && m[1] == p.id ==> m == Wire(p)))
    && (forall q :: q in s.a.packets && q.id == p.id && q.kind >= TYPE_OFFSET ==> Wire(q) == Wire(p) || Raised(s, q))
  }

  lemma HarmfulAtOnceHurts(u: Setup, s: System, t: System, clock: nat, n: Packet)
    requires Inv(u, s) && JustCreated(s, t, n) && !HarmlessAtOnce(s, n)
    ensures !SoundFrom(u, t, clock)
  {
    if m :| n.kind >= TYPE_OFFSET && m in s.toA && IsAck(m) && m[1] == n.id {
      AckHurts(u, t, clock, n, m);
    } else if m :| n.kind >= TYPE_OFFSET && m in s.toB && IsPacket(m) && m[1] == n.id && m != Wire(n) {
      CopyHurts(u, t, clock, n, m);
    } else {
      var q :| q in s.a.packets && q.id == n.id && q.kind >= TYPE_OFFSET && Wire(q) != Wire(n) && !Raised(s, q);
      NewHurtsPending(u, s, t, clock, n, q);
    }
  }

  /** A new packet that is not harmless makes trouble possible: a continuation with no further new packets
      removes a user packet that was never raised. */
  lemma HarmfulHurts(u: Setup, s: System, t: System, clock: nat, n: Packet)
    requires Inv(u, s) && JustCreated(s, t, n) && !Harmless(u, s, n) && u.a.retryHoldoff > 0
    ensures !SoundFrom(u, t, clock)
  {
    if n.kind < TYPE_OFFSET {
      var q :| q in s.a.packets && q.id == n.id && q.kind >= TYPE_OFFSET && !Raised(s, q);
      assert Wire(n)[0] == n.kind != q.kind == Wire(q)[0];
      NewHurtsPending(u, s, t, clock, n, q);
    } else if !HarmlessAtOnce(s, n) {
      HarmfulAtOnceHurts(u, s, t, clock, n);
    } else {
      var q :| q in s.a.packets && q.id == n.id && Wire(q) != Wire(n)
               && !(Exhausted(u.a, q) && (q.kind >= TYPE_OFFSET ==> Raised(s, q)));
      OldHurtsNew(u, s, t, clock, n, q);
    }
  }

  /** Reusing an id is safe exactly when the new packet is harmless. If it is, no continuation, over every
      loss, reordering and retransmission and whatever the clocks do, removes a user packet that node `b` has
      not raised, as long as further new packets are harmless too. If it is not, some continuation does, with a
      clock that never goes back. With a hold-off of zero a packet with retries left may never get its turn,
      and the second half holds for what hurts without a retransmission. */
  lemma ReuseIsSafeExactlyWhen(u: Setup, s: System, kind: byte, data: seq<byte>, now: nat)
    requires Inv(u, s) && kind != ACK_TYPE
    ensures var t := ActA(s, Create(s.a, kind, data, now));
            var n := t.a.packets[|s.a.packets|];
            && (Harmless(u, s, n) ==> AlwaysSound(u, t) && SoundFrom(u, t, now))
            && (u.a.retryHoldoff > 0 && SoundFrom(u, t, now) ==> Harmless(u, s, n))
            && (SoundFrom(u, t, now) ==> HarmlessAtOnce(s, n))
  {
    var t := ActA(s, Create(s.a, kind, data, now));
    var n := t.a.packets[|s.a.packets|];
    if Harmless(u, s, n) {
      CreateKeepsInv(u, s, kind, data, now);
      InvIsAlwaysSound(u, t);
      AlwaysIsFromHere(u, t, now);
    } else if u.a.retryHoldoff > 0 {
      HarmfulHurts(u, s, t, now, n);
    }
    if !HarmlessAtOnce(s, n) {
      HarmfulAtOnceHurts(u, s, t, now, n);
    }
  }

  /** A sweep of five: the first and the third are erased, so that it never looks at the fourth. */
  lemma FourthIsPassed(st: Settings, a: Packet, b: Packet, c: Packet, q: Packet, n: Packet, now: nat)
    requires Due(st, a, now) && Due(st, c, now) && Expired(st, n, now) && !Exhausted(st, n)
    ensures Sweep(st, [a, b, c, q, n], 0, now) == ([b, q, Resent(n, now)], Some(n))
  {
    SweepTurn(st, [], a, [b, c, q, n], [a, b, c, q, n], now);
    assert [] + [b, c, q, n] == [b, c, q, n];
    SweepTurn(st, [b], c, [q, n], [b, c, q, n], now);
    assert [b] + [q, n] == [b, q, n];
    SweepTurn(st, [b, q], n, [], [b, q, n], now);
    assert [b, q] + [Resent(n, now)] + [] == [b, q, Resent(n, now)];
  }

  lemma SecondIsPassed(st: Settings, a: Packet, q: Packet, n: Packet, now: nat)
    requires Due(st, a, now) && Due(st, n, now)
    ensures Sweep(st, [a, q, n], 0, now) == ([q], None)
  {
    SweepTurn(st, [], a, [q, n], [a, q, n], now);
    assert [] + [q, n] == [q, n];
    SweepTurn(st, [q], n, [], [q, n], now);
    assert [q] + [] == [q];
  }

  /** The hold-off matters: with none and two retries at most, behind three packets that are given up, two
      calls of `main_task` give up the new packet `n` and never send `q`, which has a retry left. */
  lemma ZeroHoldoffCanSpare(st: Settings, a: Packet, b: Packet, c: Packet, q: Packet, n: Packet, now: nat)
    requires st.retryHoldoff == 0 && st.retriesMax == 2
    requires a.sentAt <= now && b.sentAt <= now && c.sentAt <= now && q.sentAt <= now && n.sentAt <= now
    requires a.retries == b.retries == c.retries == 2 && q.retries == n.retries == 1
    ensures var (r1, sent1) := Sweep(st, [a, b, c, q, n], 0, now);
            var (r2, sent2) := Sweep(st, r1, 0, now);
            sent1 == Some(n) && sent2 == None && r2 == [q]
  {
    FourthIsPassed(st, a, b, c, q, n, now);
    SecondIsPassed(st, b, q, Resent(n, now), now);
  }

  /** The simplest way to be harmed: in every state where an acknowledgement for the next id is still in
      flight, a new packet can be removed by it although node `b` raises nothing. */
  lemma StaleAckRemovesNewPacket(u: Setup, s: System, kind: byte, data: seq<byte>, now: nat)
    requires kind <= 255 - TYPE_OFFSET && Ack(Low8(s.a.idCounter + 1)) in s.toA
    ensures var s1 := Next(u, s, SendA(kind, data, now));
            var s2 := Next(u, s1, DeliverA(Ack(Low8(s.a.idCounter + 1)), now));
            && |s1.a.packets| == |s.a.packets| + 1
            && s1.a.packets[|s.a.packets|] !in s2.a.packets
            && s1.born[s1.a.packets[|s.a.packets|].serial] == |s.raised| == |s2.raised|
            && !Raised(s2, s1.a.packets[|s.a.packets|])
  {
  }

  /** `k` packets sent one after the other. */
  function Sends(k: nat): (r: seq<Move>)
    ensures |r| == k
  {
    seq(k, i => SendA(0, [], 0))
  }

  lemma Low8Adds(x: byte, k: nat)
    ensures Low8(Low8(x + 1) + k) == Low8(x + (k + 1))
  {
  }

  lemma SendCounts(u: Setup, s: System)
    ensures var t := Next(u, s, SendA(0, [], 0));
            t.a.idCounter == Low8(s.a.idCounter + 1) && t.toA == s.toA
  {
  }

  lemma {:induction false} SendsCount(u: Setup, s: System, k: nat)
    ensures var t := Run(u, s, Sends(k));
            t.a.idCounter == Low8(s.a.idCounter + k) && t.toA == s.toA
    decreases k
  {
    if k > 0 {
      var e := SendA(0, [], 0);
      assert Sends(k) == [e] + Sends(k - 1);
      RunCons(u, s, e, Sends(k - 1));
      SendCounts(u, s);
      SendsCount(u, Next(u, s, e), k - 1);
      Low8Adds(s.a.idCounter, k - 1);
    }
  }

  lemma OneAckHeldBack(u: Setup, s: System)
    requires Start(s) && s.a.idCounter == 0
    ensures var t := Next(u, Next(u, s, SendA(0, [], 0)), DeliverB([TYPE_OFFSET, 1], 0));
            t.a.idCounter == 1 && Ack(1) in t.toA
  {
    var s1 := Next(u, s, SendA(0, [], 0));
    var p := s1.a.packets[0];
    assert Wire(p) == [TYPE_OFFSET, 1];
    assert s1.toB == multiset{Wire(p)};
  }

  /** One packet is delivered, its acknowledgement is held back, and `k` more packets are sent. */
  function HoldBack(k: nat): seq<Move> {
    [SendA(0, [], 0)] + ([DeliverB([TYPE_OFFSET, 1], 0)] + Sends(k))
  }

  lemma HoldBackCounts(u: Setup, s: System, k: nat)
    requires Start(s) && s.a.idCounter == 0
    ensures var t := Run(u, s, HoldBack(k));
            t.a.idCounter == Low8(k + 1) && Ack(1) in t.toA
  {
    OneAckHeldBack(u, s);
    var s1 := Next(u, s, SendA(0, [], 0));
    var s2 := Next(u, s1, DeliverB([TYPE_OFFSET, 1], 0));
    RunCons(u, s, SendA(0, [], 0), [DeliverB([TYPE_OFFSET, 1], 0)] + Sends(k));
    RunCons(u, s1, DeliverB([TYPE_OFFSET, 1], 0), Sends(k));
    SendsCount(u, s2, k);
  }

  /** Such a state is reached from the start, after 255 more packets. */
  lemma StaleAckIsReachable(u: Setup, s: System, k: nat)
    requires Start(s) && s.a.idCounter == 0 && k == 255
    ensures var t := Run(u, s, HoldBack(k));
            Ack(Low8(t.a.idCounter + 1)) in t.toA
  {
    HoldBackCounts(u, s, k);
  }

  lemma RunCons(u: Setup, s: System, e: Move, moves: seq<Move>)
    ensures Run(u, s, [e] + moves) == Run(u, Next(u, s, e), moves)
  {
    assert ([e] + moves)[1..] == moves;
  }
}
