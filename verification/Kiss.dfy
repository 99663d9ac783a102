/** A node of the acknowledge-and-retry protocol: what its operations do to its state, and what they
    hand to the interface. */
module Kiss {
  import opened Prelude

  const ACK_TYPE: byte := 0
  const PING_TYPE: byte := 1
  const TYPE_OFFSET := 5

  /** A pending packet. `serial` names the list node; no operation looks at it. */
  datatype Packet = Packet(kind: byte, id: byte, data: seq<byte>, addr: nat, retries: nat, sentAt: nat, serial: nat)

  datatype Settings = Settings(retriesMax: nat, retryHoldoff: nat, pingHoldoff: nat)

  datatype Node = Node(packets: seq<Packet>, idCounter: byte, serials: nat, defaultAddr: nat,
                       lastTransmitted: nat, lastReceived: Option<nat>)

  /** A fragment for the interface. */
  datatype Out = Out(addr: nat, payload: seq<byte>)

  /** A received packet, with the type that its sender's user gave it. */
  datatype Event = Event(kind: byte, data: seq<byte>)

  function Wire(p: Packet): seq<byte> {
    [p.kind, p.id] + p.data
  }

  function Ack(id: byte): seq<byte> {
    [ACK_TYPE, id]
  }

  predicate Expired(s: Settings, p: Packet, now: nat) {
    p.sentAt + s.retryHoldoff <= now
  }

  predicate Exhausted(s: Settings, p: Packet) {
    p.retries >= s.retriesMax
  }

  function Resent(p: Packet, now: nat): Packet {
    p.(sentAt := now, retries := p.retries + 1)
  }

  function Without(ps: seq<Packet>, id: byte): (r: seq<Packet>)
    ensures forall p :: p in r <==> p in ps && p.id != id
  {
    if ps == [] then []
    else (if ps[0].id == id then [] else [ps[0]]) + Without(ps[1..], id)
  }

  /** Appends a packet, transmits it and marks it as sent. */
  function Create(n: Node, kind: byte, data: seq<byte>, now: nat): (r: (Node, Option<Out>)) {
    var p := Packet(kind, Low8(n.idCounter + 1), data, n.defaultAddr, 1, now, n.serials);
    (n.(packets := n.packets + [p], idCounter := p.id, serials := n.serials + 1, lastTransmitted := now),
     Some(Out(p.addr, Wire(p))))
  }

  function Transmit(n: Node, kind: byte, data: seq<byte>, now: nat): (Node, Option<Out>) {
    if kind > 255 - TYPE_OFFSET then (n, None) else Create(n, kind + TYPE_OFFSET, data, now)
  }

  function Receive(n: Node, from: nat, f: seq<byte>, now: nat): (Node, Option<Out>, Option<Event>) {
    if |f| < 2 then (n, None, None)
    else if f[0] == ACK_TYPE then
      (n.(packets := Without(n.packets, f[1]), lastReceived := Some(now)), None, None)
    else
      (n.(lastReceived := Some(now), lastTransmitted := now), Some(Out(from, Ack(f[1]))),
       if f[0] >= TYPE_OFFSET then Some(Event(f[0] - TYPE_OFFSET, f[2..])) else None)
  }

  /** The loop of `main_task` from element `i` on. An erased element is followed by an increment, so the
      element behind it is passed over. Returns the list and the packet that was sent again. */
  function Sweep(s: Settings, ps: seq<Packet>, i: nat, now: nat): (r: (seq<Packet>, Option<Packet>))
    decreases |ps| - i
  {
    if i >= |ps| then (ps, None)
    else if !Expired(s, ps[i], now) then Sweep(s, ps, i + 1, now)
    else if !Exhausted(s, ps[i]) then (ps[i := Resent(ps[i], now)], Some(ps[i]))
    else Sweep(s, ps[..i] + ps[i + 1..], i + 1, now)
  }

  predicate PingDue(s: Settings, n: Node, now: nat) {
    s.pingHoldoff != 0 && n.lastTransmitted + s.pingHoldoff <= now
  }

  function MainTask(s: Settings, n: Node, now: nat): (Node, Option<Out>) {
    var (ps, sent) := Sweep(s, n.packets, 0, now);
    match sent
    case Some(p) => (n.(packets := ps, lastTransmitted := now), Some(Out(p.addr, Wire(p))))
    case None =>
      var n' := n.(packets := ps);
      if PingDue(s, n', now) then Create(n', PING_TYPE, [], now) else (n', None)
  }

  // --- one sweep ---

  /** A sweep only removes packets, or sends exactly one of them again. */
  lemma {:induction false} SweepKeepsOrSends(s: Settings, ps: seq<Packet>, i: nat, now: nat)
    ensures var (r, sent) := Sweep(s, ps, i, now);
            && (sent.None? ==> forall p :: p in r ==> p in ps)
            && (sent.Some? ==> sent.value in ps && !Exhausted(s, sent.value) && Resent(sent.value, now) in r
                               && forall p :: p in r ==> p in ps || p == Resent(sent.value, now))
    decreases |ps| - i
  {
    if i < |ps| {
      if !Expired(s, ps[i], now) {
        SweepKeepsOrSends(s, ps, i + 1, now);
      } else if Exhausted(s, ps[i]) {
        SweepKeepsOrSends(s, ps[..i] + ps[i + 1..], i + 1, now);
      } else {
        assert ps[i := Resent(ps[i], now)][i] == Resent(ps[i], now);
      }
    }
  }

  /** What is left to do for the pending packets. */
  function Weight(s: Settings, ps: seq<Packet>): nat {
    if ps == [] then 0
    else (if ps[0].retries < s.retriesMax then s.retriesMax - ps[0].retries else 0) + 1 + Weight(s, ps[1..])
  }

  lemma {:induction false} WeightSplits(s: Settings, a: seq<Packet>, b: seq<Packet>)
    ensures Weight(s, a + b) == Weight(s, a) + Weight(s, b)
  {
    if a == [] {
      assert a + b == b;
    } else {
      assert (a + b)[1..] == a[1..] + b;
      WeightSplits(s, a[1..], b);
    }
  }

  /** Erasing a packet, or sending one that has retries left, lowers the weight. */
  lemma OneLowersWeight(s: Settings, ps: seq<Packet>, i: nat, now: nat)
    requires i < |ps|
    ensures Weight(s, ps[..i] + ps[i + 1..]) < Weight(s, ps)
    ensures !Exhausted(s, ps[i]) ==> Weight(s, ps[i := Resent(ps[i], now)]) < Weight(s, ps)
  {
    var a, b, r := ps[..i], ps[i + 1..], Resent(ps[i], now);
    assert ps == a + ([ps[i]] + b) && ps[i := r] == a + ([r] + b);
    WeightSplits(s, a, b);
    WeightSplits(s, a, [ps[i]] + b);
    WeightSplits(s, a, [r] + b);
    WeightSplits(s, [ps[i]], b);
    WeightSplits(s, [r], b);
  }

  lemma {:induction false} SweepLowersWeight(s: Settings, ps: seq<Packet>, i: nat, now: nat)
    ensures Weight(s, Sweep(s, ps, i, now).0) <= Weight(s, ps)
    ensures (exists j :: i <= j < |ps| && Expired(s, ps[j], now)) ==>
              Weight(s, Sweep(s, ps, i, now).0) < Weight(s, ps)
    decreases |ps| - i
  {
    if i < |ps| {
      OneLowersWeight(s, ps, i, now);
      if !Expired(s, ps[i], now) {
        SweepLowersWeight(s, ps, i + 1, now);
      } else if Exhausted(s, ps[i]) {
        SweepLowersWeight(s, ps[..i] + ps[i + 1..], i + 1, now);
      }
    }
  }

  // --- what one sweep does to any list ---

  /** Due for removal. */
  predicate Due(s: Settings, p: Packet, now: nat) {
    Expired(s, p, now) && Exhausted(s, p)
  }

  /** How many packets directly in front of element `k` are due, without a gap. */
  function DuesBefore(s: Settings, ps: seq<Packet>, k: nat, now: nat): nat
    requires k <= |ps|
  {
    if k == 0 || !Due(s, ps[k - 1], now) then 0 else 1 + DuesBefore(s, ps, k - 1, now)
  }

  /** What a sweep leaves of the first `k` elements: of each gapless run of due packets it erases the
      first, the third and so on. */
  function Kept(s: Settings, ps: seq<Packet>, k: nat, now: nat): seq<Packet>
    requires k <= |ps|
  {
    if k == 0 then []
    else if Due(s, ps[k - 1], now) && DuesBefore(s, ps, k - 1, now) % 2 == 0 then Kept(s, ps, k - 1, now)
    else Kept(s, ps, k - 1, now) + [ps[k - 1]]
  }

  /** A packet that a sweep sends again, if it gets that far: it has expired with retries left, and no
      erased packet is directly in front of it. */
  predicate SentAgain(s: Settings, ps: seq<Packet>, k: nat, now: nat)
    requires k < |ps|
  {
    Expired(s, ps[k], now) && !Exhausted(s, ps[k]) && DuesBefore(s, ps, k, now) % 2 == 0
  }

  /** The first such packet from `j` on, or the end of the list. */
  function FirstSentAgain(s: Settings, ps: seq<Packet>, j: nat, now: nat): (k: nat)
    requires j <= |ps|
    ensures j <= k <= |ps| && (k < |ps| ==> SentAgain(s, ps, k, now))
    ensures forall i :: j <= i < k ==> !SentAgain(s, ps, i, now)
    decreases |ps| - j
  {
    if j == |ps| || SentAgain(s, ps, j, now) then j else FirstSentAgain(s, ps, j + 1, now)
  }

  /** What a sweep that stops at element `k` leaves behind, and what it sends. */
  function StoppedAt(s: Settings, ps: seq<Packet>, k: nat, now: nat): (seq<Packet>, Option<Packet>)
    requires k <= |ps|
  {
    if k == |ps| then (Kept(s, ps, k, now), None)
    else (Kept(s, ps, k, now) + [Resent(ps[k], now)] + ps[k + 1..], Some(ps[k]))
  }

  /** One turn of the loop, at element `x` between `a` and `b`. */
  lemma SweepTurn(s: Settings, a: seq<Packet>, x: Packet, b: seq<Packet>, l: seq<Packet>, now: nat)
    requires l == a + [x] + b
    ensures !Expired(s, x, now) ==> Sweep(s, l, |a|, now) == Sweep(s, l, |a| + 1, now)
    ensures Expired(s, x, now) && !Exhausted(s, x) ==>
              Sweep(s, l, |a|, now) == (a + [Resent(x, now)] + b, Some(x))
    ensures Due(s, x, now) ==> Sweep(s, l, |a|, now) == Sweep(s, a + b, |a| + 1, now)
  {
    assert l[|a|] == x;
    assert l[..|a|] + l[|a| + 1..] == a + b;
    assert l[|a| := Resent(x, now)] == a + [Resent(x, now)] + b;
  }

  /** What passing one element means. */
  lemma PassOne(s: Settings, ps: seq<Packet>, j: nat, now: nat)
    requires j < |ps|
    ensures var one, kept := Due(s, ps[j], now), Kept(s, ps, j, now);
            && (!one ==> Kept(s, ps, j + 1, now) == kept + [ps[j]] && DuesBefore(s, ps, j + 1, now) == 0)
            && (one ==> DuesBefore(s, ps, j + 1, now) == DuesBefore(s, ps, j, now) + 1)
            && (one && DuesBefore(s, ps, j, now) % 2 == 0 ==> Kept(s, ps, j + 1, now) == kept)
            && (one && DuesBefore(s, ps, j, now) % 2 == 1 ==> Kept(s, ps, j + 1, now) == kept + [ps[j]])
    ensures FirstSentAgain(s, ps, j, now) ==
            if SentAgain(s, ps, j, now) then j else FirstSentAgain(s, ps, j + 1, now)
  {
  }

  /** An erased element and the one behind it, which is passed over. */
  lemma PassTwo(s: Settings, ps: seq<Packet>, j: nat, now: nat)
    requires j + 1 < |ps| && Due(s, ps[j], now) && DuesBefore(s, ps, j, now) % 2 == 0
    ensures Kept(s, ps, j + 2, now) == Kept(s, ps, j, now) + [ps[j + 1]] && DuesBefore(s, ps, j + 2, now) % 2 == 0
    ensures FirstSentAgain(s, ps, j, now) == FirstSentAgain(s, ps, j + 2, now)
  {
    PassOne(s, ps, j, now);
    PassOne(s, ps, j + 1, now);
  }

  /** The loop over a list `l` whose first `i` elements are what it has left of the first `j`; `k` is where it
      will stop. */
  lemma {:induction false} SweepFrom(s: Settings, ps: seq<Packet>, j: nat, l: seq<Packet>, i: nat, k: nat, now: nat)
    requires j <= |ps| && DuesBefore(s, ps, j, now) % 2 == 0 && k == FirstSentAgain(s, ps, j, now)
    requires l == Kept(s, ps, j, now) + ps[j..] && i == |Kept(s, ps, j, now)|
    ensures Sweep(s, l, i, now) == StoppedAt(s, ps, k, now)
    decreases |ps| - j
  {
    var kept := Kept(s, ps, j, now);
    if j == |ps| {
      assert l == kept;
    } else {
      PassOne(s, ps, j, now);
      assert ps[j..] == [ps[j]] + ps[j + 1..];
      Associate(kept, [ps[j]], ps[j + 1..]);
      SweepTurn(s, kept, ps[j], ps[j + 1..], l, now);
      if !Expired(s, ps[j], now) {
        SweepFrom(s, ps, j + 1, l, i + 1, k, now);
      } else if Exhausted(s, ps[j]) {
        SweepPasses(s, ps, j, kept, kept + ps[j + 1..], k, now);
      }
    }
  }

  /** An erased element takes the one behind it out of the sweep. */
  lemma {:induction false} SweepPasses(s: Settings, ps: seq<Packet>, j: nat, kept: seq<Packet>, l: seq<Packet>,
                                       k: nat, now: nat)
    requires j < |ps| && Due(s, ps[j], now) && DuesBefore(s, ps, j, now) % 2 == 0
    requires kept == Kept(s, ps, j, now) && l == kept + ps[j + 1..] && k == FirstSentAgain(s, ps, j, now)
    ensures Sweep(s, l, |kept| + 1, now) == StoppedAt(s, ps, k, now)
    decreases |ps| - j, 0
  {
    if j + 1 == |ps| {
      PassOne(s, ps, j, now);
      assert l == kept;
    } else {
      PassTwo(s, ps, j, now);
      assert ps[j + 1..] == [ps[j + 1]] + ps[j + 2..];
      Associate(kept, [ps[j + 1]], ps[j + 2..]);
      SweepFrom(s, ps, j + 2, l, |kept| + 1, k, now);
    }
  }

  /** A sweep of any list: it erases every other packet of each run of due ones, up to the first packet
      that has expired with retries left and is not passed over; that one it sends again, and what is
      behind it stays as it is. */
  lemma SweepIs(s: Settings, ps: seq<Packet>, now: nat)
    ensures Sweep(s, ps, 0, now) == StoppedAt(s, ps, FirstSentAgain(s, ps, 0, now), now)
  {
    assert [] + ps[0..] == ps;
    SweepFrom(s, ps, 0, ps, 0, FirstSentAgain(s, ps, 0, now), now);
  }

  predicate NoneDue(s: Settings, ps: seq<Packet>, now: nat) {
    forall i :: 0 <= i < |ps| ==> !Due(s, ps[i], now)
  }

  /** No two neighbours among the first `k` elements are both due. */
  predicate NoNeighboursDue(s: Settings, ps: seq<Packet>, k: nat, now: nat)
    requires k <= |ps|
  {
    forall i :: 0 < i < k ==> !(Due(s, ps[i - 1], now) && Due(s, ps[i], now))
  }

  lemma NoneDueSplits(s: Settings, a: seq<Packet>, p: Packet, b: seq<Packet>, now: nat)
    ensures NoneDue(s, a + [p] + b, now) <==> NoneDue(s, a, now) && !Due(s, p, now) && NoneDue(s, b, now)
  {
    var l := a + [p] + b;
    if NoneDue(s, l, now) {
      forall i | 0 <= i < |a| ensures !Due(s, a[i], now) { assert l[i] == a[i]; }
      assert l[|a|] == p;
      forall i | 0 <= i < |b| ensures !Due(s, b[i], now) { assert l[|a| + 1 + i] == b[i]; }
    }
  }

  lemma NoneDueSnoc(s: Settings, a: seq<Packet>, p: Packet, now: nat)
    ensures NoneDue(s, a + [p], now) <==> NoneDue(s, a, now) && !Due(s, p, now)
  {
    NoneDueSplits(s, a, p, [], now);
    assert a + [p] + [] == a + [p];
  }

  lemma {:induction false} KeptIsClearExactlyWhen(s: Settings, ps: seq<Packet>, k: nat, now: nat)
    requires k <= |ps|
    ensures NoneDue(s, Kept(s, ps, k, now), now) <==> NoNeighboursDue(s, ps, k, now)
    decreases k
  {
    if k > 0 {
      KeptIsClearExactlyWhen(s, ps, k - 1, now);
      NoneDueSnoc(s, Kept(s, ps, k - 1, now), ps[k - 1], now);
      PassOne(s, ps, k - 1, now);
      if k > 1 {
        NeighbourKept(s, ps, k - 1, now);
      }
    }
  }

  /** Behind a due packet: if an even number of due ones precede an element, the last of them was kept. */
  lemma NeighbourKept(s: Settings, ps: seq<Packet>, k: nat, now: nat)
    requires 0 < k < |ps|
    ensures NoNeighboursDue(s, ps, k + 1, now) <==>
            NoNeighboursDue(s, ps, k, now) && !(Due(s, ps[k - 1], now) && Due(s, ps[k], now))
    ensures Due(s, ps[k - 1], now) && DuesBefore(s, ps, k, now) % 2 == 0 ==> !NoneDue(s, Kept(s, ps, k, now), now)
    ensures !Due(s, ps[k - 1], now) ==> DuesBefore(s, ps, k, now) == 0
  {
    PassOne(s, ps, k - 1, now);
    NoneDueSnoc(s, Kept(s, ps, k - 1, now), ps[k - 1], now);
  }

  /** The loop leaves no packet that is due exactly when no two neighbours are due in front of the packet
      that it sends again, and none is due behind it. With a hold-off of zero the packet sent again can
      be due at once. */
  lemma OneSweepClearsExactlyWhen(s: Settings, ps: seq<Packet>, now: nat)
    ensures var (r, sent) := Sweep(s, ps, 0, now);
            var k := FirstSentAgain(s, ps, 0, now);
            && (sent.None? ==> (NoneDue(s, r, now) <==> NoNeighboursDue(s, ps, |ps|, now)))
            && (sent.Some? <==> k < |ps|)
            && (sent.Some? ==>
                  (NoneDue(s, r, now) <==>
                    NoNeighboursDue(s, ps, k, now) && NoneDue(s, ps[k + 1..], now)
                    && (s.retryHoldoff > 0 || ps[k].retries + 1 < s.retriesMax)))
  {
    var k := FirstSentAgain(s, ps, 0, now);
    SweepIs(s, ps, now);
    KeptIsClearExactlyWhen(s, ps, k, now);
    if k < |ps| {
      var kept, again := Kept(s, ps, k, now), Resent(ps[k], now);
      NoneDueSplits(s, kept, again, ps[k + 1..], now);
    }
  }

  // --- the list drains ---

  function Tasks(s: Settings, n: Node, times: seq<nat>): Node
    decreases |times|
  {
    if times == [] then n else Tasks(s, MainTask(s, n, times[0]).0, times[1..])
  }

  /** Calls far enough apart for every packet to expire in between. */
  predicate Spaced(s: Settings, ps: seq<Packet>, times: seq<nat>) {
    && (times != [] ==> forall p :: p in ps ==> Expired(s, p, times[0]))
    && forall i :: 0 <= i < |times| - 1 ==> times[i] + s.retryHoldoff <= times[i + 1]
  }

  /** With pings off and nothing new to send, enough calls of `main_task` empty the list. */
  lemma {:induction false} ListDrains(s: Settings, n: Node, times: seq<nat>)
    requires s.pingHoldoff == 0 && Spaced(s, n.packets, times) && |times| >= Weight(s, n.packets)
    ensures Tasks(s, n, times).packets == []
    decreases |times|
  {
    if times != [] {
      var n' := MainTask(s, n, times[0]).0;
      SweepLowersWeight(s, n.packets, 0, times[0]);
      SweepKeepsOrSends(s, n.packets, 0, times[0]);
      if n.packets != [] {
        assert n.packets[0] in n.packets;
      }
      assert times[1..] != [] ==> times[1..][0] == times[0 + 1];
      ListDrains(s, n', times[1..]);
    }
  }

  /** Every other element, from the second on. */
  function Odd(ps: seq<Packet>): seq<Packet> {
    if |ps| <= 1 then [] else [ps[1]] + Odd(ps[2..])
  }

  lemma {:induction false} SweepPassesOver(s: Settings, ps: seq<Packet>, i: nat, now: nat)
    requires i <= |ps| && forall j :: i <= j < |ps| ==> Due(s, ps[j], now)
    ensures Sweep(s, ps, i, now) == (ps[..i] + Odd(ps[i..]), None)
    decreases |ps| - i
  {
    if i < |ps| {
      var rest := ps[..i] + ps[i + 1..];
      if i + 1 < |ps| {
        SweepPassesOver(s, rest, i + 1, now);
        assert rest[..i + 1] == ps[..i] + [ps[i + 1]];
        assert rest[i + 1..] == ps[i..][2..];
        assert Odd(ps[i..]) == [ps[i + 1]] + Odd(ps[i..][2..]);
        assert ps[..i] + [ps[i + 1]] + Odd(ps[i..][2..]) == ps[..i] + ([ps[i + 1]] + Odd(ps[i..][2..]));
      } else {
        assert rest == ps[..i];
      }
    } else {
      assert ps[..i] + Odd(ps[i..]) == ps;
    }
  }

  /** One call of `main_task`, for any list: when no packet is due afterwards. With a hold-off of zero the
      packet sent again, or a ping that is sent instead, can be due at once. When every packet is due, the
      call removes every other one, the first included, and all of them only if there is at most one. */
  lemma OneCallClearsExactlyWhen(s: Settings, n: Node, now: nat)
    ensures var ps, r := n.packets, MainTask(s, n, now).0.packets;
            var k := FirstSentAgain(s, ps, 0, now);
            && (k < |ps| ==>
                  (NoneDue(s, r, now) <==>
                    NoNeighboursDue(s, ps, k, now) && NoneDue(s, ps[k + 1..], now)
                    && (s.retryHoldoff > 0 || ps[k].retries + 1 < s.retriesMax)))
            && (k == |ps| ==>
                  (NoneDue(s, r, now) <==>
                    NoNeighboursDue(s, ps, k, now) && (PingDue(s, n, now) ==> s.retryHoldoff > 0 || 1 < s.retriesMax)))
            && ((forall j :: 0 <= j < |ps| ==> Due(s, ps[j], now)) && !PingDue(s, n, now) ==>
                  r == Odd(ps) && (r == [] <==> |ps| <= 1))
  {
    var (r, sent) := Sweep(s, n.packets, 0, now);
    OneSweepClearsExactlyWhen(s, n.packets, now);
    if sent.None? && PingDue(s, n, now) {
      var ps := MainTask(s, n, now).0.packets;
      NoneDueSnoc(s, r, ps[|r|], now);
    }
    if forall j :: 0 <= j < |n.packets| ==> Due(s, n.packets[j], now) {
      SweepPassesOver(s, n.packets, 0, now);
      assert n.packets[0..] == n.packets;
    }
  }

  // --- the retry bound ---

  // --- what a node does with what it is given, in bytes ---

  /** A fragment of less than two bytes is ignored. One that starts with zero is an acknowledgement: every
      pending packet with the id behind it leaves the list, and the others stay in their order. Any other is
      acknowledged to where it comes from, and raised if its type is one that users can give. */
  lemma ReceiveInBytes(n: Node, from: nat, f: seq<byte>, now: nat)
    ensures |f| < 2 ==> Receive(n, from, f, now) == (n, None, None)
    ensures |f| >= 2 && f[0] == 0 ==>
              && Receive(n, from, f, now).0 == n.(packets := Without(n.packets, f[1]), lastReceived := Some(now))
              && Receive(n, from, f, now).1 == None && Receive(n, from, f, now).2 == None
    ensures |f| >= 2 && f[0] != 0 ==>
              Receive(n, from, f, now) ==
              (n.(lastReceived := Some(now), lastTransmitted := now), Some(Out(from, [0, f[1]])),
               if f[0] >= 5 then Some(Event(f[0] - 5, f[2..])) else None)
  {
  }

  /** A user packet gets the next id, is sent to the default address with its type moved by five, and waits at
      the end of the list with one transmission counted; a type above 250 is refused. */
  lemma TransmitInBytes(n: Node, kind: byte, data: seq<byte>, now: nat)
    ensures kind > 250 ==> Transmit(n, kind, data, now) == (n, None)
    ensures kind <= 250 ==>
              var id, k := (n.idCounter + 1) as int % 0x100, kind as int + 5;
              var (r, out) := Transmit(n, kind, data, now);
              && out == Some(Out(n.defaultAddr, [k, id] + data)) && r.idCounter == id && r.lastTransmitted == now
              && r.packets == n.packets + [Packet(k, id, data, n.defaultAddr, 1, now, n.serials)]
              && r.lastReceived == n.lastReceived && r.defaultAddr == n.defaultAddr && r.serials == n.serials + 1
  {
  }

  // --- what the clock decides ---

  /** A packet whose hold-off is not over stays as it is, and it is not the one that is sent. */
  lemma {:induction false} SweepWaits(s: Settings, ps: seq<Packet>, i: nat, now: nat, p: Packet)
    requires p in ps && now < p.sentAt + s.retryHoldoff
    ensures var (r, sent) := Sweep(s, ps, i, now);
            p in r && sent != Some(p) && (sent.Some? ==> sent.value.sentAt + s.retryHoldoff <= now)
    decreases |ps| - i
  {
    if i < |ps| {
      if !Expired(s, ps[i], now) {
        SweepWaits(s, ps, i + 1, now, p);
      } else if Exhausted(s, ps[i]) {
        assert ps == ps[..i] + [ps[i]] + ps[i + 1..];
        SweepWaits(s, ps[..i] + ps[i + 1..], i + 1, now, p);
      } else {
        var j :| 0 <= j < |ps| && ps[j] == p;
        assert ps[i := Resent(ps[i], now)][j] == p;
      }
    }
  }

  /** Over one call a packet whose hold-off is not over stays in the list as it is, and it is not what is
      handed over. */
  lemma HoldoffIsKept(s: Settings, n: Node, now: nat, p: Packet)
    requires p in n.packets && now < p.sentAt + s.retryHoldoff
    ensures p in MainTask(s, n, now).0.packets
    ensures Unrepeated(n.packets) && p.serial < n.serials ==> p.serial !in Transmits(s, n, Task(now))
  {
    SweepWaits(s, n.packets, 0, now, p);
    SweepKeepsOrSends(s, n.packets, 0, now);
  }

  lemma {:induction false} NothingExpires(s: Settings, ps: seq<Packet>, i: nat, now: nat)
    requires forall p :: p in ps ==> now < p.sentAt + s.retryHoldoff
    ensures Sweep(s, ps, i, now) == (ps, None)
    decreases |ps| - i
  {
    if i < |ps| {
      assert ps[i] in ps;
      NothingExpires(s, ps, i + 1, now);
    }
  }

  /** What a call does when no hold-off is over: nothing, or exactly one ping when pings are on and the node
      has been silent for long enough. */
  lemma QuietCall(s: Settings, n: Node, now: nat)
    requires forall p :: p in n.packets ==> now < p.sentAt + s.retryHoldoff
    ensures var (r, out) := MainTask(s, n, now);
            var id := (n.idCounter + 1) as int % 0x100;
            if s.pingHoldoff == 0 || now < n.lastTransmitted + s.pingHoldoff then r == n && out == None
            else out == Some(Out(n.defaultAddr, [1, id])) && r.lastTransmitted == now && r.idCounter == id
                 && r.packets == n.packets + [Packet(1, id, [], n.defaultAddr, 1, now, n.serials)]
  {
    NothingExpires(s, n.packets, 0, now);
    assert Wire(Packet(1, Low8(n.idCounter + 1), [], n.defaultAddr, 1, now, n.serials)) == [1, Low8(n.idCounter + 1)];
  }

  /** The loop at a first packet that has expired. */
  lemma HeadSweep(s: Settings, p: Packet, rest: seq<Packet>, now: nat)
    requires p.sentAt + s.retryHoldoff <= now
    ensures Sweep(s, [p] + rest, 0, now) ==
            if p.retries < s.retriesMax then ([p.(retries := p.retries + 1, sentAt := now)] + rest, Some(p))
            else Sweep(s, rest, 1, now)
  {
    SweepTurn(s, [], p, rest, [p] + rest, now);
    assert [] + [p] + rest == [p] + rest;
    assert [] + [Resent(p, now)] + rest == [Resent(p, now)] + rest;
    assert [] + rest == rest;
  }

  /** What a call does when the hold-off of the first packet is over: that packet is sent again if it has
      retries left, its count goes up and its hold-off starts afresh, and nothing else is touched. */
  lemma HeadDecides(s: Settings, n: Node, p: Packet, rest: seq<Packet>, now: nat)
    requires n.packets == [p] + rest && p.sentAt + s.retryHoldoff <= now && p.retries < s.retriesMax
    ensures MainTask(s, n, now) ==
            (n.(packets := [p.(retries := p.retries + 1, sentAt := now)] + rest, lastTransmitted := now),
             Some(Out(p.addr, [p.kind, p.id] + p.data)))
  {
    HeadSweep(s, p, rest, now);
  }

  /** Otherwise it is not there any more. */
  lemma HeadIsGivenUp(s: Settings, n: Node, p: Packet, rest: seq<Packet>, now: nat, q: Packet)
    requires n.packets == [p] + rest && p.sentAt + s.retryHoldoff <= now && p.retries >= s.retriesMax
    requires Unrepeated(n.packets) && p.serial < n.serials && q in MainTask(s, n, now).0.packets
    ensures q.serial != p.serial
  {
    HeadSweep(s, p, rest, now);
    SweepKeepsOrSends(s, rest, 1, now);
    forall r | r in rest ensures r.serial != p.serial {
      var k :| 0 <= k < |rest| && rest[k] == r;
      assert n.packets[k + 1] == r;
    }
  }

  datatype Input =
    | Send(kind: byte, data: seq<byte>, now: nat)
    | Arrive(from: nat, payload: seq<byte>, now: nat)
    | Task(now: nat)

  function Step(s: Settings, n: Node, e: Input): Node {
    match e
    case Send(kind, data, now) => Transmit(n, kind, data, now).0
    case Arrive(from, f, now) => Receive(n, from, f, now).0
    case Task(now) => MainTask(s, n, now).0
  }

  /** The serial of the packet that a step hands to the interface, if it hands over one. */
  function Transmits(s: Settings, n: Node, e: Input): multiset<nat> {
    match e
    case Send(kind, data, now) => if kind > 255 - TYPE_OFFSET then multiset{} else multiset{n.serials}
    case Arrive(from, f, now) => multiset{}
    case Task(now) =>
      var (ps, sent) := Sweep(s, n.packets, 0, now);
      match sent
      case Some(p) => multiset{p.serial}
      case None => if PingDue(s, n.(packets := ps), now) then multiset{n.serials} else multiset{}
  }

  /** What a step hands to the interface. */
  function Emits(s: Settings, n: Node, e: Input): Option<Out> {
    match e
    case Send(kind, data, now) => Transmit(n, kind, data, now).1
    case Arrive(from, f, now) => Receive(n, from, f, now).1
    case Task(now) => MainTask(s, n, now).1
  }

  /** The log says what really goes out: a step that logs nothing hands over nothing or an acknowledgement,
      and a step that logs a serial hands over the pending packet with that serial. */
  lemma TransmitsIsEmitted(s: Settings, n: Node, e: Input)
    ensures Transmits(s, n, e) == multiset{} ==>
              Emits(s, n, e) == None || (e.Arrive? && |e.payload| >= 2 &&
                                         Emits(s, n, e) == Some(Out(e.from, Ack(e.payload[1]))))
    ensures Transmits(s, n, e) != multiset{} ==>
              exists p :: p in Step(s, n, e).packets && Transmits(s, n, e) == multiset{p.serial}
                          && Emits(s, n, e) == Some(Out(p.addr, Wire(p)))
  {
    if Transmits(s, n, e) != multiset{} {
      var ps := Step(s, n, e).packets;
      match e
      case Send(kind, data, now) =>
        assert ps[|ps| - 1] in ps;
      case Task(now) =>
        SweepKeepsOrSends(s, n.packets, 0, now);
        match Sweep(s, n.packets, 0, now).1
        case Some(p) => assert Resent(p, now) in ps;
        case None => assert ps[|ps| - 1] in ps;
    }
  }

  function Log(s: Settings, n: Node, inputs: seq<Input>): multiset<nat>
    decreases |inputs|
  {
    if inputs == [] then multiset{} else Transmits(s, n, inputs[0]) + Log(s, Step(s, n, inputs[0]), inputs[1..])
  }

  function Bound(s: Settings): nat {
    if s.retriesMax == 0 then 1 else s.retriesMax
  }

  predicate Unrepeated(ps: seq<Packet>) {
    forall i, j :: 0 <= i < j < |ps| ==> ps[i].serial != ps[j].serial
  }

  /** Every pending packet has its own serial and counts its transmissions, of which there are at least
      one and at most the bound; nothing was ever transmitted more often. */
  ghost predicate Counts(s: Settings, n: Node, log: multiset<nat>) {
    && Unrepeated(n.packets)
    && (forall p :: p in n.packets ==>
          p.serial < n.serials && 1 <= p.retries <= Bound(s) && log[p.serial] == p.retries)
    && (forall k: nat :: log[k] <= Bound(s))
    && (forall k: nat :: k >= n.serials ==> log[k] == 0)
  }

  lemma {:induction false} SweepKeepsUnrepeated(s: Settings, ps: seq<Packet>, i: nat, now: nat)
    requires Unrepeated(ps)
    ensures Unrepeated(Sweep(s, ps, i, now).0)
    decreases |ps| - i
  {
    if i < |ps| {
      if !Expired(s, ps[i], now) {
        SweepKeepsUnrepeated(s, ps, i + 1, now);
      } else if Exhausted(s, ps[i]) {
        SweepKeepsUnrepeated(s, ps[..i] + ps[i + 1..], i + 1, now);
      }
    }
  }

  lemma WithoutKeepsUnrepeated(ps: seq<Packet>, id: byte)
    requires Unrepeated(ps)
    ensures Unrepeated(Without(ps, id))
  {
    if ps != [] {
      WithoutKeepsUnrepeated(ps[1..], id);
      forall p | p in Without(ps[1..], id) ensures p.serial != ps[0].serial {
        var j :| 0 <= j < |ps[1..]| && ps[1..][j] == p;
        assert ps[j + 1] == p;
      }
    }
  }

  lemma CreateCounts(s: Settings, n: Node, log: multiset<nat>, kind: byte, data: seq<byte>, now: nat)
    requires Counts(s, n, log)
    ensures Counts(s, Create(n, kind, data, now).0, log + multiset{n.serials})
  {
  }

  lemma SweepCounts(s: Settings, n: Node, log: multiset<nat>, now: nat)
    requires Counts(s, n, log)
    ensures var (ps, sent) := Sweep(s, n.packets, 0, now);
            Counts(s, n.(packets := ps), match sent case None => log case Some(p) => log + multiset{p.serial})
  {
    var (ps, sent) := Sweep(s, n.packets, 0, now);
    SweepKeepsUnrepeated(s, n.packets, 0, now);
    SweepKeepsOrSends(s, n.packets, 0, now);
    if sent.Some? {
      var p := sent.value;
      var i :| 0 <= i < |ps| && ps[i] == Resent(p, now);
      forall q | q in ps && q != Resent(p, now) ensures q.serial != p.serial {
        var j :| 0 <= j < |ps| && ps[j] == q;
      }
    }
  }

  lemma StepCounts(s: Settings, n: Node, log: multiset<nat>, e: Input)
    requires Counts(s, n, log)
    ensures Counts(s, Step(s, n, e), log + Transmits(s, n, e))
  {
    match e
    case Send(kind, data, now) =>
      if kind <= 255 - TYPE_OFFSET {
        CreateCounts(s, n, log, kind + TYPE_OFFSET, data, now);
      }
      assert log + multiset{} == log;
    case Arrive(from, f, now) =>
      if |f| >= 2 {
        WithoutKeepsUnrepeated(n.packets, f[1]);
      }
      assert log + multiset{} == log;
    case Task(now) =>
      SweepCounts(s, n, log, now);
      var (ps, sent) := Sweep(s, n.packets, 0, now);
      if sent.None? {
        CreateCounts(s, n.(packets := ps), log, PING_TYPE, [], now);
        assert log + multiset{} == log;
      }
  }

  lemma {:induction false} RunCounts(s: Settings, n: Node, log: multiset<nat>, inputs: seq<Input>, serial: nat)
    requires Counts(s, n, log)
    ensures (log + Log(s, n, inputs))[serial] <= Bound(s)
    decreases |inputs|
  {
    if inputs == [] {
      assert log + multiset{} == log;
    } else {
      StepCounts(s, n, log, inputs[0]);
      var n', sent := Step(s, n, inputs[0]), Transmits(s, n, inputs[0]);
      RunCounts(s, n', log + sent, inputs[1..], serial);
      assert log + (sent + Log(s, n', inputs[1..])) == log + sent + Log(s, n', inputs[1..]);
    }
  }

  /** The time of an input. */
  function When(e: Input): nat {
    match e
    case Send(_, _, now) => now
    case Arrive(_, _, now) => now
    case Task(now) => now
  }

  /** The silence that a ping ends is counted from whatever was handed over last, acknowledgements included. */
  lemma SilenceStartsWith(s: Settings, n: Node, e: Input)
    ensures Step(s, n, e).lastTransmitted == if Emits(s, n, e).Some? then When(e) else n.lastTransmitted
    ensures Step(s, n, e).lastReceived == if e.Arrive? && |e.payload| >= 2 then Some(When(e)) else n.lastReceived
  {
  }

  // --- retransmissions are spaced ---

  /** The node after a run. */
  function After(s: Settings, n: Node, inputs: seq<Input>): Node
    decreases |inputs|
  {
    if inputs == [] then n else After(s, Step(s, n, inputs[0]), inputs[1..])
  }

  /** The serial is taken, and its packet was last sent at time `t` or later. */
  predicate SentSince(n: Node, serial: nat, t: nat) {
    serial < n.serials && forall p :: p in n.packets && p.serial == serial ==> t <= p.sentAt
  }

  /** What is sent again has expired. */
  lemma {:induction false} SweepSendsExpired(s: Settings, ps: seq<Packet>, i: nat, now: nat)
    ensures var sent := Sweep(s, ps, i, now).1; sent.Some? ==> sent.value.sentAt + s.retryHoldoff <= now
    decreases |ps| - i
  {
    if i < |ps| {
      if !Expired(s, ps[i], now) {
        SweepSendsExpired(s, ps, i + 1, now);
      } else if Exhausted(s, ps[i]) {
        SweepSendsExpired(s, ps[..i] + ps[i + 1..], i + 1, now);
      }
    }
  }

  lemma StepKeepsSentSince(s: Settings, n: Node, e: Input, serial: nat, t: nat)
    requires SentSince(n, serial, t)
    ensures SentSince(Step(s, n, e), serial, t)
    ensures serial in Transmits(s, n, e) ==> t + s.retryHoldoff <= When(e)
  {
    if e.Task? {
      SweepKeepsOrSends(s, n.packets, 0, e.now);
      SweepSendsExpired(s, n.packets, 0, e.now);
    }
  }

  lemma {:induction false} RunKeepsSentSince(s: Settings, n: Node, inputs: seq<Input>, serial: nat, t: nat)
    requires SentSince(n, serial, t)
    ensures SentSince(After(s, n, inputs), serial, t)
    decreases |inputs|
  {
    if inputs != [] {
      StepKeepsSentSince(s, n, inputs[0], serial, t);
      RunKeepsSentSince(s, Step(s, n, inputs[0]), inputs[1..], serial, t);
    }
  }

  /** Serials tell the pending packets apart, and new ones are not in use. */
  predicate Named(n: Node) {
    Unrepeated(n.packets) && forall p :: p in n.packets ==> p.serial < n.serials
  }

  lemma SweepKeepsNamed(s: Settings, n: Node, now: nat)
    requires Named(n)
    ensures Named(n.(packets := Sweep(s, n.packets, 0, now).0))
  {
    var (ps, sent) := Sweep(s, n.packets, 0, now);
    SweepKeepsUnrepeated(s, n.packets, 0, now);
    SweepKeepsOrSends(s, n.packets, 0, now);
    forall p | p in ps ensures p.serial < n.serials {
      assert p in n.packets || (sent.Some? && sent.value in n.packets && p == Resent(sent.value, now));
    }
  }

  lemma StepKeepsNamed(s: Settings, n: Node, e: Input)
    requires Named(n)
    ensures Named(Step(s, n, e))
  {
    match e
    case Send(kind, data, now) =>
    case Arrive(from, f, now) =>
      if |f| >= 2 {
        WithoutKeepsUnrepeated(n.packets, f[1]);
      }
    case Task(now) => SweepKeepsNamed(s, n, now);
  }

  /** A step that transmits a packet marks it. */
  lemma TransmissionMarks(s: Settings, n: Node, e: Input, serial: nat)
    requires Named(n) && serial in Transmits(s, n, e)
    ensures SentSince(Step(s, n, e), serial, When(e))
  {
    var r := Step(s, n, e);
    StepKeepsNamed(s, n, e);
    var q := SentBy(s, n, e, serial);
    forall p | p in r.packets && p.serial == serial ensures p == q {
      var i :| 0 <= i < |r.packets| && r.packets[i] == p;
      var j :| 0 <= j < |r.packets| && r.packets[j] == q;
    }
  }

  /** The packet that a step has transmitted carries the time of the step. */
  lemma SentBy(s: Settings, n: Node, e: Input, serial: nat) returns (q: Packet)
    requires serial in Transmits(s, n, e)
    ensures q in Step(s, n, e).packets && q.serial == serial && q.sentAt == When(e)
  {
    var ps := Step(s, n, e).packets;
    if e.Task? && Sweep(s, n.packets, 0, e.now).1.Some? {
      SweepKeepsOrSends(s, n.packets, 0, e.now);
      q := Resent(Sweep(s, n.packets, 0, e.now).1.value, e.now);
    } else {
      q := ps[|ps| - 1];
    }
  }

  lemma AfterFirst(s: Settings, n: Node, inputs: seq<Input>, j: nat)
    requires 0 < j <= |inputs|
    ensures After(s, n, inputs[..j]) == After(s, Step(s, n, inputs[0]), inputs[1..][..j - 1])
  {
    assert inputs[..j][1..] == inputs[1..][..j - 1];
  }

  /** A transmission, and a later one of the same packet. */
  lemma LaterOneWaits(s: Settings, n: Node, e: Input, run: seq<Input>, f: Input, serial: nat)
    requires Named(n) && serial in Transmits(s, n, e)
    requires serial in Transmits(s, After(s, Step(s, n, e), run), f)
    ensures When(e) + s.retryHoldoff <= When(f)
  {
    TransmissionMarks(s, n, e, serial);
    RunKeepsSentSince(s, Step(s, n, e), run, serial, When(e));
    StepKeepsSentSince(s, After(s, Step(s, n, e), run), f, serial, When(e));
  }

  /** Over every run and whatever the clock does, two transmissions of one packet are at least the retry
      hold-off apart. */
  lemma {:induction false} HoldoffSeparates(s: Settings, n: Node, inputs: seq<Input>, i: nat, j: nat, serial: nat)
    requires Named(n) && i < j < |inputs|
    requires serial in Transmits(s, After(s, n, inputs[..i]), inputs[i])
    requires serial in Transmits(s, After(s, n, inputs[..j]), inputs[j])
    ensures When(inputs[i]) + s.retryHoldoff <= When(inputs[j])
    decreases i
  {
    AfterFirst(s, n, inputs, j);
    if i == 0 {
      LaterOneWaits(s, n, inputs[0], inputs[1..][..j - 1], inputs[j], serial);
    } else {
      AfterFirst(s, n, inputs, i);
      StepKeepsNamed(s, n, inputs[0]);
      HoldoffSeparates(s, Step(s, n, inputs[0]), inputs[1..], i - 1, j - 1, serial);
    }
  }

  /** The same from a node without pending packets. */
  lemma TransmissionsAreSpaced(s: Settings, n: Node, inputs: seq<Input>, i: nat, j: nat, serial: nat)
    requires n.packets == [] && i < j < |inputs|
    requires serial in Transmits(s, After(s, n, inputs[..i]), inputs[i])
    requires serial in Transmits(s, After(s, n, inputs[..j]), inputs[j])
    ensures When(inputs[i]) + s.retryHoldoff <= When(inputs[j])
  {
    HoldoffSeparates(s, n, inputs, i, j, serial);
  }

  /** Over every run, whatever arrives and whenever the tasks are called, no packet is handed to the
      interface more often than `max(1, retriesMax)` times. */
  lemma RetriesAreBounded(s: Settings, n: Node, inputs: seq<Input>, serial: nat)
    requires n.packets == []
    ensures Log(s, n, inputs)[serial] <= if s.retriesMax == 0 then 1 else s.retriesMax
  {
    assert Counts(s, n, multiset{});
    RunCounts(s, n, multiset{}, inputs, serial);
    assert multiset{} + Log(s, n, inputs) == Log(s, n, inputs);
  }
}
