/** The receiving half of a buffered, parsing interface: the ring buffer that the receive interrupt
    fills and the parser that `main_task` runs over it. */
module Buffered {
  import opened Prelude
  import opened LinkFrame
  import opened LinkStream
  import opened LinkMachine
  import opened Ring
  import opened BytesContainer
  import C = Container

  /** The event that a received fragment is emitted on. */
  datatype Channel = Own | Broadcast | Other

  function Route(address: nat, broadcast: nat, f: Fragment): Channel {
    if f.destination == address then Own
    else if f.destination == broadcast then Broadcast
    else Other
  }

  /** Copies the last `n` bytes of a container and hides them. */
  method TakeBack(b: Bytes, n: nat) returns (s: seq<byte>)
    requires b.Valid() && n <= b.length
    modifies b`offset, b`length, b.data
    ensures b.Valid() && b.length == old(b.length) - n
    ensures s == old(b.View())[old(b.length) - n..] && b.View() == old(b.View())[..old(b.length) - n]
  {
    s := b.Exposed(b.length - n, n);
    b.Shrink(0, n);
  }

  /** Copies the first `n` bytes of a container and hides them. */
  method TakeFront(b: Bytes, n: nat) returns (s: seq<byte>)
    requires b.Valid() && n <= b.length
    modifies b`offset, b`length, b.data
    ensures b.Valid() && b.length == old(b.length) - n
    ensures s == old(b.View())[..n] && b.View() == old(b.View())[n..]
  {
    s := b.Exposed(0, n);
    b.Shrink(n, 0);
  }

  /** Everything a container exposes, as a value. */
  method TakeAll(b: Bytes) returns (s: seq<byte>)
    requires b.Valid()
    ensures s == b.View()
  {
    s := b.Exposed(0, b.length);
  }

  /** Hides the first `n` bytes of a container and takes the others. */
  method TakeRest(b: Bytes, n: nat) returns (s: seq<byte>)
    requires b.Valid() && n <= b.length
    modifies b`offset, b`length, b.data
    ensures s == old(b.View())[n..]
  {
    var _ := TakeFront(b, n);
    s := TakeAll(b);
  }

  /** Parsing in terms of the pieces that the container hands out one after the other. */
  lemma ParseBlockInPieces(cfg: Config, b: seq<byte>, header: seq<byte>, front: seq<byte>, data: seq<byte>)
    requires Usable(cfg) && |b| >= HEADER_SIZE + FOOTER_SIZE
    requires header == b[..HEADER_SIZE] && front == b[..|b| - FOOTER_SIZE] && data == front[HEADER_SIZE..]
    ensures HeaderAt(header, 0) == HeaderAt(b, 0)
    ensures ParseBlock(cfg, b) ==
            var h := HeaderAt(header, 0);
            if HeaderValid(h, SizeBound(cfg)) && b[|b| - FOOTER_SIZE..] == cfg.crc(front)
            then Some(Fragment(h.source, h.destination, data)) else None
  {
    assert data == b[HEADER_SIZE..|b| - FOOTER_SIZE];
  }

  /** Compares the checksum at the end of a container and takes the data between it and the header. */
  method ParseChecked(cfg: Config, b: Bytes, h: Header) returns (f: Option<Fragment>)
    requires b.Valid() && b.length >= HEADER_SIZE + FOOTER_SIZE
    modifies b, b.data
    ensures var was := old(b.View());
            var front := was[..|was| - FOOTER_SIZE];
            f == if was[|was| - FOOTER_SIZE..] == cfg.crc(front)
                 then Some(Fragment(h.source, h.destination, front[HEADER_SIZE..])) else None
  {
    var parsed := TakeBack(b, FOOTER_SIZE);
    var hashed := TakeAll(b);
    if parsed != cfg.crc(hashed) {
      return None;
    }
    var data := TakeRest(b, HEADER_SIZE);
    f := Some(Fragment(h.source, h.destination, data));
  }

  /** Parses header, data and checksum out of a container and takes its data away. */
  method ParseFragment(cfg: Config, b: Bytes) returns (f: Option<Fragment>)
    requires Usable(cfg) && b.Valid() && b.length >= HEADER_SIZE + FOOTER_SIZE
    modifies b, b.data
    ensures f == ParseBlock(cfg, old(b.View()))
  {
    ghost var was := b.View();
    ghost var front := was[..|was| - FOOTER_SIZE];
    var header := b.Exposed(0, HEADER_SIZE);
    ParseBlockInPieces(cfg, was, header, front, front[HEADER_SIZE..]);
    var h := HeaderAt(header, 0);
    if !HeaderValid(h, SizeBound(cfg)) {
      return None;
    }
    f := ParseChecked(cfg, b, h);
  }

  /** The test of a preamble, once the header behind it is complete. */
  lemma TryUnfolds(cfg: Config, s: seq<byte>, p: nat, v: Verdict)
    requires Usable(cfg) && p + 1 + HEADER_SIZE <= |s|
    requires var h := HeaderAt(s, p + 1);
             v == if !HeaderValid(h, SizeBound(cfg)) then BadHeader
                  else if |s| - (p + 1) < BlockSize(h.size) then NeedMore
                  else match ParseBlock(cfg, s[p + 1..p + 1 + BlockSize(h.size)])
                       case None => BadChecksum
                       case Some(f) => Accept(f)
    ensures v == Try(cfg, s, p)
  {
  }

  lemma HeaderOfSlice(s: seq<byte>, p: nat)
    requires p + HEADER_SIZE <= |s|
    ensures HeaderAt(s[p..p + HEADER_SIZE], 0) == HeaderAt(s, p)
  {
    var b := s[p..p + HEADER_SIZE];
    assert b[0] == s[p] && b[1] == s[p + 1] && b[2] == s[p + 2] && b[3] == s[p + 3];
  }

  lemma SliceGrows(s: seq<byte>, p: nat, k: nat)
    requires p + k < |s|
    ensures s[p..p + (k + 1)] == s[p..p + k] + [s[p + k]]
  {
  }

  lemma FilledIs(front: nat, s: seq<byte>, back: nat)
    ensures var l := C.Write(C.Fresh(front, |s|, back), 0, s);
            C.Sound(l) && C.Exposed(l) == s && l.offset == front && C.CapacityBack(l) == back
  {
    C.WriteShows(C.Fresh(front, |s|, back), 0, s);
  }

  /** A container that exposes `s` between margins. */
  method ContainerOf(front: nat, s: seq<byte>, back: nat) returns (b: Bytes)
    ensures fresh(b) && b.Valid() && b.View() == s && (b.data == null || fresh(b.data))
    ensures b.offset == front && b.CapacityBack() == back
  {
    FilledIs(front, s, back);
    b := new Bytes(front, |s|, back);
    b.Write(0, s);
  }

  /** Parses a copy of a block. */
  method ParseCopy(cfg: Config, block: seq<byte>) returns (f: Option<Fragment>)
    requires Usable(cfg) && |block| >= HEADER_SIZE + FOOTER_SIZE
    ensures f == ParseBlock(cfg, block)
  {
    var b := ContainerOf(0, block, 0);
    f := ParseFragment(cfg, b);
  }

  /** The circular iterator's `+=`, for an iterator at position `p`. */
  method Advance(n: nat, it: nat, d: nat, ghost p: nat) returns (next: nat)
    requires n > 0 && it == Slot(p, n) && d <= n
    ensures next == Slot(p + d, n)
  {
    SlotShift(p, d, n);
    next := Shift(it, d, n);
  }

  /** Where the iterators are after a byte has been put. */
  lemma PutPlaces(n: nat, l: Link, b: byte)
    requires n > 0 && WellPlaced(l) && Newest(l) - l.read < n
    ensures var r := Put(n, l, b);
            && WellPlaced(r) && Newest(r) - r.read < n
            && Slot(Newest(r), n) == Shift(Slot(Newest(l), n), 1, n)
            && Slot(r.read, n) == Slot(l.read, n)
            && Newest(r) % UINT_RANGE == (Newest(l) % UINT_RANGE + 1) % UINT_RANGE
  {
    SlotShift(Newest(l), 1, n);
    SlotShift(l.read, n, n);
    CountWraps(Newest(l));
  }

  lemma CountWraps(k: nat)
    ensures (k + 1) % UINT_RANGE == (k % UINT_RANGE + 1) % UINT_RANGE
  {
  }

  class BufferedParserInterface {
    const cfg: Config
    const rxBuffer: array<byte>
    const address: nat
    const broadcast: nat
    var writeIt: nat
    var readIt: nat
    var byteCount: nat
    var lastByteCount: nat
    var bytesRxed: nat
    /** The state of the machine that this object implements. */
    ghost var link: Link

    /** The ring holds the newest part of the history, up to the write iterator. */
    ghost predicate RingHolds()
      reads this, rxBuffer
    {
      && Usable(cfg) && cfg.maxFragmentSize <= rxBuffer.Length
      && |link.history| > 0 && writeIt == Slot(Newest(link), rxBuffer.Length)
      && Mirrors(rxBuffer[..], link.history)
    }

    ghost predicate Valid()
      reads this, rxBuffer
    {
      && RingHolds()
      && WellPlaced(link) && Newest(link) - link.read < rxBuffer.Length
      && readIt == Slot(link.read, rxBuffer.Length)
      && byteCount == Newest(link) % UINT_RANGE && lastByteCount == link.polled % UINT_RANGE
      && bytesRxed == link.received
    }

    constructor (cfg: Config, address: nat, broadcast: nat, bufferSize: nat)
      ensures Valid() <==> Usable(cfg) && cfg.maxFragmentSize <= bufferSize
      ensures link == INITIAL && fresh(rxBuffer) && rxBuffer[..] == Zeros(bufferSize)
      ensures writeIt == readIt == byteCount == lastByteCount == bytesRxed == 0
      ensures this.cfg == cfg && this.address == address && this.broadcast == broadcast
    {
      this.cfg := cfg;
      this.address := address;
      this.broadcast := broadcast;
      var zero: nat -> byte := i => 0;
      rxBuffer := new byte[bufferSize](zero);
      writeIt, readIt, byteCount, lastByteCount, bytesRxed := 0, 0, 0, 0, 0;
      link := INITIAL;
      new;
      assert rxBuffer[..] == Zeros(bufferSize);
      if bufferSize > 0 {
        MirrorsStart(bufferSize);
      }
    }

    /** Advances the write iterator and stores a received byte there. */
    method PutSingleReceived(b: byte)
      requires Valid()
      modifies this`writeIt, this`byteCount, this`link, rxBuffer
      ensures Valid() && link == Put(rxBuffer.Length, old(link), b)
    {
      MirrorsAfterPut(rxBuffer[..], link.history, b);
      PutPlaces(rxBuffer.Length, link, b);
      ghost var buffer := rxBuffer[..];
      writeIt := writeIt + 1;
      byteCount := (byteCount + 1) % UINT_RANGE;
      if writeIt >= rxBuffer.Length {
        writeIt := 0;
      }
      rxBuffer[writeIt] := b;
      assert rxBuffer[..] == buffer[writeIt := b];
      link := Put(rxBuffer.Length, link, b);
    }

    /** Moves an iterator to the first `value` before `end`. The ghost arguments are the iterators'
        positions in the history. */
    method Find(start: nat, end: nat, value: byte, ghost p: nat, ghost w: nat)
        returns (at: nat, found: bool, ghost q: nat)
      requires RingHolds() && w == Newest(link) && p <= w < p + rxBuffer.Length
      requires start == Slot(p, rxBuffer.Length) && end == Slot(w, rxBuffer.Length)
      ensures p <= q <= w && at == Slot(q, rxBuffer.Length)
      ensures forall k :: p <= k < q ==> link.history[k] != value
      ensures if found then q < w && link.history[q] == value else q == w
    {
      at, q := start, p;
      while at != end
        invariant p <= q <= w && at == Slot(q, rxBuffer.Length)
        invariant forall k :: p <= k < q ==> link.history[k] != value
        decreases w - q
      {
        DistanceIsDifference(q, w, rxBuffer.Length);
        if rxBuffer[at] == value {
          found := true;
          return;
        }
        SlotShift(q, 1, rxBuffer.Length);
        at, q := Shift(at, 1, rxBuffer.Length), q + 1;
      }
      DistanceIsDifference(q, w, rxBuffer.Length);
      found := false;
    }

    /** Reads through an iterator and increments it. The ghost argument is its position. */
    method Next(it: nat, ghost p: nat) returns (x: byte, next: nat)
      requires RingHolds() && p <= Newest(link) < p + rxBuffer.Length && it == Slot(p, rxBuffer.Length)
      ensures x == link.history[p] && next == Slot(p + 1, rxBuffer.Length)
    {
      SlotShift(p, 1, rxBuffer.Length);
      x, next := rxBuffer[it], Shift(it, 1, rxBuffer.Length);
    }

    /** Copies `count` bytes out of the ring, one increment of the iterator after the other. */
    method ByteCopy(start: nat, count: nat, ghost p: nat) returns (s: seq<byte>)
      requires RingHolds() && p + count <= |link.history| && Newest(link) - p < rxBuffer.Length
      requires start == Slot(p, rxBuffer.Length)
      ensures s == link.history[p..p + count]
    {
      s := [];
      var it := start;
      for pos := 0 to count
        invariant s == link.history[p..p + pos]
        invariant it == Slot(p + pos, rxBuffer.Length)
      {
        var x, next := Next(it, p + pos);
        SliceGrows(link.history, p, pos);
        s, it := s + [x], next;
      }
    }

    /** Copies a header out of the ring, byte by byte. */
    method HeaderUnder(start: nat, ghost p: nat) returns (h: Header)
      requires RingHolds() && p + HEADER_SIZE <= |link.history| && Newest(link) - p < rxBuffer.Length
      requires start == Slot(p, rxBuffer.Length)
      ensures h == HeaderAt(link.history, p)
    {
      var bytes := ByteCopy(start, HEADER_SIZE, p);
      HeaderOfSlice(link.history, p);
      h := HeaderAt(bytes, 0);
    }

    /** The iterator behind a preamble, and how many bytes have been received from there on. */
    method Behind(read: nat, write: nat, ghost p: nat, ghost w: nat) returns (start: nat, available: nat)
      requires RingHolds() && w == Newest(link) && p < w < p + rxBuffer.Length
      requires read == Slot(p, rxBuffer.Length) && write == Slot(w, rxBuffer.Length)
      ensures start == Slot(p + 1, rxBuffer.Length) && available == |link.history| - (p + 1)
    {
      SlotShift(p, 1, rxBuffer.Length);
      DistanceIsDifference(p + 1, w, rxBuffer.Length);
      start := Shift(read, 1, rxBuffer.Length);
      available := Distance(start, write, rxBuffer.Length) + 1;
    }

    /** Tries the preamble byte under the iterator `read` as the start of a frame. */
    method TryFrame(read: nat, write: nat, ghost p: nat, ghost w: nat) returns (v: Verdict)
      requires RingHolds() && w == Newest(link) && p < w < p + rxBuffer.Length
      requires read == Slot(p, rxBuffer.Length) && write == Slot(w, rxBuffer.Length)
      ensures v == Try(cfg, link.history, p)
    {
      var fragmentStart, available := Behind(read, write, p, w);
      if available < HEADER_SIZE {
        return NeedMore;
      }
      var h := HeaderUnder(fragmentStart, p + 1);
      v := TryHeader(fragmentStart, available, h, p + 1);
      TryUnfolds(cfg, link.history, p, v);
    }

    /** Checks a header and goes on to its block. */
    method TryHeader(start: nat, available: nat, h: Header, ghost p: nat) returns (v: Verdict)
      requires RingHolds() && p < |link.history| && Newest(link) - p < rxBuffer.Length
      requires start == Slot(p, rxBuffer.Length) && available == |link.history| - p
      ensures v == if !HeaderValid(h, SizeBound(cfg)) then BadHeader
                   else if available < BlockSize(h.size) then NeedMore
                   else match ParseBlock(cfg, link.history[p..p + BlockSize(h.size)])
                        case None => BadChecksum
                        case Some(f) => Accept(f)
    {
      if !HeaderValid(h, SizeBound(cfg)) {
        return BadHeader;
      }
      SizeBoundIsSmall(cfg);
      v := TryBlock(start, available, BlockSize(h.size), p);
    }

    /** Parses the block under `start` if it has been received completely. */
    method TryBlock(start: nat, available: nat, fragmentSize: nat, ghost p: nat) returns (v: Verdict)
      requires RingHolds() && p < |link.history| && Newest(link) - p < rxBuffer.Length
      requires start == Slot(p, rxBuffer.Length) && available == |link.history| - p
      requires HEADER_SIZE + FOOTER_SIZE <= fragmentSize < rxBuffer.Length
      ensures v == if available < fragmentSize then NeedMore
                   else match ParseBlock(cfg, link.history[p..p + fragmentSize])
                        case None => BadChecksum
                        case Some(f) => Accept(f)
    {
      if available < fragmentSize {
        return NeedMore;
      }
      v := ParseAt(start, fragmentSize, p);
    }

    /** Copies a complete block out of the ring; its size comes from the distance of its ends. */
    method BlockAt(start: nat, fragmentSize: nat, ghost p: nat) returns (block: seq<byte>)
      requires RingHolds() && p + fragmentSize <= |link.history| && Newest(link) - p < rxBuffer.Length
      requires start == Slot(p, rxBuffer.Length) && fragmentSize < rxBuffer.Length
      ensures block == link.history[p..p + fragmentSize]
    {
      SlotShift(p, fragmentSize, rxBuffer.Length);
      DistanceIsDifference(p, p + fragmentSize, rxBuffer.Length);
      var fragmentEnd := Shift(start, fragmentSize, rxBuffer.Length);
      block := ByteCopy(start, Distance(start, fragmentEnd, rxBuffer.Length), p);
    }

    /** Copies a complete block out of the ring and parses it. */
    method ParseAt(start: nat, fragmentSize: nat, ghost p: nat) returns (v: Verdict)
      requires RingHolds() && p + fragmentSize <= |link.history| && Newest(link) - p < rxBuffer.Length
      requires start == Slot(p, rxBuffer.Length) && HEADER_SIZE + FOOTER_SIZE <= fragmentSize < rxBuffer.Length
      ensures v == match ParseBlock(cfg, link.history[p..p + fragmentSize])
                   case None => BadChecksum
                   case Some(f) => Accept(f)
    {
      var block := BlockAt(start, fragmentSize, p);
      var parsed := ParseCopy(cfg, block);
      v := match parsed case None => BadChecksum case Some(f) => Accept(f);
    }

    /** Where to leave the read iterator after the preamble under `read` has been tried. */
    method Settle(v: Verdict, read: nat, ghost p: nat) returns (next: nat)
      requires RingHolds() && p < |link.history| && read == Slot(p, rxBuffer.Length)
      requires NextRead(v, p) <= p + rxBuffer.Length
      ensures next == Slot(NextRead(v, p), rxBuffer.Length)
    {
      match v
      case NeedMore => next := read;
      case BadHeader => next := Advance(rxBuffer.Length, read, 1, p);
      case BadChecksum => next := Advance(rxBuffer.Length, read, 1, p);
      case Accept(f) => next := Advance(rxBuffer.Length, read, BlockSize(|f.data|), p);
    }

    /** The parsing loop: leaves behind the read iterator of `Scan`. */
    method Parse(start: nat, ghost r: nat) returns (found: Option<Fragment>, ghost p: nat, ghost saved: nat)
      requires RingHolds() && r <= Newest(link) < r + rxBuffer.Length
      requires start == readIt == Slot(r, rxBuffer.Length)
      modifies this`readIt
      ensures RingHolds() && r <= saved <= Newest(link) && readIt == Slot(saved, rxBuffer.Length)
      ensures Scan(cfg, link.history, r, r) ==
              (saved, DeliveryAt(p, found))
    {
      var n, read, write := rxBuffer.Length, start, writeIt;
      ghost var h, w := link.history, Newest(link);
      p, saved, found := r, r, None;
      while read != write
        invariant RingHolds() && r <= saved <= p <= w
        invariant read == Slot(p, n) && readIt == Slot(saved, n)
        invariant Scan(cfg, h, r, r) == Scan(cfg, h, saved, p)
        decreases w - p
      {
        ghost var was := p;
        var any;
        read, any, p := Find(read, write, PREAMBLE, p, w);
        ScanSkips(cfg, h, saved, was, p);
        if any {
          var v := TryFrame(read, write, p, w);
          ScanDecides(cfg, h, saved, p, v);
          readIt := Settle(v, read, p);
          saved := NextRead(v, p);
          if !v.BadHeader? {
            found := Accepted(v);
            return;
          }
          read, p := readIt, saved;
        }
      }
      DistanceIsDifference(p, w, n);
    }

    /** Counts what has been loaded since the last call, and drops it all if the ring has overflowed. */
    method CountLoaded() returns (ghost start: nat)
      requires Valid()
      modifies this`readIt, this`lastByteCount, this`bytesRxed
      ensures RingHolds() && start == StartOf(rxBuffer.Length, link) && readIt == Slot(start, rxBuffer.Length)
      ensures start <= Newest(link) < start + rxBuffer.Length
      ensures lastByteCount == Newest(link) % UINT_RANGE
      ensures bytesRxed == Poll(cfg, rxBuffer.Length, link).received
    {
      var loaded := Loaded(lastByteCount, byteCount, rxBuffer.Length);
      lastByteCount := byteCount;
      bytesRxed := (bytesRxed + loaded) % UINT64_RANGE;
      start := StartOf(rxBuffer.Length, link);
      if loaded >= rxBuffer.Length {
        readIt := writeIt;
      }
    }

    /** One call of `do_receive`. The event, if any, is the one that `put_received` emits. */
    method DoReceive() returns (remaining: nat, event: Option<(Channel, Fragment)>)
      requires Valid()
      modifies this`readIt, this`lastByteCount, this`bytesRxed, this`link
      ensures Valid() && link == Step(cfg, rxBuffer.Length, old(link), Call)
      ensures remaining == Newest(link) - link.read
      ensures |link.out| == |old(link).out| + (if event.None? then 0 else 1)
      ensures event.Some? ==>
                var f := link.out[|old(link).out|].fragment;
                event.value == if f.destination == address then (Own, f)
                               else if f.destination == broadcast then (Broadcast, f) else (Other, f)
    {
      var n := rxBuffer.Length;
      ghost var start := CountLoaded();
      var found, p, saved := Parse(readIt, start);
      link := Poll(cfg, n, link);
      event := match found case None => None case Some(f) => Some((Route(address, broadcast, f), f));
      DistanceIsDifference(saved, Newest(link), n);
      remaining := Distance(readIt, writeIt, n);
    }
  }
}
