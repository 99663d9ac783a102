/** Turning a fragment's container into a frame. */
module Serializer {
  import opened Prelude
  import opened LinkFrame
  import opened BytesContainer
  import C = Container

  /** The sender's part of the preallocation: header and preamble in front, checksum behind. */
  const FRONT_MARGIN := HEADER_SIZE + PREAMBLE_LENGTH
  const BACK_MARGIN := FOOTER_SIZE

  /** Wraps the data in header, preamble and checksum, in place when the container has the margins,
      and moves the result out. */
  method SerializeFragment(cfg: Config, source: nat, destination: nat, data: Bytes) returns (frame: Bytes)
    requires data.Valid()
    modifies data, data.data
    ensures fresh(frame) && frame.Valid()
    ensures frame.View() == Frame(cfg, Fragment(source, destination, old(data.View())))
    ensures C.HasMargin(old(data.Layout()), FRONT_MARGIN, BACK_MARGIN) ==> frame.data == old(data.data)
    ensures data.Valid() && data.View() == []
  {
    if data.CapacityBack() < FOOTER_SIZE || data.offset < HEADER_SIZE + PREAMBLE_LENGTH {
      data.Reserve(HEADER_SIZE + PREAMBLE_LENGTH, FOOTER_SIZE);
    }
    PushHeader(source, destination, data);
    PushPreambleAndChecksum(cfg, data);
    frame := new Bytes(0, 0, 0);
    frame.MoveFrom(data);
  }

  method PushHeader(source: nat, destination: nat, data: Bytes)
    requires data.Valid() && data.offset >= HEADER_SIZE
    modifies data, data.data
    ensures data.Valid() && data.data == old(data.data)
    ensures data.offset == old(data.offset) - HEADER_SIZE && data.CapacityBack() == old(data.CapacityBack())
    ensures data.View() == Body(Fragment(source, destination, old(data.View())))
  {
    var header := Header(Low8(destination), Low8(source), Low8(data.length),
                         Low8(Low8(destination) + Low8(source) + Low8(data.length)));
    data.PushFront(HeaderBytes(header));
  }

  /** Completes a container that exposes header and data. */
  method PushPreambleAndChecksum(cfg: Config, data: Bytes)
    requires data.Valid() && data.offset >= PREAMBLE_LENGTH && data.CapacityBack() >= FOOTER_SIZE
    modifies data, data.data
    ensures data.Valid() && data.data == old(data.data)
    ensures data.View() == [PREAMBLE, PREAMBLE] + old(data.View()) + cfg.crc(old(data.View()))
  {
    Halves([PREAMBLE, PREAMBLE], data.View());
    data.PushFront([PREAMBLE, PREAMBLE]);
    PushChecksum(cfg, data);
  }

  /** Appends the checksum of everything behind the preamble. */
  method PushChecksum(cfg: Config, data: Bytes)
    requires data.Valid() && data.length >= PREAMBLE_LENGTH && data.CapacityBack() >= FOOTER_SIZE
    modifies data, data.data
    ensures data.Valid() && data.data == old(data.data)
    ensures data.View() == old(data.View()) + cfg.crc(old(data.View())[PREAMBLE_LENGTH..])
  {
    var hashed := data.Exposed(PREAMBLE_LENGTH, data.length - PREAMBLE_LENGTH);
    assert hashed == data.View()[PREAMBLE_LENGTH..];
    data.PushBack(cfg.crc(hashed));
  }
}
