/** Frames on the wire: two preamble bytes, a four-byte header, the data, a four-byte checksum
    over header and data. */
module LinkFrame {
  import opened Prelude

  const PREAMBLE: byte := 0x55
  const HEADER_SIZE := 4
  const FOOTER_SIZE := 4
  const PREAMBLE_LENGTH := 2

  /** The four checksum bytes as they appear in memory. */
  type Hash = h: seq<byte> | |h| == 4 witness [0, 0, 0, 0]

  /** `crc` is the checksum algorithm, about which nothing is assumed. */
  datatype Config = Config(crc: seq<byte> -> Hash, maxFragmentSize: nat)

  /** Room for preamble, header, checksum and at least one data byte. */
  predicate Usable(cfg: Config) {
    cfg.maxFragmentSize > HEADER_SIZE + FOOTER_SIZE + PREAMBLE_LENGTH
  }

  function MaxData(cfg: Config): nat
    requires Usable(cfg)
  {
    cfg.maxFragmentSize - (HEADER_SIZE + FOOTER_SIZE + PREAMBLE_LENGTH)
  }

  /** The bound the header check really uses: it takes an 8-bit argument. */
  function SizeBound(cfg: Config): byte
    requires Usable(cfg)
  {
    Low8(MaxData(cfg))
  }

  datatype Header = Header(destination: byte, source: byte, size: byte, check: byte)

  predicate HeaderValid(h: Header, maxSize: byte) {
    && h.check == Low8(h.destination + h.source + h.size)
    && 0 < h.size <= maxSize
    && h.destination != h.source
  }

  function HeaderAt(s: seq<byte>, p: nat): Header
    requires p + HEADER_SIZE <= |s|
  {
    Header(s[p], s[p + 1], s[p + 2], s[p + 3])
  }

  function HeaderBytes(h: Header): seq<byte> {
    [h.destination, h.source, h.size, h.check]
  }

  /** A fragment as the layers above the link see it; addresses are wider than the wire's. */
  datatype Fragment = Fragment(source: nat, destination: nat, data: seq<byte>)

  /** The header that the sender writes; addresses and size are truncated to a byte. */
  function HeaderOf(f: Fragment): Header {
    var d, s, n := Low8(f.destination), Low8(f.source), Low8(|f.data|);
    Header(d, s, n, Low8(d + s + n))
  }

  function Body(f: Fragment): seq<byte> {
    HeaderBytes(HeaderOf(f)) + f.data
  }

  /** What `serialize_fragment` puts on the wire. */
  function Frame(cfg: Config, f: Fragment): (r: seq<byte>)
    ensures |r| == |f.data| + 10
  {
    [PREAMBLE, PREAMBLE] + Body(f) + cfg.crc(Body(f))
  }

  /** Header to checksum inclusive, for `size` data bytes. */
  function BlockSize(size: nat): nat {
    size + FOOTER_SIZE + HEADER_SIZE
  }

  /** What `parse_fragment` makes of a block of header, data and checksum. */
  function ParseBlock(cfg: Config, b: seq<byte>): (r: Option<Fragment>)
    requires Usable(cfg) && |b| >= HEADER_SIZE + FOOTER_SIZE
  {
    var h := HeaderAt(b, 0);
    var n := |b| - FOOTER_SIZE;
    if !HeaderValid(h, SizeBound(cfg)) then None
    else if b[n..] != cfg.crc(b[..n]) then None
    else Some(Fragment(h.source, h.destination, b[HEADER_SIZE..n]))
  }

  /** Fragments that arrive as they were sent: address bytes that differ, and data that is there and
      within the bound that the header check really uses. */
  predicate Sendable(cfg: Config, f: Fragment)
    requires Usable(cfg)
  {
    && f.source < 0x100 && f.destination < 0x100 && f.source != f.destination
    && 1 <= |f.data| <= SizeBound(cfg)
  }

  /** The pieces of a frame behind its preamble. */
  lemma FramePieces(cfg: Config, f: Fragment)
    ensures var b := Frame(cfg, f)[2..];
            && b == Body(f) + cfg.crc(Body(f)) && |b| == |Body(f)| + 4
            && b[..|b| - 4] == Body(f) && b[|b| - 4..] == cfg.crc(Body(f))
  {
    Associate([PREAMBLE, PREAMBLE], Body(f), cfg.crc(Body(f)));
    Halves([PREAMBLE, PREAMBLE], Body(f) + cfg.crc(Body(f)));
    Halves(Body(f), cfg.crc(Body(f)));
  }

  lemma BodyPieces(f: Fragment)
    ensures |Body(f)| == |f.data| + 4 && Body(f)[4..] == f.data && HeaderAt(Body(f), 0) == HeaderOf(f)
  {
    Halves(HeaderBytes(HeaderOf(f)), f.data);
  }

  /** A block is parsed by its body and its checksum. */
  lemma ParseByPieces(cfg: Config, b: seq<byte>, body: seq<byte>)
    requires Usable(cfg) && |body| >= HEADER_SIZE && |b| == |body| + FOOTER_SIZE
    requires b[..|body|] == body && b[|body|..] == cfg.crc(body)
    ensures var h := HeaderAt(body, 0);
            ParseBlock(cfg, b) == if HeaderValid(h, SizeBound(cfg))
                                  then Some(Fragment(h.source, h.destination, body[HEADER_SIZE..])) else None
  {
    assert HeaderAt(b, 0) == HeaderAt(body, 0);
    assert b[HEADER_SIZE..|body|] == body[HEADER_SIZE..];
  }

  lemma FrameHeader(cfg: Config, f: Fragment)
    ensures HeaderAt(Frame(cfg, f), 2) == HeaderOf(f)
  {
  }

  /** Nothing is truncated in the header of a sendable fragment, except that the bound may be. */
  lemma SendableHeader(cfg: Config, f: Fragment)
    requires Usable(cfg) && Sendable(cfg, f)
    ensures var h := HeaderOf(f);
            && h.source == f.source && h.destination == f.destination && h.size == |f.data|
            && HeaderValid(h, SizeBound(cfg))
  {
  }

  /** Parsing undoes framing, once the preamble is gone. */
  lemma ParseInvertsFrame(cfg: Config, f: Fragment)
    requires Usable(cfg) && Sendable(cfg, f)
    ensures ParseBlock(cfg, Frame(cfg, f)[2..]) == Some(f)
    ensures HeaderAt(Frame(cfg, f), 2) == HeaderOf(f) && HeaderValid(HeaderOf(f), SizeBound(cfg))
  {
    FramePieces(cfg, f);
    FrameHeader(cfg, f);
    BodyPieces(f);
    SendableHeader(cfg, f);
    ParseByPieces(cfg, Frame(cfg, f)[2..], Body(f));
  }

  /** What is on the wire, byte by byte: two preamble bytes, destination, source, size, their sum, the data,
      and the checksum of everything between preamble and checksum. */
  lemma FrameLayout(cfg: Config, f: Fragment)
    ensures var r, n := Frame(cfg, f), |f.data|;
            && |r| == n + 10 && r[0] == r[1] == 0x55
            && r[2] == f.destination % 0x100 && r[3] == f.source % 0x100 && r[4] == n % 0x100
            && r[5] == (f.destination + f.source + n) % 0x100
            && r[6..6 + n] == f.data && r[6 + n..] == cfg.crc(r[2..6 + n])
  {
    var r, n := Frame(cfg, f), |f.data|;
    FramePieces(cfg, f);
    FrameHeader(cfg, f);
    BodyPieces(f);
    LowSum(f.destination, f.source, n);
    SliceOfSlice(r, 2, |r|, 0, n + 4);
    SliceOfSlice(r, 2, |r|, n + 4, n + 8);
    SliceOfSlice(r, 2, |r|, 4, n + 4);
    assert r[2..][..n + 4] == r[2..][0..n + 4] && r[2..][n + 4..] == r[2..][n + 4..n + 8];
    assert r[2..][4..n + 4] == r[2..][..n + 4][4..];
  }

  /** The peer accepts the header of a fragment exactly when the two address bytes differ and the
      low byte of the size is non-zero and within the low byte of the largest data size. */
  lemma HeaderAcceptedExactlyWhen(cfg: Config, f: Fragment)
    requires Usable(cfg)
    ensures HeaderValid(HeaderAt(Frame(cfg, f), 2), SizeBound(cfg)) <==>
            Low8(f.source) != Low8(f.destination) && 1 <= |f.data| % 0x100 <= MaxData(cfg) % 0x100
  {
    FrameHeader(cfg, f);
  }
}
