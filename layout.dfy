/** Byte layout of a fastpub segment: a header of `infoSize` bytes
    (sizeof(struct fastpub_info)) followed by `maxSubscribers + 2` slots, each
    a 64-byte slot header (sizeof(struct fastpub_buffer), aligned to 64) and
    `bufferSize` payload bytes. Every reference the segment stores is an
    offset from the segment's base, so that each process may map it anywhere;
    offset 0 is the header itself and doubles as the end of the free list. */
module Layout {
  import opened Word

  /** sizeof(struct fastpub_buffer). */
  const SLOT_HEADER: nat := 64
  /** The readiness sentinel the publisher writes last. */
  const READY: nat := 0x4040_4040

  /** The three sizes a segment is created with. `infoSize` stands for
      sizeof(struct fastpub_info), which depends on the platform's pthread
      types; only its alignment to 64 bytes is fixed. */
  datatype Geometry = Geometry(infoSize: nat, bufferSize: nat, maxSubscribers: nat)

  /** What a 32-bit offset word in the segment designates: the header (offset
      0) or the slot with the given index. */
  datatype Ref = Header | Slot(index: nat)

  function SlotCount(g: Geometry): nat
  {
    g.maxSubscribers + 2
  }

  function SlotSize(g: Geometry): nat
  {
    SLOT_HEADER + g.bufferSize
  }

  /** The size the publisher gives the shared object. */
  function SegmentSize(g: Geometry): nat
  {
    g.infoSize + SlotSize(g) * SlotCount(g)
  }

  /** A header that is a non-empty multiple of 64 bytes, and a segment small
      enough that every offset fits the header's 32-bit words. */
  predicate ValidGeometry(g: Geometry)
  {
    g.infoSize > 0 && g.infoSize % SLOT_HEADER == 0 && SegmentSize(g) <= LIMIT
  }

  predicate InBounds(g: Geometry, r: Ref)
  {
    r.Slot? ==> r.index < SlotCount(g)
  }

  /** The offset word that designates `r`. */
  function Offset(g: Geometry, r: Ref): nat
  {
    match r
    case Header => 0
    case Slot(i) => g.infoSize + i * SlotSize(g)
  }

  /** The reference an offset word designates. */
  function RefAt(g: Geometry, o: nat): Ref
    requires o == 0 || o >= g.infoSize
  {
    if o == 0 then Header else Slot((o - g.infoSize) / SlotSize(g))
  }

  /** The address handed to callers for `r`: just past its slot header. */
  function Payload(g: Geometry, r: Ref): nat
  {
    Offset(g, r) + SLOT_HEADER
  }

  /** The addresses `Payload` produces for some in-bounds reference. */
  predicate IsPayload(g: Geometry, p: nat)
  {
    p == SLOT_HEADER
    || (p >= g.infoSize + SLOT_HEADER
        && (p - g.infoSize - SLOT_HEADER) % SlotSize(g) == 0
        && (p - g.infoSize - SLOT_HEADER) / SlotSize(g) < SlotCount(g))
  }

  /** What fastpub_release does to the address it is given: step back over
      the slot header and turn the result into an offset. */
  function SlotOfPayload(g: Geometry, p: nat): Ref
    requires IsPayload(g, p)
  {
    RefAt(g, p - SLOT_HEADER)
  }

  lemma MulMono(a: int, b: int, s: int)
    requires s > 0
    ensures a <= b <==> a * s <= b * s
  {
    assert b * s - a * s == (b - a) * s;
  }

  lemma MulDivCancel(i: nat, s: nat)
    requires s > 0
    ensures (i * s) / s == i && (i * s) % s == 0
  {
    var q, r := (i * s) / s, (i * s) % s;
    assert i * s == q * s + r && 0 <= r < s;
    assert (q + 1) * s == q * s + s;
    MulMono(q, i, s);
    MulMono(q + 1, i, s);
  }

  /** Offsets and references convert into each other without loss. */
  lemma OffsetRoundTrip(g: Geometry, r: Ref)
    requires g.infoSize > 0
    ensures RefAt(g, Offset(g, r)) == r
  {
    if r.Slot? {
      MulDivCancel(r.index, SlotSize(g));
      assert Offset(g, r) - g.infoSize == r.index * SlotSize(g);
    }
  }

  /** Every in-bounds reference has a payload address, and fastpub_release's
      step back from that address finds the reference again. */
  lemma PayloadRoundTrip(g: Geometry, r: Ref)
    requires g.infoSize > 0 && InBounds(g, r)
    ensures IsPayload(g, Payload(g, r))
    ensures SlotOfPayload(g, Payload(g, r)) == r
  {
    if r.Slot? {
      MulDivCancel(r.index, SlotSize(g));
      assert Payload(g, r) - g.infoSize - SLOT_HEADER == r.index * SlotSize(g);
    }
    OffsetRoundTrip(g, r);
  }

  /** Conversely, every payload address is the payload of the in-bounds
      reference fastpub_release recovers from it. */
  lemma PayloadInverse(g: Geometry, p: nat)
    requires g.infoSize > 0 && IsPayload(g, p)
    ensures InBounds(g, SlotOfPayload(g, p))
    ensures Payload(g, SlotOfPayload(g, p)) == p
  {
    if p != SLOT_HEADER {
      var d := p - g.infoSize - SLOT_HEADER;
      var q := d / SlotSize(g);
      assert d == q * SlotSize(g) + d % SlotSize(g);
      assert p - SLOT_HEADER != 0;
      assert SlotOfPayload(g, p) == Slot(q);
    }
  }

  /** Distinct references have distinct offsets, and no slot sits at offset 0. */
  lemma OffsetInjective(g: Geometry, r: Ref, r': Ref)
    requires g.infoSize > 0
    ensures Offset(g, r) == Offset(g, r') <==> r == r'
  {
    OffsetRoundTrip(g, r);
    OffsetRoundTrip(g, r');
  }

  /** The slots lie back to back after the header, in index order, and the
      last payload ends exactly where the segment does: the segment is sized
      to hold the header and `maxSubscribers + 2` slots and nothing more.
      Every slot offset fits a 32-bit word. */
  lemma SlotsTileSegment(g: Geometry, i: nat)
    requires ValidGeometry(g) && i < SlotCount(g)
    ensures g.infoSize <= Offset(g, Slot(i)) < LIMIT
    ensures Payload(g, Slot(i)) + g.bufferSize <= SegmentSize(g)
    ensures i + 1 < SlotCount(g) ==> Offset(g, Slot(i)) + SlotSize(g) == Offset(g, Slot(i + 1))
    ensures i + 1 == SlotCount(g) ==> Payload(g, Slot(i)) + g.bufferSize == SegmentSize(g)
  {
    var s, n := SlotSize(g), SlotCount(g);
    assert (i + 1) * s == i * s + s;
    MulMono(i + 1, n, s);
  }
}
