/** Shared data model: entries, identities, sizes, offsets and the geometry of one segment file. */
module Layout {
  const SIZE_MAX := 0xffff_ffff
  const U64_MAX := 0xffff_ffff_ffff_ffff
  const SLOT_SIZE := 4096
  const HEADER_REGION := 8192
  const FOOTER_REGION := 8192
  const DATA_START := HEADER_REGION
  const MIN_ENTRY := 44
  const STRIDE := 64
  const INDEX_ITEM := 24
  const CHUNK := 256
  const BOOT_MASK := 0xff_ffff
  const SEQUENCE_MASK := 0xff_ffff_ffff
  const BOOT_UNIT := SEQUENCE_MASK + 1

  type byte = x: int | 0 <= x < 256
  type U64 = x: nat | x <= U64_MAX

  datatype Option<+T> = None | Some(value: T)

  /** What binds a record to one use of one physical slot of one store. */
  datatype Ident = Ident(store: nat, slot: nat, gen: nat)

  datatype Entry = Entry(typ: nat, id: nat, uptime: nat, payload: seq<byte>, at: Ident)

  datatype Geometry = Geometry(segmentSize: nat, dataEnd: nat, indexStart: nat, indexCapacity: nat)

  /** Rounds up to the four-byte entry alignment. */
  function AlignEntry(value: nat): (r: nat)
    ensures value <= r < value + 4 && r % 4 == 0
  {
    (value + 3) / 4 * 4
  }

  /** Rounds up to whole header slots. */
  function AlignSlot(value: nat): (r: nat)
    ensures value <= r < value + SLOT_SIZE && r % SLOT_SIZE == 0
  {
    (value + (SLOT_SIZE - 1)) / SLOT_SIZE * SLOT_SIZE
  }

  /** Size of an entry with this payload, or 0 when it would not fit a 32-bit size. */
  function EntrySize(payloadLen: nat): (r: nat)
    ensures r != 0 ==> MIN_ENTRY + payloadLen <= r < MIN_ENTRY + payloadLen + 4 && r % 4 == 0 && r <= SIZE_MAX
    ensures r == 0 <==> MIN_ENTRY + payloadLen > SIZE_MAX - 3
  {
    if MIN_ENTRY + payloadLen > SIZE_MAX - 3 then 0 else AlignEntry(MIN_ENTRY + payloadLen)
  }

  /** Bytes an entry occupies in the data area. */
  function Size(e: Entry): (r: nat)
    ensures r >= MIN_ENTRY
  {
    AlignEntry(MIN_ENTRY + |e.payload|)
  }

  function Boot(id: nat): nat { id / BOOT_UNIT }

  function MakeId(boot: nat, sequence: nat): nat { boot * BOOT_UNIT + sequence }

  /** Within a boot, entries are numbered from 1. */
  predicate Sequenced(id: nat) { MakeId(Boot(id), 0) < id }

  // ---------- Geometry ----------

  function CalculateGeometry(segmentSize: nat): Option<Geometry>
  {
    if segmentSize > SIZE_MAX || segmentSize % SLOT_SIZE != 0 || segmentSize <= HEADER_REGION + FOOTER_REGION then None
    else
      var available := segmentSize - HEADER_REGION - FOOTER_REGION;
      var maxEntries := available / MIN_ENTRY;
      var indexCapacity := maxEntries / STRIDE + 1;
      var indexSize := AlignSlot(indexCapacity * INDEX_ITEM);
      if indexSize >= available then None
      else
        var indexStart := segmentSize - FOOTER_REGION - indexSize;
        if indexStart > DATA_START + MIN_ENTRY then Some(Geometry(segmentSize, indexStart, indexStart, indexCapacity))
        else None
  }

  /** Number of sparse-index items for `count` entries: one for every STRIDE entries begun. */
  function IndexCount(count: nat): nat { (count + STRIDE - 1) / STRIDE }

  /** Facts about a usable segment geometry that the rest of the store relies on. */
  predicate GeometryOk(g: Geometry)
  {
    && DATA_START + SLOT_SIZE <= g.dataEnd
    && g.dataEnd <= g.indexStart
    && g.indexStart + g.indexCapacity * INDEX_ITEM <= g.segmentSize - FOOTER_REGION
    && g.segmentSize <= SIZE_MAX
    && (g.dataEnd - DATA_START) / MIN_ENTRY / STRIDE + 1 <= g.indexCapacity
  }

  /** Header, entry, index and footer areas never overlap, everything is 32-bit addressable, and the index area
      has an item for every group of entries that can fit in the entry area. */
  lemma GeometryIsSafe(segmentSize: nat)
    requires CalculateGeometry(segmentSize).Some?
    ensures GeometryOk(CalculateGeometry(segmentSize).value)
  {
    var g := CalculateGeometry(segmentSize).value;
    var available := segmentSize - HEADER_REGION - FOOTER_REGION;
    var indexSize := AlignSlot(g.indexCapacity * INDEX_ITEM);
    assert g.indexStart + indexSize == segmentSize - FOOTER_REGION;
    assert g.dataEnd >= DATA_START + SLOT_SIZE by {
      SlotMultiples(segmentSize, indexSize, g.dataEnd);
    }
    assert (g.dataEnd - DATA_START) / MIN_ENTRY <= available / MIN_ENTRY;
  }

  lemma SlotMultiples(segmentSize: nat, indexSize: nat, dataEnd: nat)
    requires segmentSize % SLOT_SIZE == 0 && indexSize % SLOT_SIZE == 0
    requires dataEnd + indexSize == segmentSize - FOOTER_REGION && dataEnd > DATA_START
    ensures dataEnd >= DATA_START + SLOT_SIZE
  {
    var s, i := segmentSize / SLOT_SIZE, indexSize / SLOT_SIZE;
    assert dataEnd == (s - i - 2) * SLOT_SIZE;
  }

  /** However many entries fill the entry area, the index has room for all their items, so an item is never dropped. */
  lemma IndexNeverFull(g: Geometry, count: nat)
    requires GeometryOk(g) && count * MIN_ENTRY <= g.dataEnd - DATA_START
    ensures IndexCount(count) <= g.indexCapacity
  {
    assert count <= (g.dataEnd - DATA_START) / MIN_ENTRY;
  }

  // ---------- Runs of entries ----------

  /** Total size of a run of entries. */
  function Span(es: seq<Entry>): (r: nat)
    ensures r >= MIN_ENTRY * |es|
  {
    if es == [] then 0 else Span(es[..|es| - 1]) + Size(es[|es| - 1])
  }

  /** File offset of entry i of a run written from the start of the data area; i == |es| gives its end. */
  function Off(es: seq<Entry>, i: nat): (r: nat)
    requires i <= |es|
    ensures r >= DATA_START + MIN_ENTRY * i
  {
    DATA_START + Span(es[..i])
  }

  function End(es: seq<Entry>): nat { Off(es, |es|) }

  ghost predicate Increasing(es: seq<Entry>)
  {
    forall i, j :: 0 <= i < j < |es| ==> es[i].id < es[j].id
  }

  lemma OffStep(es: seq<Entry>, i: nat)
    requires i < |es|
    ensures Off(es, i + 1) == Off(es, i) + Size(es[i])
  {
    assert es[..i + 1][..i] == es[..i];
  }

  lemma {:induction false} OffMonotone(es: seq<Entry>, i: nat, j: nat)
    requires i <= j <= |es|
    ensures Off(es, i) + MIN_ENTRY * (j - i) <= Off(es, j)
    decreases j - i
  {
    if i < j {
      OffStep(es, i);
      OffMonotone(es, i + 1, j);
    }
  }

  /** Offsets of a prefix do not depend on what follows it. */
  lemma OffPrefix(es: seq<Entry>, more: seq<Entry>, i: nat)
    requires i <= |es|
    ensures Off(es + more, i) == Off(es, i)
  {
    assert (es + more)[..i] == es[..i];
  }

  lemma SpanPush(es: seq<Entry>, e: Entry)
    ensures Span(es + [e]) == Span(es) + Size(e)
  {
    assert (es + [e])[..|es|] == es;
  }

  lemma {:induction false} SpanAppend(es: seq<Entry>, more: seq<Entry>)
    ensures Span(es + more) == Span(es) + Span(more)
  {
    if more == [] {
      assert es + more == es;
    } else {
      var m := more[..|more| - 1];
      assert (es + more)[..|es + more| - 1] == es + m;
      SpanAppend(es, m);
    }
  }

  /** All retained entries, oldest segment first. */
  function Flat(segs: seq<seq<Entry>>): seq<Entry>
  {
    if segs == [] then [] else Flat(segs[..|segs| - 1]) + segs[|segs| - 1]
  }

  /** Every entry of an earlier segment has a smaller ID than every entry of a later one. */
  ghost predicate Ordered(segs: seq<seq<Entry>>)
  {
    forall a, b, i, j {:trigger segs[a][i], segs[b][j]} ::
      0 <= a < b < |segs| && 0 <= i < |segs[a]| && 0 <= j < |segs[b]| ==> segs[a][i].id < segs[b][j].id
  }
}
