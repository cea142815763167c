/** The byte layer: how an entry is laid out, written and found again, and why scanning bytes is scanning records. */
module Codec {
  import opened Layout
  import opened Segment
  import opened Crc

  const ENTRY_MAGIC := 0x39525352
  const ENTRY_REVISION := 4
  const HEADER_SIZE := 40
  const CRC_SIZE := 4

  // ---------- Little-endian fields ----------

  function Power(n: nat): nat { if n == 0 then 1 else 256 * Power(n - 1) }

  function Encoded(v: nat, n: nat): (r: seq<byte>)
    ensures |r| == n
  {
    if n == 0 then [] else [v % 256] + Encoded(v / 256, n - 1)
  }

  function Decoded(bs: seq<byte>): nat { if bs == [] then 0 else bs[0] + 256 * Decoded(bs[1..]) }

  lemma {:induction false} FieldRoundTrip(v: nat, n: nat)
    requires v < Power(n)
    ensures Decoded(Encoded(v, n)) == v
  {
    if n > 0 {
      assert Encoded(v, n)[1..] == Encoded(v / 256, n - 1);
      FieldRoundTrip(v / 256, n - 1);
    }
  }

  lemma Widths()
    ensures Power(2) == 0x1_0000 && Power(4) == 0x1_0000_0000 && Power(8) == 0x1_0000_0000_0000_0000
  {
    assert Power(1) == 256 && Power(2) == 0x1_0000 && Power(3) == 0x100_0000 && Power(4) == 0x1_0000_0000;
    assert Power(5) == 0x100_0000_0000 && Power(6) == 0x1_0000_0000_0000 && Power(7) == 0x100_0000_0000_0000;
  }

  // ---------- Entry headers ----------

  datatype Header = Header(magic: nat, revision: nat, typ: nat, id: nat, uptime: nat, len: nat, at: Ident)

  predicate FitsHeader(h: Header)
  {
    && h.magic < Power(4) && h.revision < Power(2) && h.typ < Power(2) && h.id < Power(8) && h.uptime < Power(8)
    && h.len < Power(4) && h.at.store < Power(2) && h.at.slot < Power(2) && h.at.gen < Power(8)
  }

  function HeaderBytes(h: Header): (r: seq<byte>)
    ensures |r| == HEADER_SIZE
  {
    Encoded(h.magic, 4) + Encoded(h.revision, 2) + Encoded(h.typ, 2) + Encoded(h.id, 8) + Encoded(h.uptime, 8) +
      Encoded(h.len, 4) +
    Encoded(h.at.store, 2) + Encoded(h.at.slot, 2) + Encoded(h.at.gen, 8)
  }

  function HeaderAt(bs: seq<byte>): Header
    requires |bs| == HEADER_SIZE
  {
    Header(Decoded(bs[0..4]), Decoded(bs[4..6]), Decoded(bs[6..8]), Decoded(bs[8..16]), Decoded(bs[16..24]),
           Decoded(bs[24..28]), Ident(Decoded(bs[28..30]), Decoded(bs[30..32]), Decoded(bs[32..40])))
  }

  /** The field of n bytes that stands at offset o. */
  lemma FieldAt(bs: seq<byte>, o: nat, v: nat, n: nat)
    requires o + n <= |bs| && v < Power(n)
    requires forall i :: 0 <= i < n ==> bs[o + i] == Encoded(v, n)[i]
    ensures Decoded(bs[o..o + n]) == v
  {
    assert bs[o..o + n] == Encoded(v, n);
    FieldRoundTrip(v, n);
  }

  lemma HeaderRoundTrip(h: Header)
    requires FitsHeader(h)
    ensures HeaderAt(HeaderBytes(h)) == h
  {
    hide Power, Encoded, Decoded;
    var bs := HeaderBytes(h);
    FieldAt(bs, 0, h.magic, 4);
    FieldAt(bs, 4, h.revision, 2);
    FieldAt(bs, 6, h.typ, 2);
    FieldAt(bs, 8, h.id, 8);
    FieldAt(bs, 16, h.uptime, 8);
    FieldAt(bs, 24, h.len, 4);
    FieldAt(bs, 28, h.at.store, 2);
    FieldAt(bs, 30, h.at.slot, 2);
    FieldAt(bs, 32, h.at.gen, 8);
  }

  // ---------- Checksums of byte strings ----------

  function Words(bs: seq<byte>): (r: seq<bv8>)
    ensures |r| == |bs|
  {
    if bs == [] then [] else Words(bs[..|bs| - 1]) + [bs[|bs| - 1] as bv8]
  }

  function Register(bs: seq<byte>): bv32 { Serial(ALL_ONES, MessageBits(Words(bs))) }

  function Sealed(register: bv32): (r: nat)
    ensures r < 0x1_0000_0000
  {
    (!register) as int
  }

  function Checksum(bs: seq<byte>): (r: nat)
    ensures r < 0x1_0000_0000
  {
    Sealed(Register(bs))
  }

  lemma {:induction false} WordsAppend(a: seq<byte>, b: seq<byte>)
    ensures Words(a + b) == Words(a) + Words(b)
  {
    if b == [] {
      assert a + b == a;
    } else {
      var n := |b| - 1;
      assert (a + b)[..|a + b| - 1] == a + b[..n];
      WordsAppend(a, b[..n]);
    }
  }

  lemma RegisterAppend(a: seq<byte>, b: seq<byte>)
    ensures Register(a + b) == Serial(Register(a), MessageBits(Words(b)))
  {
    WordsAppend(a, b);
    Chunks(ALL_ONES, Words(a), Words(b));
  }

  // ---------- Entries ----------

  function HeaderOf(e: Entry): Header { Header(ENTRY_MAGIC, ENTRY_REVISION, e.typ, e.id, e.uptime, |e.payload|, e.at) }

  /** Every field fits its width. */
  predicate FitsEntry(e: Entry) { FitsHeader(HeaderOf(e)) && EntrySize(|e.payload|) != 0 }

  function Zeroes(n: nat): (r: seq<byte>)
    ensures |r| == n
  {
    seq(n, _ => 0)
  }

  function Body(e: Entry): seq<byte> { HeaderBytes(HeaderOf(e)) + e.payload }

  /** Header, payload, checksum of both, and zeroes up to the alignment. */
  function Bytes(e: Entry): (r: seq<byte>)
    ensures |r| == Size(e)
  {
    Body(e) + Encoded(Checksum(Body(e)), CRC_SIZE) + Zeroes(Size(e) - MIN_ENTRY - |e.payload|)
  }

  /** The record that starts at this offset and ends by `limit`, if its magic, revision, length and checksum hold. */
  function RecordAt(file: seq<byte>, limit: nat, offset: nat): Option<Entry>
    requires limit <= |file|
  {
    if offset + MIN_ENTRY > limit then None
    else
      var h := HeaderAt(file[offset..offset + HEADER_SIZE]);
      var size := EntrySize(h.len);
      if h.magic != ENTRY_MAGIC || h.revision != ENTRY_REVISION || size == 0 || offset + size > limit then None
      else
        var stop := offset + HEADER_SIZE + h.len;
        if Decoded(file[stop..stop + CRC_SIZE]) != Checksum(file[offset..stop]) then None
        else Some(Entry(h.typ, h.id, h.uptime, file[offset + HEADER_SIZE..stop], h.at))
  }

  lemma BodyParts(e: Entry)
    ensures Bytes(e)[..HEADER_SIZE] == HeaderBytes(HeaderOf(e))
    ensures Bytes(e)[HEADER_SIZE..HEADER_SIZE + |e.payload|] == e.payload
    ensures Bytes(e)[..HEADER_SIZE + |e.payload|] == Body(e)
    ensures Bytes(e)[HEADER_SIZE + |e.payload|..HEADER_SIZE + |e.payload| + CRC_SIZE] ==
            Encoded(Checksum(Body(e)), CRC_SIZE)
  {
    hide HeaderBytes, Checksum, Encoded, Zeroes;
  }

  lemma SubSlice(file: seq<byte>, o: nat, bs: seq<byte>, a: nat, b: nat)
    requires o + |bs| <= |file| && file[o..o + |bs|] == bs && a <= b <= |bs|
    ensures file[o + a..o + b] == bs[a..b]
  {
    forall i | 0 <= i < b - a ensures file[o + a..o + b][i] == bs[a..b][i] {
      assert file[o..o + |bs|][a + i] == bs[a + i];
    }
  }

  /** What an append writes is what a scan finds. */
  lemma EntryRoundTrip(file: seq<byte>, limit: nat, offset: nat, e: Entry)
    requires limit <= |file| && FitsEntry(e) && offset + Size(e) <= limit
    requires file[offset..offset + Size(e)] == Bytes(e)
    ensures RecordAt(file, limit, offset) == Some(e)
  {
    hide HeaderBytes, HeaderAt, Checksum, Encoded, Decoded, Bytes, Body, FitsHeader;
    var stop := HEADER_SIZE + |e.payload|;
    BodyParts(e);
    SubSlice(file, offset, Bytes(e), 0, HEADER_SIZE);
    SubSlice(file, offset, Bytes(e), HEADER_SIZE, stop);
    SubSlice(file, offset, Bytes(e), 0, stop);
    SubSlice(file, offset, Bytes(e), stop, stop + CRC_SIZE);
    HeaderRoundTrip(HeaderOf(e));
    Widths();
    FieldRoundTrip(Checksum(Body(e)), CRC_SIZE);
  }

  // ---------- Writing ----------

  function Spliced(s: seq<byte>, offset: nat, data: seq<byte>): seq<byte>
    requires offset + |data| <= |s|
  {
    s[..offset] + data + s[offset + |data|..]
  }

  /** Adjacent writes add up. */
  lemma SplicedNext(s: seq<byte>, offset: nat, a: seq<byte>, b: seq<byte>)
    requires offset + |a| + |b| <= |s|
    ensures |Spliced(s, offset, a)| == |s|
    ensures Spliced(Spliced(s, offset, a), offset + |a|, b) == Spliced(s, offset, a + b)
  {
  }

  /** A write into an earlier one replaces just what it covers. */
  lemma SplicedOver(s: seq<byte>, offset: nat, a: seq<byte>, b: seq<byte>, c: seq<byte>)
    requires |c| <= |b| && offset + |a| + |b| <= |s|
    ensures |Spliced(s, offset, a + b)| == |s|
    ensures Spliced(Spliced(s, offset, a + b), offset + |a|, c) == Spliced(s, offset, a + c + b[|c|..])
  {
    var was, now := Spliced(s, offset, a + b), Spliced(s, offset, a + c + b[|c|..]);
    assert was[..offset + |a|] == s[..offset] + a;
    assert was[offset + |a| + |c|..] == b[|c|..] + s[offset + |a| + |b|..];
  }

  lemma SplicedNone(s: seq<byte>, offset: nat)
    requires offset <= |s|
    ensures Spliced(s, offset, Zeroes(0)) == s
  {
  }

  lemma ZeroesAdd(a: nat, b: nat)
    ensures Zeroes(a) + Zeroes(b) == Zeroes(a + b) && Zeroes(a + b)[a..] == Zeroes(b)
  {
  }

  method WriteExact(file: array<byte>, offset: nat, data: seq<byte>)
    requires offset + |data| <= file.Length
    modifies file
    ensures file[..] == Spliced(old(file[..]), offset, data)
  {
    ghost var was := file[..];
    for i := 0 to |data|
      invariant forall j :: 0 <= j < file.Length ==>
                file[j] == if offset <= j < offset + i then data[j - offset] else was[j]
    {
      file[offset + i] := data[i];
    }
  }

  method WriteZeroes(file: array<byte>, offset: nat, len: nat)
    requires offset + len <= file.Length
    modifies file
    ensures file[..] == Spliced(old(file[..]), offset, Zeroes(len))
  {
    hide Spliced, Zeroes;
    ghost var was := file[..];
    var done := 0;
    SplicedNone(was, offset);
    while done < len
      invariant done <= len && file[..] == Spliced(was, offset, Zeroes(done))
    {
      var chunk := if len - done < CHUNK then len - done else CHUNK;
      SplicedNext(was, offset, Zeroes(done), Zeroes(chunk));
      ZeroesAdd(done, chunk);
      WriteExact(file, offset + done, Zeroes(chunk));
      done := done + chunk;
    }
  }

  method ChecksumRegister(table: Table, start: bv32, ghost before: seq<byte>, bs: seq<byte>) returns (register: bv32)
    requires table.Valid() && start == Register(before)
    ensures register == Register(before + bs)
  {
    hide Serial, MessageBits;
    RegisterAppend(before, bs);
    register := table.Update(start, Words(bs));
  }

  lemma RegisterStart()
    ensures Register([]) == ALL_ONES
  {
  }

  /** The header, then the payload, then the checksum, put into a zeroed area, make up the entry's bytes. */
  lemma HeaderInZeroes(was: seq<byte>, pos: nat, header: seq<byte>, size: nat)
    requires pos + size <= |was| && |header| <= size
    ensures |Spliced(was, pos, Zeroes(size))| == |was|
    ensures Spliced(Spliced(was, pos, Zeroes(size)), pos, header) == Spliced(was, pos, header + Zeroes(size - |header|))
  {
    hide Zeroes, Spliced;
    ZeroesAdd(|header|, size - |header|);
    SplicedOver(was, pos, [], Zeroes(size), header);
    assert [] + Zeroes(size) == Zeroes(size) &&
           [] + header + Zeroes(size - |header|) == header + Zeroes(size - |header|);
  }

  lemma PieceInZeroes(was: seq<byte>, pos: nat, a: seq<byte>, piece: seq<byte>, rest: nat)
    requires pos + |a| + rest <= |was| && |piece| <= rest
    ensures |Spliced(was, pos, a + Zeroes(rest))| == |was|
    ensures Spliced(Spliced(was, pos, a + Zeroes(rest)), pos + |a|, piece) ==
            Spliced(was, pos, a + piece + Zeroes(rest - |piece|))
  {
    hide Zeroes, Spliced;
    ZeroesAdd(|piece|, rest - |piece|);
    SplicedOver(was, pos, a, Zeroes(rest), piece);
  }

  lemma SplicedPart(s: seq<byte>, offset: nat, a: seq<byte>, b: seq<byte>)
    requires offset + |a| + |b| <= |s|
    ensures |Spliced(s, offset, a + b)| == |s| && Spliced(s, offset, a + b)[offset..offset + |a|] == a
  {
  }

  /** Buffered append: the entry is put together in the write buffer. */
  method EncodeBuffered(buf: array<byte>, pos: nat, e: Entry, table: Table)
    requires table.Valid() && pos + Size(e) <= buf.Length && table.values as object != buf
    modifies buf
    ensures buf[..] == Spliced(old(buf[..]), pos, Bytes(e))
  {
    hide HeaderBytes, Register, Encoded, Words, Spliced, Sealed, Zeroes;
    ghost var was := buf[..];
    var len, header := |e.payload|, HeaderBytes(HeaderOf(e));
    WriteExact(buf, pos, Zeroes(Size(e)));
    HeaderInZeroes(was, pos, header, Size(e));
    WriteExact(buf, pos, header);
    PieceInZeroes(was, pos, header, e.payload, Size(e) - HEADER_SIZE);
    WriteExact(buf, pos + HEADER_SIZE, e.payload);
    SplicedPart(was, pos, Body(e), Zeroes(Size(e) - HEADER_SIZE - len));
    RegisterStart();
    assert buf[pos..pos + HEADER_SIZE + len] == buf[..][pos..pos + HEADER_SIZE + len];
    var register := ChecksumRegister(table, ALL_ONES, [], buf[pos..pos + HEADER_SIZE + len]);
    assert [] + Body(e) == Body(e);
    PieceInZeroes(was, pos, Body(e), Encoded(Sealed(register), CRC_SIZE), Size(e) - HEADER_SIZE - len);
    WriteExact(buf, pos + HEADER_SIZE + len, Encoded(Sealed(register), CRC_SIZE));
  }

  /** Direct append: header, payload, checksum and padding are written to the file one after the other, and the checksum
      is updated along the way. The bytes are those of a buffered append. */
  method WriteDirect(file: array<byte>, offset: nat, e: Entry, table: Table)
    requires table.Valid() && offset + Size(e) <= file.Length && table.values as object != file
    modifies file
    ensures file[..] == Spliced(old(file[..]), offset, Bytes(e))
  {
    hide HeaderBytes, Register, Encoded, Words, Spliced, Sealed, Zeroes;
    ghost var was := file[..];
    var len, header := |e.payload|, HeaderBytes(HeaderOf(e));
    WriteExact(file, offset, header);
    RegisterStart();
    var register := ChecksumRegister(table, ALL_ONES, [], header);
    assert [] + header == header;
    SplicedNext(was, offset, header, e.payload);
    WriteExact(file, offset + HEADER_SIZE, e.payload);
    register := ChecksumRegister(table, register, header, e.payload);
    var crc := Encoded(Sealed(register), CRC_SIZE);
    SplicedNext(was, offset, Body(e), crc);
    WriteExact(file, offset + HEADER_SIZE + len, crc);
    SplicedNext(was, offset, Body(e) + crc, Zeroes(Size(e) - MIN_ENTRY - len));
    WriteZeroes(file, offset + MIN_ENTRY + len, Size(e) - MIN_ENTRY - len);
  }

  // ---------- Scanning ----------

  /** The intact records of a file, by offset: the view of it that the rest of the model works on. */
  function CellsOf(file: seq<byte>, limit: nat): Cells
    requires limit <= |file|
  {
    map o: nat | o < |file| && RecordAt(file, limit, o).Some? :: RecordAt(file, limit, o).value
  }

  /** Reads one record the way recovery does: the header first, then the payload in chunks, updating the checksum. */
  method ScanEntryBytes(file: seq<byte>, at: Ident, limit: nat, offset: nat, table: Table) returns (r: Option<Entry>)
    requires table.Valid() && limit <= |file|
    ensures r == match RecordAt(file, limit, offset)
                 case Some(e) => if Accepts(e, at) then Some(e) else None
                 case None => None
  {
    hide HeaderAt, Register, Decoded, Words, Sealed;
    if offset + MIN_ENTRY > limit {
      return None;
    }
    var header := HeaderAt(file[offset..offset + HEADER_SIZE]);
    if header.magic != ENTRY_MAGIC || header.revision != ENTRY_REVISION || header.at != at || header.id == 0 {
      return None;
    }
    var size := EntrySize(header.len);
    if size == 0 || size > limit - offset {
      return None;
    }
    RegisterStart();
    var register := ChecksumRegister(table, ALL_ONES, [], file[offset..offset + HEADER_SIZE]);
    assert [] + file[offset..offset + HEADER_SIZE] == file[offset..offset + HEADER_SIZE];
    var position := offset + HEADER_SIZE;
    var stop := position + header.len;
    while position < stop
      invariant offset + HEADER_SIZE <= position <= stop && register == Register(file[offset..position])
    {
      var chunk := if stop - position < CHUNK then stop - position else CHUNK;
      register := ChecksumRegister(table, register, file[offset..position], file[position..position + chunk]);
      assert file[offset..position] + file[position..position + chunk] == file[offset..position + chunk];
      position := position + chunk;
    }
    if Sealed(register) != Decoded(file[stop..stop + CRC_SIZE]) {
      return None;
    }
    r := Some(Entry(header.typ, header.id, header.uptime, file[offset + HEADER_SIZE..stop], header.at));
  }

  /** Scanning bytes finds exactly what scanning the file's records finds. */
  method ScanBytes(file: seq<byte>, at: Ident, limit: nat, table: Table) returns (es: seq<Entry>, end: nat)
    requires table.Valid() && DATA_START <= limit <= |file|
    ensures es == Scan(CellsOf(file, limit), at, limit) && end == End(es)
  {
    hide RecordAt, Accepts, ScanFrom, Chain;
    ghost var cells := CellsOf(file, limit);
    es, end := [], DATA_START;
    ScanBegins(cells, at, limit);
    while end + MIN_ENTRY <= limit
      invariant end == End(es) && DATA_START <= end <= limit && ScanFrom(cells, at, limit, es) == Scan(cells, at, limit)
      decreases limit - end
    {
      var e := ScanEntryBytes(file, at, limit, end, table);
      RecordContinues(file, at, limit, es);
      ScanGoesOn(cells, at, limit, es);
      if e == None || (es != [] && e.value.id <= LastId(es)) {
        return;
      }
      es, end := es + [e.value], end + Size(e.value);
    }
    ScanGoesOn(cells, at, limit, es);
  }

  lemma ScanBegins(cells: Cells, at: Ident, limit: nat)
    ensures End([]) == DATA_START && Scan(cells, at, limit) == ScanFrom(cells, at, limit, [])
  {
  }

  lemma ScanGoesOn(cells: Cells, at: Ident, limit: nat, es: seq<Entry>)
    ensures Continues(cells, at, limit, es) ==>
              ScanFrom(cells, at, limit, es) == ScanFrom(cells, at, limit, es + [cells[End(es)]]) &&
              End(es + [cells[End(es)]]) == End(es) + Size(cells[End(es)])
    ensures !Continues(cells, at, limit, es) ==> ScanFrom(cells, at, limit, es) == es
  {
    if Continues(cells, at, limit, es) {
      var e := cells[End(es)];
      OffStep(es + [e], |es|);
      OffPrefix(es, [e], |es|);
    }
  }

  lemma RecordSize(file: seq<byte>, limit: nat, offset: nat)
    requires limit <= |file| && RecordAt(file, limit, offset).Some?
    ensures offset + Size(RecordAt(file, limit, offset).value) <= limit
  {
    hide HeaderAt, Checksum, Decoded;
  }

  lemma RecordContinues(file: seq<byte>, at: Ident, limit: nat, es: seq<Entry>)
    requires limit <= |file| && End(es) + MIN_ENTRY <= limit
    ensures var r := RecordAt(file, limit, End(es));
      && (Continues(CellsOf(file, limit), at, limit, es) <==>
            r.Some? && Accepts(r.value, at) && (es == [] || LastId(es) < r.value.id))
      && (r.Some? ==>
          End(es) in CellsOf(file, limit) && CellsOf(file, limit)[End(es)] == r.value &&
            End(es) + Size(r.value) <= limit)
  {
    hide RecordAt, Accepts;
    if RecordAt(file, limit, End(es)).Some? {
      RecordSize(file, limit, End(es));
    }
  }

  function AllBytes(es: seq<Entry>): (r: seq<byte>)
    ensures |r| == Span(es)
  {
    if es == [] then [] else AllBytes(es[..|es| - 1]) + Bytes(es[|es| - 1])
  }

  lemma {:induction false} EntryWithin(es: seq<Entry>, i: nat)
    requires i < |es|
    ensures Span(es[..i]) + Size(es[i]) <= Span(es)
    ensures AllBytes(es)[Span(es[..i])..Span(es[..i]) + Size(es[i])] == Bytes(es[i])
  {
    hide Bytes, Size;
    var init, e := es[..|es| - 1], es[|es| - 1];
    assert AllBytes(es) == AllBytes(init) + Bytes(e) && Span(es) == Span(init) + Size(e);
    hide AllBytes, Span;
    if i < |init| {
      assert init[..i] == es[..i];
      EntryWithin(init, i);
      FrontSlice(AllBytes(init), Bytes(e), Span(es[..i]), Span(es[..i]) + Size(es[i]));
    }
  }

  lemma FrontSlice(bs: seq<byte>, more: seq<byte>, a: nat, b: nat)
    requires a <= b <= |bs|
    ensures (bs + more)[a..b] == bs[a..b]
  {
  }

  /** Encode/scan round trip: the bytes of any run of entries, wherever they came from, scan back to exactly that run,
      with the offsets and the end it was written at, as long as what follows is not itself a valid continuation. */
  lemma RunRoundTrip(before: seq<byte>, es: seq<Entry>, after: seq<byte>, at: Ident, limit: nat)
    requires |before| == DATA_START && End(es) <= limit <= |before + AllBytes(es) + after|
    requires Increasing(es) && forall i :: 0 <= i < |es| ==> FitsEntry(es[i]) && Accepts(es[i], at)
    ensures var file := before + AllBytes(es) + after;
      && (forall i :: 0 <= i < |es| ==> RecordAt(file, limit, Off(es, i)) == Some(es[i]))
      && es <= Scan(CellsOf(file, limit), at, limit)
      && (Scan(CellsOf(file, limit), at, limit) == es <==> !Continues(CellsOf(file, limit), at, limit, es))
  {
    hide RecordAt, FitsEntry, Bytes, AllBytes, Continues;
    var file := before + AllBytes(es) + after;
    forall i | 0 <= i < |es| ensures RecordAt(file, limit, Off(es, i)) == Some(es[i]) {
      RecordOfRun(before, es, after, limit, i);
    }
    var cells := CellsOf(file, limit);
    forall i {:trigger Off(es, i)} | 0 <= i < |es| ensures Off(es, i) in cells && cells[Off(es, i)] == es[i] {
      OffMonotone(es, i, |es|);
    }
    assert Chain(cells, at, limit, es);
    ScanIsUnique(cells, at, limit, es);
    ScanExtendsChain(cells, at, limit, es);
  }

  lemma ScanExtendsChain(cells: Cells, at: Ident, limit: nat, es: seq<Entry>)
    requires Chain(cells, at, limit, es) && DATA_START <= limit
    ensures es <= Scan(cells, at, limit)
  {
    ScanFromIsScan(cells, at, limit, es);
    ScanIsUnique(cells, at, limit, ScanFrom(cells, at, limit, es));
  }

  lemma MiddleSlice(before: seq<byte>, bs: seq<byte>, after: seq<byte>)
    ensures (before + bs + after)[|before|..|before| + |bs|] == bs
  {
  }

  /** Where each entry of a run stands. */
  lemma EntryPlaced(es: seq<Entry>, i: nat)
    requires i < |es|
    ensures Off(es, i) == DATA_START + Span(es[..i]) && End(es) == DATA_START + |AllBytes(es)|
    ensures Span(es[..i]) + Size(es[i]) <= |AllBytes(es)|
    ensures AllBytes(es)[Span(es[..i])..Span(es[..i]) + Size(es[i])] == Bytes(es[i])
  {
    EntryWithin(es, i);
    assert es[..|es|] == es;
  }

  lemma RecordInFile(file: seq<byte>, all: seq<byte>, limit: nat, a: nat, e: Entry)
    requires DATA_START + |all| <= limit <= |file| && file[DATA_START..DATA_START + |all|] == all
    requires a + Size(e) <= |all| && all[a..a + Size(e)] == Bytes(e) && FitsEntry(e)
    ensures RecordAt(file, limit, DATA_START + a) == Some(e)
  {
    hide RecordAt, FitsEntry, Bytes, Size;
    SubSlice(file, DATA_START, all, a, a + Size(e));
    EntryRoundTrip(file, limit, DATA_START + a, e);
  }

  lemma RecordOfRun(before: seq<byte>, es: seq<Entry>, after: seq<byte>, limit: nat, i: nat)
    requires |before| == DATA_START && End(es) <= limit <= |before + AllBytes(es) + after|
    requires i < |es| && FitsEntry(es[i])
    ensures RecordAt(before + AllBytes(es) + after, limit, Off(es, i)) == Some(es[i])
  {
    hide RecordAt, FitsEntry, Bytes, Size, AllBytes, Off, Span;
    EntryPlaced(es, i);
    MiddleSlice(before, AllBytes(es), after);
    RecordInFile(before + AllBytes(es) + after, AllBytes(es), limit, Span(es[..i]), es[i]);
  }
}
