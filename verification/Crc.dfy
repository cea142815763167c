/** The checksum: the table-driven loop against the bit-serial definition of section 8 of
    RFC 1952, and updates in chunks. */
module Crc {
  const POLYNOMIAL: bv32 := 0xedb88320
  const ALL_ONES: bv32 := 0xffff_ffff

  function Xor(a: bv32, b: bv32): bv32 { a ^ b }

  function Half(a: bv32): bv32 { a >> 1 }

  predicate Odd(a: bv32) { a & 1 == 1 }

  // ---------- The bit-serial definition ----------

  /** Takes one message bit into the register, least significant bit first. */
  function SerialBit(c: bv32, b: bool): bv32
  {
    if Odd(c) != b then Xor(Half(c), POLYNOMIAL) else Half(c)
  }

  function Serial(c: bv32, bits: seq<bool>): bv32
  {
    if bits == [] then c else SerialBit(Serial(c, bits[..|bits| - 1]), bits[|bits| - 1])
  }

  function Drop(m: bv32, n: nat): bv32 { if n == 0 then m else Half(Drop(m, n - 1)) }

  /** The low n bits, least significant first. */
  function LowBits(m: bv32, n: nat): seq<bool> { if n == 0 then [] else LowBits(m, n - 1) + [Odd(Drop(m, n - 1))] }

  function BitsOf(b: bv8): seq<bool> { LowBits(b as bv32, 8) }

  function MessageBits(buf: seq<bv8>): seq<bool>
  {
    if buf == [] then [] else MessageBits(buf[..|buf| - 1]) + BitsOf(buf[|buf| - 1])
  }

  /** The checksum of section 8 of RFC 1952. */
  function Crc32(buf: seq<bv8>): bv32 { !Serial(ALL_ONES, MessageBits(buf)) }

  lemma {:induction false} SerialAppend(c: bv32, a: seq<bool>, b: seq<bool>)
    ensures Serial(c, a + b) == Serial(Serial(c, a), b)
  {
    hide SerialBit;
    if b == [] {
      assert a + b == a;
    } else {
      var n := |b| - 1;
      assert (a + b)[..|a + b| - 1] == a + b[..n];
      SerialAppend(c, a, b[..n]);
    }
  }

  lemma {:induction false} BitsAppend(a: seq<bv8>, b: seq<bv8>)
    ensures MessageBits(a + b) == MessageBits(a) + MessageBits(b)
  {
    hide BitsOf;
    if b == [] {
      assert a + b == a;
    } else {
      var n := |b| - 1;
      assert (a + b)[..|a + b| - 1] == a + b[..n];
      BitsAppend(a, b[..n]);
    }
  }

  /** Updating chunk by chunk, however the buffer is cut, is one pass over the whole. */
  lemma Chunks(start: bv32, a: seq<bv8>, b: seq<bv8>)
    ensures Serial(start, MessageBits(a + b)) == Serial(Serial(start, MessageBits(a)), MessageBits(b))
  {
    BitsAppend(a, b);
    SerialAppend(start, MessageBits(a), MessageBits(b));
  }

  // ---------- Eight steps at once ----------

  function Shift(c: bv32): bv32 { if Odd(c) then Xor(Half(c), POLYNOMIAL) else Half(c) }

  function Shifts(c: bv32, n: nat): bv32 { if n == 0 then c else Shift(Shifts(c, n - 1)) }

  lemma HalfXor(a: bv32, b: bv32)
    ensures Half(Xor(a, b)) == Xor(Half(a), Half(b))
  {
  }

  lemma OddXor(a: bv32, b: bv32)
    ensures Odd(Xor(a, b)) == (Odd(a) != Odd(b))
  {
  }

  lemma XorSwap(a: bv32, b: bv32, c: bv32)
    ensures Xor(Xor(a, b), c) == Xor(Xor(a, c), b)
  {
    assert (a ^ b) ^ c == a ^ (b ^ c);
    assert b ^ c == c ^ b;
  }

  lemma XorZero(x: bv32)
    ensures Xor(x, 0) == x
  {
  }

  /** One step on register and message combined is one serial step, with the rest of the message still to come. */
  lemma SerialStep(c: bv32, m: bv32)
    ensures Shift(Xor(c, m)) == Xor(SerialBit(c, Odd(m)), Half(m))
  {
    hide Xor, Half, Odd;
    HalfXor(c, m);
    OddXor(c, m);
    XorSwap(Half(c), Half(m), POLYNOMIAL);
  }

  lemma {:induction false} SerialShifts(c: bv32, m: bv32, n: nat)
    ensures Shifts(Xor(c, m), n) == Xor(Serial(c, LowBits(m, n)), Drop(m, n))
  {
    hide Xor, Half, Odd, Shift, SerialBit;
    if n > 0 {
      var before := LowBits(m, n - 1);
      assert LowBits(m, n)[..|LowBits(m, n)| - 1] == before;
      SerialShifts(c, m, n - 1);
      SerialStep(Serial(c, before), Drop(m, n - 1));
    }
  }

  lemma DropEight(m: bv32)
    ensures Drop(m, 0) == m && Drop(m, 1) == Half(m) && Drop(m, 2) == Half(Half(m)) && Drop(m, 3) == Half(Half(Half(m)))
    ensures Drop(m, 4) == Half(Half(Half(Half(m)))) && Drop(m, 5) == Half(Half(Half(Half(Half(m)))))
    ensures Drop(m, 6) == Half(Half(Half(Half(Half(Half(m)))))) &&
            Drop(m, 7) == Half(Half(Half(Half(Half(Half(Half(m)))))))
    ensures Drop(m, 8) == Half(Half(Half(Half(Half(Half(Half(Half(m))))))))
  {
    hide Half;
    assert Drop(m, 2) == Half(Drop(m, 1)) && Drop(m, 3) == Half(Drop(m, 2)) && Drop(m, 4) == Half(Drop(m, 3));
    assert Drop(m, 5) == Half(Drop(m, 4)) && Drop(m, 6) == Half(Drop(m, 5)) && Drop(m, 7) == Half(Drop(m, 6));
    assert Drop(m, 8) == Half(Drop(m, 7));
  }

  lemma ByteGone(m: bv32)
    ensures m < 256 ==> Half(Half(Half(Half(Half(Half(Half(Half(m)))))))) == 0
  {
  }

  lemma ByteSerial(c: bv32, b: bv8)
    ensures Serial(c, BitsOf(b)) == Shifts(Xor(c, b as bv32), 8)
  {
    ByteSmall(b);
    hide Half, Xor, Odd, Serial, Shifts, Drop, LowBits;
    SerialShifts(c, b as bv32, 8);
    DropEight(b as bv32);
    ByteGone(b as bv32);
    XorZero(Serial(c, BitsOf(b)));
  }

  lemma ByteSmall(b: bv8)
    ensures (b as bv32) < 256
  {
  }

  // ---------- The table ----------

  /** The integer i as a word, counted up from 0. */
  function Up(i: nat): bv32 { if i == 0 then 0 else Up(i - 1) + 1 }

  lemma Predecessor(x: bv8)
    requires x > 0
    ensures (x as int) == ((x - 1) as int) + 1 && (x as bv32) == ((x - 1) as bv32) + 1
  {
  }

  lemma {:induction false} UpIsValue(x: bv8)
    ensures Up(x as int) == x as bv32
    decreases x as int
  {
    if x > 0 {
      Predecessor(x);
      UpIsValue(x - 1);
    }
  }

  /** A step on a word whose lowest bit is clear only moves that word down. */
  lemma HighStep(x: bv32, y: bv32)
    requires !Odd(y)
    ensures Shift(Xor(x, y)) == Xor(Shift(x), Half(y))
  {
    hide Xor, Half, Odd;
    HalfXor(x, y);
    OddXor(x, y);
    XorSwap(Half(x), Half(y), POLYNOMIAL);
  }

  lemma {:induction false} HighShifts(x: bv32, y: bv32, n: nat)
    requires forall k :: 0 <= k < n ==> !Odd(Drop(y, k))
    ensures Shifts(Xor(x, y), n) == Xor(Shifts(x, n), Drop(y, n))
  {
    hide Xor, Half, Odd, Shift;
    if n > 0 {
      HighShifts(x, y, n - 1);
      HighStep(Shifts(x, n - 1), Drop(y, n - 1));
    }
  }

  function Low(z: bv32): bv32 { z & 0xff }

  function High(z: bv32): bv32 { z & 0xffff_ff00 }

  lemma SplitWord(z: bv32)
    ensures Xor(Low(z), High(z)) == z
  {
  }

  lemma HighBitsClear(z: bv32)
    ensures var y := High(z); !Odd(y) && !Odd(Half(y)) && !Odd(Half(Half(y))) && !Odd(Half(Half(Half(y))))
    ensures var y := Half(Half(Half(Half(High(z)))));
      !Odd(y) && !Odd(Half(y)) && !Odd(Half(Half(y))) && !Odd(Half(Half(Half(y))))
  {
  }

  lemma HighMovesDown(c: bv32, b: bv32)
    ensures b < 256 ==> Half(Half(Half(Half(Half(Half(Half(Half(High(Xor(c, b)))))))))) == c >> 8
  {
  }

  /** One table lookup does the work of eight serial steps. */
  lemma TableStep(c: bv32, b: bv8)
    ensures Xor(Shifts(Low(Xor(c, b as bv32)), 8), c >> 8) == Serial(c, BitsOf(b))
  {
    ByteSmall(b);
    HighMovesDown(c, b as bv32);
    hide Xor, Half, Odd, Low, High, Shifts, Serial, Drop, BitsOf;
    var z := Xor(c, b as bv32);
    ByteSerial(c, b);
    SplitWord(z);
    DropEight(High(z));
    HighBitsClear(z);
    HighShifts(Low(z), High(z), 8);
  }

  method MakeLutEntry(start: bv32) returns (value: bv32)
    ensures value == Shifts(start, 8)
  {
    value := start;
    for bit := 0 to 8
      invariant value == Shifts(start, bit)
    {
      value := if Odd(value) then Xor(Half(value), POLYNOMIAL) else Half(value);
    }
  }

  class Table {
    const values: array<bv32>

    ghost predicate Valid()
      reads values
    {
      values.Length == 256 && forall i :: 0 <= i < 256 ==> values[i] == Shifts(Up(i), 8)
    }

    constructor ()
      ensures Valid() && fresh(values)
    {
      values := new bv32[256];
      new;
      var word: bv32 := 0;
      for idx := 0 to 256
        invariant word == Up(idx)
        invariant forall i :: 0 <= i < idx ==> values[i] == Shifts(Up(i), 8)
      {
        var value := MakeLutEntry(word);
        values[idx] := value;
        word := word + 1;
      }
    }

    method Lookup(crc: bv32, b: bv8) returns (value: bv32)
      requires Valid()
      ensures value == Shifts(Low(Xor(crc, b as bv32)), 8)
    {
      hide Shifts;
      var tableIdx := ((crc ^ (b as bv32)) & 0xff) as bv8;
      UpIsValue(tableIdx);
      value := values[tableIdx as int];
    }

    /** The table-driven loop is the bit-serial register over the bits of the buffer. */
    method Update(start: bv32, buf: seq<bv8>) returns (crc: bv32)
      requires Valid()
      ensures crc == Serial(start, MessageBits(buf))
    {
      hide Serial, BitsOf, Xor, Shifts, Low, Up;
      crc := start;
      NoBits(start);
      for idx := 0 to |buf|
        invariant crc == Serial(start, MessageBits(buf[..idx]))
      {
        assert buf[..idx + 1][..idx] == buf[..idx];
        SerialAppend(start, MessageBits(buf[..idx]), BitsOf(buf[idx]));
        TableStep(crc, buf[idx]);
        var value := Lookup(crc, buf[idx]);
        crc := Xor(value, crc >> 8);
      }
      assert buf[..|buf|] == buf;
    }

    method Checksum(buf: seq<bv8>) returns (crc: bv32)
      requires Valid()
      ensures crc == Crc32(buf)
    {
      var register := Update(ALL_ONES, buf);
      crc := !register;
    }
  }

  lemma NoBits(c: bv32)
    ensures Serial(c, MessageBits([])) == c
  {
  }

  // ---------- The check value ----------

  lemma ByteTaken(c: bv32, b: bv8, next: bv32)
    requires Shifts(Xor(c, b as bv32), 8) == next
    ensures Serial(c, MessageBits([b])) == next
  {
    ByteSerial(c, b);
    hide Serial, BitsOf;
    assert [b][..0] == [] && MessageBits([b]) == BitsOf(b);
  }

  lemma ThreeTaken(c: bv32, x: bv8, y: bv8, z: bv8, afterX: bv32, afterY: bv32, afterZ: bv32)
    requires Shifts(Xor(c, x as bv32), 8) == afterX && Shifts(Xor(afterX, y as bv32), 8) == afterY
    requires Shifts(Xor(afterY, z as bv32), 8) == afterZ
    ensures Serial(c, MessageBits([x, y, z])) == afterZ
  {
    ByteTaken(c, x, afterX);
    ByteTaken(afterX, y, afterY);
    ByteTaken(afterY, z, afterZ);
    hide Serial, MessageBits;
    Chunks(c, [x], [y]);
    Chunks(c, [x] + [y], [z]);
    assert [x] + [y] + [z] == [x, y, z];
  }

  lemma CheckStart()
    ensures Serial(ALL_ONES, MessageBits([0x31, 0x32, 0x33])) == 0x77b79c2d
  {
    assert Shifts(Xor(0xffff_ffff, 0x31), 8) == 0x7c231048;
    assert Shifts(Xor(0x7c231048, 0x32), 8) == 0xb0acbb32;
    assert Shifts(Xor(0xb0acbb32, 0x33), 8) == 0x77b79c2d;
    ThreeTaken(0xffff_ffff, 0x31, 0x32, 0x33, 0x7c231048, 0xb0acbb32, 0x77b79c2d);
  }

  lemma CheckMiddle()
    ensures Serial(0x77b79c2d, MessageBits([0x34, 0x35, 0x36])) == 0xf68d2c9e
  {
    assert Shifts(Xor(0x77b79c2d, 0x34), 8) == 0x641c1f5c;
    assert Shifts(Xor(0x641c1f5c, 0x35), 8) == 0x340ac5e3;
    assert Shifts(Xor(0x340ac5e3, 0x36), 8) == 0xf68d2c9e;
    ThreeTaken(0x77b79c2d, 0x34, 0x35, 0x36, 0x641c1f5c, 0x340ac5e3, 0xf68d2c9e);
  }

  lemma CheckEnd()
    ensures Serial(0xf68d2c9e, MessageBits([0x37, 0x38, 0x39])) == 0x340bc6d9
  {
    assert Shifts(Xor(0xf68d2c9e, 0x37), 8) == 0xaffc9660;
    assert Shifts(Xor(0xaffc9660, 0x38), 8) == 0x651f2550;
    assert Shifts(Xor(0x651f2550, 0x39), 8) == 0x340bc6d9;
    ThreeTaken(0xf68d2c9e, 0x37, 0x38, 0x39, 0xaffc9660, 0x651f2550, 0x340bc6d9);
  }

  /** The standard check value: the checksum of the characters 1 to 9. */
  lemma CheckValue()
    ensures Crc32([0x31, 0x32, 0x33, 0x34, 0x35, 0x36, 0x37, 0x38, 0x39]) == 0xcbf43926
  {
    CheckStart();
    CheckMiddle();
    CheckEnd();
    var a, b, c := [0x31, 0x32, 0x33], [0x34, 0x35, 0x36], [0x37, 0x38, 0x39];
    hide Serial, MessageBits;
    Chunks(ALL_ONES, a, b);
    Chunks(ALL_ONES, a + b, c);
    assert a + b + c == [0x31, 0x32, 0x33, 0x34, 0x35, 0x36, 0x37, 0x38, 0x39];
    assert !(0x340bc6d9 as bv32) == 0xcbf43926;
  }
}
