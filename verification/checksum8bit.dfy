/**
 * The firmware's 8-bit checksum: CRC-8 with polynomial 0x07, most significant
 * bit first, initial value 0 and no final XOR.
 *
 * The reference is the bitwise shift register (`Crc8OfByte`, `CalculateBitwise`).
 * The lookup table is defined once from it (`CrcTable`); the bit-doubling
 * construction the firmware runs to fill its table is `GenerateTable`, proved to
 * produce exactly that table, and the table-driven `Calculate` is proved equal
 * to the bitwise fold.
 */
module Checksum8Bit {
  import opened Bytes

  /** The generator polynomial x^8 + x^2 + x + 1 without its leading term. */
  const Polynomial: byte := 0x07

  /** Register shifts per input byte. */
  const BitsPerByte: nat := 8

  /**
   * One shift of the CRC register: shift left, dropping the top bit, and XOR
   * the polynomial in when that top bit was set.
   */
  function ShiftStep(crc: byte): byte {
    if crc & 0x80 != 0 then (crc << 1) ^ Polynomial else crc << 1
  }

  /** The register after `k` shifts. */
  function Shifts(crc: byte, k: nat): byte
    decreases k
  {
    if k == 0 then crc else Shifts(ShiftStep(crc), k - 1)
  }

  /** Reference definition: the CRC register after all eight bits of `b` are shifted through. */
  function Crc8OfByte(b: byte): byte {
    Shifts(b, BitsPerByte)
  }

  /** The eight register shifts of a byte, written out one by one. */
  lemma Crc8OfByteUnrolled(b: byte)
    ensures Crc8OfByte(b) == ShiftStep(ShiftStep(ShiftStep(ShiftStep(ShiftStep(ShiftStep(ShiftStep(ShiftStep(b))))))))
  {
    var s1 := ShiftStep(b);
    var s2 := ShiftStep(s1);
    var s3 := ShiftStep(s2);
    var s4 := ShiftStep(s3);
    assert Shifts(b, 8) == Shifts(s1, 7) == Shifts(s2, 6) == Shifts(s3, 5) == Shifts(s4, 4);
  }

  /** The 256-entry lookup table: entry `i` is the CRC register for the single byte `i`. */
  function CrcTable(): (t: seq<byte>)
    ensures |t| == 256
  {
    seq(256, i requires 0 <= i < 256 => Crc8OfByte(ByteOf(i)))
  }

  /** The table entry for a byte is that byte's reference CRC. */
  lemma TableEntry(b: byte)
    ensures CrcTable()[b as int] == Crc8OfByte(b)
  {
    ByteValueInjective(ByteOf(b as int), b);
  }

  lemma ShiftStepLinearBothHigh(a: byte, b: byte)
    requires a & 0x80 != 0 && b & 0x80 != 0
    ensures ShiftStep(a ^ b) == ShiftStep(a) ^ ShiftStep(b)
  {
  }

  lemma ShiftStepLinearBothLow(a: byte, b: byte)
    requires a & 0x80 == 0 && b & 0x80 == 0
    ensures ShiftStep(a ^ b) == ShiftStep(a) ^ ShiftStep(b)
  {
  }

  lemma ShiftStepLinearOneHigh(a: byte, b: byte)
    requires a & 0x80 != 0 && b & 0x80 == 0
    ensures ShiftStep(a ^ b) == ShiftStep(a) ^ ShiftStep(b)
  {
  }

  /** One register shift is linear over XOR (split on the two top bits, which decide the feedback). */
  lemma ShiftStepLinear(a: byte, b: byte)
    ensures ShiftStep(a ^ b) == ShiftStep(a) ^ ShiftStep(b)
  {
    if a & 0x80 != 0 && b & 0x80 != 0 {
      ShiftStepLinearBothHigh(a, b);
    } else if a & 0x80 == 0 && b & 0x80 == 0 {
      ShiftStepLinearBothLow(a, b);
    } else if a & 0x80 != 0 {
      ShiftStepLinearOneHigh(a, b);
    } else {
      ShiftStepLinearOneHigh(b, a);
      assert b ^ a == a ^ b;
    }
  }

  /** Any number of register shifts is linear over XOR. */
  lemma {:induction false} ShiftsLinear(a: byte, b: byte, k: nat)
    ensures Shifts(a ^ b, k) == Shifts(a, k) ^ Shifts(b, k)
    decreases k
  {
    if k > 0 {
      ShiftStepLinear(a, b);
      ShiftsLinear(ShiftStep(a), ShiftStep(b), k - 1);
    }
  }

  /** The CRC of a single byte is linear over XOR: `table[a ^ b] == table[a] ^ table[b]`. */
  lemma Crc8OfByteLinear(a: byte, b: byte)
    ensures Crc8OfByte(a ^ b) == Crc8OfByte(a) ^ Crc8OfByte(b)
  {
    ShiftsLinear(a, b, BitsPerByte);
  }

  /** One register shift loses no information. */
  lemma ShiftStepInjective(a: byte, b: byte)
    requires ShiftStep(a) == ShiftStep(b)
    ensures a == b
  {
  }

  lemma {:induction false} ShiftsInjective(a: byte, b: byte, k: nat)
    requires Shifts(a, k) == Shifts(b, k)
    ensures a == b
    decreases k
  {
    if k > 0 {
      ShiftsInjective(ShiftStep(a), ShiftStep(b), k - 1);
      ShiftStepInjective(a, b);
    }
  }

  /** The table is a permutation of the bytes: distinct indices hold distinct entries. */
  lemma Crc8OfByteInjective(a: byte, b: byte)
    requires Crc8OfByte(a) == Crc8OfByte(b)
    ensures a == b
  {
    ShiftsInjective(a, b, BitsPerByte);
  }

  /** Shifting before or after `k` further shifts is the same. */
  lemma {:induction false} ShiftsShiftStep(b: byte, k: nat)
    ensures Shifts(ShiftStep(b), k) == ShiftStep(Shifts(b, k))
    decreases k
  {
    if k > 0 {
      ShiftsShiftStep(ShiftStep(b), k - 1);
    }
  }

  /** Doubling a byte below 128 advances its CRC by one register shift. */
  lemma Crc8OfByteDoubling(b: byte)
    requires b < 128
    ensures Crc8OfByte(b << 1) == ShiftStep(Crc8OfByte(b))
  {
    assert ShiftStep(b) == b << 1;
    ShiftsShiftStep(b, BitsPerByte);
  }

  function Pow2(r: nat): nat {
    if r == 0 then 1 else 2 * Pow2(r - 1)
  }

  /** Below eight rounds of doubling the block size stays below 256. */
  lemma {:induction false} Pow2Rounds(r: nat)
    requires r <= 8 && Pow2(r) == 256
    ensures r == 8
  {
    if r < 8 {
      Pow2Below(r);
    }
  }

  lemma {:induction false} Pow2Below(r: nat)
    requires r < 8
    ensures Pow2(r) <= 128
    decreases 8 - r
  {
    if r < 7 {
      Pow2Below(r + 1);
    } else {
      assert Pow2(7) == 128;
    }
  }

  /** One more round of the outer loop doubles the block size, within eight rounds. */
  lemma NextRound(i: int, rounds: nat)
    requires 1 <= i < 256 && rounds <= 8 && i == Pow2(rounds)
    ensures rounds < 8 && 2 * i == Pow2(rounds + 1) && 2 * i <= 256
  {
    assert Pow2(8) == 256;
    Pow2Below(rounds);
  }

  /** Powers of two below 256: the block sizes `i` the table construction visits. */
  predicate IsBlockSize(i: int) {
    i == 1 || i == 2 || i == 4 || i == 8 || i == 16 || i == 32 || i == 64 || i == 128
  }

  /** For a block size `bi` and `bj < bi`, `bi ^ bj` is the sum: the two share no set bit. */
  lemma BlockIndex(bi: byte, bj: byte)
    requires IsBlockSize(bi as int) && bj < bi
    ensures (bi ^ bj) as int == bi as int + bj as int
  {
  }

  /** The power-of-two entries: the register after each doubling round. */
  lemma TablePowersOfTwo()
    ensures CrcTable()[1] == 0x07 && CrcTable()[2] == 0x0E && CrcTable()[4] == 0x1C
    ensures CrcTable()[8] == 0x38 && CrcTable()[16] == 0x70 && CrcTable()[32] == 0xE0
    ensures CrcTable()[64] == 0xC7 && CrcTable()[128] == 0x89
  {
    TableEntry(1);
    TableEntry(2);
    TableEntry(4);
    TableEntry(8);
    TableEntry(16);
    TableEntry(32);
    TableEntry(64);
    TableEntry(128);
  }

  /** The reference CRC of the byte whose value is `k`. */
  function RefEntry(k: int): byte
    requires 0 <= k < 256
  {
    Crc8OfByte(ByteOf(k))
  }

  /**
   * The construction's progress: every entry below `n` holds its reference
   * CRC and every entry from `n` on is still zero.
   */
  ghost predicate FilledBelow(table: seq<byte>, n: int) {
    && 0 <= n <= 256 && |table| == 256
    && (forall k :: 0 <= k < n ==> table[k] == RefEntry(k))
    && (forall k :: n <= k < 256 ==> table[k] == 0)
  }

  /** The write log holds exactly the indices 1, 2, ..., n - 1, in order. */
  ghost predicate WrittenUpTo(writes: seq<int>, n: int) {
    |writes| == n - 1 && forall k :: 0 <= k < n - 1 ==> writes[k] == k + 1
  }

  /** A completely filled table is the lookup table. */
  lemma FilledIsTable(table: seq<byte>)
    requires FilledBelow(table, 256)
    ensures table == CrcTable()
  {
  }

  /** Doubling a block size gives the next block size, or 256 after the last. */
  lemma NextBlockSize(i: int)
    requires IsBlockSize(i)
    ensures IsBlockSize(2 * i) || 2 * i == 256
  {
  }

  /** Logging the write of index `n` extends the log by one. */
  lemma LogStep(writes: seq<int>, n: int)
    requires WrittenUpTo(writes, n)
    ensures WrittenUpTo(writes + [n], n + 1)
  {
  }

  /** For a block size `i` and `j < i`, entry `i + j` is entry `i` XOR entry `j`. */
  lemma RefEntryBlock(i: int, j: int)
    requires IsBlockSize(i) && 0 <= j < i
    ensures i + j < 256
    ensures RefEntry(i + j) == RefEntry(i) ^ RefEntry(j)
  {
    var bi, bj := ByteOf(i), ByteOf(j);
    BlockIndex(bi, bj);
    ByteValueInjective(ByteOf(i + j), bi ^ bj);
    Crc8OfByteLinear(bi, bj);
  }

  /** Doubling a block size below 128 advances its entry by one register shift. */
  lemma RefEntryDoubling(i: int)
    requires 0 <= i < 128
    ensures RefEntry(2 * i) == ShiftStep(RefEntry(i))
  {
    var b := ByteOf(i);
    ByteDouble(b);
    ByteValueInjective(ByteOf(2 * i), b << 1);
    Crc8OfByteDoubling(b);
  }

  /** Writing entry `n` extends the filled prefix by one. */
  lemma FillExtend(table: seq<byte>, n: int, v: byte)
    requires FilledBelow(table, n) && n < 256 && v == RefEntry(n)
    ensures FilledBelow(table[n := v], n + 1)
  {
  }

  /** One inner-loop write `table[i + j] = crc ^ table[j]` extends the filled prefix by one entry. */
  lemma FillStep(table: seq<byte>, i: int, j: int, crc: byte)
    requires IsBlockSize(i) && 0 <= j < i
    requires FilledBelow(table, i + j)
    requires crc == RefEntry(i)
    ensures i + j < 256
    ensures FilledBelow(table[i + j := crc ^ table[j]], i + j + 1)
  {
    RefEntryBlock(i, j);
    assert table[j] == RefEntry(j);
    FillExtend(table, i + j, crc ^ table[j]);
  }

  /**
   * The inner loop of the construction: for every `j < i`, set
   * `table[i + j] = crc ^ table[j]`, where `crc` is entry `i`.
   */
  method FillBlock(table: seq<byte>, i: int, crc: byte, ghost writes: seq<int>)
    returns (filled: seq<byte>, ghost logged: seq<int>)
    requires IsBlockSize(i) && FilledBelow(table, i) && WrittenUpTo(writes, i)
    requires crc == RefEntry(i)
    ensures FilledBelow(filled, 2 * i) && WrittenUpTo(logged, 2 * i)
  {
    filled, logged := table, writes;
    var j := 0;
    while j < i
      invariant 0 <= j <= i
      invariant FilledBelow(filled, i + j)
      invariant WrittenUpTo(logged, i + j)
    {
      FillStep(filled, i, j, crc);
      LogStep(logged, i + j);
      filled := filled[i + j := crc ^ filled[j]];
      logged := logged + [i + j];
      j := j + 1;
    }
  }

  /**
   * The table construction of the firmware: zero the table, start the register
   * at 0x80, and for each block size `i` = 1, 2, 4, ..., 128 advance the
   * register by one shift and fill `table[i + j] = crc ^ table[j]` for every
   * `j < i`. The result is the CRC-8 table; along the way the outer loop runs
   * eight rounds and the inner loop writes each index 1..255 exactly once, in
   * increasing order (`writes` records the indices written, `rounds` the outer
   * iterations).
   */
  method GenerateTable() returns (table: seq<byte>, ghost writes: seq<int>, ghost rounds: nat)
    ensures table == CrcTable()
    ensures |table| == 256 && table[0] == 0
    ensures rounds == 8
    ensures WrittenUpTo(writes, 256)
  {
    table := seq(256, _ => 0);
    var crc: byte := 0x80;
    var i := 1;
    writes, rounds := [], 0;
    assert ShiftStep(crc) == RefEntry(1);
    while i < 256
      invariant 1 <= i <= 256 && rounds <= 8 && i == Pow2(rounds)
      invariant i < 256 ==> IsBlockSize(i) && ShiftStep(crc) == RefEntry(i)
      invariant FilledBelow(table, i)
      invariant WrittenUpTo(writes, i)
    {
      if crc & 0x80 != 0 {
        crc := (crc << 1) ^ Polynomial;
      } else {
        crc := crc << 1;
      }
      table, writes := FillBlock(table, i, crc, writes);
      NextRound(i, rounds);
      if i < 128 {
        RefEntryDoubling(i);
      }
      NextBlockSize(i);
      i := i * 2;
      rounds := rounds + 1;
    }
    Pow2Rounds(rounds);
    FilledIsTable(table);
    assert RefEntry(0) == 0;
  }

  /**
   * The fold `Checksum8Bit::calculate` performs over a 256-entry table: each
   * input byte selects the entry `table[acc ^ b]` as the new accumulator.
   */
  function Fold(table: seq<byte>, data: seq<byte>, acc: byte): byte
    requires |table| == 256
    decreases |data|
  {
    if |data| == 0 then acc else Fold(table, data[1..], table[(acc ^ data[0]) as int])
  }

  /**
   * `Checksum8Bit::calculate`: the fold over the CRC-8 lookup table. The seed defaults to 0, which is how the frame
   * encoder calls it.
   */
  function Calculate(data: seq<byte>, checksum: byte := 0): byte {
    Fold(CrcTable(), data, checksum)
  }

  /**
   * The table-driven loop over a buffer, one lookup per byte; it computes the
   * bit-serial CRC register of the whole buffer.
   */
  method CalculateLoop(data: seq<byte>, checksum: byte := 0) returns (crc: byte)
    ensures crc == CalculateBitwise(data, checksum)
  {
    var table := CrcTable();
    crc := checksum;
    var i := 0;
    while i < |data|
      invariant 0 <= i <= |data|
      invariant Fold(table, data[i..], crc) == Fold(table, data, checksum)
    {
      assert data[i..][1..] == data[i + 1..];
      crc := table[(crc ^ data[i]) as int];
      i := i + 1;
    }
    FoldIsBitwise(data, checksum);
  }

  /** Reference definition: the bit-serial CRC register, eight shifts per input byte. */
  function CalculateBitwise(data: seq<byte>, crc: byte): byte
    decreases |data|
  {
    if |data| == 0 then crc else CalculateBitwise(data[1..], Shifts(crc ^ data[0], BitsPerByte))
  }

  /** One step of the table-driven fold is eight register shifts of `checksum ^ b`. */
  lemma TableStep(checksum: byte, b: byte)
    ensures CrcTable()[(checksum ^ b) as int] == Shifts(checksum ^ b, BitsPerByte)
  {
    TableEntry(checksum ^ b);
  }

  lemma {:induction false} FoldIsBitwise(data: seq<byte>, checksum: byte)
    ensures Fold(CrcTable(), data, checksum) == CalculateBitwise(data, checksum)
    decreases |data|
  {
    if |data| > 0 {
      TableStep(checksum, data[0]);
      FoldIsBitwise(data[1..], Shifts(checksum ^ data[0], BitsPerByte));
    }
  }

  /** The table-driven checksum equals the bit-serial CRC register, for every input and seed. */
  lemma CalculateIsBitwise(data: seq<byte>, checksum: byte)
    ensures Calculate(data, checksum) == CalculateBitwise(data, checksum)
  {
    FoldIsBitwise(data, checksum);
  }

  lemma {:induction false} FoldAppend(table: seq<byte>, a: seq<byte>, b: seq<byte>, acc: byte)
    requires |table| == 256
    ensures Fold(table, a + b, acc) == Fold(table, b, Fold(table, a, acc))
    decreases |a|
  {
    if |a| == 0 {
      assert a + b == b;
    } else {
      assert (a + b)[1..] == a[1..] + b;
      FoldAppend(table, a[1..], b, table[(acc ^ a[0]) as int]);
    }
  }

  /** Checksumming a concatenation continues from the checksum of the first part. */
  lemma CalculateAppend(a: seq<byte>, b: seq<byte>, checksum: byte)
    ensures Calculate(a + b, checksum) == Calculate(b, Calculate(a, checksum))
  {
    FoldAppend(CrcTable(), a, b, checksum);
  }

  /** The checksum of the empty message is the seed. */
  lemma CalculateEmpty(checksum: byte)
    ensures Calculate([], checksum) == checksum
  {
  }

  /** Appending one byte advances the checksum by eight register shifts of `checksum ^ b`. */
  lemma CalculateStep(data: seq<byte>, b: byte, checksum: byte)
    ensures Calculate(data + [b], checksum) == Crc8OfByte(Calculate(data, checksum) ^ b)
  {
    CalculateAppend(data, [b], checksum);
    FoldSingle(CrcTable(), Calculate(data, checksum), b);
    TableEntry(Calculate(data, checksum) ^ b);
  }

  /** The checksum of a single byte is its table entry, the CRC register of that byte. */
  lemma CalculateSingle(b: byte)
    ensures Calculate([b]) == Crc8OfByte(b)
  {
    CalculateStep([], b, 0);
    assert [] + [b] == [b];
  }

  /** Peeling the first byte off: the rest is checksummed from the advanced register. */
  lemma CalculateCons(b: byte, rest: seq<byte>, checksum: byte)
    ensures Calculate([b] + rest, checksum) == Calculate(rest, Crc8OfByte(checksum ^ b))
  {
    assert ([b] + rest)[1..] == rest;
    TableEntry(checksum ^ b);
  }

  /**
   * Reference definition by running the register from position `i` of
   * `data`: does it end at `result` when started at `crc`?
   */
  predicate RunsTo(data: seq<byte>, i: nat, crc: byte, result: byte)
    requires i <= |data|
    decreases |data| - i
  {
    if i == |data| then crc == result else RunsTo(data, i + 1, Crc8OfByte(crc ^ data[i]), result)
  }

  /** The table-driven checksum of the rest of `data` is where the register runs to. */
  lemma {:induction false} CalculateRunsTo(data: seq<byte>, i: nat, crc: byte, result: byte)
    requires i <= |data| && RunsTo(data, i, crc, result)
    ensures Calculate(data[i..], crc) == result
    decreases |data| - i
  {
    var rest := data[i..];
    if i == |data| {
      assert rest == [];
      CalculateEmpty(crc);
    } else {
      var b, tail := data[i], data[i + 1..];
      assert rest == [b] + tail;
      CalculateRunsTo(data, i + 1, Crc8OfByte(crc ^ b), result);
      CalculateCons(b, tail, crc);
    }
  }

  /** The zero register stays zero: the CRC of a zero byte is zero. */
  lemma {:induction false} ShiftsZero(k: nat)
    ensures Shifts(0, k) == 0
    decreases k
  {
    if k > 0 {
      assert ShiftStep(0) == 0;
      ShiftsZero(k - 1);
    }
  }

  /** Appending a message's checksum to it makes the checksum of the whole come out zero. */
  lemma CalculateResidue(data: seq<byte>, checksum: byte)
    ensures Calculate(data + [Calculate(data, checksum)], checksum) == 0
  {
    var t, c := CrcTable(), Calculate(data, checksum);
    CalculateAppend(data, [c], checksum);
    assert c ^ c == 0;
    FoldSingle(t, c, c);
    TableEntry(0);
    ShiftsZero(BitsPerByte);
    assert t[0] == Crc8OfByte(0) == 0;
  }

  /** A table whose entries are pairwise distinct. */
  ghost predicate Injective(table: seq<byte>) {
    |table| == 256 && forall i, j :: 0 <= i < 256 && 0 <= j < 256 && table[i] == table[j] ==> i == j
  }

  lemma TableInjective()
    ensures Injective(CrcTable())
  {
    forall i, j | 0 <= i < 256 && 0 <= j < 256 && CrcTable()[i] == CrcTable()[j]
      ensures i == j
    {
      Crc8OfByteInjective(ByteOf(i), ByteOf(j));
    }
  }

  lemma {:induction false} FoldSeedInjective(table: seq<byte>, data: seq<byte>, x: byte, y: byte)
    requires Injective(table)
    requires Fold(table, data, x) == Fold(table, data, y)
    ensures x == y
    decreases |data|
  {
    if |data| > 0 {
      FoldSeedInjective(table, data[1..], table[(x ^ data[0]) as int], table[(y ^ data[0]) as int]);
      ByteValueInjective(x ^ data[0], y ^ data[0]);
      assert x ^ data[0] ^ data[0] == y ^ data[0] ^ data[0];
    }
  }

  /** Different seeds give different checksums for the same data. */
  lemma CalculateSeedInjective(data: seq<byte>, x: byte, y: byte)
    requires Calculate(data, x) == Calculate(data, y)
    ensures x == y
  {
    TableInjective();
    FoldSeedInjective(CrcTable(), data, x, y);
  }

  /** Folding a single byte is one table lookup. */
  lemma FoldSingle(table: seq<byte>, acc: byte, b: byte)
    requires |table| == 256
    ensures Fold(table, [b], acc) == table[(acc ^ b) as int]
  {
    assert [b][1..] == [];
  }

  /** For a fixed running checksum, different bytes lead to different next checksums. */
  lemma FoldByteInjective(table: seq<byte>, acc: byte, x: byte, y: byte)
    requires Injective(table) && x != y
    ensures Fold(table, [x], acc) != Fold(table, [y], acc)
  {
    FoldSingle(table, acc, x);
    FoldSingle(table, acc, y);
    var i, j := (acc ^ x) as int, (acc ^ y) as int;
    if i == j {
      ByteValueInjective(acc ^ x, acc ^ y);
    }
  }

  /**
   * The checksum detects every single-byte substitution: two messages that
   * differ in exactly one byte have different checksums.
   */
  lemma CalculateDetectsSubstitution(prefix: seq<byte>, x: byte, y: byte, suffix: seq<byte>, checksum: byte)
    requires x != y
    ensures Calculate(prefix + [x] + suffix, checksum) != Calculate(prefix + [y] + suffix, checksum)
  {
    var t := CrcTable();
    var c := Fold(t, prefix, checksum);
    TableInjective();
    FoldByteInjective(t, c, x, y);
    var cx, cy := Fold(t, [x], c), Fold(t, [y], c);
    assert prefix + [x] + suffix == prefix + ([x] + suffix);
    assert prefix + [y] + suffix == prefix + ([y] + suffix);
    FoldAppend(t, prefix, [x] + suffix, checksum);
    FoldAppend(t, prefix, [y] + suffix, checksum);
    FoldAppend(t, [x], suffix, c);
    FoldAppend(t, [y], suffix, c);
    if Fold(t, suffix, cx) == Fold(t, suffix, cy) {
      FoldSeedInjective(t, suffix, cx, cy);
    }
  }
}
