/** CRC-32: the byte-table and nibble-table loops of the firmware, and the
    bit-by-bit division that both implement. */
module Crc {
  import opened Folds
  import opened Words

  /** The reflection of the polynomial 0x04C11DB7 is 0xEDB88320. Divides the
      register by it for the low four bits of `x`, one bit at a time. */
  function Bits4(a: bv32, x: bv32): bv32 {
    var b := (a >> 1) ^ (if (a ^ x) & 1 != 0 then 0xEDB88320 else 0);
    var c := (b >> 1) ^ (if (b ^ (x >> 1)) & 1 != 0 then 0xEDB88320 else 0);
    var d := (c >> 1) ^ (if (c ^ (x >> 2)) & 1 != 0 then 0xEDB88320 else 0);
    (d >> 1) ^ (if (d ^ (x >> 3)) & 1 != 0 then 0xEDB88320 else 0)
  }

  /** The register divided by the polynomial for the eight bits of `x`, lowest first. */
  function ByteBits(c: bv32, x: word8): bv32 {
    Bits4(Bits4(c, x), x >> 4)
  }

  /** The bit-by-bit CRC register after `data`. */
  function BitCrc(c: bv32, data: seq<word8>): bv32 {
    Fold(ByteBits, c, data)
  }

  /** The table of lfs_crc. */
  const NIBBLES: seq<bv32> := [
    0x00000000, 0x1db71064, 0x3b6e20c8, 0x26d930ac, 0x76dc4190, 0x6b6b51f4, 0x4db26158, 0x5005713c,
    0xedb88320, 0xf00f9344, 0xd6d6a3e8, 0xcb61b38c, 0x9b64c2b0, 0x86d3d2d4, 0xa00ae278, 0xbdbdf21c]

  /** The entry selected by the low four bits of `v`. */
  function Nibble(v: bv32): bv32 {
    NIBBLES[(v & 15) as int]
  }

  /** The table of crc32_sw, sixteen entries to a row. */
  function Row(h: bv32): (r: seq<bv32>)
    ensures |r| == 16
  {
    match h as int
    case 0 => [
      0x00000000, 0x77073096, 0xee0e612c, 0x990951ba, 0x076dc419, 0x706af48f, 0xe963a535, 0x9e6495a3,
      0x0edb8832, 0x79dcb8a4, 0xe0d5e91e, 0x97d2d988, 0x09b64c2b, 0x7eb17cbd, 0xe7b82d07, 0x90bf1d91]
    case 1 => [
      0x1db71064, 0x6ab020f2, 0xf3b97148, 0x84be41de, 0x1adad47d, 0x6ddde4eb, 0xf4d4b551, 0x83d385c7,
      0x136c9856, 0x646ba8c0, 0xfd62f97a, 0x8a65c9ec, 0x14015c4f, 0x63066cd9, 0xfa0f3d63, 0x8d080df5]
    case 2 => [
      0x3b6e20c8, 0x4c69105e, 0xd56041e4, 0xa2677172, 0x3c03e4d1, 0x4b04d447, 0xd20d85fd, 0xa50ab56b,
      0x35b5a8fa, 0x42b2986c, 0xdbbbc9d6, 0xacbcf940, 0x32d86ce3, 0x45df5c75, 0xdcd60dcf, 0xabd13d59]
    case 3 => [
      0x26d930ac, 0x51de003a, 0xc8d75180, 0xbfd06116, 0x21b4f4b5, 0x56b3c423, 0xcfba9599, 0xb8bda50f,
      0x2802b89e, 0x5f058808, 0xc60cd9b2, 0xb10be924, 0x2f6f7c87, 0x58684c11, 0xc1611dab, 0xb6662d3d]
    case 4 => [
      0x76dc4190, 0x01db7106, 0x98d220bc, 0xefd5102a, 0x71b18589, 0x06b6b51f, 0x9fbfe4a5, 0xe8b8d433,
      0x7807c9a2, 0x0f00f934, 0x9609a88e, 0xe10e9818, 0x7f6a0dbb, 0x086d3d2d, 0x91646c97, 0xe6635c01]
    case 5 => [
      0x6b6b51f4, 0x1c6c6162, 0x856530d8, 0xf262004e, 0x6c0695ed, 0x1b01a57b, 0x8208f4c1, 0xf50fc457,
      0x65b0d9c6, 0x12b7e950, 0x8bbeb8ea, 0xfcb9887c, 0x62dd1ddf, 0x15da2d49, 0x8cd37cf3, 0xfbd44c65]
    case 6 => [
      0x4db26158, 0x3ab551ce, 0xa3bc0074, 0xd4bb30e2, 0x4adfa541, 0x3dd895d7, 0xa4d1c46d, 0xd3d6f4fb,
      0x4369e96a, 0x346ed9fc, 0xad678846, 0xda60b8d0, 0x44042d73, 0x33031de5, 0xaa0a4c5f, 0xdd0d7cc9]
    case 7 => [
      0x5005713c, 0x270241aa, 0xbe0b1010, 0xc90c2086, 0x5768b525, 0x206f85b3, 0xb966d409, 0xce61e49f,
      0x5edef90e, 0x29d9c998, 0xb0d09822, 0xc7d7a8b4, 0x59b33d17, 0x2eb40d81, 0xb7bd5c3b, 0xc0ba6cad]
    case 8 => [
      0xedb88320, 0x9abfb3b6, 0x03b6e20c, 0x74b1d29a, 0xead54739, 0x9dd277af, 0x04db2615, 0x73dc1683,
      0xe3630b12, 0x94643b84, 0x0d6d6a3e, 0x7a6a5aa8, 0xe40ecf0b, 0x9309ff9d, 0x0a00ae27, 0x7d079eb1]
    case 9 => [
      0xf00f9344, 0x8708a3d2, 0x1e01f268, 0x6906c2fe, 0xf762575d, 0x806567cb, 0x196c3671, 0x6e6b06e7,
      0xfed41b76, 0x89d32be0, 0x10da7a5a, 0x67dd4acc, 0xf9b9df6f, 0x8ebeeff9, 0x17b7be43, 0x60b08ed5]
    case 10 => [
      0xd6d6a3e8, 0xa1d1937e, 0x38d8c2c4, 0x4fdff252, 0xd1bb67f1, 0xa6bc5767, 0x3fb506dd, 0x48b2364b,
      0xd80d2bda, 0xaf0a1b4c, 0x36034af6, 0x41047a60, 0xdf60efc3, 0xa867df55, 0x316e8eef, 0x4669be79]
    case 11 => [
      0xcb61b38c, 0xbc66831a, 0x256fd2a0, 0x5268e236, 0xcc0c7795, 0xbb0b4703, 0x220216b9, 0x5505262f,
      0xc5ba3bbe, 0xb2bd0b28, 0x2bb45a92, 0x5cb36a04, 0xc2d7ffa7, 0xb5d0cf31, 0x2cd99e8b, 0x5bdeae1d]
    case 12 => [
      0x9b64c2b0, 0xec63f226, 0x756aa39c, 0x026d930a, 0x9c0906a9, 0xeb0e363f, 0x72076785, 0x05005713,
      0x95bf4a82, 0xe2b87a14, 0x7bb12bae, 0x0cb61b38, 0x92d28e9b, 0xe5d5be0d, 0x7cdcefb7, 0x0bdbdf21]
    case 13 => [
      0x86d3d2d4, 0xf1d4e242, 0x68ddb3f8, 0x1fda836e, 0x81be16cd, 0xf6b9265b, 0x6fb077e1, 0x18b74777,
      0x88085ae6, 0xff0f6a70, 0x66063bca, 0x11010b5c, 0x8f659eff, 0xf862ae69, 0x616bffd3, 0x166ccf45]
    case 14 => [
      0xa00ae278, 0xd70dd2ee, 0x4e048354, 0x3903b3c2, 0xa7672661, 0xd06016f7, 0x4969474d, 0x3e6e77db,
      0xaed16a4a, 0xd9d65adc, 0x40df0b66, 0x37d83bf0, 0xa9bcae53, 0xdebb9ec5, 0x47b2cf7f, 0x30b5ffe9]
    case _ => [
      0xbdbdf21c, 0xcabac28a, 0x53b39330, 0x24b4a3a6, 0xbad03605, 0xcdd70693, 0x54de5729, 0x23d967bf,
      0xb3667a2e, 0xc4614ab8, 0x5d681b02, 0x2a6f2b94, 0xb40bbe37, 0xc30c8ea1, 0x5a05df1b, 0x2d02ef8d]
  }

  /** Entry `i` of the table, row by row. */
  function TableAt(i: bv32): bv32
    requires i & 15 < 16
  {
    Row(i >> 4)[(i & 15) as int]
  }

  /** One step of the nibble-table loop. */
  function NibbleStep(c: bv32, x: bv32): bv32 {
    Xor(c >> 4, Nibble(Xor(c, x) & 15))
  }

  /** A nibble-table step divides by four bits. */
  lemma FourBits(c: bv32, x: bv32)
    ensures Bits4(c, x) == NibbleStep(c, x)
  {
    var k := (c ^ x) & 15;
    if k == 0 {} else if k == 1 {} else if k == 2 {} else if k == 3 {}
    else if k == 4 {} else if k == 5 {} else if k == 6 {} else if k == 7 {}
    else if k == 8 {} else if k == 9 {} else if k == 10 {} else if k == 11 {}
    else if k == 12 {} else if k == 13 {} else if k == 14 {} else if k == 15 {}
  }

  lemma EightBits(c: bv32, x: word8)
    ensures ByteBits(c, x) == NibbleStep(NibbleStep(c, x), x >> 4)
  {
    FourBits(c, x);
    FourBits(NibbleStep(c, x), x >> 4);
  }

  function Follow(h: bv32, r: bv32): bv32 {
    Xor(r >> 4, Nibble(Xor(h, r)))
  }

  /** Two nibble-table steps on an index with low nibble `l` and high nibble `h`. */
  function Folded(l: bv32, h: bv32): bv32 {
    Follow(h, Nibble(l))
  }

  function RowOf(f: (bv32, bv32) -> bv32, h: bv32): (r: seq<bv32>)
  {
    [f(0, h), f(1, h), f(2, h), f(3, h), f(4, h), f(5, h), f(6, h), f(7, h),
     f(8, h), f(9, h), f(10, h), f(11, h), f(12, h), f(13, h), f(14, h), f(15, h)]
  }

  lemma RowOfAt(f: (bv32, bv32) -> bv32, h: bv32, l: bv32)
    requires l < 16
    ensures RowOf(f, h)[l as int] == f(l, h)
  {
  }

  lemma Row0() ensures Row(0) == RowOf(Folded, 0) {}
  lemma Row1() ensures Row(1) == RowOf(Folded, 1) {}
  lemma Row2() ensures Row(2) == RowOf(Folded, 2) {}
  lemma Row3() ensures Row(3) == RowOf(Folded, 3) {}
  lemma Row4() ensures Row(4) == RowOf(Folded, 4) {}
  lemma Row5() ensures Row(5) == RowOf(Folded, 5) {}
  lemma Row6() ensures Row(6) == RowOf(Folded, 6) {}
  lemma Row7() ensures Row(7) == RowOf(Folded, 7) {}
  lemma Row8() ensures Row(8) == RowOf(Folded, 8) {}
  lemma Row9() ensures Row(9) == RowOf(Folded, 9) {}
  lemma Row10() ensures Row(10) == RowOf(Folded, 10) {}
  lemma Row11() ensures Row(11) == RowOf(Folded, 11) {}
  lemma Row12() ensures Row(12) == RowOf(Folded, 12) {}
  lemma Row13() ensures Row(13) == RowOf(Folded, 13) {}
  lemma Row14() ensures Row(14) == RowOf(Folded, 14) {}
  lemma Row15() ensures Row(15) == RowOf(Folded, 15) {}

  lemma RowFolded(h: bv32)
    requires h < 16
    ensures Row(h) == RowOf(Folded, h)
  {
    if h == 0 { Row0(); }
    else if h == 1 { Row1(); }
    else if h == 2 { Row2(); }
    else if h == 3 { Row3(); }
    else if h == 4 { Row4(); }
    else if h == 5 { Row5(); }
    else if h == 6 { Row6(); }
    else if h == 7 { Row7(); }
    else if h == 8 { Row8(); }
    else if h == 9 { Row9(); }
    else if h == 10 { Row10(); }
    else if h == 11 { Row11(); }
    else if h == 12 { Row12(); }
    else if h == 13 { Row13(); }
    else if h == 14 { Row14(); }
    else if h == 15 { Row15(); }
  }

  /** Each of the 256 entries is two nibble-table steps. */
  lemma TableEntry(i: bv32, l: bv32, h: bv32)
    requires l == i & 15 && h == i >> 4 && l < 16 && h < 16
    ensures TableAt(i) == Folded(l, h)
  {
    RowFolded(h);
    RowOfAt(Folded, h, l);
  }

  lemma NibbleMask(u: bv32, v: bv32)
    requires u & 15 == v & 15
    ensures Nibble(u) == Nibble(v)
  {
  }

  lemma SecondNibble(c: bv32, x: word8, r: bv32)
    ensures Nibble(Xor((Xor(c, x) >> 4) & 15, r)) == Nibble(Xor(Xor(c >> 4, r), x >> 4) & 15)
  {
    SecondIndex(c, x, r);
    NibbleMask(Xor((Xor(c, x) >> 4) & 15, r), Xor(Xor(c >> 4, r), x >> 4) & 15);
  }

  /** A second nibble step on `u`, when the entry it selects is known to be `t`. */
  lemma SecondStep(c: bv32, u: bv32, h: bv32, t: bv32, r: bv32)
    requires u == Xor(c >> 4, r) && Nibble(Xor(u, h) & 15) == t
    ensures NibbleStep(u, h) == Xor(c >> 8, Xor(r >> 4, t))
  {
    Regroup(c, r, t);
  }

  /** The second half of a byte, whatever entry `r` the first half selected. */
  lemma SecondHalf(c: bv32, x: word8, r: bv32)
    ensures NibbleStep(Xor(c >> 4, r), x >> 4) == Xor(c >> 8, Follow((Xor(c, x) >> 4) & 15, r))
  {
    SecondNibble(c, x, r);
    SecondStep(c, Xor(c >> 4, r), x >> 4, Nibble(Xor((Xor(c, x) >> 4) & 15, r)), r);
  }

  lemma TwoNibbles(c: bv32, x: word8)
    ensures NibbleStep(NibbleStep(c, x), x >> 4) == Xor(c >> 8, Folded(Xor(c, x) & 15, (Xor(c, x) >> 4) & 15))
  {
    SecondHalf(c, x, Nibble(Xor(c, x) & 15));
  }

  lemma IndexBits(c: bv32, x: word8, i: bv32)
    requires i == Xor(c & 0xff, x)
    ensures i & 15 == Xor(c, x) & 15 && i >> 4 == (Xor(c, x) >> 4) & 15
    ensures i < 256 && i & 15 < 16 && i >> 4 < 16
  {
  }

  /** A byte-table step divides by eight bits. */
  lemma ByteStep(c: bv32, x: word8, i: bv32)
    requires i == Xor(c & 0xff, x)
    ensures i & 15 < 16 && ByteBits(c, x) == Xor(c >> 8, TableAt(i))
  {
    IndexBits(c, x, i);
    EightBits(c, x);
    TwoNibbles(c, x);
    TableEntry(i, i & 15, i >> 4);
  }

  lemma BitCrcStep(c: bv32, data: seq<word8>, n: nat)
    requires n < |data|
    ensures BitCrc(c, data[..n + 1]) == ByteBits(BitCrc(c, data[..n]), data[n])
  {
    FoldNext(ByteBits, c, data, n);
  }

  /** The byte-table loop computes the bit-by-bit CRC. */
  method Crc32Sw(block: array<word8>, len: nat, crc0: bv32) returns (crc: bv32)
    requires len <= block.Length
    ensures crc == BitCrc(crc0, block[..len])
  {
    crc := crc0;
    for i := 0 to len
      invariant crc == BitCrc(crc0, block[..i])
    {
      var index := Xor(crc & 0xff, block[i]);
      ByteStep(crc, block[i], index);
      BitCrcStep(crc0, block[..], i);
      assert block[..][..i] == block[..i] && block[..][..i + 1] == block[..i + 1];
      crc := Xor(crc >> 8, TableAt(index));
    }
  }

  /** The nibble-table loop computes the bit-by-bit CRC. */
  method LfsCrc(crc0: bv32, buffer: array<word8>, size: nat) returns (crc: bv32)
    requires size <= buffer.Length
    ensures crc == BitCrc(crc0, buffer[..size])
  {
    crc := crc0;
    for i := 0 to size
      invariant crc == BitCrc(crc0, buffer[..i])
    {
      EightBits(crc, buffer[i]);
      BitCrcStep(crc0, buffer[..], i);
      assert buffer[..][..i] == buffer[..i] && buffer[..][..i + 1] == buffer[..i + 1];
      crc := NibbleStep(crc, buffer[i]);
      crc := NibbleStep(crc, buffer[i] >> 4);
    }
  }

  /** The CRC-32 of `data` continued from `crc`: complemented before and after. */
  function Crc32Of(data: seq<word8>, crc: bv32): bv32 {
    Not(BitCrc(Not(crc), data))
  }

  method Crc32(block: array<word8>, len: nat, crc0: bv32) returns (crc: bv32)
    requires len <= block.Length
    ensures crc == Crc32Of(block[..len], crc0)
  {
    crc := Not(crc0);
    crc := Crc32Sw(block, len, crc);
    crc := Not(crc);
  }

  lemma BitCrcConcat(c: bv32, a: seq<word8>, b: seq<word8>)
    ensures BitCrc(c, a + b) == BitCrc(BitCrc(c, a), b)
  {
    FoldConcat(ByteBits, c, a, b);
  }

  /** The CRC of a concatenation is the CRC of the second part continued from that of the first. */
  lemma Streaming(a: seq<word8>, b: seq<word8>, crc: bv32)
    ensures Crc32Of(a + b, crc) == Crc32Of(b, Crc32Of(a, crc))
  {
    BitCrcConcat(Not(crc), a, b);
    Complement(BitCrc(Not(crc), a));
  }

  lemma Bits4Injective(a: bv32, b: bv32)
    requires Bits4(a, 0) == Bits4(b, 0)
    ensures a == b
  {
  }

  /** What four steps with no data add to the shifted register. */
  function Added(c: bv32): bv32 {
    Nibble(Xor(c, 0) & 15)
  }

  lemma FourIdle(c: bv32)
    ensures Bits4(c, 0) == Xor(Right4(c), Added(c))
  {
    FourBits(c, 0);
  }

  lemma SameAdded(c: bv32, y: bv32)
    ensures Added(Xor(c, Left4(y))) == Added(c)
  {
    SameLowBits(c, y);
  }

  /** Bits above the four consumed ones only move down. */
  lemma Bits4High(c: bv32, y: bv32)
    requires y < 0x10000000
    ensures Bits4(Xor(c, Left4(y)), 0) == Xor(Bits4(c, 0), y)
  {
    FourIdle(Xor(c, Left4(y)));
    FourIdle(c);
    ShiftedBack(c, y);
    SameAdded(c, y);
    XorSwap(Right4(c), y, Added(c));
  }

  /** Data bits may as well be added to the register first. */
  lemma Bits4Absorbs(c: bv32, x: bv32)
    ensures Bits4(c, x) == Bits4(Xor(c, x & 15), 0)
  {
    FourBits(c, x);
    FourBits(Xor(c, x & 15), 0);
    SameIndex(c, x);
    SameRest(c, x);
  }

  /** Eight steps with no data. */
  function Idle(c: bv32): bv32 {
    Bits4(Bits4(c, 0), 0)
  }

  lemma ByteAbsorbs(c: bv32, x: word8)
    ensures ByteBits(c, x) == Idle(Xor(c, x))
  {
    var h := x >> 4;
    HighNibble(x);
    Bits4Absorbs(c, x);
    Bits4Absorbs(Bits4(c, x), h);
    Bits4High(Xor(c, x & 15), h);
    SplitByte(c, x);
  }

  lemma IdleInjective(a: bv32, b: bv32)
    requires Idle(a) == Idle(b)
    ensures a == b
  {
    Bits4Injective(Bits4(a, 0), Bits4(b, 0));
    Bits4Injective(a, b);
  }

  /** Bits above the low byte only move down. */
  lemma IdleHigh(c: bv32, y: bv32)
    requires y < 0x1000000
    ensures Idle(Xor(c, Left8(y))) == Xor(Idle(c), y)
  {
    ShiftTwice(y);
    Bits4High(c, Left4(y));
    Bits4High(Bits4(c, 0), y);
  }

  /** A byte and a word still to come are added as one word. */
  lemma ThenWord(c: bv32, x: word8, y: bv32)
    requires y < 0x1000000
    ensures Xor(ByteBits(c, x), y) == Idle(Xor(c, Xor(x, Left8(y))))
  {
    ByteAbsorbs(c, x);
    IdleHigh(Xor(c, x), y);
    XorAssoc(c, x, Left8(y));
  }

  function Idle4(c: bv32): bv32 {
    Idle(Idle(Idle(Idle(c))))
  }

  lemma Idle4Injective(a: bv32, b: bv32)
    requires Idle4(a) == Idle4(b)
    ensures a == b
  {
    IdleInjective(Idle(Idle(Idle(a))), Idle(Idle(Idle(b))));
    IdleInjective(Idle(Idle(a)), Idle(Idle(b)));
    IdleInjective(Idle(a), Idle(b));
    IdleInjective(a, b);
  }

  /** Four bytes are added as one word and divided together. */
  lemma FourBytes(c: bv32, p: word8, q: word8, r: word8, s: word8)
    ensures ByteBits(ByteBits(ByteBits(ByteBits(c, p), q), r), s) == Idle4(Xor(c, Word(p, q, r, s)))
  {
    var c1 := ByteBits(c, p);
    var c2 := ByteBits(c1, q);
    var c3 := ByteBits(c2, r);
    var y2 := Xor(r, Left8(s));
    var y1 := Xor(q, Left8(y2));
    Fits2(r, s);
    Fits(q, y2);
    ByteAbsorbs(c3, s);
    ThenWord(c2, r, s);
    ThenWord(c1, q, y2);
    ThenWord(c, p, y1);
  }

  lemma StepInjective(a: bv32, b: bv32, x: word8)
    requires ByteBits(a, x) == ByteBits(b, x)
    ensures a == b
  {
    ByteAbsorbs(a, x);
    ByteAbsorbs(b, x);
    IdleInjective(Xor(a, x), Xor(b, x));
    XorSame(a, b, x);
  }

  lemma WordsDiffer(c: bv32, x: bv32, y: bv32)
    requires Idle4(Xor(c, x)) == Idle4(Xor(c, y))
    ensures x == y
  {
    Idle4Injective(Xor(c, x), Xor(c, y));
    XorCancel(c, x, y);
  }

  lemma FourDiffer(c: bv32, p: word8, q: word8, r: word8, s: word8, p': word8, q': word8, r': word8, s': word8)
    requires Four(ByteBits, c, p, q, r, s) == Four(ByteBits, c, p', q', r', s')
    ensures p == p' && q == q' && r == r' && s == s'
  {
    FourBytes(c, p, q, r, s);
    FourBytes(c, p', q', r', s');
    WordsDiffer(c, Word(p, q, r, s), Word(p', q', r', s'));
    WordInjective(p, q, r, s, p', q', r', s');
  }

  /** One byte, and any four bytes, can be told from the register afterwards. */
  lemma DivisionInjective()
    ensures Injective(ByteBits) && FourInjective(ByteBits)
  {
    forall a: bv32, b: bv32, x: word8 | ByteBits(a, x) == ByteBits(b, x) ensures a == b {
      StepInjective(a, b, x);
    }
    forall c: bv32, p: word8, q: word8, r: word8, s: word8, p': word8, q': word8, r': word8, s': word8
      | Four(ByteBits, c, p, q, r, s) == Four(ByteBits, c, p', q', r', s')
      ensures p == p' && q == q' && r == r' && s == s'
    {
      FourDiffer(c, p, q, r, s, p', q', r', s');
    }
  }

  lemma NotInjective(a: bv32, b: bv32)
    requires Not(a) == Not(b)
    ensures a == b
  {
    Complement(a);
    Complement(b);
  }

  /** Any change confined to four consecutive bytes changes the CRC. */
  lemma BurstDetected(a: seq<word8>, b: seq<word8>, i: nat, crc: bv32)
    requires WithinFour(a, b, i)
    ensures Crc32Of(a, crc) == Crc32Of(b, crc) <==> a == b
  {
    if Crc32Of(a, crc) == Crc32Of(b, crc) {
      DivisionInjective();
      NotInjective(BitCrc(Not(crc), a), BitCrc(Not(crc), b));
      WindowDetected(ByteBits, Not(crc), a, b, i, 0);
    }
  }

  /** The bytes of a CRC as they are appended to its data. */
  function Appended(v: bv32): seq<word8> {
    [ByteOf(v, 0), ByteOf(v, 1), ByteOf(v, 2), ByteOf(v, 3)]
  }

  lemma AllOnes()
    ensures Not(Idle4(0xFFFFFFFF)) == 0x2144DF1C
  {
  }

  /** Data followed by their own CRC always have the CRC 0x2144DF1C, whatever the
      data and the start value. */
  lemma Residue(data: seq<word8>, crc: bv32)
    ensures Crc32Of(data + Appended(Crc32Of(data, crc)), crc) == 0x2144DF1C
  {
    var r := BitCrc(Not(crc), data);
    var v := Not(r);
    BitCrcConcat(Not(crc), data, Appended(v));
    FoldFour(ByteBits, r, Appended(v));
    FourBytes(r, ByteOf(v, 0), ByteOf(v, 1), ByteOf(v, 2), ByteOf(v, 3));
    WordOfBytes(v);
    XorNot(r);
    AllOnes();
  }

  lemma ZeroByteBits()
    ensures Not(ByteBits(0xFFFFFFFF, 0)) == 0xD202EF8D
  {
  }

  /** The CRC of the one byte zero. */
  lemma ZeroByte()
    ensures Crc32Of([0], 0) == 0xD202EF8D
  {
    assert [0][..0] == [];
    ZeroByteBits();
    NotZero();
    BitCrcStep(Not(0), [0], 0);
    assert [0][..1] == [0];
  }

  lemma NotZero()
    ensures Not(0) == 0xFFFFFFFF
  {
  }

  predicate Digits(d: seq<word8>) {
    d == [0x31, 0x32, 0x33, 0x34, 0x35, 0x36, 0x37, 0x38, 0x39]
  }

  lemma FirstDigits(d: seq<word8>)
    requires Digits(d)
    ensures BitCrc(0xFFFFFFFF, d[..4]) == 0x641C1F5C
  {
    assert d[..0] == [];
    Digit1();
    DigitStep(d, 0, 0xFFFFFFFF, 0x7C231048);
    Digit2();
    DigitStep(d, 1, 0x7C231048, 0xB0ACBB32);
    Digit3();
    DigitStep(d, 2, 0xB0ACBB32, 0x77B79C2D);
    Digit4();
    DigitStep(d, 3, 0x77B79C2D, 0x641C1F5C);
  }

  lemma NextDigits(d: seq<word8>)
    requires Digits(d) && BitCrc(0xFFFFFFFF, d[..4]) == 0x641C1F5C
    ensures BitCrc(0xFFFFFFFF, d[..8]) == 0x651F2550
  {
    Digit5();
    DigitStep(d, 4, 0x641C1F5C, 0x340AC5E3);
    Digit6();
    DigitStep(d, 5, 0x340AC5E3, 0xF68D2C9E);
    Digit7();
    DigitStep(d, 6, 0xF68D2C9E, 0xAFFC9660);
    Digit8();
    DigitStep(d, 7, 0xAFFC9660, 0x651F2550);
  }

  /** The check value of CRC-32: that of the digits 1 to 9. */
  lemma CheckValue()
    ensures Crc32Of([0x31, 0x32, 0x33, 0x34, 0x35, 0x36, 0x37, 0x38, 0x39], 0) == 0xCBF43926
  {
    var d: seq<word8> := [0x31, 0x32, 0x33, 0x34, 0x35, 0x36, 0x37, 0x38, 0x39];
    FirstDigits(d);
    NextDigits(d);
    NotZero();
    Digit9();
    assert d[..9] == d;
    BitCrcStep(0xFFFFFFFF, d, 8);
  }

  lemma DigitStep(d: seq<word8>, n: nat, before: bv32, after: bv32)
    requires n < |d| && BitCrc(0xFFFFFFFF, d[..n]) == before && ByteBits(before, d[n]) == after
    ensures BitCrc(0xFFFFFFFF, d[..n + 1]) == after
  {
    BitCrcStep(0xFFFFFFFF, d, n);
  }

  lemma Digit1()
    ensures ByteBits(0xFFFFFFFF, 0x31) == 0x7C231048
  {
  }

  lemma Digit2()
    ensures ByteBits(0x7C231048, 0x32) == 0xB0ACBB32
  {
  }

  lemma Digit3()
    ensures ByteBits(0xB0ACBB32, 0x33) == 0x77B79C2D
  {
  }

  lemma Digit4()
    ensures ByteBits(0x77B79C2D, 0x34) == 0x641C1F5C
  {
  }

  lemma Digit5()
    ensures ByteBits(0x641C1F5C, 0x35) == 0x340AC5E3
  {
  }

  lemma Digit6()
    ensures ByteBits(0x340AC5E3, 0x36) == 0xF68D2C9E
  {
  }

  lemma Digit7()
    ensures ByteBits(0xF68D2C9E, 0x37) == 0xAFFC9660
  {
  }

  lemma Digit8()
    ensures ByteBits(0xAFFC9660, 0x38) == 0x651F2550
  {
  }

  lemma Digit9()
    ensures Not(ByteBits(0x651F2550, 0x39)) == 0xCBF43926
  {
  }
}
