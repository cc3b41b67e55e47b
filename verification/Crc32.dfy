/** Table-driven CRC-32 (src/crc32.c) against the bit-at-a-time definition of RFC 1952, section 8. */
module Crc32 {

  // ---------- the reference: one bit at a time ----------

  const POLYNOMIAL: bv32 := 0xedb88320

  /** One division step by the (reflected) polynomial. */
  function BitStep(c: bv32): bv32 {
    if c & 1 == 1 then (c >> 1) ^ POLYNOMIAL else c >> 1
  }

  function EightSteps(c: bv32): bv32 {
    BitStep(BitStep(BitStep(BitStep(BitStep(BitStep(BitStep(BitStep(c))))))))
  }

  /** The register after one more message byte. */
  function ByteUpdate(c: bv32, b: bv32): bv32 {
    EightSteps(c ^ b)
  }

  /** The register after the bytes of s. */
  function BitwiseCrc(c: bv32, s: seq<bv8>): bv32
    decreases |s|
  {
    if s == [] then c else BitwiseCrc(ByteUpdate(c, s[0] as bv32), s[1..])
  }

  // ---------- the table of the source, in rows of sixteen ----------

  function Row0(j: bv8): bv32 {
    match j
    case 0x0 => 0x00000000 case 0x1 => 0x77073096 case 0x2 => 0xee0e612c case 0x3 => 0x990951ba
    case 0x4 => 0x076dc419 case 0x5 => 0x706af48f case 0x6 => 0xe963a535 case 0x7 => 0x9e6495a3
    case 0x8 => 0x0edb8832 case 0x9 => 0x79dcb8a4 case 0xa => 0xe0d5e91e case 0xb => 0x97d2d988
    case 0xc => 0x09b64c2b case 0xd => 0x7eb17cbd case 0xe => 0xe7b82d07 case _ => 0x90bf1d91
  }

  function Row1(j: bv8): bv32 {
    match j
    case 0x0 => 0x1db71064 case 0x1 => 0x6ab020f2 case 0x2 => 0xf3b97148 case 0x3 => 0x84be41de
    case 0x4 => 0x1adad47d case 0x5 => 0x6ddde4eb case 0x6 => 0xf4d4b551 case 0x7 => 0x83d385c7
    case 0x8 => 0x136c9856 case 0x9 => 0x646ba8c0 case 0xa => 0xfd62f97a case 0xb => 0x8a65c9ec
    case 0xc => 0x14015c4f case 0xd => 0x63066cd9 case 0xe => 0xfa0f3d63 case _ => 0x8d080df5
  }

  function Row2(j: bv8): bv32 {
    match j
    case 0x0 => 0x3b6e20c8 case 0x1 => 0x4c69105e case 0x2 => 0xd56041e4 case 0x3 => 0xa2677172
    case 0x4 => 0x3c03e4d1 case 0x5 => 0x4b04d447 case 0x6 => 0xd20d85fd case 0x7 => 0xa50ab56b
    case 0x8 => 0x35b5a8fa case 0x9 => 0x42b2986c case 0xa => 0xdbbbc9d6 case 0xb => 0xacbcf940
    case 0xc => 0x32d86ce3 case 0xd => 0x45df5c75 case 0xe => 0xdcd60dcf case _ => 0xabd13d59
  }

  function Row3(j: bv8): bv32 {
    match j
    case 0x0 => 0x26d930ac case 0x1 => 0x51de003a case 0x2 => 0xc8d75180 case 0x3 => 0xbfd06116
    case 0x4 => 0x21b4f4b5 case 0x5 => 0x56b3c423 case 0x6 => 0xcfba9599 case 0x7 => 0xb8bda50f
    case 0x8 => 0x2802b89e case 0x9 => 0x5f058808 case 0xa => 0xc60cd9b2 case 0xb => 0xb10be924
    case 0xc => 0x2f6f7c87 case 0xd => 0x58684c11 case 0xe => 0xc1611dab case _ => 0xb6662d3d
  }

  function Row4(j: bv8): bv32 {
    match j
    case 0x0 => 0x76dc4190 case 0x1 => 0x01db7106 case 0x2 => 0x98d220bc case 0x3 => 0xefd5102a
    case 0x4 => 0x71b18589 case 0x5 => 0x06b6b51f case 0x6 => 0x9fbfe4a5 case 0x7 => 0xe8b8d433
    case 0x8 => 0x7807c9a2 case 0x9 => 0x0f00f934 case 0xa => 0x9609a88e case 0xb => 0xe10e9818
    case 0xc => 0x7f6a0dbb case 0xd => 0x086d3d2d case 0xe => 0x91646c97 case _ => 0xe6635c01
  }

  function Row5(j: bv8): bv32 {
    match j
    case 0x0 => 0x6b6b51f4 case 0x1 => 0x1c6c6162 case 0x2 => 0x856530d8 case 0x3 => 0xf262004e
    case 0x4 => 0x6c0695ed case 0x5 => 0x1b01a57b case 0x6 => 0x8208f4c1 case 0x7 => 0xf50fc457
    case 0x8 => 0x65b0d9c6 case 0x9 => 0x12b7e950 case 0xa => 0x8bbeb8ea case 0xb => 0xfcb9887c
    case 0xc => 0x62dd1ddf case 0xd => 0x15da2d49 case 0xe => 0x8cd37cf3 case _ => 0xfbd44c65
  }

  function Row6(j: bv8): bv32 {
    match j
    case 0x0 => 0x4db26158 case 0x1 => 0x3ab551ce case 0x2 => 0xa3bc0074 case 0x3 => 0xd4bb30e2
    case 0x4 => 0x4adfa541 case 0x5 => 0x3dd895d7 case 0x6 => 0xa4d1c46d case 0x7 => 0xd3d6f4fb
    case 0x8 => 0x4369e96a case 0x9 => 0x346ed9fc case 0xa => 0xad678846 case 0xb => 0xda60b8d0
    case 0xc => 0x44042d73 case 0xd => 0x33031de5 case 0xe => 0xaa0a4c5f case _ => 0xdd0d7cc9
  }

  function Row7(j: bv8): bv32 {
    match j
    case 0x0 => 0x5005713c case 0x1 => 0x270241aa case 0x2 => 0xbe0b1010 case 0x3 => 0xc90c2086
    case 0x4 => 0x5768b525 case 0x5 => 0x206f85b3 case 0x6 => 0xb966d409 case 0x7 => 0xce61e49f
    case 0x8 => 0x5edef90e case 0x9 => 0x29d9c998 case 0xa => 0xb0d09822 case 0xb => 0xc7d7a8b4
    case 0xc => 0x59b33d17 case 0xd => 0x2eb40d81 case 0xe => 0xb7bd5c3b case _ => 0xc0ba6cad
  }

  function Row8(j: bv8): bv32 {
    match j
    case 0x0 => 0xedb88320 case 0x1 => 0x9abfb3b6 case 0x2 => 0x03b6e20c case 0x3 => 0x74b1d29a
    case 0x4 => 0xead54739 case 0x5 => 0x9dd277af case 0x6 => 0x04db2615 case 0x7 => 0x73dc1683
    case 0x8 => 0xe3630b12 case 0x9 => 0x94643b84 case 0xa => 0x0d6d6a3e case 0xb => 0x7a6a5aa8
    case 0xc => 0xe40ecf0b case 0xd => 0x9309ff9d case 0xe => 0x0a00ae27 case _ => 0x7d079eb1
  }

  function Row9(j: bv8): bv32 {
    match j
    case 0x0 => 0xf00f9344 case 0x1 => 0x8708a3d2 case 0x2 => 0x1e01f268 case 0x3 => 0x6906c2fe
    case 0x4 => 0xf762575d case 0x5 => 0x806567cb case 0x6 => 0x196c3671 case 0x7 => 0x6e6b06e7
    case 0x8 => 0xfed41b76 case 0x9 => 0x89d32be0 case 0xa => 0x10da7a5a case 0xb => 0x67dd4acc
    case 0xc => 0xf9b9df6f case 0xd => 0x8ebeeff9 case 0xe => 0x17b7be43 case _ => 0x60b08ed5
  }

  function RowA(j: bv8): bv32 {
    match j
    case 0x0 => 0xd6d6a3e8 case 0x1 => 0xa1d1937e case 0x2 => 0x38d8c2c4 case 0x3 => 0x4fdff252
    case 0x4 => 0xd1bb67f1 case 0x5 => 0xa6bc5767 case 0x6 => 0x3fb506dd case 0x7 => 0x48b2364b
    case 0x8 => 0xd80d2bda case 0x9 => 0xaf0a1b4c case 0xa => 0x36034af6 case 0xb => 0x41047a60
    case 0xc => 0xdf60efc3 case 0xd => 0xa867df55 case 0xe => 0x316e8eef case _ => 0x4669be79
  }

  function RowB(j: bv8): bv32 {
    match j
    case 0x0 => 0xcb61b38c case 0x1 => 0xbc66831a case 0x2 => 0x256fd2a0 case 0x3 => 0x5268e236
    case 0x4 => 0xcc0c7795 case 0x5 => 0xbb0b4703 case 0x6 => 0x220216b9 case 0x7 => 0x5505262f
    case 0x8 => 0xc5ba3bbe case 0x9 => 0xb2bd0b28 case 0xa => 0x2bb45a92 case 0xb => 0x5cb36a04
    case 0xc => 0xc2d7ffa7 case 0xd => 0xb5d0cf31 case 0xe => 0x2cd99e8b case _ => 0x5bdeae1d
  }

  function RowC(j: bv8): bv32 {
    match j
    case 0x0 => 0x9b64c2b0 case 0x1 => 0xec63f226 case 0x2 => 0x756aa39c case 0x3 => 0x026d930a
    case 0x4 => 0x9c0906a9 case 0x5 => 0xeb0e363f case 0x6 => 0x72076785 case 0x7 => 0x05005713
    case 0x8 => 0x95bf4a82 case 0x9 => 0xe2b87a14 case 0xa => 0x7bb12bae case 0xb => 0x0cb61b38
    case 0xc => 0x92d28e9b case 0xd => 0xe5d5be0d case 0xe => 0x7cdcefb7 case _ => 0x0bdbdf21
  }

  function RowD(j: bv8): bv32 {
    match j
    case 0x0 => 0x86d3d2d4 case 0x1 => 0xf1d4e242 case 0x2 => 0x68ddb3f8 case 0x3 => 0x1fda836e
    case 0x4 => 0x81be16cd case 0x5 => 0xf6b9265b case 0x6 => 0x6fb077e1 case 0x7 => 0x18b74777
    case 0x8 => 0x88085ae6 case 0x9 => 0xff0f6a70 case 0xa => 0x66063bca case 0xb => 0x11010b5c
    case 0xc => 0x8f659eff case 0xd => 0xf862ae69 case 0xe => 0x616bffd3 case _ => 0x166ccf45
  }

  function RowE(j: bv8): bv32 {
    match j
    case 0x0 => 0xa00ae278 case 0x1 => 0xd70dd2ee case 0x2 => 0x4e048354 case 0x3 => 0x3903b3c2
    case 0x4 => 0xa7672661 case 0x5 => 0xd06016f7 case 0x6 => 0x4969474d case 0x7 => 0x3e6e77db
    case 0x8 => 0xaed16a4a case 0x9 => 0xd9d65adc case 0xa => 0x40df0b66 case 0xb => 0x37d83bf0
    case 0xc => 0xa9bcae53 case 0xd => 0xdebb9ec5 case 0xe => 0x47b2cf7f case _ => 0x30b5ffe9
  }

  function RowF(j: bv8): bv32 {
    match j
    case 0x0 => 0xbdbdf21c case 0x1 => 0xcabac28a case 0x2 => 0x53b39330 case 0x3 => 0x24b4a3a6
    case 0x4 => 0xbad03605 case 0x5 => 0xcdd70693 case 0x6 => 0x54de5729 case 0x7 => 0x23d967bf
    case 0x8 => 0xb3667a2e case 0x9 => 0xc4614ab8 case 0xa => 0x5d681b02 case 0xb => 0x2a6f2b94
    case 0xc => 0xb40bbe37 case 0xd => 0xc30c8ea1 case 0xe => 0x5a05df1b case _ => 0x2d02ef8d
  }

  /** crctable[i] */
  function CrcTable(i: bv8): bv32 {
    var j := i & 0xf;
    match i >> 4
    case 0x0 => Row0(j)
    case 0x1 => Row1(j)
    case 0x2 => Row2(j)
    case 0x3 => Row3(j)
    case 0x4 => Row4(j)
    case 0x5 => Row5(j)
    case 0x6 => Row6(j)
    case 0x7 => Row7(j)
    case 0x8 => Row8(j)
    case 0x9 => Row9(j)
    case 0xa => RowA(j)
    case 0xb => RowB(j)
    case 0xc => RowC(j)
    case 0xd => RowD(j)
    case 0xe => RowE(j)
    case _ => RowF(j)
  }

  lemma Row0IsEightSteps(x: bv32, high: bv32, j: bv8, entry: bv32)
    requires high < 0x1000000 && j < 0x10 && x == (high << 8) ^ j as bv32 && entry == Row0(j)
    ensures EightSteps(x) == high ^ entry
  {
    match j case 0 => case 1 => case 2 => case 3 => case 4 => case 5 => case 6 => case 7 =>
    case 8 => case 9 => case 10 => case 11 => case 12 => case 13 => case 14 => case _ =>
  }

  lemma Row1IsEightSteps(x: bv32, high: bv32, j: bv8, entry: bv32)
    requires high < 0x1000000 && j < 0x10 && x == (high << 8) ^ 0x10 ^ j as bv32 && entry == Row1(j)
    ensures EightSteps(x) == high ^ entry
  {
    match j case 0 => case 1 => case 2 => case 3 => case 4 => case 5 => case 6 => case 7 =>
    case 8 => case 9 => case 10 => case 11 => case 12 => case 13 => case 14 => case _ =>
  }

  lemma Row2IsEightSteps(x: bv32, high: bv32, j: bv8, entry: bv32)
    requires high < 0x1000000 && j < 0x10 && x == (high << 8) ^ 0x20 ^ j as bv32 && entry == Row2(j)
    ensures EightSteps(x) == high ^ entry
  {
    match j case 0 => case 1 => case 2 => case 3 => case 4 => case 5 => case 6 => case 7 =>
    case 8 => case 9 => case 10 => case 11 => case 12 => case 13 => case 14 => case _ =>
  }

  lemma Row3IsEightSteps(x: bv32, high: bv32, j: bv8, entry: bv32)
    requires high < 0x1000000 && j < 0x10 && x == (high << 8) ^ 0x30 ^ j as bv32 && entry == Row3(j)
    ensures EightSteps(x) == high ^ entry
  {
    match j case 0 => case 1 => case 2 => case 3 => case 4 => case 5 => case 6 => case 7 =>
    case 8 => case 9 => case 10 => case 11 => case 12 => case 13 => case 14 => case _ =>
  }

  lemma Row4IsEightSteps(x: bv32, high: bv32, j: bv8, entry: bv32)
    requires high < 0x1000000 && j < 0x10 && x == (high << 8) ^ 0x40 ^ j as bv32 && entry == Row4(j)
    ensures EightSteps(x) == high ^ entry
  {
    match j case 0 => case 1 => case 2 => case 3 => case 4 => case 5 => case 6 => case 7 =>
    case 8 => case 9 => case 10 => case 11 => case 12 => case 13 => case 14 => case _ =>
  }

  lemma Row5IsEightSteps(x: bv32, high: bv32, j: bv8, entry: bv32)
    requires high < 0x1000000 && j < 0x10 && x == (high << 8) ^ 0x50 ^ j as bv32 && entry == Row5(j)
    ensures EightSteps(x) == high ^ entry
  {
    match j case 0 => case 1 => case 2 => case 3 => case 4 => case 5 => case 6 => case 7 =>
    case 8 => case 9 => case 10 => case 11 => case 12 => case 13 => case 14 => case _ =>
  }

  lemma Row6IsEightSteps(x: bv32, high: bv32, j: bv8, entry: bv32)
    requires high < 0x1000000 && j < 0x10 && x == (high << 8) ^ 0x60 ^ j as bv32 && entry == Row6(j)
    ensures EightSteps(x) == high ^ entry
  {
    match j case 0 => case 1 => case 2 => case 3 => case 4 => case 5 => case 6 => case 7 =>
    case 8 => case 9 => case 10 => case 11 => case 12 => case 13 => case 14 => case _ =>
  }

  lemma Row7IsEightSteps(x: bv32, high: bv32, j: bv8, entry: bv32)
    requires high < 0x1000000 && j < 0x10 && x == (high << 8) ^ 0x70 ^ j as bv32 && entry == Row7(j)
    ensures EightSteps(x) == high ^ entry
  {
    match j case 0 => case 1 => case 2 => case 3 => case 4 => case 5 => case 6 => case 7 =>
    case 8 => case 9 => case 10 => case 11 => case 12 => case 13 => case 14 => case _ =>
  }

  lemma Row8IsEightSteps(x: bv32, high: bv32, j: bv8, entry: bv32)
    requires high < 0x1000000 && j < 0x10 && x == (high << 8) ^ 0x80 ^ j as bv32 && entry == Row8(j)
    ensures EightSteps(x) == high ^ entry
  {
    match j case 0 => case 1 => case 2 => case 3 => case 4 => case 5 => case 6 => case 7 =>
    case 8 => case 9 => case 10 => case 11 => case 12 => case 13 => case 14 => case _ =>
  }

  lemma Row9IsEightSteps(x: bv32, high: bv32, j: bv8, entry: bv32)
    requires high < 0x1000000 && j < 0x10 && x == (high << 8) ^ 0x90 ^ j as bv32 && entry == Row9(j)
    ensures EightSteps(x) == high ^ entry
  {
    match j case 0 => case 1 => case 2 => case 3 => case 4 => case 5 => case 6 => case 7 =>
    case 8 => case 9 => case 10 => case 11 => case 12 => case 13 => case 14 => case _ =>
  }

  lemma RowAIsEightSteps(x: bv32, high: bv32, j: bv8, entry: bv32)
    requires high < 0x1000000 && j < 0x10 && x == (high << 8) ^ 0xa0 ^ j as bv32 && entry == RowA(j)
    ensures EightSteps(x) == high ^ entry
  {
    match j case 0 => case 1 => case 2 => case 3 => case 4 => case 5 => case 6 => case 7 =>
    case 8 => case 9 => case 10 => case 11 => case 12 => case 13 => case 14 => case _ =>
  }

  lemma RowBIsEightSteps(x: bv32, high: bv32, j: bv8, entry: bv32)
    requires high < 0x1000000 && j < 0x10 && x == (high << 8) ^ 0xb0 ^ j as bv32 && entry == RowB(j)
    ensures EightSteps(x) == high ^ entry
  {
    match j case 0 => case 1 => case 2 => case 3 => case 4 => case 5 => case 6 => case 7 =>
    case 8 => case 9 => case 10 => case 11 => case 12 => case 13 => case 14 => case _ =>
  }

  lemma RowCIsEightSteps(x: bv32, high: bv32, j: bv8, entry: bv32)
    requires high < 0x1000000 && j < 0x10 && x == (high << 8) ^ 0xc0 ^ j as bv32 && entry == RowC(j)
    ensures EightSteps(x) == high ^ entry
  {
    match j case 0 => case 1 => case 2 => case 3 => case 4 => case 5 => case 6 => case 7 =>
    case 8 => case 9 => case 10 => case 11 => case 12 => case 13 => case 14 => case _ =>
  }

  lemma RowDIsEightSteps(x: bv32, high: bv32, j: bv8, entry: bv32)
    requires high < 0x1000000 && j < 0x10 && x == (high << 8) ^ 0xd0 ^ j as bv32 && entry == RowD(j)
    ensures EightSteps(x) == high ^ entry
  {
    match j case 0 => case 1 => case 2 => case 3 => case 4 => case 5 => case 6 => case 7 =>
    case 8 => case 9 => case 10 => case 11 => case 12 => case 13 => case 14 => case _ =>
  }

  lemma RowEIsEightSteps(x: bv32, high: bv32, j: bv8, entry: bv32)
    requires high < 0x1000000 && j < 0x10 && x == (high << 8) ^ 0xe0 ^ j as bv32 && entry == RowE(j)
    ensures EightSteps(x) == high ^ entry
  {
    match j case 0 => case 1 => case 2 => case 3 => case 4 => case 5 => case 6 => case 7 =>
    case 8 => case 9 => case 10 => case 11 => case 12 => case 13 => case 14 => case _ =>
  }

  lemma RowFIsEightSteps(x: bv32, high: bv32, j: bv8, entry: bv32)
    requires high < 0x1000000 && j < 0x10 && x == (high << 8) ^ 0xf0 ^ j as bv32 && entry == RowF(j)
    ensures EightSteps(x) == high ^ entry
  {
    match j case 0 => case 1 => case 2 => case 3 => case 4 => case 5 => case 6 => case 7 =>
    case 8 => case 9 => case 10 => case 11 => case 12 => case 13 => case 14 => case _ =>
  }

  lemma Nibbles(x: bv32, high: bv32, i: bv8, top: bv32)
    requires x == (high << 8) ^ i as bv32 && top == ((i >> 4) as bv32) << 4
    ensures i & 0xf < 0x10 && x == (high << 8) ^ top ^ (i & 0xf) as bv32
  {
  }

  lemma LowTableIsEightSteps(x: bv32, high: bv32, i: bv8, j: bv8, entry: bv32)
    requires high < 0x1000000 && x == (high << 8) ^ i as bv32 && j == i & 0xf && entry == CrcTable(i)
    requires i >> 4 < 8
    ensures EightSteps(x) == high ^ entry
  {
    match i >> 4
    case 0x0 => Nibbles(x, high, i, 0x00); Row0IsEightSteps(x, high, j, entry);
    case 0x1 => Nibbles(x, high, i, 0x10); Row1IsEightSteps(x, high, j, entry);
    case 0x2 => Nibbles(x, high, i, 0x20); Row2IsEightSteps(x, high, j, entry);
    case 0x3 => Nibbles(x, high, i, 0x30); Row3IsEightSteps(x, high, j, entry);
    case 0x4 => Nibbles(x, high, i, 0x40); Row4IsEightSteps(x, high, j, entry);
    case 0x5 => Nibbles(x, high, i, 0x50); Row5IsEightSteps(x, high, j, entry);
    case 0x6 => Nibbles(x, high, i, 0x60); Row6IsEightSteps(x, high, j, entry);
    case _ => Nibbles(x, high, i, 0x70); Row7IsEightSteps(x, high, j, entry);
  }

  lemma HighTableIsEightSteps(x: bv32, high: bv32, i: bv8, j: bv8, entry: bv32)
    requires high < 0x1000000 && x == (high << 8) ^ i as bv32 && j == i & 0xf && entry == CrcTable(i)
    requires i >> 4 >= 8
    ensures EightSteps(x) == high ^ entry
  {
    match i >> 4
    case 0x8 => Nibbles(x, high, i, 0x80); Row8IsEightSteps(x, high, j, entry);
    case 0x9 => Nibbles(x, high, i, 0x90); Row9IsEightSteps(x, high, j, entry);
    case 0xa => Nibbles(x, high, i, 0xa0); RowAIsEightSteps(x, high, j, entry);
    case 0xb => Nibbles(x, high, i, 0xb0); RowBIsEightSteps(x, high, j, entry);
    case 0xc => Nibbles(x, high, i, 0xc0); RowCIsEightSteps(x, high, j, entry);
    case 0xd => Nibbles(x, high, i, 0xd0); RowDIsEightSteps(x, high, j, entry);
    case 0xe => Nibbles(x, high, i, 0xe0); RowEIsEightSteps(x, high, j, entry);
    case _ => Nibbles(x, high, i, 0xf0); RowFIsEightSteps(x, high, j, entry);
  }

  lemma SplitLowByte(c: bv32, b: bv32, x: bv32, high: bv32, i: bv8)
    requires b < 0x100 && x == c ^ b && high == c >> 8 && i as bv32 == x & 0xff
    ensures high < 0x1000000 && x == (high << 8) ^ i as bv32
  {
  }

  lemma TableIsEightSteps(x: bv32, high: bv32, i: bv8, j: bv8, entry: bv32)
    requires high < 0x1000000 && x == (high << 8) ^ i as bv32 && j == i & 0xf && entry == CrcTable(i)
    ensures EightSteps(x) == high ^ entry
  {
    if i >> 4 < 8 {
      LowTableIsEightSteps(x, high, i, j, entry);
    } else {
      HighTableIsEightSteps(x, high, i, j, entry);
    }
  }

  lemma LookupIsEightSteps(c: bv32, b: bv32, x: bv32, high: bv32, i: bv8, entry: bv32)
    requires b < 0x100 && x == c ^ b && high == c >> 8 && i as bv32 == x & 0xff && entry == CrcTable(i)
    ensures EightSteps(x) == high ^ entry
  {
    SplitLowByte(c, b, x, high, i);
    TableIsEightSteps(x, high, i, i & 0xf, entry);
  }

  /** One table lookup does the work of eight bit steps. */
  lemma TableStepIsByteUpdate(c: bv32, b: bv32, x: bv32, i: bv8, entry: bv32)
    requires b < 0x100 && x == c ^ b && i as bv32 == x & 0xff && entry == CrcTable(i)
    ensures ByteUpdate(c, b) == (c >> 8) ^ entry
  {
    LookupIsEightSteps(c, b, x, c >> 8, i, entry);
  }

  // ---------- the three functions of the source ----------

  method Crc32Init() returns (crc: bv32)
    ensures crc == 0xffffffff
  {
    crc := !0;
  }

  method Crc32Iteration(buf: seq<bv8>, crc0: bv32) returns (crc: bv32)
    ensures crc == BitwiseCrc(crc0, buf)
  {
    crc := crc0;
    var i := 0;
    while i < |buf|
      invariant 0 <= i <= |buf|
      invariant BitwiseCrc(crc, buf[i..]) == BitwiseCrc(crc0, buf)
    {
      var b := buf[i] as bv32;
      assert buf[i..][1..] == buf[i + 1..];
      var x := crc ^ b;
      var index := (x & 0xff) as bv8;
      TableStepIsByteUpdate(crc, b, x, index, CrcTable(index));
      crc := (crc >> 8) ^ CrcTable(index);
      i := i + 1;
    }
  }

  method Crc32Done(crc0: bv32) returns (crc: bv32)
    ensures crc == crc0 ^ 0xffffffff
  {
    crc := !crc0;
  }

  /** Iterating over consecutive pieces is iterating over their concatenation. */
  lemma {:induction false} CrcOfConcatenation(c: bv32, a: seq<bv8>, b: seq<bv8>)
    ensures BitwiseCrc(c, a + b) == BitwiseCrc(BitwiseCrc(c, a), b)
    decreases |a|
  {
    if a == [] {
      assert a + b == b;
    } else {
      assert (a + b)[1..] == a[1..] + b;
      CrcOfConcatenation(ByteUpdate(c, a[0] as bv32), a[1..], b);
    }
  }

  // ---------- what the CRC is for: a damaged message is noticed ----------

  lemma BitStepTopBit(x: bv32)
    ensures (BitStep(x) & 0x80000000 == 0x80000000) <==> (x & 1 == 1)
    ensures (if x & 1 == 1 then BitStep(x) ^ POLYNOMIAL else BitStep(x)) == x >> 1
  {
  }

  lemma HalfAndLowBit(x: bv32, y: bv32)
    requires x >> 1 == y >> 1 && ((x & 1 == 1) <==> (y & 1 == 1))
    ensures x == y
  {
  }

  lemma BitStepInjective(x: bv32, y: bv32)
    requires BitStep(x) == BitStep(y)
    ensures x == y
  {
    BitStepTopBit(x);
    BitStepTopBit(y);
    HalfAndLowBit(x, y);
  }

  lemma EightStepsInjective(x: bv32, y: bv32)
    requires EightSteps(x) == EightSteps(y)
    ensures x == y
  {
    var x1 := BitStep(x); var x2 := BitStep(x1); var x3 := BitStep(x2); var x4 := BitStep(x3);
    var x5 := BitStep(x4); var x6 := BitStep(x5); var x7 := BitStep(x6);
    var y1 := BitStep(y); var y2 := BitStep(y1); var y3 := BitStep(y2); var y4 := BitStep(y3);
    var y5 := BitStep(y4); var y6 := BitStep(y5); var y7 := BitStep(y6);
    BitStepInjective(x7, y7); BitStepInjective(x6, y6); BitStepInjective(x5, y5); BitStepInjective(x4, y4);
    BitStepInjective(x3, y3); BitStepInjective(x2, y2); BitStepInjective(x1, y1); BitStepInjective(x, y);
  }

  lemma EqualXors(c: bv32, v: bv32, x: bv32, d: bv32, w: bv32)
    requires x == c ^ v && x == d ^ w
    ensures v == w ==> c == d
    ensures c == d ==> v == w
  {
  }

  /** A register step loses nothing: it is injective in the register and in the byte. */
  lemma ByteUpdateInjective(c: bv32, v: bv32, d: bv32, w: bv32)
    requires ByteUpdate(c, v) == ByteUpdate(d, w)
    ensures v == w ==> c == d
    ensures c == d ==> v == w
  {
    EightStepsInjective(c ^ v, d ^ w);
    EqualXors(c, v, c ^ v, d, w);
  }

  lemma WideningInjective(b: bv8, e: bv8)
    ensures b as bv32 == e as bv32 ==> b == e
  {
  }

  /** Different registers stay different whatever is read next. */
  lemma {:induction false} CrcInjectiveInRegister(c: bv32, d: bv32, s: seq<bv8>)
    requires BitwiseCrc(c, s) == BitwiseCrc(d, s)
    ensures c == d
    decreases |s|
  {
    if s != [] {
      var v := s[0] as bv32;
      CrcInjectiveInRegister(ByteUpdate(c, v), ByteUpdate(d, v), s[1..]);
      ByteUpdateInjective(c, v, d, v);
    }
  }

  /** A message with one byte changed never has the CRC of the original. */
  lemma ChangedByteIsDetected(c: bv32, before: seq<bv8>, b: bv8, e: bv8, after: seq<bv8>)
    requires b != e
    ensures BitwiseCrc(c, before + [b] + after) != BitwiseCrc(c, before + [e] + after)
  {
    var r := BitwiseCrc(c, before);
    CrcOfConcatenation(c, before + [b], after);
    CrcOfConcatenation(c, before + [e], after);
    CrcOfConcatenation(c, before, [b]);
    CrcOfConcatenation(c, before, [e]);
    var v, w := b as bv32, e as bv32;
    assert BitwiseCrc(r, [b]) == ByteUpdate(r, v);
    assert BitwiseCrc(r, [e]) == ByteUpdate(r, w);
    if BitwiseCrc(c, before + [b] + after) == BitwiseCrc(c, before + [e] + after) {
      CrcInjectiveInRegister(ByteUpdate(r, v), ByteUpdate(r, w), after);
      ByteUpdateInjective(r, v, r, w);
      WideningInjective(b, e);
    }
  }
}
