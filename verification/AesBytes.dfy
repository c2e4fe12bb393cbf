/** The substitution tables and the byte arithmetic of aes.c. */
module AesBytes {
  import opened Common

  const BLOCKLEN: nat := 16

  /** The state matrix: byte 4*i + j is row j of column i. */
  type Block = s: seq<Byte> | |s| == BLOCKLEN witness seq(BLOCKLEN, _ => 0)

  // ----- the tables, one function per row of sixteen -----

  /** `sbox` */
  function Sbox(x: Byte): Byte
  {
    var hi := x >> 4;
    if hi == 0 then SboxRow0(x & 0xf)
    else if hi == 1 then SboxRow1(x & 0xf)
    else if hi == 2 then SboxRow2(x & 0xf)
    else if hi == 3 then SboxRow3(x & 0xf)
    else if hi == 4 then SboxRow4(x & 0xf)
    else if hi == 5 then SboxRow5(x & 0xf)
    else if hi == 6 then SboxRow6(x & 0xf)
    else if hi == 7 then SboxRow7(x & 0xf)
    else if hi == 8 then SboxRow8(x & 0xf)
    else if hi == 9 then SboxRow9(x & 0xf)
    else if hi == 10 then SboxRowA(x & 0xf)
    else if hi == 11 then SboxRowB(x & 0xf)
    else if hi == 12 then SboxRowC(x & 0xf)
    else if hi == 13 then SboxRowD(x & 0xf)
    else if hi == 14 then SboxRowE(x & 0xf)
    else SboxRowF(x & 0xf)
  }

  function SboxRow0(lo: Byte): Byte
  {
    if lo == 0 then 0x63 else if lo == 1 then 0x7c else if lo == 2 then 0x77 else if lo == 3 then 0x7b
      else if lo == 4 then 0xf2 else if lo == 5 then 0x6b else if lo == 6 then 0x6f else if lo == 7 then 0xc5
      else if lo == 8 then 0x30 else if lo == 9 then 0x01 else if lo == 10 then 0x67 else if lo == 11 then 0x2b
      else if lo == 12 then 0xfe else if lo == 13 then 0xd7 else if lo == 14 then 0xab else 0x76
  }

  function SboxRow1(lo: Byte): Byte
  {
    if lo == 0 then 0xca else if lo == 1 then 0x82 else if lo == 2 then 0xc9 else if lo == 3 then 0x7d
      else if lo == 4 then 0xfa else if lo == 5 then 0x59 else if lo == 6 then 0x47 else if lo == 7 then 0xf0
      else if lo == 8 then 0xad else if lo == 9 then 0xd4 else if lo == 10 then 0xa2 else if lo == 11 then 0xaf
      else if lo == 12 then 0x9c else if lo == 13 then 0xa4 else if lo == 14 then 0x72 else 0xc0
  }

  function SboxRow2(lo: Byte): Byte
  {
    if lo == 0 then 0xb7 else if lo == 1 then 0xfd else if lo == 2 then 0x93 else if lo == 3 then 0x26
      else if lo == 4 then 0x36 else if lo == 5 then 0x3f else if lo == 6 then 0xf7 else if lo == 7 then 0xcc
      else if lo == 8 then 0x34 else if lo == 9 then 0xa5 else if lo == 10 then 0xe5 else if lo == 11 then 0xf1
      else if lo == 12 then 0x71 else if lo == 13 then 0xd8 else if lo == 14 then 0x31 else 0x15
  }

  function SboxRow3(lo: Byte): Byte
  {
    if lo == 0 then 0x04 else if lo == 1 then 0xc7 else if lo == 2 then 0x23 else if lo == 3 then 0xc3
      else if lo == 4 then 0x18 else if lo == 5 then 0x96 else if lo == 6 then 0x05 else if lo == 7 then 0x9a
      else if lo == 8 then 0x07 else if lo == 9 then 0x12 else if lo == 10 then 0x80 else if lo == 11 then 0xe2
      else if lo == 12 then 0xeb else if lo == 13 then 0x27 else if lo == 14 then 0xb2 else 0x75
  }

  function SboxRow4(lo: Byte): Byte
  {
    if lo == 0 then 0x09 else if lo == 1 then 0x83 else if lo == 2 then 0x2c else if lo == 3 then 0x1a
      else if lo == 4 then 0x1b else if lo == 5 then 0x6e else if lo == 6 then 0x5a else if lo == 7 then 0xa0
      else if lo == 8 then 0x52 else if lo == 9 then 0x3b else if lo == 10 then 0xd6 else if lo == 11 then 0xb3
      else if lo == 12 then 0x29 else if lo == 13 then 0xe3 else if lo == 14 then 0x2f else 0x84
  }

  function SboxRow5(lo: Byte): Byte
  {
    if lo == 0 then 0x53 else if lo == 1 then 0xd1 else if lo == 2 then 0x00 else if lo == 3 then 0xed
      else if lo == 4 then 0x20 else if lo == 5 then 0xfc else if lo == 6 then 0xb1 else if lo == 7 then 0x5b
      else if lo == 8 then 0x6a else if lo == 9 then 0xcb else if lo == 10 then 0xbe else if lo == 11 then 0x39
      else if lo == 12 then 0x4a else if lo == 13 then 0x4c else if lo == 14 then 0x58 else 0xcf
  }

  function SboxRow6(lo: Byte): Byte
  {
    if lo == 0 then 0xd0 else if lo == 1 then 0xef else if lo == 2 then 0xaa else if lo == 3 then 0xfb
      else if lo == 4 then 0x43 else if lo == 5 then 0x4d else if lo == 6 then 0x33 else if lo == 7 then 0x85
      else if lo == 8 then 0x45 else if lo == 9 then 0xf9 else if lo == 10 then 0x02 else if lo == 11 then 0x7f
      else if lo == 12 then 0x50 else if lo == 13 then 0x3c else if lo == 14 then 0x9f else 0xa8
  }

  function SboxRow7(lo: Byte): Byte
  {
    if lo == 0 then 0x51 else if lo == 1 then 0xa3 else if lo == 2 then 0x40 else if lo == 3 then 0x8f
      else if lo == 4 then 0x92 else if lo == 5 then 0x9d else if lo == 6 then 0x38 else if lo == 7 then 0xf5
      else if lo == 8 then 0xbc else if lo == 9 then 0xb6 else if lo == 10 then 0xda else if lo == 11 then 0x21
      else if lo == 12 then 0x10 else if lo == 13 then 0xff else if lo == 14 then 0xf3 else 0xd2
  }

  function SboxRow8(lo: Byte): Byte
  {
    if lo == 0 then 0xcd else if lo == 1 then 0x0c else if lo == 2 then 0x13 else if lo == 3 then 0xec
      else if lo == 4 then 0x5f else if lo == 5 then 0x97 else if lo == 6 then 0x44 else if lo == 7 then 0x17
      else if lo == 8 then 0xc4 else if lo == 9 then 0xa7 else if lo == 10 then 0x7e else if lo == 11 then 0x3d
      else if lo == 12 then 0x64 else if lo == 13 then 0x5d else if lo == 14 then 0x19 else 0x73
  }

  function SboxRow9(lo: Byte): Byte
  {
    if lo == 0 then 0x60 else if lo == 1 then 0x81 else if lo == 2 then 0x4f else if lo == 3 then 0xdc
      else if lo == 4 then 0x22 else if lo == 5 then 0x2a else if lo == 6 then 0x90 else if lo == 7 then 0x88
      else if lo == 8 then 0x46 else if lo == 9 then 0xee else if lo == 10 then 0xb8 else if lo == 11 then 0x14
      else if lo == 12 then 0xde else if lo == 13 then 0x5e else if lo == 14 then 0x0b else 0xdb
  }

  function SboxRowA(lo: Byte): Byte
  {
    if lo == 0 then 0xe0 else if lo == 1 then 0x32 else if lo == 2 then 0x3a else if lo == 3 then 0x0a
      else if lo == 4 then 0x49 else if lo == 5 then 0x06 else if lo == 6 then 0x24 else if lo == 7 then 0x5c
      else if lo == 8 then 0xc2 else if lo == 9 then 0xd3 else if lo == 10 then 0xac else if lo == 11 then 0x62
      else if lo == 12 then 0x91 else if lo == 13 then 0x95 else if lo == 14 then 0xe4 else 0x79
  }

  function SboxRowB(lo: Byte): Byte
  {
    if lo == 0 then 0xe7 else if lo == 1 then 0xc8 else if lo == 2 then 0x37 else if lo == 3 then 0x6d
      else if lo == 4 then 0x8d else if lo == 5 then 0xd5 else if lo == 6 then 0x4e else if lo == 7 then 0xa9
      else if lo == 8 then 0x6c else if lo == 9 then 0x56 else if lo == 10 then 0xf4 else if lo == 11 then 0xea
      else if lo == 12 then 0x65 else if lo == 13 then 0x7a else if lo == 14 then 0xae else 0x08
  }

  function SboxRowC(lo: Byte): Byte
  {
    if lo == 0 then 0xba else if lo == 1 then 0x78 else if lo == 2 then 0x25 else if lo == 3 then 0x2e
      else if lo == 4 then 0x1c else if lo == 5 then 0xa6 else if lo == 6 then 0xb4 else if lo == 7 then 0xc6
      else if lo == 8 then 0xe8 else if lo == 9 then 0xdd else if lo == 10 then 0x74 else if lo == 11 then 0x1f
      else if lo == 12 then 0x4b else if lo == 13 then 0xbd else if lo == 14 then 0x8b else 0x8a
  }

  function SboxRowD(lo: Byte): Byte
  {
    if lo == 0 then 0x70 else if lo == 1 then 0x3e else if lo == 2 then 0xb5 else if lo == 3 then 0x66
      else if lo == 4 then 0x48 else if lo == 5 then 0x03 else if lo == 6 then 0xf6 else if lo == 7 then 0x0e
      else if lo == 8 then 0x61 else if lo == 9 then 0x35 else if lo == 10 then 0x57 else if lo == 11 then 0xb9
      else if lo == 12 then 0x86 else if lo == 13 then 0xc1 else if lo == 14 then 0x1d else 0x9e
  }

  function SboxRowE(lo: Byte): Byte
  {
    if lo == 0 then 0xe1 else if lo == 1 then 0xf8 else if lo == 2 then 0x98 else if lo == 3 then 0x11
      else if lo == 4 then 0x69 else if lo == 5 then 0xd9 else if lo == 6 then 0x8e else if lo == 7 then 0x94
      else if lo == 8 then 0x9b else if lo == 9 then 0x1e else if lo == 10 then 0x87 else if lo == 11 then 0xe9
      else if lo == 12 then 0xce else if lo == 13 then 0x55 else if lo == 14 then 0x28 else 0xdf
  }

  function SboxRowF(lo: Byte): Byte
  {
    if lo == 0 then 0x8c else if lo == 1 then 0xa1 else if lo == 2 then 0x89 else if lo == 3 then 0x0d
      else if lo == 4 then 0xbf else if lo == 5 then 0xe6 else if lo == 6 then 0x42 else if lo == 7 then 0x68
      else if lo == 8 then 0x41 else if lo == 9 then 0x99 else if lo == 10 then 0x2d else if lo == 11 then 0x0f
      else if lo == 12 then 0xb0 else if lo == 13 then 0x54 else if lo == 14 then 0xbb else 0x16
  }

  /** `rsbox` */
  function InvSbox(x: Byte): Byte
  {
    var hi := x >> 4;
    if hi == 0 then InvSboxRow0(x & 0xf)
    else if hi == 1 then InvSboxRow1(x & 0xf)
    else if hi == 2 then InvSboxRow2(x & 0xf)
    else if hi == 3 then InvSboxRow3(x & 0xf)
    else if hi == 4 then InvSboxRow4(x & 0xf)
    else if hi == 5 then InvSboxRow5(x & 0xf)
    else if hi == 6 then InvSboxRow6(x & 0xf)
    else if hi == 7 then InvSboxRow7(x & 0xf)
    else if hi == 8 then InvSboxRow8(x & 0xf)
    else if hi == 9 then InvSboxRow9(x & 0xf)
    else if hi == 10 then InvSboxRowA(x & 0xf)
    else if hi == 11 then InvSboxRowB(x & 0xf)
    else if hi == 12 then InvSboxRowC(x & 0xf)
    else if hi == 13 then InvSboxRowD(x & 0xf)
    else if hi == 14 then InvSboxRowE(x & 0xf)
    else InvSboxRowF(x & 0xf)
  }

  function InvSboxRow0(lo: Byte): Byte
  {
    if lo == 0 then 0x52 else if lo == 1 then 0x09 else if lo == 2 then 0x6a else if lo == 3 then 0xd5
      else if lo == 4 then 0x30 else if lo == 5 then 0x36 else if lo == 6 then 0xa5 else if lo == 7 then 0x38
      else if lo == 8 then 0xbf else if lo == 9 then 0x40 else if lo == 10 then 0xa3 else if lo == 11 then 0x9e
      else if lo == 12 then 0x81 else if lo == 13 then 0xf3 else if lo == 14 then 0xd7 else 0xfb
  }

  function InvSboxRow1(lo: Byte): Byte
  {
    if lo == 0 then 0x7c else if lo == 1 then 0xe3 else if lo == 2 then 0x39 else if lo == 3 then 0x82
      else if lo == 4 then 0x9b else if lo == 5 then 0x2f else if lo == 6 then 0xff else if lo == 7 then 0x87
      else if lo == 8 then 0x34 else if lo == 9 then 0x8e else if lo == 10 then 0x43 else if lo == 11 then 0x44
      else if lo == 12 then 0xc4 else if lo == 13 then 0xde else if lo == 14 then 0xe9 else 0xcb
  }

  function InvSboxRow2(lo: Byte): Byte
  {
    if lo == 0 then 0x54 else if lo == 1 then 0x7b else if lo == 2 then 0x94 else if lo == 3 then 0x32
      else if lo == 4 then 0xa6 else if lo == 5 then 0xc2 else if lo == 6 then 0x23 else if lo == 7 then 0x3d
      else if lo == 8 then 0xee else if lo == 9 then 0x4c else if lo == 10 then 0x95 else if lo == 11 then 0x0b
      else if lo == 12 then 0x42 else if lo == 13 then 0xfa else if lo == 14 then 0xc3 else 0x4e
  }

  function InvSboxRow3(lo: Byte): Byte
  {
    if lo == 0 then 0x08 else if lo == 1 then 0x2e else if lo == 2 then 0xa1 else if lo == 3 then 0x66
      else if lo == 4 then 0x28 else if lo == 5 then 0xd9 else if lo == 6 then 0x24 else if lo == 7 then 0xb2
      else if lo == 8 then 0x76 else if lo == 9 then 0x5b else if lo == 10 then 0xa2 else if lo == 11 then 0x49
      else if lo == 12 then 0x6d else if lo == 13 then 0x8b else if lo == 14 then 0xd1 else 0x25
  }

  function InvSboxRow4(lo: Byte): Byte
  {
    if lo == 0 then 0x72 else if lo == 1 then 0xf8 else if lo == 2 then 0xf6 else if lo == 3 then 0x64
      else if lo == 4 then 0x86 else if lo == 5 then 0x68 else if lo == 6 then 0x98 else if lo == 7 then 0x16
      else if lo == 8 then 0xd4 else if lo == 9 then 0xa4 else if lo == 10 then 0x5c else if lo == 11 then 0xcc
      else if lo == 12 then 0x5d else if lo == 13 then 0x65 else if lo == 14 then 0xb6 else 0x92
  }

  function InvSboxRow5(lo: Byte): Byte
  {
    if lo == 0 then 0x6c else if lo == 1 then 0x70 else if lo == 2 then 0x48 else if lo == 3 then 0x50
      else if lo == 4 then 0xfd else if lo == 5 then 0xed else if lo == 6 then 0xb9 else if lo == 7 then 0xda
      else if lo == 8 then 0x5e else if lo == 9 then 0x15 else if lo == 10 then 0x46 else if lo == 11 then 0x57
      else if lo == 12 then 0xa7 else if lo == 13 then 0x8d else if lo == 14 then 0x9d else 0x84
  }

  function InvSboxRow6(lo: Byte): Byte
  {
    if lo == 0 then 0x90 else if lo == 1 then 0xd8 else if lo == 2 then 0xab else if lo == 3 then 0x00
      else if lo == 4 then 0x8c else if lo == 5 then 0xbc else if lo == 6 then 0xd3 else if lo == 7 then 0x0a
      else if lo == 8 then 0xf7 else if lo == 9 then 0xe4 else if lo == 10 then 0x58 else if lo == 11 then 0x05
      else if lo == 12 then 0xb8 else if lo == 13 then 0xb3 else if lo == 14 then 0x45 else 0x06
  }

  function InvSboxRow7(lo: Byte): Byte
  {
    if lo == 0 then 0xd0 else if lo == 1 then 0x2c else if lo == 2 then 0x1e else if lo == 3 then 0x8f
      else if lo == 4 then 0xca else if lo == 5 then 0x3f else if lo == 6 then 0x0f else if lo == 7 then 0x02
      else if lo == 8 then 0xc1 else if lo == 9 then 0xaf else if lo == 10 then 0xbd else if lo == 11 then 0x03
      else if lo == 12 then 0x01 else if lo == 13 then 0x13 else if lo == 14 then 0x8a else 0x6b
  }

  function InvSboxRow8(lo: Byte): Byte
  {
    if lo == 0 then 0x3a else if lo == 1 then 0x91 else if lo == 2 then 0x11 else if lo == 3 then 0x41
      else if lo == 4 then 0x4f else if lo == 5 then 0x67 else if lo == 6 then 0xdc else if lo == 7 then 0xea
      else if lo == 8 then 0x97 else if lo == 9 then 0xf2 else if lo == 10 then 0xcf else if lo == 11 then 0xce
      else if lo == 12 then 0xf0 else if lo == 13 then 0xb4 else if lo == 14 then 0xe6 else 0x73
  }

  function InvSboxRow9(lo: Byte): Byte
  {
    if lo == 0 then 0x96 else if lo == 1 then 0xac else if lo == 2 then 0x74 else if lo == 3 then 0x22
      else if lo == 4 then 0xe7 else if lo == 5 then 0xad else if lo == 6 then 0x35 else if lo == 7 then 0x85
      else if lo == 8 then 0xe2 else if lo == 9 then 0xf9 else if lo == 10 then 0x37 else if lo == 11 then 0xe8
      else if lo == 12 then 0x1c else if lo == 13 then 0x75 else if lo == 14 then 0xdf else 0x6e
  }

  function InvSboxRowA(lo: Byte): Byte
  {
    if lo == 0 then 0x47 else if lo == 1 then 0xf1 else if lo == 2 then 0x1a else if lo == 3 then 0x71
      else if lo == 4 then 0x1d else if lo == 5 then 0x29 else if lo == 6 then 0xc5 else if lo == 7 then 0x89
      else if lo == 8 then 0x6f else if lo == 9 then 0xb7 else if lo == 10 then 0x62 else if lo == 11 then 0x0e
      else if lo == 12 then 0xaa else if lo == 13 then 0x18 else if lo == 14 then 0xbe else 0x1b
  }

  function InvSboxRowB(lo: Byte): Byte
  {
    if lo == 0 then 0xfc else if lo == 1 then 0x56 else if lo == 2 then 0x3e else if lo == 3 then 0x4b
      else if lo == 4 then 0xc6 else if lo == 5 then 0xd2 else if lo == 6 then 0x79 else if lo == 7 then 0x20
      else if lo == 8 then 0x9a else if lo == 9 then 0xdb else if lo == 10 then 0xc0 else if lo == 11 then 0xfe
      else if lo == 12 then 0x78 else if lo == 13 then 0xcd else if lo == 14 then 0x5a else 0xf4
  }

  function InvSboxRowC(lo: Byte): Byte
  {
    if lo == 0 then 0x1f else if lo == 1 then 0xdd else if lo == 2 then 0xa8 else if lo == 3 then 0x33
      else if lo == 4 then 0x88 else if lo == 5 then 0x07 else if lo == 6 then 0xc7 else if lo == 7 then 0x31
      else if lo == 8 then 0xb1 else if lo == 9 then 0x12 else if lo == 10 then 0x10 else if lo == 11 then 0x59
      else if lo == 12 then 0x27 else if lo == 13 then 0x80 else if lo == 14 then 0xec else 0x5f
  }

  function InvSboxRowD(lo: Byte): Byte
  {
    if lo == 0 then 0x60 else if lo == 1 then 0x51 else if lo == 2 then 0x7f else if lo == 3 then 0xa9
      else if lo == 4 then 0x19 else if lo == 5 then 0xb5 else if lo == 6 then 0x4a else if lo == 7 then 0x0d
      else if lo == 8 then 0x2d else if lo == 9 then 0xe5 else if lo == 10 then 0x7a else if lo == 11 then 0x9f
      else if lo == 12 then 0x93 else if lo == 13 then 0xc9 else if lo == 14 then 0x9c else 0xef
  }

  function InvSboxRowE(lo: Byte): Byte
  {
    if lo == 0 then 0xa0 else if lo == 1 then 0xe0 else if lo == 2 then 0x3b else if lo == 3 then 0x4d
      else if lo == 4 then 0xae else if lo == 5 then 0x2a else if lo == 6 then 0xf5 else if lo == 7 then 0xb0
      else if lo == 8 then 0xc8 else if lo == 9 then 0xeb else if lo == 10 then 0xbb else if lo == 11 then 0x3c
      else if lo == 12 then 0x83 else if lo == 13 then 0x53 else if lo == 14 then 0x99 else 0x61
  }

  function InvSboxRowF(lo: Byte): Byte
  {
    if lo == 0 then 0x17 else if lo == 1 then 0x2b else if lo == 2 then 0x04 else if lo == 3 then 0x7e
      else if lo == 4 then 0xba else if lo == 5 then 0x77 else if lo == 6 then 0xd6 else if lo == 7 then 0x26
      else if lo == 8 then 0xe1 else if lo == 9 then 0x69 else if lo == 10 then 0x14 else if lo == 11 then 0x63
      else if lo == 12 then 0x55 else if lo == 13 then 0x21 else if lo == 14 then 0x0c else 0x7d
  }

  lemma SboxRow0Inverse(x: Byte)
    requires x >> 4 == 0
    ensures InvSbox(Sbox(x)) == x
  {
  }

  lemma InvSboxRow0Inverse(x: Byte)
    requires x >> 4 == 0
    ensures Sbox(InvSbox(x)) == x
  {
  }

  lemma SboxRow1Inverse(x: Byte)
    requires x >> 4 == 1
    ensures InvSbox(Sbox(x)) == x
  {
  }

  lemma InvSboxRow1Inverse(x: Byte)
    requires x >> 4 == 1
    ensures Sbox(InvSbox(x)) == x
  {
  }

  lemma SboxRow2Inverse(x: Byte)
    requires x >> 4 == 2
    ensures InvSbox(Sbox(x)) == x
  {
  }

  lemma InvSboxRow2Inverse(x: Byte)
    requires x >> 4 == 2
    ensures Sbox(InvSbox(x)) == x
  {
  }

  lemma SboxRow3Inverse(x: Byte)
    requires x >> 4 == 3
    ensures InvSbox(Sbox(x)) == x
  {
  }

  lemma InvSboxRow3Inverse(x: Byte)
    requires x >> 4 == 3
    ensures Sbox(InvSbox(x)) == x
  {
  }

  lemma SboxRow4Inverse(x: Byte)
    requires x >> 4 == 4
    ensures InvSbox(Sbox(x)) == x
  {
  }

  lemma InvSboxRow4Inverse(x: Byte)
    requires x >> 4 == 4
    ensures Sbox(InvSbox(x)) == x
  {
  }

  lemma SboxRow5Inverse(x: Byte)
    requires x >> 4 == 5
    ensures InvSbox(Sbox(x)) == x
  {
  }

  lemma InvSboxRow5Inverse(x: Byte)
    requires x >> 4 == 5
    ensures Sbox(InvSbox(x)) == x
  {
  }

  lemma SboxRow6Inverse(x: Byte)
    requires x >> 4 == 6
    ensures InvSbox(Sbox(x)) == x
  {
  }

  lemma InvSboxRow6Inverse(x: Byte)
    requires x >> 4 == 6
    ensures Sbox(InvSbox(x)) == x
  {
  }

  lemma SboxRow7Inverse(x: Byte)
    requires x >> 4 == 7
    ensures InvSbox(Sbox(x)) == x
  {
  }

  lemma InvSboxRow7Inverse(x: Byte)
    requires x >> 4 == 7
    ensures Sbox(InvSbox(x)) == x
  {
  }

  lemma SboxRow8Inverse(x: Byte)
    requires x >> 4 == 8
    ensures InvSbox(Sbox(x)) == x
  {
  }

  lemma InvSboxRow8Inverse(x: Byte)
    requires x >> 4 == 8
    ensures Sbox(InvSbox(x)) == x
  {
  }

  lemma SboxRow9Inverse(x: Byte)
    requires x >> 4 == 9
    ensures InvSbox(Sbox(x)) == x
  {
  }

  lemma InvSboxRow9Inverse(x: Byte)
    requires x >> 4 == 9
    ensures Sbox(InvSbox(x)) == x
  {
  }

  lemma SboxRowAInverse(x: Byte)
    requires x >> 4 == 10
    ensures InvSbox(Sbox(x)) == x
  {
  }

  lemma InvSboxRowAInverse(x: Byte)
    requires x >> 4 == 10
    ensures Sbox(InvSbox(x)) == x
  {
  }

  lemma SboxRowBInverse(x: Byte)
    requires x >> 4 == 11
    ensures InvSbox(Sbox(x)) == x
  {
  }

  lemma InvSboxRowBInverse(x: Byte)
    requires x >> 4 == 11
    ensures Sbox(InvSbox(x)) == x
  {
  }

  lemma SboxRowCInverse(x: Byte)
    requires x >> 4 == 12
    ensures InvSbox(Sbox(x)) == x
  {
  }

  lemma InvSboxRowCInverse(x: Byte)
    requires x >> 4 == 12
    ensures Sbox(InvSbox(x)) == x
  {
  }

  lemma SboxRowDInverse(x: Byte)
    requires x >> 4 == 13
    ensures InvSbox(Sbox(x)) == x
  {
  }

  lemma InvSboxRowDInverse(x: Byte)
    requires x >> 4 == 13
    ensures Sbox(InvSbox(x)) == x
  {
  }

  lemma SboxRowEInverse(x: Byte)
    requires x >> 4 == 14
    ensures InvSbox(Sbox(x)) == x
  {
  }

  lemma InvSboxRowEInverse(x: Byte)
    requires x >> 4 == 14
    ensures Sbox(InvSbox(x)) == x
  {
  }

  lemma SboxRowFInverse(x: Byte)
    requires x >> 4 == 15
    ensures InvSbox(Sbox(x)) == x
  {
  }

  lemma InvSboxRowFInverse(x: Byte)
    requires x >> 4 == 15
    ensures Sbox(InvSbox(x)) == x
  {
  }

  /** The two tables undo each other, in both directions. */
  lemma SboxesInverse(x: Byte)
    ensures InvSbox(Sbox(x)) == x
    ensures Sbox(InvSbox(x)) == x
  {
    hide Sbox, InvSbox;
    var hi := x >> 4;
    assert hi < 16;
    if hi == 0 { SboxRow0Inverse(x); } else if hi == 1 { SboxRow1Inverse(x); } else if hi == 2 { SboxRow2Inverse(x); }
      else if hi == 3 { SboxRow3Inverse(x); } else if hi == 4 { SboxRow4Inverse(x); }
      else if hi == 5 { SboxRow5Inverse(x); } else if hi == 6 { SboxRow6Inverse(x); }
      else if hi == 7 { SboxRow7Inverse(x); } else if hi == 8 { SboxRow8Inverse(x); }
      else if hi == 9 { SboxRow9Inverse(x); } else if hi == 10 { SboxRowAInverse(x); }
      else if hi == 11 { SboxRowBInverse(x); } else if hi == 12 { SboxRowCInverse(x); }
      else if hi == 13 { SboxRowDInverse(x); } else if hi == 14 { SboxRowEInverse(x); } else { SboxRowFInverse(x); }
    if hi == 0 { InvSboxRow0Inverse(x); } else if hi == 1 { InvSboxRow1Inverse(x); }
      else if hi == 2 { InvSboxRow2Inverse(x); } else if hi == 3 { InvSboxRow3Inverse(x); }
      else if hi == 4 { InvSboxRow4Inverse(x); } else if hi == 5 { InvSboxRow5Inverse(x); }
      else if hi == 6 { InvSboxRow6Inverse(x); } else if hi == 7 { InvSboxRow7Inverse(x); }
      else if hi == 8 { InvSboxRow8Inverse(x); } else if hi == 9 { InvSboxRow9Inverse(x); }
      else if hi == 10 { InvSboxRowAInverse(x); } else if hi == 11 { InvSboxRowBInverse(x); }
      else if hi == 12 { InvSboxRowCInverse(x); } else if hi == 13 { InvSboxRowDInverse(x); }
      else if hi == 14 { InvSboxRowEInverse(x); } else { InvSboxRowFInverse(x); }
  }

  // ----- GF(2^8) -----

  /** Addition in the field.  Named, so that proofs about columns need not look at bits. */
  function Plus(x: Byte, y: Byte): Byte { x ^ y }

  function Sum3(a: Byte, b: Byte, c: Byte): Byte { Plus(Plus(a, b), c) }

  function Sum4(a: Byte, b: Byte, c: Byte, d: Byte): Byte { Plus(Sum3(a, b, c), d) }

  lemma PlusTwice(x: Byte, y: Byte)
    ensures Plus(Plus(x, y), y) == x
  {
  }

  lemma PlusCommutes(a: Byte, b: Byte)
    ensures Plus(a, b) == Plus(b, a)
  {
  }

  lemma PlusAssociates(a: Byte, b: Byte, c: Byte)
    ensures Plus(Plus(a, b), c) == Plus(a, Plus(b, c))
  {
  }

  lemma PlusPairs(a: Byte, a': Byte, b: Byte, b': Byte)
    ensures Plus(Plus(a, a'), Plus(b, b')) == Plus(Plus(a, b), Plus(a', b'))
  {
    hide Plus;
    PlusAssociates(a, a', Plus(b, b'));
    PlusAssociates(a', b, b');
    PlusCommutes(a', b);
    PlusAssociates(b, a', b');
    PlusAssociates(a, b, Plus(a', b'));
  }

  lemma Sum4Pairs(a: Byte, b: Byte, c: Byte, d: Byte, a': Byte, b': Byte, c': Byte, d': Byte)
    ensures Plus(Sum4(a, b, c, d), Sum4(a', b', c', d')) == Sum4(Plus(a, a'), Plus(b, b'), Plus(c, c'), Plus(d, d'))
  {
    hide Plus;
    PlusPairs(Sum3(a, b, c), d, Sum3(a', b', c'), d');
    PlusPairs(Plus(a, b), c, Plus(a', b'), c');
    PlusPairs(a, b, a', b');
  }

  lemma SumRotate(a: Byte, b: Byte, c: Byte, d: Byte)
    ensures Sum4(a, b, c, d) == Sum4(b, c, d, a)
  {
    hide Plus;
    PlusAssociates(Plus(a, b), c, d);
    PlusAssociates(a, b, Plus(c, d));
    PlusAssociates(b, c, d);
    PlusCommutes(a, Plus(b, Plus(c, d)));
  }

  /** `xtime` */
  function Xtime(x: Byte): Byte { (x << 1) ^ (((x >> 7) & 1) * 0x1b) }

  /** x if the low bit of `bit` is set. */
  function Masked(bit: Byte, x: Byte): Byte { (bit & 1) * x }

  /** `Multiply` */
  function Multiply(x: Byte, y: Byte): Byte
  {
    var x2 := Xtime(x);
    var x4 := Xtime(Xtime(x));
    var x8 := Xtime(Xtime(Xtime(x)));
    var x16 := Xtime(Xtime(Xtime(Xtime(x))));
    Plus(Sum4(Masked(y, x), Masked(y >> 1, x2), Masked(y >> 2, x4), Masked(y >> 3, x8)), Masked(y >> 4, x16))
  }

  /** Multiplication by three, as MixColumns needs it. */
  function Triple(x: Byte): Byte { Plus(Xtime(x), x) }

  lemma XtimeLinear(x: Byte, y: Byte)
    ensures Xtime(Plus(x, y)) == Plus(Xtime(x), Xtime(y))
  {
  }

  lemma TripleLinear(x: Byte, y: Byte)
    ensures Triple(Plus(x, y)) == Plus(Triple(x), Triple(y))
  {
    hide Xtime, Plus;
    XtimeLinear(x, y);
    PlusPairs(Xtime(x), Xtime(y), x, y);
  }

  /** The coefficients of InvMixColumns as sums of doublings. */
  lemma MultiplyForms(x: Byte)
    ensures var x2 := Xtime(x); var x4 := Xtime(x2); var x8 := Xtime(x4);
            && Multiply(x, 0x09) == Plus(x, x8)
            && Multiply(x, 0x0b) == Sum3(x, x2, x8)
            && Multiply(x, 0x0d) == Sum3(x, x4, x8)
            && Multiply(x, 0x0e) == Sum3(x2, x4, x8)
  {
    hide Xtime, Plus, Masked;
    var x2 := Xtime(x);
    var x4 := Xtime(x2);
    var x8 := Xtime(x4);
    MaskedBit(x);
    MaskedBit(x2);
    MaskedBit(x4);
    MaskedBit(x8);
    MaskedBit(Xtime(x8));
    PlusZero(x);
    PlusZero(x2);
    PlusZero(Plus(x, x2));
    PlusZero(Plus(x, x4));
    PlusZero(Plus(x, x8));
    PlusZero(Sum3(x, x2, x8));
    PlusZero(Sum3(x, x4, x8));
    PlusZero(Sum3(x2, x4, x8));
  }

  lemma MaskedBit(x: Byte)
    ensures forall bit: Byte {:trigger Masked(bit, x)} :: Masked(bit, x) == if bit & 1 == 1 then x else 0
  {
  }

  lemma PlusZero(x: Byte)
    ensures Plus(x, 0) == x && Plus(0, x) == x
  {
  }

  lemma Sum3Pairs(a: Byte, b: Byte, c: Byte, a': Byte, b': Byte, c': Byte)
    ensures Sum3(Plus(a, a'), Plus(b, b'), Plus(c, c')) == Plus(Sum3(a, b, c), Sum3(a', b', c'))
  {
    hide Plus;
    PlusPairs(a, a', b, b');
    PlusPairs(Plus(a, b), Plus(a', b'), c, c');
  }

  predicate Coefficient(k: Byte)
  {
    k == 0x09 || k == 0x0b || k == 0x0d || k == 0x0e
  }

  /** Multiplication by the four coefficients of InvMixColumns is linear. */
  lemma MultiplyLinear(x: Byte, y: Byte, k: Byte)
    requires Coefficient(k)
    ensures Multiply(Plus(x, y), k) == Plus(Multiply(x, k), Multiply(y, k))
  {
    hide Xtime, Multiply, Plus, Sum3;
    MultiplyForms(x);
    MultiplyForms(y);
    MultiplyForms(Plus(x, y));
    var x2, y2 := Xtime(x), Xtime(y);
    var x4, y4 := Xtime(x2), Xtime(y2);
    var x8, y8 := Xtime(x4), Xtime(y4);
    XtimeLinear(x, y);
    XtimeLinear(x2, y2);
    XtimeLinear(x4, y4);
    PlusPairs(x, y, x8, y8);
    Sum3Pairs(x, x2, x8, y, y2, y8);
    Sum3Pairs(x, x4, x8, y, y4, y8);
    Sum3Pairs(x2, x4, x8, y2, y4, y8);
  }

  lemma MultiplySum(a: Byte, b: Byte, c: Byte, d: Byte, k: Byte)
    requires Coefficient(k)
    ensures Multiply(Sum4(a, b, c, d), k) == Sum4(Multiply(a, k), Multiply(b, k), Multiply(c, k), Multiply(d, k))
  {
    hide Multiply, Plus, Coefficient;
    MultiplyLinear(Sum3(a, b, c), d, k);
    MultiplyLinear(Plus(a, b), c, k);
    MultiplyLinear(a, b, k);
  }

  lemma XtimeTripleSum(a: Byte, b: Byte, c: Byte, d: Byte)
    ensures Xtime(Sum4(a, b, c, d)) == Sum4(Xtime(a), Xtime(b), Xtime(c), Xtime(d))
    ensures Triple(Sum4(a, b, c, d)) == Sum4(Triple(a), Triple(b), Triple(c), Triple(d))
  {
    hide Xtime, Triple, Plus;
    XtimeLinear(Sum3(a, b, c), d);
    XtimeLinear(Plus(a, b), c);
    XtimeLinear(a, b);
    TripleLinear(Sum3(a, b, c), d);
    TripleLinear(Plus(a, b), c);
    TripleLinear(a, b);
  }

  /** The products of one input byte that meet in an output byte of InvMixColumns after
      MixColumns: they add up to the byte itself once and to nothing otherwise. */
  lemma Coefficients(x: Byte)
    ensures Sum4(Multiply(Xtime(x), 0x0e), Multiply(x, 0x0b), Multiply(x, 0x0d), Multiply(Triple(x), 0x09)) == x
    ensures Sum4(Multiply(Triple(x), 0x0e), Multiply(Xtime(x), 0x0b), Multiply(x, 0x0d), Multiply(x, 0x09)) == 0
    ensures Sum4(Multiply(x, 0x0e), Multiply(Triple(x), 0x0b), Multiply(Xtime(x), 0x0d), Multiply(x, 0x09)) == 0
    ensures Sum4(Multiply(x, 0x0e), Multiply(x, 0x0b), Multiply(Triple(x), 0x0d), Multiply(Xtime(x), 0x09)) == 0
  {
    hide Multiply;
    MultiplyForms(x);
    MultiplyForms(Xtime(x));
    MultiplyForms(Triple(x));
  }

  /** .. and of MixColumns after InvMixColumns. */
  lemma InverseCoefficients(x: Byte)
    ensures Sum4(Xtime(Multiply(x, 0x0e)), Triple(Multiply(x, 0x09)), Multiply(x, 0x0d), Multiply(x, 0x0b)) == x
    ensures Sum4(Xtime(Multiply(x, 0x0b)), Triple(Multiply(x, 0x0e)), Multiply(x, 0x09), Multiply(x, 0x0d)) == 0
  {
  }

  lemma InverseCoefficientsOn(x: Byte)
    ensures Sum4(Xtime(Multiply(x, 0x0d)), Triple(Multiply(x, 0x0b)), Multiply(x, 0x0e), Multiply(x, 0x09)) == 0
    ensures Sum4(Xtime(Multiply(x, 0x09)), Triple(Multiply(x, 0x0d)), Multiply(x, 0x0b), Multiply(x, 0x0e)) == 0
  {
  }

  // ----- one column -----

  /** One output byte of `MixColumns`, as the code computes it from a byte, its successor and
      the sum of the column. */
  function MixByte(x: Byte, next: Byte, sum: Byte): Byte
  {
    Plus(x, Plus(Xtime(Plus(x, next)), sum))
  }

  /** The coefficients {02}, {03}, {01}, {01} of section 5.1.3 of FIPS 197. */
  function MixCoeffs(a: Byte, b: Byte, c: Byte, d: Byte): Byte
  {
    Sum4(Xtime(a), Triple(b), c, d)
  }

  /** One output byte of `InvMixColumns`: {0e}, {0b}, {0d}, {09}, section 5.3.3. */
  function InvMixCoeffs(a: Byte, b: Byte, c: Byte, d: Byte): Byte
  {
    Sum4(Multiply(a, 0x0e), Multiply(b, 0x0b), Multiply(c, 0x0d), Multiply(d, 0x09))
  }

  lemma PlusCancels(a: Byte, p: Byte, q: Byte, b: Byte, c: Byte, d: Byte)
    ensures Plus(a, Plus(Plus(p, q), Sum4(a, b, c, d))) == Sum4(p, Plus(q, b), c, d)
  {
    hide Plus;
    var s, t := Plus(p, q), Sum3(b, c, d);
    PlusAssociates(a, b, c);
    PlusAssociates(a, Plus(b, c), d);
    assert Sum4(a, b, c, d) == Plus(a, t);
    PlusAssociates(s, a, t);
    PlusCommutes(s, a);
    PlusAssociates(a, s, t);
    assert Plus(s, Plus(a, t)) == Plus(a, Plus(s, t));
    PlusCommutes(a, Plus(a, Plus(s, t)));
    PlusCommutes(a, Plus(s, t));
    PlusTwice(Plus(s, t), a);
    PlusAssociates(s, Plus(b, c), d);
    PlusAssociates(s, b, c);
    PlusAssociates(p, q, b);
  }

  /** The code's shortcut through the column sum is the matrix of the standard. */
  lemma MixByteIsCoefficients(a: Byte, b: Byte, c: Byte, d: Byte)
    ensures MixByte(a, b, Sum4(a, b, c, d)) == MixCoeffs(a, b, c, d)
  {
    hide Xtime, Plus, Sum4;
    XtimeLinear(a, b);
    PlusCancels(a, Xtime(a), Xtime(b), b, c, d);
  }

  lemma Regroup(a0: Byte, b0: Byte, c0: Byte, d0: Byte, a1: Byte, b1: Byte, c1: Byte, d1: Byte,
                a2: Byte, b2: Byte, c2: Byte, d2: Byte, a3: Byte, b3: Byte, c3: Byte, d3: Byte)
    ensures Sum4(Sum4(a0, b0, c0, d0), Sum4(a1, b1, c1, d1), Sum4(a2, b2, c2, d2), Sum4(a3, b3, c3, d3))
         == Sum4(Sum4(a0, a1, a2, a3), Sum4(b0, b1, b2, b3), Sum4(c0, c1, c2, c3), Sum4(d0, d1, d2, d3))
  {
    hide Plus;
    Sum4Pairs(a0, b0, c0, d0, a1, b1, c1, d1);
    Sum4Pairs(Plus(a0, a1), Plus(b0, b1), Plus(c0, c1), Plus(d0, d1), a2, b2, c2, d2);
    Sum4Pairs(Sum3(a0, a1, a2), Sum3(b0, b1, b2), Sum3(c0, c1, c2), Sum3(d0, d1, d2), a3, b3, c3, d3);
  }

  lemma OneTerm(a: Byte)
    ensures Sum4(a, 0, 0, 0) == a
  {
  }

  /** InvMixColumns undoes MixColumns: the first byte of a column; the others are rotations. */
  lemma UnmixByte(a: Byte, b: Byte, c: Byte, d: Byte)
    ensures InvMixCoeffs(MixCoeffs(a, b, c, d), MixCoeffs(b, c, d, a), MixCoeffs(c, d, a, b), MixCoeffs(d, a, b, c))
      == a
  {
    hide Plus, Sum3, Sum4, Multiply, Xtime, Triple;
    SumRotate(a, Xtime(b), Triple(c), d);
    SumRotate(a, b, Xtime(c), Triple(d));
    SumRotate(b, Xtime(c), Triple(d), a);
    SumRotate(Xtime(d), Triple(a), b, c);
    MultiplySum(Xtime(a), Triple(b), c, d, 0x0e);
    MultiplySum(a, Xtime(b), Triple(c), d, 0x0b);
    MultiplySum(a, b, Xtime(c), Triple(d), 0x0d);
    MultiplySum(Triple(a), b, c, Xtime(d), 0x09);
    Regroup(Multiply(Xtime(a), 0x0e), Multiply(Triple(b), 0x0e), Multiply(c, 0x0e), Multiply(d, 0x0e),
            Multiply(a, 0x0b), Multiply(Xtime(b), 0x0b), Multiply(Triple(c), 0x0b), Multiply(d, 0x0b),
            Multiply(a, 0x0d), Multiply(b, 0x0d), Multiply(Xtime(c), 0x0d), Multiply(Triple(d), 0x0d),
            Multiply(Triple(a), 0x09), Multiply(b, 0x09), Multiply(c, 0x09), Multiply(Xtime(d), 0x09));
    Coefficients(a);
    Coefficients(b);
    Coefficients(c);
    Coefficients(d);
    OneTerm(a);
  }

  /** MixColumns undoes InvMixColumns. */
  lemma RemixByte(a: Byte, b: Byte, c: Byte, d: Byte)
    ensures MixCoeffs(InvMixCoeffs(a, b, c, d), InvMixCoeffs(b, c, d, a), InvMixCoeffs(c, d, a, b),
      InvMixCoeffs(d, a, b, c)) == a
  {
    hide Plus, Sum3, Sum4, Multiply, Xtime, Triple;
    SumRotate(Multiply(a, 0x09), Multiply(b, 0x0e), Multiply(c, 0x0b), Multiply(d, 0x0d));
    SumRotate(Multiply(a, 0x0d), Multiply(b, 0x09), Multiply(c, 0x0e), Multiply(d, 0x0b));
    SumRotate(Multiply(b, 0x09), Multiply(c, 0x0e), Multiply(d, 0x0b), Multiply(a, 0x0d));
    SumRotate(Multiply(d, 0x0e), Multiply(a, 0x0b), Multiply(b, 0x0d), Multiply(c, 0x09));
    XtimeTripleSum(Multiply(a, 0x0e), Multiply(b, 0x0b), Multiply(c, 0x0d), Multiply(d, 0x09));
    XtimeTripleSum(Multiply(a, 0x09), Multiply(b, 0x0e), Multiply(c, 0x0b), Multiply(d, 0x0d));
    Regroup(Xtime(Multiply(a, 0x0e)), Xtime(Multiply(b, 0x0b)), Xtime(Multiply(c, 0x0d)), Xtime(Multiply(d, 0x09)),
            Triple(Multiply(a, 0x09)), Triple(Multiply(b, 0x0e)), Triple(Multiply(c, 0x0b)), Triple(Multiply(d, 0x0d)),
            Multiply(a, 0x0d), Multiply(b, 0x09), Multiply(c, 0x0e), Multiply(d, 0x0b),
            Multiply(a, 0x0b), Multiply(b, 0x0d), Multiply(c, 0x09), Multiply(d, 0x0e));
    InverseCoefficients(a);
    InverseCoefficients(b);
    InverseCoefficientsOn(c);
    InverseCoefficientsOn(d);
    OneTerm(a);
  }
}
