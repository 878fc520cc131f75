/**
 Code page 037, the EBCDIC code page of records: its two tables undo each other for all 256 bytes, and
 under it the digits of a zoned number stand in the low nibbles, the sign in the zone of the last.
 */
module CodePage037 {
  import opened Prelude
  import opened Ebcdic
  import Radix
  import Zoned

  function OfEbcdic0(b: Byte): Byte
    requires 0x00 <= b <= 0x1F
  {
    match b
    case 0x00 => 0x00 case 0x01 => 0x01 case 0x02 => 0x02 case 0x03 => 0x03 case 0x04 => 0x9C case 0x05 => 0x09
    case 0x06 => 0x86 case 0x07 => 0x7F case 0x08 => 0x97 case 0x09 => 0x8D case 0x0A => 0x8E case 0x0B => 0x0B
    case 0x0C => 0x0C case 0x0D => 0x0D case 0x0E => 0x0E case 0x0F => 0x0F case 0x10 => 0x10 case 0x11 => 0x11
    case 0x12 => 0x12 case 0x13 => 0x13 case 0x14 => 0x9D case 0x15 => 0x85 case 0x16 => 0x08 case 0x17 => 0x87
    case 0x18 => 0x18 case 0x19 => 0x19 case 0x1A => 0x92 case 0x1B => 0x8F case 0x1C => 0x1C case 0x1D => 0x1D
    case 0x1E => 0x1E case _ => 0x1F
  }

  function OfEbcdic1(b: Byte): Byte
    requires 0x20 <= b <= 0x3F
  {
    match b
    case 0x20 => 0x80 case 0x21 => 0x81 case 0x22 => 0x82 case 0x23 => 0x83 case 0x24 => 0x84 case 0x25 => 0x0A
    case 0x26 => 0x17 case 0x27 => 0x1B case 0x28 => 0x88 case 0x29 => 0x89 case 0x2A => 0x8A case 0x2B => 0x8B
    case 0x2C => 0x8C case 0x2D => 0x05 case 0x2E => 0x06 case 0x2F => 0x07 case 0x30 => 0x90 case 0x31 => 0x91
    case 0x32 => 0x16 case 0x33 => 0x93 case 0x34 => 0x94 case 0x35 => 0x95 case 0x36 => 0x96 case 0x37 => 0x04
    case 0x38 => 0x98 case 0x39 => 0x99 case 0x3A => 0x9A case 0x3B => 0x9B case 0x3C => 0x14 case 0x3D => 0x15
    case 0x3E => 0x9E case _ => 0x1A
  }

  function OfEbcdic2(b: Byte): Byte
    requires 0x40 <= b <= 0x5F
  {
    match b
    case 0x40 => 0x20 case 0x41 => 0xA0 case 0x42 => 0xE2 case 0x43 => 0xE4 case 0x44 => 0xE0 case 0x45 => 0xE1
    case 0x46 => 0xE3 case 0x47 => 0xE5 case 0x48 => 0xE7 case 0x49 => 0xF1 case 0x4A => 0xA2 case 0x4B => 0x2E
    case 0x4C => 0x3C case 0x4D => 0x28 case 0x4E => 0x2B case 0x4F => 0x7C case 0x50 => 0x26 case 0x51 => 0xE9
    case 0x52 => 0xEA case 0x53 => 0xEB case 0x54 => 0xE8 case 0x55 => 0xED case 0x56 => 0xEE case 0x57 => 0xEF
    case 0x58 => 0xEC case 0x59 => 0xDF case 0x5A => 0x21 case 0x5B => 0x24 case 0x5C => 0x2A case 0x5D => 0x29
    case 0x5E => 0x3B case _ => 0xAC
  }

  function OfEbcdic3(b: Byte): Byte
    requires 0x60 <= b <= 0x7F
  {
    match b
    case 0x60 => 0x2D case 0x61 => 0x2F case 0x62 => 0xC2 case 0x63 => 0xC4 case 0x64 => 0xC0 case 0x65 => 0xC1
    case 0x66 => 0xC3 case 0x67 => 0xC5 case 0x68 => 0xC7 case 0x69 => 0xD1 case 0x6A => 0xA6 case 0x6B => 0x2C
    case 0x6C => 0x25 case 0x6D => 0x5F case 0x6E => 0x3E case 0x6F => 0x3F case 0x70 => 0xF8 case 0x71 => 0xC9
    case 0x72 => 0xCA case 0x73 => 0xCB case 0x74 => 0xC8 case 0x75 => 0xCD case 0x76 => 0xCE case 0x77 => 0xCF
    case 0x78 => 0xCC case 0x79 => 0x60 case 0x7A => 0x3A case 0x7B => 0x23 case 0x7C => 0x40 case 0x7D => 0x27
    case 0x7E => 0x3D case _ => 0x22
  }

  function OfEbcdic4(b: Byte): Byte
    requires 0x80 <= b <= 0x9F
  {
    match b
    case 0x80 => 0xD8 case 0x81 => 0x61 case 0x82 => 0x62 case 0x83 => 0x63 case 0x84 => 0x64 case 0x85 => 0x65
    case 0x86 => 0x66 case 0x87 => 0x67 case 0x88 => 0x68 case 0x89 => 0x69 case 0x8A => 0xAB case 0x8B => 0xBB
    case 0x8C => 0xF0 case 0x8D => 0xFD case 0x8E => 0xFE case 0x8F => 0xB1 case 0x90 => 0xB0 case 0x91 => 0x6A
    case 0x92 => 0x6B case 0x93 => 0x6C case 0x94 => 0x6D case 0x95 => 0x6E case 0x96 => 0x6F case 0x97 => 0x70
    case 0x98 => 0x71 case 0x99 => 0x72 case 0x9A => 0xAA case 0x9B => 0xBA case 0x9C => 0xE6 case 0x9D => 0xB8
    case 0x9E => 0xC6 case _ => 0xA4
  }

  function OfEbcdic5(b: Byte): Byte
    requires 0xA0 <= b <= 0xBF
  {
    match b
    case 0xA0 => 0xB5 case 0xA1 => 0x7E case 0xA2 => 0x73 case 0xA3 => 0x74 case 0xA4 => 0x75 case 0xA5 => 0x76
    case 0xA6 => 0x77 case 0xA7 => 0x78 case 0xA8 => 0x79 case 0xA9 => 0x7A case 0xAA => 0xA1 case 0xAB => 0xBF
    case 0xAC => 0xD0 case 0xAD => 0xDD case 0xAE => 0xDE case 0xAF => 0xAE case 0xB0 => 0x5E case 0xB1 => 0xA3
    case 0xB2 => 0xA5 case 0xB3 => 0xB7 case 0xB4 => 0xA9 case 0xB5 => 0xA7 case 0xB6 => 0xB6 case 0xB7 => 0xBC
    case 0xB8 => 0xBD case 0xB9 => 0xBE case 0xBA => 0x5B case 0xBB => 0x5D case 0xBC => 0xAF case 0xBD => 0xA8
    case 0xBE => 0xB4 case _ => 0xD7
  }

  function OfEbcdic6(b: Byte): Byte
    requires 0xC0 <= b <= 0xDF
  {
    match b
    case 0xC0 => 0x7B case 0xC1 => 0x41 case 0xC2 => 0x42 case 0xC3 => 0x43 case 0xC4 => 0x44 case 0xC5 => 0x45
    case 0xC6 => 0x46 case 0xC7 => 0x47 case 0xC8 => 0x48 case 0xC9 => 0x49 case 0xCA => 0xAD case 0xCB => 0xF4
    case 0xCC => 0xF6 case 0xCD => 0xF2 case 0xCE => 0xF3 case 0xCF => 0xF5 case 0xD0 => 0x7D case 0xD1 => 0x4A
    case 0xD2 => 0x4B case 0xD3 => 0x4C case 0xD4 => 0x4D case 0xD5 => 0x4E case 0xD6 => 0x4F case 0xD7 => 0x50
    case 0xD8 => 0x51 case 0xD9 => 0x52 case 0xDA => 0xB9 case 0xDB => 0xFB case 0xDC => 0xFC case 0xDD => 0xF9
    case 0xDE => 0xFA case _ => 0xFF
  }

  function OfEbcdic7(b: Byte): Byte
    requires 0xE0 <= b <= 0xFF
  {
    match b
    case 0xE0 => 0x5C case 0xE1 => 0xF7 case 0xE2 => 0x53 case 0xE3 => 0x54 case 0xE4 => 0x55 case 0xE5 => 0x56
    case 0xE6 => 0x57 case 0xE7 => 0x58 case 0xE8 => 0x59 case 0xE9 => 0x5A case 0xEA => 0xB2 case 0xEB => 0xD4
    case 0xEC => 0xD6 case 0xED => 0xD2 case 0xEE => 0xD3 case 0xEF => 0xD5 case 0xF0 => 0x30 case 0xF1 => 0x31
    case 0xF2 => 0x32 case 0xF3 => 0x33 case 0xF4 => 0x34 case 0xF5 => 0x35 case 0xF6 => 0x36 case 0xF7 => 0x37
    case 0xF8 => 0x38 case 0xF9 => 0x39 case 0xFA => 0xB3 case 0xFB => 0xDB case 0xFC => 0xDC case 0xFD => 0xD9
    case 0xFE => 0xDA case _ => 0x9F
  }

  /** EBCDIC to ASCII or Latin-1. */
  function OfEbcdic(b: Byte): Byte {
    if b < 0x20 then OfEbcdic0(b)
    else if b < 0x40 then OfEbcdic1(b)
    else if b < 0x60 then OfEbcdic2(b)
    else if b < 0x80 then OfEbcdic3(b)
    else if b < 0xA0 then OfEbcdic4(b)
    else if b < 0xC0 then OfEbcdic5(b)
    else if b < 0xE0 then OfEbcdic6(b)
    else OfEbcdic7(b)
  }

  function OfAscii0(b: Byte): Byte
    requires 0x00 <= b <= 0x1F
  {
    match b
    case 0x00 => 0x00 case 0x01 => 0x01 case 0x02 => 0x02 case 0x03 => 0x03 case 0x04 => 0x37 case 0x05 => 0x2D
    case 0x06 => 0x2E case 0x07 => 0x2F case 0x08 => 0x16 case 0x09 => 0x05 case 0x0A => 0x25 case 0x0B => 0x0B
    case 0x0C => 0x0C case 0x0D => 0x0D case 0x0E => 0x0E case 0x0F => 0x0F case 0x10 => 0x10 case 0x11 => 0x11
    case 0x12 => 0x12 case 0x13 => 0x13 case 0x14 => 0x3C case 0x15 => 0x3D case 0x16 => 0x32 case 0x17 => 0x26
    case 0x18 => 0x18 case 0x19 => 0x19 case 0x1A => 0x3F case 0x1B => 0x27 case 0x1C => 0x1C case 0x1D => 0x1D
    case 0x1E => 0x1E case _ => 0x1F
  }

  function OfAscii1(b: Byte): Byte
    requires 0x20 <= b <= 0x3F
  {
    match b
    case 0x20 => 0x40 case 0x21 => 0x5A case 0x22 => 0x7F case 0x23 => 0x7B case 0x24 => 0x5B case 0x25 => 0x6C
    case 0x26 => 0x50 case 0x27 => 0x7D case 0x28 => 0x4D case 0x29 => 0x5D case 0x2A => 0x5C case 0x2B => 0x4E
    case 0x2C => 0x6B case 0x2D => 0x60 case 0x2E => 0x4B case 0x2F => 0x61 case 0x30 => 0xF0 case 0x31 => 0xF1
    case 0x32 => 0xF2 case 0x33 => 0xF3 case 0x34 => 0xF4 case 0x35 => 0xF5 case 0x36 => 0xF6 case 0x37 => 0xF7
    case 0x38 => 0xF8 case 0x39 => 0xF9 case 0x3A => 0x7A case 0x3B => 0x5E case 0x3C => 0x4C case 0x3D => 0x7E
    case 0x3E => 0x6E case _ => 0x6F
  }

  function OfAscii2(b: Byte): Byte
    requires 0x40 <= b <= 0x5F
  {
    match b
    case 0x40 => 0x7C case 0x41 => 0xC1 case 0x42 => 0xC2 case 0x43 => 0xC3 case 0x44 => 0xC4 case 0x45 => 0xC5
    case 0x46 => 0xC6 case 0x47 => 0xC7 case 0x48 => 0xC8 case 0x49 => 0xC9 case 0x4A => 0xD1 case 0x4B => 0xD2
    case 0x4C => 0xD3 case 0x4D => 0xD4 case 0x4E => 0xD5 case 0x4F => 0xD6 case 0x50 => 0xD7 case 0x51 => 0xD8
    case 0x52 => 0xD9 case 0x53 => 0xE2 case 0x54 => 0xE3 case 0x55 => 0xE4 case 0x56 => 0xE5 case 0x57 => 0xE6
    case 0x58 => 0xE7 case 0x59 => 0xE8 case 0x5A => 0xE9 case 0x5B => 0xBA case 0x5C => 0xE0 case 0x5D => 0xBB
    case 0x5E => 0xB0 case _ => 0x6D
  }

  function OfAscii3(b: Byte): Byte
    requires 0x60 <= b <= 0x7F
  {
    match b
    case 0x60 => 0x79 case 0x61 => 0x81 case 0x62 => 0x82 case 0x63 => 0x83 case 0x64 => 0x84 case 0x65 => 0x85
    case 0x66 => 0x86 case 0x67 => 0x87 case 0x68 => 0x88 case 0x69 => 0x89 case 0x6A => 0x91 case 0x6B => 0x92
    case 0x6C => 0x93 case 0x6D => 0x94 case 0x6E => 0x95 case 0x6F => 0x96 case 0x70 => 0x97 case 0x71 => 0x98
    case 0x72 => 0x99 case 0x73 => 0xA2 case 0x74 => 0xA3 case 0x75 => 0xA4 case 0x76 => 0xA5 case 0x77 => 0xA6
    case 0x78 => 0xA7 case 0x79 => 0xA8 case 0x7A => 0xA9 case 0x7B => 0xC0 case 0x7C => 0x4F case 0x7D => 0xD0
    case 0x7E => 0xA1 case _ => 0x07
  }

  function OfAscii4(b: Byte): Byte
    requires 0x80 <= b <= 0x9F
  {
    match b
    case 0x80 => 0x20 case 0x81 => 0x21 case 0x82 => 0x22 case 0x83 => 0x23 case 0x84 => 0x24 case 0x85 => 0x15
    case 0x86 => 0x06 case 0x87 => 0x17 case 0x88 => 0x28 case 0x89 => 0x29 case 0x8A => 0x2A case 0x8B => 0x2B
    case 0x8C => 0x2C case 0x8D => 0x09 case 0x8E => 0x0A case 0x8F => 0x1B case 0x90 => 0x30 case 0x91 => 0x31
    case 0x92 => 0x1A case 0x93 => 0x33 case 0x94 => 0x34 case 0x95 => 0x35 case 0x96 => 0x36 case 0x97 => 0x08
    case 0x98 => 0x38 case 0x99 => 0x39 case 0x9A => 0x3A case 0x9B => 0x3B case 0x9C => 0x04 case 0x9D => 0x14
    case 0x9E => 0x3E case _ => 0xFF
  }

  function OfAscii5(b: Byte): Byte
    requires 0xA0 <= b <= 0xBF
  {
    match b
    case 0xA0 => 0x41 case 0xA1 => 0xAA case 0xA2 => 0x4A case 0xA3 => 0xB1 case 0xA4 => 0x9F case 0xA5 => 0xB2
    case 0xA6 => 0x6A case 0xA7 => 0xB5 case 0xA8 => 0xBD case 0xA9 => 0xB4 case 0xAA => 0x9A case 0xAB => 0x8A
    case 0xAC => 0x5F case 0xAD => 0xCA case 0xAE => 0xAF case 0xAF => 0xBC case 0xB0 => 0x90 case 0xB1 => 0x8F
    case 0xB2 => 0xEA case 0xB3 => 0xFA case 0xB4 => 0xBE case 0xB5 => 0xA0 case 0xB6 => 0xB6 case 0xB7 => 0xB3
    case 0xB8 => 0x9D case 0xB9 => 0xDA case 0xBA => 0x9B case 0xBB => 0x8B case 0xBC => 0xB7 case 0xBD => 0xB8
    case 0xBE => 0xB9 case _ => 0xAB
  }

  function OfAscii6(b: Byte): Byte
    requires 0xC0 <= b <= 0xDF
  {
    match b
    case 0xC0 => 0x64 case 0xC1 => 0x65 case 0xC2 => 0x62 case 0xC3 => 0x66 case 0xC4 => 0x63 case 0xC5 => 0x67
    case 0xC6 => 0x9E case 0xC7 => 0x68 case 0xC8 => 0x74 case 0xC9 => 0x71 case 0xCA => 0x72 case 0xCB => 0x73
    case 0xCC => 0x78 case 0xCD => 0x75 case 0xCE => 0x76 case 0xCF => 0x77 case 0xD0 => 0xAC case 0xD1 => 0x69
    case 0xD2 => 0xED case 0xD3 => 0xEE case 0xD4 => 0xEB case 0xD5 => 0xEF case 0xD6 => 0xEC case 0xD7 => 0xBF
    case 0xD8 => 0x80 case 0xD9 => 0xFD case 0xDA => 0xFE case 0xDB => 0xFB case 0xDC => 0xFC case 0xDD => 0xAD
    case 0xDE => 0xAE case _ => 0x59
  }

  function OfAscii7(b: Byte): Byte
    requires 0xE0 <= b <= 0xFF
  {
    match b
    case 0xE0 => 0x44 case 0xE1 => 0x45 case 0xE2 => 0x42 case 0xE3 => 0x46 case 0xE4 => 0x43 case 0xE5 => 0x47
    case 0xE6 => 0x9C case 0xE7 => 0x48 case 0xE8 => 0x54 case 0xE9 => 0x51 case 0xEA => 0x52 case 0xEB => 0x53
    case 0xEC => 0x58 case 0xED => 0x55 case 0xEE => 0x56 case 0xEF => 0x57 case 0xF0 => 0x8C case 0xF1 => 0x49
    case 0xF2 => 0xCD case 0xF3 => 0xCE case 0xF4 => 0xCB case 0xF5 => 0xCF case 0xF6 => 0xCC case 0xF7 => 0xE1
    case 0xF8 => 0x70 case 0xF9 => 0xDD case 0xFA => 0xDE case 0xFB => 0xDB case 0xFC => 0xDC case 0xFD => 0x8D
    case 0xFE => 0x8E case _ => 0xDF
  }

  /** ASCII or Latin-1 to EBCDIC. */
  function OfAscii(b: Byte): Byte {
    if b < 0x20 then OfAscii0(b)
    else if b < 0x40 then OfAscii1(b)
    else if b < 0x60 then OfAscii2(b)
    else if b < 0x80 then OfAscii3(b)
    else if b < 0xA0 then OfAscii4(b)
    else if b < 0xC0 then OfAscii5(b)
    else if b < 0xE0 then OfAscii6(b)
    else OfAscii7(b)
  }

  lemma EbcdicRestored0(b: Byte)
    requires 0x00 <= b <= 0x1F
    ensures OfAscii(OfEbcdic(b)) == b
  {
  }

  lemma EbcdicRestored1(b: Byte)
    requires 0x20 <= b <= 0x3F
    ensures OfAscii(OfEbcdic(b)) == b
  {
  }

  lemma EbcdicRestored2(b: Byte)
    requires 0x40 <= b <= 0x5F
    ensures OfAscii(OfEbcdic(b)) == b
  {
  }

  lemma EbcdicRestored3(b: Byte)
    requires 0x60 <= b <= 0x7F
    ensures OfAscii(OfEbcdic(b)) == b
  {
  }

  lemma EbcdicRestored4(b: Byte)
    requires 0x80 <= b <= 0x9F
    ensures OfAscii(OfEbcdic(b)) == b
  {
  }

  lemma EbcdicRestored5(b: Byte)
    requires 0xA0 <= b <= 0xBF
    ensures OfAscii(OfEbcdic(b)) == b
  {
  }

  lemma EbcdicRestored6(b: Byte)
    requires 0xC0 <= b <= 0xDF
    ensures OfAscii(OfEbcdic(b)) == b
  {
  }

  lemma EbcdicRestored7(b: Byte)
    requires 0xE0 <= b <= 0xFF
    ensures OfAscii(OfEbcdic(b)) == b
  {
  }

  /** An EBCDIC byte survives the way to ASCII and back. */
  lemma EbcdicRestored(b: Byte)
    ensures OfAscii(OfEbcdic(b)) == b
  {
    hide OfAscii, OfEbcdic;
    match b / 32 {
      case 0 => EbcdicRestored0(b);
      case 1 => EbcdicRestored1(b);
      case 2 => EbcdicRestored2(b);
      case 3 => EbcdicRestored3(b);
      case 4 => EbcdicRestored4(b);
      case 5 => EbcdicRestored5(b);
      case 6 => EbcdicRestored6(b);
      case _ => EbcdicRestored7(b);
    }
  }

  lemma AsciiRestored0(b: Byte)
    requires 0x00 <= b <= 0x1F
    ensures OfEbcdic(OfAscii(b)) == b
  {
  }

  lemma AsciiRestored1(b: Byte)
    requires 0x20 <= b <= 0x3F
    ensures OfEbcdic(OfAscii(b)) == b
  {
  }

  lemma AsciiRestored2(b: Byte)
    requires 0x40 <= b <= 0x5F
    ensures OfEbcdic(OfAscii(b)) == b
  {
  }

  lemma AsciiRestored3(b: Byte)
    requires 0x60 <= b <= 0x7F
    ensures OfEbcdic(OfAscii(b)) == b
  {
  }

  lemma AsciiRestored4(b: Byte)
    requires 0x80 <= b <= 0x9F
    ensures OfEbcdic(OfAscii(b)) == b
  {
  }

  lemma AsciiRestored5(b: Byte)
    requires 0xA0 <= b <= 0xBF
    ensures OfEbcdic(OfAscii(b)) == b
  {
  }

  lemma AsciiRestored6(b: Byte)
    requires 0xC0 <= b <= 0xDF
    ensures OfEbcdic(OfAscii(b)) == b
  {
  }

  lemma AsciiRestored7(b: Byte)
    requires 0xE0 <= b <= 0xFF
    ensures OfEbcdic(OfAscii(b)) == b
  {
  }

  /** An ASCII or Latin-1 byte survives the way to EBCDIC and back. */
  lemma AsciiRestored(b: Byte)
    ensures OfEbcdic(OfAscii(b)) == b
  {
    hide OfEbcdic, OfAscii;
    match b / 32 {
      case 0 => AsciiRestored0(b);
      case 1 => AsciiRestored1(b);
      case 2 => AsciiRestored2(b);
      case 3 => AsciiRestored3(b);
      case 4 => AsciiRestored4(b);
      case 5 => AsciiRestored5(b);
      case 6 => AsciiRestored6(b);
      case _ => AsciiRestored7(b);
    }
  }

  /** The two tables are a lossless pair, so every law about encodings holds of them. */
  lemma Lossless()
    ensures CodePage(OfEbcdic, OfAscii).Lossless()
  {
    hide OfEbcdic, OfAscii;
    forall b: Byte
      ensures OfEbcdic(OfAscii(b)) == b && OfAscii(OfEbcdic(b)) == b
    {
      EbcdicRestored(b);
      AsciiRestored(b);
    }
  }

  /** The encoding of an EBCDIC record. */
  function Cp037(): Encoding {
    Lossless();
    CodePage(OfEbcdic, OfAscii)
  }

  /** Digits have the zone F. */
  lemma DigitZone(d: nat)
    requires d < 10
    ensures OfAscii("0123456789"[d] as Byte) == 0xF0 + d
  {
  }

  /** The overpunch letters of positive numbers have the zone C. */
  lemma PositiveZone(d: nat)
    requires d < 10
    ensures OfAscii("{ABCDEFGHI"[d] as Byte) == 0xC0 + d
  {
  }

  /** The overpunch letters of negative numbers have the zone D. */
  lemma NegativeZone(d: nat)
    requires d < 10
    ensures OfAscii("}JKLMNOPQR"[d] as Byte) == 0xD0 + d
  {
  }

  /** A zoned number in EBCDIC: a digit in the low nibble of each byte, and its sign in the last zone. */
  lemma ZonedInEbcdic(value: int, width: nat, signed: bool, i: nat)
    requires Zoned.Encode(value, width, signed).Ok? && i < width
    ensures FromAscii(Zoned.Encode(value, width, signed).value, Cp037())[i]
         == (if i < width - 1 || !signed then 0xF0 else if value < 0 then 0xD0 else 0xC0)
            + Radix.PlaceDigit(10, Abs(value), width - 1 - i)
  {
    hide OfEbcdic, OfAscii, Zoned.Encode, Radix.PlaceDigit;
    Zoned.EncodeAt(value, width, signed, i);
    var d := Radix.PlaceDigit(10, Abs(value), width - 1 - i);
    DigitZone(d);
    PositiveZone(d);
    NegativeZone(d);
  }
}
