/** The program's CRC table, and that its entries are remainders. */
module CrcTable {

  /** The sum of two polynomials over GF(2). */
  function Xor(a: bv16, b: bv16): bv16 {
    a ^ b
  }

  function High(r: bv16): bool {
    r & 0x8000 != 0
  }

  function Double(r: bv16): bv16 {
    r << 1
  }

  /** A remainder modulo x^16 + x^12 + x^5 + 1, times x. */
  function Shift(r: bv16): bv16 {
    if High(r) then Xor(Double(r), 0x1021) else Double(r)
  }

  /** Times x^8. */
  function Shift8(r: bv16): bv16 {
    Shift(Shift(Shift(Shift(Shift(Shift(Shift(Shift(r))))))))
  }

  /** The table, sixteen entries a row. */
  const Row0: seq<bv16> := [
    0x0000, 0x1021, 0x2042, 0x3063, 0x4084, 0x50A5, 0x60C6, 0x70E7,
    0x8108, 0x9129, 0xA14A, 0xB16B, 0xC18C, 0xD1AD, 0xE1CE, 0xF1EF
  ]

  const Row1: seq<bv16> := [
    0x1231, 0x0210, 0x3273, 0x2252, 0x52B5, 0x4294, 0x72F7, 0x62D6,
    0x9339, 0x8318, 0xB37B, 0xA35A, 0xD3BD, 0xC39C, 0xF3FF, 0xE3DE
  ]

  const Row2: seq<bv16> := [
    0x2462, 0x3443, 0x0420, 0x1401, 0x64E6, 0x74C7, 0x44A4, 0x5485,
    0xA56A, 0xB54B, 0x8528, 0x9509, 0xE5EE, 0xF5CF, 0xC5AC, 0xD58D
  ]

  const Row3: seq<bv16> := [
    0x3653, 0x2672, 0x1611, 0x0630, 0x76D7, 0x66F6, 0x5695, 0x46B4,
    0xB75B, 0xA77A, 0x9719, 0x8738, 0xF7DF, 0xE7FE, 0xD79D, 0xC7BC
  ]

  const Row4: seq<bv16> := [
    0x48C4, 0x58E5, 0x6886, 0x78A7, 0x0840, 0x1861, 0x2802, 0x3823,
    0xC9CC, 0xD9ED, 0xE98E, 0xF9AF, 0x8948, 0x9969, 0xA90A, 0xB92B
  ]

  const Row5: seq<bv16> := [
    0x5AF5, 0x4AD4, 0x7AB7, 0x6A96, 0x1A71, 0x0A50, 0x3A33, 0x2A12,
    0xDBFD, 0xCBDC, 0xFBBF, 0xEB9E, 0x9B79, 0x8B58, 0xBB3B, 0xAB1A
  ]

  const Row6: seq<bv16> := [
    0x6CA6, 0x7C87, 0x4CE4, 0x5CC5, 0x2C22, 0x3C03, 0x0C60, 0x1C41,
    0xEDAE, 0xFD8F, 0xCDEC, 0xDDCD, 0xAD2A, 0xBD0B, 0x8D68, 0x9D49
  ]

  const Row7: seq<bv16> := [
    0x7E97, 0x6EB6, 0x5ED5, 0x4EF4, 0x3E13, 0x2E32, 0x1E51, 0x0E70,
    0xFF9F, 0xEFBE, 0xDFDD, 0xCFFC, 0xBF1B, 0xAF3A, 0x9F59, 0x8F78
  ]

  const Row8: seq<bv16> := [
    0x9188, 0x81A9, 0xB1CA, 0xA1EB, 0xD10C, 0xC12D, 0xF14E, 0xE16F,
    0x1080, 0x00A1, 0x30C2, 0x20E3, 0x5004, 0x4025, 0x7046, 0x6067
  ]

  const Row9: seq<bv16> := [
    0x83B9, 0x9398, 0xA3FB, 0xB3DA, 0xC33D, 0xD31C, 0xE37F, 0xF35E,
    0x02B1, 0x1290, 0x22F3, 0x32D2, 0x4235, 0x5214, 0x6277, 0x7256
  ]

  const Row10: seq<bv16> := [
    0xB5EA, 0xA5CB, 0x95A8, 0x8589, 0xF56E, 0xE54F, 0xD52C, 0xC50D,
    0x34E2, 0x24C3, 0x14A0, 0x0481, 0x7466, 0x6447, 0x5424, 0x4405
  ]

  const Row11: seq<bv16> := [
    0xA7DB, 0xB7FA, 0x8799, 0x97B8, 0xE75F, 0xF77E, 0xC71D, 0xD73C,
    0x26D3, 0x36F2, 0x0691, 0x16B0, 0x6657, 0x7676, 0x4615, 0x5634
  ]

  const Row12: seq<bv16> := [
    0xD94C, 0xC96D, 0xF90E, 0xE92F, 0x99C8, 0x89E9, 0xB98A, 0xA9AB,
    0x5844, 0x4865, 0x7806, 0x6827, 0x18C0, 0x08E1, 0x3882, 0x28A3
  ]

  const Row13: seq<bv16> := [
    0xCB7D, 0xDB5C, 0xEB3F, 0xFB1E, 0x8BF9, 0x9BD8, 0xABBB, 0xBB9A,
    0x4A75, 0x5A54, 0x6A37, 0x7A16, 0x0AF1, 0x1AD0, 0x2AB3, 0x3A92
  ]

  const Row14: seq<bv16> := [
    0xFD2E, 0xED0F, 0xDD6C, 0xCD4D, 0xBDAA, 0xAD8B, 0x9DE8, 0x8DC9,
    0x7C26, 0x6C07, 0x5C64, 0x4C45, 0x3CA2, 0x2C83, 0x1CE0, 0x0CC1
  ]

  const Row15: seq<bv16> := [
    0xEF1F, 0xFF3E, 0xCF5D, 0xDF7C, 0xAF9B, 0xBFBA, 0x8FD9, 0x9FF8,
    0x6E17, 0x7E36, 0x4E55, 0x5E74, 0x2E93, 0x3EB2, 0x0ED1, 0x1EF0
  ]

  function Table(x: bv8): bv16 {
    var h, k := x >> 4, (x & 15) as int;
    if h == 0 then Row0[k]
    else if h == 1 then Row1[k]
    else if h == 2 then Row2[k]
    else if h == 3 then Row3[k]
    else if h == 4 then Row4[k]
    else if h == 5 then Row5[k]
    else if h == 6 then Row6[k]
    else if h == 7 then Row7[k]
    else if h == 8 then Row8[k]
    else if h == 9 then Row9[k]
    else if h == 10 then Row10[k]
    else if h == 11 then Row11[k]
    else if h == 12 then Row12[k]
    else if h == 13 then Row13[k]
    else if h == 14 then Row14[k]
    else Row15[k]
  }

  lemma Sixteen(k: bv8)
    requires k < 16
    ensures k == 0 || k == 1 || k == 2 || k == 3 || k == 4 || k == 5 || k == 6 || k == 7
         || k == 8 || k == 9 || k == 10 || k == 11 || k == 12 || k == 13 || k == 14 || k == 15
  {
  }

  lemma Row0Is(k: bv8)
    requires k < 16
    ensures Row0[k as int] == Shift8(((0 | k) as bv16) << 8)
  {
    Sixteen(k);
  }

  lemma Row1Is(k: bv8)
    requires k < 16
    ensures Row1[k as int] == Shift8(((16 | k) as bv16) << 8)
  {
    Sixteen(k);
  }

  lemma Row2Is(k: bv8)
    requires k < 16
    ensures Row2[k as int] == Shift8(((32 | k) as bv16) << 8)
  {
    Sixteen(k);
  }

  lemma Row3Is(k: bv8)
    requires k < 16
    ensures Row3[k as int] == Shift8(((48 | k) as bv16) << 8)
  {
    Sixteen(k);
  }

  lemma Row4Is(k: bv8)
    requires k < 16
    ensures Row4[k as int] == Shift8(((64 | k) as bv16) << 8)
  {
    Sixteen(k);
  }

  lemma Row5Is(k: bv8)
    requires k < 16
    ensures Row5[k as int] == Shift8(((80 | k) as bv16) << 8)
  {
    Sixteen(k);
  }

  lemma Row6Is(k: bv8)
    requires k < 16
    ensures Row6[k as int] == Shift8(((96 | k) as bv16) << 8)
  {
    Sixteen(k);
  }

  lemma Row7Is(k: bv8)
    requires k < 16
    ensures Row7[k as int] == Shift8(((112 | k) as bv16) << 8)
  {
    Sixteen(k);
  }

  lemma Row8Is(k: bv8)
    requires k < 16
    ensures Row8[k as int] == Shift8(((128 | k) as bv16) << 8)
  {
    Sixteen(k);
  }

  lemma Row9Is(k: bv8)
    requires k < 16
    ensures Row9[k as int] == Shift8(((144 | k) as bv16) << 8)
  {
    Sixteen(k);
  }

  lemma Row10Is(k: bv8)
    requires k < 16
    ensures Row10[k as int] == Shift8(((160 | k) as bv16) << 8)
  {
    Sixteen(k);
  }

  lemma Row11Is(k: bv8)
    requires k < 16
    ensures Row11[k as int] == Shift8(((176 | k) as bv16) << 8)
  {
    Sixteen(k);
  }

  lemma Row12Is(k: bv8)
    requires k < 16
    ensures Row12[k as int] == Shift8(((192 | k) as bv16) << 8)
  {
    Sixteen(k);
  }

  lemma Row13Is(k: bv8)
    requires k < 16
    ensures Row13[k as int] == Shift8(((208 | k) as bv16) << 8)
  {
    Sixteen(k);
  }

  lemma Row14Is(k: bv8)
    requires k < 16
    ensures Row14[k as int] == Shift8(((224 | k) as bv16) << 8)
  {
    Sixteen(k);
  }

  lemma Row15Is(k: bv8)
    requires k < 16
    ensures Row15[k as int] == Shift8(((240 | k) as bv16) << 8)
  {
    Sixteen(k);
  }

  /** Entry `x` is the remainder of x^16 times the polynomial `x` stands for. */
  lemma TableIs(x: bv8)
    ensures Table(x) == Shift8((x as bv16) << 8)
  {
    var h, k := x >> 4, x & 15;
    Sixteen(h);
    hide Shift8;
    if h == 0 {
      assert x == 0 | k;
      Row0Is(k);
    } else if h == 1 {
      assert x == 16 | k;
      Row1Is(k);
    } else if h == 2 {
      assert x == 32 | k;
      Row2Is(k);
    } else if h == 3 {
      assert x == 48 | k;
      Row3Is(k);
    } else if h == 4 {
      assert x == 64 | k;
      Row4Is(k);
    } else if h == 5 {
      assert x == 80 | k;
      Row5Is(k);
    } else if h == 6 {
      assert x == 96 | k;
      Row6Is(k);
    } else if h == 7 {
      assert x == 112 | k;
      Row7Is(k);
    } else if h == 8 {
      assert x == 128 | k;
      Row8Is(k);
    } else if h == 9 {
      assert x == 144 | k;
      Row9Is(k);
    } else if h == 10 {
      assert x == 160 | k;
      Row10Is(k);
    } else if h == 11 {
      assert x == 176 | k;
      Row11Is(k);
    } else if h == 12 {
      assert x == 192 | k;
      Row12Is(k);
    } else if h == 13 {
      assert x == 208 | k;
      Row13Is(k);
    } else if h == 14 {
      assert x == 224 | k;
      Row14Is(k);
    } else {
      assert x == 240 | k;
      Row15Is(k);
    }
  }
}
