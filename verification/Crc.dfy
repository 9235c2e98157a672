/** The 16-bit frame check sequence of the link, computed with a lookup table. */
module Crc {
  type byte = bv8

  const INIT_VAL: bv16 := 0xFFFF

  /** Entry `i & 0xF` of one line of the lookup table. */
  function Pick(i: byte, e0: bv16, e1: bv16, e2: bv16, e3: bv16, e4: bv16, e5: bv16, e6: bv16, e7: bv16,
                e8: bv16, e9: bv16, eA: bv16, eB: bv16, eC: bv16, eD: bv16, eE: bv16, eF: bv16): bv16 {
    if i & 8 == 0 then
      if i & 4 == 0 then
        if i & 2 == 0 then (if i & 1 == 0 then e0 else e1) else (if i & 1 == 0 then e2 else e3)
      else
        if i & 2 == 0 then (if i & 1 == 0 then e4 else e5) else (if i & 1 == 0 then e6 else e7)
    else
      if i & 4 == 0 then
        if i & 2 == 0 then (if i & 1 == 0 then e8 else e9) else (if i & 1 == 0 then eA else eB)
      else
        if i & 2 == 0 then (if i & 1 == 0 then eC else eD) else (if i & 1 == 0 then eE else eF)
  }

  /** The lookup table: one line of sixteen entries for each high nibble of the index. */
  function TableEntry(i: byte): bv16 {
    Pick(i >> 4,
      Pick(i, 0x0000, 0x1021, 0x2042, 0x3063, 0x4084, 0x50a5, 0x60c6, 0x70e7,
              0x8108, 0x9129, 0xa14a, 0xb16b, 0xc18c, 0xd1ad, 0xe1ce, 0xf1ef),
      Pick(i, 0x1231, 0x0210, 0x3273, 0x2252, 0x52b5, 0x4294, 0x72f7, 0x62d6,
              0x9339, 0x8318, 0xb37b, 0xa35a, 0xd3bd, 0xc39c, 0xf3ff, 0xe3de),
      Pick(i, 0x2462, 0x3443, 0x0420, 0x1401, 0x64e6, 0x74c7, 0x44a4, 0x5485,
              0xa56a, 0xb54b, 0x8528, 0x9509, 0xe5ee, 0xf5cf, 0xc5ac, 0xd58d),
      Pick(i, 0x3653, 0x2672, 0x1611, 0x0630, 0x76d7, 0x66f6, 0x5695, 0x46b4,
              0xb75b, 0xa77a, 0x9719, 0x8738, 0xf7df, 0xe7fe, 0xd79d, 0xc7bc),
      Pick(i, 0x48c4, 0x58e5, 0x6886, 0x78a7, 0x0840, 0x1861, 0x2802, 0x3823,
              0xc9cc, 0xd9ed, 0xe98e, 0xf9af, 0x8948, 0x9969, 0xa90a, 0xb92b),
      Pick(i, 0x5af5, 0x4ad4, 0x7ab7, 0x6a96, 0x1a71, 0x0a50, 0x3a33, 0x2a12,
              0xdbfd, 0xcbdc, 0xfbbf, 0xeb9e, 0x9b79, 0x8b58, 0xbb3b, 0xab1a),
      Pick(i, 0x6ca6, 0x7c87, 0x4ce4, 0x5cc5, 0x2c22, 0x3c03, 0x0c60, 0x1c41,
              0xedae, 0xfd8f, 0xcdec, 0xddcd, 0xad2a, 0xbd0b, 0x8d68, 0x9d49),
      Pick(i, 0x7e97, 0x6eb6, 0x5ed5, 0x4ef4, 0x3e13, 0x2e32, 0x1e51, 0x0e70,
              0xff9f, 0xefbe, 0xdfdd, 0xcffc, 0xbf1b, 0xaf3a, 0x9f59, 0x8f78),
      Pick(i, 0x9188, 0x81a9, 0xb1ca, 0xa1eb, 0xd10c, 0xc12d, 0xf14e, 0xe16f,
              0x1080, 0x00a1, 0x30c2, 0x20e3, 0x5004, 0x4025, 0x7046, 0x6067),
      Pick(i, 0x83b9, 0x9398, 0xa3fb, 0xb3da, 0xc33d, 0xd31c, 0xe37f, 0xf35e,
              0x02b1, 0x1290, 0x22f3, 0x32d2, 0x4235, 0x5214, 0x6277, 0x7256),
      Pick(i, 0xb5ea, 0xa5cb, 0x95a8, 0x8589, 0xf56e, 0xe54f, 0xd52c, 0xc50d,
              0x34e2, 0x24c3, 0x14a0, 0x0481, 0x7466, 0x6447, 0x5424, 0x4405),
      Pick(i, 0xa7db, 0xb7fa, 0x8799, 0x97b8, 0xe75f, 0xf77e, 0xc71d, 0xd73c,
              0x26d3, 0x36f2, 0x0691, 0x16b0, 0x6657, 0x7676, 0x4615, 0x5634),
      Pick(i, 0xd94c, 0xc96d, 0xf90e, 0xe92f, 0x99c8, 0x89e9, 0xb98a, 0xa9ab,
              0x5844, 0x4865, 0x7806, 0x6827, 0x18c0, 0x08e1, 0x3882, 0x28a3),
      Pick(i, 0xcb7d, 0xdb5c, 0xeb3f, 0xfb1e, 0x8bf9, 0x9bd8, 0xabbb, 0xbb9a,
              0x4a75, 0x5a54, 0x6a37, 0x7a16, 0x0af1, 0x1ad0, 0x2ab3, 0x3a92),
      Pick(i, 0xfd2e, 0xed0f, 0xdd6c, 0xcd4d, 0xbdaa, 0xad8b, 0x9de8, 0x8dc9,
              0x7c26, 0x6c07, 0x5c64, 0x4c45, 0x3ca2, 0x2c83, 0x1ce0, 0x0cc1),
      Pick(i, 0xef1f, 0xff3e, 0xcf5d, 0xdf7c, 0xaf9b, 0xbfba, 0x8fd9, 0x9ff8,
              0x6e17, 0x7e36, 0x4e55, 0x5e74, 0x2e93, 0x3eb2, 0x0ed1, 0x1ef0))
  }

  /** One table step: the high byte of `fcs` leaves the register and comes back, mixed with `value`,
      through the table. */
  function Update(fcs: bv16, value: byte): bv16 {
    (fcs << 8) ^ TableEntry(((fcs >> 8) & 0xFF) as byte ^ value)
  }

  function CrcFrom(fcs: bv16, data: seq<byte>): bv16 {
    if data == [] then fcs else Update(CrcFrom(fcs, data[..|data| - 1]), data[|data| - 1])
  }

  function CheckSequence(data: seq<byte>): bv16 {
    CrcFrom(INIT_VAL, data)
  }

  lemma {:induction false} CrcConcat(fcs: bv16, a: seq<byte>, b: seq<byte>)
    ensures CrcFrom(fcs, a + b) == CrcFrom(CrcFrom(fcs, a), b)
  {
    if b == [] {
      assert a + b == a;
    } else {
      var n := |b| - 1;
      CrcConcat(fcs, a, b[..n]);
      assert (a + b)[..|a + b| - 1] == a + b[..n];
    }
  }

  /** The check value of this kind of check sequence: that of the nine digits in ASCII. */
  lemma CheckValue()
    ensures CheckSequence([0x31, 0x32, 0x33, 0x34, 0x35, 0x36, 0x37, 0x38, 0x39]) == 0x29B1
  {
    hide CrcFrom, Update;
    var s: seq<byte> := [0x31, 0x32, 0x33, 0x34, 0x35, 0x36, 0x37, 0x38, 0x39];
    NoData(INIT_VAL);
    UpdateValues();
    OneMore(s, 0);
    OneMore(s, 1);
    OneMore(s, 2);
    OneMore(s, 3);
    OneMore(s, 4);
    OneMore(s, 5);
    OneMore(s, 6);
    OneMore(s, 7);
    OneMore(s, 8);
    assert s[..0] == [] && s[..9] == s;
  }

  lemma NoData(fcs: bv16)
    ensures CrcFrom(fcs, []) == fcs
  {
  }

  lemma OneMore(s: seq<byte>, i: nat)
    requires i < |s|
    ensures CrcFrom(INIT_VAL, s[..i + 1]) == Update(CrcFrom(INIT_VAL, s[..i]), s[i])
  {
    hide Update;
    assert s[..i + 1][..i] == s[..i];
  }

  lemma UpdateValues()
    ensures Update(0xFFFF, 0x31) == 0xC782
    ensures Update(0xC782, 0x32) == 0x3DBA
    ensures Update(0x3DBA, 0x33) == 0x5BCE
    ensures Update(0x5BCE, 0x34) == 0x5349
    ensures Update(0x5349, 0x35) == 0x4560
    ensures Update(0x4560, 0x36) == 0x2EF4
    ensures Update(0x2EF4, 0x37) == 0x7718
    ensures Update(0x7718, 0x38) == 0xA12B
    ensures Update(0xA12B, 0x39) == 0x29B1
  {
  }
}
