/** The capacity tables, by the two bits that stand for the error correction level, and what the encoder needs of them. */
module QrTables {
  import opened QrText
  import opened QrEncoder
  import opened QrSymbol

  function RawModules(version: nat): nat {
    match version
    case 1 => 208 case 2 => 359 case 3 => 567 case 4 => 807 case 5 => 1079 case 6 => 1383 case 7 => 1568
    case 8 => 1936 case 9 => 2336 case 10 => 2768 case 11 => 3232 case 12 => 3728 case 13 => 4256
    case 14 => 4651 case 15 => 5243 case 16 => 5867 case 17 => 6523 case 18 => 7211 case 19 => 7931
    case 20 => 8683 case 21 => 9252 case 22 => 10068 case 23 => 10916 case 24 => 11796 case 25 => 12708
    case 26 => 13652 case 27 => 14628 case 28 => 15371 case 29 => 16411 case 30 => 17483 case 31 => 18587
    case 32 => 19723 case 33 => 20891 case 34 => 22091 case 35 => 23008 case 36 => 24272 case 37 => 25568
    case 38 => 26896 case 39 => 28256 case _ => 29648
  }

  function MediumCodewords(version: nat): nat {
    match version
    case 1 => 10 case 2 => 16 case 3 => 26 case 4 => 36 case 5 => 48 case 6 => 64 case 7 => 72 case 8 => 88
    case 9 => 110 case 10 => 130 case 11 => 150 case 12 => 176 case 13 => 198 case 14 => 216 case 15 => 240
    case 16 => 280 case 17 => 308 case 18 => 338 case 19 => 364 case 20 => 416 case 21 => 442 case 22 => 476
    case 23 => 504 case 24 => 560 case 25 => 588 case 26 => 644 case 27 => 700 case 28 => 728 case 29 => 784
    case 30 => 812 case 31 => 868 case 32 => 924 case 33 => 980 case 34 => 1036 case 35 => 1064 case 36 => 1120
    case 37 => 1204 case 38 => 1260 case 39 => 1316 case _ => 1372
  }

  function LowCodewords(version: nat): nat {
    match version
    case 1 => 7 case 2 => 10 case 3 => 15 case 4 => 20 case 5 => 26 case 6 => 36 case 7 => 40 case 8 => 48
    case 9 => 60 case 10 => 72 case 11 => 80 case 12 => 96 case 13 => 104 case 14 => 120 case 15 => 132
    case 16 => 144 case 17 => 168 case 18 => 180 case 19 => 196 case 20 => 224 case 21 => 224 case 22 => 252
    case 23 => 270 case 24 => 300 case 25 => 312 case 26 => 336 case 27 => 360 case 28 => 390 case 29 => 420
    case 30 => 450 case 31 => 480 case 32 => 510 case 33 => 540 case 34 => 570 case 35 => 570 case 36 => 600
    case 37 => 630 case 38 => 660 case 39 => 720 case _ => 750
  }

  function HighCodewords(version: nat): nat {
    match version
    case 1 => 17 case 2 => 28 case 3 => 44 case 4 => 64 case 5 => 88 case 6 => 112 case 7 => 130 case 8 => 156
    case 9 => 192 case 10 => 224 case 11 => 264 case 12 => 308 case 13 => 352 case 14 => 384 case 15 => 432
    case 16 => 480 case 17 => 532 case 18 => 588 case 19 => 650 case 20 => 700 case 21 => 750 case 22 => 816
    case 23 => 900 case 24 => 960 case 25 => 1050 case 26 => 1110 case 27 => 1200 case 28 => 1260
    case 29 => 1350 case 30 => 1440 case 31 => 1530 case 32 => 1620 case 33 => 1710 case 34 => 1800
    case 35 => 1890 case 36 => 1980 case 37 => 2100 case 38 => 2220 case 39 => 2310 case _ => 2430
  }

  function QuartileCodewords(version: nat): nat {
    match version
    case 1 => 13 case 2 => 22 case 3 => 36 case 4 => 52 case 5 => 72 case 6 => 96 case 7 => 108 case 8 => 132
    case 9 => 160 case 10 => 192 case 11 => 224 case 12 => 260 case 13 => 288 case 14 => 320 case 15 => 360
    case 16 => 408 case 17 => 448 case 18 => 504 case 19 => 546 case 20 => 600 case 21 => 644 case 22 => 690
    case 23 => 750 case 24 => 810 case 25 => 870 case 26 => 952 case 27 => 1020 case 28 => 1050 case 29 => 1140
    case 30 => 1200 case 31 => 1290 case 32 => 1350 case 33 => 1440 case 34 => 1530 case 35 => 1590
    case 36 => 1680 case 37 => 1770 case 38 => 1860 case 39 => 1950 case _ => 2040
  }

  function MediumBlocks(version: nat): nat {
    match version
    case 1 => 1 case 2 => 1 case 3 => 1 case 4 => 2 case 5 => 2 case 6 => 4 case 7 => 4 case 8 => 4 case 9 => 5
    case 10 => 5 case 11 => 5 case 12 => 8 case 13 => 9 case 14 => 9 case 15 => 10 case 16 => 10 case 17 => 11
    case 18 => 13 case 19 => 14 case 20 => 16 case 21 => 17 case 22 => 17 case 23 => 18 case 24 => 20
    case 25 => 21 case 26 => 23 case 27 => 25 case 28 => 26 case 29 => 28 case 30 => 29 case 31 => 31
    case 32 => 33 case 33 => 35 case 34 => 37 case 35 => 38 case 36 => 40 case 37 => 43 case 38 => 45
    case 39 => 47 case _ => 49
  }

  function LowBlocks(version: nat): nat {
    match version
    case 1 => 1 case 2 => 1 case 3 => 1 case 4 => 1 case 5 => 1 case 6 => 2 case 7 => 2 case 8 => 2 case 9 => 2
    case 10 => 4 case 11 => 4 case 12 => 4 case 13 => 4 case 14 => 4 case 15 => 6 case 16 => 6 case 17 => 6
    case 18 => 6 case 19 => 7 case 20 => 8 case 21 => 8 case 22 => 9 case 23 => 9 case 24 => 10 case 25 => 12
    case 26 => 12 case 27 => 12 case 28 => 13 case 29 => 14 case 30 => 15 case 31 => 16 case 32 => 17
    case 33 => 18 case 34 => 19 case 35 => 19 case 36 => 20 case 37 => 21 case 38 => 22 case 39 => 24
    case _ => 25
  }

  function HighBlocks(version: nat): nat {
    match version
    case 1 => 1 case 2 => 1 case 3 => 2 case 4 => 4 case 5 => 4 case 6 => 4 case 7 => 5 case 8 => 6 case 9 => 8
    case 10 => 8 case 11 => 11 case 12 => 11 case 13 => 16 case 14 => 16 case 15 => 18 case 16 => 16
    case 17 => 19 case 18 => 21 case 19 => 25 case 20 => 25 case 21 => 25 case 22 => 34 case 23 => 30
    case 24 => 32 case 25 => 35 case 26 => 37 case 27 => 40 case 28 => 42 case 29 => 45 case 30 => 48
    case 31 => 51 case 32 => 54 case 33 => 57 case 34 => 60 case 35 => 63 case 36 => 66 case 37 => 70
    case 38 => 74 case 39 => 77 case _ => 81
  }

  function QuartileBlocks(version: nat): nat {
    match version
    case 1 => 1 case 2 => 1 case 3 => 2 case 4 => 2 case 5 => 4 case 6 => 4 case 7 => 6 case 8 => 6 case 9 => 8
    case 10 => 8 case 11 => 8 case 12 => 10 case 13 => 12 case 14 => 16 case 15 => 12 case 16 => 17
    case 17 => 16 case 18 => 18 case 19 => 21 case 20 => 20 case 21 => 23 case 22 => 23 case 23 => 25
    case 24 => 27 case 25 => 29 case 26 => 34 case 27 => 34 case 28 => 35 case 29 => 38 case 30 => 40
    case 31 => 43 case 32 => 45 case 33 => 48 case 34 => 51 case 35 => 53 case 36 => 56 case 37 => 59
    case 38 => 62 case 39 => 65 case _ => 68
  }

  /** The row for a level and a version. */
  function RowOf(ecc: nat, version: nat): Row
    requires ecc < 4 && 1 <= version <= 40
  {
    match ecc
    case 0 => Row(RawModules(version), MediumCodewords(version), MediumBlocks(version))
    case 1 => Row(RawModules(version), LowCodewords(version), LowBlocks(version))
    case 2 => Row(RawModules(version), HighCodewords(version), HighBlocks(version))
    case _ => Row(RawModules(version), QuartileCodewords(version), QuartileBlocks(version))
  }

  lemma MediumFrom1(version: nat)
    requires 1 <= version < 9
    ensures RowOf(0, version).Valid(version)
  {
  }

  lemma MediumFrom9(version: nat)
    requires 9 <= version < 17
    ensures RowOf(0, version).Valid(version)
  {
  }

  lemma MediumFrom17(version: nat)
    requires 17 <= version < 24
    ensures RowOf(0, version).Valid(version)
  {
  }

  lemma MediumFrom24(version: nat)
    requires 24 <= version < 30
    ensures RowOf(0, version).Valid(version)
  {
  }

  lemma MediumFrom30(version: nat)
    requires 30 <= version < 35
    ensures RowOf(0, version).Valid(version)
  {
  }

  lemma MediumFrom35(version: nat)
    requires 35 <= version < 41
    ensures RowOf(0, version).Valid(version)
  {
  }

  lemma LowFrom1(version: nat)
    requires 1 <= version < 9
    ensures RowOf(1, version).Valid(version)
  {
  }

  lemma LowFrom9(version: nat)
    requires 9 <= version < 17
    ensures RowOf(1, version).Valid(version)
  {
  }

  lemma LowFrom17(version: nat)
    requires 17 <= version < 24
    ensures RowOf(1, version).Valid(version)
  {
  }

  lemma LowFrom24(version: nat)
    requires 24 <= version < 30
    ensures RowOf(1, version).Valid(version)
  {
  }

  lemma LowFrom30(version: nat)
    requires 30 <= version < 35
    ensures RowOf(1, version).Valid(version)
  {
  }

  lemma LowFrom35(version: nat)
    requires 35 <= version < 41
    ensures RowOf(1, version).Valid(version)
  {
  }

  lemma HighFrom1(version: nat)
    requires 1 <= version < 9
    ensures RowOf(2, version).Valid(version)
  {
  }

  lemma HighFrom9(version: nat)
    requires 9 <= version < 17
    ensures RowOf(2, version).Valid(version)
  {
  }

  lemma HighFrom17(version: nat)
    requires 17 <= version < 24
    ensures RowOf(2, version).Valid(version)
  {
  }

  lemma HighFrom24(version: nat)
    requires 24 <= version < 30
    ensures RowOf(2, version).Valid(version)
  {
  }

  lemma HighFrom30(version: nat)
    requires 30 <= version < 35
    ensures RowOf(2, version).Valid(version)
  {
  }

  lemma HighFrom35(version: nat)
    requires 35 <= version < 41
    ensures RowOf(2, version).Valid(version)
  {
  }

  lemma QuartileFrom1(version: nat)
    requires 1 <= version < 9
    ensures RowOf(3, version).Valid(version)
  {
  }

  lemma QuartileFrom9(version: nat)
    requires 9 <= version < 17
    ensures RowOf(3, version).Valid(version)
  {
  }

  lemma QuartileFrom17(version: nat)
    requires 17 <= version < 24
    ensures RowOf(3, version).Valid(version)
  {
  }

  lemma QuartileFrom24(version: nat)
    requires 24 <= version < 30
    ensures RowOf(3, version).Valid(version)
  {
  }

  lemma QuartileFrom30(version: nat)
    requires 30 <= version < 35
    ensures RowOf(3, version).Valid(version)
  {
  }

  lemma QuartileFrom35(version: nat)
    requires 35 <= version < 41
    ensures RowOf(3, version).Valid(version)
  {
  }

  /** Every row of the tables has the relations that the encoder relies on. */
  lemma RowsValid(ecc: nat, version: nat)
    requires ecc < 4 && 1 <= version <= 40
    ensures RowOf(ecc, version).Valid(version)
  {
    hide RowOf;
    match ecc
    case 0 =>
      if version < 9 { MediumFrom1(version); } else if version < 17 { MediumFrom9(version); }
      else if version < 24 { MediumFrom17(version); } else if version < 30 { MediumFrom24(version); }
      else if version < 35 { MediumFrom30(version); } else { MediumFrom35(version); }
    case 1 =>
      if version < 9 { LowFrom1(version); } else if version < 17 { LowFrom9(version); }
      else if version < 24 { LowFrom17(version); } else if version < 30 { LowFrom24(version); }
      else if version < 35 { LowFrom30(version); } else { LowFrom35(version); }
    case 2 =>
      if version < 9 { HighFrom1(version); } else if version < 17 { HighFrom9(version); }
      else if version < 24 { HighFrom17(version); } else if version < 30 { HighFrom24(version); }
      else if version < 35 { HighFrom30(version); } else { HighFrom35(version); }
    case _ =>
      if version < 9 { QuartileFrom1(version); } else if version < 17 { QuartileFrom9(version); }
      else if version < 24 { QuartileFrom17(version); } else if version < 30 { QuartileFrom24(version); }
      else if version < 35 { QuartileFrom30(version); } else { QuartileFrom35(version); }
  }

  // ----- the levels

  /** More check words, and so less data, from level to level: low is 1, medium 0, quartile 3 and high 2. */
  predicate InOrder(version: nat)
    requires 1 <= version <= 40
  {
    RowOf(1, version).totalEcc < RowOf(0, version).totalEcc < RowOf(3, version).totalEcc < RowOf(2, version).totalEcc
  }

  lemma InOrderFrom1(version: nat)
    requires 1 <= version < 11
    ensures InOrder(version)
  {
  }

  lemma InOrderFrom11(version: nat)
    requires 11 <= version < 21
    ensures InOrder(version)
  {
  }

  lemma InOrderFrom21(version: nat)
    requires 21 <= version < 31
    ensures InOrder(version)
  {
  }

  lemma InOrderFrom31(version: nat)
    requires 31 <= version < 41
    ensures InOrder(version)
  {
  }

  lemma LevelsInOrder(version: nat)
    requires 1 <= version <= 40
    ensures InOrder(version)
  {
    hide InOrder;
    if version < 11 { InOrderFrom1(version); } else if version < 21 { InOrderFrom11(version); }
    else if version < 31 { InOrderFrom21(version); } else { InOrderFrom31(version); }
  }

  // ----- the modules for codewords

  /** The alignment patterns on a side. */
  function OnSide(version: nat): nat { if version < 2 then 0 else version / 7 + 2 }

  /** All modules, less the finders with their borders and format bits, the timing lines, the alignment patterns (of which
      three would stand on finders and those in row or column 6 share five modules with the timing lines) and, from
      version 7 on, the version bits. */
  function FreeModules(version: nat): int {
    var size, a := 17 + 4 * version, OnSide(version);
    size * size - 3 * 64 - 31 - 2 * (size - 16)
    - (if a > 0 then 25 * (a * a - 3) - 2 * 5 * (a - 2) else 0)
    - (if version >= 7 then 36 else 0)
  }

  lemma RawModulesFrom1(version: nat)
    requires 1 <= version < 7
    ensures RawModules(version) == FreeModules(version)
  {
    if version == 1 {} else if version == 2 {} else if version == 3 {} else if version == 4 {} else if version == 5 {}
  }

  lemma RawModulesFrom7(version: nat)
    requires 7 <= version < 14
    ensures RawModules(version) == FreeModules(version)
  {
    if version == 7 {} else if version == 8 {} else if version == 9 {} else if version == 10 {} else if version == 11 {} else if version == 12 {}
  }

  lemma RawModulesFrom14(version: nat)
    requires 14 <= version < 21
    ensures RawModules(version) == FreeModules(version)
  {
    if version == 14 {} else if version == 15 {} else if version == 16 {} else if version == 17 {} else if version == 18 {} else if version == 19 {}
  }

  lemma RawModulesFrom21(version: nat)
    requires 21 <= version < 28
    ensures RawModules(version) == FreeModules(version)
  {
    if version == 21 {} else if version == 22 {} else if version == 23 {} else if version == 24 {} else if version == 25 {} else if version == 26 {}
  }

  lemma RawModulesFrom28(version: nat)
    requires 28 <= version < 35
    ensures RawModules(version) == FreeModules(version)
  {
    if version == 28 {} else if version == 29 {} else if version == 30 {} else if version == 31 {} else if version == 32 {} else if version == 33 {}
  }

  lemma RawModulesFrom35(version: nat)
    requires 35 <= version < 41
    ensures RawModules(version) == FreeModules(version)
  {
    if version == 35 {} else if version == 36 {} else if version == 37 {} else if version == 38 {} else if version == 39 {}
  }

  /** The first table counts what the function patterns leave free. */
  lemma RawModulesIs(version: nat)
    requires 1 <= version <= 40
    ensures RawModules(version) == FreeModules(version)
  {
    hide RawModules, FreeModules;
    if version < 7 { RawModulesFrom1(version); } else if version < 14 { RawModulesFrom7(version); }
    else if version < 21 { RawModulesFrom14(version); } else if version < 28 { RawModulesFrom21(version); }
    else if version < 35 { RawModulesFrom28(version); } else { RawModulesFrom35(version); }
  }

  // ----- a text that stays in the buffer and does not fit

  /** Twenty bytes of value 200. */
  function Twenty(): Text { seq(20, _ => 200) }

  /** At the highest correction level of version 1 their bits and the padding stay within the buffer of 208 bits, of which
      only 72 are data. */
  lemma InBufferNotFitting()
    ensures RowOf(2, 1).Valid(1) && InBuffer(Twenty(), 1, RowOf(2, 1)) && !Fits(Twenty(), 1, RowOf(2, 1))
  {
    hide RowOf, TextBits, Padding, Twenty;
    HighFrom1(1);
    SmallRow();
    TwentyBits();
    FourZeros();
  }

  lemma SmallRow()
    ensures RowOf(2, 1) == Row(208, 17, 1)
  {
  }

  lemma FourZeros()
    ensures |Padding(172, 9)| == 4
  {
  }

  lemma TwentyBits()
    ensures |TextBits(Twenty(), 1)| == 172
  {
    var t := Twenty();
    assert AlphanumericValue(t[0]) < 0 && !IsDigit(t[0]);
    assert ModeOf(t) == Bytes;
    hide ByteBits, TextBits;
    ByteSize(t);
    TwentyLength(t);
  }

  lemma TwentyLength(t: Text)
    requires ModeOf(t) == Bytes && |t| == 20 && |ByteBits(t)| == 160
    ensures |TextBits(t, 1)| == 172
  {
    hide ByteBits, ModeOf;
  }
}
