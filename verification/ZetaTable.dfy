/**
 * The Montgomery twiddle table of solomon-core/src/crypto/poly.rs: entry k is 2^32 * 1753^rev(k), rev
 * reversing eight bits. From that, the facts the transform needs: the table is a tree of square
 * roots of -1, and mirrored entries are negative inverses.
 */
module ZetaTable {
  import opened Congruence
  import opened MlDsaScalar
  import opened Goldilocks
  import opened BitReversal

  function Zetas0(k: nat): Unit
  {
    if k == 0 then 4193792 else if k == 1 then 25847 else if k == 2 then 5771523 else if k == 3 then 7861508 else
    if k == 4 then 237124 else if k == 5 then 7602457 else if k == 6 then 7504169 else if k == 7 then 466468 else
    if k == 8 then 1826347 else if k == 9 then 2353451 else if k == 10 then 8021166 else if k == 11 then 6288512 else
    if k == 12 then 3119733 else if k == 13 then 5495562 else if k == 14 then 3111497 else 2680103
  }

  function Zetas1(k: nat): Unit
  {
    if k == 0 then 2725464 else if k == 1 then 1024112 else if k == 2 then 7300517 else if k == 3 then 3585928 else
    if k == 4 then 7830929 else if k == 5 then 7260833 else if k == 6 then 2619752 else if k == 7 then 6271868 else
    if k == 8 then 6262231 else if k == 9 then 4520680 else if k == 10 then 6980856 else if k == 11 then 5102745 else
    if k == 12 then 1757237 else if k == 13 then 8360995 else if k == 14 then 4010497 else 280005
  }

  function Zetas2(k: nat): Unit
  {
    if k == 0 then 2706023 else if k == 1 then 95776 else if k == 2 then 3077325 else if k == 3 then 3530437 else
    if k == 4 then 6718724 else if k == 5 then 4788269 else if k == 6 then 5842901 else if k == 7 then 3915439 else
    if k == 8 then 4519302 else if k == 9 then 5336701 else if k == 10 then 3574422 else if k == 11 then 5512770 else
    if k == 12 then 3539968 else if k == 13 then 8079950 else if k == 14 then 2348700 else 7841118
  }

  function Zetas3(k: nat): Unit
  {
    if k == 0 then 6681150 else if k == 1 then 6736599 else if k == 2 then 3505694 else if k == 3 then 4558682 else
    if k == 4 then 3507263 else if k == 5 then 6239768 else if k == 6 then 6779997 else if k == 7 then 3699596 else
    if k == 8 then 811944 else if k == 9 then 531354 else if k == 10 then 954230 else if k == 11 then 3881043 else
    if k == 12 then 3900724 else if k == 13 then 5823537 else if k == 14 then 2071892 else 5582638
  }

  function Zetas4(k: nat): Unit
  {
    if k == 0 then 4450022 else if k == 1 then 6851714 else if k == 2 then 4702672 else if k == 3 then 5339162 else
    if k == 4 then 6927966 else if k == 5 then 3475950 else if k == 6 then 2176455 else if k == 7 then 6795196 else
    if k == 8 then 7122806 else if k == 9 then 1939314 else if k == 10 then 4296819 else if k == 11 then 7380215 else
    if k == 12 then 5190273 else if k == 13 then 5223087 else if k == 14 then 4747489 else 126922
  }

  function Zetas5(k: nat): Unit
  {
    if k == 0 then 3412210 else if k == 1 then 7396998 else if k == 2 then 2147896 else if k == 3 then 2715295 else
    if k == 4 then 5412772 else if k == 5 then 4686924 else if k == 6 then 7969390 else if k == 7 then 5903370 else
    if k == 8 then 7709315 else if k == 9 then 7151892 else if k == 10 then 8357436 else if k == 11 then 7072248 else
    if k == 12 then 7998430 else if k == 13 then 1349076 else if k == 14 then 1852771 else 6949987
  }

  function Zetas6(k: nat): Unit
  {
    if k == 0 then 5037034 else if k == 1 then 264944 else if k == 2 then 508951 else if k == 3 then 3097992 else
    if k == 4 then 44288 else if k == 5 then 7280319 else if k == 6 then 904516 else if k == 7 then 3958618 else
    if k == 8 then 4656075 else if k == 9 then 8371839 else if k == 10 then 1653064 else if k == 11 then 5130689 else
    if k == 12 then 2389356 else if k == 13 then 8169440 else if k == 14 then 759969 else 7063561
  }

  function Zetas7(k: nat): Unit
  {
    if k == 0 then 189548 else if k == 1 then 4827145 else if k == 2 then 3159746 else if k == 3 then 6529015 else
    if k == 4 then 5971092 else if k == 5 then 8202977 else if k == 6 then 1315589 else if k == 7 then 1341330 else
    if k == 8 then 1285669 else if k == 9 then 6795489 else if k == 10 then 7567685 else if k == 11 then 6940675 else
    if k == 12 then 5361315 else if k == 13 then 4499357 else if k == 14 then 4751448 else 3839961
  }

  function Zetas8(k: nat): Unit
  {
    if k == 0 then 2091667 else if k == 1 then 3407706 else if k == 2 then 2316500 else if k == 3 then 3817976 else
    if k == 4 then 5037939 else if k == 5 then 2244091 else if k == 6 then 5933984 else if k == 7 then 4817955 else
    if k == 8 then 266997 else if k == 9 then 2434439 else if k == 10 then 7144689 else if k == 11 then 3513181 else
    if k == 12 then 4860065 else if k == 13 then 4621053 else if k == 14 then 7183191 else 5187039
  }

  function Zetas9(k: nat): Unit
  {
    if k == 0 then 900702 else if k == 1 then 1859098 else if k == 2 then 909542 else if k == 3 then 819034 else
    if k == 4 then 495491 else if k == 5 then 6767243 else if k == 6 then 8337157 else if k == 7 then 7857917 else
    if k == 8 then 7725090 else if k == 9 then 5257975 else if k == 10 then 2031748 else if k == 11 then 3207046 else
    if k == 12 then 4823422 else if k == 13 then 7855319 else if k == 14 then 7611795 else 4784579
  }

  function Zetas10(k: nat): Unit
  {
    if k == 0 then 342297 else if k == 1 then 286988 else if k == 2 then 5942594 else if k == 3 then 4108315 else
    if k == 4 then 3437287 else if k == 5 then 5038140 else if k == 6 then 1735879 else if k == 7 then 203044 else
    if k == 8 then 2842341 else if k == 9 then 2691481 else if k == 10 then 5790267 else if k == 11 then 1265009 else
    if k == 12 then 4055324 else if k == 13 then 1247620 else if k == 14 then 2486353 else 1595974
  }

  function Zetas11(k: nat): Unit
  {
    if k == 0 then 4613401 else if k == 1 then 1250494 else if k == 2 then 2635921 else if k == 3 then 4832145 else
    if k == 4 then 5386378 else if k == 5 then 1869119 else if k == 6 then 1903435 else if k == 7 then 7329447 else
    if k == 8 then 7047359 else if k == 9 then 1237275 else if k == 10 then 5062207 else if k == 11 then 6950192 else
    if k == 12 then 7929317 else if k == 13 then 1312455 else if k == 14 then 3306115 else 6417775
  }

  function Zetas12(k: nat): Unit
  {
    if k == 0 then 7100756 else if k == 1 then 1917081 else if k == 2 then 5834105 else if k == 3 then 7005614 else
    if k == 4 then 1500165 else if k == 5 then 777191 else if k == 6 then 2235880 else if k == 7 then 3406031 else
    if k == 8 then 7838005 else if k == 9 then 5548557 else if k == 10 then 6709241 else if k == 11 then 6533464 else
    if k == 12 then 5796124 else if k == 13 then 4656147 else if k == 14 then 594136 else 4603424
  }

  function Zetas13(k: nat): Unit
  {
    if k == 0 then 6366809 else if k == 1 then 2432395 else if k == 2 then 2454455 else if k == 3 then 8215696 else
    if k == 4 then 1957272 else if k == 5 then 3369112 else if k == 6 then 185531 else if k == 7 then 7173032 else
    if k == 8 then 5196991 else if k == 9 then 162844 else if k == 10 then 1616392 else if k == 11 then 3014001 else
    if k == 12 then 810149 else if k == 13 then 1652634 else if k == 14 then 4686184 else 6581310
  }

  function Zetas14(k: nat): Unit
  {
    if k == 0 then 5341501 else if k == 1 then 3523897 else if k == 2 then 3866901 else if k == 3 then 269760 else
    if k == 4 then 2213111 else if k == 5 then 7404533 else if k == 6 then 1717735 else if k == 7 then 472078 else
    if k == 8 then 7953734 else if k == 9 then 1723600 else if k == 10 then 6577327 else if k == 11 then 1910376 else
    if k == 12 then 6712985 else if k == 13 then 7276084 else if k == 14 then 8119771 else 4546524
  }

  function Zetas15(k: nat): Unit
  {
    if k == 0 then 5441381 else if k == 1 then 6144432 else if k == 2 then 7959518 else if k == 3 then 6094090 else
    if k == 4 then 183443 else if k == 5 then 7403526 else if k == 6 then 1612842 else if k == 7 then 4834730 else
    if k == 8 then 7826001 else if k == 9 then 3919660 else if k == 10 then 8332111 else if k == 11 then 7018208 else
    if k == 12 then 3937738 else if k == 13 then 1400424 else if k == 14 then 7534263 else 1976782
  }

  /** ZETAS[k]; the transforms do not use entry 0. */
  function Zeta(k: nat): Unit
    requires k < 256
  {
    var row, col := k / 16, k % 16;
    if row < 8 then
      if row < 4 then
        if row < 2 then (if row == 0 then Zetas0(col) else Zetas1(col))
        else (if row == 2 then Zetas2(col) else Zetas3(col))
      else
        if row < 6 then (if row == 4 then Zetas4(col) else Zetas5(col))
        else (if row == 6 then Zetas6(col) else Zetas7(col))
    else
      if row < 12 then
        if row < 10 then (if row == 8 then Zetas8(col) else Zetas9(col))
        else (if row == 10 then Zetas10(col) else Zetas11(col))
      else
        if row < 14 then (if row == 12 then Zetas12(col) else Zetas13(col))
        else (if row == 14 then Zetas14(col) else Zetas15(col))
  }

  // ----- products of entries

  /** Entry stage + j is the product of entries stage and j (in Montgomery form). */
  ghost predicate Splits(stage: nat, j: nat)
    requires stage <= 128 && j < stage
  {
    Cong(MONT * Zeta(stage + j), Zeta(stage) * Zeta(j), Q)
  }

  lemma SplitAt(stage: nat, j: nat, k: nat, a: Zq, b: Zq, c: Zq, i: int)
    requires stage <= 128 && j < stage && k == stage + j && Zeta(stage) == a && Zeta(j) == b && Zeta(k) == c
    requires a * b == MONT * c + i * Q
    ensures Splits(stage, j)
  {
    hide Zeta;
    CongIntro(a * b, MONT * c, i, Q);
  }

  lemma Splits1(j: nat)
    requires 0 <= j < 1
    ensures Splits(1, j)
  {
    hide Splits;
    SplitAt(1, 0, 1, 25847, 4193792, 25847, 0);
  }

  lemma Splits2(j: nat)
    requires 0 <= j < 2
    ensures Splits(2, j)
  {
    hide Splits;
    if j == 0 {
      SplitAt(2, 0, 2, 5771523, 4193792, 5771523, 0);
    } else {
      SplitAt(2, 1, 3, 5771523, 25847, 7861508, -3916315);
    }
  }

  lemma Splits4(j: nat)
    requires 0 <= j < 4
    ensures Splits(4, j)
  {
    hide Splits;
    if j == 0 {
      SplitAt(4, 0, 4, 237124, 4193792, 237124, 0);
    } else if j == 1 {
      SplitAt(4, 1, 5, 237124, 25847, 7602457, -3803748);
    } else if j == 2 {
      SplitAt(4, 2, 6, 237124, 5771523, 7504169, -3591988);
    } else {
      SplitAt(4, 3, 7, 237124, 7861508, 466468, -10992);
    }
  }

  lemma Splits8(j: nat)
    requires 0 <= j < 8
    ensures Splits(8, j)
  {
    hide Splits;
    if j == 0 {
      SplitAt(8, 0, 8, 1826347, 4193792, 1826347, 0);
    } else if j == 1 {
      SplitAt(8, 1, 9, 1826347, 25847, 2353451, -1172099);
    } else if j == 2 {
      SplitAt(8, 2, 10, 1826347, 5771523, 8021166, -2756223);
    } else if j == 3 {
      SplitAt(8, 3, 11, 1826347, 7861508, 6288512, -1433684);
    } else if j == 4 {
      SplitAt(8, 4, 12, 1826347, 237124, 3119733, -1509524);
    } else if j == 5 {
      SplitAt(8, 5, 13, 1826347, 7602457, 5495562, -1093325);
    } else if j == 6 {
      SplitAt(8, 6, 14, 1826347, 7504169, 3111497, 78307);
    } else {
      SplitAt(8, 7, 15, 1826347, 466468, 2680103, -1239540);
    }
  }

  lemma Splits16(j: nat)
    requires 0 <= j < 16
    ensures Splits(16, j)
  {
    hide Splits;
    if j == 0 {
      SplitAt(16, 0, 16, 2725464, 4193792, 2725464, 0);
    } else if j == 1 {
      SplitAt(16, 1, 17, 2725464, 25847, 1024112, -504088);
    } else if j == 2 {
      SplitAt(16, 2, 18, 2725464, 5771523, 7300517, -1776376);
    } else if j == 3 {
      SplitAt(16, 3, 19, 2725464, 7861508, 3585928, 762208);
    } else if j == 4 {
      SplitAt(16, 4, 20, 2725464, 237124, 7830929, -3841696);
    } else if j == 5 {
      SplitAt(16, 5, 21, 2725464, 7602457, 7260833, -1161064);
    } else if j == 6 {
      SplitAt(16, 6, 22, 2725464, 7504169, 2619752, 1129496);
    } else if j == 7 {
      SplitAt(16, 7, 23, 2725464, 466468, 6271868, -2986912);
    } else if j == 8 {
      SplitAt(16, 8, 24, 2725464, 1826347, 6262231, -2539832);
    } else if j == 9 {
      SplitAt(16, 9, 25, 2725464, 2353451, 4520680, -1496888);
    } else if j == 10 {
      SplitAt(16, 10, 26, 2725464, 8021166, 6980856, -884784);
    } else if j == 11 {
      SplitAt(16, 11, 27, 2725464, 6288512, 5102745, -508416);
    } else if j == 12 {
      SplitAt(16, 12, 28, 2725464, 3119733, 1757237, 135224);
    } else if j == 13 {
      SplitAt(16, 13, 29, 2725464, 5495562, 8360995, -2396816);
    } else if j == 14 {
      SplitAt(16, 14, 30, 2725464, 3111497, 4010497, -995048);
    } else {
      SplitAt(16, 15, 31, 2725464, 2680103, 280005, 731496);
    }
  }

  lemma Splits32_0(j: nat)
    requires 0 <= j < 16
    ensures Splits(32, j)
  {
    hide Splits;
    if j == 0 {
      SplitAt(32, 0, 32, 2706023, 4193792, 2706023, 0);
    } else if j == 1 {
      SplitAt(32, 1, 33, 2706023, 25847, 95776, -39583);
    } else if j == 2 {
      SplitAt(32, 2, 34, 2706023, 5771523, 3077325, 323637);
    } else if j == 3 {
      SplitAt(32, 3, 35, 2706023, 7861508, 3530437, 771740);
    } else if j == 4 {
      SplitAt(32, 4, 36, 2706023, 237124, 6718724, -3285668);
    } else if j == 5 {
      SplitAt(32, 5, 37, 2706023, 7602457, 4788269, 58639);
    } else if j == 6 {
      SplitAt(32, 6, 38, 2706023, 7504169, 5842901, -500865);
    } else if j == 7 {
      SplitAt(32, 7, 39, 2706023, 466468, 3915439, -1808772);
    } else if j == 8 {
      SplitAt(32, 8, 40, 2706023, 1826347, 4519302, -1671859);
    } else if j == 9 {
      SplitAt(32, 9, 41, 2706023, 2353451, 5336701, -1910707);
    } else if j == 10 {
      SplitAt(32, 10, 42, 2706023, 8021166, 3574422, 801282);
    } else if j == 11 {
      SplitAt(32, 11, 43, 2706023, 6288512, 5512770, -728192);
    } else if j == 12 {
      SplitAt(32, 12, 44, 2706023, 3119733, 3539968, -764141);
    } else if j == 13 {
      SplitAt(32, 13, 45, 2706023, 5495562, 8079950, -2268922);
    } else if j == 14 {
      SplitAt(32, 14, 46, 2706023, 3111497, 2348700, -170657);
    } else {
      SplitAt(32, 15, 47, 2706023, 2680103, 7841118, -3058511);
    }
  }

  lemma Splits32_1(j: nat)
    requires 16 <= j < 32
    ensures Splits(32, j)
  {
    hide Splits;
    if j == 16 {
      SplitAt(32, 16, 48, 2706023, 2725464, 6681150, -2463384);
    } else if j == 17 {
      SplitAt(32, 17, 49, 2706023, 1024112, 6736599, -3040496);
    } else if j == 18 {
      SplitAt(32, 18, 50, 2706023, 7300517, 3505694, 602979);
    } else if j == 19 {
      SplitAt(32, 19, 51, 2706023, 3585928, 4558682, -1123400);
    } else if j == 20 {
      SplitAt(32, 20, 52, 2706023, 7830929, 3507263, 773463);
    } else if j == 21 {
      SplitAt(32, 21, 53, 2706023, 7260833, 6239768, -778041);
    } else if j == 22 {
      SplitAt(32, 22, 54, 2706023, 2619752, 6779997, -2546984);
    } else if j == 23 {
      SplitAt(32, 23, 55, 2706023, 6271868, 3699596, 173796);
    } else if j == 24 {
      SplitAt(32, 24, 56, 2706023, 6262231, 811944, 1615745);
    } else if j == 25 {
      SplitAt(32, 25, 57, 2706023, 4520680, 531354, 1193816);
    } else if j == 26 {
      SplitAt(32, 26, 58, 2706023, 6980856, 954230, 1776584);
    } else if j == 27 {
      SplitAt(32, 27, 59, 2706023, 5102745, 3881043, -294513);
    } else if j == 28 {
      SplitAt(32, 28, 60, 2706023, 1757237, 3900724, -1384621);
    } else if j == 29 {
      SplitAt(32, 29, 61, 2706023, 8360995, 5823537, -214507);
    } else if j == 30 {
      SplitAt(32, 30, 62, 2706023, 4010497, 2071892, 258151);
    } else {
      SplitAt(32, 31, 63, 2706023, 280005, 5582638, -2703293);
    }
  }

  lemma Splits64_0(j: nat)
    requires 0 <= j < 16
    ensures Splits(64, j)
  {
    hide Splits;
    if j == 0 {
      SplitAt(64, 0, 64, 4450022, 4193792, 4450022, 0);
    } else if j == 1 {
      SplitAt(64, 1, 65, 4450022, 25847, 6851714, -3415062);
    } else if j == 2 {
      SplitAt(64, 2, 66, 4450022, 5771523, 4702672, 711346);
    } else if j == 3 {
      SplitAt(64, 3, 67, 4450022, 7861508, 5339162, 1502616);
    } else if j == 4 {
      SplitAt(64, 4, 68, 4450022, 237124, 6927966, -3341032);
    } else if j == 5 {
      SplitAt(64, 5, 69, 4450022, 7602457, 3475950, 2297462);
    } else if j == 6 {
      SplitAt(64, 6, 70, 4450022, 7504169, 2176455, 2895574);
    } else if j == 7 {
      SplitAt(64, 7, 71, 4450022, 466468, 6795196, -3152808);
    } else if j == 8 {
      SplitAt(64, 8, 72, 4450022, 1826347, 7122806, -2594654);
    } else if j == 9 {
      SplitAt(64, 9, 73, 4450022, 2353451, 1939314, 279202);
    } else if j == 10 {
      SplitAt(64, 10, 74, 4450022, 8021166, 4296819, 2109012);
    } else if j == 11 {
      SplitAt(64, 11, 75, 4450022, 6288512, 7380215, -354048);
    } else if j == 12 {
      SplitAt(64, 12, 76, 4450022, 3119733, 5190273, -940770);
    } else if j == 13 {
      SplitAt(64, 13, 77, 4450022, 5495562, 5223087, 304380);
    } else if j == 14 {
      SplitAt(64, 14, 78, 4450022, 3111497, 4747489, -723562);
    } else {
      SplitAt(64, 15, 79, 4450022, 2680103, 126922, 1359626);
    }
  }

  lemma Splits64_1(j: nat)
    requires 16 <= j < 32
    ensures Splits(64, j)
  {
    hide Splits;
    if j == 16 {
      SplitAt(64, 16, 80, 4450022, 2725464, 3412210, -260336);
    } else if j == 17 {
      SplitAt(64, 17, 81, 4450022, 1024112, 7396998, -3157856);
    } else if j == 18 {
      SplitAt(64, 18, 82, 4450022, 7300517, 2147896, 2801726);
    } else if j == 19 {
      SplitAt(64, 19, 83, 4450022, 3585928, 2715295, 545328);
    } else if j == 20 {
      SplitAt(64, 20, 84, 4450022, 7830929, 5412772, 1449542);
    } else if j == 21 {
      SplitAt(64, 21, 85, 4450022, 7260833, 4686924, 1510054);
    } else if j == 22 {
      SplitAt(64, 22, 86, 4450022, 2619752, 7969390, -2597008);
    } else if j == 23 {
      SplitAt(64, 23, 87, 4450022, 6271868, 5903370, 376168);
    } else if j == 24 {
      SplitAt(64, 24, 88, 4450022, 6262231, 7709315, -532694);
    } else if j == 25 {
      SplitAt(64, 25, 89, 4450022, 4520680, 7151892, -1178512);
    } else if j == 26 {
      SplitAt(64, 26, 90, 4450022, 6980856, 8357436, -475440);
    } else if j == 27 {
      SplitAt(64, 27, 91, 4450022, 5102745, 7072248, -829578);
    } else if j == 28 {
      SplitAt(64, 28, 92, 4450022, 1757237, 7998430, -3069538);
    } else if j == 29 {
      SplitAt(64, 29, 93, 4450022, 8360995, 1349076, 3764594);
    } else if j == 30 {
      SplitAt(64, 30, 94, 4450022, 4010497, 1852771, 1202406);
    } else {
      SplitAt(64, 31, 95, 4450022, 280005, 6949987, -3329282);
    }
  }

  lemma Splits64_2(j: nat)
    requires 32 <= j < 48
    ensures Splits(64, j)
  {
    hide Splits;
    if j == 32 {
      SplitAt(64, 32, 96, 4450022, 2706023, 5037034, -1083766);
    } else if j == 33 {
      SplitAt(64, 33, 97, 4450022, 95776, 264944, -81728);
    } else if j == 34 {
      SplitAt(64, 34, 98, 4450022, 3077325, 508951, 1379374);
    } else if j == 35 {
      SplitAt(64, 35, 99, 4450022, 3530437, 3097992, 324350);
    } else if j == 36 {
      SplitAt(64, 36, 100, 4450022, 6718724, 44288, 3545496);
    } else if j == 37 {
      SplitAt(64, 37, 101, 4450022, 4788269, 7280319, -1100690);
    } else if j == 38 {
      SplitAt(64, 38, 102, 4450022, 5842901, 904516, 2649950);
    } else if j == 39 {
      SplitAt(64, 39, 103, 4450022, 3915439, 3958618, 98106);
    } else if j == 40 {
      SplitAt(64, 40, 104, 4450022, 4519302, 4656075, 69732);
    } else if j == 41 {
      SplitAt(64, 41, 105, 4450022, 5336701, 8371839, -1355698);
    } else if j == 42 {
      SplitAt(64, 42, 106, 4450022, 3574422, 1653064, 1070788);
    } else if j == 43 {
      SplitAt(64, 43, 107, 4450022, 5512770, 5130689, 359756);
    } else if j == 44 {
      SplitAt(64, 44, 108, 4450022, 3539968, 2389356, 684032);
    } else if j == 45 {
      SplitAt(64, 45, 109, 4450022, 8079950, 8169440, 202260);
    } else if j == 46 {
      SplitAt(64, 46, 110, 4450022, 2348700, 759969, 866856);
    } else {
      SplitAt(64, 47, 111, 4450022, 7841118, 7063561, 628852);
    }
  }

  lemma Splits64_3(j: nat)
    requires 48 <= j < 64
    ensures Splits(64, j)
  {
    hide Splits;
    if j == 48 {
      SplitAt(64, 48, 112, 4450022, 6681150, 189548, 3452852);
    } else if j == 49 {
      SplitAt(64, 49, 113, 4450022, 6736599, 4827145, 1161514);
    } else if j == 50 {
      SplitAt(64, 50, 114, 4450022, 3505694, 3159746, 280308);
    } else if j == 51 {
      SplitAt(64, 51, 115, 4450022, 4558682, 6529015, -846628);
    } else if j == 52 {
      SplitAt(64, 52, 116, 4450022, 3507263, 5971092, -1125734);
    } else if j == 53 {
      SplitAt(64, 53, 117, 4450022, 6239768, 8202977, -791664);
    } else if j == 54 {
      SplitAt(64, 54, 118, 4450022, 6779997, 1315589, 2941838);
    } else if j == 55 {
      SplitAt(64, 55, 119, 4450022, 3699596, 1341330, 1293256);
    } else if j == 56 {
      SplitAt(64, 56, 120, 4450022, 811944, 1285669, -212240);
    } else if j == 57 {
      SplitAt(64, 57, 121, 4450022, 531354, 6795489, -3118500);
    } else if j == 58 {
      SplitAt(64, 58, 122, 4450022, 954230, 7567685, -3280380);
    } else if j == 59 {
      SplitAt(64, 59, 123, 4450022, 3881043, 6940675, -1412462);
    } else if j == 60 {
      SplitAt(64, 60, 124, 4450022, 3900724, 5361315, -611656);
    } else if j == 61 {
      SplitAt(64, 61, 125, 4450022, 5823537, 4499357, 840710);
    } else if j == 62 {
      SplitAt(64, 62, 126, 4450022, 2071892, 4751448, -1277576);
    } else {
      SplitAt(64, 63, 127, 4450022, 5582638, 3839961, 1042772);
    }
  }

  lemma Splits128_0(j: nat)
    requires 0 <= j < 16
    ensures Splits(128, j)
  {
    hide Splits;
    if j == 0 {
      SplitAt(128, 0, 128, 2091667, 4193792, 2091667, 0);
    } else if j == 1 {
      SplitAt(128, 1, 129, 2091667, 25847, 3407706, -1698859);
    } else if j == 2 {
      SplitAt(128, 2, 130, 2091667, 5771523, 2316500, 281273);
    } else if j == 3 {
      SplitAt(128, 3, 131, 2091667, 7861508, 3817976, 51532);
    } else if j == 4 {
      SplitAt(128, 4, 132, 2091667, 237124, 5037939, -2461940);
    } else if j == 5 {
      SplitAt(128, 5, 133, 2091667, 7602457, 2244091, 774491);
    } else if j == 6 {
      SplitAt(128, 6, 134, 2091667, 7504169, 5933984, -1096565);
    } else if j == 7 {
      SplitAt(128, 7, 135, 2091667, 466468, 4817955, -2294612);
    } else if j == 8 {
      SplitAt(128, 8, 136, 2091667, 1826347, 266997, 322225);
    } else if j == 9 {
      SplitAt(128, 9, 137, 2091667, 2353451, 2434439, -630863);
    } else if j == 10 {
      SplitAt(128, 10, 138, 2091667, 8021166, 7144689, -1573398);
    } else if j == 11 {
      SplitAt(128, 11, 139, 2091667, 6288512, 3513181, -188544);
    } else if j == 12 {
      SplitAt(128, 12, 140, 2091667, 3119733, 4860065, -1653457);
    } else if j == 13 {
      SplitAt(128, 13, 141, 2091667, 5495562, 4621053, -940866);
    } else if j == 14 {
      SplitAt(128, 14, 142, 2091667, 3111497, 7183191, -2818069);
    } else {
      SplitAt(128, 15, 143, 2091667, 2680103, 5187039, -1926811);
    }
  }

  lemma Splits128_1(j: nat)
    requires 16 <= j < 32
    ensures Splits(128, j)
  {
    hide Splits;
    if j == 16 {
      SplitAt(128, 16, 144, 2091667, 2725464, 900702, 229512);
    } else if j == 17 {
      SplitAt(128, 17, 145, 2091667, 1024112, 1859098, -674736);
    } else if j == 18 {
      SplitAt(128, 18, 146, 2091667, 7300517, 909542, 1366975);
    } else if j == 19 {
      SplitAt(128, 19, 147, 2091667, 3585928, 819034, 485144);
    } else if j == 20 {
      SplitAt(128, 20, 148, 2091667, 7830929, 495491, 1706563);
    } else if j == 21 {
      SplitAt(128, 21, 149, 2091667, 7260833, 6767243, -1574285);
    } else if j == 22 {
      SplitAt(128, 22, 150, 2091667, 2619752, 8337157, -3518280);
    } else if j == 23 {
      SplitAt(128, 23, 151, 2091667, 6271868, 7857917, -2366924);
    } else if j == 24 {
      SplitAt(128, 24, 152, 2091667, 6262231, 7725090, -2302859);
    } else if j == 25 {
      SplitAt(128, 25, 153, 2091667, 4520680, 5257975, -1502920);
    } else if j == 26 {
      SplitAt(128, 26, 154, 2091667, 6980856, 2031748, 725608);
    } else if j == 27 {
      SplitAt(128, 27, 155, 2091667, 5102745, 3207046, -331301);
    } else if j == 28 {
      SplitAt(128, 28, 156, 2091667, 1757237, 4823422, -1975185);
    } else if j == 29 {
      SplitAt(128, 29, 157, 2091667, 8360995, 7855319, -1844199);
    } else if j == 30 {
      SplitAt(128, 30, 158, 2091667, 4010497, 7611795, -2808173);
    } else {
      SplitAt(128, 31, 159, 2091667, 280005, 4784579, -2324449);
    }
  }

  lemma Splits128_2(j: nat)
    requires 32 <= j < 48
    ensures Splits(128, j)
  {
    hide Splits;
    if j == 32 {
      SplitAt(128, 32, 160, 2091667, 2706023, 342297, 504101);
    } else if j == 33 {
      SplitAt(128, 33, 161, 2091667, 95776, 286988, -119712);
    } else if j == 34 {
      SplitAt(128, 34, 162, 2091667, 3077325, 5942594, -2205769);
    } else if j == 35 {
      SplitAt(128, 35, 163, 2091667, 3530437, 4108315, -1174753);
    } else if j == 36 {
      SplitAt(128, 36, 164, 2091667, 6718724, 3437287, -43188);
    } else if j == 37 {
      SplitAt(128, 37, 165, 2091667, 4788269, 5038140, -1326121);
    } else if j == 38 {
      SplitAt(128, 38, 166, 2091667, 5842901, 1735879, 589647);
    } else if j == 39 {
      SplitAt(128, 39, 167, 2091667, 3915439, 203044, 875645);
    } else if j == 40 {
      SplitAt(128, 40, 168, 2091667, 4519302, 2842341, -294414);
    } else if j == 41 {
      SplitAt(128, 41, 169, 2091667, 5336701, 2691481, -14905);
    } else if j == 42 {
      SplitAt(128, 42, 170, 2091667, 3574422, 5790267, -2005470);
    } else if j == 43 {
      SplitAt(128, 43, 171, 2091667, 5512770, 1265009, 742886);
    } else if j == 44 {
      SplitAt(128, 44, 172, 2091667, 3539968, 4055324, -1145856);
    } else if j == 45 {
      SplitAt(128, 45, 173, 2091667, 8079950, 1247620, 1392330);
    } else if j == 46 {
      SplitAt(128, 46, 174, 2091667, 2348700, 2486353, -658028);
    } else {
      SplitAt(128, 47, 175, 2091667, 7841118, 1595974, 1158394);
    }
  }

  lemma Splits128_3(j: nat)
    requires 48 <= j < 64
    ensures Splits(128, j)
  {
    hide Splits;
    if j == 48 {
      SplitAt(128, 48, 176, 2091667, 6681150, 4613401, -641126);
    } else if j == 49 {
      SplitAt(128, 49, 177, 2091667, 6736599, 1250494, 1055605);
    } else if j == 50 {
      SplitAt(128, 50, 178, 2091667, 3505694, 2635921, -444102);
    } else if j == 51 {
      SplitAt(128, 51, 179, 2091667, 4558682, 4832145, -1280338);
    } else if j == 52 {
      SplitAt(128, 52, 180, 2091667, 3507263, 5386378, -1820115);
    } else if j == 53 {
      SplitAt(128, 53, 181, 2091667, 6239768, 1869119, 622024);
    } else if j == 54 {
      SplitAt(128, 54, 182, 2091667, 6779997, 1903435, 739687);
    } else if j == 55 {
      SplitAt(128, 55, 183, 2091667, 3699596, 7329447, -2744476);
    } else if j == 56 {
      SplitAt(128, 56, 184, 2091667, 811944, 7047359, -3324040);
    } else if j == 57 {
      SplitAt(128, 57, 185, 2091667, 531354, 1237275, -486546);
    } else if j == 58 {
      SplitAt(128, 58, 186, 2091667, 954230, 5062207, -2295102);
    } else if j == 59 {
      SplitAt(128, 59, 187, 2091667, 3881043, 6950192, -2509399);
    } else if j == 60 {
      SplitAt(128, 60, 188, 2091667, 3900724, 7929317, -2994468);
    } else if j == 61 {
      SplitAt(128, 61, 189, 2091667, 5823537, 1312455, 796707);
    } else if j == 62 {
      SplitAt(128, 62, 190, 2091667, 2071892, 3306115, -1137348);
    } else {
      SplitAt(128, 63, 191, 2091667, 5582638, 6417775, -1818262);
    }
  }

  lemma Splits128_4(j: nat)
    requires 64 <= j < 80
    ensures Splits(128, j)
  {
    hide Splits;
    if j == 64 {
      SplitAt(128, 64, 192, 2091667, 4450022, 7100756, -2442734);
    } else if j == 65 {
      SplitAt(128, 65, 193, 2091667, 6851714, 1917081, 750758);
    } else if j == 66 {
      SplitAt(128, 66, 194, 2091667, 4702672, 5834105, -1745808);
    } else if j == 67 {
      SplitAt(128, 67, 195, 2091667, 5339162, 7005614, -2173202);
    } else if j == 68 {
      SplitAt(128, 68, 196, 2091667, 6927966, 1500165, 978426);
    } else if j == 69 {
      SplitAt(128, 69, 197, 2091667, 3475950, 777191, 478634);
    } else if j == 70 {
      SplitAt(128, 70, 198, 2091667, 2176455, 2235880, -575675);
    } else if j == 71 {
      SplitAt(128, 71, 199, 2091667, 6795196, 3406031, -8460);
    } else if j == 72 {
      SplitAt(128, 72, 200, 2091667, 7122806, 7838005, -2144574);
    } else if j == 73 {
      SplitAt(128, 73, 201, 2091667, 1939314, 5548557, -2292618);
    } else if j == 74 {
      SplitAt(128, 74, 202, 2091667, 4296819, 6709241, -2285047);
    } else if j == 75 {
      SplitAt(128, 75, 203, 2091667, 7380215, 6533464, -1427499);
    } else if j == 76 {
      SplitAt(128, 76, 204, 2091667, 5190273, 5796124, -1605101);
    } else if j == 77 {
      SplitAt(128, 77, 205, 2091667, 5223087, 4656147, -1026435);
    } else if j == 78 {
      SplitAt(128, 78, 206, 2091667, 4747489, 594136, 887603);
    } else {
      SplitAt(128, 79, 207, 2091667, 126922, 4603424, -2272002);
    }
  }

  lemma Splits128_5(j: nat)
    requires 80 <= j < 96
    ensures Splits(128, j)
  {
    hide Splits;
    if j == 80 {
      SplitAt(128, 80, 208, 2091667, 3412210, 6366809, -2334474);
    } else if j == 81 {
      SplitAt(128, 81, 209, 2091667, 7396998, 2432395, 628978);
    } else if j == 82 {
      SplitAt(128, 82, 210, 2091667, 2147896, 2454455, -692184);
    } else if j == 83 {
      SplitAt(128, 83, 211, 2091667, 2715295, 8215696, -3433651);
    } else if j == 84 {
      SplitAt(128, 84, 212, 2091667, 5412772, 1957272, 371500);
    } else if j == 85 {
      SplitAt(128, 85, 213, 2091667, 4686924, 3369112, -516188);
    } else if j == 86 {
      SplitAt(128, 86, 214, 2091667, 7969390, 185531, 1896234);
    } else if j == 87 {
      SplitAt(128, 87, 215, 2091667, 5903370, 7173032, -2116162);
    } else if j == 88 {
      SplitAt(128, 88, 216, 2091667, 7709315, 5196991, -676551);
    } else if j == 89 {
      SplitAt(128, 89, 217, 2091667, 7151892, 162844, 1703548);
    } else if j == 90 {
      SplitAt(128, 90, 218, 2091667, 8357436, 1616392, 1277044);
    } else if j == 91 {
      SplitAt(128, 91, 219, 2091667, 7072248, 3014001, 256872);
    } else if j == 92 {
      SplitAt(128, 92, 220, 2091667, 7998430, 810149, 1590906);
    } else if j == 93 {
      SplitAt(128, 93, 221, 2091667, 1349076, 1652634, -490308);
    } else if j == 94 {
      SplitAt(128, 94, 222, 2091667, 1852771, 4686184, -1882663);
    } else {
      SplitAt(128, 95, 223, 2091667, 6949987, 6581310, -1558823);
    }
  }

  lemma Splits128_6(j: nat)
    requires 96 <= j < 112
    ensures Splits(128, j)
  {
    hide Splits;
    if j == 96 {
      SplitAt(128, 96, 224, 2091667, 5037034, 5341501, -1415842);
    } else if j == 97 {
      SplitAt(128, 97, 225, 2091667, 264944, 3523897, -1697328);
    } else if j == 98 {
      SplitAt(128, 98, 226, 2091667, 508951, 3866901, -1808075);
    } else if j == 99 {
      SplitAt(128, 99, 227, 2091667, 3097992, 269760, 638232);
    } else if j == 100 {
      SplitAt(128, 100, 228, 2091667, 44288, 2213111, -1096448);
    } else if j == 101 {
      SplitAt(128, 101, 229, 2091667, 7280319, 7404533, -1888339);
    } else if j == 102 {
      SplitAt(128, 102, 230, 2091667, 904516, 1717735, -633844);
    } else if j == 103 {
      SplitAt(128, 103, 231, 2091667, 3958618, 472078, 751790);
    } else if j == 104 {
      SplitAt(128, 104, 232, 2091667, 4656075, 7953734, -2818159);
    } else if j == 105 {
      SplitAt(128, 105, 233, 2091667, 8371839, 1723600, 1226989);
    } else if j == 106 {
      SplitAt(128, 106, 234, 2091667, 1653064, 6577327, -2878888);
    } else if j == 107 {
      SplitAt(128, 107, 235, 2091667, 5130689, 1910376, 324563);
    } else if j == 108 {
      SplitAt(128, 108, 236, 2091667, 2389356, 6712985, -2763004);
    } else if j == 109 {
      SplitAt(128, 109, 237, 2091667, 8169440, 7276084, -1602144);
    } else if j == 110 {
      SplitAt(128, 110, 238, 2091667, 759969, 8119771, -3873677);
    } else {
      SplitAt(128, 111, 239, 2091667, 7063561, 4546524, -512213);
    }
  }

  lemma Splits128_7(j: nat)
    requires 112 <= j < 128
    ensures Splits(128, j)
  {
    hide Splits;
    if j == 112 {
      SplitAt(128, 112, 240, 2091667, 189548, 5441381, -2675708);
    } else if j == 113 {
      SplitAt(128, 113, 241, 2091667, 4827145, 6144432, -1870037);
    } else if j == 114 {
      SplitAt(128, 114, 242, 2091667, 3159746, 7959518, -3194522);
    } else if j == 115 {
      SplitAt(128, 115, 243, 2091667, 6529015, 6094090, -1420075);
    } else if j == 116 {
      SplitAt(128, 116, 244, 2091667, 5971092, 183443, 1398524);
    } else if j == 117 {
      SplitAt(128, 117, 245, 2091667, 8202977, 7403526, -1657549);
    } else if j == 118 {
      SplitAt(128, 118, 246, 2091667, 1315589, 1612842, -478753);
    } else if j == 119 {
      SplitAt(128, 119, 247, 2091667, 1341330, 4834730, -2084650);
    } else if j == 120 {
      SplitAt(128, 120, 248, 2091667, 1285669, 7826001, -3595457);
    } else if j == 121 {
      SplitAt(128, 121, 249, 2091667, 6795489, 3919660, -265421);
    } else if j == 122 {
      SplitAt(128, 122, 250, 2091667, 7567685, 8332111, -2280801);
    } else if j == 123 {
      SplitAt(128, 123, 251, 2091667, 6940675, 7018208, -1779783);
    } else if j == 124 {
      SplitAt(128, 124, 252, 2091667, 5361315, 3937738, -632423);
    } else if j == 125 {
      SplitAt(128, 125, 253, 2091667, 4499357, 1400424, 422183);
    } else if j == 126 {
      SplitAt(128, 126, 254, 2091667, 4751448, 7534263, -2584440);
    } else {
      SplitAt(128, 127, 255, 2091667, 3839961, 1976782, -30821);
    }
  }

  lemma SplitOf(stage: nat, j: nat)
    requires PowerOfTwo(stage) && stage <= 128 && j < stage
    ensures Splits(stage, j)
  {
    hide Splits;
    SmallPower(stage);
    if stage == 1 {
      Splits1(j);
    } else if stage == 2 {
      Splits2(j);
    } else if stage == 4 {
      Splits4(j);
    } else if stage == 8 {
      Splits8(j);
    } else if stage == 16 {
      Splits16(j);
    } else if stage == 32 {
      if j < 16 { Splits32_0(j); } else { Splits32_1(j); }
    } else if stage == 64 {
      if j < 16 { Splits64_0(j); } else if j < 32 { Splits64_1(j); }
      else if j < 48 { Splits64_2(j); } else { Splits64_3(j); }
    } else {
      if j < 16 { Splits128_0(j); } else if j < 32 { Splits128_1(j); }
      else if j < 48 { Splits128_2(j); } else if j < 64 { Splits128_3(j); }
      else if j < 80 { Splits128_4(j); } else if j < 96 { Splits128_5(j); }
      else if j < 112 { Splits128_6(j); } else { Splits128_7(j); }
    }
  }

  lemma SmallPower(s: nat)
    requires PowerOfTwo(s) && s <= 128
    ensures s == 1 || s == 2 || s == 4 || s == 8 || s == 16 || s == 32 || s == 64 || s == 128
  {}

  // ----- powers of 1753

  lemma SquareAt(stage: nat, next: nat, z: Zq, root: Zq, i: int)
    requires next < 256 && next == 2 * stage && Zeta(stage) == z && Zeta(next) == root
    requires root * root == MONT * z + i * Q
    ensures Cong(MONT * Zeta(stage), Zeta(2 * stage) * Zeta(2 * stage), Q)
  {
    hide Zeta;
    CongIntro(root * root, MONT * z, i, Q);
  }

  lemma StageSquare(stage: nat)
    requires PowerOfTwo(stage) && stage <= 64
    ensures Cong(MONT * Zeta(stage), Zeta(2 * stage) * Zeta(2 * stage), Q)
  {
    hide Cong;
    SmallPower(stage);
    if stage == 64 {
      SquareAt(64, 128, 4450022, 2091667, -1704855);
    } else if stage == 32 {
      SquareAt(32, 64, 2706023, 4450022, 1008804);
    } else if stage == 16 {
      SquareAt(16, 32, 2725464, 2706023, -490127);
    } else if stage == 8 {
      SquareAt(8, 16, 1826347, 2725464, -27584);
    } else if stage == 4 {
      SquareAt(4, 8, 237124, 1826347, 279353);
    } else if stage == 2 {
      SquareAt(2, 4, 5771523, 237124, -2881520);
    } else {
      SquareAt(1, 2, 25847, 5771523, 3961865);
    }
  }

  lemma TopEntry()
    ensures Rev(128, 256) == 1 && Cong(Zeta(128), MONT * 1753, Q)
  {
    CongIntro(1753 * MONT, Zeta(128), 877, Q);
  }

  lemma CancelMont(x: int, y: int)
    requires Cong(MONT * x, MONT * y, Q)
    ensures Cong(x, y, Q)
  {
    hide Cong;
    MontgomeryConstants();
    CongMulLeft(MONT_INV, MONT * x, MONT * y, Q);
    CongMul(MONT * MONT_INV, 1, x, x, Q);
    CongMul(MONT * MONT_INV, 1, y, y, Q);
    assert MONT_INV * (MONT * x) == (MONT * MONT_INV) * x && MONT_INV * (MONT * y) == (MONT * MONT_INV) * y;
    Through(x, (MONT * MONT_INV) * x, (MONT * MONT_INV) * y, y);
  }

  lemma Through(a: int, b: int, c: int, d: int)
    requires Cong(b, 1 * a, Q) && Cong(b, c, Q) && Cong(c, 1 * d, Q)
    ensures Cong(a, d, Q)
  {}

  /** If entries i and j hold the powers d and e, an entry that is their product holds the power d + e. */
  lemma ProductPower(x: int, a: int, b: int, d: nat, e: nat)
    requires Cong(MONT * x, a * b, Q) && Cong(a, MONT * Pow(1753, d), Q) && Cong(b, MONT * Pow(1753, e), Q)
    ensures Cong(x, MONT * Pow(1753, d + e), Q)
  {
    hide Pow;
    var u, v := Pow(1753, d), Pow(1753, e);
    CongMul(a, MONT * u, b, MONT * v, Q);
    PowAdd(1753, d, e);
    MulSwap(MONT, u, MONT, v);
    MulAssoc(MONT, MONT, u * v);
    CancelMont(x, MONT * Pow(1753, d + e));
  }

  lemma RevDoubles(k: nat)
    requires k < 128
    ensures 2 * Rev(2 * k, 256) == Rev(k, 256) && 2 * Rev(2 * k + 1, 256) == 256 + Rev(k, 256)
  {
    hide Rev;
    RevUnfold(2 * k, 256);
    RevUnfold(2 * k + 1, 256);
    RevFromTop(k, 256);
  }

  lemma {:induction false} StagePower(stage: nat)
    requires PowerOfTwo(stage) && stage <= 128
    ensures Cong(Zeta(stage), MONT * Pow(1753, Rev(stage, 256)), Q)
    decreases 128 - stage
  {
    hide Zeta, Rev;
    SmallPower(stage);
    if stage == 128 {
      TopEntry();
    } else {
      var next := 2 * stage;
      StagePower(next);
      StageSquare(stage);
      RevDoubles(stage);
      ProductPower(Zeta(stage), Zeta(next), Zeta(next), Rev(next, 256), Rev(next, 256));
    }
  }

  /** Indices without a common bit reverse to exponents that add. */
  lemma {:induction false} RevSplit(stage: nat, j: nat, n: nat)
    requires PowerOfTwo(stage) && PowerOfTwo(n) && j < stage < n
    ensures stage + j < n && Rev(stage + j, n) == Rev(stage, n) + Rev(j, n)
    decreases n
  {
    hide Rev;
    BelowNext(stage, n);
    if stage == 1 {
      RevZero(n);
    } else {
      RevUnfold(stage + j, n);
      RevUnfold(stage, n);
      RevUnfold(j, n);
      RevSplit(stage / 2, j / 2, n / 2);
    }
  }

  lemma {:induction false} BelowNext(stage: nat, n: nat)
    requires PowerOfTwo(stage) && PowerOfTwo(n) && stage < n
    ensures 2 * stage <= n
  {
    if stage > 1 { BelowNext(stage / 2, n / 2); }
  }

  lemma {:induction false} RevZero(n: nat)
    requires PowerOfTwo(n)
    ensures Rev(0, n) == 0
  {
    if n > 1 { RevZero(n / 2); }
  }

  lemma {:induction false} PowerBelow(stage: nat, k: nat)
    requires PowerOfTwo(stage) && k < stage <= 256
    ensures Cong(Zeta(k), MONT * Pow(1753, Rev(k, 256)), Q)
    decreases stage
  {
    hide Zeta, Rev;
    if stage == 1 {
      FirstEntry();
    } else {
      var half := stage / 2;
      if k < half {
        PowerBelow(half, k);
      } else {
        var j := k - half;
        PowerBelow(half, j);
        StagePower(half);
        SplitOf(half, j);
        RevSplit(half, j, 256);
        ProductPower(Zeta(k), Zeta(half), Zeta(j), Rev(half, 256), Rev(j, 256));
      }
    }
  }

  lemma FirstEntry()
    ensures Zeta(0) == MONT * Pow(1753, 0) && Rev(0, 256) == 0
  {
    RevZero(256);
  }

  /** Entry k is 1753^rev(k) in Montgomery form. */
  lemma ZetaPower(k: nat)
    requires k < 256
    ensures Cong(Zeta(k), MONT * Pow(1753, Rev(k, 256)), Q)
  {
    PowerBelow(256, k);
  }

  /** 1753 is a primitive 512th root of unity. */
  lemma HalfTurn()
    ensures Cong(Pow(1753, 256), -1, Q)
  {
    hide Zeta, Cong, Rev;
    ZetaPower(1);
    FirstSquare();
    RevUnfold(1, 256);
    RevZero(128);
    var y := Pow(1753, 128);
    CongMul(Zeta(1), MONT * y, Zeta(1), MONT * y, Q);
    PowAdd(1753, 128, 128);
    MulSwap(MONT, y, MONT, y);
    CancelSquare(Zeta(1) * Zeta(1), Pow(1753, 256));
  }

  lemma CancelSquare(a: int, x: int)
    requires Cong(a, (MONT * MONT) * x, Q) && Cong(a, -(MONT * MONT), Q)
    ensures Cong(x, -1, Q)
  {
    MulAssoc(MONT, MONT, x);
    CancelMont(MONT * x, MONT * -1);
    CancelMont(x, -1);
  }

  lemma FirstSquare()
    ensures Cong(Zeta(1) * Zeta(1), -(MONT * MONT), Q)
  {
    CongIntro(25847 * 25847, -(MONT * MONT), 2098769, Q);
  }

  // ----- square roots

  /** Two entries multiply by adding their exponents. */
  lemma EntryProduct(i: nat, j: nat)
    requires i < 256 && j < 256
    ensures Cong(Zeta(i) * Zeta(j), MONT * (MONT * Pow(1753, Rev(i, 256) + Rev(j, 256))), Q)
  {
    hide Zeta, Rev, Cong, Pow;
    var d, e := Rev(i, 256), Rev(j, 256);
    ZetaPower(i);
    ZetaPower(j);
    CongMul(Zeta(i), MONT * Pow(1753, d), Zeta(j), MONT * Pow(1753, e), Q);
    PowAdd(1753, d, e);
    MulSwap(MONT, Pow(1753, d), MONT, Pow(1753, e));
    MulAssoc(MONT, MONT, Pow(1753, d + e));
  }

  lemma HalfTurnOn(e: nat)
    ensures Cong(Pow(1753, 256 + e), -Pow(1753, e), Q)
  {
    hide Cong, Pow;
    HalfTurn();
    PowAdd(1753, 256, e);
    CongMul(Pow(1753, 256), -1, Pow(1753, e), Pow(1753, e), Q);
  }

  /** Entries 2k and 2k + 1 are square roots of entry k and of its negative (in Montgomery form). */
  lemma Squares(k: nat)
    requires 1 <= k < 128
    ensures Cong(Zeta(2 * k) * Zeta(2 * k), MONT * Zeta(k), Q)
    ensures Cong(Zeta(2 * k + 1) * Zeta(2 * k + 1), -(MONT * Zeta(k)), Q)
  {
    hide Zeta, Rev, Pow;
    RevDoubles(k);
    EntryProduct(2 * k, 2 * k);
    EntryProduct(2 * k + 1, 2 * k + 1);
    var y := Pow(1753, Rev(k, 256));
    ZetaPower(k);
    CongMulLeft(MONT, Zeta(k), MONT * y, Q);
    HalfTurnOn(Rev(k, 256));
    NegateTwice(Pow(1753, 256 + Rev(k, 256)), y, Zeta(k));
  }

  lemma NegateTwice(x: int, y: int, z: int)
    requires Cong(x, -y, Q) && Cong(MONT * z, MONT * (MONT * y), Q)
    ensures Cong(MONT * (MONT * x), -(MONT * z), Q)
  {
    CongMulLeft(MONT, x, -y, Q);
    CongMulLeft(MONT, MONT * x, MONT * -y, Q);
    CongMulLeft(-1, MONT * z, MONT * (MONT * y), Q);
  }

  // ----- mirrored entries

  /** The entry that the inverse transform uses against entry k of the same stage. */
  function Mirror(k: nat, stage: nat): nat
    requires stage <= k < 2 * stage
  {
    3 * stage - 1 - k
  }

  /** Mirrored indices have exponents that add up to half a turn. */
  lemma {:induction false} MirrorExponents(k: nat, stage: nat, n: nat)
    requires PowerOfTwo(stage) && PowerOfTwo(n) && stage < n && stage <= k < 2 * stage
    ensures k < n && Mirror(k, stage) < n && Rev(k, n) + Rev(Mirror(k, stage), n) == n
    decreases n
  {
    hide Rev;
    var m := Mirror(k, stage);
    BelowNext(stage, n);
    RevUnfold(k, n);
    RevUnfold(m, n);
    if stage == 1 {
      RevZero(n / 2);
    } else {
      assert Mirror(k / 2, stage / 2) == m / 2;
      MirrorExponents(k / 2, stage / 2, n / 2);
    }
  }

  /** Mirrored entries multiply to -1 (in Montgomery form). */
  lemma Mirrors(k: nat, stage: nat)
    requires PowerOfTwo(stage) && stage <= 128 && stage <= k < 2 * stage
    ensures Mirror(k, stage) < 256 && Cong(Zeta(k) * Zeta(Mirror(k, stage)), -(MONT * MONT), Q)
  {
    hide Zeta, Rev, Pow;
    MirrorExponents(k, stage, 256);
    EntryProduct(k, Mirror(k, stage));
    HalfTurn();
    CongMulLeft(MONT, Pow(1753, 256), -1, Q);
    CongMulLeft(MONT, MONT * Pow(1753, 256), MONT * -1, Q);
  }
}
