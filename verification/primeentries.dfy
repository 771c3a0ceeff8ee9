/** ltm_prime_tab, and a sieve that finds the same numbers. */
module PrimeEntries {
  const PRIME_SIZE: nat := 256

  const TAB0: seq<nat> := [2, 3, 5, 7, 11, 13, 17, 19, 23, 29, 31, 37, 41, 43, 47, 53]
  const TAB1: seq<nat> := [59, 61, 67, 71, 73, 79, 83, 89, 97, 101, 103, 107, 109, 113, 127, 131]
  const TAB2: seq<nat> := [137, 139, 149, 151, 157, 163, 167, 173, 179, 181, 191, 193, 197, 199, 211, 223]
  const TAB3: seq<nat> := [227, 229, 233, 239, 241, 251, 257, 263, 269, 271, 277, 281, 283, 293, 307, 311]
  const TAB4: seq<nat> := [313, 317, 331, 337, 347, 349, 353, 359, 367, 373, 379, 383, 389, 397, 401, 409]
  const TAB5: seq<nat> := [419, 421, 431, 433, 439, 443, 449, 457, 461, 463, 467, 479, 487, 491, 499, 503]
  const TAB6: seq<nat> := [509, 521, 523, 541, 547, 557, 563, 569, 571, 577, 587, 593, 599, 601, 607, 613]
  const TAB7: seq<nat> := [617, 619, 631, 641, 643, 647, 653, 659, 661, 673, 677, 683, 691, 701, 709, 719]
  const TAB8: seq<nat> := [727, 733, 739, 743, 751, 757, 761, 769, 773, 787, 797, 809, 811, 821, 823, 827]
  const TAB9: seq<nat> := [829, 839, 853, 857, 859, 863, 877, 881, 883, 887, 907, 911, 919, 929, 937, 941]
  const TAB10: seq<nat> := [947, 953, 967, 971, 977, 983, 991, 997, 1009, 1013, 1019, 1021, 1031, 1033, 1039, 1049]
  const TAB11: seq<nat> := [1051, 1061, 1063, 1069, 1087, 1091, 1093, 1097, 1103, 1109, 1117, 1123, 1129,
      1151, 1153, 1163]
  const TAB12: seq<nat> := [1171, 1181, 1187, 1193, 1201, 1213, 1217, 1223, 1229, 1231, 1237, 1249, 1259,
      1277, 1279, 1283]
  const TAB13: seq<nat> := [1289, 1291, 1297, 1301, 1303, 1307, 1319, 1321, 1327, 1361, 1367, 1373, 1381,
      1399, 1409, 1423]
  const TAB14: seq<nat> := [1427, 1429, 1433, 1439, 1447, 1451, 1453, 1459, 1471, 1481, 1483, 1487, 1489,
      1493, 1499, 1511]
  const TAB15: seq<nat> := [1523, 1531, 1543, 1549, 1553, 1559, 1567, 1571, 1579, 1583, 1597, 1601, 1607,
      1609, 1613, 1619]

  /** Entry i of the table. */
  function PrimeTab(i: nat): nat
    requires i < PRIME_SIZE
  {
    if i < 16 then TAB0[i] else
    if i < 32 then TAB1[i - 16] else
    if i < 48 then TAB2[i - 32] else
    if i < 64 then TAB3[i - 48] else
    if i < 80 then TAB4[i - 64] else
    if i < 96 then TAB5[i - 80] else
    if i < 112 then TAB6[i - 96] else
    if i < 128 then TAB7[i - 112] else
    if i < 144 then TAB8[i - 128] else
    if i < 160 then TAB9[i - 144] else
    if i < 176 then TAB10[i - 160] else
    if i < 192 then TAB11[i - 176] else
    if i < 208 then TAB12[i - 192] else
    if i < 224 then TAB13[i - 208] else
    if i < 240 then TAB14[i - 224] else
    TAB15[i - 240]
  }

  /** From d on, no d or d + 2 of every six numbers divides n, up to its square root. */
  predicate Sifted(n: nat, d: nat)
    requires d > 0
    decreases n - d
  {
    if d * d > n then true
    else n % d != 0 && (n % (d + 2) != 0 || n == d + 2) && Sifted(n, d + 6)
  }

  /** n passes trial division. */
  predicate Tried(n: nat) {
    n == 2 || n == 3 || (n > 3 && n % 2 != 0 && n % 3 != 0 && Sifted(n, 5))
  }

  // ----- the sieve finds the entries, one after the other

  /** Of lo, lo + 2, ... below hi none is tried. */
  predicate Untried(lo: nat, hi: nat)
    decreases hi - lo
  {
    if lo >= hi then true else if Tried(lo) then false else Untried(lo + 2, hi)
  }

  /** q is tried, and is the first number after p that is. */
  predicate ComesAfter(p: nat, q: nat) {
    2 <= p < q && (p % 2 == 1 || q == p + 1) && Tried(q) && Untried(p + 2, q)
  }

  lemma {:induction false} UntriedAll(lo: nat, hi: nat, n: nat)
    requires Untried(lo, hi) && lo <= n < hi && (n - lo) % 2 == 0
    ensures !Tried(n)
    decreases hi - lo
  {
    if n > lo {
      UntriedAll(lo + 2, hi, n);
    }
  }

  lemma NothingBetween(p: nat, q: nat, n: nat)
    requires ComesAfter(p, q) && p < n < q
    ensures !Tried(n)
  {
    if n % 2 == 1 {
      OddApart(p, n);
      UntriedAll(p + 2, q, n);
    }
  }

  lemma OddApart(p: nat, n: nat)
    requires p % 2 == 1 && n % 2 == 1 && p < n
    ensures p + 2 <= n && (n - (p + 2)) % 2 == 0
  {
  }

  lemma Row0Low(i: nat)
    requires i < 8
    ensures i > 0 ==> ComesAfter(TAB0[i - 1], TAB0[i])
  {
    if i < 2 {
      assert ComesAfter(2, 3);
    } else if i < 4 {
      assert ComesAfter(3, 5) && ComesAfter(5, 7);
    } else if i < 6 {
      assert ComesAfter(7, 11) && ComesAfter(11, 13);
    } else {
      assert ComesAfter(13, 17) && ComesAfter(17, 19);
    }
  }

  lemma Row0High(i: nat)
    requires 8 <= i < 16
    ensures ComesAfter(TAB0[i - 1], TAB0[i])
  {
    if i < 10 {
      assert ComesAfter(19, 23) && ComesAfter(23, 29);
    } else if i < 12 {
      assert ComesAfter(29, 31) && ComesAfter(31, 37);
    } else if i < 14 {
      assert ComesAfter(37, 41) && ComesAfter(41, 43);
    } else {
      assert ComesAfter(43, 47) && ComesAfter(47, 53);
    }
  }

  lemma Row1Low(i: nat)
    requires i < 8
    ensures ComesAfter(if i > 0 then TAB1[i - 1] else TAB0[15], TAB1[i])
  {
    if i < 2 {
      assert ComesAfter(53, 59) && ComesAfter(59, 61);
    } else if i < 4 {
      assert ComesAfter(61, 67) && ComesAfter(67, 71);
    } else if i < 6 {
      assert ComesAfter(71, 73) && ComesAfter(73, 79);
    } else {
      assert ComesAfter(79, 83) && ComesAfter(83, 89);
    }
  }

  lemma Row1High(i: nat)
    requires 8 <= i < 16
    ensures ComesAfter(TAB1[i - 1], TAB1[i])
  {
    if i < 10 {
      assert ComesAfter(89, 97) && ComesAfter(97, 101);
    } else if i < 12 {
      assert ComesAfter(101, 103) && ComesAfter(103, 107);
    } else if i < 14 {
      assert ComesAfter(107, 109) && ComesAfter(109, 113);
    } else {
      assert ComesAfter(113, 127) && ComesAfter(127, 131);
    }
  }

  lemma Row2Low(i: nat)
    requires i < 8
    ensures ComesAfter(if i > 0 then TAB2[i - 1] else TAB1[15], TAB2[i])
  {
    if i < 2 {
      assert ComesAfter(131, 137) && ComesAfter(137, 139);
    } else if i < 4 {
      assert ComesAfter(139, 149) && ComesAfter(149, 151);
    } else if i < 6 {
      assert ComesAfter(151, 157) && ComesAfter(157, 163);
    } else {
      assert ComesAfter(163, 167) && ComesAfter(167, 173);
    }
  }

  lemma Row2High(i: nat)
    requires 8 <= i < 16
    ensures ComesAfter(TAB2[i - 1], TAB2[i])
  {
    if i < 10 {
      assert ComesAfter(173, 179) && ComesAfter(179, 181);
    } else if i < 12 {
      assert ComesAfter(181, 191) && ComesAfter(191, 193);
    } else if i < 14 {
      assert ComesAfter(193, 197) && ComesAfter(197, 199);
    } else {
      assert ComesAfter(199, 211) && ComesAfter(211, 223);
    }
  }

  lemma Row3Low(i: nat)
    requires i < 8
    ensures ComesAfter(if i > 0 then TAB3[i - 1] else TAB2[15], TAB3[i])
  {
    if i < 2 {
      assert ComesAfter(223, 227) && ComesAfter(227, 229);
    } else if i < 4 {
      assert ComesAfter(229, 233) && ComesAfter(233, 239);
    } else if i < 6 {
      assert ComesAfter(239, 241) && ComesAfter(241, 251);
    } else {
      assert ComesAfter(251, 257) && ComesAfter(257, 263);
    }
  }

  lemma Row3High(i: nat)
    requires 8 <= i < 16
    ensures ComesAfter(TAB3[i - 1], TAB3[i])
  {
    if i < 10 {
      assert ComesAfter(263, 269) && ComesAfter(269, 271);
    } else if i < 12 {
      assert ComesAfter(271, 277) && ComesAfter(277, 281);
    } else if i < 14 {
      assert ComesAfter(281, 283) && ComesAfter(283, 293);
    } else {
      assert ComesAfter(293, 307) && ComesAfter(307, 311);
    }
  }

  lemma Row4Low(i: nat)
    requires i < 8
    ensures ComesAfter(if i > 0 then TAB4[i - 1] else TAB3[15], TAB4[i])
  {
    if i < 2 {
      assert ComesAfter(311, 313) && ComesAfter(313, 317);
    } else if i < 4 {
      assert ComesAfter(317, 331) && ComesAfter(331, 337);
    } else if i < 6 {
      assert ComesAfter(337, 347) && ComesAfter(347, 349);
    } else {
      assert ComesAfter(349, 353) && ComesAfter(353, 359);
    }
  }

  lemma Row4High(i: nat)
    requires 8 <= i < 16
    ensures ComesAfter(TAB4[i - 1], TAB4[i])
  {
    if i < 10 {
      assert ComesAfter(359, 367) && ComesAfter(367, 373);
    } else if i < 12 {
      assert ComesAfter(373, 379) && ComesAfter(379, 383);
    } else if i < 14 {
      assert ComesAfter(383, 389) && ComesAfter(389, 397);
    } else {
      assert ComesAfter(397, 401) && ComesAfter(401, 409);
    }
  }

  lemma Row5Low(i: nat)
    requires i < 8
    ensures ComesAfter(if i > 0 then TAB5[i - 1] else TAB4[15], TAB5[i])
  {
    if i < 2 {
      assert ComesAfter(409, 419) && ComesAfter(419, 421);
    } else if i < 4 {
      assert ComesAfter(421, 431) && ComesAfter(431, 433);
    } else if i < 6 {
      assert ComesAfter(433, 439) && ComesAfter(439, 443);
    } else {
      assert ComesAfter(443, 449) && ComesAfter(449, 457);
    }
  }

  lemma Row5High(i: nat)
    requires 8 <= i < 16
    ensures ComesAfter(TAB5[i - 1], TAB5[i])
  {
    if i < 10 {
      assert ComesAfter(457, 461) && ComesAfter(461, 463);
    } else if i < 12 {
      assert ComesAfter(463, 467) && ComesAfter(467, 479);
    } else if i < 14 {
      assert ComesAfter(479, 487) && ComesAfter(487, 491);
    } else {
      assert ComesAfter(491, 499) && ComesAfter(499, 503);
    }
  }

  lemma Row6Low(i: nat)
    requires i < 8
    ensures ComesAfter(if i > 0 then TAB6[i - 1] else TAB5[15], TAB6[i])
  {
    if i < 2 {
      assert ComesAfter(503, 509) && ComesAfter(509, 521);
    } else if i < 4 {
      assert ComesAfter(521, 523) && ComesAfter(523, 541);
    } else if i < 6 {
      assert ComesAfter(541, 547) && ComesAfter(547, 557);
    } else {
      assert ComesAfter(557, 563) && ComesAfter(563, 569);
    }
  }

  lemma Row6High(i: nat)
    requires 8 <= i < 16
    ensures ComesAfter(TAB6[i - 1], TAB6[i])
  {
    if i < 10 {
      assert ComesAfter(569, 571) && ComesAfter(571, 577);
    } else if i < 12 {
      assert ComesAfter(577, 587) && ComesAfter(587, 593);
    } else if i < 14 {
      assert ComesAfter(593, 599) && ComesAfter(599, 601);
    } else {
      assert ComesAfter(601, 607) && ComesAfter(607, 613);
    }
  }

  lemma Row7Low(i: nat)
    requires i < 8
    ensures ComesAfter(if i > 0 then TAB7[i - 1] else TAB6[15], TAB7[i])
  {
    if i < 2 {
      assert ComesAfter(613, 617) && ComesAfter(617, 619);
    } else if i < 4 {
      assert ComesAfter(619, 631) && ComesAfter(631, 641);
    } else if i < 6 {
      assert ComesAfter(641, 643) && ComesAfter(643, 647);
    } else {
      assert ComesAfter(647, 653) && ComesAfter(653, 659);
    }
  }

  lemma Row7High(i: nat)
    requires 8 <= i < 16
    ensures ComesAfter(TAB7[i - 1], TAB7[i])
  {
    if i < 10 {
      assert ComesAfter(659, 661) && ComesAfter(661, 673);
    } else if i < 12 {
      assert ComesAfter(673, 677) && ComesAfter(677, 683);
    } else if i < 14 {
      assert ComesAfter(683, 691) && ComesAfter(691, 701);
    } else {
      assert ComesAfter(701, 709) && ComesAfter(709, 719);
    }
  }

  lemma Row8Low(i: nat)
    requires i < 8
    ensures ComesAfter(if i > 0 then TAB8[i - 1] else TAB7[15], TAB8[i])
  {
    if i < 2 {
      assert ComesAfter(719, 727) && ComesAfter(727, 733);
    } else if i < 4 {
      assert ComesAfter(733, 739) && ComesAfter(739, 743);
    } else if i < 6 {
      assert ComesAfter(743, 751) && ComesAfter(751, 757);
    } else {
      assert ComesAfter(757, 761) && ComesAfter(761, 769);
    }
  }

  lemma Row8High(i: nat)
    requires 8 <= i < 16
    ensures ComesAfter(TAB8[i - 1], TAB8[i])
  {
    if i < 10 {
      assert ComesAfter(769, 773) && ComesAfter(773, 787);
    } else if i < 12 {
      assert ComesAfter(787, 797) && ComesAfter(797, 809);
    } else if i < 14 {
      assert ComesAfter(809, 811) && ComesAfter(811, 821);
    } else {
      assert ComesAfter(821, 823) && ComesAfter(823, 827);
    }
  }

  lemma Row9Low(i: nat)
    requires i < 8
    ensures ComesAfter(if i > 0 then TAB9[i - 1] else TAB8[15], TAB9[i])
  {
    if i < 2 {
      assert ComesAfter(827, 829) && ComesAfter(829, 839);
    } else if i < 4 {
      assert ComesAfter(839, 853) && ComesAfter(853, 857);
    } else if i < 6 {
      assert ComesAfter(857, 859) && ComesAfter(859, 863);
    } else {
      assert ComesAfter(863, 877) && ComesAfter(877, 881);
    }
  }

  lemma Row9High(i: nat)
    requires 8 <= i < 16
    ensures ComesAfter(TAB9[i - 1], TAB9[i])
  {
    if i < 10 {
      assert ComesAfter(881, 883) && ComesAfter(883, 887);
    } else if i < 12 {
      assert ComesAfter(887, 907) && ComesAfter(907, 911);
    } else if i < 14 {
      assert ComesAfter(911, 919) && ComesAfter(919, 929);
    } else {
      assert ComesAfter(929, 937) && ComesAfter(937, 941);
    }
  }

  lemma Row10Low(i: nat)
    requires i < 8
    ensures ComesAfter(if i > 0 then TAB10[i - 1] else TAB9[15], TAB10[i])
  {
    if i < 2 {
      assert ComesAfter(941, 947) && ComesAfter(947, 953);
    } else if i < 4 {
      assert ComesAfter(953, 967) && ComesAfter(967, 971);
    } else if i < 6 {
      assert ComesAfter(971, 977) && ComesAfter(977, 983);
    } else {
      assert ComesAfter(983, 991) && ComesAfter(991, 997);
    }
  }

  lemma Row10High(i: nat)
    requires 8 <= i < 16
    ensures ComesAfter(TAB10[i - 1], TAB10[i])
  {
    if i < 10 {
      assert ComesAfter(997, 1009) && ComesAfter(1009, 1013);
    } else if i < 12 {
      assert ComesAfter(1013, 1019) && ComesAfter(1019, 1021);
    } else if i < 14 {
      assert ComesAfter(1021, 1031) && ComesAfter(1031, 1033);
    } else {
      assert ComesAfter(1033, 1039) && ComesAfter(1039, 1049);
    }
  }

  lemma Row11Low(i: nat)
    requires i < 8
    ensures ComesAfter(if i > 0 then TAB11[i - 1] else TAB10[15], TAB11[i])
  {
    if i < 2 {
      assert ComesAfter(1049, 1051) && ComesAfter(1051, 1061);
    } else if i < 4 {
      assert ComesAfter(1061, 1063) && ComesAfter(1063, 1069);
    } else if i < 6 {
      assert ComesAfter(1069, 1087) && ComesAfter(1087, 1091);
    } else {
      assert ComesAfter(1091, 1093) && ComesAfter(1093, 1097);
    }
  }

  lemma Row11High(i: nat)
    requires 8 <= i < 16
    ensures ComesAfter(TAB11[i - 1], TAB11[i])
  {
    if i < 10 {
      assert ComesAfter(1097, 1103) && ComesAfter(1103, 1109);
    } else if i < 12 {
      assert ComesAfter(1109, 1117) && ComesAfter(1117, 1123);
    } else if i < 14 {
      assert ComesAfter(1123, 1129) && ComesAfter(1129, 1151);
    } else {
      assert ComesAfter(1151, 1153) && ComesAfter(1153, 1163);
    }
  }

  lemma Row12Low(i: nat)
    requires i < 8
    ensures ComesAfter(if i > 0 then TAB12[i - 1] else TAB11[15], TAB12[i])
  {
    if i < 2 {
      assert ComesAfter(1163, 1171) && ComesAfter(1171, 1181);
    } else if i < 4 {
      assert ComesAfter(1181, 1187) && ComesAfter(1187, 1193);
    } else if i < 6 {
      assert ComesAfter(1193, 1201) && ComesAfter(1201, 1213);
    } else {
      assert ComesAfter(1213, 1217) && ComesAfter(1217, 1223);
    }
  }

  lemma Row12High(i: nat)
    requires 8 <= i < 16
    ensures ComesAfter(TAB12[i - 1], TAB12[i])
  {
    if i < 10 {
      assert ComesAfter(1223, 1229) && ComesAfter(1229, 1231);
    } else if i < 12 {
      assert ComesAfter(1231, 1237) && ComesAfter(1237, 1249);
    } else if i < 14 {
      assert ComesAfter(1249, 1259) && ComesAfter(1259, 1277);
    } else {
      assert ComesAfter(1277, 1279) && ComesAfter(1279, 1283);
    }
  }

  lemma Row13Low(i: nat)
    requires i < 8
    ensures ComesAfter(if i > 0 then TAB13[i - 1] else TAB12[15], TAB13[i])
  {
    if i < 2 {
      assert ComesAfter(1283, 1289) && ComesAfter(1289, 1291);
    } else if i < 4 {
      assert ComesAfter(1291, 1297) && ComesAfter(1297, 1301);
    } else if i < 6 {
      assert ComesAfter(1301, 1303) && ComesAfter(1303, 1307);
    } else {
      assert ComesAfter(1307, 1319) && ComesAfter(1319, 1321);
    }
  }

  lemma Row13High(i: nat)
    requires 8 <= i < 16
    ensures ComesAfter(TAB13[i - 1], TAB13[i])
  {
    if i < 10 {
      assert Untried(1345, 1361);
      assert ComesAfter(1321, 1327) && ComesAfter(1327, 1361);
    } else if i < 12 {
      assert ComesAfter(1361, 1367) && ComesAfter(1367, 1373);
    } else if i < 14 {
      assert ComesAfter(1373, 1381) && ComesAfter(1381, 1399);
    } else {
      assert ComesAfter(1399, 1409) && ComesAfter(1409, 1423);
    }
  }

  lemma Row14Low(i: nat)
    requires i < 8
    ensures ComesAfter(if i > 0 then TAB14[i - 1] else TAB13[15], TAB14[i])
  {
    if i < 2 {
      assert ComesAfter(1423, 1427) && ComesAfter(1427, 1429);
    } else if i < 4 {
      assert ComesAfter(1429, 1433) && ComesAfter(1433, 1439);
    } else if i < 6 {
      assert ComesAfter(1439, 1447) && ComesAfter(1447, 1451);
    } else {
      assert ComesAfter(1451, 1453) && ComesAfter(1453, 1459);
    }
  }

  lemma Row14High(i: nat)
    requires 8 <= i < 16
    ensures ComesAfter(TAB14[i - 1], TAB14[i])
  {
    if i < 10 {
      assert ComesAfter(1459, 1471) && ComesAfter(1471, 1481);
    } else if i < 12 {
      assert ComesAfter(1481, 1483) && ComesAfter(1483, 1487);
    } else if i < 14 {
      assert ComesAfter(1487, 1489) && ComesAfter(1489, 1493);
    } else {
      assert ComesAfter(1493, 1499) && ComesAfter(1499, 1511);
    }
  }

  lemma Row15Low(i: nat)
    requires i < 8
    ensures ComesAfter(if i > 0 then TAB15[i - 1] else TAB14[15], TAB15[i])
  {
    if i < 2 {
      assert ComesAfter(1511, 1523) && ComesAfter(1523, 1531);
    } else if i < 4 {
      assert ComesAfter(1531, 1543) && ComesAfter(1543, 1549);
    } else if i < 6 {
      assert ComesAfter(1549, 1553) && ComesAfter(1553, 1559);
    } else {
      assert ComesAfter(1559, 1567) && ComesAfter(1567, 1571);
    }
  }

  lemma Row15High(i: nat)
    requires 8 <= i < 16
    ensures ComesAfter(TAB15[i - 1], TAB15[i])
  {
    if i < 10 {
      assert ComesAfter(1571, 1579) && ComesAfter(1579, 1583);
    } else if i < 12 {
      assert ComesAfter(1583, 1597) && ComesAfter(1597, 1601);
    } else if i < 14 {
      assert ComesAfter(1601, 1607) && ComesAfter(1607, 1609);
    } else {
      assert ComesAfter(1609, 1613) && ComesAfter(1613, 1619);
    }
  }

  /** Every entry but the first follows the entry before it. */
  lemma EntryComesAfter(i: nat)
    requires 0 < i < PRIME_SIZE
    ensures ComesAfter(PrimeTab(i - 1), PrimeTab(i))
  {
    if i < 16 {
      if i < 8 {
        Row0Low(i);
      } else {
        Row0High(i);
      }
    } else if i < 32 {
      if i - 16 < 8 {
        Row1Low(i - 16);
      } else {
        Row1High(i - 16);
      }
    } else if i < 48 {
      if i - 32 < 8 {
        Row2Low(i - 32);
      } else {
        Row2High(i - 32);
      }
    } else if i < 64 {
      if i - 48 < 8 {
        Row3Low(i - 48);
      } else {
        Row3High(i - 48);
      }
    } else if i < 80 {
      if i - 64 < 8 {
        Row4Low(i - 64);
      } else {
        Row4High(i - 64);
      }
    } else if i < 96 {
      if i - 80 < 8 {
        Row5Low(i - 80);
      } else {
        Row5High(i - 80);
      }
    } else if i < 112 {
      if i - 96 < 8 {
        Row6Low(i - 96);
      } else {
        Row6High(i - 96);
      }
    } else if i < 128 {
      if i - 112 < 8 {
        Row7Low(i - 112);
      } else {
        Row7High(i - 112);
      }
    } else if i < 144 {
      if i - 128 < 8 {
        Row8Low(i - 128);
      } else {
        Row8High(i - 128);
      }
    } else if i < 160 {
      if i - 144 < 8 {
        Row9Low(i - 144);
      } else {
        Row9High(i - 144);
      }
    } else if i < 176 {
      if i - 160 < 8 {
        Row10Low(i - 160);
      } else {
        Row10High(i - 160);
      }
    } else if i < 192 {
      if i - 176 < 8 {
        Row11Low(i - 176);
      } else {
        Row11High(i - 176);
      }
    } else if i < 208 {
      if i - 192 < 8 {
        Row12Low(i - 192);
      } else {
        Row12High(i - 192);
      }
    } else if i < 224 {
      if i - 208 < 8 {
        Row13Low(i - 208);
      } else {
        Row13High(i - 208);
      }
    } else if i < 240 {
      if i - 224 < 8 {
        Row14Low(i - 224);
      } else {
        Row14High(i - 224);
      }
    } else {
      if i - 240 < 8 {
        Row15Low(i - 240);
      } else {
        Row15High(i - 240);
      }
    }
  }

  /** The entries ascend. */
  lemma {:induction false} TableAscends(i: nat, j: nat)
    requires i < j < PRIME_SIZE
    ensures PrimeTab(i) < PrimeTab(j)
  {
    EntryComesAfter(j);
    if i < j - 1 {
      TableAscends(i, j - 1);
    }
  }

  lemma EntryTried(i: nat)
    requires i < PRIME_SIZE
    ensures Tried(PrimeTab(i))
  {
    if i == 0 {
      assert Tried(2);
    } else {
      EntryComesAfter(i);
    }
  }

  /** Whatever is tried and not above entry i is entry i or one before it. */
  lemma {:induction false} FindEntry(n: nat, i: nat) returns (j: nat)
    requires i < PRIME_SIZE && Tried(n) && n <= PrimeTab(i)
    ensures j <= i && PrimeTab(j) == n
  {
    j := i;
    if 0 < i && n < PrimeTab(i) {
      EntryComesAfter(i);
      if n > PrimeTab(i - 1) {
        NothingBetween(PrimeTab(i - 1), PrimeTab(i), n);
      }
      j := FindEntry(n, i - 1);
    }
  }
}
