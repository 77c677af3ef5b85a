/** The powers of 2 in GF(2^8) with primitive polynomial 0x11D: the contents of the
    exponential table (arm_sve.rs GF_EXP, gf/mod.rs build_exp_table). */
module Gf256Powers {

  /** Addition, and subtraction, is XOR. */
  function GfAdd(a: bv8, b: bv8): bv8 { a ^ b }

  /** Multiplication by 2: shift, and reduce when a ninth bit appears. */
  function Double(x: bv8): bv8 {
    if x & 0x80 == 0 then x << 1 else (x << 1) ^ 0x1D
  }

  // ---- iterating a linear injection ----

  function Iterate<T>(f: T -> T, i: nat, b: T): T {
    if i == 0 then b else f(Iterate(f, i - 1, b))
  }

  predicate Both<T>(x: T, y: T) { true }

  ghost predicate Linear<T(!new)>(add: (T, T) -> T, f: T -> T) {
    forall x, y {:trigger Both(x, y)} :: Both(x, y) ==> f(add(x, y)) == add(f(x), f(y))
  }

  ghost predicate Injective<T(!new)>(f: T -> T) {
    forall x, y {:trigger Both(x, y)} :: Both(x, y) && f(x) == f(y) ==> x == y
  }

  lemma {:induction false} IterateAdds<T(!new)>(f: T -> T, i: nat, j: nat, b: T)
    ensures Iterate(f, i, Iterate(f, j, b)) == Iterate(f, i + j, b)
  {
    if i > 0 {
      IterateAdds(f, i - 1, j, b);
    }
  }

  lemma {:induction false} IterateLinear<T(!new)>(add: (T, T) -> T, f: T -> T, i: nat, a: T, b: T)
    requires Linear(add, f)
    ensures Iterate(f, i, add(a, b)) == add(Iterate(f, i, a), Iterate(f, i, b))
  {
    if i > 0 {
      IterateLinear(add, f, i - 1, a, b);
      assert Both(Iterate(f, i - 1, a), Iterate(f, i - 1, b));
    }
  }

  lemma {:induction false} IterateInjective<T(!new)>(f: T -> T, i: nat, a: T, b: T)
    requires Injective(f)
    requires Iterate(f, i, a) == Iterate(f, i, b)
    ensures a == b
  {
    if i > 0 {
      assert Both(Iterate(f, i - 1, a), Iterate(f, i - 1, b));
      IterateInjective(f, i - 1, a, b);
    }
  }

  lemma {:induction false} IterateFixed<T(!new)>(f: T -> T, i: nat, b: T)
    requires f(b) == b
    ensures Iterate(f, i, b) == b
  {
    if i > 0 {
      IterateFixed(f, i - 1, b);
    }
  }

  // ---- doubling is a linear injection ----

  lemma ShiftLinear(a: bv8, b: bv8)
    ensures (a ^ b) << 1 == (a << 1) ^ (b << 1)
  {
  }

  lemma TopBitLinear(a: bv8, b: bv8)
    ensures (a ^ b) & 0x80 == (a & 0x80) ^ (b & 0x80)
    ensures a & 0x80 == 0 || a & 0x80 == 0x80
  {
  }

  lemma XorMoves(p: bv8, q: bv8, c: bv8)
    ensures (p ^ q) ^ c == (p ^ c) ^ q == p ^ (q ^ c)
    ensures (p ^ c) ^ (q ^ c) == p ^ q
  {
  }

  lemma DoubleAdds(a: bv8, b: bv8)
    ensures Double(GfAdd(a, b)) == GfAdd(Double(a), Double(b))
  {
    ShiftLinear(a, b);
    TopBitLinear(a, b);
    TopBitLinear(b, a);
    XorMoves(a << 1, b << 1, 0x1D);
  }

  lemma DoubleCancels(a: bv8, b: bv8)
    requires Double(a) == Double(b)
    ensures a == b
  {
  }

  lemma DoubleLinear()
    ensures Linear(GfAdd, Double) && Injective(Double)
  {
    forall x, y | Both(x, y) ensures Double(GfAdd(x, y)) == GfAdd(Double(x), Double(y)) {
      DoubleAdds(x, y);
    }
    forall x, y | Both(x, y) && Double(x) == Double(y) ensures x == y {
      DoubleCancels(x, y);
    }
  }

  /** The powers of 2. */
  function Alpha(i: nat): bv8 {
    Iterate(Double, i, 1)
  }

  // ---- the table, seventeen entries at a time ----

  lemma Seventeen(i: nat)
    ensures Alpha(i + 1) == Double(Alpha(i + 0))
    ensures Alpha(i + 2) == Double(Alpha(i + 1))
    ensures Alpha(i + 3) == Double(Alpha(i + 2))
    ensures Alpha(i + 4) == Double(Alpha(i + 3))
    ensures Alpha(i + 5) == Double(Alpha(i + 4))
    ensures Alpha(i + 6) == Double(Alpha(i + 5))
    ensures Alpha(i + 7) == Double(Alpha(i + 6))
    ensures Alpha(i + 8) == Double(Alpha(i + 7))
    ensures Alpha(i + 9) == Double(Alpha(i + 8))
    ensures Alpha(i + 10) == Double(Alpha(i + 9))
    ensures Alpha(i + 11) == Double(Alpha(i + 10))
    ensures Alpha(i + 12) == Double(Alpha(i + 11))
    ensures Alpha(i + 13) == Double(Alpha(i + 12))
    ensures Alpha(i + 14) == Double(Alpha(i + 13))
    ensures Alpha(i + 15) == Double(Alpha(i + 14))
    ensures Alpha(i + 16) == Double(Alpha(i + 15))
    ensures Alpha(i + 17) == Double(Alpha(i + 16))
  {
  }

  lemma PowersFrom0()
    ensures Alpha(1) == 2 && Alpha(2) == 4 && Alpha(3) == 8 && Alpha(4) == 16 && Alpha(5) == 32 && Alpha(6) == 64
         && Alpha(7) == 128 && Alpha(8) == 29 && Alpha(9) == 58 && Alpha(10) == 116 && Alpha(11) == 232 && Alpha(12) == 205
         && Alpha(13) == 135 && Alpha(14) == 19 && Alpha(15) == 38 && Alpha(16) == 76 && Alpha(17) == 152
  {
    Seventeen(0);
  }

  lemma PowersFrom17()
    ensures Alpha(18) == 45 && Alpha(19) == 90 && Alpha(20) == 180 && Alpha(21) == 117 && Alpha(22) == 234 && Alpha(23) == 201
         && Alpha(24) == 143 && Alpha(25) == 3 && Alpha(26) == 6 && Alpha(27) == 12 && Alpha(28) == 24 && Alpha(29) == 48
         && Alpha(30) == 96 && Alpha(31) == 192 && Alpha(32) == 157 && Alpha(33) == 39 && Alpha(34) == 78
  {
    PowersFrom0();
    Seventeen(17);
  }

  lemma PowersFrom34()
    ensures Alpha(35) == 156 && Alpha(36) == 37 && Alpha(37) == 74 && Alpha(38) == 148 && Alpha(39) == 53 && Alpha(40) == 106
         && Alpha(41) == 212 && Alpha(42) == 181 && Alpha(43) == 119 && Alpha(44) == 238 && Alpha(45) == 193 && Alpha(46) == 159
         && Alpha(47) == 35 && Alpha(48) == 70 && Alpha(49) == 140 && Alpha(50) == 5 && Alpha(51) == 10
  {
    PowersFrom17();
    Seventeen(34);
  }

  lemma PowersFrom51()
    ensures Alpha(52) == 20 && Alpha(53) == 40 && Alpha(54) == 80 && Alpha(55) == 160 && Alpha(56) == 93 && Alpha(57) == 186
         && Alpha(58) == 105 && Alpha(59) == 210 && Alpha(60) == 185 && Alpha(61) == 111 && Alpha(62) == 222 && Alpha(63) == 161
         && Alpha(64) == 95 && Alpha(65) == 190 && Alpha(66) == 97 && Alpha(67) == 194 && Alpha(68) == 153
  {
    PowersFrom34();
    Seventeen(51);
  }

  lemma PowersFrom68()
    ensures Alpha(69) == 47 && Alpha(70) == 94 && Alpha(71) == 188 && Alpha(72) == 101 && Alpha(73) == 202 && Alpha(74) == 137
         && Alpha(75) == 15 && Alpha(76) == 30 && Alpha(77) == 60 && Alpha(78) == 120 && Alpha(79) == 240 && Alpha(80) == 253
         && Alpha(81) == 231 && Alpha(82) == 211 && Alpha(83) == 187 && Alpha(84) == 107 && Alpha(85) == 214
  {
    PowersFrom51();
    Seventeen(68);
  }

  lemma PowersFrom85()
    ensures Alpha(86) == 177 && Alpha(87) == 127 && Alpha(88) == 254 && Alpha(89) == 225 && Alpha(90) == 223 && Alpha(91) == 163
         && Alpha(92) == 91 && Alpha(93) == 182 && Alpha(94) == 113 && Alpha(95) == 226 && Alpha(96) == 217 && Alpha(97) == 175
         && Alpha(98) == 67 && Alpha(99) == 134 && Alpha(100) == 17 && Alpha(101) == 34 && Alpha(102) == 68
  {
    PowersFrom68();
    Seventeen(85);
  }

  lemma PowersFrom102()
    ensures Alpha(103) == 136 && Alpha(104) == 13 && Alpha(105) == 26 && Alpha(106) == 52 && Alpha(107) == 104 && Alpha(108) == 208
         && Alpha(109) == 189 && Alpha(110) == 103 && Alpha(111) == 206 && Alpha(112) == 129 && Alpha(113) == 31 && Alpha(114) == 62
         && Alpha(115) == 124 && Alpha(116) == 248 && Alpha(117) == 237 && Alpha(118) == 199 && Alpha(119) == 147
  {
    PowersFrom85();
    Seventeen(102);
  }

  lemma PowersFrom119()
    ensures Alpha(120) == 59 && Alpha(121) == 118 && Alpha(122) == 236 && Alpha(123) == 197 && Alpha(124) == 151 && Alpha(125) == 51
         && Alpha(126) == 102 && Alpha(127) == 204 && Alpha(128) == 133 && Alpha(129) == 23 && Alpha(130) == 46 && Alpha(131) == 92
         && Alpha(132) == 184 && Alpha(133) == 109 && Alpha(134) == 218 && Alpha(135) == 169 && Alpha(136) == 79
  {
    PowersFrom102();
    Seventeen(119);
  }

  lemma PowersFrom136()
    ensures Alpha(137) == 158 && Alpha(138) == 33 && Alpha(139) == 66 && Alpha(140) == 132 && Alpha(141) == 21 && Alpha(142) == 42
         && Alpha(143) == 84 && Alpha(144) == 168 && Alpha(145) == 77 && Alpha(146) == 154 && Alpha(147) == 41 && Alpha(148) == 82
         && Alpha(149) == 164 && Alpha(150) == 85 && Alpha(151) == 170 && Alpha(152) == 73 && Alpha(153) == 146
  {
    PowersFrom119();
    Seventeen(136);
  }

  lemma PowersFrom153()
    ensures Alpha(154) == 57 && Alpha(155) == 114 && Alpha(156) == 228 && Alpha(157) == 213 && Alpha(158) == 183 && Alpha(159) == 115
         && Alpha(160) == 230 && Alpha(161) == 209 && Alpha(162) == 191 && Alpha(163) == 99 && Alpha(164) == 198 && Alpha(165) == 145
         && Alpha(166) == 63 && Alpha(167) == 126 && Alpha(168) == 252 && Alpha(169) == 229 && Alpha(170) == 215
  {
    PowersFrom136();
    Seventeen(153);
  }

  lemma PowersFrom170()
    ensures Alpha(171) == 179 && Alpha(172) == 123 && Alpha(173) == 246 && Alpha(174) == 241 && Alpha(175) == 255 && Alpha(176) == 227
         && Alpha(177) == 219 && Alpha(178) == 171 && Alpha(179) == 75 && Alpha(180) == 150 && Alpha(181) == 49 && Alpha(182) == 98
         && Alpha(183) == 196 && Alpha(184) == 149 && Alpha(185) == 55 && Alpha(186) == 110 && Alpha(187) == 220
  {
    PowersFrom153();
    Seventeen(170);
  }

  lemma PowersFrom187()
    ensures Alpha(188) == 165 && Alpha(189) == 87 && Alpha(190) == 174 && Alpha(191) == 65 && Alpha(192) == 130 && Alpha(193) == 25
         && Alpha(194) == 50 && Alpha(195) == 100 && Alpha(196) == 200 && Alpha(197) == 141 && Alpha(198) == 7 && Alpha(199) == 14
         && Alpha(200) == 28 && Alpha(201) == 56 && Alpha(202) == 112 && Alpha(203) == 224 && Alpha(204) == 221
  {
    PowersFrom170();
    Seventeen(187);
  }

  lemma PowersFrom204()
    ensures Alpha(205) == 167 && Alpha(206) == 83 && Alpha(207) == 166 && Alpha(208) == 81 && Alpha(209) == 162 && Alpha(210) == 89
         && Alpha(211) == 178 && Alpha(212) == 121 && Alpha(213) == 242 && Alpha(214) == 249 && Alpha(215) == 239 && Alpha(216) == 195
         && Alpha(217) == 155 && Alpha(218) == 43 && Alpha(219) == 86 && Alpha(220) == 172 && Alpha(221) == 69
  {
    PowersFrom187();
    Seventeen(204);
  }

  lemma PowersFrom221()
    ensures Alpha(222) == 138 && Alpha(223) == 9 && Alpha(224) == 18 && Alpha(225) == 36 && Alpha(226) == 72 && Alpha(227) == 144
         && Alpha(228) == 61 && Alpha(229) == 122 && Alpha(230) == 244 && Alpha(231) == 245 && Alpha(232) == 247 && Alpha(233) == 243
         && Alpha(234) == 251 && Alpha(235) == 235 && Alpha(236) == 203 && Alpha(237) == 139 && Alpha(238) == 11
  {
    PowersFrom204();
    Seventeen(221);
  }

  lemma PowersFrom238()
    ensures Alpha(239) == 22 && Alpha(240) == 44 && Alpha(241) == 88 && Alpha(242) == 176 && Alpha(243) == 125 && Alpha(244) == 250
         && Alpha(245) == 233 && Alpha(246) == 207 && Alpha(247) == 131 && Alpha(248) == 27 && Alpha(249) == 54 && Alpha(250) == 108
         && Alpha(251) == 216 && Alpha(252) == 173 && Alpha(253) == 71 && Alpha(254) == 142 && Alpha(255) == 1
  {
    PowersFrom221();
    Seventeen(238);
  }
}
