/** quirc's exponent and logarithm tables for the field of 256 elements: they are those of the
    powers of 2, and make it a field. */
module Galois256Tables {
  import opened Galois
  import opened Galois256

  lemma NextExp(k: nat, x: bv8, y: bv8)
    requires Exp(k) == x && y == Double(x)
    ensures Exp(k + 1) == y
  {
  }

  // `gf256_exp`, row by row.
  lemma ExpRow0()
    ensures Exp(0) == 0x01 && Exp(1) == 0x02 && Exp(2) == 0x04 && Exp(3) == 0x08 && Exp(4) == 0x10 && Exp(5) == 0x20 && Exp(6) == 0x40 && Exp(7) == 0x80
    ensures Exp(8) == 0x1D && Exp(9) == 0x3A && Exp(10) == 0x74 && Exp(11) == 0xE8 && Exp(12) == 0xCD && Exp(13) == 0x87 && Exp(14) == 0x13 && Exp(15) == 0x26
  {
    assert Exp(0) == 1;
    hide Exp;
    NextExp(0, 0x01, 0x02); NextExp(1, 0x02, 0x04); NextExp(2, 0x04, 0x08); NextExp(3, 0x08, 0x10);
    NextExp(4, 0x10, 0x20); NextExp(5, 0x20, 0x40); NextExp(6, 0x40, 0x80); NextExp(7, 0x80, 0x1D);
    NextExp(8, 0x1D, 0x3A); NextExp(9, 0x3A, 0x74); NextExp(10, 0x74, 0xE8); NextExp(11, 0xE8, 0xCD);
    NextExp(12, 0xCD, 0x87); NextExp(13, 0x87, 0x13); NextExp(14, 0x13, 0x26);
  }

  lemma ExpRow1()
    ensures Exp(16) == 0x4C && Exp(17) == 0x98 && Exp(18) == 0x2D && Exp(19) == 0x5A && Exp(20) == 0xB4 && Exp(21) == 0x75 && Exp(22) == 0xEA && Exp(23) == 0xC9
    ensures Exp(24) == 0x8F && Exp(25) == 0x03 && Exp(26) == 0x06 && Exp(27) == 0x0C && Exp(28) == 0x18 && Exp(29) == 0x30 && Exp(30) == 0x60 && Exp(31) == 0xC0
  {
    hide Exp;
    ExpRow0();
    NextExp(15, 0x26, 0x4C); NextExp(16, 0x4C, 0x98); NextExp(17, 0x98, 0x2D); NextExp(18, 0x2D, 0x5A);
    NextExp(19, 0x5A, 0xB4); NextExp(20, 0xB4, 0x75); NextExp(21, 0x75, 0xEA); NextExp(22, 0xEA, 0xC9);
    NextExp(23, 0xC9, 0x8F); NextExp(24, 0x8F, 0x03); NextExp(25, 0x03, 0x06); NextExp(26, 0x06, 0x0C);
    NextExp(27, 0x0C, 0x18); NextExp(28, 0x18, 0x30); NextExp(29, 0x30, 0x60); NextExp(30, 0x60, 0xC0);
  }

  lemma ExpRow2()
    ensures Exp(32) == 0x9D && Exp(33) == 0x27 && Exp(34) == 0x4E && Exp(35) == 0x9C && Exp(36) == 0x25 && Exp(37) == 0x4A && Exp(38) == 0x94 && Exp(39) == 0x35
    ensures Exp(40) == 0x6A && Exp(41) == 0xD4 && Exp(42) == 0xB5 && Exp(43) == 0x77 && Exp(44) == 0xEE && Exp(45) == 0xC1 && Exp(46) == 0x9F && Exp(47) == 0x23
  {
    hide Exp;
    ExpRow1();
    NextExp(31, 0xC0, 0x9D); NextExp(32, 0x9D, 0x27); NextExp(33, 0x27, 0x4E); NextExp(34, 0x4E, 0x9C);
    NextExp(35, 0x9C, 0x25); NextExp(36, 0x25, 0x4A); NextExp(37, 0x4A, 0x94); NextExp(38, 0x94, 0x35);
    NextExp(39, 0x35, 0x6A); NextExp(40, 0x6A, 0xD4); NextExp(41, 0xD4, 0xB5); NextExp(42, 0xB5, 0x77);
    NextExp(43, 0x77, 0xEE); NextExp(44, 0xEE, 0xC1); NextExp(45, 0xC1, 0x9F); NextExp(46, 0x9F, 0x23);
  }

  lemma ExpRow3()
    ensures Exp(48) == 0x46 && Exp(49) == 0x8C && Exp(50) == 0x05 && Exp(51) == 0x0A && Exp(52) == 0x14 && Exp(53) == 0x28 && Exp(54) == 0x50 && Exp(55) == 0xA0
    ensures Exp(56) == 0x5D && Exp(57) == 0xBA && Exp(58) == 0x69 && Exp(59) == 0xD2 && Exp(60) == 0xB9 && Exp(61) == 0x6F && Exp(62) == 0xDE && Exp(63) == 0xA1
  {
    hide Exp;
    ExpRow2();
    NextExp(47, 0x23, 0x46); NextExp(48, 0x46, 0x8C); NextExp(49, 0x8C, 0x05); NextExp(50, 0x05, 0x0A);
    NextExp(51, 0x0A, 0x14); NextExp(52, 0x14, 0x28); NextExp(53, 0x28, 0x50); NextExp(54, 0x50, 0xA0);
    NextExp(55, 0xA0, 0x5D); NextExp(56, 0x5D, 0xBA); NextExp(57, 0xBA, 0x69); NextExp(58, 0x69, 0xD2);
    NextExp(59, 0xD2, 0xB9); NextExp(60, 0xB9, 0x6F); NextExp(61, 0x6F, 0xDE); NextExp(62, 0xDE, 0xA1);
  }

  lemma ExpRow4()
    ensures Exp(64) == 0x5F && Exp(65) == 0xBE && Exp(66) == 0x61 && Exp(67) == 0xC2 && Exp(68) == 0x99 && Exp(69) == 0x2F && Exp(70) == 0x5E && Exp(71) == 0xBC
    ensures Exp(72) == 0x65 && Exp(73) == 0xCA && Exp(74) == 0x89 && Exp(75) == 0x0F && Exp(76) == 0x1E && Exp(77) == 0x3C && Exp(78) == 0x78 && Exp(79) == 0xF0
  {
    hide Exp;
    ExpRow3();
    NextExp(63, 0xA1, 0x5F); NextExp(64, 0x5F, 0xBE); NextExp(65, 0xBE, 0x61); NextExp(66, 0x61, 0xC2);
    NextExp(67, 0xC2, 0x99); NextExp(68, 0x99, 0x2F); NextExp(69, 0x2F, 0x5E); NextExp(70, 0x5E, 0xBC);
    NextExp(71, 0xBC, 0x65); NextExp(72, 0x65, 0xCA); NextExp(73, 0xCA, 0x89); NextExp(74, 0x89, 0x0F);
    NextExp(75, 0x0F, 0x1E); NextExp(76, 0x1E, 0x3C); NextExp(77, 0x3C, 0x78); NextExp(78, 0x78, 0xF0);
  }

  lemma ExpRow5()
    ensures Exp(80) == 0xFD && Exp(81) == 0xE7 && Exp(82) == 0xD3 && Exp(83) == 0xBB && Exp(84) == 0x6B && Exp(85) == 0xD6 && Exp(86) == 0xB1 && Exp(87) == 0x7F
    ensures Exp(88) == 0xFE && Exp(89) == 0xE1 && Exp(90) == 0xDF && Exp(91) == 0xA3 && Exp(92) == 0x5B && Exp(93) == 0xB6 && Exp(94) == 0x71 && Exp(95) == 0xE2
  {
    hide Exp;
    ExpRow4();
    NextExp(79, 0xF0, 0xFD); NextExp(80, 0xFD, 0xE7); NextExp(81, 0xE7, 0xD3); NextExp(82, 0xD3, 0xBB);
    NextExp(83, 0xBB, 0x6B); NextExp(84, 0x6B, 0xD6); NextExp(85, 0xD6, 0xB1); NextExp(86, 0xB1, 0x7F);
    NextExp(87, 0x7F, 0xFE); NextExp(88, 0xFE, 0xE1); NextExp(89, 0xE1, 0xDF); NextExp(90, 0xDF, 0xA3);
    NextExp(91, 0xA3, 0x5B); NextExp(92, 0x5B, 0xB6); NextExp(93, 0xB6, 0x71); NextExp(94, 0x71, 0xE2);
  }

  lemma ExpRow6()
    ensures Exp(96) == 0xD9 && Exp(97) == 0xAF && Exp(98) == 0x43 && Exp(99) == 0x86 && Exp(100) == 0x11 && Exp(101) == 0x22 && Exp(102) == 0x44 && Exp(103) == 0x88
    ensures Exp(104) == 0x0D && Exp(105) == 0x1A && Exp(106) == 0x34 && Exp(107) == 0x68 && Exp(108) == 0xD0 && Exp(109) == 0xBD && Exp(110) == 0x67 && Exp(111) == 0xCE
  {
    hide Exp;
    ExpRow5();
    NextExp(95, 0xE2, 0xD9); NextExp(96, 0xD9, 0xAF); NextExp(97, 0xAF, 0x43); NextExp(98, 0x43, 0x86);
    NextExp(99, 0x86, 0x11); NextExp(100, 0x11, 0x22); NextExp(101, 0x22, 0x44); NextExp(102, 0x44, 0x88);
    NextExp(103, 0x88, 0x0D); NextExp(104, 0x0D, 0x1A); NextExp(105, 0x1A, 0x34); NextExp(106, 0x34, 0x68);
    NextExp(107, 0x68, 0xD0); NextExp(108, 0xD0, 0xBD); NextExp(109, 0xBD, 0x67); NextExp(110, 0x67, 0xCE);
  }

  lemma ExpRow7()
    ensures Exp(112) == 0x81 && Exp(113) == 0x1F && Exp(114) == 0x3E && Exp(115) == 0x7C && Exp(116) == 0xF8 && Exp(117) == 0xED && Exp(118) == 0xC7 && Exp(119) == 0x93
    ensures Exp(120) == 0x3B && Exp(121) == 0x76 && Exp(122) == 0xEC && Exp(123) == 0xC5 && Exp(124) == 0x97 && Exp(125) == 0x33 && Exp(126) == 0x66 && Exp(127) == 0xCC
  {
    hide Exp;
    ExpRow6();
    NextExp(111, 0xCE, 0x81); NextExp(112, 0x81, 0x1F); NextExp(113, 0x1F, 0x3E); NextExp(114, 0x3E, 0x7C);
    NextExp(115, 0x7C, 0xF8); NextExp(116, 0xF8, 0xED); NextExp(117, 0xED, 0xC7); NextExp(118, 0xC7, 0x93);
    NextExp(119, 0x93, 0x3B); NextExp(120, 0x3B, 0x76); NextExp(121, 0x76, 0xEC); NextExp(122, 0xEC, 0xC5);
    NextExp(123, 0xC5, 0x97); NextExp(124, 0x97, 0x33); NextExp(125, 0x33, 0x66); NextExp(126, 0x66, 0xCC);
  }

  lemma ExpRow8()
    ensures Exp(128) == 0x85 && Exp(129) == 0x17 && Exp(130) == 0x2E && Exp(131) == 0x5C && Exp(132) == 0xB8 && Exp(133) == 0x6D && Exp(134) == 0xDA && Exp(135) == 0xA9
    ensures Exp(136) == 0x4F && Exp(137) == 0x9E && Exp(138) == 0x21 && Exp(139) == 0x42 && Exp(140) == 0x84 && Exp(141) == 0x15 && Exp(142) == 0x2A && Exp(143) == 0x54
  {
    hide Exp;
    ExpRow7();
    NextExp(127, 0xCC, 0x85); NextExp(128, 0x85, 0x17); NextExp(129, 0x17, 0x2E); NextExp(130, 0x2E, 0x5C);
    NextExp(131, 0x5C, 0xB8); NextExp(132, 0xB8, 0x6D); NextExp(133, 0x6D, 0xDA); NextExp(134, 0xDA, 0xA9);
    NextExp(135, 0xA9, 0x4F); NextExp(136, 0x4F, 0x9E); NextExp(137, 0x9E, 0x21); NextExp(138, 0x21, 0x42);
    NextExp(139, 0x42, 0x84); NextExp(140, 0x84, 0x15); NextExp(141, 0x15, 0x2A); NextExp(142, 0x2A, 0x54);
  }

  lemma ExpRow9()
    ensures Exp(144) == 0xA8 && Exp(145) == 0x4D && Exp(146) == 0x9A && Exp(147) == 0x29 && Exp(148) == 0x52 && Exp(149) == 0xA4 && Exp(150) == 0x55 && Exp(151) == 0xAA
    ensures Exp(152) == 0x49 && Exp(153) == 0x92 && Exp(154) == 0x39 && Exp(155) == 0x72 && Exp(156) == 0xE4 && Exp(157) == 0xD5 && Exp(158) == 0xB7 && Exp(159) == 0x73
  {
    hide Exp;
    ExpRow8();
    NextExp(143, 0x54, 0xA8); NextExp(144, 0xA8, 0x4D); NextExp(145, 0x4D, 0x9A); NextExp(146, 0x9A, 0x29);
    NextExp(147, 0x29, 0x52); NextExp(148, 0x52, 0xA4); NextExp(149, 0xA4, 0x55); NextExp(150, 0x55, 0xAA);
    NextExp(151, 0xAA, 0x49); NextExp(152, 0x49, 0x92); NextExp(153, 0x92, 0x39); NextExp(154, 0x39, 0x72);
    NextExp(155, 0x72, 0xE4); NextExp(156, 0xE4, 0xD5); NextExp(157, 0xD5, 0xB7); NextExp(158, 0xB7, 0x73);
  }

  lemma ExpRow10()
    ensures Exp(160) == 0xE6 && Exp(161) == 0xD1 && Exp(162) == 0xBF && Exp(163) == 0x63 && Exp(164) == 0xC6 && Exp(165) == 0x91 && Exp(166) == 0x3F && Exp(167) == 0x7E
    ensures Exp(168) == 0xFC && Exp(169) == 0xE5 && Exp(170) == 0xD7 && Exp(171) == 0xB3 && Exp(172) == 0x7B && Exp(173) == 0xF6 && Exp(174) == 0xF1 && Exp(175) == 0xFF
  {
    hide Exp;
    ExpRow9();
    NextExp(159, 0x73, 0xE6); NextExp(160, 0xE6, 0xD1); NextExp(161, 0xD1, 0xBF); NextExp(162, 0xBF, 0x63);
    NextExp(163, 0x63, 0xC6); NextExp(164, 0xC6, 0x91); NextExp(165, 0x91, 0x3F); NextExp(166, 0x3F, 0x7E);
    NextExp(167, 0x7E, 0xFC); NextExp(168, 0xFC, 0xE5); NextExp(169, 0xE5, 0xD7); NextExp(170, 0xD7, 0xB3);
    NextExp(171, 0xB3, 0x7B); NextExp(172, 0x7B, 0xF6); NextExp(173, 0xF6, 0xF1); NextExp(174, 0xF1, 0xFF);
  }

  lemma ExpRow11()
    ensures Exp(176) == 0xE3 && Exp(177) == 0xDB && Exp(178) == 0xAB && Exp(179) == 0x4B && Exp(180) == 0x96 && Exp(181) == 0x31 && Exp(182) == 0x62 && Exp(183) == 0xC4
    ensures Exp(184) == 0x95 && Exp(185) == 0x37 && Exp(186) == 0x6E && Exp(187) == 0xDC && Exp(188) == 0xA5 && Exp(189) == 0x57 && Exp(190) == 0xAE && Exp(191) == 0x41
  {
    hide Exp;
    ExpRow10();
    NextExp(175, 0xFF, 0xE3); NextExp(176, 0xE3, 0xDB); NextExp(177, 0xDB, 0xAB); NextExp(178, 0xAB, 0x4B);
    NextExp(179, 0x4B, 0x96); NextExp(180, 0x96, 0x31); NextExp(181, 0x31, 0x62); NextExp(182, 0x62, 0xC4);
    NextExp(183, 0xC4, 0x95); NextExp(184, 0x95, 0x37); NextExp(185, 0x37, 0x6E); NextExp(186, 0x6E, 0xDC);
    NextExp(187, 0xDC, 0xA5); NextExp(188, 0xA5, 0x57); NextExp(189, 0x57, 0xAE); NextExp(190, 0xAE, 0x41);
  }

  lemma ExpRow12()
    ensures Exp(192) == 0x82 && Exp(193) == 0x19 && Exp(194) == 0x32 && Exp(195) == 0x64 && Exp(196) == 0xC8 && Exp(197) == 0x8D && Exp(198) == 0x07 && Exp(199) == 0x0E
    ensures Exp(200) == 0x1C && Exp(201) == 0x38 && Exp(202) == 0x70 && Exp(203) == 0xE0 && Exp(204) == 0xDD && Exp(205) == 0xA7 && Exp(206) == 0x53 && Exp(207) == 0xA6
  {
    hide Exp;
    ExpRow11();
    NextExp(191, 0x41, 0x82); NextExp(192, 0x82, 0x19); NextExp(193, 0x19, 0x32); NextExp(194, 0x32, 0x64);
    NextExp(195, 0x64, 0xC8); NextExp(196, 0xC8, 0x8D); NextExp(197, 0x8D, 0x07); NextExp(198, 0x07, 0x0E);
    NextExp(199, 0x0E, 0x1C); NextExp(200, 0x1C, 0x38); NextExp(201, 0x38, 0x70); NextExp(202, 0x70, 0xE0);
    NextExp(203, 0xE0, 0xDD); NextExp(204, 0xDD, 0xA7); NextExp(205, 0xA7, 0x53); NextExp(206, 0x53, 0xA6);
  }

  lemma ExpRow13()
    ensures Exp(208) == 0x51 && Exp(209) == 0xA2 && Exp(210) == 0x59 && Exp(211) == 0xB2 && Exp(212) == 0x79 && Exp(213) == 0xF2 && Exp(214) == 0xF9 && Exp(215) == 0xEF
    ensures Exp(216) == 0xC3 && Exp(217) == 0x9B && Exp(218) == 0x2B && Exp(219) == 0x56 && Exp(220) == 0xAC && Exp(221) == 0x45 && Exp(222) == 0x8A && Exp(223) == 0x09
  {
    hide Exp;
    ExpRow12();
    NextExp(207, 0xA6, 0x51); NextExp(208, 0x51, 0xA2); NextExp(209, 0xA2, 0x59); NextExp(210, 0x59, 0xB2);
    NextExp(211, 0xB2, 0x79); NextExp(212, 0x79, 0xF2); NextExp(213, 0xF2, 0xF9); NextExp(214, 0xF9, 0xEF);
    NextExp(215, 0xEF, 0xC3); NextExp(216, 0xC3, 0x9B); NextExp(217, 0x9B, 0x2B); NextExp(218, 0x2B, 0x56);
    NextExp(219, 0x56, 0xAC); NextExp(220, 0xAC, 0x45); NextExp(221, 0x45, 0x8A); NextExp(222, 0x8A, 0x09);
  }

  lemma ExpRow14()
    ensures Exp(224) == 0x12 && Exp(225) == 0x24 && Exp(226) == 0x48 && Exp(227) == 0x90 && Exp(228) == 0x3D && Exp(229) == 0x7A && Exp(230) == 0xF4 && Exp(231) == 0xF5
    ensures Exp(232) == 0xF7 && Exp(233) == 0xF3 && Exp(234) == 0xFB && Exp(235) == 0xEB && Exp(236) == 0xCB && Exp(237) == 0x8B && Exp(238) == 0x0B && Exp(239) == 0x16
  {
    hide Exp;
    ExpRow13();
    NextExp(223, 0x09, 0x12); NextExp(224, 0x12, 0x24); NextExp(225, 0x24, 0x48); NextExp(226, 0x48, 0x90);
    NextExp(227, 0x90, 0x3D); NextExp(228, 0x3D, 0x7A); NextExp(229, 0x7A, 0xF4); NextExp(230, 0xF4, 0xF5);
    NextExp(231, 0xF5, 0xF7); NextExp(232, 0xF7, 0xF3); NextExp(233, 0xF3, 0xFB); NextExp(234, 0xFB, 0xEB);
    NextExp(235, 0xEB, 0xCB); NextExp(236, 0xCB, 0x8B); NextExp(237, 0x8B, 0x0B); NextExp(238, 0x0B, 0x16);
  }

  lemma ExpRow15()
    ensures Exp(240) == 0x2C && Exp(241) == 0x58 && Exp(242) == 0xB0 && Exp(243) == 0x7D && Exp(244) == 0xFA && Exp(245) == 0xE9 && Exp(246) == 0xCF && Exp(247) == 0x83
    ensures Exp(248) == 0x1B && Exp(249) == 0x36 && Exp(250) == 0x6C && Exp(251) == 0xD8 && Exp(252) == 0xAD && Exp(253) == 0x47 && Exp(254) == 0x8E && Exp(255) == 0x01
  {
    hide Exp;
    ExpRow14();
    NextExp(239, 0x16, 0x2C); NextExp(240, 0x2C, 0x58); NextExp(241, 0x58, 0xB0); NextExp(242, 0xB0, 0x7D);
    NextExp(243, 0x7D, 0xFA); NextExp(244, 0xFA, 0xE9); NextExp(245, 0xE9, 0xCF); NextExp(246, 0xCF, 0x83);
    NextExp(247, 0x83, 0x1B); NextExp(248, 0x1B, 0x36); NextExp(249, 0x36, 0x6C); NextExp(250, 0x6C, 0xD8);
    NextExp(251, 0xD8, 0xAD); NextExp(252, 0xAD, 0x47); NextExp(253, 0x47, 0x8E); NextExp(254, 0x8E, 0x01);
  }

  /** `gf256_log`: entry 0 is unused, and the entry of 1 is 255, not 0. */
  function Log(x: bv8): nat {
    if x < 0x80 then
      (if x < 0x40 then (if x < 0x20 then (if x < 0x10 then Log0(x) else Log1(x)) else (if x < 0x30 then Log2(x) else Log3(x)))
       else (if x < 0x60 then (if x < 0x50 then Log4(x) else Log5(x)) else (if x < 0x70 then Log6(x) else Log7(x))))
    else
      (if x < 0xC0 then (if x < 0xA0 then (if x < 0x90 then Log8(x) else Log9(x)) else (if x < 0xB0 then Log10(x) else Log11(x)))
       else (if x < 0xE0 then (if x < 0xD0 then Log12(x) else Log13(x)) else (if x < 0xF0 then Log14(x) else Log15(x))))
  }

  function Log0(x: bv8): nat {
    if x == 0x00 then 0 else if x == 0x01 then 255 else if x == 0x02 then 1 else if x == 0x03 then 25 else 
    if x == 0x04 then 2 else if x == 0x05 then 50 else if x == 0x06 then 26 else if x == 0x07 then 198 else 
    if x == 0x08 then 3 else if x == 0x09 then 223 else if x == 0x0A then 51 else if x == 0x0B then 238 else 
    if x == 0x0C then 27 else if x == 0x0D then 104 else if x == 0x0E then 199 else 75
  }

  function Log1(x: bv8): nat {
    if x == 0x10 then 4 else if x == 0x11 then 100 else if x == 0x12 then 224 else if x == 0x13 then 14 else 
    if x == 0x14 then 52 else if x == 0x15 then 141 else if x == 0x16 then 239 else if x == 0x17 then 129 else 
    if x == 0x18 then 28 else if x == 0x19 then 193 else if x == 0x1A then 105 else if x == 0x1B then 248 else 
    if x == 0x1C then 200 else if x == 0x1D then 8 else if x == 0x1E then 76 else 113
  }

  function Log2(x: bv8): nat {
    if x == 0x20 then 5 else if x == 0x21 then 138 else if x == 0x22 then 101 else if x == 0x23 then 47 else 
    if x == 0x24 then 225 else if x == 0x25 then 36 else if x == 0x26 then 15 else if x == 0x27 then 33 else 
    if x == 0x28 then 53 else if x == 0x29 then 147 else if x == 0x2A then 142 else if x == 0x2B then 218 else 
    if x == 0x2C then 240 else if x == 0x2D then 18 else if x == 0x2E then 130 else 69
  }

  function Log3(x: bv8): nat {
    if x == 0x30 then 29 else if x == 0x31 then 181 else if x == 0x32 then 194 else if x == 0x33 then 125 else 
    if x == 0x34 then 106 else if x == 0x35 then 39 else if x == 0x36 then 249 else if x == 0x37 then 185 else 
    if x == 0x38 then 201 else if x == 0x39 then 154 else if x == 0x3A then 9 else if x == 0x3B then 120 else 
    if x == 0x3C then 77 else if x == 0x3D then 228 else if x == 0x3E then 114 else 166
  }

  function Log4(x: bv8): nat {
    if x == 0x40 then 6 else if x == 0x41 then 191 else if x == 0x42 then 139 else if x == 0x43 then 98 else 
    if x == 0x44 then 102 else if x == 0x45 then 221 else if x == 0x46 then 48 else if x == 0x47 then 253 else 
    if x == 0x48 then 226 else if x == 0x49 then 152 else if x == 0x4A then 37 else if x == 0x4B then 179 else 
    if x == 0x4C then 16 else if x == 0x4D then 145 else if x == 0x4E then 34 else 136
  }

  function Log5(x: bv8): nat {
    if x == 0x50 then 54 else if x == 0x51 then 208 else if x == 0x52 then 148 else if x == 0x53 then 206 else 
    if x == 0x54 then 143 else if x == 0x55 then 150 else if x == 0x56 then 219 else if x == 0x57 then 189 else 
    if x == 0x58 then 241 else if x == 0x59 then 210 else if x == 0x5A then 19 else if x == 0x5B then 92 else 
    if x == 0x5C then 131 else if x == 0x5D then 56 else if x == 0x5E then 70 else 64
  }

  function Log6(x: bv8): nat {
    if x == 0x60 then 30 else if x == 0x61 then 66 else if x == 0x62 then 182 else if x == 0x63 then 163 else 
    if x == 0x64 then 195 else if x == 0x65 then 72 else if x == 0x66 then 126 else if x == 0x67 then 110 else 
    if x == 0x68 then 107 else if x == 0x69 then 58 else if x == 0x6A then 40 else if x == 0x6B then 84 else 
    if x == 0x6C then 250 else if x == 0x6D then 133 else if x == 0x6E then 186 else 61
  }

  function Log7(x: bv8): nat {
    if x == 0x70 then 202 else if x == 0x71 then 94 else if x == 0x72 then 155 else if x == 0x73 then 159 else 
    if x == 0x74 then 10 else if x == 0x75 then 21 else if x == 0x76 then 121 else if x == 0x77 then 43 else 
    if x == 0x78 then 78 else if x == 0x79 then 212 else if x == 0x7A then 229 else if x == 0x7B then 172 else 
    if x == 0x7C then 115 else if x == 0x7D then 243 else if x == 0x7E then 167 else 87
  }

  function Log8(x: bv8): nat {
    if x == 0x80 then 7 else if x == 0x81 then 112 else if x == 0x82 then 192 else if x == 0x83 then 247 else 
    if x == 0x84 then 140 else if x == 0x85 then 128 else if x == 0x86 then 99 else if x == 0x87 then 13 else 
    if x == 0x88 then 103 else if x == 0x89 then 74 else if x == 0x8A then 222 else if x == 0x8B then 237 else 
    if x == 0x8C then 49 else if x == 0x8D then 197 else if x == 0x8E then 254 else 24
  }

  function Log9(x: bv8): nat {
    if x == 0x90 then 227 else if x == 0x91 then 165 else if x == 0x92 then 153 else if x == 0x93 then 119 else 
    if x == 0x94 then 38 else if x == 0x95 then 184 else if x == 0x96 then 180 else if x == 0x97 then 124 else 
    if x == 0x98 then 17 else if x == 0x99 then 68 else if x == 0x9A then 146 else if x == 0x9B then 217 else 
    if x == 0x9C then 35 else if x == 0x9D then 32 else if x == 0x9E then 137 else 46
  }

  function Log10(x: bv8): nat {
    if x == 0xA0 then 55 else if x == 0xA1 then 63 else if x == 0xA2 then 209 else if x == 0xA3 then 91 else 
    if x == 0xA4 then 149 else if x == 0xA5 then 188 else if x == 0xA6 then 207 else if x == 0xA7 then 205 else 
    if x == 0xA8 then 144 else if x == 0xA9 then 135 else if x == 0xAA then 151 else if x == 0xAB then 178 else 
    if x == 0xAC then 220 else if x == 0xAD then 252 else if x == 0xAE then 190 else 97
  }

  function Log11(x: bv8): nat {
    if x == 0xB0 then 242 else if x == 0xB1 then 86 else if x == 0xB2 then 211 else if x == 0xB3 then 171 else 
    if x == 0xB4 then 20 else if x == 0xB5 then 42 else if x == 0xB6 then 93 else if x == 0xB7 then 158 else 
    if x == 0xB8 then 132 else if x == 0xB9 then 60 else if x == 0xBA then 57 else if x == 0xBB then 83 else 
    if x == 0xBC then 71 else if x == 0xBD then 109 else if x == 0xBE then 65 else 162
  }

  function Log12(x: bv8): nat {
    if x == 0xC0 then 31 else if x == 0xC1 then 45 else if x == 0xC2 then 67 else if x == 0xC3 then 216 else 
    if x == 0xC4 then 183 else if x == 0xC5 then 123 else if x == 0xC6 then 164 else if x == 0xC7 then 118 else 
    if x == 0xC8 then 196 else if x == 0xC9 then 23 else if x == 0xCA then 73 else if x == 0xCB then 236 else 
    if x == 0xCC then 127 else if x == 0xCD then 12 else if x == 0xCE then 111 else 246
  }

  function Log13(x: bv8): nat {
    if x == 0xD0 then 108 else if x == 0xD1 then 161 else if x == 0xD2 then 59 else if x == 0xD3 then 82 else 
    if x == 0xD4 then 41 else if x == 0xD5 then 157 else if x == 0xD6 then 85 else if x == 0xD7 then 170 else 
    if x == 0xD8 then 251 else if x == 0xD9 then 96 else if x == 0xDA then 134 else if x == 0xDB then 177 else 
    if x == 0xDC then 187 else if x == 0xDD then 204 else if x == 0xDE then 62 else 90
  }

  function Log14(x: bv8): nat {
    if x == 0xE0 then 203 else if x == 0xE1 then 89 else if x == 0xE2 then 95 else if x == 0xE3 then 176 else 
    if x == 0xE4 then 156 else if x == 0xE5 then 169 else if x == 0xE6 then 160 else if x == 0xE7 then 81 else 
    if x == 0xE8 then 11 else if x == 0xE9 then 245 else if x == 0xEA then 22 else if x == 0xEB then 235 else 
    if x == 0xEC then 122 else if x == 0xED then 117 else if x == 0xEE then 44 else 215
  }

  function Log15(x: bv8): nat {
    if x == 0xF0 then 79 else if x == 0xF1 then 174 else if x == 0xF2 then 213 else if x == 0xF3 then 233 else 
    if x == 0xF4 then 230 else if x == 0xF5 then 231 else if x == 0xF6 then 173 else if x == 0xF7 then 232 else 
    if x == 0xF8 then 116 else if x == 0xF9 then 214 else if x == 0xFA then 244 else if x == 0xFB then 234 else 
    if x == 0xFC then 168 else if x == 0xFD then 80 else if x == 0xFE then 88 else 175
  }

  lemma LogRow0(x: bv8)
    requires 0x00 <= x <= 0x0F && x != 0
    ensures Log(x) <= 255 && Exp(Log(x)) == x
  {
    hide Exp;
    if x == 0x01 { ExpRow15(); } else if x == 0x02 { ExpRow0(); } else if x == 0x03 { ExpRow1(); } else if x == 0x04 { ExpRow0(); } else
    if x == 0x05 { ExpRow3(); } else if x == 0x06 { ExpRow1(); } else if x == 0x07 { ExpRow12(); } else if x == 0x08 { ExpRow0(); } else
    if x == 0x09 { ExpRow13(); } else if x == 0x0A { ExpRow3(); } else if x == 0x0B { ExpRow14(); } else if x == 0x0C { ExpRow1(); } else
    if x == 0x0D { ExpRow6(); } else if x == 0x0E { ExpRow12(); } else { ExpRow4(); }
  }

  lemma LogRow1(x: bv8)
    requires 0x10 <= x <= 0x1F && x != 0
    ensures Log(x) <= 255 && Exp(Log(x)) == x
  {
    hide Exp;
    if x == 0x10 { ExpRow0(); } else if x == 0x11 { ExpRow6(); } else if x == 0x12 { ExpRow14(); } else if x == 0x13 { ExpRow0(); } else
    if x == 0x14 { ExpRow3(); } else if x == 0x15 { ExpRow8(); } else if x == 0x16 { ExpRow14(); } else if x == 0x17 { ExpRow8(); } else
    if x == 0x18 { ExpRow1(); } else if x == 0x19 { ExpRow12(); } else if x == 0x1A { ExpRow6(); } else if x == 0x1B { ExpRow15(); } else
    if x == 0x1C { ExpRow12(); } else if x == 0x1D { ExpRow0(); } else if x == 0x1E { ExpRow4(); } else { ExpRow7(); }
  }

  lemma LogRow2(x: bv8)
    requires 0x20 <= x <= 0x2F && x != 0
    ensures Log(x) <= 255 && Exp(Log(x)) == x
  {
    hide Exp;
    if x == 0x20 { ExpRow0(); } else if x == 0x21 { ExpRow8(); } else if x == 0x22 { ExpRow6(); } else if x == 0x23 { ExpRow2(); } else
    if x == 0x24 { ExpRow14(); } else if x == 0x25 { ExpRow2(); } else if x == 0x26 { ExpRow0(); } else if x == 0x27 { ExpRow2(); } else
    if x == 0x28 { ExpRow3(); } else if x == 0x29 { ExpRow9(); } else if x == 0x2A { ExpRow8(); } else if x == 0x2B { ExpRow13(); } else
    if x == 0x2C { ExpRow15(); } else if x == 0x2D { ExpRow1(); } else if x == 0x2E { ExpRow8(); } else { ExpRow4(); }
  }

  lemma LogRow3(x: bv8)
    requires 0x30 <= x <= 0x3F && x != 0
    ensures Log(x) <= 255 && Exp(Log(x)) == x
  {
    hide Exp;
    if x == 0x30 { ExpRow1(); } else if x == 0x31 { ExpRow11(); } else if x == 0x32 { ExpRow12(); } else if x == 0x33 { ExpRow7(); } else
    if x == 0x34 { ExpRow6(); } else if x == 0x35 { ExpRow2(); } else if x == 0x36 { ExpRow15(); } else if x == 0x37 { ExpRow11(); } else
    if x == 0x38 { ExpRow12(); } else if x == 0x39 { ExpRow9(); } else if x == 0x3A { ExpRow0(); } else if x == 0x3B { ExpRow7(); } else
    if x == 0x3C { ExpRow4(); } else if x == 0x3D { ExpRow14(); } else if x == 0x3E { ExpRow7(); } else { ExpRow10(); }
  }

  lemma LogRow4(x: bv8)
    requires 0x40 <= x <= 0x4F && x != 0
    ensures Log(x) <= 255 && Exp(Log(x)) == x
  {
    hide Exp;
    if x == 0x40 { ExpRow0(); } else if x == 0x41 { ExpRow11(); } else if x == 0x42 { ExpRow8(); } else if x == 0x43 { ExpRow6(); } else
    if x == 0x44 { ExpRow6(); } else if x == 0x45 { ExpRow13(); } else if x == 0x46 { ExpRow3(); } else if x == 0x47 { ExpRow15(); } else
    if x == 0x48 { ExpRow14(); } else if x == 0x49 { ExpRow9(); } else if x == 0x4A { ExpRow2(); } else if x == 0x4B { ExpRow11(); } else
    if x == 0x4C { ExpRow1(); } else if x == 0x4D { ExpRow9(); } else if x == 0x4E { ExpRow2(); } else { ExpRow8(); }
  }

  lemma LogRow5(x: bv8)
    requires 0x50 <= x <= 0x5F && x != 0
    ensures Log(x) <= 255 && Exp(Log(x)) == x
  {
    hide Exp;
    if x == 0x50 { ExpRow3(); } else if x == 0x51 { ExpRow13(); } else if x == 0x52 { ExpRow9(); } else if x == 0x53 { ExpRow12(); } else
    if x == 0x54 { ExpRow8(); } else if x == 0x55 { ExpRow9(); } else if x == 0x56 { ExpRow13(); } else if x == 0x57 { ExpRow11(); } else
    if x == 0x58 { ExpRow15(); } else if x == 0x59 { ExpRow13(); } else if x == 0x5A { ExpRow1(); } else if x == 0x5B { ExpRow5(); } else
    if x == 0x5C { ExpRow8(); } else if x == 0x5D { ExpRow3(); } else if x == 0x5E { ExpRow4(); } else { ExpRow4(); }
  }

  lemma LogRow6(x: bv8)
    requires 0x60 <= x <= 0x6F && x != 0
    ensures Log(x) <= 255 && Exp(Log(x)) == x
  {
    hide Exp;
    if x == 0x60 { ExpRow1(); } else if x == 0x61 { ExpRow4(); } else if x == 0x62 { ExpRow11(); } else if x == 0x63 { ExpRow10(); } else
    if x == 0x64 { ExpRow12(); } else if x == 0x65 { ExpRow4(); } else if x == 0x66 { ExpRow7(); } else if x == 0x67 { ExpRow6(); } else
    if x == 0x68 { ExpRow6(); } else if x == 0x69 { ExpRow3(); } else if x == 0x6A { ExpRow2(); } else if x == 0x6B { ExpRow5(); } else
    if x == 0x6C { ExpRow15(); } else if x == 0x6D { ExpRow8(); } else if x == 0x6E { ExpRow11(); } else { ExpRow3(); }
  }

  lemma LogRow7(x: bv8)
    requires 0x70 <= x <= 0x7F && x != 0
    ensures Log(x) <= 255 && Exp(Log(x)) == x
  {
    hide Exp;
    if x == 0x70 { ExpRow12(); } else if x == 0x71 { ExpRow5(); } else if x == 0x72 { ExpRow9(); } else if x == 0x73 { ExpRow9(); } else
    if x == 0x74 { ExpRow0(); } else if x == 0x75 { ExpRow1(); } else if x == 0x76 { ExpRow7(); } else if x == 0x77 { ExpRow2(); } else
    if x == 0x78 { ExpRow4(); } else if x == 0x79 { ExpRow13(); } else if x == 0x7A { ExpRow14(); } else if x == 0x7B { ExpRow10(); } else
    if x == 0x7C { ExpRow7(); } else if x == 0x7D { ExpRow15(); } else if x == 0x7E { ExpRow10(); } else { ExpRow5(); }
  }

  lemma LogRow8(x: bv8)
    requires 0x80 <= x <= 0x8F && x != 0
    ensures Log(x) <= 255 && Exp(Log(x)) == x
  {
    hide Exp;
    if x == 0x80 { ExpRow0(); } else if x == 0x81 { ExpRow7(); } else if x == 0x82 { ExpRow12(); } else if x == 0x83 { ExpRow15(); } else
    if x == 0x84 { ExpRow8(); } else if x == 0x85 { ExpRow8(); } else if x == 0x86 { ExpRow6(); } else if x == 0x87 { ExpRow0(); } else
    if x == 0x88 { ExpRow6(); } else if x == 0x89 { ExpRow4(); } else if x == 0x8A { ExpRow13(); } else if x == 0x8B { ExpRow14(); } else
    if x == 0x8C { ExpRow3(); } else if x == 0x8D { ExpRow12(); } else if x == 0x8E { ExpRow15(); } else { ExpRow1(); }
  }

  lemma LogRow9(x: bv8)
    requires 0x90 <= x <= 0x9F && x != 0
    ensures Log(x) <= 255 && Exp(Log(x)) == x
  {
    hide Exp;
    if x == 0x90 { ExpRow14(); } else if x == 0x91 { ExpRow10(); } else if x == 0x92 { ExpRow9(); } else if x == 0x93 { ExpRow7(); } else
    if x == 0x94 { ExpRow2(); } else if x == 0x95 { ExpRow11(); } else if x == 0x96 { ExpRow11(); } else if x == 0x97 { ExpRow7(); } else
    if x == 0x98 { ExpRow1(); } else if x == 0x99 { ExpRow4(); } else if x == 0x9A { ExpRow9(); } else if x == 0x9B { ExpRow13(); } else
    if x == 0x9C { ExpRow2(); } else if x == 0x9D { ExpRow2(); } else if x == 0x9E { ExpRow8(); } else { ExpRow2(); }
  }

  lemma LogRow10(x: bv8)
    requires 0xA0 <= x <= 0xAF && x != 0
    ensures Log(x) <= 255 && Exp(Log(x)) == x
  {
    hide Exp;
    if x == 0xA0 { ExpRow3(); } else if x == 0xA1 { ExpRow3(); } else if x == 0xA2 { ExpRow13(); } else if x == 0xA3 { ExpRow5(); } else
    if x == 0xA4 { ExpRow9(); } else if x == 0xA5 { ExpRow11(); } else if x == 0xA6 { ExpRow12(); } else if x == 0xA7 { ExpRow12(); } else
    if x == 0xA8 { ExpRow9(); } else if x == 0xA9 { ExpRow8(); } else if x == 0xAA { ExpRow9(); } else if x == 0xAB { ExpRow11(); } else
    if x == 0xAC { ExpRow13(); } else if x == 0xAD { ExpRow15(); } else if x == 0xAE { ExpRow11(); } else { ExpRow6(); }
  }

  lemma LogRow11(x: bv8)
    requires 0xB0 <= x <= 0xBF && x != 0
    ensures Log(x) <= 255 && Exp(Log(x)) == x
  {
    hide Exp;
    if x == 0xB0 { ExpRow15(); } else if x == 0xB1 { ExpRow5(); } else if x == 0xB2 { ExpRow13(); } else if x == 0xB3 { ExpRow10(); } else
    if x == 0xB4 { ExpRow1(); } else if x == 0xB5 { ExpRow2(); } else if x == 0xB6 { ExpRow5(); } else if x == 0xB7 { ExpRow9(); } else
    if x == 0xB8 { ExpRow8(); } else if x == 0xB9 { ExpRow3(); } else if x == 0xBA { ExpRow3(); } else if x == 0xBB { ExpRow5(); } else
    if x == 0xBC { ExpRow4(); } else if x == 0xBD { ExpRow6(); } else if x == 0xBE { ExpRow4(); } else { ExpRow10(); }
  }

  lemma LogRow12(x: bv8)
    requires 0xC0 <= x <= 0xCF && x != 0
    ensures Log(x) <= 255 && Exp(Log(x)) == x
  {
    hide Exp;
    if x == 0xC0 { ExpRow1(); } else if x == 0xC1 { ExpRow2(); } else if x == 0xC2 { ExpRow4(); } else if x == 0xC3 { ExpRow13(); } else
    if x == 0xC4 { ExpRow11(); } else if x == 0xC5 { ExpRow7(); } else if x == 0xC6 { ExpRow10(); } else if x == 0xC7 { ExpRow7(); } else
    if x == 0xC8 { ExpRow12(); } else if x == 0xC9 { ExpRow1(); } else if x == 0xCA { ExpRow4(); } else if x == 0xCB { ExpRow14(); } else
    if x == 0xCC { ExpRow7(); } else if x == 0xCD { ExpRow0(); } else if x == 0xCE { ExpRow6(); } else { ExpRow15(); }
  }

  lemma LogRow13(x: bv8)
    requires 0xD0 <= x <= 0xDF && x != 0
    ensures Log(x) <= 255 && Exp(Log(x)) == x
  {
    hide Exp;
    if x == 0xD0 { ExpRow6(); } else if x == 0xD1 { ExpRow10(); } else if x == 0xD2 { ExpRow3(); } else if x == 0xD3 { ExpRow5(); } else
    if x == 0xD4 { ExpRow2(); } else if x == 0xD5 { ExpRow9(); } else if x == 0xD6 { ExpRow5(); } else if x == 0xD7 { ExpRow10(); } else
    if x == 0xD8 { ExpRow15(); } else if x == 0xD9 { ExpRow6(); } else if x == 0xDA { ExpRow8(); } else if x == 0xDB { ExpRow11(); } else
    if x == 0xDC { ExpRow11(); } else if x == 0xDD { ExpRow12(); } else if x == 0xDE { ExpRow3(); } else { ExpRow5(); }
  }

  lemma LogRow14(x: bv8)
    requires 0xE0 <= x <= 0xEF && x != 0
    ensures Log(x) <= 255 && Exp(Log(x)) == x
  {
    hide Exp;
    if x == 0xE0 { ExpRow12(); } else if x == 0xE1 { ExpRow5(); } else if x == 0xE2 { ExpRow5(); } else if x == 0xE3 { ExpRow11(); } else
    if x == 0xE4 { ExpRow9(); } else if x == 0xE5 { ExpRow10(); } else if x == 0xE6 { ExpRow10(); } else if x == 0xE7 { ExpRow5(); } else
    if x == 0xE8 { ExpRow0(); } else if x == 0xE9 { ExpRow15(); } else if x == 0xEA { ExpRow1(); } else if x == 0xEB { ExpRow14(); } else
    if x == 0xEC { ExpRow7(); } else if x == 0xED { ExpRow7(); } else if x == 0xEE { ExpRow2(); } else { ExpRow13(); }
  }

  lemma LogRow15(x: bv8)
    requires 0xF0 <= x <= 0xFF && x != 0
    ensures Log(x) <= 255 && Exp(Log(x)) == x
  {
    hide Exp;
    if x == 0xF0 { ExpRow4(); } else if x == 0xF1 { ExpRow10(); } else if x == 0xF2 { ExpRow13(); } else if x == 0xF3 { ExpRow14(); } else
    if x == 0xF4 { ExpRow14(); } else if x == 0xF5 { ExpRow14(); } else if x == 0xF6 { ExpRow10(); } else if x == 0xF7 { ExpRow14(); } else
    if x == 0xF8 { ExpRow7(); } else if x == 0xF9 { ExpRow13(); } else if x == 0xFA { ExpRow15(); } else if x == 0xFB { ExpRow14(); } else
    if x == 0xFC { ExpRow10(); } else if x == 0xFD { ExpRow5(); } else if x == 0xFE { ExpRow5(); } else { ExpRow10(); }
  }

  lemma PowerRow0(i: nat)
    requires 0 <= i <= 15
    ensures Exp(i) != 0 && Log(Exp(i)) == if i == 0 then 255 else i
  {
    hide Exp;
    ExpRow0();
    if i == 0 {} else if i == 1 {} else if i == 2 {} else if i == 3 {} else if i == 4 {} else if i == 5 {} else if i == 6 {} else if i == 7 {} else
    if i == 8 {} else if i == 9 {} else if i == 10 {} else if i == 11 {} else if i == 12 {} else if i == 13 {} else if i == 14 {} else {}
  }

  lemma PowerRow1(i: nat)
    requires 16 <= i <= 31
    ensures Exp(i) != 0 && Log(Exp(i)) == if i == 0 then 255 else i
  {
    hide Exp;
    ExpRow1();
    if i == 16 {} else if i == 17 {} else if i == 18 {} else if i == 19 {} else if i == 20 {} else if i == 21 {} else if i == 22 {} else if i == 23 {} else
    if i == 24 {} else if i == 25 {} else if i == 26 {} else if i == 27 {} else if i == 28 {} else if i == 29 {} else if i == 30 {} else {}
  }

  lemma PowerRow2(i: nat)
    requires 32 <= i <= 47
    ensures Exp(i) != 0 && Log(Exp(i)) == if i == 0 then 255 else i
  {
    hide Exp;
    ExpRow2();
    if i == 32 {} else if i == 33 {} else if i == 34 {} else if i == 35 {} else if i == 36 {} else if i == 37 {} else if i == 38 {} else if i == 39 {} else
    if i == 40 {} else if i == 41 {} else if i == 42 {} else if i == 43 {} else if i == 44 {} else if i == 45 {} else if i == 46 {} else {}
  }

  lemma PowerRow3(i: nat)
    requires 48 <= i <= 63
    ensures Exp(i) != 0 && Log(Exp(i)) == if i == 0 then 255 else i
  {
    hide Exp;
    ExpRow3();
    if i == 48 {} else if i == 49 {} else if i == 50 {} else if i == 51 {} else if i == 52 {} else if i == 53 {} else if i == 54 {} else if i == 55 {} else
    if i == 56 {} else if i == 57 {} else if i == 58 {} else if i == 59 {} else if i == 60 {} else if i == 61 {} else if i == 62 {} else {}
  }

  lemma PowerRow4(i: nat)
    requires 64 <= i <= 79
    ensures Exp(i) != 0 && Log(Exp(i)) == if i == 0 then 255 else i
  {
    hide Exp;
    ExpRow4();
    if i == 64 {} else if i == 65 {} else if i == 66 {} else if i == 67 {} else if i == 68 {} else if i == 69 {} else if i == 70 {} else if i == 71 {} else
    if i == 72 {} else if i == 73 {} else if i == 74 {} else if i == 75 {} else if i == 76 {} else if i == 77 {} else if i == 78 {} else {}
  }

  lemma PowerRow5(i: nat)
    requires 80 <= i <= 95
    ensures Exp(i) != 0 && Log(Exp(i)) == if i == 0 then 255 else i
  {
    hide Exp;
    ExpRow5();
    if i == 80 {} else if i == 81 {} else if i == 82 {} else if i == 83 {} else if i == 84 {} else if i == 85 {} else if i == 86 {} else if i == 87 {} else
    if i == 88 {} else if i == 89 {} else if i == 90 {} else if i == 91 {} else if i == 92 {} else if i == 93 {} else if i == 94 {} else {}
  }

  lemma PowerRow6(i: nat)
    requires 96 <= i <= 111
    ensures Exp(i) != 0 && Log(Exp(i)) == if i == 0 then 255 else i
  {
    hide Exp;
    ExpRow6();
    if i == 96 {} else if i == 97 {} else if i == 98 {} else if i == 99 {} else if i == 100 {} else if i == 101 {} else if i == 102 {} else if i == 103 {} else
    if i == 104 {} else if i == 105 {} else if i == 106 {} else if i == 107 {} else if i == 108 {} else if i == 109 {} else if i == 110 {} else {}
  }

  lemma PowerRow7(i: nat)
    requires 112 <= i <= 127
    ensures Exp(i) != 0 && Log(Exp(i)) == if i == 0 then 255 else i
  {
    hide Exp;
    ExpRow7();
    if i == 112 {} else if i == 113 {} else if i == 114 {} else if i == 115 {} else if i == 116 {} else if i == 117 {} else if i == 118 {} else if i == 119 {} else
    if i == 120 {} else if i == 121 {} else if i == 122 {} else if i == 123 {} else if i == 124 {} else if i == 125 {} else if i == 126 {} else {}
  }

  lemma PowerRow8(i: nat)
    requires 128 <= i <= 143
    ensures Exp(i) != 0 && Log(Exp(i)) == if i == 0 then 255 else i
  {
    hide Exp;
    ExpRow8();
    if i == 128 {} else if i == 129 {} else if i == 130 {} else if i == 131 {} else if i == 132 {} else if i == 133 {} else if i == 134 {} else if i == 135 {} else
    if i == 136 {} else if i == 137 {} else if i == 138 {} else if i == 139 {} else if i == 140 {} else if i == 141 {} else if i == 142 {} else {}
  }

  lemma PowerRow9(i: nat)
    requires 144 <= i <= 159
    ensures Exp(i) != 0 && Log(Exp(i)) == if i == 0 then 255 else i
  {
    hide Exp;
    ExpRow9();
    if i == 144 {} else if i == 145 {} else if i == 146 {} else if i == 147 {} else if i == 148 {} else if i == 149 {} else if i == 150 {} else if i == 151 {} else
    if i == 152 {} else if i == 153 {} else if i == 154 {} else if i == 155 {} else if i == 156 {} else if i == 157 {} else if i == 158 {} else {}
  }

  lemma PowerRow10(i: nat)
    requires 160 <= i <= 175
    ensures Exp(i) != 0 && Log(Exp(i)) == if i == 0 then 255 else i
  {
    hide Exp;
    ExpRow10();
    if i == 160 {} else if i == 161 {} else if i == 162 {} else if i == 163 {} else if i == 164 {} else if i == 165 {} else if i == 166 {} else if i == 167 {} else
    if i == 168 {} else if i == 169 {} else if i == 170 {} else if i == 171 {} else if i == 172 {} else if i == 173 {} else if i == 174 {} else {}
  }

  lemma PowerRow11(i: nat)
    requires 176 <= i <= 191
    ensures Exp(i) != 0 && Log(Exp(i)) == if i == 0 then 255 else i
  {
    hide Exp;
    ExpRow11();
    if i == 176 {} else if i == 177 {} else if i == 178 {} else if i == 179 {} else if i == 180 {} else if i == 181 {} else if i == 182 {} else if i == 183 {} else
    if i == 184 {} else if i == 185 {} else if i == 186 {} else if i == 187 {} else if i == 188 {} else if i == 189 {} else if i == 190 {} else {}
  }

  lemma PowerRow12(i: nat)
    requires 192 <= i <= 207
    ensures Exp(i) != 0 && Log(Exp(i)) == if i == 0 then 255 else i
  {
    hide Exp;
    ExpRow12();
    if i == 192 {} else if i == 193 {} else if i == 194 {} else if i == 195 {} else if i == 196 {} else if i == 197 {} else if i == 198 {} else if i == 199 {} else
    if i == 200 {} else if i == 201 {} else if i == 202 {} else if i == 203 {} else if i == 204 {} else if i == 205 {} else if i == 206 {} else {}
  }

  lemma PowerRow13(i: nat)
    requires 208 <= i <= 223
    ensures Exp(i) != 0 && Log(Exp(i)) == if i == 0 then 255 else i
  {
    hide Exp;
    ExpRow13();
    if i == 208 {} else if i == 209 {} else if i == 210 {} else if i == 211 {} else if i == 212 {} else if i == 213 {} else if i == 214 {} else if i == 215 {} else
    if i == 216 {} else if i == 217 {} else if i == 218 {} else if i == 219 {} else if i == 220 {} else if i == 221 {} else if i == 222 {} else {}
  }

  lemma PowerRow14(i: nat)
    requires 224 <= i <= 239
    ensures Exp(i) != 0 && Log(Exp(i)) == if i == 0 then 255 else i
  {
    hide Exp;
    ExpRow14();
    if i == 224 {} else if i == 225 {} else if i == 226 {} else if i == 227 {} else if i == 228 {} else if i == 229 {} else if i == 230 {} else if i == 231 {} else
    if i == 232 {} else if i == 233 {} else if i == 234 {} else if i == 235 {} else if i == 236 {} else if i == 237 {} else if i == 238 {} else {}
  }

  lemma PowerRow15(i: nat)
    requires 240 <= i <= 254
    ensures Exp(i) != 0 && Log(Exp(i)) == if i == 0 then 255 else i
  {
    hide Exp;
    ExpRow15();
    if i == 240 {} else if i == 241 {} else if i == 242 {} else if i == 243 {} else if i == 244 {} else if i == 245 {} else if i == 246 {} else if i == 247 {} else
    if i == 248 {} else if i == 249 {} else if i == 250 {} else if i == 251 {} else if i == 252 {} else if i == 253 {} else {}
  }

  /** The logarithm of every nonzero element is an exponent of it. */
  lemma ExpLog(x: bv8)
    requires x != 0
    ensures Log(x) <= 255 && Exp(Log(x)) == x
  {
    hide Exp, Log;
    if x < 0x80 {
      if x < 0x40 {
        if x < 0x20 {
          if x < 0x10 {
            LogRow0(x);
          } else {
            LogRow1(x);
          }
        } else {
          if x < 0x30 {
            LogRow2(x);
          } else {
            LogRow3(x);
          }
        }
      } else {
        if x < 0x60 {
          if x < 0x50 {
            LogRow4(x);
          } else {
            LogRow5(x);
          }
        } else {
          if x < 0x70 {
            LogRow6(x);
          } else {
            LogRow7(x);
          }
        }
      }
    } else {
      if x < 0xC0 {
        if x < 0xA0 {
          if x < 0x90 {
            LogRow8(x);
          } else {
            LogRow9(x);
          }
        } else {
          if x < 0xB0 {
            LogRow10(x);
          } else {
            LogRow11(x);
          }
        }
      } else {
        if x < 0xE0 {
          if x < 0xD0 {
            LogRow12(x);
          } else {
            LogRow13(x);
          }
        } else {
          if x < 0xF0 {
            LogRow14(x);
          } else {
            LogRow15(x);
          }
        }
      }
    }
  }

  /** The first 255 powers are different and nonzero; the table gives 255 for the first. */
  lemma LogExp(i: nat)
    requires i < 255
    ensures Exp(i) != 0 && Log(Exp(i)) == if i == 0 then 255 else i
  {
    hide Exp, Log;
    if i < 128 {
      if i < 64 {
        if i < 32 {
          if i < 16 {
            PowerRow0(i);
          } else {
            PowerRow1(i);
          }
        } else {
          if i < 48 {
            PowerRow2(i);
          } else {
            PowerRow3(i);
          }
        }
      } else {
        if i < 96 {
          if i < 80 {
            PowerRow4(i);
          } else {
            PowerRow5(i);
          }
        } else {
          if i < 112 {
            PowerRow6(i);
          } else {
            PowerRow7(i);
          }
        }
      }
    } else {
      if i < 192 {
        if i < 160 {
          if i < 144 {
            PowerRow8(i);
          } else {
            PowerRow9(i);
          }
        } else {
          if i < 176 {
            PowerRow10(i);
          } else {
            PowerRow11(i);
          }
        }
      } else {
        if i < 224 {
          if i < 208 {
            PowerRow12(i);
          } else {
            PowerRow13(i);
          }
        } else {
          if i < 240 {
            PowerRow14(i);
          } else {
            PowerRow15(i);
          }
        }
      }
    }
  }

  /** The powers repeat after 255. */
  lemma {:induction false} ExpPeriod(n: nat)
    ensures Exp(n) == Exp(Wrap(n, 255))
  {
    hide Exp;
    if n >= 255 {
      ExpPeriod(n - 255);
      TimesExp(n - 255, 255);
      ExpRow15();
      TimesPowers(Exp(n - 255));
      WrapOnce(n);
    }
  }

  lemma WrapOnce(n: nat)
    requires n >= 255
    ensures Wrap(n, 255) == Wrap(n - 255, 255)
  {
  }

  /** `gf256`. */
  function Gf256(): GaloisField<bv8> {
    GaloisField(255, x => Log(x), k => Exp(k), 0, (a, b) => Add(a, b))
  }

  /** The product of the tables is qrcodegen's product. */
  lemma MulIsTimes(a: bv8, b: bv8)
    ensures Mul(Gf256(), a, b) == Times(a, b)
  {
    hide Exp, Log, Times, Add, Wrap;
    if a == 0 || b == 0 {
      TimesPowers(a);
      TimesPowers(b);
    } else {
      ExpLog(a);
      ExpLog(b);
      TimesExp(Log(a), Log(b));
      ExpPeriod(Log(a) + Log(b));
    }
  }

  lemma Gf256Laws(x: bv8, y: bv8, z: bv8)
    ensures var gf := Gf256();
      && gf.xor(gf.xor(x, y), z) == gf.xor(x, gf.xor(y, z)) && gf.xor(x, y) == gf.xor(y, x)
      && gf.xor(x, gf.zero) == x && gf.xor(x, x) == gf.zero
      && Mul(gf, gf.xor(x, y), z) == gf.xor(Mul(gf, x, z), Mul(gf, y, z))
  {
    hide Times, Add, Mul;
    AddLaws(x, y, z);
    MulIsTimes(Add(x, y), z);
    MulIsTimes(x, z);
    MulIsTimes(y, z);
    TimesLinear(x, y, z);
  }

  lemma Gf256IsField()
    ensures IsField(Gf256())
  {
    ExpRow0();
    ExpRow15();
    hide Exp, Log, Add, Mul;
    var gf := Gf256();
    forall i: nat | i < gf.p
      ensures gf.exp(i) != gf.zero && Wrap(gf.log(gf.exp(i)), gf.p) == i
    {
      LogExp(i);
      WrapSmall(i, gf.p);
      WrapSmall(0, gf.p);
    }
    forall x: bv8 | x != gf.zero
      ensures gf.log(x) <= gf.p && gf.exp(gf.log(x)) == x
    {
      ExpLog(x);
    }
    forall x: bv8, y: bv8, z: bv8 {:trigger At(x, y, z)} | At(x, y, z)
      ensures gf.xor(gf.xor(x, y), z) == gf.xor(x, gf.xor(y, z)) && gf.xor(x, y) == gf.xor(y, x)
      ensures gf.xor(x, gf.zero) == x && gf.xor(x, x) == gf.zero
      ensures Mul(gf, gf.xor(x, y), z) == gf.xor(Mul(gf, x, z), Mul(gf, y, z))
    {
      Gf256Laws(x, y, z);
    }
  }

  lemma TimesLinear(a: bv8, b: bv8, y: bv8)
    ensures Times(Add(a, b), y) == Add(Times(a, y), Times(b, y))
  {
    hide Partial, Add;
    PartialLinear(a, b, y, 0);
  }
}
