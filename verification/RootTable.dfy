/**
  The generator table of the turbo interleaver
  (internal/std-t115/qpsknarrow/fec/interleaver.go) and the certificate that
  each of its entries is a primitive root: for every prime factor `f` of `p-1`,
  the residues met on the way to `v^((p-1)/f)`, which is never 1.
  */
module RootTable {
  import opened NumberTheory
  import opened Residues

  const TABLE_SIZE := 52

  /** Entry `i`: a prime and its generator. */
  function Entry(i: nat): (nat, nat)
    requires i < TABLE_SIZE
  {
    match i
    case 0 => (7, 3) case 1 => (11, 2) case 2 => (13, 2) case 3 => (17, 3) case 4 => (19, 2)
    case 5 => (23, 5) case 6 => (29, 2) case 7 => (31, 3) case 8 => (37, 2) case 9 => (41, 6)
    case 10 => (43, 3) case 11 => (47, 5) case 12 => (53, 2) case 13 => (59, 2) case 14 => (61, 2)
    case 15 => (67, 2) case 16 => (71, 7) case 17 => (73, 5) case 18 => (79, 3) case 19 => (83, 2)
    case 20 => (89, 3) case 21 => (97, 5) case 22 => (101, 2) case 23 => (103, 5) case 24 => (107, 2)
    case 25 => (109, 6) case 26 => (113, 3) case 27 => (127, 3) case 28 => (131, 2) case 29 => (137, 3)
    case 30 => (139, 2) case 31 => (149, 2) case 32 => (151, 6) case 33 => (157, 5) case 34 => (163, 2)
    case 35 => (167, 5) case 36 => (173, 2) case 37 => (179, 2) case 38 => (181, 2) case 39 => (191, 19)
    case 40 => (193, 5) case 41 => (197, 2) case 42 => (199, 3) case 43 => (211, 2) case 44 => (223, 3)
    case 45 => (227, 2) case 46 => (229, 6) case 47 => (233, 3) case 48 => (239, 7) case 49 => (241, 7)
    case 50 => (251, 6) case _ => (257, 3)
  }

  lemma FactorPrimes()
    ensures forall f | f in {2, 3, 5, 7, 11, 13, 17, 19, 23, 29, 37, 41, 43, 53, 83, 89, 113} :: IsPrime(f)
  {
    TinyPrimes();
    SmallPrime(11);
    SmallPrime(13);
    SmallPrime(17);
    SmallPrime(19);
    SmallPrime(23);
    SmallPrime(29);
    SmallPrime(37);
    SmallPrime(41);
    SmallPrime(43);
    SmallPrime(53);
    SmallPrime(83);
    SmallPrime(89);
    SmallPrime(113);
  }

  lemma Roots0()
    ensures PrimitiveRoot(7, 3)
    ensures PrimitiveRoot(11, 2)
    ensures PrimitiveRoot(13, 2)
  {
    hide IsPrime, PowMod, PrimitiveRoot;
    FactorPrimes();
    Power(7, 3, 3, 1, 1, 1, 1, 1, 1, 3, 6);
    Power(7, 3, 2, 1, 1, 1, 1, 1, 1, 3, 2);
    SquareStep(7, 3, 6, 6, 1);
    RootByFactors(7, 3, [2, 3]);
    Power(11, 2, 5, 1, 1, 1, 1, 1, 2, 4, 10);
    Power(11, 2, 2, 1, 1, 1, 1, 1, 1, 2, 4);
    SquareStep(11, 2, 10, 10, 1);
    RootByFactors(11, 2, [2, 5]);
    Power(13, 2, 6, 1, 1, 1, 1, 1, 2, 8, 12);
    Power(13, 2, 4, 1, 1, 1, 1, 1, 2, 4, 3);
    SquareStep(13, 2, 12, 12, 1);
    RootByFactors(13, 2, [2, 2, 3]);
  }

  lemma Roots3()
    ensures PrimitiveRoot(17, 3)
    ensures PrimitiveRoot(19, 2)
    ensures PrimitiveRoot(23, 5)
  {
    hide IsPrime, PowMod, PrimitiveRoot;
    FactorPrimes();
    Power(17, 3, 8, 1, 1, 1, 1, 3, 9, 13, 16);
    SquareStep(17, 3, 16, 16, 1);
    RootByFactors(17, 3, [2, 2, 2, 2]);
    Power(19, 2, 9, 1, 1, 1, 1, 2, 4, 16, 18);
    Power(19, 2, 6, 1, 1, 1, 1, 1, 2, 8, 7);
    SquareStep(19, 2, 18, 18, 1);
    RootByFactors(19, 2, [2, 3, 3]);
    Power(23, 5, 11, 1, 1, 1, 1, 5, 2, 20, 22);
    Power(23, 5, 2, 1, 1, 1, 1, 1, 1, 5, 2);
    SquareStep(23, 5, 22, 22, 1);
    RootByFactors(23, 5, [2, 11]);
  }

  lemma Roots6()
    ensures PrimitiveRoot(29, 2)
    ensures PrimitiveRoot(31, 3)
    ensures PrimitiveRoot(37, 2)
  {
    hide IsPrime, PowMod, PrimitiveRoot;
    FactorPrimes();
    Power(29, 2, 14, 1, 1, 1, 1, 2, 8, 12, 28);
    Power(29, 2, 4, 1, 1, 1, 1, 1, 2, 4, 16);
    SquareStep(29, 2, 28, 28, 1);
    RootByFactors(29, 2, [2, 2, 7]);
    Power(31, 3, 15, 1, 1, 1, 1, 3, 27, 17, 30);
    Power(31, 3, 10, 1, 1, 1, 1, 3, 9, 26, 25);
    Power(31, 3, 6, 1, 1, 1, 1, 1, 3, 27, 16);
    SquareStep(31, 3, 30, 30, 1);
    RootByFactors(31, 3, [2, 3, 5]);
    Power(37, 2, 18, 1, 1, 1, 2, 4, 16, 31, 36);
    Power(37, 2, 12, 1, 1, 1, 1, 2, 8, 27, 26);
    SquareStep(37, 2, 36, 36, 1);
    RootByFactors(37, 2, [2, 2, 3, 3]);
  }

  lemma Roots9()
    ensures PrimitiveRoot(41, 6)
    ensures PrimitiveRoot(43, 3)
    ensures PrimitiveRoot(47, 5)
  {
    hide IsPrime, PowMod, PrimitiveRoot;
    FactorPrimes();
    Power(41, 6, 20, 1, 1, 1, 6, 36, 27, 32, 40);
    Power(41, 6, 8, 1, 1, 1, 1, 6, 36, 25, 10);
    SquareStep(41, 6, 40, 40, 1);
    RootByFactors(41, 6, [2, 2, 2, 5]);
    Power(43, 3, 21, 1, 1, 1, 3, 9, 28, 10, 42);
    Power(43, 3, 14, 1, 1, 1, 1, 3, 27, 37, 36);
    Power(43, 3, 6, 1, 1, 1, 1, 1, 3, 27, 41);
    SquareStep(43, 3, 42, 42, 1);
    RootByFactors(43, 3, [2, 3, 7]);
    Power(47, 5, 23, 1, 1, 1, 5, 25, 23, 13, 46);
    Power(47, 5, 2, 1, 1, 1, 1, 1, 1, 5, 25);
    SquareStep(47, 5, 46, 46, 1);
    RootByFactors(47, 5, [2, 23]);
  }

  lemma Roots12()
    ensures PrimitiveRoot(53, 2)
    ensures PrimitiveRoot(59, 2)
    ensures PrimitiveRoot(61, 2)
  {
    hide IsPrime, PowMod, PrimitiveRoot;
    FactorPrimes();
    Power(53, 2, 26, 1, 1, 1, 2, 8, 11, 30, 52);
    Power(53, 2, 4, 1, 1, 1, 1, 1, 2, 4, 16);
    SquareStep(53, 2, 52, 52, 1);
    RootByFactors(53, 2, [2, 2, 13]);
    Power(59, 2, 29, 1, 1, 1, 2, 8, 10, 41, 58);
    Power(59, 2, 2, 1, 1, 1, 1, 1, 1, 2, 4);
    SquareStep(59, 2, 58, 58, 1);
    RootByFactors(59, 2, [2, 29]);
    Power(61, 2, 30, 1, 1, 1, 2, 8, 6, 11, 60);
    Power(61, 2, 20, 1, 1, 1, 2, 4, 32, 48, 47);
    Power(61, 2, 12, 1, 1, 1, 1, 2, 8, 3, 9);
    SquareStep(61, 2, 60, 60, 1);
    RootByFactors(61, 2, [2, 2, 3, 5]);
  }

  lemma Roots15()
    ensures PrimitiveRoot(67, 2)
    ensures PrimitiveRoot(71, 7)
  {
    hide IsPrime, PowMod, PrimitiveRoot;
    FactorPrimes();
    Power(67, 2, 33, 1, 1, 2, 4, 16, 55, 10, 66);
    Power(67, 2, 22, 1, 1, 1, 2, 4, 32, 38, 37);
    Power(67, 2, 6, 1, 1, 1, 1, 1, 2, 8, 64);
    SquareStep(67, 2, 66, 66, 1);
    RootByFactors(67, 2, [2, 3, 11]);
    Power(71, 7, 35, 1, 1, 7, 49, 58, 27, 62, 70);
    Power(71, 7, 14, 1, 1, 1, 1, 7, 59, 14, 54);
    Power(71, 7, 10, 1, 1, 1, 1, 7, 49, 51, 45);
    SquareStep(71, 7, 70, 70, 1);
    RootByFactors(71, 7, [2, 5, 7]);
  }

  lemma Roots17()
    ensures PrimitiveRoot(73, 5)
    ensures PrimitiveRoot(79, 3)
  {
    hide IsPrime, PowMod, PrimitiveRoot;
    FactorPrimes();
    Power(73, 5, 36, 1, 1, 5, 25, 41, 10, 27, 72);
    Power(73, 5, 24, 1, 1, 1, 5, 52, 3, 9, 8);
    SquareStep(73, 5, 72, 72, 1);
    RootByFactors(73, 5, [2, 2, 2, 3, 3]);
    Power(79, 3, 39, 1, 1, 3, 9, 2, 12, 37, 78);
    Power(79, 3, 26, 1, 1, 1, 3, 27, 18, 24, 23);
    Power(79, 3, 6, 1, 1, 1, 1, 1, 3, 27, 18);
    SquareStep(79, 3, 78, 78, 1);
    RootByFactors(79, 3, [2, 3, 13]);
  }

  lemma Roots19()
    ensures PrimitiveRoot(83, 2)
    ensures PrimitiveRoot(89, 3)
  {
    hide IsPrime, PowMod, PrimitiveRoot;
    FactorPrimes();
    Power(83, 2, 41, 1, 1, 2, 4, 32, 28, 37, 82);
    Power(83, 2, 2, 1, 1, 1, 1, 1, 1, 2, 4);
    SquareStep(83, 2, 82, 82, 1);
    RootByFactors(83, 2, [2, 41]);
    Power(89, 3, 44, 1, 1, 3, 9, 65, 37, 34, 88);
    Power(89, 3, 8, 1, 1, 1, 1, 3, 9, 81, 64);
    SquareStep(89, 3, 88, 88, 1);
    RootByFactors(89, 3, [2, 2, 2, 11]);
  }

  lemma Roots21()
    ensures PrimitiveRoot(97, 5)
    ensures PrimitiveRoot(101, 2)
  {
    hide IsPrime, PowMod, PrimitiveRoot;
    FactorPrimes();
    Power(97, 5, 48, 1, 1, 5, 28, 8, 64, 22, 96);
    Power(97, 5, 32, 1, 1, 5, 25, 43, 6, 36, 35);
    SquareStep(97, 5, 96, 96, 1);
    RootByFactors(97, 5, [2, 2, 2, 2, 2, 3]);
    Power(101, 2, 50, 1, 1, 2, 8, 64, 56, 10, 100);
    Power(101, 2, 20, 1, 1, 1, 2, 4, 32, 14, 95);
    SquareStep(101, 2, 100, 100, 1);
    RootByFactors(101, 2, [2, 2, 5, 5]);
  }

  lemma Roots23()
    ensures PrimitiveRoot(103, 5)
    ensures PrimitiveRoot(107, 2)
  {
    hide IsPrime, PowMod, PrimitiveRoot;
    FactorPrimes();
    Power(103, 5, 51, 1, 1, 5, 22, 72, 34, 12, 102);
    Power(103, 5, 34, 1, 1, 5, 25, 7, 49, 57, 56);
    Power(103, 5, 6, 1, 1, 1, 1, 1, 5, 22, 72);
    SquareStep(103, 5, 102, 102, 1);
    RootByFactors(103, 5, [2, 3, 17]);
    Power(107, 2, 53, 1, 1, 2, 8, 64, 60, 69, 106);
    Power(107, 2, 2, 1, 1, 1, 1, 1, 1, 2, 4);
    SquareStep(107, 2, 106, 106, 1);
    RootByFactors(107, 2, [2, 53]);
  }

  lemma Roots25()
    ensures PrimitiveRoot(109, 6)
    ensures PrimitiveRoot(113, 3)
  {
    hide IsPrime, PowMod, PrimitiveRoot;
    FactorPrimes();
    Power(109, 6, 54, 1, 1, 6, 107, 4, 96, 33, 108);
    Power(109, 6, 36, 1, 1, 6, 36, 97, 101, 64, 63);
    SquareStep(109, 6, 108, 108, 1);
    RootByFactors(109, 6, [2, 2, 3, 3, 3]);
    Power(113, 3, 56, 1, 1, 3, 27, 40, 18, 98, 112);
    Power(113, 3, 16, 1, 1, 1, 3, 9, 81, 7, 49);
    SquareStep(113, 3, 112, 112, 1);
    RootByFactors(113, 3, [2, 2, 2, 2, 7]);
  }

  lemma Roots27()
    ensures PrimitiveRoot(127, 3)
    ensures PrimitiveRoot(131, 2)
  {
    hide IsPrime, PowMod, PrimitiveRoot;
    FactorPrimes();
    Power(127, 3, 63, 1, 1, 3, 27, 28, 66, 114, 126);
    Power(127, 3, 42, 1, 1, 3, 9, 116, 121, 108, 107);
    Power(127, 3, 18, 1, 1, 1, 3, 9, 81, 125, 4);
    SquareStep(127, 3, 126, 126, 1);
    RootByFactors(127, 3, [2, 3, 3, 7]);
    Power(131, 2, 65, 1, 2, 4, 16, 125, 36, 117, 130);
    Power(131, 2, 26, 1, 1, 1, 2, 8, 64, 70, 53);
    Power(131, 2, 10, 1, 1, 1, 1, 2, 4, 32, 107);
    SquareStep(131, 2, 130, 130, 1);
    RootByFactors(131, 2, [2, 5, 13]);
  }

  lemma Roots29()
    ensures PrimitiveRoot(137, 3)
    ensures PrimitiveRoot(139, 2)
  {
    hide IsPrime, PowMod, PrimitiveRoot;
    FactorPrimes();
    Power(137, 3, 68, 1, 3, 9, 81, 122, 127, 100, 136);
    Power(137, 3, 8, 1, 1, 1, 1, 3, 9, 81, 122);
    SquareStep(137, 3, 136, 136, 1);
    RootByFactors(137, 3, [2, 2, 2, 17]);
    Power(139, 2, 69, 1, 2, 4, 16, 117, 134, 25, 138);
    Power(139, 2, 46, 1, 1, 2, 4, 32, 102, 97, 96);
    Power(139, 2, 6, 1, 1, 1, 1, 1, 2, 8, 64);
    SquareStep(139, 2, 138, 138, 1);
    RootByFactors(139, 2, [2, 3, 23]);
  }

  lemma Roots31()
    ensures PrimitiveRoot(149, 2)
    ensures PrimitiveRoot(151, 6)
  {
    hide IsPrime, PowMod, PrimitiveRoot;
    FactorPrimes();
    Power(149, 2, 74, 1, 2, 4, 16, 65, 53, 105, 148);
    Power(149, 2, 4, 1, 1, 1, 1, 1, 2, 4, 16);
    SquareStep(149, 2, 148, 148, 1);
    RootByFactors(149, 2, [2, 2, 37]);
    Power(151, 6, 75, 1, 6, 36, 88, 107, 124, 146, 150);
    Power(151, 6, 50, 1, 1, 6, 65, 148, 9, 33, 32);
    Power(151, 6, 30, 1, 1, 1, 6, 65, 133, 132, 59);
    SquareStep(151, 6, 150, 150, 1);
    RootByFactors(151, 6, [2, 3, 5, 5]);
  }

  lemma Roots33()
    ensures PrimitiveRoot(157, 5)
    ensures PrimitiveRoot(163, 2)
  {
    hide IsPrime, PowMod, PrimitiveRoot;
    FactorPrimes();
    Power(157, 5, 78, 1, 5, 25, 154, 45, 77, 129, 156);
    Power(157, 5, 52, 1, 1, 5, 125, 82, 22, 13, 12);
    Power(157, 5, 12, 1, 1, 1, 1, 5, 125, 82, 130);
    SquareStep(157, 5, 156, 156, 1);
    RootByFactors(157, 5, [2, 2, 3, 13]);
    Power(163, 2, 81, 1, 2, 4, 32, 46, 160, 9, 162);
    Power(163, 2, 54, 1, 1, 2, 8, 64, 42, 105, 104);
    SquareStep(163, 2, 162, 162, 1);
    RootByFactors(163, 2, [2, 3, 3, 3, 3]);
  }

  lemma Roots35()
    ensures PrimitiveRoot(167, 5)
    ensures PrimitiveRoot(173, 2)
  {
    hide IsPrime, PowMod, PrimitiveRoot;
    FactorPrimes();
    Power(167, 5, 83, 1, 5, 25, 119, 133, 154, 10, 166);
    Power(167, 5, 2, 1, 1, 1, 1, 1, 1, 5, 25);
    SquareStep(167, 5, 166, 166, 1);
    RootByFactors(167, 5, [2, 83]);
    Power(173, 2, 86, 1, 2, 4, 32, 159, 46, 80, 172);
    Power(173, 2, 4, 1, 1, 1, 1, 1, 2, 4, 16);
    SquareStep(173, 2, 172, 172, 1);
    RootByFactors(173, 2, [2, 2, 43]);
  }

  lemma Roots37()
    ensures PrimitiveRoot(179, 2)
    ensures PrimitiveRoot(181, 2)
  {
    hide IsPrime, PowMod, PrimitiveRoot;
    FactorPrimes();
    Power(179, 2, 89, 1, 2, 4, 32, 79, 155, 39, 178);
    Power(179, 2, 2, 1, 1, 1, 1, 1, 1, 2, 4);
    SquareStep(179, 2, 178, 178, 1);
    RootByFactors(179, 2, [2, 89]);
    Power(181, 2, 90, 1, 2, 4, 32, 57, 172, 162, 180);
    Power(181, 2, 60, 1, 1, 2, 8, 128, 7, 49, 48);
    Power(181, 2, 36, 1, 1, 2, 4, 16, 150, 56, 59);
    SquareStep(181, 2, 180, 180, 1);
    RootByFactors(181, 2, [2, 2, 3, 3, 5]);
  }

  lemma Roots39()
    ensures PrimitiveRoot(191, 19)
    ensures PrimitiveRoot(193, 5)
  {
    hide IsPrime, PowMod, PrimitiveRoot;
    FactorPrimes();
    Power(191, 19, 95, 1, 19, 170, 166, 33, 63, 157, 190);
    Power(191, 19, 38, 1, 1, 19, 170, 59, 53, 82, 39);
    Power(191, 19, 10, 1, 1, 1, 1, 19, 170, 166, 52);
    SquareStep(191, 19, 190, 190, 1);
    RootByFactors(191, 19, [2, 5, 19]);
    Power(193, 5, 96, 1, 5, 125, 185, 64, 43, 112, 192);
    Power(193, 5, 64, 1, 5, 25, 46, 186, 49, 85, 84);
    SquareStep(193, 5, 192, 192, 1);
    RootByFactors(193, 5, [2, 2, 2, 2, 2, 2, 3]);
  }

  lemma Roots41()
    ensures PrimitiveRoot(197, 2)
    ensures PrimitiveRoot(199, 3)
  {
    hide IsPrime, PowMod, PrimitiveRoot;
    FactorPrimes();
    Power(197, 2, 98, 1, 2, 8, 64, 156, 105, 183, 196);
    Power(197, 2, 28, 1, 1, 1, 2, 8, 128, 33, 104);
    SquareStep(197, 2, 196, 196, 1);
    RootByFactors(197, 2, [2, 2, 7, 7]);
    Power(199, 3, 99, 1, 3, 27, 132, 111, 182, 71, 198);
    Power(199, 3, 66, 1, 3, 9, 81, 193, 36, 107, 106);
    Power(199, 3, 18, 1, 1, 1, 3, 9, 81, 181, 125);
    SquareStep(199, 3, 198, 198, 1);
    RootByFactors(199, 3, [2, 3, 3, 11]);
  }

  lemma Roots43()
    ensures PrimitiveRoot(211, 2)
    ensures PrimitiveRoot(223, 3)
  {
    hide IsPrime, PowMod, PrimitiveRoot;
    FactorPrimes();
    Power(211, 2, 105, 1, 2, 8, 64, 174, 103, 59, 210);
    Power(211, 2, 70, 1, 2, 4, 16, 45, 41, 197, 196);
    Power(211, 2, 42, 1, 1, 2, 4, 32, 180, 23, 107);
    Power(211, 2, 30, 1, 1, 1, 2, 8, 128, 63, 171);
    SquareStep(211, 2, 210, 210, 1);
    RootByFactors(211, 2, [2, 3, 5, 7]);
    Power(223, 3, 111, 1, 3, 27, 60, 96, 219, 48, 222);
    Power(223, 3, 74, 1, 3, 9, 81, 59, 136, 184, 183);
    Power(223, 3, 6, 1, 1, 1, 1, 1, 3, 27, 60);
    SquareStep(223, 3, 222, 222, 1);
    RootByFactors(223, 3, [2, 3, 37]);
  }

  lemma Roots45()
    ensures PrimitiveRoot(227, 2)
    ensures PrimitiveRoot(229, 6)
  {
    hide IsPrime, PowMod, PrimitiveRoot;
    FactorPrimes();
    Power(227, 2, 113, 1, 2, 8, 128, 40, 11, 121, 226);
    Power(227, 2, 2, 1, 1, 1, 1, 1, 1, 2, 4);
    SquareStep(227, 2, 226, 226, 1);
    RootByFactors(227, 2, [2, 113]);
    Power(229, 6, 114, 1, 6, 216, 98, 215, 196, 122, 228);
    Power(229, 6, 76, 1, 6, 36, 151, 93, 140, 135, 134);
    Power(229, 6, 12, 1, 1, 1, 1, 6, 216, 169, 165);
    SquareStep(229, 6, 228, 228, 1);
    RootByFactors(229, 6, [2, 2, 3, 19]);
  }

  lemma Roots47()
    ensures PrimitiveRoot(233, 3)
    ensures PrimitiveRoot(239, 7)
  {
    hide IsPrime, PowMod, PrimitiveRoot;
    FactorPrimes();
    Power(233, 3, 116, 1, 3, 27, 90, 178, 221, 144, 232);
    Power(233, 3, 8, 1, 1, 1, 1, 3, 9, 81, 37);
    SquareStep(233, 3, 232, 232, 1);
    RootByFactors(233, 3, [2, 2, 2, 29]);
    Power(239, 7, 119, 1, 7, 104, 188, 211, 230, 89, 238);
    Power(239, 7, 34, 1, 1, 7, 49, 11, 121, 195, 24);
    Power(239, 7, 14, 1, 1, 1, 1, 7, 104, 188, 211);
    SquareStep(239, 7, 238, 238, 1);
    RootByFactors(239, 7, [2, 7, 17]);
  }

  lemma Roots49()
    ensures PrimitiveRoot(241, 7)
    ensures PrimitiveRoot(251, 6)
  {
    hide IsPrime, PowMod, PrimitiveRoot;
    FactorPrimes();
    Power(241, 7, 120, 1, 7, 102, 46, 111, 30, 177, 240);
    Power(241, 7, 80, 1, 7, 49, 178, 113, 237, 16, 15);
    Power(241, 7, 48, 1, 1, 7, 102, 41, 235, 36, 91);
    SquareStep(241, 7, 240, 240, 1);
    RootByFactors(241, 7, [2, 2, 2, 2, 3, 5]);
    Power(251, 6, 125, 1, 6, 216, 71, 126, 127, 65, 250);
    Power(251, 6, 50, 1, 1, 6, 216, 221, 147, 138, 219);
    SquareStep(251, 6, 250, 250, 1);
    RootByFactors(251, 6, [2, 5, 5, 5]);
  }

  lemma Roots51()
    ensures PrimitiveRoot(257, 3)
  {
    hide IsPrime, PowMod, PrimitiveRoot;
    FactorPrimes();
    Power(257, 3, 128, 3, 9, 81, 136, 249, 64, 241, 256);
    SquareStep(257, 3, 256, 256, 1);
    RootByFactors(257, 3, [2, 2, 2, 2, 2, 2, 2, 2]);
  }

  /** Every entry of the table is a prime and one of its primitive roots. */
  lemma TableEntries(i: nat)
    requires i < TABLE_SIZE
    ensures IsPrime(Entry(i).0) && PrimitiveRoot(Entry(i).0, Entry(i).1)
  {
    hide Entry, PrimitiveRoot, IsPrime;
    TableRoots(i);
    RootIsPrime(Entry(i).0, Entry(i).1);
  }

  lemma TableRoots(i: nat)
    requires i < TABLE_SIZE
    ensures PrimitiveRoot(Entry(i).0, Entry(i).1)
  {
    hide PrimitiveRoot;
    if i < 15 {
      Roots0();
      Roots3();
      Roots6();
      Roots9();
      Roots12();
    } else {
      match i {
        case 15 | 16 => Roots15();
        case 17 | 18 => Roots17();
        case 19 | 20 => Roots19();
        case 21 | 22 => Roots21();
        case 23 | 24 => Roots23();
        case 25 | 26 => Roots25();
        case 27 | 28 => Roots27();
        case 29 | 30 => Roots29();
        case 31 | 32 => Roots31();
        case 33 | 34 => Roots33();
        case 35 | 36 => Roots35();
        case 37 | 38 => Roots37();
        case 39 | 40 => Roots39();
        case 41 | 42 => Roots41();
        case 43 | 44 => Roots43();
        case 45 | 46 => Roots45();
        case 47 | 48 => Roots47();
        case 49 | 50 => Roots49();
        case 51 => Roots51();
        case _ =>
      }
    }
  }
}
