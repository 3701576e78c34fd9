/**
  The generator table of the turbo interleaver is complete and canonical: it
  lists all primes from 7 to 257, each with its least primitive root.  A smaller
  number is a square, a cube or a fifth power modulo the prime, hence no root.
  */
module LeastRoots {
  import opened NumberTheory
  import opened Residues
  import opened RootTable

  lemma Least23(w: nat)
    requires 2 <= w < 5
    ensures !PrimitiveRoot(23, w)
  {
    hide PrimitiveRoot, PowMod;
    TableRoots(5);
    match w {
      case 2 => SquareIsNoRoot(23, 5, 5, 2);
      case 3 => SquareIsNoRoot(23, 5, 7, 3);
      case _ => SquareIsNoRoot(23, 5, 2, 4);
    }
  }

  lemma Least41(w: nat)
    requires 2 <= w < 6
    ensures !PrimitiveRoot(41, w)
  {
    hide PrimitiveRoot, PowMod;
    TableRoots(9);
    match w {
      case 2 => SquareIsNoRoot(41, 6, 17, 2);
      case 3 => FifthIsNoRoot(41, 6, 11, 39, 19, 4, 3);
      case 4 => SquareIsNoRoot(41, 6, 2, 4);
      case _ => SquareIsNoRoot(41, 6, 13, 5);
    }
  }

  lemma Least47(w: nat)
    requires 2 <= w < 5
    ensures !PrimitiveRoot(47, w)
  {
    hide PrimitiveRoot, PowMod;
    TableRoots(11);
    match w {
      case 2 => SquareIsNoRoot(47, 5, 7, 2);
      case 3 => SquareIsNoRoot(47, 5, 12, 3);
      case _ => SquareIsNoRoot(47, 5, 2, 4);
    }
  }

  lemma Least71(w: nat)
    requires 2 <= w < 7
    ensures !PrimitiveRoot(71, w)
  {
    hide PrimitiveRoot, PowMod;
    TableRoots(16);
    match w {
      case 2 => SquareIsNoRoot(71, 7, 12, 2);
      case 3 => SquareIsNoRoot(71, 7, 28, 3);
      case 4 => SquareIsNoRoot(71, 7, 2, 4);
      case 5 => SquareIsNoRoot(71, 7, 17, 5);
      case _ => SquareIsNoRoot(71, 7, 19, 6);
    }
  }

  lemma Least73(w: nat)
    requires 2 <= w < 5
    ensures !PrimitiveRoot(73, w)
  {
    hide PrimitiveRoot, PowMod;
    TableRoots(17);
    match w {
      case 2 => SquareIsNoRoot(73, 5, 32, 2);
      case 3 => SquareIsNoRoot(73, 5, 21, 3);
      case _ => SquareIsNoRoot(73, 5, 2, 4);
    }
  }

  lemma Least97(w: nat)
    requires 2 <= w < 5
    ensures !PrimitiveRoot(97, w)
  {
    hide PrimitiveRoot, PowMod;
    TableRoots(21);
    match w {
      case 2 => SquareIsNoRoot(97, 5, 14, 2);
      case 3 => SquareIsNoRoot(97, 5, 10, 3);
      case _ => SquareIsNoRoot(97, 5, 2, 4);
    }
  }

  lemma Least103(w: nat)
    requires 2 <= w < 5
    ensures !PrimitiveRoot(103, w)
  {
    hide PrimitiveRoot, PowMod;
    TableRoots(23);
    match w {
      case 2 => SquareIsNoRoot(103, 5, 38, 2);
      case 3 => CubeIsNoRoot(103, 5, 44, 82, 3);
      case _ => SquareIsNoRoot(103, 5, 2, 4);
    }
  }

  lemma Least109(w: nat)
    requires 2 <= w < 6
    ensures !PrimitiveRoot(109, w)
  {
    hide PrimitiveRoot, PowMod;
    TableRoots(25);
    match w {
      case 2 => CubeIsNoRoot(109, 6, 57, 88, 2);
      case 3 => SquareIsNoRoot(109, 6, 49, 3);
      case 4 => SquareIsNoRoot(109, 6, 2, 4);
      case _ => SquareIsNoRoot(109, 6, 21, 5);
    }
  }

  lemma Least151(w: nat)
    requires 2 <= w < 6
    ensures !PrimitiveRoot(151, w)
  {
    hide PrimitiveRoot, PowMod;
    TableRoots(32);
    match w {
      case 2 => SquareIsNoRoot(151, 6, 46, 2);
      case 3 => CubeIsNoRoot(151, 6, 56, 116, 3);
      case 4 => SquareIsNoRoot(151, 6, 2, 4);
      case _ => SquareIsNoRoot(151, 6, 55, 5);
    }
  }

  lemma Least157(w: nat)
    requires 2 <= w < 5
    ensures !PrimitiveRoot(157, w)
  {
    hide PrimitiveRoot, PowMod;
    TableRoots(33);
    match w {
      case 2 => CubeIsNoRoot(157, 5, 62, 76, 2);
      case 3 => SquareIsNoRoot(157, 5, 72, 3);
      case _ => SquareIsNoRoot(157, 5, 2, 4);
    }
  }

  lemma Least167(w: nat)
    requires 2 <= w < 5
    ensures !PrimitiveRoot(167, w)
  {
    hide PrimitiveRoot, PowMod;
    TableRoots(35);
    match w {
      case 2 => SquareIsNoRoot(167, 5, 13, 2);
      case 3 => SquareIsNoRoot(167, 5, 62, 3);
      case _ => SquareIsNoRoot(167, 5, 2, 4);
    }
  }

  /** 7 has order 10 modulo 191. */
  lemma SevenOf191()
    ensures !PrimitiveRoot(191, 7)
  {
    SevenToTen();
  }

  lemma SevenToTen()
    ensures PowMod(7, 10, 191) == 1
  {
    hide PowMod;
    FifthPower(191, 7, 49, 152, 109, 190);
    PowModAdd(191, 7, 5, 5);
    assert PowMod(7, 10, 191) == 1;
  }

  lemma Least191Part0(w: nat)
    requires 2 <= w <= 7
    ensures !PrimitiveRoot(191, w)
  {
    hide PrimitiveRoot, PowMod;
    TableRoots(39);
    match w {
      case 2 => SquareIsNoRoot(191, 19, 57, 2);
      case 3 => SquareIsNoRoot(191, 19, 24, 3);
      case 4 => SquareIsNoRoot(191, 19, 2, 4);
      case 5 => SquareIsNoRoot(191, 19, 14, 5);
      case 6 => SquareIsNoRoot(191, 19, 31, 6);
      case _ => SevenOf191();
    }
  }

  lemma Least191Part1(w: nat)
    requires 8 <= w <= 13
    ensures !PrimitiveRoot(191, w)
  {
    hide PrimitiveRoot, PowMod;
    TableRoots(39);
    match w {
      case 8 => SquareIsNoRoot(191, 19, 77, 8);
      case 9 => SquareIsNoRoot(191, 19, 3, 9);
      case 10 => SquareIsNoRoot(191, 19, 34, 10);
      case 11 => FifthIsNoRoot(191, 19, 66, 154, 41, 32, 11);
      case 12 => SquareIsNoRoot(191, 19, 48, 12);
      case _ => SquareIsNoRoot(191, 19, 83, 13);
    }
  }

  lemma Least191Part2(w: nat)
    requires 14 <= w <= 18
    ensures !PrimitiveRoot(191, w)
  {
    hide PrimitiveRoot, PowMod;
    TableRoots(39);
    match w {
      case 14 => FifthIsNoRoot(191, 19, 112, 129, 123, 24, 14);
      case 15 => SquareIsNoRoot(191, 19, 46, 15);
      case 16 => SquareIsNoRoot(191, 19, 4, 16);
      case 17 => SquareIsNoRoot(191, 19, 50, 17);
      case _ => SquareIsNoRoot(191, 19, 20, 18);
    }
  }

  lemma Least191(w: nat)
    requires 2 <= w < 19
    ensures !PrimitiveRoot(191, w)
  {
    hide PrimitiveRoot;
    if w <= 7 { Least191Part0(w); } else if w <= 13 { Least191Part1(w); } else { Least191Part2(w); }
  }

  lemma Least193(w: nat)
    requires 2 <= w < 5
    ensures !PrimitiveRoot(193, w)
  {
    hide PrimitiveRoot, PowMod;
    TableRoots(40);
    match w {
      case 2 => SquareIsNoRoot(193, 5, 52, 2);
      case 3 => SquareIsNoRoot(193, 5, 14, 3);
      case _ => SquareIsNoRoot(193, 5, 2, 4);
    }
  }

  lemma Least229(w: nat)
    requires 2 <= w < 6
    ensures !PrimitiveRoot(229, w)
  {
    hide PrimitiveRoot, PowMod;
    TableRoots(46);
    match w {
      case 2 => CubeIsNoRoot(229, 6, 52, 185, 2);
      case 3 => SquareIsNoRoot(229, 6, 71, 3);
      case 4 => SquareIsNoRoot(229, 6, 2, 4);
      case _ => SquareIsNoRoot(229, 6, 66, 5);
    }
  }

  lemma Least239(w: nat)
    requires 2 <= w < 7
    ensures !PrimitiveRoot(239, w)
  {
    hide PrimitiveRoot, PowMod;
    TableRoots(48);
    match w {
      case 2 => SquareIsNoRoot(239, 7, 99, 2);
      case 3 => SquareIsNoRoot(239, 7, 106, 3);
      case 4 => SquareIsNoRoot(239, 7, 2, 4);
      case 5 => SquareIsNoRoot(239, 7, 31, 5);
      case _ => SquareIsNoRoot(239, 7, 22, 6);
    }
  }

  lemma Least241(w: nat)
    requires 2 <= w < 7
    ensures !PrimitiveRoot(241, w)
  {
    hide PrimitiveRoot, PowMod;
    TableRoots(49);
    match w {
      case 2 => SquareIsNoRoot(241, 7, 22, 2);
      case 3 => SquareIsNoRoot(241, 7, 56, 3);
      case 4 => SquareIsNoRoot(241, 7, 2, 4);
      case 5 => SquareIsNoRoot(241, 7, 103, 5);
      case _ => SquareIsNoRoot(241, 7, 27, 6);
    }
  }

  lemma Least251(w: nat)
    requires 2 <= w < 6
    ensures !PrimitiveRoot(251, w)
  {
    hide PrimitiveRoot, PowMod;
    TableRoots(50);
    match w {
      case 2 => FifthIsNoRoot(251, 6, 43, 92, 191, 181, 2);
      case 3 => SquareIsNoRoot(251, 6, 76, 3);
      case 4 => SquareIsNoRoot(251, 6, 2, 4);
      case _ => SquareIsNoRoot(251, 6, 16, 5);
    }
  }

  lemma TwoIsNoRoot0()
    ensures !PrimitiveRoot(7, 2)
    ensures !PrimitiveRoot(17, 2)
    ensures !PrimitiveRoot(31, 2)
    ensures !PrimitiveRoot(43, 2)
    ensures !PrimitiveRoot(79, 2)
  {
    hide PrimitiveRoot, PowMod;
    TableRoots(0);
    SquareIsNoRoot(7, 3, 3, 2);
    TableRoots(3);
    SquareIsNoRoot(17, 3, 6, 2);
    TableRoots(7);
    SquareIsNoRoot(31, 3, 8, 2);
    TableRoots(10);
    CubeIsNoRoot(43, 3, 20, 13, 2);
    TableRoots(18);
    SquareIsNoRoot(79, 3, 9, 2);
  }

  lemma TwoIsNoRoot1()
    ensures !PrimitiveRoot(89, 2)
    ensures !PrimitiveRoot(113, 2)
    ensures !PrimitiveRoot(127, 2)
    ensures !PrimitiveRoot(137, 2)
    ensures !PrimitiveRoot(199, 2)
  {
    hide PrimitiveRoot, PowMod;
    TableRoots(20);
    SquareIsNoRoot(89, 3, 25, 2);
    TableRoots(26);
    SquareIsNoRoot(113, 3, 51, 2);
    TableRoots(27);
    SquareIsNoRoot(127, 3, 16, 2);
    TableRoots(29);
    SquareIsNoRoot(137, 3, 31, 2);
    TableRoots(42);
    SquareIsNoRoot(199, 3, 20, 2);
  }

  lemma TwoIsNoRoot2()
    ensures !PrimitiveRoot(223, 2)
    ensures !PrimitiveRoot(233, 2)
    ensures !PrimitiveRoot(257, 2)
  {
    hide PrimitiveRoot, PowMod;
    TableRoots(44);
    SquareIsNoRoot(223, 3, 15, 2);
    TableRoots(47);
    SquareIsNoRoot(233, 3, 85, 2);
    TableRoots(51);
    SquareIsNoRoot(257, 3, 60, 2);
  }

  /** No number below a table entry's generator is a primitive root. */
  lemma LeastRoot(i: nat, w: nat)
    requires i < TABLE_SIZE && w < Entry(i).1
    ensures !PrimitiveRoot(Entry(i).0, w)
  {
    hide PrimitiveRoot;
    if w <= 1 {
      EntryAboveThree(i);
      TrivialIsNoRoot(Entry(i).0, w);
      return;
    }
    match i {
      case 5 => Least23(w);
      case 9 => Least41(w);
      case 11 => Least47(w);
      case 16 => Least71(w);
      case 17 => Least73(w);
      case 21 => Least97(w);
      case 23 => Least103(w);
      case 25 => Least109(w);
      case 32 => Least151(w);
      case 33 => Least157(w);
      case 35 => Least167(w);
      case 39 => Least191(w);
      case 40 => Least193(w);
      case 46 => Least229(w);
      case 48 => Least239(w);
      case 49 => Least241(w);
      case 50 => Least251(w);
      case 0 | 3 | 7 | 10 | 18 => TwoIsNoRoot0();
      case 20 | 26 | 27 | 29 | 42 => TwoIsNoRoot1();
      case 44 | 47 | 51 => TwoIsNoRoot2();
      case _ =>
    }
  }

  lemma EntryAboveThree(i: nat)
    requires i < TABLE_SIZE
    ensures Entry(i).0 > 3
  {
  }

  predicate InTable(n: nat) { exists i: nat :: i < TABLE_SIZE && Entry(i).0 == n }

  lemma InTableAt(i: nat)
    requires i < TABLE_SIZE
    ensures InTable(Entry(i).0)
  {
  }

  /** No factor up to 13, other than the number itself. */
  predicate Rough(n: nat) {
    && n % 2 != 0 && n % 3 != 0 && n % 5 != 0 && (n == 7 || n % 7 != 0) && (n == 11 || n % 11 != 0) && (n == 13 || n % 13 != 0)
  }

  lemma Primes0(n: nat)
    requires 7 <= n <= 19 && Rough(n)
    ensures InTable(n)
  {
    hide InTable;
    assert n in {7, 11, 13, 17, 19};
    InTableAt(0);
    InTableAt(1);
    InTableAt(2);
    InTableAt(3);
    InTableAt(4);
  }

  lemma Primes1(n: nat)
    requires 20 <= n <= 32 && Rough(n)
    ensures InTable(n)
  {
    hide InTable;
    assert n in {23, 29, 31};
    InTableAt(5);
    InTableAt(6);
    InTableAt(7);
  }

  lemma Primes2(n: nat)
    requires 33 <= n <= 45 && Rough(n)
    ensures InTable(n)
  {
    hide InTable;
    assert n in {37, 41, 43};
    InTableAt(8);
    InTableAt(9);
    InTableAt(10);
  }

  lemma Primes3(n: nat)
    requires 46 <= n <= 58 && Rough(n)
    ensures InTable(n)
  {
    hide InTable;
    assert n in {47, 53};
    InTableAt(11);
    InTableAt(12);
  }

  lemma Primes4(n: nat)
    requires 59 <= n <= 71 && Rough(n)
    ensures InTable(n)
  {
    hide InTable;
    assert n in {59, 61, 67, 71};
    InTableAt(13);
    InTableAt(14);
    InTableAt(15);
    InTableAt(16);
  }

  lemma Primes5(n: nat)
    requires 72 <= n <= 84 && Rough(n)
    ensures InTable(n)
  {
    hide InTable;
    assert n in {73, 79, 83};
    InTableAt(17);
    InTableAt(18);
    InTableAt(19);
  }

  lemma Primes6(n: nat)
    requires 85 <= n <= 97 && Rough(n)
    ensures InTable(n)
  {
    hide InTable;
    assert n in {89, 97};
    InTableAt(20);
    InTableAt(21);
  }

  lemma Primes7(n: nat)
    requires 98 <= n <= 110 && Rough(n)
    ensures InTable(n)
  {
    hide InTable;
    assert n in {101, 103, 107, 109};
    InTableAt(22);
    InTableAt(23);
    InTableAt(24);
    InTableAt(25);
  }

  lemma Primes8(n: nat)
    requires 111 <= n <= 123 && Rough(n)
    ensures InTable(n)
  {
    hide InTable;
    assert n in {113};
    InTableAt(26);
  }

  lemma Primes9(n: nat)
    requires 124 <= n <= 136 && Rough(n)
    ensures InTable(n)
  {
    hide InTable;
    assert n in {127, 131};
    InTableAt(27);
    InTableAt(28);
  }

  lemma Primes10(n: nat)
    requires 137 <= n <= 149 && Rough(n)
    ensures InTable(n)
  {
    hide InTable;
    assert n in {137, 139, 149};
    InTableAt(29);
    InTableAt(30);
    InTableAt(31);
  }

  lemma Primes11(n: nat)
    requires 150 <= n <= 162 && Rough(n)
    ensures InTable(n)
  {
    hide InTable;
    assert n in {151, 157};
    InTableAt(32);
    InTableAt(33);
  }

  lemma Primes12(n: nat)
    requires 163 <= n <= 175 && Rough(n)
    ensures InTable(n)
  {
    hide InTable;
    assert n in {163, 167, 173};
    InTableAt(34);
    InTableAt(35);
    InTableAt(36);
  }

  lemma Primes13(n: nat)
    requires 176 <= n <= 188 && Rough(n)
    ensures InTable(n)
  {
    hide InTable;
    assert n in {179, 181};
    InTableAt(37);
    InTableAt(38);
  }

  lemma Primes14(n: nat)
    requires 189 <= n <= 201 && Rough(n)
    ensures InTable(n)
  {
    hide InTable;
    assert n in {191, 193, 197, 199};
    InTableAt(39);
    InTableAt(40);
    InTableAt(41);
    InTableAt(42);
  }

  lemma Primes15(n: nat)
    requires 202 <= n <= 214 && Rough(n)
    ensures InTable(n)
  {
    hide InTable;
    assert n in {211};
    InTableAt(43);
  }

  lemma Primes16(n: nat)
    requires 215 <= n <= 227 && Rough(n)
    ensures InTable(n)
  {
    hide InTable;
    assert n in {223, 227};
    InTableAt(44);
    InTableAt(45);
  }

  lemma Primes17(n: nat)
    requires 228 <= n <= 240 && Rough(n)
    ensures InTable(n)
  {
    hide InTable;
    assert n in {229, 233, 239};
    InTableAt(46);
    InTableAt(47);
    InTableAt(48);
  }

  lemma Primes18(n: nat)
    requires 241 <= n <= 253 && Rough(n)
    ensures InTable(n)
  {
    hide InTable;
    assert n in {241, 251};
    InTableAt(49);
    InTableAt(50);
  }

  lemma Primes19(n: nat)
    requires 254 <= n <= 257 && Rough(n)
    ensures InTable(n)
  {
    hide InTable;
    assert n in {257};
    InTableAt(51);
  }

  lemma NoFactor(n: nat, d: nat)
    requires IsPrime(n) && 2 <= d < n
    ensures n % d != 0
  {
    assert !Divides(d, n);
  }

  lemma PrimeIsRough(n: nat)
    requires IsPrime(n) && n >= 7
    ensures Rough(n)
  {
    hide IsPrime;
    NoFactor(n, 2);
    NoFactor(n, 3);
    NoFactor(n, 5);
    if n > 7 { NoFactor(n, 7); }
    if n > 11 { NoFactor(n, 11); }
    if n > 13 { NoFactor(n, 13); }
  }

  /** The table has every prime from 7 to 257. */
  lemma AllPrimes(n: nat)
    requires IsPrime(n) && 7 <= n <= 257
    ensures InTable(n)
  {
    hide IsPrime, InTable, Rough;
    PrimeIsRough(n);
    if n <= 19 {
      Primes0(n);
    } else if n <= 32 {
      Primes1(n);
    } else if n <= 45 {
      Primes2(n);
    } else if n <= 58 {
      Primes3(n);
    } else if n <= 71 {
      Primes4(n);
    } else if n <= 84 {
      Primes5(n);
    } else if n <= 97 {
      Primes6(n);
    } else if n <= 110 {
      Primes7(n);
    } else if n <= 123 {
      Primes8(n);
    } else if n <= 136 {
      Primes9(n);
    } else if n <= 149 {
      Primes10(n);
    } else if n <= 162 {
      Primes11(n);
    } else if n <= 175 {
      Primes12(n);
    } else if n <= 188 {
      Primes13(n);
    } else if n <= 201 {
      Primes14(n);
    } else if n <= 214 {
      Primes15(n);
    } else if n <= 227 {
      Primes16(n);
    } else if n <= 240 {
      Primes17(n);
    } else if n <= 253 {
      Primes18(n);
    } else {
      Primes19(n);
    }
  }
}
