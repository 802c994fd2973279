// The logarithms behind the tables of dtoa.c: close rational bounds on 1 / log2(radix), and what follows from them for
// mul_log2_radix and for the tables of digit counts and exponents.
module Logarithms {
  import opened Arithmetic

  /** Two fractions p1/q1 <= 1/log2(radix) <= p2/q2. */
  datatype Bounds = Bounds(p1: nat, q1: nat, p2: nat, q2: nat)

  /** Neighbours whose denominators add up to more than 2048, for radix 2 to 36; exact for the powers of two. */
  function BoundsOf(radix: nat): Bounds
    requires 2 <= radix <= 36
  {
    match radix
    case 2 => Bounds(1, 1, 1, 1)
    case 3 => Bounds(971, 1539, 665, 1054)
    case 4 => Bounds(1, 2, 1, 2)
    case 5 => Bounds(643, 1493, 789, 1832)
    case 6 => Bounds(306, 791, 665, 1719)
    case 7 => Bounds(571, 1603, 680, 1909)
    case 8 => Bounds(1, 3, 1, 3)
    case 9 => Bounds(153, 485, 512, 1623)
    case 10 => Bounds(497, 1651, 146, 485)
    case 11 => Bounds(37, 128, 579, 2003)
    case 12 => Bounds(306, 1097, 359, 1287)
    case 13 => Bounds(227, 840, 464, 1717)
    case 14 => Bounds(462, 1759, 109, 415)
    case 15 => Bounds(290, 1133, 247, 965)
    case 16 => Bounds(1, 4, 1, 4)
    case 17 => Bounds(343, 1402, 263, 1075)
    case 18 => Bounds(153, 638, 359, 1497)
    case 19 => Bounds(121, 514, 480, 2039)
    case 20 => Bounds(351, 1517, 146, 631)
    case 21 => Bounds(339, 1489, 130, 571)
    case 22 => Bounds(37, 165, 431, 1922)
    case 23 => Bounds(403, 1823, 191, 864)
    case 24 => Bounds(306, 1403, 359, 1646)
    case 25 => Bounds(424, 1969, 73, 339)
    case 26 => Bounds(227, 1067, 237, 1114)
    case 27 => Bounds(102, 485, 359, 1707)
    case 28 => Bounds(353, 1697, 109, 524)
    case 29 => Bounds(169, 821, 345, 1676)
    case 30 => Bounds(290, 1423, 247, 1212)
    case 31 => Bounds(131, 649, 371, 1838)
    case 32 => Bounds(1, 5, 1, 5)
    case 33 => Bounds(45, 227, 383, 1932)
    case 34 => Bounds(343, 1745, 263, 1338)
    case 35 => Bounds(379, 1944, 263, 1349)
    case _ => Bounds(153, 791, 359, 1856)
  }

  const ones: seq<nat> := [1, 2, 4, 8, 16, 32, 64, 128, 256, 512, 1024, 2048, 4096, 8192, 16384, 32768]

  const sixteens: seq<nat> := [1, 0x1_0000, 0x1_0000_0000, 0x1_0000_0000_0000, 0x1_0000_0000_0000_0000]

  lemma {:induction false} OnesAre(i: nat)
    requires i < 16
    ensures ones[i] == Pow(2, i)
  {
    if i > 0 {
      OnesAre(i - 1);
      assert ones[i] == 2 * ones[i - 1];
    }
  }

  lemma {:induction false} SixteensAre(j: nat)
    requires j < 5
    ensures sixteens[j] == Pow(2, 16 * j)
  {
    hide Pow;
    if j > 0 {
      SixteensAre(j - 1);
      OnesAre(15);
      PowAdd(2, 15, 1);
      PowAdd(2, 16 * (j - 1), 16);
      assert Pow(2, 1) == 2 by {
        OnesAre(1);
      }
      assert sixteens[j] == 0x1_0000 * sixteens[j - 1];
    } else {
      OnesAre(0);
    }
  }

  /** x * 2^s is at most b^n. */
  predicate AtMost(b: nat, n: nat, x: nat, s: nat) { x * Pow(2, s) <= Pow(b, n) }

  /** x * 2^s is at least b^n. */
  predicate AtLeast(b: nat, n: nat, x: nat, s: nat) { x * Pow(2, s) >= Pow(b, n) }

  function Odd(b: nat, bit: nat): nat { if bit == 1 then b else 1 }

  lemma SquarePower(b: nat, n: nat, bit: nat)
    requires bit <= 1
    ensures Pow(b, 2 * n + bit) == Pow(b, n) * Pow(b, n) * Odd(b, bit)
  {
    PowAdd(b, n, n);
    PowAdd(b, 2 * n, bit);
    assert Pow(b, 1) == b * Pow(b, 0);
  }

  lemma SquareScale(x: nat, s: nat, o: nat, y: nat, k: nat)
    ensures y * Pow(2, k) <= x * x * o ==> y * Pow(2, 2 * s + k) <= x * Pow(2, s) * (x * Pow(2, s)) * o
    ensures y * Pow(2, k) >= x * x * o ==> y * Pow(2, 2 * s + k) >= x * Pow(2, s) * (x * Pow(2, s)) * o
  {
    hide Pow;
    var p, t := Pow(2, s), Pow(2, k);
    PowAdd(2, s, s);
    PowAdd(2, 2 * s, k);
    PowPositive(2, 2 * s);
    MovedSquare(x, p, o, y, t);
    if y * t <= x * x * o {
      MulMono(y * t, x * x * o, p * p);
    }
    if y * t >= x * x * o {
      MulMono(x * x * o, y * t, p * p);
    }
  }

  lemma MovedSquare(x: int, p: int, o: int, y: int, t: int)
    ensures x * p * (x * p) * o == x * x * o * (p * p) && y * (p * p * t) == y * t * (p * p)
  {
    Interchange(x, p, x, p);
    Assoc(x * x, p * p, o);
    Assoc(x * x, o, p * p);
    Assoc(p * p, o, 1);
    Assoc(y, t, p * p);
    Assoc(p * p, t, 1);
  }

  /** One step of evaluating a power from below: square, multiply, and drop 16 * j bits. */
  lemma FromBelow(b: nat, n: nat, x: nat, s: nat, bit: nat, y: nat, j: nat)
    requires AtMost(b, n, x, s) && bit <= 1 && j < 5 && y * sixteens[j] <= x * x * Odd(b, bit)
    ensures AtMost(b, 2 * n + bit, y, 2 * s + 16 * j)
  {
    hide Pow;
    SquarePower(b, n, bit);
    SixteensAre(j);
    SquareScale(x, s, Odd(b, bit), y, 16 * j);
    SquareMono(x * Pow(2, s), Pow(b, n), Odd(b, bit));
  }

  lemma SquareMono(x: nat, y: nat, o: nat)
    requires x <= y
    ensures x * x * o <= y * y * o
  {
    MulMono(x, y, x);
    MulMono(x, y, y);
    MulMono(x * x, y * y, o);
  }

  /** The same from above. */
  lemma FromAbove(b: nat, n: nat, x: nat, s: nat, bit: nat, y: nat, j: nat)
    requires AtLeast(b, n, x, s) && bit <= 1 && j < 5 && y * sixteens[j] >= x * x * Odd(b, bit)
    ensures AtLeast(b, 2 * n + bit, y, 2 * s + 16 * j)
  {
    hide Pow;
    SquarePower(b, n, bit);
    SixteensAre(j);
    SquareScale(x, s, Odd(b, bit), y, 16 * j);
    SquareMono(Pow(b, n), x * Pow(2, s), Odd(b, bit));
  }

  lemma First(b: nat)
    ensures AtMost(b, 1, b, 0) && AtLeast(b, 1, b, 0)
  {
    assert Pow(b, 1) == b * Pow(b, 0);
  }

  lemma PowerParts(s: nat, j: nat, i: nat)
    requires j < 5 && i < 16
    ensures Pow(2, s + 16 * j + i) == sixteens[j] * ones[i] * Pow(2, s)
  {
    hide Pow;
    SixteensAre(j);
    OnesAre(i);
    PowAdd(2, s, 16 * j);
    PowAdd(2, s + 16 * j, i);
    Assoc(Pow(2, s), sixteens[j], ones[i]);
  }

  lemma Beyond(b: nat, n: nat, x: nat, s: nat, j: nat, i: nat, q: nat)
    requires AtMost(b, n, x, s) && q == s + 16 * j + i && j < 5 && i < 16 && x > sixteens[j] * ones[i]
    ensures Pow(2, q) < Pow(b, n)
  {
    hide Pow;
    PowerParts(s, j, i);
    PowPositive(2, s);
    MulLess(Pow(2, s), sixteens[j] * ones[i], x);
  }

  lemma Within(b: nat, n: nat, x: nat, s: nat, j: nat, i: nat, q: nat)
    requires AtLeast(b, n, x, s) && q == s + 16 * j + i && j < 5 && i < 16 && x < sixteens[j] * ones[i]
    ensures Pow(b, n) < Pow(2, q)
  {
    hide Pow;
    PowerParts(s, j, i);
    PowPositive(2, s);
    MulLess(Pow(2, s), x, sixteens[j] * ones[i]);
  }

  lemma Low3()
    ensures Pow(3, 971) < Pow(2, 1539)
  {
    hide Pow, AtLeast;
    First(3);
    FromAbove(3, 1, 3, 0, 1, 27, 0); FromAbove(3, 3, 27, 0, 1, 2187, 0); FromAbove(3, 7, 2187, 0, 1, 14348907, 0);
    FromAbove(3, 15, 14348907, 0, 0, 3141649355, 1); FromAbove(3, 30, 3141649355, 16, 0, 2298029296, 2);
    FromAbove(3, 60, 2298029296, 64, 1, 3688693032, 2); FromAbove(3, 121, 3688693032, 160, 0, 3167999975, 2);
    FromAbove(3, 242, 3167999975, 352, 1, 7010221371, 2); FromAbove(3, 485, 7010221371, 736, 1, 34326131226, 2);
    Within(3, 971, 34326131226, 1504, 2, 3, 1539);
  }

  lemma High3()
    ensures Pow(2, 1054) < Pow(3, 665)
  {
    hide Pow, AtMost;
    First(3);
    FromBelow(3, 1, 3, 0, 0, 9, 0); FromBelow(3, 2, 9, 0, 1, 243, 0); FromBelow(3, 5, 243, 0, 0, 59049, 0);
    FromBelow(3, 10, 59049, 0, 0, 3486784401, 0); FromBelow(3, 20, 3486784401, 0, 1, 8492031222, 2);
    FromBelow(3, 41, 8492031222, 32, 1, 50371462205, 2); FromBelow(3, 83, 50371462205, 96, 0, 590757514506, 2);
    FromBelow(3, 166, 590757514506, 224, 0, 81256600316918, 2);
    FromBelow(3, 332, 81256600316918, 480, 1, 70371816055079, 3); Beyond(3, 665, 70371816055079, 1008, 2, 14, 1054);
  }

  lemma Low5()
    ensures Pow(5, 643) < Pow(2, 1493)
  {
    hide Pow, AtLeast;
    First(5);
    FromAbove(5, 1, 5, 0, 0, 25, 0); FromAbove(5, 2, 25, 0, 1, 3125, 0); FromAbove(5, 5, 3125, 0, 0, 9765625, 0);
    FromAbove(5, 10, 9765625, 0, 0, 95367431640625, 0); FromAbove(5, 20, 95367431640625, 0, 0, 32311742677853, 3);
    FromAbove(5, 40, 32311742677853, 48, 0, 3709206150688, 3); FromAbove(5, 80, 3709206150688, 144, 0, 48878981817, 3);
    FromAbove(5, 160, 48878981817, 336, 1, 2781342323249, 2); FromAbove(5, 321, 2781342323249, 704, 1, 137416569130, 3);
    Within(5, 643, 137416569130, 1456, 2, 5, 1493);
  }

  lemma High5()
    ensures Pow(2, 1832) < Pow(5, 789)
  {
    hide Pow, AtMost;
    First(5);
    FromBelow(5, 1, 5, 0, 1, 125, 0); FromBelow(5, 3, 125, 0, 0, 15625, 0); FromBelow(5, 6, 15625, 0, 0, 244140625, 0);
    FromBelow(5, 12, 244140625, 0, 0, 909494701772, 1); FromBelow(5, 24, 909494701772, 16, 1, 14693679385, 3);
    FromBelow(5, 49, 14693679385, 80, 0, 50269117082, 2); FromBelow(5, 98, 50269117082, 192, 1, 2941796710020, 2);
    FromBelow(5, 197, 2941796710020, 416, 0, 30745780616, 3); FromBelow(5, 394, 30745780616, 880, 1, 1100477559593, 2);
    Beyond(5, 789, 1100477559593, 1792, 2, 8, 1832);
  }

  lemma Low7()
    ensures Pow(7, 571) < Pow(2, 1603)
  {
    hide Pow, AtLeast;
    First(7);
    FromAbove(7, 1, 7, 0, 0, 49, 0); FromAbove(7, 2, 49, 0, 0, 2401, 0); FromAbove(7, 4, 2401, 0, 0, 5764801, 0);
    FromAbove(7, 8, 5764801, 0, 1, 3549659943, 1); FromAbove(7, 17, 3549659943, 16, 1, 20535802464, 2);
    FromAbove(7, 35, 20535802464, 64, 1, 687324041474, 2); FromAbove(7, 71, 687324041474, 160, 0, 109992534385099, 2);
    FromAbove(7, 142, 109992534385099, 352, 1, 4590972966, 4); FromAbove(7, 285, 4590972966, 768, 1, 34351653751, 2);
    Within(7, 571, 34351653751, 1568, 2, 3, 1603);
  }

  lemma High7()
    ensures Pow(2, 1909) < Pow(7, 680)
  {
    hide Pow, AtMost;
    First(7);
    FromBelow(7, 1, 7, 0, 0, 49, 0); FromBelow(7, 2, 49, 0, 1, 16807, 0); FromBelow(7, 5, 16807, 0, 0, 282475249, 0);
    FromBelow(7, 10, 282475249, 0, 1, 8522733521778, 1); FromBelow(7, 21, 8522733521778, 16, 0, 258058416176, 3);
    FromBelow(7, 42, 258058416176, 80, 1, 108536105396891, 2);
    FromBelow(7, 85, 108536105396891, 192, 0, 41851273290394, 3);
    FromBelow(7, 170, 41851273290394, 432, 0, 6222681307218, 3);
    FromBelow(7, 340, 6222681307218, 912, 0, 137567335838, 3); Beyond(7, 680, 137567335838, 1872, 2, 5, 1909);
  }

  lemma Low11()
    ensures Pow(11, 37) < Pow(2, 128)
  {
    hide Pow, AtLeast;
    First(11);
    FromAbove(11, 1, 11, 0, 0, 121, 0); FromAbove(11, 2, 121, 0, 0, 14641, 0);
    FromAbove(11, 4, 14641, 0, 1, 2357947691, 0); FromAbove(11, 9, 2357947691, 0, 0, 84837605491520, 1);
    FromAbove(11, 18, 84837605491520, 16, 1, 4291901707, 4); Within(11, 37, 4291901707, 96, 2, 0, 128);
  }

  lemma High11()
    ensures Pow(2, 2003) < Pow(11, 579)
  {
    hide Pow, AtMost;
    First(11);
    FromBelow(11, 1, 11, 0, 0, 121, 0); FromBelow(11, 2, 121, 0, 0, 14641, 0);
    FromBelow(11, 4, 14641, 0, 1, 2357947691, 0); FromBelow(11, 9, 2357947691, 0, 0, 84837605491519, 1);
    FromBelow(11, 18, 84837605491519, 16, 0, 25570370018835, 3);
    FromBelow(11, 36, 25570370018835, 80, 0, 2322919893416, 3); FromBelow(11, 72, 2322919893416, 208, 0, 19170289644, 3);
    FromBelow(11, 144, 19170289644, 464, 1, 941217889865, 2); FromBelow(11, 289, 941217889865, 960, 1, 34620492351, 3);
    Beyond(11, 579, 34620492351, 1968, 2, 3, 2003);
  }

  lemma Low13()
    ensures Pow(13, 227) < Pow(2, 840)
  {
    hide Pow, AtLeast;
    First(13);
    FromAbove(13, 1, 13, 0, 1, 2197, 0); FromAbove(13, 3, 2197, 0, 1, 62748517, 0);
    FromAbove(13, 7, 62748517, 0, 0, 60079595730, 1); FromAbove(13, 14, 60079595730, 16, 0, 840415671254, 2);
    FromAbove(13, 28, 840415671254, 64, 0, 2509276345, 3); FromAbove(13, 56, 2509276345, 176, 1, 19058138385, 2);
    FromAbove(13, 113, 19058138385, 384, 1, 1099371421879, 2); Within(13, 227, 1099371421879, 800, 2, 8, 840);
  }

  lemma High13()
    ensures Pow(2, 1717) < Pow(13, 464)
  {
    hide Pow, AtMost;
    First(13);
    FromBelow(13, 1, 13, 0, 1, 2197, 0); FromBelow(13, 3, 2197, 0, 1, 62748517, 0);
    FromBelow(13, 7, 62748517, 0, 0, 60079595729, 1); FromBelow(13, 14, 60079595729, 16, 1, 10925403725933, 2);
    FromBelow(13, 29, 10925403725933, 64, 0, 424067702108, 3); FromBelow(13, 58, 424067702108, 176, 0, 41870729991039, 2);
    FromBelow(13, 116, 41870729991039, 384, 0, 6228468514217, 3);
    FromBelow(13, 232, 6228468514217, 816, 0, 137823335082, 3); Beyond(13, 464, 137823335082, 1680, 2, 5, 1717);
  }

  lemma Low15()
    ensures Pow(15, 290) < Pow(2, 1133)
  {
    hide Pow, AtLeast;
    First(15);
    FromAbove(15, 1, 15, 0, 0, 225, 0); FromAbove(15, 2, 225, 0, 0, 50625, 0);
    FromAbove(15, 4, 50625, 0, 1, 38443359375, 0); FromAbove(15, 9, 38443359375, 0, 0, 344098517680, 2);
    FromAbove(15, 18, 344098517680, 32, 0, 27568030606391, 2); FromAbove(15, 36, 27568030606391, 96, 0, 2700049291757, 3);
    FromAbove(15, 72, 2700049291757, 240, 1, 388503425586, 3);
    FromAbove(15, 145, 388503425586, 528, 0, 35142272639102, 2); Within(15, 290, 35142272639102, 1088, 2, 13, 1133);
  }

  lemma High15()
    ensures Pow(2, 965) < Pow(15, 247)
  {
    hide Pow, AtMost;
    First(15);
    FromBelow(15, 1, 15, 0, 1, 3375, 0); FromBelow(15, 3, 3375, 0, 1, 170859375, 0);
    FromBelow(15, 7, 170859375, 0, 1, 6681730505079, 1); FromBelow(15, 15, 6681730505079, 16, 0, 158612758633, 3);
    FromBelow(15, 30, 158612758633, 80, 1, 87863325145457, 2); FromBelow(15, 61, 87863325145457, 192, 1, 6277501228, 4);
    FromBelow(15, 123, 6277501228, 448, 1, 137627433290, 2); Beyond(15, 247, 137627433290, 928, 2, 5, 965);
  }

  lemma Low17()
    ensures Pow(17, 343) < Pow(2, 1402)
  {
    hide Pow, AtLeast;
    First(17);
    FromAbove(17, 1, 17, 0, 0, 289, 0); FromAbove(17, 2, 289, 0, 1, 1419857, 0);
    FromAbove(17, 5, 1419857, 0, 0, 2015993900449, 0); FromAbove(17, 10, 2015993900449, 0, 1, 245463858708, 3);
    FromAbove(17, 21, 245463858708, 48, 0, 14028629737865, 2);
    FromAbove(17, 42, 14028629737865, 128, 1, 11886106994567, 3);
    FromAbove(17, 85, 11886106994567, 304, 1, 8532737791950, 3);
    FromAbove(17, 171, 8532737791950, 656, 1, 4397298318697, 3); Within(17, 343, 4397298318697, 1360, 2, 10, 1402);
  }

  lemma High17()
    ensures Pow(2, 1075) < Pow(17, 263)
  {
    hide Pow, AtMost;
    First(17);
    FromBelow(17, 1, 17, 0, 0, 289, 0); FromBelow(17, 2, 289, 0, 0, 83521, 0);
    FromBelow(17, 4, 83521, 0, 0, 6975757441, 0); FromBelow(17, 8, 6975757441, 0, 0, 11329816625, 2);
    FromBelow(17, 16, 11329816625, 32, 0, 29887246144, 2); FromBelow(17, 32, 29887246144, 96, 1, 3535581565281, 2);
    FromBelow(17, 65, 3535581565281, 224, 1, 754972010528, 3); FromBelow(17, 131, 754972010528, 496, 1, 34424752909, 3);
    Beyond(17, 263, 34424752909, 1040, 2, 3, 1075);
  }

  lemma Low19()
    ensures Pow(19, 121) < Pow(2, 514)
  {
    hide Pow, AtLeast;
    First(19);
    FromAbove(19, 1, 19, 0, 1, 6859, 0); FromAbove(19, 3, 6859, 0, 1, 893871739, 0);
    FromAbove(19, 7, 893871739, 0, 1, 3534631578, 2); FromAbove(19, 15, 3534631578, 32, 0, 2908897678, 2);
    FromAbove(19, 30, 2908897678, 96, 0, 129115077225858, 1); FromAbove(19, 60, 129115077225858, 208, 1, 17170691962, 4);
    Within(19, 121, 17170691962, 480, 2, 2, 514);
  }

  lemma High19()
    ensures Pow(2, 2039) < Pow(19, 480)
  {
    hide Pow, AtMost;
    First(19);
    FromBelow(19, 1, 19, 0, 1, 6859, 0); FromBelow(19, 3, 6859, 0, 1, 893871739, 0);
    FromBelow(19, 7, 893871739, 0, 1, 3534631577, 2); FromBelow(19, 15, 3534631577, 32, 0, 2908897675, 2);
    FromBelow(19, 30, 2908897675, 96, 0, 129115076959539, 1);
    FromBelow(19, 60, 129115076959539, 208, 0, 59226234932437, 3);
    FromBelow(19, 120, 59226234932437, 464, 0, 12462020408578, 3);
    FromBelow(19, 240, 12462020408578, 976, 0, 551743371573, 3); Beyond(19, 480, 551743371573, 2000, 2, 7, 2039);
  }

  lemma Low21()
    ensures Pow(21, 339) < Pow(2, 1489)
  {
    hide Pow, AtLeast;
    First(21);
    FromAbove(21, 1, 21, 0, 0, 441, 0); FromAbove(21, 2, 441, 0, 1, 4084101, 0);
    FromAbove(21, 5, 4084101, 0, 0, 16679880978201, 0); FromAbove(21, 10, 16679880978201, 0, 1, 20757038819803, 3);
    FromAbove(21, 21, 20757038819803, 48, 0, 1530703246171, 3); FromAbove(21, 42, 1530703246171, 144, 0, 8324194411, 3);
    FromAbove(21, 84, 8324194411, 336, 1, 338800359619, 2); FromAbove(21, 169, 338800359619, 704, 1, 8563814040, 3);
    Within(21, 339, 8563814040, 1456, 2, 1, 1489);
  }

  lemma High21()
    ensures Pow(2, 571) < Pow(21, 130)
  {
    hide Pow, AtMost;
    First(21);
    FromBelow(21, 1, 21, 0, 0, 441, 0); FromBelow(21, 2, 441, 0, 0, 194481, 0);
    FromBelow(21, 4, 194481, 0, 0, 37822859361, 0); FromBelow(21, 8, 37822859361, 0, 0, 333080228940, 2);
    FromBelow(21, 16, 333080228940, 32, 0, 25830799460113, 2);
    FromBelow(21, 32, 25830799460113, 96, 1, 49780035083273, 3);
    FromBelow(21, 65, 49780035083273, 240, 0, 8803808856654, 3); Beyond(21, 130, 8803808856654, 528, 2, 11, 571);
  }

  lemma Low23()
    ensures Pow(23, 403) < Pow(2, 1823)
  {
    hide Pow, AtLeast;
    First(23);
    FromAbove(23, 1, 23, 0, 1, 12167, 0); FromAbove(23, 3, 12167, 0, 0, 148035889, 0);
    FromAbove(23, 6, 148035889, 0, 0, 334390631593, 1); FromAbove(23, 12, 334390631593, 16, 1, 9136844787, 3);
    FromAbove(23, 25, 9136844787, 80, 0, 19437152116, 2); FromAbove(23, 50, 19437152116, 192, 0, 87964088279, 2);
    FromAbove(23, 100, 87964088279, 416, 1, 41436091767480, 2);
    FromAbove(23, 201, 41436091767480, 864, 1, 140296105833747, 3); Within(23, 403, 140296105833747, 1776, 2, 15, 1823);
  }

  lemma High23()
    ensures Pow(2, 864) < Pow(23, 191)
  {
    hide Pow, AtMost;
    First(23);
    FromBelow(23, 1, 23, 0, 0, 529, 0); FromBelow(23, 2, 529, 0, 1, 6436343, 0);
    FromBelow(23, 5, 6436343, 0, 1, 14538723112, 1); FromBelow(23, 11, 14538723112, 16, 1, 1131932438288, 2);
    FromBelow(23, 23, 1131932438288, 64, 1, 104695750847, 3); FromBelow(23, 47, 104695750847, 176, 1, 58698376092266, 2);
    FromBelow(23, 95, 58698376092266, 384, 1, 4295960569, 4); Beyond(23, 191, 4295960569, 832, 2, 0, 864);
  }

  lemma Low29()
    ensures Pow(29, 169) < Pow(2, 821)
  {
    hide Pow, AtLeast;
    First(29);
    FromAbove(29, 1, 29, 0, 0, 841, 0); FromAbove(29, 2, 841, 0, 1, 20511149, 0);
    FromAbove(29, 5, 20511149, 0, 0, 6419482930, 1); FromAbove(29, 10, 6419482930, 16, 1, 278251960774, 2);
    FromAbove(29, 21, 278251960774, 64, 0, 18026715534408, 2);
    FromAbove(29, 42, 18026715534408, 160, 0, 1154498622777, 3);
    FromAbove(29, 84, 1154498622777, 368, 1, 137323557077, 3); Within(29, 169, 137323557077, 784, 2, 5, 821);
  }

  lemma High29()
    ensures Pow(2, 1676) < Pow(29, 345)
  {
    hide Pow, AtMost;
    First(29);
    FromBelow(29, 1, 29, 0, 0, 841, 0); FromBelow(29, 2, 841, 0, 1, 20511149, 0);
    FromBelow(29, 5, 20511149, 0, 0, 6419482929, 1); FromBelow(29, 10, 6419482929, 16, 1, 278251960686, 2);
    FromBelow(29, 21, 278251960686, 64, 1, 7976909640, 3); FromBelow(29, 43, 7976909640, 176, 0, 14815267036, 2);
    FromBelow(29, 86, 14815267036, 384, 0, 51104495615, 2); FromBelow(29, 172, 51104495615, 800, 1, 17634223841559, 2);
    Beyond(29, 345, 17634223841559, 1632, 2, 12, 1676);
  }

  lemma Low31()
    ensures Pow(31, 131) < Pow(2, 649)
  {
    hide Pow, AtLeast;
    First(31);
    FromAbove(31, 1, 31, 0, 0, 961, 0); FromAbove(31, 2, 961, 0, 0, 923521, 0);
    FromAbove(31, 4, 923521, 0, 0, 852891037441, 0); FromAbove(31, 8, 852891037441, 0, 0, 2584326075, 3);
    FromAbove(31, 16, 2584326075, 48, 0, 101909504118728, 1); FromAbove(31, 32, 101909504118728, 112, 1, 17453050611, 4);
    FromAbove(31, 65, 17453050611, 288, 1, 2198591419620, 2); Within(31, 131, 2198591419620, 608, 2, 9, 649);
  }

  lemma High31()
    ensures Pow(2, 1838) < Pow(31, 371)
  {
    hide Pow, AtMost;
    First(31);
    FromBelow(31, 1, 31, 0, 0, 961, 0); FromBelow(31, 2, 961, 0, 1, 28629151, 0);
    FromBelow(31, 5, 28629151, 0, 1, 387702589361, 1); FromBelow(31, 11, 387702589361, 16, 1, 16554623384, 3);
    FromBelow(31, 23, 16554623384, 80, 0, 63808531357, 2); FromBelow(31, 46, 63808531357, 192, 0, 947976641807, 2);
    FromBelow(31, 92, 947976641807, 416, 1, 98973100349, 3); FromBelow(31, 185, 98973100349, 880, 1, 70702729833659, 2);
    Beyond(31, 371, 70702729833659, 1792, 2, 14, 1838);
  }

  lemma Low33()
    ensures Pow(33, 45) < Pow(2, 227)
  {
    hide Pow, AtLeast;
    First(33);
    FromAbove(33, 1, 33, 0, 0, 1089, 0); FromAbove(33, 2, 1089, 0, 1, 39135393, 0);
    FromAbove(33, 5, 39135393, 0, 1, 771211342068, 1); FromAbove(33, 11, 771211342068, 16, 0, 138479968098534, 2);
    FromAbove(33, 22, 138479968098534, 64, 1, 34305845471, 4); Within(33, 45, 34305845471, 192, 2, 3, 227);
  }

  lemma High33()
    ensures Pow(2, 1932) < Pow(33, 383)
  {
    hide Pow, AtMost;
    First(33);
    FromBelow(33, 1, 33, 0, 0, 1089, 0); FromBelow(33, 2, 1089, 0, 1, 39135393, 0);
    FromBelow(33, 5, 39135393, 0, 1, 771211342067, 1); FromBelow(33, 11, 771211342067, 16, 1, 69730208545, 3);
    FromBelow(33, 23, 69730208545, 80, 1, 37359065716868, 2); FromBelow(33, 47, 37359065716868, 192, 1, 2496814230, 4);
    FromBelow(33, 95, 2496814230, 448, 1, 47899010328, 2); FromBelow(33, 191, 47899010328, 928, 1, 17628167123361, 2);
    Beyond(33, 383, 17628167123361, 1888, 2, 12, 1932);
  }

  lemma Low35()
    ensures Pow(35, 379) < Pow(2, 1944)
  {
    hide Pow, AtLeast;
    First(35);
    FromAbove(35, 1, 35, 0, 0, 1225, 0); FromAbove(35, 2, 1225, 0, 1, 52521875, 0);
    FromAbove(35, 5, 52521875, 0, 1, 1473223226518, 1); FromAbove(35, 11, 1473223226518, 16, 1, 269876685019, 3);
    FromAbove(35, 23, 269876685019, 80, 1, 9056470700, 3); FromAbove(35, 47, 9056470700, 208, 0, 19096690589, 2);
    FromAbove(35, 94, 19096690589, 448, 1, 2971833036473, 2); FromAbove(35, 189, 2971833036473, 928, 1, 1098188938484, 3);
    Within(35, 379, 1098188938484, 1904, 2, 8, 1944);
  }

  lemma High35()
    ensures Pow(2, 1349) < Pow(35, 263)
  {
    hide Pow, AtMost;
    First(35);
    FromBelow(35, 1, 35, 0, 0, 1225, 0); FromBelow(35, 2, 1225, 0, 0, 1500625, 0);
    FromBelow(35, 4, 1500625, 0, 0, 2251875390625, 0); FromBelow(35, 8, 2251875390625, 0, 0, 18015607760, 3);
    FromBelow(35, 16, 18015607760, 48, 0, 75568007994, 2); FromBelow(35, 32, 75568007994, 128, 1, 46535472880663, 2);
    FromBelow(35, 65, 46535472880663, 288, 1, 4108814973, 4); FromBelow(35, 131, 4108814973, 640, 1, 137575580012, 2);
    Beyond(35, 263, 137575580012, 1312, 2, 5, 1349);
  }

  // ---------- from the bounds for an odd radix to the others ----------

  lemma {:induction false} RootLess(x: nat, y: nat, k: nat)
    requires Pow(x, k) < Pow(y, k)
    ensures x < y
  {
    if y <= x {
      PowBaseMonotone(y, x, k);
    }
  }

  lemma {:induction false} PowBaseStrict(x: nat, y: nat, k: nat)
    requires x < y && k > 0
    ensures Pow(x, k) < Pow(y, k)
  {
    PowBaseMonotone(x, y, k - 1);
    PowPositive(y, k - 1);
    MulMono(Pow(x, k - 1), Pow(y, k - 1), x);
    MulLess(Pow(y, k - 1), x, y);
  }

  /** A product that is not to be multiplied out. */
  function Product(x: nat, y: nat): nat { x * y }

  lemma ProductFacts(x: nat, y: nat)
    ensures Product(x, y) == Product(y, x) == x * y
  {
  }

  lemma PowPow(b: nat, m: nat, n: nat)
    ensures Pow(Pow(b, m), n) == Pow(b, Product(m, n)) && Product(m, n) == Product(n, m)
  {
    PowMul(b, m, n);
  }

  /** Raising a power comparison to other exponents. */
  lemma LessPower(b: nat, p: nat, c: nat, q: nat, n: nat, a: nat)
    requires b > 0 && Pow(b, p) < Pow(c, q) && Product(n, q) <= Product(p, a) && a > 0
    ensures Pow(b, n) < Pow(c, a)
  {
    hide Pow, Product;
    PowPow(b, n, q);
    PowMonotone(b, Product(n, q), Product(p, a));
    PowPow(b, p, a);
    PowBaseStrict(Pow(b, p), Pow(c, q), a);
    PowPow(c, q, a);
    PowPow(c, a, q);
    RootLess(Pow(b, n), Pow(c, a), q);
  }

  lemma MorePower(b: nat, p: nat, c: nat, q: nat, n: nat, a: nat)
    requires c > 0 && Pow(c, q) < Pow(b, p) && Product(n, q) >= Product(p, a) && n > 0
    ensures Pow(c, a) < Pow(b, n)
  {
    hide Pow, Product;
    PowPow(c, a, p);
    PowPow(c, q, n);
    PowMonotone(c, Product(p, a), Product(n, q));
    PowBaseStrict(Pow(c, q), Pow(b, p), n);
    PowPow(b, p, n);
    PowPow(b, n, p);
    RootLess(Pow(c, a), Pow(b, n), p);
  }

  /** What the bounds claim, strictly. */
  predicate Brackets(radix: nat, r: Bounds)
  {
    Pow(radix, r.p1) < Pow(2, r.q1) && Pow(2, r.q2) < Pow(radix, r.p2)
  }

  /** The radix 2^k * o^j, from the bounds for `o`. */
  lemma Composite(radix: nat, o: nat, j: nat, k: nat, r: Bounds, s: Bounds)
    requires Brackets(o, s) && o > 0 && radix == Product(Pow(2, k), Pow(o, j))
    requires Product(j, r.p2) > 0 && r.q1 > Product(k, r.p1) && r.q2 >= Product(k, r.p2)
    requires Product(Product(j, r.p1), s.q1) <= Product(s.p1, r.q1 - Product(k, r.p1))
    requires Product(Product(j, r.p2), s.q2) >= Product(s.p2, r.q2 - Product(k, r.p2))
    ensures Brackets(radix, r)
  {
    hide Pow, Product;
    LessPower(o, s.p1, 2, s.q1, Product(j, r.p1), r.q1 - Product(k, r.p1));
    MorePower(o, s.p2, 2, s.q2, Product(j, r.p2), r.q2 - Product(k, r.p2));
    CompositePower(radix, o, j, k, r.p1, r.q1);
    CompositePower(radix, o, j, k, r.p2, r.q2);
  }

  lemma PowOfProduct(x: nat, y: nat, n: nat)
    ensures Pow(Product(x, y), n) == Product(Pow(x, n), Pow(y, n))
  {
    PowProduct(x, y, n);
  }

  lemma CompositePower(radix: nat, o: nat, j: nat, k: nat, p: nat, q: nat)
    requires radix == Product(Pow(2, k), Pow(o, j)) && q >= Product(k, p)
    ensures var n := Product(j, p); var a := q - Product(k, p);
            (Pow(o, n) < Pow(2, a) ==> Pow(radix, p) < Pow(2, q)) && (Pow(2, a) < Pow(o, n) ==> Pow(2, q) < Pow(radix, p))
  {
    hide Pow, Product;
    var kp := Product(k, p);
    PowPow(2, k, p);
    PowPow(o, j, p);
    PowOfProduct(Pow(2, k), Pow(o, j), p);
    PowSum(2, kp, q - kp);
    PowPositive(2, kp);
    ProductLess(Pow(2, kp), Pow(o, Product(j, p)), Pow(2, q - kp));
  }

  lemma PowSum(b: nat, m: nat, n: nat)
    ensures Pow(b, m + n) == Product(Pow(b, m), Pow(b, n))
  {
    PowAdd(b, m, n);
  }

  lemma ProductLess(z: nat, x: nat, y: nat)
    requires z > 0
    ensures x < y ==> Product(z, x) < Product(z, y)
    ensures y < x ==> Product(z, y) < Product(z, x)
  {
    if x < y {
      MulLess(z, x, y);
    } else if y < x {
      MulLess(z, y, x);
    }
  }

  lemma SmallPowers()
    ensures Pow(2, 0) == 1 && Pow(2, 1) == 2 && Pow(2, 2) == 4 && Pow(2, 3) == 8
    ensures Pow(3, 1) == 3 && Pow(3, 2) == 9 && Pow(3, 3) == 27 && Pow(5, 1) == 5 && Pow(5, 2) == 25
    ensures forall o :: Pow(o, 1) == o
  {
    forall o: nat ensures Pow(o, 1) == o {
      assert Pow(o, 1) == o * Pow(o, 0);
    }
  }

  lemma Close6()
    ensures Brackets(6, Bounds(306, 791, 665, 1719))
  {
    hide Pow;
    SmallPowers();
    Low3();
    High3();
    Composite(6, 3, 1, 1, Bounds(306, 791, 665, 1719), Bounds(971, 1539, 665, 1054));
  }

  lemma Close9()
    ensures Brackets(9, Bounds(153, 485, 512, 1623))
  {
    hide Pow;
    SmallPowers();
    Low3();
    High3();
    Composite(9, 3, 2, 0, Bounds(153, 485, 512, 1623), Bounds(971, 1539, 665, 1054));
  }

  lemma Close10()
    ensures Brackets(10, Bounds(497, 1651, 146, 485))
  {
    hide Pow;
    SmallPowers();
    Low5();
    High5();
    Composite(10, 5, 1, 1, Bounds(497, 1651, 146, 485), Bounds(643, 1493, 789, 1832));
  }

  lemma Close12()
    ensures Brackets(12, Bounds(306, 1097, 359, 1287))
  {
    hide Pow;
    SmallPowers();
    Low3();
    High3();
    Composite(12, 3, 1, 2, Bounds(306, 1097, 359, 1287), Bounds(971, 1539, 665, 1054));
  }

  lemma Close14()
    ensures Brackets(14, Bounds(462, 1759, 109, 415))
  {
    hide Pow;
    SmallPowers();
    Low7();
    High7();
    Composite(14, 7, 1, 1, Bounds(462, 1759, 109, 415), Bounds(571, 1603, 680, 1909));
  }

  lemma Close18()
    ensures Brackets(18, Bounds(153, 638, 359, 1497))
  {
    hide Pow;
    SmallPowers();
    Low3();
    High3();
    Composite(18, 3, 2, 1, Bounds(153, 638, 359, 1497), Bounds(971, 1539, 665, 1054));
  }

  lemma Close20()
    ensures Brackets(20, Bounds(351, 1517, 146, 631))
  {
    hide Pow;
    SmallPowers();
    Low5();
    High5();
    Composite(20, 5, 1, 2, Bounds(351, 1517, 146, 631), Bounds(643, 1493, 789, 1832));
  }

  lemma Close22()
    ensures Brackets(22, Bounds(37, 165, 431, 1922))
  {
    hide Pow;
    SmallPowers();
    Low11();
    High11();
    Composite(22, 11, 1, 1, Bounds(37, 165, 431, 1922), Bounds(37, 128, 579, 2003));
  }

  lemma Close24()
    ensures Brackets(24, Bounds(306, 1403, 359, 1646))
  {
    hide Pow;
    SmallPowers();
    Low3();
    High3();
    Composite(24, 3, 1, 3, Bounds(306, 1403, 359, 1646), Bounds(971, 1539, 665, 1054));
  }

  lemma Close25()
    ensures Brackets(25, Bounds(424, 1969, 73, 339))
  {
    hide Pow;
    SmallPowers();
    Low5();
    High5();
    Composite(25, 5, 2, 0, Bounds(424, 1969, 73, 339), Bounds(643, 1493, 789, 1832));
  }

  lemma Close26()
    ensures Brackets(26, Bounds(227, 1067, 237, 1114))
  {
    hide Pow;
    SmallPowers();
    Low13();
    High13();
    Composite(26, 13, 1, 1, Bounds(227, 1067, 237, 1114), Bounds(227, 840, 464, 1717));
  }

  lemma Close27()
    ensures Brackets(27, Bounds(102, 485, 359, 1707))
  {
    hide Pow;
    SmallPowers();
    Low3();
    High3();
    Composite(27, 3, 3, 0, Bounds(102, 485, 359, 1707), Bounds(971, 1539, 665, 1054));
  }

  lemma Close28()
    ensures Brackets(28, Bounds(353, 1697, 109, 524))
  {
    hide Pow;
    SmallPowers();
    Low7();
    High7();
    Composite(28, 7, 1, 2, Bounds(353, 1697, 109, 524), Bounds(571, 1603, 680, 1909));
  }

  lemma Close30()
    ensures Brackets(30, Bounds(290, 1423, 247, 1212))
  {
    hide Pow;
    SmallPowers();
    Low15();
    High15();
    Composite(30, 15, 1, 1, Bounds(290, 1423, 247, 1212), Bounds(290, 1133, 247, 965));
  }

  lemma Close34()
    ensures Brackets(34, Bounds(343, 1745, 263, 1338))
  {
    hide Pow;
    SmallPowers();
    Low17();
    High17();
    Composite(34, 17, 1, 1, Bounds(343, 1745, 263, 1338), Bounds(343, 1402, 263, 1075));
  }

  lemma Close36()
    ensures Brackets(36, Bounds(153, 791, 359, 1856))
  {
    hide Pow;
    SmallPowers();
    Low3();
    High3();
    Composite(36, 3, 2, 2, Bounds(153, 791, 359, 1856), Bounds(971, 1539, 665, 1054));
  }

  /** The bounds hold for every radix that is not a power of two. */
  lemma CloseBounds(radix: nat)
    requires 2 <= radix <= 36 && !PowerOfTwo(radix)
    ensures Brackets(radix, BoundsOf(radix))
  {
    hide Pow;
    match radix
    case 3 => Low3(); High3();
    case 5 => Low5(); High5();
    case 6 => Close6();
    case 7 => Low7(); High7();
    case 9 => Close9();
    case 10 => Close10();
    case 11 => Low11(); High11();
    case 12 => Close12();
    case 13 => Low13(); High13();
    case 14 => Close14();
    case 15 => Low15(); High15();
    case 17 => Low17(); High17();
    case 18 => Close18();
    case 19 => Low19(); High19();
    case 20 => Close20();
    case 21 => Low21(); High21();
    case 22 => Close22();
    case 23 => Low23(); High23();
    case 24 => Close24();
    case 25 => Close25();
    case 26 => Close26();
    case 27 => Close27();
    case 28 => Close28();
    case 29 => Low29(); High29();
    case 30 => Close30();
    case 31 => Low31(); High31();
    case 33 => Low33(); High33();
    case 34 => Close34();
    case 35 => Low35(); High35();
    case 36 => Close36();
    case _ =>
  }

  predicate PowerOfTwo(radix: nat) { radix == 2 || radix == 4 || radix == 8 || radix == 16 || radix == 32 }

  lemma BinaryRadix(radix: nat)
    requires 2 <= radix <= 36 && PowerOfTwo(radix)
    ensures var r := BoundsOf(radix); r.p1 == 1 && r.p2 == 1 && r.q1 == r.q2 > 0 && radix == Pow(2, r.q1)
  {
    SmallPowers();
    assert Pow(2, 4) == 16 && Pow(2, 5) == 32;
  }

  /** What a table entry bounds, by the bounds on the logarithm. */
  lemma TableBelow(radix: nat, n: nat, a: nat)
    requires 2 <= radix <= 36 && n * BoundsOf(radix).q1 <= BoundsOf(radix).p1 * a && a > 0
    ensures Pow(radix, n) <= Pow(2, a) && (!PowerOfTwo(radix) ==> Pow(radix, n) < Pow(2, a))
  {
    hide Pow, BoundsOf;
    var r := BoundsOf(radix);
    if PowerOfTwo(radix) {
      BinaryRadix(radix);
      PowMul(2, r.q1, n);
      Assoc(n, r.q1, 1);
      PowMonotone(2, r.q1 * n, a);
    } else {
      CloseBounds(radix);
      ProductFacts(n, r.q1);
      ProductFacts(r.p1, a);
      LessPower(radix, r.p1, 2, r.q1, n, a);
    }
  }

  lemma TableAbove(radix: nat, n: nat, a: nat)
    requires 2 <= radix <= 36 && n * BoundsOf(radix).q2 >= BoundsOf(radix).p2 * a && n > 0
    ensures Pow(2, a) <= Pow(radix, n)
  {
    hide Pow, BoundsOf;
    var r := BoundsOf(radix);
    if PowerOfTwo(radix) {
      BinaryRadix(radix);
      PowMul(2, r.q1, n);
      Assoc(n, r.q1, 1);
      PowMonotone(2, a, r.q1 * n);
    } else {
      CloseBounds(radix);
      ProductFacts(n, r.q2);
      ProductFacts(r.p2, a);
      MorePower(radix, r.p2, 2, r.q2, n, a);
    }
  }
}
