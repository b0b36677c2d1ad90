/**
 * The 256-bit helper integer of the decimal core (src/u256.rs), modelled as
 * a natural number below 2^256: the two constant tables of powers of ten and
 * of half-units, digit counting, the "at least 10^38" overflow test, and the
 * word-level primitives (widening add and multiply, half-up division).
 */
module Wide {
  import opened Std

  const TWO_256: int := TWO_128 * TWO_128

  type U256 = x: int | 0 <= x < TWO_256

  /** Maximum number of significant decimal digits of a decimal (MAX_PRECISION). */
  const MAX_PRECISION: nat := 38

  // ---------------------------------------------------------------------
  // Powers of ten and decimal digit counts (reference definitions)
  // ---------------------------------------------------------------------

  /** 10^k. */
  function Pow10(k: nat): (r: nat)
    ensures r >= 1
  {
    if k == 0 then 1 else 10 * Pow10(k - 1)
  }

  lemma {:induction false} Pow10Add(a: nat, b: nat)
    ensures Pow10(a + b) == Pow10(a) * Pow10(b)
    decreases b
  {
    if b > 0 {
      Pow10Add(a, b - 1);
      assert Pow10(a + b) == 10 * Pow10(a + b - 1);
    }
  }

  lemma {:induction false} Pow10StrictlyIncreasing(a: nat, b: nat)
    requires a < b
    ensures Pow10(a) < Pow10(b)
    decreases b
  {
    if a + 1 < b {
      Pow10StrictlyIncreasing(a, b - 1);
    }
  }

  lemma Pow10Monotone(a: nat, b: nat)
    requires a <= b
    ensures Pow10(a) <= Pow10(b)
  {
    if a < b {
      Pow10StrictlyIncreasing(a, b);
    }
  }

  /** The number of decimal digits of `n`; zero is written with one digit. */
  function NumDigits(n: nat): (r: nat)
    ensures r >= 1
  {
    if n < 10 then 1 else 1 + NumDigits(n / 10)
  }

  /** `NumDigits(n)` is the unique `k` with 10^(k-1) <= n < 10^k (for n >= 1). */
  lemma {:induction false} NumDigitsBounds(n: nat)
    ensures n < Pow10(NumDigits(n))
    ensures n >= 1 ==> Pow10(NumDigits(n) - 1) <= n
  {
    if n >= 10 {
      NumDigitsBounds(n / 10);
    }
  }

  lemma NumDigitsUnique(n: nat, k: nat)
    requires k >= 1
    requires Pow10(k - 1) <= n < Pow10(k)
    ensures NumDigits(n) == k
  {
    NumDigitsBounds(n);
    var d := NumDigits(n);
    if d < k {
      Pow10Monotone(d, k - 1);
    } else if d > k {
      Pow10Monotone(k, d - 1);
    }
  }

  /** Digits are monotone in the value. */
  lemma {:induction false} NumDigitsMonotone(m: nat, n: nat)
    requires m <= n
    ensures NumDigits(m) <= NumDigits(n)
  {
    if m >= 10 {
      DivLe(m, n, 10);
      NumDigitsMonotone(m / 10, n / 10);
    }
  }

  /** `n` fits in `k` digits exactly when it is below 10^k. */
  lemma NumDigitsBelow(n: nat, k: nat)
    requires k >= 1
    ensures NumDigits(n) <= k <==> n < Pow10(k)
  {
    NumDigitsBounds(n);
    if NumDigits(n) <= k {
      Pow10Monotone(NumDigits(n), k);
    } else {
      Pow10Monotone(k, NumDigits(n) - 1);
    }
  }

  /** Half-up integer division: the quotient, plus one when the remainder is at least half the divisor. */
  function DivRoundHalfUp(n: nat, d: nat): (q: nat)
    requires d > 0
  {
    n / d + (if 2 * (n % d) >= d then 1 else 0)
  }

  /** The half-up quotient is the integer nearest to n / d, ties going up. */
  lemma DivRoundHalfUpNearest(n: nat, d: nat)
    requires d > 0
    ensures var q := DivRoundHalfUp(n, d); d * (2 * q - 1) <= 2 * n < d * (2 * q + 1)
  {
    var a, r := n / d, n % d;
    var q := DivRoundHalfUp(n, d);
    assert n == a * d + r;
    assert d * (2 * q - 1) == 2 * q * d - d;
    assert d * (2 * q + 1) == 2 * q * d + d;
    if 2 * r >= d {
      assert q == a + 1;
      assert 2 * q * d == 2 * a * d + 2 * d;
    } else {
      assert q == a;
    }
  }

  /** Adding half the divisor before truncating is half-up division. */
  lemma AddHalfThenDivide(n: nat, k: nat)
    requires k >= 1
    ensures (n + 5 * Pow10(k - 1)) / Pow10(k) == DivRoundHalfUp(n, Pow10(k))
  {
    var p := Pow10(k);
    var h := 5 * Pow10(k - 1);
    assert p == 2 * h;
    var q, r := n / p, n % p;
    assert n == q * p + r;
    if 2 * r >= p {
      assert (q + 1) * p == q * p + p;
      DivModUnique(n + h, p, q + 1, r + h - p);
    } else {
      DivModUnique(n + h, p, q, r + h);
    }
  }

  // ---------------------------------------------------------------------
  // Non-linear arithmetic helpers
  // ---------------------------------------------------------------------

  /** Euclidean division is characterised by its quotient and remainder. */
  lemma DivModUnique(x: int, p: int, q: int, r: int)
    requires p > 0 && 0 <= r < p && x == q * p + r
    ensures x / p == q && x % p == r
  {
    var q', r' := x / p, x % p;
    assert q' * p + r' == x;
    if q' > q {
      assert (q' - q) * p == q' * p - q * p;
      MulLe(1, q' - q, p);
      assert false;
    } else if q' < q {
      assert (q - q') * p == q * p - q' * p;
      MulLe(1, q - q', p);
      assert false;
    }
  }

  lemma MulLe(a: nat, b: nat, c: nat)
    requires a <= b
    ensures a * c <= b * c
  {
    assert b * c - a * c == (b - a) * c;
  }

  lemma DivLe(x: nat, y: nat, p: nat)
    requires x <= y && p > 0
    ensures x / p <= y / p
  {
    var qx, qy := x / p, y / p;
    assert qx * p + x % p == x;
    assert qy * p + y % p == y;
    if qx > qy {
      MulLe(qy + 1, qx, p);
      assert false;
    }
  }


  // ---------------------------------------------------------------------
  // Words and the constant tables
  // ---------------------------------------------------------------------

  /** The 256-bit value with the given low and high 128-bit words (from_u128). */
  function FromWords(low: u128, high: u128): U256
  {
    high * TWO_128 + low
  }

  /** The low 128-bit word. */
  function Low(n: U256): u128
  {
    n % TWO_128
  }

  /** The high 128-bit word. */
  function High(n: U256): u128
  {
    n / TWO_128
  }

  lemma Words(x: U256)
    ensures FromWords(Low(x), High(x)) == x
    ensures x < TWO_128 ==> Low(x) == x && High(x) == 0
    ensures x >= TWO_128 ==> High(x) >= 1 && Low(x) != x
  {
    if x < TWO_128 {
      DivModUnique(x, TWO_128, 0, x);
    }
  }

  /** The `POWERS_10` table, entry by entry as the source writes its two words. */
  function Powers10(i: nat): U256
    requires i <= 76
  {
    match i
    case 0 => FromWords(1, 0)
    case 1 => FromWords(10, 0)
    case 2 => FromWords(100, 0)
    case 3 => FromWords(1000, 0)
    case 4 => FromWords(10000, 0)
    case 5 => FromWords(100000, 0)
    case 6 => FromWords(1000000, 0)
    case 7 => FromWords(10000000, 0)
    case 8 => FromWords(100000000, 0)
    case 9 => FromWords(1000000000, 0)
    case 10 => FromWords(10000000000, 0)
    case 11 => FromWords(100000000000, 0)
    case 12 => FromWords(1000000000000, 0)
    case 13 => FromWords(10000000000000, 0)
    case 14 => FromWords(100000000000000, 0)
    case 15 => FromWords(1000000000000000, 0)
    case 16 => FromWords(10000000000000000, 0)
    case 17 => FromWords(100000000000000000, 0)
    case 18 => FromWords(1000000000000000000, 0)
    case 19 => FromWords(10000000000000000000, 0)
    case 20 => FromWords(100000000000000000000, 0)
    case 21 => FromWords(1000000000000000000000, 0)
    case 22 => FromWords(10000000000000000000000, 0)
    case 23 => FromWords(100000000000000000000000, 0)
    case 24 => FromWords(1000000000000000000000000, 0)
    case 25 => FromWords(10000000000000000000000000, 0)
    case 26 => FromWords(100000000000000000000000000, 0)
    case 27 => FromWords(1000000000000000000000000000, 0)
    case 28 => FromWords(10000000000000000000000000000, 0)
    case 29 => FromWords(100000000000000000000000000000, 0)
    case 30 => FromWords(1000000000000000000000000000000, 0)
    case 31 => FromWords(10000000000000000000000000000000, 0)
    case 32 => FromWords(100000000000000000000000000000000, 0)
    case 33 => FromWords(1000000000000000000000000000000000, 0)
    case 34 => FromWords(10000000000000000000000000000000000, 0)
    case 35 => FromWords(100000000000000000000000000000000000, 0)
    case 36 => FromWords(1000000000000000000000000000000000000, 0)
    case 37 => FromWords(10000000000000000000000000000000000000, 0)
    case 38 => FromWords(100000000000000000000000000000000000000, 0)
    case 39 => FromWords(319435266158123073073250785136463577088, 2)
    case 40 => FromWords(131811359292784559562136384478721867776, 29)
    case 41 => FromWords(297266492165030205231240022491914043392, 293)
    case 42 => FromWords(250405986282794344605403365464994742272, 2938)
    case 43 => FromWords(122083294381374201810411402627569942528, 29387)
    case 44 => FromWords(199985843050926627713990203980394790912, 293873)
    case 45 => FromWords(298446595904573959823029002645106851840, 2938735)
    case 46 => FromWords(262207023678231890523293166996922826752, 29387358)
    case 47 => FromWords(240093668335749660989309417946850787328, 293873587)
    case 48 => FromWords(18960114910927365649471927446130393088, 2938735877)
    case 49 => FromWords(189601149109273656494719274461303930880, 29387358770)
    case 50 => FromWords(194599656488044247630319707454198251520, 293873587705)
    case 51 => FromWords(244584730275750158986324037383141457920, 2938735877055)
    case 52 => FromWords(63870734310932345619618121809037099008, 29387358770557)
    case 53 => FromWords(298424976188384992732806610658602778624, 293873587705571)
    case 54 => FromWords(261990826516342219621069247131882094592, 2938735877055718)
    case 55 => FromWords(237931696716852951967070219296443465728, 29387358770557187)
    case 56 => FromWords(337622765642898738890454548373825388544, 293873587705571876)
    case 57 => FromWords(313686354140541217734174016852339982336, 2938735877055718769)
    case 58 => FromWords(74322239116966006171368701637485920256, 29387358770557187699)
    case 59 => FromWords(62657657327783134786937801511322779648, 293873587705571876992)
    case 60 => FromWords(286294206356892884406003407681459585024, 2938735877055718769921)
    case 61 => FromWords(140683128201421136353037217360450158592, 29387358770557187699218)
    case 62 => FromWords(45701814330457509676873743877428740096, 293873587705571876992184)
    case 63 => FromWords(116735776383636633305362831342519189504, 2938735877055718769921841)
    case 64 => FromWords(146510663073550942663504491129887260672, 29387358770557187699218413)
    case 65 => FromWords(103977163051755572781546481571799760896, 293873587705571876992184134)
    case 66 => FromWords(18924529754740337425340993422692974592, 2938735877055718769921841343)
    case 67 => FromWords(189245297547403374253409934226929745920, 29387358770557187699218413430)
    case 68 => FromWords(191041140869341425217226305110456401920, 293873587705571876992184134305)
    case 69 => FromWords(208999574088721934855390013945722961920, 2938735877055718769921841343055)
    case 70 => FromWords(48301539361588567773652494866620350464, 29387358770557187699218413430556)
    case 71 => FromWords(142733026694947214273150341234435293184, 293873587705571876992184134305561)
    case 72 => FromWords(66200799265718288878004982617280086016, 2938735877055718769921841343055614)
    case 73 => FromWords(321725625736244425316675218741032648704, 29387358770557187699218413430556141)
    case 74 => FromWords(154714955073998081996380720524412583936, 293873587705571876992184134305561419)
    case 75 => FromWords(186020083056226966110308775517052993536, 2938735877055718769921841343055614194)
    case 76 => FromWords(158788995957577343786214718011688878080, 29387358770557187699218413430556141945)
  }

  /** The `ROUNDINGS` table of half-units, entry by entry as the source writes its two words. */
  function Roundings(i: nat): U256
    requires i <= 76
  {
    match i
    case 0 => FromWords(0, 0)
    case 1 => FromWords(5, 0)
    case 2 => FromWords(50, 0)
    case 3 => FromWords(500, 0)
    case 4 => FromWords(5000, 0)
    case 5 => FromWords(50000, 0)
    case 6 => FromWords(500000, 0)
    case 7 => FromWords(5000000, 0)
    case 8 => FromWords(50000000, 0)
    case 9 => FromWords(500000000, 0)
    case 10 => FromWords(5000000000, 0)
    case 11 => FromWords(50000000000, 0)
    case 12 => FromWords(500000000000, 0)
    case 13 => FromWords(5000000000000, 0)
    case 14 => FromWords(50000000000000, 0)
    case 15 => FromWords(500000000000000, 0)
    case 16 => FromWords(5000000000000000, 0)
    case 17 => FromWords(50000000000000000, 0)
    case 18 => FromWords(500000000000000000, 0)
    case 19 => FromWords(5000000000000000000, 0)
    case 20 => FromWords(50000000000000000000, 0)
    case 21 => FromWords(500000000000000000000, 0)
    case 22 => FromWords(5000000000000000000000, 0)
    case 23 => FromWords(50000000000000000000000, 0)
    case 24 => FromWords(500000000000000000000000, 0)
    case 25 => FromWords(5000000000000000000000000, 0)
    case 26 => FromWords(50000000000000000000000000, 0)
    case 27 => FromWords(500000000000000000000000000, 0)
    case 28 => FromWords(5000000000000000000000000000, 0)
    case 29 => FromWords(50000000000000000000000000000, 0)
    case 30 => FromWords(500000000000000000000000000000, 0)
    case 31 => FromWords(5000000000000000000000000000000, 0)
    case 32 => FromWords(50000000000000000000000000000000, 0)
    case 33 => FromWords(500000000000000000000000000000000, 0)
    case 34 => FromWords(5000000000000000000000000000000000, 0)
    case 35 => FromWords(50000000000000000000000000000000000, 0)
    case 36 => FromWords(500000000000000000000000000000000000, 0)
    case 37 => FromWords(5000000000000000000000000000000000000, 0)
    case 38 => FromWords(50000000000000000000000000000000000000, 0)
    case 39 => FromWords(159717633079061536536625392568231788544, 1)
    case 40 => FromWords(236046863106861511512755495955245039616, 14)
    case 41 => FromWords(318774429542984334347307314961841127424, 146)
    case 42 => FromWords(125202993141397172302701682732497371136, 1469)
    case 43 => FromWords(231182830651156332636893005029669076992, 14693)
    case 44 => FromWords(270134104985932545588682405706081501184, 146936)
    case 45 => FromWords(319364481412756211643201805038437531648, 1469367)
    case 46 => FromWords(131103511839115945261646583498461413376, 14693679)
    case 47 => FromWords(290188017628344062226342012689309499392, 146936793)
    case 48 => FromWords(179621240915932914556423267438949302272, 1469367938)
    case 49 => FromWords(94800574554636828247359637230651965440, 14693679385)
    case 50 => FromWords(267441011704491355546847157442983231488, 146936793852)
    case 51 => FromWords(292433548598344311224849322407454834688, 1469367938527)
    case 52 => FromWords(202076550615935404541496364620402655232, 14693679385278)
    case 53 => FromWords(319353671554661728098090609045185495040, 146936793852785)
    case 54 => FromWords(130995413258171109810534623565941047296, 1469367938527859)
    case 55 => FromWords(289107031818895707715222413364105838592, 14693679385278593)
    case 56 => FromWords(168811382821449369445227274186912694272, 146936793852785938)
    case 57 => FromWords(326984360530739840598774312142054096896, 1469367938527859384)
    case 58 => FromWords(207302303018952234817371654534627065856, 14693679385278593849)
    case 59 => FromWords(31328828663891567393468900755661389824, 146936793852785938496)
    case 60 => FromWords(313288286638915673934689007556613898240, 1469367938527859384960)
    case 61 => FromWords(70341564100710568176518608680225079296, 14693679385278593849609)
    case 62 => FromWords(22850907165228754838436871938714370048, 146936793852785938496092)
    case 63 => FromWords(228509071652287548384368719387143700480, 1469367938527859384960920)
    case 64 => FromWords(243396514997244703063439549280827736064, 14693679385278593849609206)
    case 65 => FromWords(51988581525877786390773240785899880448, 146936793852785938496092067)
    case 66 => FromWords(179603448337839400444357800427230593024, 1469367938527859384960920671)
    case 67 => FromWords(94622648773701687126704967113464872960, 14693679385278593849609206715)
    case 68 => FromWords(265661753895139944340300456271112306688, 146936793852785938496092067152)
    case 69 => FromWords(274640970504830199159382310688745586688, 1469367938527859384960920671527)
    case 70 => FromWords(24150769680794283886826247433310175232, 14693679385278593849609206715278)
    case 71 => FromWords(241507696807942838868262474333101752320, 146936793852785938496092067152780)
    case 72 => FromWords(33100399632859144439002491308640043008, 1469367938527859384960920671527807)
    case 73 => FromWords(331003996328591444390024913086400430080, 14693679385278593849609206715278070)
    case 74 => FromWords(247498660997468272729877663978090397696, 146936793852785938496092067152780709)
    case 75 => FromWords(93010041528113483055154387758526496768, 1469367938527859384960920671527807097)
    case 76 => FromWords(249535681439257903624794662721728544768, 14693679385278593849609206715278070972)
  }

  lemma Pow10Literals0()
    ensures Pow10(0) == 1
    ensures Pow10(1) == 10
    ensures Pow10(2) == 100
    ensures Pow10(3) == 1000
    ensures Pow10(4) == 10000
    ensures Pow10(5) == 100000
    ensures Pow10(6) == 1000000
    ensures Pow10(7) == 10000000
    ensures Pow10(8) == 100000000
    ensures Pow10(9) == 1000000000
  {
    assert Pow10(1) == 10 * Pow10(0);
    assert Pow10(2) == 10 * Pow10(1);
    assert Pow10(3) == 10 * Pow10(2);
    assert Pow10(4) == 10 * Pow10(3);
    assert Pow10(5) == 10 * Pow10(4);
    assert Pow10(6) == 10 * Pow10(5);
    assert Pow10(7) == 10 * Pow10(6);
    assert Pow10(8) == 10 * Pow10(7);
    assert Pow10(9) == 10 * Pow10(8);
  }

  lemma Pow10Literals10()
    ensures Pow10(10) == 10000000000
    ensures Pow10(11) == 100000000000
    ensures Pow10(12) == 1000000000000
    ensures Pow10(13) == 10000000000000
    ensures Pow10(14) == 100000000000000
    ensures Pow10(15) == 1000000000000000
    ensures Pow10(16) == 10000000000000000
    ensures Pow10(17) == 100000000000000000
    ensures Pow10(18) == 1000000000000000000
    ensures Pow10(19) == 10000000000000000000
  {
    Pow10Literals0();
    assert Pow10(10) == 10 * Pow10(9);
    assert Pow10(11) == 10 * Pow10(10);
    assert Pow10(12) == 10 * Pow10(11);
    assert Pow10(13) == 10 * Pow10(12);
    assert Pow10(14) == 10 * Pow10(13);
    assert Pow10(15) == 10 * Pow10(14);
    assert Pow10(16) == 10 * Pow10(15);
    assert Pow10(17) == 10 * Pow10(16);
    assert Pow10(18) == 10 * Pow10(17);
    assert Pow10(19) == 10 * Pow10(18);
  }

  lemma Pow10Literals20()
    ensures Pow10(20) == 100000000000000000000
    ensures Pow10(21) == 1000000000000000000000
    ensures Pow10(22) == 10000000000000000000000
    ensures Pow10(23) == 100000000000000000000000
    ensures Pow10(24) == 1000000000000000000000000
    ensures Pow10(25) == 10000000000000000000000000
    ensures Pow10(26) == 100000000000000000000000000
    ensures Pow10(27) == 1000000000000000000000000000
    ensures Pow10(28) == 10000000000000000000000000000
    ensures Pow10(29) == 100000000000000000000000000000
  {
    Pow10Literals10();
    assert Pow10(20) == 10 * Pow10(19);
    assert Pow10(21) == 10 * Pow10(20);
    assert Pow10(22) == 10 * Pow10(21);
    assert Pow10(23) == 10 * Pow10(22);
    assert Pow10(24) == 10 * Pow10(23);
    assert Pow10(25) == 10 * Pow10(24);
    assert Pow10(26) == 10 * Pow10(25);
    assert Pow10(27) == 10 * Pow10(26);
    assert Pow10(28) == 10 * Pow10(27);
    assert Pow10(29) == 10 * Pow10(28);
  }

  lemma Pow10Literals30()
    ensures Pow10(30) == 1000000000000000000000000000000
    ensures Pow10(31) == 10000000000000000000000000000000
    ensures Pow10(32) == 100000000000000000000000000000000
    ensures Pow10(33) == 1000000000000000000000000000000000
    ensures Pow10(34) == 10000000000000000000000000000000000
    ensures Pow10(35) == 100000000000000000000000000000000000
    ensures Pow10(36) == 1000000000000000000000000000000000000
    ensures Pow10(37) == 10000000000000000000000000000000000000
    ensures Pow10(38) == 100000000000000000000000000000000000000
    ensures Pow10(39) == 1000000000000000000000000000000000000000
  {
    Pow10Literals20();
    assert Pow10(30) == 10 * Pow10(29);
    assert Pow10(31) == 10 * Pow10(30);
    assert Pow10(32) == 10 * Pow10(31);
    assert Pow10(33) == 10 * Pow10(32);
    assert Pow10(34) == 10 * Pow10(33);
    assert Pow10(35) == 10 * Pow10(34);
    assert Pow10(36) == 10 * Pow10(35);
    assert Pow10(37) == 10 * Pow10(36);
    assert Pow10(38) == 10 * Pow10(37);
    assert Pow10(39) == 10 * Pow10(38);
  }

  lemma Pow10Literals40()
    ensures Pow10(40) == 10000000000000000000000000000000000000000
    ensures Pow10(41) == 100000000000000000000000000000000000000000
    ensures Pow10(42) == 1000000000000000000000000000000000000000000
    ensures Pow10(43) == 10000000000000000000000000000000000000000000
    ensures Pow10(44) == 100000000000000000000000000000000000000000000
    ensures Pow10(45) == 1000000000000000000000000000000000000000000000
    ensures Pow10(46) == 10000000000000000000000000000000000000000000000
    ensures Pow10(47) == 100000000000000000000000000000000000000000000000
    ensures Pow10(48) == 1000000000000000000000000000000000000000000000000
    ensures Pow10(49) == 10000000000000000000000000000000000000000000000000
  {
    Pow10Literals30();
    assert Pow10(40) == 10 * Pow10(39);
    assert Pow10(41) == 10 * Pow10(40);
    assert Pow10(42) == 10 * Pow10(41);
    assert Pow10(43) == 10 * Pow10(42);
    assert Pow10(44) == 10 * Pow10(43);
    assert Pow10(45) == 10 * Pow10(44);
    assert Pow10(46) == 10 * Pow10(45);
    assert Pow10(47) == 10 * Pow10(46);
    assert Pow10(48) == 10 * Pow10(47);
    assert Pow10(49) == 10 * Pow10(48);
  }

  lemma Pow10Literals50()
    ensures Pow10(50) == 100000000000000000000000000000000000000000000000000
    ensures Pow10(51) == 1000000000000000000000000000000000000000000000000000
    ensures Pow10(52) == 10000000000000000000000000000000000000000000000000000
    ensures Pow10(53) == 100000000000000000000000000000000000000000000000000000
    ensures Pow10(54) == 1000000000000000000000000000000000000000000000000000000
    ensures Pow10(55) == 10000000000000000000000000000000000000000000000000000000
    ensures Pow10(56) == 100000000000000000000000000000000000000000000000000000000
    ensures Pow10(57) == 1000000000000000000000000000000000000000000000000000000000
    ensures Pow10(58) == 10000000000000000000000000000000000000000000000000000000000
    ensures Pow10(59) == 100000000000000000000000000000000000000000000000000000000000
  {
    Pow10Literals40();
    assert Pow10(50) == 10 * Pow10(49);
    assert Pow10(51) == 10 * Pow10(50);
    assert Pow10(52) == 10 * Pow10(51);
    assert Pow10(53) == 10 * Pow10(52);
    assert Pow10(54) == 10 * Pow10(53);
    assert Pow10(55) == 10 * Pow10(54);
    assert Pow10(56) == 10 * Pow10(55);
    assert Pow10(57) == 10 * Pow10(56);
    assert Pow10(58) == 10 * Pow10(57);
    assert Pow10(59) == 10 * Pow10(58);
  }

  lemma Pow10Literals60()
    ensures Pow10(60) == 1000000000000000000000000000000000000000000000000000000000000
    ensures Pow10(61) == 10000000000000000000000000000000000000000000000000000000000000
    ensures Pow10(62) == 100000000000000000000000000000000000000000000000000000000000000
    ensures Pow10(63) == 1000000000000000000000000000000000000000000000000000000000000000
    ensures Pow10(64) == 10000000000000000000000000000000000000000000000000000000000000000
    ensures Pow10(65) == 100000000000000000000000000000000000000000000000000000000000000000
    ensures Pow10(66) == 1000000000000000000000000000000000000000000000000000000000000000000
    ensures Pow10(67) == 10000000000000000000000000000000000000000000000000000000000000000000
    ensures Pow10(68) == 100000000000000000000000000000000000000000000000000000000000000000000
    ensures Pow10(69) == 1000000000000000000000000000000000000000000000000000000000000000000000
  {
    Pow10Literals50();
    assert Pow10(60) == 10 * Pow10(59);
    assert Pow10(61) == 10 * Pow10(60);
    assert Pow10(62) == 10 * Pow10(61);
    assert Pow10(63) == 10 * Pow10(62);
    assert Pow10(64) == 10 * Pow10(63);
    assert Pow10(65) == 10 * Pow10(64);
    assert Pow10(66) == 10 * Pow10(65);
    assert Pow10(67) == 10 * Pow10(66);
    assert Pow10(68) == 10 * Pow10(67);
    assert Pow10(69) == 10 * Pow10(68);
  }

  lemma Pow10Literals70()
    ensures Pow10(70) == 10000000000000000000000000000000000000000000000000000000000000000000000
    ensures Pow10(71) == 100000000000000000000000000000000000000000000000000000000000000000000000
    ensures Pow10(72) == 1000000000000000000000000000000000000000000000000000000000000000000000000
    ensures Pow10(73) == 10000000000000000000000000000000000000000000000000000000000000000000000000
    ensures Pow10(74) == 100000000000000000000000000000000000000000000000000000000000000000000000000
    ensures Pow10(75) == 1000000000000000000000000000000000000000000000000000000000000000000000000000
    ensures Pow10(76) == 10000000000000000000000000000000000000000000000000000000000000000000000000000
    ensures Pow10(77) == 100000000000000000000000000000000000000000000000000000000000000000000000000000
    ensures Pow10(78) == 1000000000000000000000000000000000000000000000000000000000000000000000000000000
  {
    Pow10Literals60();
    assert Pow10(70) == 10 * Pow10(69);
    assert Pow10(71) == 10 * Pow10(70);
    assert Pow10(72) == 10 * Pow10(71);
    assert Pow10(73) == 10 * Pow10(72);
    assert Pow10(74) == 10 * Pow10(73);
    assert Pow10(75) == 10 * Pow10(74);
    assert Pow10(76) == 10 * Pow10(75);
    assert Pow10(77) == 10 * Pow10(76);
    assert Pow10(78) == 10 * Pow10(77);
  }

  lemma TableStep0(i: nat)
    requires 1 <= i < 10
    ensures Powers10(i) == 10 * Powers10(i - 1)
    ensures Roundings(i) == 5 * Powers10(i - 1)
  {
    if i == 1 { }
    else if i == 2 { }
    else if i == 3 { }
    else if i == 4 { }
    else if i == 5 { }
    else if i == 6 { }
    else if i == 7 { }
    else if i == 8 { }
    else if i == 9 { }
  }

  lemma TableStep10(i: nat)
    requires 10 <= i < 20
    ensures Powers10(i) == 10 * Powers10(i - 1)
    ensures Roundings(i) == 5 * Powers10(i - 1)
  {
    if i == 10 { }
    else if i == 11 { }
    else if i == 12 { }
    else if i == 13 { }
    else if i == 14 { }
    else if i == 15 { }
    else if i == 16 { }
    else if i == 17 { }
    else if i == 18 { }
    else if i == 19 { }
  }

  lemma TableStep20(i: nat)
    requires 20 <= i < 30
    ensures Powers10(i) == 10 * Powers10(i - 1)
    ensures Roundings(i) == 5 * Powers10(i - 1)
  {
    if i == 20 { }
    else if i == 21 { }
    else if i == 22 { }
    else if i == 23 { }
    else if i == 24 { }
    else if i == 25 { }
    else if i == 26 { }
    else if i == 27 { }
    else if i == 28 { }
    else if i == 29 { }
  }

  lemma TableStep30(i: nat)
    requires 30 <= i < 40
    ensures Powers10(i) == 10 * Powers10(i - 1)
    ensures Roundings(i) == 5 * Powers10(i - 1)
  {
    if i == 30 { }
    else if i == 31 { }
    else if i == 32 { }
    else if i == 33 { }
    else if i == 34 { }
    else if i == 35 { }
    else if i == 36 { }
    else if i == 37 { }
    else if i == 38 { }
    else if i == 39 { }
  }

  lemma TableStep40(i: nat)
    requires 40 <= i < 50
    ensures Powers10(i) == 10 * Powers10(i - 1)
    ensures Roundings(i) == 5 * Powers10(i - 1)
  {
    if i == 40 { }
    else if i == 41 { }
    else if i == 42 { }
    else if i == 43 { }
    else if i == 44 { }
    else if i == 45 { }
    else if i == 46 { }
    else if i == 47 { }
    else if i == 48 { }
    else if i == 49 { }
  }

  lemma TableStep50(i: nat)
    requires 50 <= i < 60
    ensures Powers10(i) == 10 * Powers10(i - 1)
    ensures Roundings(i) == 5 * Powers10(i - 1)
  {
    if i == 50 { }
    else if i == 51 { }
    else if i == 52 { }
    else if i == 53 { }
    else if i == 54 { }
    else if i == 55 { }
    else if i == 56 { }
    else if i == 57 { }
    else if i == 58 { }
    else if i == 59 { }
  }

  lemma TableStep60(i: nat)
    requires 60 <= i < 70
    ensures Powers10(i) == 10 * Powers10(i - 1)
    ensures Roundings(i) == 5 * Powers10(i - 1)
  {
    if i == 60 { }
    else if i == 61 { }
    else if i == 62 { }
    else if i == 63 { }
    else if i == 64 { }
    else if i == 65 { }
    else if i == 66 { }
    else if i == 67 { }
    else if i == 68 { }
    else if i == 69 { }
  }

  lemma TableStep70(i: nat)
    requires 70 <= i < 77
    ensures Powers10(i) == 10 * Powers10(i - 1)
    ensures Roundings(i) == 5 * Powers10(i - 1)
  {
    if i == 70 { }
    else if i == 71 { }
    else if i == 72 { }
    else if i == 73 { }
    else if i == 74 { }
    else if i == 75 { }
    else if i == 76 { }
  }
  /** Each table entry is ten times the previous power, and each half-unit five times it. */
  lemma TableStep(i: nat)
    requires 1 <= i <= 76
    ensures Powers10(i) == 10 * Powers10(i - 1)
    ensures Roundings(i) == 5 * Powers10(i - 1)
  {
    if i < 10 { TableStep0(i); }
    else if i < 20 { TableStep10(i); }
    else if i < 30 { TableStep20(i); }
    else if i < 40 { TableStep30(i); }
    else if i < 50 { TableStep40(i); }
    else if i < 60 { TableStep50(i); }
    else if i < 70 { TableStep60(i); }
    else { TableStep70(i); }
  }

  /** POWERS_10[i] = 10^i and ROUNDINGS[i] = 5 * 10^(i-1), with ROUNDINGS[0] = 0, at every index of the tables. */
  lemma {:induction false} TablesExact(i: nat)
    requires i <= 76
    ensures Powers10(i) == Pow10(i)
    ensures Roundings(i) == if i == 0 then 0 else 5 * Pow10(i - 1)
  {
    if i > 0 {
      TablesExact(i - 1);
      TableStep(i);
    }
  }

  /** POWERS_10 starts at 1 and strictly increases with ratio 10. */
  lemma Powers10Ratio(i: nat)
    requires 1 <= i <= 76
    ensures Powers10(0) == 1
    ensures Powers10(i) == 10 * Powers10(i - 1)
    ensures Powers10(i - 1) < Powers10(i)
  {
    TablesExact(0);
    TablesExact(i);
    TablesExact(i - 1);
  }

  /** 10^38 is the last power of ten below 2^128. */
  lemma Pow10Fits128()
    ensures Pow10(38) < TWO_128 <= Pow10(39)
  {
    Pow10Literals30();
  }

  /** 10^77 is the last power of ten below 2^256. */
  lemma Pow10Fits256()
    ensures Pow10(77) < TWO_256 < Pow10(78)
  {
    Pow10Literals70();
  }

  /**
   * The low word of POWERS_10[k] is 10^k exactly for k <= 38; from index
   * 39 on the high word is non-zero, so the low word alone is not 10^k.
   */
  lemma Powers10LowWord(k: nat)
    requires k <= 76
    ensures Low(Powers10(k)) == Pow10(k) <==> k <= 38
    ensures High(Powers10(k)) != 0 <==> k >= 39
  {
    TablesExact(k);
    Pow10Fits128();
    if k <= 38 {
      Pow10Monotone(k, 38);
    } else {
      Pow10Monotone(39, k);
    }
    Words(Pow10(k));
  }

  /** The low word of ROUNDINGS[k] is its whole value for k <= 38. */
  lemma RoundingsLowWord(k: nat)
    requires k <= 38
    ensures Low(Roundings(k)) == Roundings(k)
    ensures k >= 1 ==> Low(Roundings(k)) == 5 * Pow10(k - 1)
  {
    TablesExact(k);
    Pow10Fits128();
    if k >= 1 {
      Pow10Monotone(k - 1, 37);
    }
    Words(Roundings(k));
  }

  lemma PowersLowPositive39(k: nat)
    requires 39 <= k < 49
    ensures Low(Powers10(k)) > 0
  {
    if k == 39 { }
    else if k == 40 { }
    else if k == 41 { }
    else if k == 42 { }
    else if k == 43 { }
    else if k == 44 { }
    else if k == 45 { }
    else if k == 46 { }
    else if k == 47 { }
    else if k == 48 { }
  }

  lemma PowersLowPositive49(k: nat)
    requires 49 <= k < 59
    ensures Low(Powers10(k)) > 0
  {
    if k == 49 { }
    else if k == 50 { }
    else if k == 51 { }
    else if k == 52 { }
    else if k == 53 { }
    else if k == 54 { }
    else if k == 55 { }
    else if k == 56 { }
    else if k == 57 { }
    else if k == 58 { }
  }

  lemma PowersLowPositive59(k: nat)
    requires 59 <= k < 69
    ensures Low(Powers10(k)) > 0
  {
    if k == 59 { }
    else if k == 60 { }
    else if k == 61 { }
    else if k == 62 { }
    else if k == 63 { }
    else if k == 64 { }
    else if k == 65 { }
    else if k == 66 { }
    else if k == 67 { }
    else if k == 68 { }
  }

  lemma PowersLowPositive69(k: nat)
    requires 69 <= k < 77
    ensures Low(Powers10(k)) > 0
  {
    if k == 69 { }
    else if k == 70 { }
    else if k == 71 { }
    else if k == 72 { }
    else if k == 73 { }
    else if k == 74 { }
    else if k == 75 { }
    else if k == 76 { }
  }

  /**
   * The low word of every POWERS_10 entry is non-zero (10^k is not a
   * multiple of 2^128 for k <= 76), so it is a valid divisor.
   */
  lemma PowersLowPositive(k: nat)
    requires k <= 76
    ensures Low(Powers10(k)) > 0
  {
    if k <= 38 {
      Powers10LowWord(k);
    } else if k < 49 {
      PowersLowPositive39(k);
    } else if k < 59 {
      PowersLowPositive49(k);
    } else if k < 69 {
      PowersLowPositive59(k);
    } else {
      PowersLowPositive69(k);
    }
  }

  /**
   * `POWERS_10[k]`, a whole table entry. The entries are exactly 10^k
   * (PowerIsTableEntry), so the value is written as the power itself:
   * proofs that see the 77-way table unfold it at great cost.
   */
  function Power(k: nat): (r: U256)
    requires k <= 76
    ensures r == Pow10(k)
  {
    Pow10Fits256();
    Pow10Monotone(k, 77);
    Pow10(k)
  }

  /** `ROUNDINGS[k]`, a whole table entry: half of 10^k (RoundingIsTableEntry). */
  function Rounding(k: nat): (r: U256)
    requires 1 <= k <= 76
    ensures r == 5 * Pow10(k - 1)
    ensures 2 * r == Pow10(k)
  {
    Pow10Fits256();
    Pow10Monotone(k, 77);
    5 * Pow10(k - 1)
  }

  lemma PowerIsTableEntry(k: nat)
    requires k <= 76
    ensures Power(k) == Powers10(k)
  {
    TablesExact(k);
  }

  lemma RoundingIsTableEntry(k: nat)
    requires 1 <= k <= 76
    ensures Rounding(k) == Roundings(k)
  {
    TablesExact(k);
  }

  /** `POWERS_10[k].low()` as read by the source: 10^k up to k = 38, a cut-off word beyond. */
  function TableLow(k: nat): (r: u128)
    requires k <= 76
    ensures r > 0
    ensures k <= MAX_PRECISION ==> r == Pow10(k)
  {
    PowersLowPositive(k);
    Powers10LowWord(k);
    Low(Powers10(k))
  }

  /**
   * `POWERS_10[k].low()` where the entry fits one word: exactly 10^k
   * (PowerLowIsTableEntry), written as the power for the reason `Power` is.
   */
  function PowerLow(k: nat): (r: u128)
    requires k <= MAX_PRECISION
    ensures r == Pow10(k)
  {
    Pow10Fits128();
    Pow10Monotone(k, MAX_PRECISION);
    Pow10(k)
  }

  /** `ROUNDINGS[k].low()` for 1 <= k <= 38: half of 10^k (RoundingLowIsTableEntry). */
  function RoundingLow(k: nat): (r: u128)
    requires 1 <= k <= MAX_PRECISION
    ensures r == 5 * Pow10(k - 1)
    ensures 2 * r == Pow10(k)
  {
    Pow10Fits128();
    Pow10Monotone(k, MAX_PRECISION);
    Pow10Monotone(k - 1, k);
    5 * Pow10(k - 1)
  }

  lemma PowerLowIsTableEntry(k: nat)
    requires k <= MAX_PRECISION
    ensures PowerLow(k) == Low(Powers10(k))
  {
    Powers10LowWord(k);
  }

  lemma RoundingLowIsTableEntry(k: nat)
    requires 1 <= k <= MAX_PRECISION
    ensures RoundingLow(k) == Low(Roundings(k))
  {
    RoundingsLowWord(k);
  }

  // ---------------------------------------------------------------------
  // Digit counting
  // ---------------------------------------------------------------------

  /**
   * The result of `binary_search` for `n` in the sorted, duplicate-free
   * POWERS_10 table, looking from index `i` on: `Ok(j)` when `n` is entry
   * `j`, otherwise `Err(j)` with `j` the first entry above `n` (77 when
   * there is none).
   */
  function SearchPowers(n: U256, i: nat): Result<nat, nat>
    requires i <= 77
    decreases 77 - i
  {
    if i == 77 then Err(77)
    else if Powers10(i) == n then Ok(i)
    else if n < Powers10(i) then Err(i)
    else SearchPowers(n, i + 1)
  }

  /** The same search over the exact powers 10^i. */
  function SearchExactPowers(n: nat, i: nat): Result<nat, nat>
    requires i <= 77
    decreases 77 - i
  {
    if i == 77 then Err(77)
    else if Pow10(i) == n then Ok(i)
    else if n < Pow10(i) then Err(i)
    else SearchExactPowers(n, i + 1)
  }

  lemma SearchStep(n: U256, i: nat)
    requires i < 77
    ensures SearchPowers(n, i) == if Pow10(i) == n then Ok(i) else if n < Pow10(i) then Err(i) else SearchPowers(n, i + 1)
  {
    TablesExact(i);
  }

  lemma {:induction false} SearchAgrees(n: U256, i: nat)
    requires i <= 77
    ensures SearchPowers(n, i) == SearchExactPowers(n, i)
    decreases 77 - i
  {
    if i < 77 {
      SearchStep(n, i);
      SearchAgrees(n, i + 1);
    }
  }

  /** What the search must find for a positive `n`: its digit count decides. */
  function ExpectedSearch(n: nat): Result<nat, nat>
  {
    var d := NumDigits(n);
    if d > 77 then Err(77)
    else if n == Pow10(d - 1) then Ok(d - 1)
    else Err(d)
  }

  lemma {:induction false} SearchExactPowersResult(n: nat, i: nat)
    requires 1 <= n
    requires i <= NumDigits(n) && i <= 77
    requires i == 0 || Pow10(i - 1) < n
    ensures SearchExactPowers(n, i) == ExpectedSearch(n)
    decreases 77 - i
  {
    if i == 77 {
      SearchRunsOut(n, i);
    } else if Pow10(i) == n {
      SearchHitsPower(n, i);
    } else if n < Pow10(i) {
      SearchPassesValue(n, i);
    } else {
      NumDigitsBounds(n);
      NumDigitsBelow(n, i + 1);
      SearchExactPowersResult(n, i + 1);
    }
  }

  lemma SearchRunsOut(n: nat, i: nat)
    requires i == 77 && NumDigits(n) >= i && Pow10(i - 1) < n
    ensures ExpectedSearch(n) == Err(i)
  {
  }

  lemma SearchHitsPower(n: nat, i: nat)
    requires n == Pow10(i)
    ensures ExpectedSearch(n) == if i + 1 > 77 then Err(77) else Ok(i)
  {
    NumDigitsBounds(n);
    NumDigitsUnique(n, i + 1);
  }

  lemma SearchPassesValue(n: nat, i: nat)
    requires 1 <= n < Pow10(i) && i <= 77
    requires i == 0 || Pow10(i - 1) < n
    ensures ExpectedSearch(n) == Err(i)
  {
    NumDigitsBounds(n);
    NumDigitsUnique(n, i);
  }

  /** `count_digits`: the table search turned into a digit count. */
  function CountDigits(n: U256): nat
  {
    match SearchPowers(n, 0)
    case Ok(pos) => pos + 1
    case Err(pos) => if pos == 0 then pos + 1 else pos
  }

  /**
   * `count_digits` is the number of decimal digits for every value below
   * 10^77; at and above 10^77 (which a U256 can hold) it stays at 77.
   */
  lemma CountDigitsCorrect(n: U256)
    ensures n < Pow10(77) ==> CountDigits(n) == NumDigits(n)
    ensures n >= Pow10(77) ==> CountDigits(n) == 77
  {
    if n == 0 {
      SearchAgrees(n, 0);
    } else {
      SearchAgrees(n, 0);
      SearchExactPowersResult(n, 0);
      NumDigitsBelow(n, 77);
    }
  }

  /** 10^77 is a U256 with 78 digits, yet `count_digits` reports 77. */
  lemma CountDigitsUndercounts()
    ensures Pow10(77) < TWO_256
    ensures NumDigits(Pow10(77)) == 78
    ensures CountDigits(Pow10(77)) == 77
  {
    Pow10Fits256();
    CountDigitsCorrect(Pow10(77));
    NumDigitsUnique(Pow10(77), 78);
  }

  /** Digit counting extended by the one missing table step, 10^77. */
  function CountDigitsCorrected(n: U256): (r: nat)
    ensures r == NumDigits(n)
  {
    CountDigitsCorrect(n);
    TablesExact(76);
    Pow10Fits256();
    if n >= 10 * Powers10(76) then
      NumDigitsUnique(n, 78);
      78
    else
      CountDigits(n)
  }

  /** `is_decimal_overflowed`: the value needs more than 38 digits. */
  function IsDecimalOverflowed(n: U256): (r: bool)
    ensures r <==> n >= Pow10(MAX_PRECISION)
  {
    Powers10LowWord(38);
    Pow10Fits128();
    if High(n) > 0 then true else Low(n) >= Low(Powers10(MAX_PRECISION))
  }

  // ---------------------------------------------------------------------
  // Word-level primitives
  // ---------------------------------------------------------------------

  /** Quotient and remainder (the foreign `udivmod4`). */
  function DivRem(n: U256, d: U256): (qr: (U256, U256))
    requires d > 0
    ensures qr.0 * d + qr.1 == n
    ensures qr.1 < d
  {
    (n / d, n % d)
  }

  /** `u128 - U256`: defined only when the U256 fits in 128 bits and is at most `a`. */
  function SubU128(a: u128, n: U256): (r: u128)
    requires High(n) == 0 && Low(n) <= a
    ensures r + n == a
  {
    a - Low(n)
  }

  /** `div128_round`: division by a 128-bit divisor rounding half up. */
  function Div128Round(n: U256, d: u128): (r: U256)
    requires d > 0
    ensures r == DivRoundHalfUp(n, d)
  {
    var (q, rem) := DivRem(n, d);
    if rem == 0 then
      q
    else
      var sub := SubU128(d, rem);
      if rem >= sub then
        MulLe(1, d, q);
        q + 1
      else
        q
  }

  /** `cmp128`: a U256 with a non-zero high word exceeds every u128; otherwise the low words decide. */
  function Cmp128(n: U256, b: u128): (r: Ordering)
    ensures High(n) > 0 ==> r == Greater
    ensures High(n) == 0 ==> r == CompareInt(Low(n), b)
  {
    Words(n);
    CompareInt(n, b)
  }

  /** `add128`: the widened sum carries into the high word exactly when the 128-bit sum would overflow. */
  function Add128(a: u128, b: u128): (r: U256)
    ensures r == a + b
    ensures High(r) <= 1
    ensures High(r) == 1 <==> a + b >= TWO_128
  {
    var s := a + b;
    if s < TWO_128 then
      Words(s);
      s
    else
      DivModUnique(s, TWO_128, 1, s - TWO_128);
      s
  }

  /** `mul128`: the exact widened product; its high word is at most 2^128 - 2. */
  function Mul128(a: u128, b: u128): (r: U256)
    ensures r == a * b
    ensures High(r) <= TWO_128 - 2
    ensures a > 0 ==> r / a == b && r % a == 0
  {
    MulBound(a, b);
    a * b
  }

  lemma MulBound(a: u128, b: u128)
    ensures a * b <= (TWO_128 - 1) * (TWO_128 - 1)
    ensures a * b < TWO_256
    ensures (a * b) / TWO_128 <= TWO_128 - 2
    ensures a > 0 ==> (a * b) / a == b && (a * b) % a == 0
  {
    MulLe(a, TWO_128 - 1, b);
    MulLe(b, TWO_128 - 1, TWO_128 - 1);
    DivLe(a * b, (TWO_128 - 1) * (TWO_128 - 1), TWO_128);
    DivModUnique((TWO_128 - 1) * (TWO_128 - 1), TWO_128, TWO_128 - 2, 1);
    if a > 0 {
      DivModUnique(a * b, a, b, 0);
    }
  }

  /** `checked_mul`: None exactly when the product leaves 256 bits. */
  function CheckedMul(a: U256, b: U256): (r: Option<U256>)
    ensures r.Some? <==> a * b < TWO_256
    ensures r.Some? ==> r.value == a * b
  {
    if a * b < TWO_256 then Some(a * b) else None
  }

  /** `checked_add`: None exactly when the sum leaves 256 bits. */
  function CheckedAdd(a: U256, b: U256): (r: Option<U256>)
    ensures r.Some? <==> a + b < TWO_256
    ensures r.Some? ==> r.value == a + b
  {
    if a + b < TWO_256 then Some(a + b) else None
  }

  /** `checked_sub`: None exactly when the difference is negative. */
  function CheckedSub(a: U256, b: U256): (r: Option<U256>)
    ensures r.Some? <==> b <= a
    ensures r.Some? ==> r.value + b == a
  {
    if b <= a then Some(a - b) else None
  }
}
