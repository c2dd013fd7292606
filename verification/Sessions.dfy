/** The session numbers of server/game.cpp: a linear congruential sequence in 32-bit
    arithmetic that is seeded again whenever it reaches 0. A C int is kept here as
    its unsigned representative. */
module Sessions {
  import opened Integers

  function Next(x: word): word {
    (x * 20240101 + 54321) % 0x1_0000_0000
  }

  class Generator {
    var state: word

    constructor ()
      ensures state == 0
    {
      state := 0;
    }

    /** `rand` is what rand() would return. */
    method Get(rand: word) returns (session: word)
      modifies this
      ensures session == state == Issue(old(state), rand)
    {
      if state == 0 {
        state := rand;
      }
      state := Next(state);
      session := state;
    }
  }

  function Issue(state: word, rand: word): word {
    Next(if state == 0 then rand else state)
  }

  /** The sessions issued from a state on, one for every number in `rands`. */
  function Issued(state: word, rands: seq<word>): (t: seq<word>)
    ensures |t| == |rands|
    decreases |rands|
  {
    if rands == [] then [] else [Issue(state, rands[0])] + Issued(Issue(state, rands[0]), rands[1..])
  }

  // ----- Products -----

  /** a * b, kept as a term of its own. */
  function Product(a: nat, b: nat): nat {
    if a == 0 then 0 else Product(a - 1, b) + b
  }

  lemma {:induction false} ProductIsTimes(a: nat, b: nat)
    ensures Product(a, b) == a * b
  {
    if a > 0 {
      ProductIsTimes(a - 1, b);
      assert (a - 1) * b == a * b - b;
    }
  }

  lemma {:induction false} Distribute(a: nat, b: nat, c: nat)
    ensures Product(a + b, c) == Product(a, c) + Product(b, c)
  {
    if b > 0 {
      Distribute(a, b - 1, c);
    }
  }

  lemma {:induction false} Double(a: nat, b: nat)
    ensures Product(2 * a, b) == 2 * Product(a, b) == Product(a, 2 * b)
  {
    Distribute(a, a, b);
    if a > 0 {
      Double(a - 1, b);
    }
  }

  lemma {:induction false} Multiply(a: nat, b: nat)
    ensures Product(20240101 * a, b) == 20240101 * Product(a, b)
  {
    if a > 0 {
      Multiply(a - 1, b);
      Distribute(20240101 * (a - 1), 20240101, b);
      ProductIsTimes(20240101, b);
    }
  }

  lemma {:induction false} Commute(a: nat, b: nat)
    ensures Product(a, b) == Product(b, a)
  {
    ProductIsTimes(a, b);
    ProductIsTimes(b, a);
  }

  lemma {:induction false} Single(b: nat)
    ensures Product(1, b) == b
  {
  }

  // ----- Divisibility by powers of two -----

  /** 2^k divides n. */
  predicate Even(k: nat, n: nat) {
    k == 0 || (n % 2 == 0 && Even(k - 1, n / 2))
  }

  /** An odd factor does not matter. */
  lemma {:induction false} EvenOddFactor(k: nat, q: nat, n: nat)
    requires q % 2 == 1
    ensures Even(k, Product(q, n)) <==> Even(k, n)
  {
    if k > 0 {
      OddProduct(q / 2, n);
      if n % 2 == 0 {
        Double(q, n / 2);
        EvenOddFactor(k - 1, q, n / 2);
      }
    }
  }

  lemma {:induction false} OddProduct(p: nat, n: nat)
    ensures Product(2 * p + 1, n) % 2 == n % 2
  {
    Distribute(2 * p, 1, n);
    Double(p, n);
    Single(n);
  }

  function Pow2(k: nat): nat {
    if k == 0 then 1 else 2 * Pow2(k - 1)
  }

  lemma {:induction false} EvenIsMultiple(k: nat, n: nat)
    ensures Even(k, n) <==> exists c: nat :: n == Product(c, Pow2(k))
  {
    if k == 0 {
      Commute(n, 1);
      Single(n);
      assert n == Product(n, Pow2(0));
    } else {
      EvenIsMultiple(k - 1, n / 2);
      var p := Pow2(k - 1);
      if Even(k, n) {
        var c: nat :| n / 2 == Product(c, p);
        Double(c, p);
        assert n == Product(c, Pow2(k));
      }
      if c: nat :| n == Product(c, Pow2(k)) {
        Double(c, p);
        assert n / 2 == Product(c, p);
      }
    }
  }

  lemma {:induction false} Pow2Of32()
    ensures Pow2(32) == 0x1_0000_0000
  {
    assert Pow2(8) == 256;
    assert Pow2(16) == 65536;
    assert Pow2(24) == 0x100_0000;
  }

  lemma {:induction false} EvenIsModulus(n: nat)
    ensures Even(32, n) <==> n % 0x1_0000_0000 == 0
  {
    EvenIsMultiple(32, n);
    Pow2Of32();
    ProductIsTimes(n / 0x1_0000_0000, 0x1_0000_0000);
    forall c: nat | n == Product(c, 0x1_0000_0000) ensures n % 0x1_0000_0000 == 0 {
      ProductIsTimes(c, 0x1_0000_0000);
    }
  }

  // ----- The geometric sum -----

  function Power(n: nat): nat {
    if n == 0 then 1 else 20240101 * Power(n - 1)
  }

  /** 1 + a + ... + a^(n-1) for the multiplier a. */
  function Geometric(n: nat): nat {
    if n == 0 then 0 else 20240101 * Geometric(n - 1) + 1
  }

  lemma {:induction false} PowerMod4(n: nat)
    ensures Power(n) % 4 == 1
  {
    if n > 0 {
      PowerMod4(n - 1);
    }
  }

  lemma {:induction false} DropEven(x: nat, y: nat)
    ensures (2 * x + y) % 2 == y % 2
  {
  }

  lemma {:induction false} OddStep(g: nat, m: nat)
    requires g % 2 == m % 2
    ensures (20240101 * g + 1) % 2 == (m + 1) % 2
  {
    DropEven(10120050 * g, g + 1);
  }

  lemma {:induction false} GeometricParity(n: nat)
    ensures Geometric(n) % 2 == n % 2
  {
    if n > 0 {
      var m: nat := n - 1;
      GeometricParity(m);
      OddStep(Geometric(m), m);
      assert n == m + 1;
    }
  }

  lemma {:induction false} GeometricSplit(m: nat, n: nat)
    ensures Geometric(m + n) == Geometric(m) + Product(Power(m), Geometric(n))
    decreases m
  {
    if m == 0 {
      Single(Geometric(n));
    } else {
      GeometricSplit(m - 1, n);
      assert m - 1 + n == m + n - 1;
      Multiply(Power(m - 1), Geometric(n));
    }
  }

  /** Twice as many terms give twice an odd multiple of the sum. */
  lemma {:induction false} GeometricDouble(m: nat) returns (q: nat)
    ensures q % 2 == 1 && Geometric(2 * m) == 2 * Product(q, Geometric(m))
  {
    GeometricSplit(m, m);
    PowerMod4(m);
    q := OddHalf(Power(m), Geometric(m));
  }

  lemma {:induction false} OddHalf(p: nat, g: nat) returns (q: nat)
    requires p % 4 == 1
    ensures q % 2 == 1 && g + Product(p, g) == 2 * Product(q, g)
  {
    q := (1 + p) / 2;
    Distribute(1, p, g);
    Single(g);
    Double(q, g);
  }

  /** The sum of n terms has exactly the factors of two that n has. */
  lemma {:induction false} GeometricValuation(k: nat, n: nat)
    ensures Even(k, Geometric(n)) <==> Even(k, n)
  {
    if k > 0 {
      GeometricParity(n);
      if n % 2 == 0 {
        var q := GeometricDouble(n / 2);
        EvenOddFactor(k - 1, q, Geometric(n / 2));
        GeometricValuation(k - 1, n / 2);
      }
    }
  }

  // ----- The period -----

  function Iterate(x: word, n: nat): word {
    if n == 0 then x else Next(Iterate(x, n - 1))
  }

  lemma {:induction false} IterateSplit(x: word, i: nat, n: nat)
    ensures Iterate(x, i + n) == Iterate(Iterate(x, i), n)
  {
    if n > 0 {
      IterateSplit(x, i, n - 1);
    }
  }

  /** The same sequence without the modulus. */
  function Unbounded(x: nat, n: nat): nat {
    if n == 0 then x else 20240101 * Unbounded(x, n - 1) + 54321
  }

  lemma {:induction false} IterateIsUnbounded(x: word, n: nat)
    ensures Iterate(x, n) == Unbounded(x, n) % 0x1_0000_0000
  {
    if n > 0 {
      IterateIsUnbounded(x, n - 1);
      ModStep(Unbounded(x, n - 1));
    }
  }

  lemma {:induction false} ModDrop(a: nat, k: nat)
    ensures (a + 0x1_0000_0000 * k) % 0x1_0000_0000 == a % 0x1_0000_0000
  {
  }

  lemma {:induction false} ModStep(u: nat)
    ensures ((u % 0x1_0000_0000) * 20240101 + 54321) % 0x1_0000_0000 == (20240101 * u + 54321) % 0x1_0000_0000
  {
    var q := u / 0x1_0000_0000;
    ModDrop((u % 0x1_0000_0000) * 20240101 + 54321, q * 20240101);
  }

  lemma {:induction false} UnboundedDifference(x: nat, n: nat)
    ensures Unbounded(x, n) == x + Product(Geometric(n), 20240100 * x + 54321)
  {
    if n > 0 {
      UnboundedDifference(x, n - 1);
      var g, d := Geometric(n - 1), 20240100 * x + 54321;
      Distribute(20240101 * g, 1, d);
      Multiply(g, d);
      Single(d);
    }
  }

  lemma {:induction false} ModGap(x: word, gap: nat)
    ensures (x + gap) % 0x1_0000_0000 == x <==> gap % 0x1_0000_0000 == 0
  {
  }

  lemma {:induction false} IterateGap(x: word, n: nat)
    ensures Iterate(x, n) == (x + Product(Geometric(n), 20240100 * x + 54321)) % 0x1_0000_0000
    ensures (20240100 * x + 54321) % 2 == 1
  {
    GapIsOdd(x);
    IterateIsUnbounded(x, n);
    UnboundedDifference(x, n);
  }

  lemma {:induction false} GapIsOdd(x: word)
    ensures (20240100 * x + 54321) % 2 == 1
  {
    DropEven(10120050 * x + 27160, 1);
  }

  lemma {:induction false} OddMultiple(d: nat, n: nat)
    requires d % 2 == 1
    ensures Product(Geometric(n), d) % 0x1_0000_0000 == 0 <==> n % 0x1_0000_0000 == 0
  {
    Commute(Geometric(n), d);
    EvenIsModulus(Product(d, Geometric(n)));
    EvenOddFactor(32, d, Geometric(n));
    GeometricValuation(32, n);
    EvenIsModulus(n);
  }

  /** The sequence returns to where it started exactly after multiples of 2^32 steps. */
  lemma {:induction false} Period(x: word, n: nat)
    ensures Iterate(x, n) == x <==> n % 0x1_0000_0000 == 0
  {
    IterateGap(x, n);
    ModGap(x, Product(Geometric(n), 20240100 * x + 54321));
    GapIsOdd(x);
    OddMultiple(20240100 * x + 54321, n);
  }

  // ----- Every number comes up -----

  /** The first n numbers of the sequence. */
  function Seen(x: word, n: nat): set<nat> {
    if n == 0 then {} else Seen(x, n - 1) + {Iterate(x, n - 1)}
  }

  lemma {:induction false} SeenWitness(x: word, n: nat, v: nat) returns (i: nat)
    ensures v in Seen(x, n) ==> i < n && Iterate(x, i) == v
  {
    i := 0;
    if n > 0 && v == Iterate(x, n - 1) {
      i := n - 1;
    } else if n > 0 {
      i := SeenWitness(x, n - 1, v);
    }
  }

  lemma {:induction false} NoShortPeriod(x: word, n: nat)
    requires 0 < n < 0x1_0000_0000
    ensures Iterate(x, n) != x
  {
    Period(x, n);
  }

  /** No number comes back in fewer than 2^32 steps. */
  lemma {:induction false} ComesLater(x: word, i: nat, n: nat)
    requires i < n < i + 0x1_0000_0000
    ensures Iterate(x, n) != Iterate(x, i)
  {
    IterateSplit(x, i, n - i);
    NoShortPeriod(Iterate(x, i), n - i);
  }

  lemma {:induction false} NotSeen(x: word, n: nat)
    requires n < 0x1_0000_0000
    ensures Iterate(x, n) !in Seen(x, n)
  {
    if Iterate(x, n) in Seen(x, n) {
      var i := SeenWitness(x, n, Iterate(x, n));
      ComesLater(x, i, n);
    }
  }

  lemma {:induction false} SeenSize(x: word, n: nat)
    requires n <= 0x1_0000_0000
    ensures |Seen(x, n)| == n
  {
    if n > 0 {
      SeenSize(x, n - 1);
      NotSeen(x, n - 1);
    }
  }

  function Below(n: nat): (s: set<nat>)
    ensures forall v :: v in s <==> 0 <= v < n
    ensures |s| == n
  {
    if n == 0 then {} else Below(n - 1) + {n - 1}
  }

  lemma {:induction false} FullSet(s: set<nat>, t: set<nat>)
    requires s <= t && |s| == |t|
    ensures s == t
  {
    if v :| v in t && v !in s {
      assert s <= t - {v};
      SubsetSize(s, t - {v});
    }
  }

  lemma {:induction false} SubsetSize(s: set<nat>, t: set<nat>)
    requires s <= t
    ensures |s| <= |t|
  {
    if v :| v in s {
      SubsetSize(s - {v}, t - {v});
    }
  }

  /** 2^32 steps from anywhere go through every number, 0 included. */
  lemma {:induction false} EveryNumber(x: word, v: word) returns (i: nat)
    ensures i < 0x1_0000_0000 && Iterate(x, i) == v
  {
    SeenSize(x, 0x1_0000_0000);
    forall w | w in Seen(x, 0x1_0000_0000) ensures w in Below(0x1_0000_0000) {
      var i := SeenWitness(x, 0x1_0000_0000, w);
    }
    FullSet(Seen(x, 0x1_0000_0000), Below(0x1_0000_0000));
    assert v in Below(0x1_0000_0000);
    i := SeenWitness(x, 0x1_0000_0000, v);
  }

  // ----- Sessions -----

  lemma {:induction false} IssuedTail(state: word, rands: seq<word>)
    requires rands != []
    ensures var t := Issued(state, rands); t[0] == Issue(state, rands[0]) && t[1..] == Issued(t[0], rands[1..])
  {
  }

  lemma {:induction false} IssueIsStep(state: word, rand: word)
    requires state != 0
    ensures Issue(state, rand) == Iterate(state, 1)
  {
    assert Iterate(state, 1) == Next(Iterate(state, 0));
  }

  lemma {:induction false} IssuedFromFirst(state: word, rands: seq<word>, n: nat)
    requires n < |rands| && forall m | 0 <= m < n :: Issued(state, rands)[m] != 0
    ensures Issued(state, rands)[n] == Iterate(Issued(state, rands)[0], n)
    decreases n
  {
    var t := Issued(state, rands);
    if n > 0 {
      IssuedTail(state, rands);
      IssuedTail(t[0], rands[1..]);
      assert t[n] == t[1..][n - 1];
      assert forall m | 0 <= m < n - 1 :: t[1..][m] == t[m + 1];
      IssuedFromFirst(t[0], rands[1..], n - 1);
      IterateSplit(t[0], 1, n - 1);
      IssueIsStep(t[0], rands[1]);
    }
  }

  lemma {:induction false} IssuedLater(state: word, rands: seq<word>, i: nat, n: nat)
    requires i + n < |rands| && forall m | i <= m < i + n :: Issued(state, rands)[m] != 0
    ensures Issued(state, rands)[i + n] == Iterate(Issued(state, rands)[i], n)
    decreases i
  {
    var t := Issued(state, rands);
    if i == 0 {
      IssuedFromFirst(state, rands, n);
    } else {
      IssuedTail(state, rands);
      assert forall m | 0 <= m < |rands| - 1 :: t[1..][m] == t[m + 1];
      IssuedLater(t[0], rands[1..], i - 1, n);
    }
  }

  /** Two sessions are different unless the sequence was seeded again between them,
      which happens exactly behind a session 0. */
  lemma {:induction false} SessionsDiffer(state: word, rands: seq<word>, i: nat, j: nat)
    requires i < j < |rands| && forall m | i <= m < j :: Issued(state, rands)[m] != 0
    ensures Issued(state, rands)[i] != Issued(state, rands)[j]
  {
    var t := Issued(state, rands);
    if j - i < 0x1_0000_0000 {
      NoShortPeriod(t[i], j - i);
      IssuedLater(state, rands, i, j - i);
    } else {
      var n := EveryNumber(t[i], 0);
      IssuedLater(state, rands, i, n);
    }
  }
}
