/** Powers of two, and the bit test `IsPowerOfTwo` that the program uses to decide
    whether the divide-and-conquer summation applies to a vector length. */
module PowersOfTwo {

  /** 2^k */
  function Pow2(k: nat): (r: nat)
    ensures r >= 1
  {
    if k == 0 then 1 else 2 * Pow2(k - 1)
  }

  /** x is a power of two (1, 2, 4, ...), recognised by repeated halving. */
  predicate IsPow2(x: int)
    decreases x
  {
    x == 1 || (x > 1 && x % 2 == 0 && IsPow2(x / 2))
  }

  /** The exponent of a power of two. */
  function Log2(x: int): (k: nat)
    requires IsPow2(x)
    ensures Pow2(k) == x
    decreases x
  {
    if x == 1 then 0 else 1 + Log2(x / 2)
  }

  lemma {:induction false} Pow2IsPow2(k: nat)
    ensures IsPow2(Pow2(k))
  {
    if k > 0 {
      Pow2IsPow2(k - 1);
    }
  }

  /** IsPow2 is exactly "x == 2^k for some k >= 0". */
  lemma IsPow2Iff(x: int)
    ensures IsPow2(x) <==> exists k: nat :: Pow2(k) == x
  {
    if IsPow2(x) {
      var k := Log2(x);
      assert Pow2(k) == x;
    }
    if exists k: nat :: Pow2(k) == x {
      var k: nat :| Pow2(k) == x;
      Pow2IsPow2(k);
    }
  }

  /** Of two powers of two, the larger is an even multiple of the smaller:
      a == 2 * b * c with c itself a power of two. */
  lemma {:induction false} Pow2Multiple(a: int, b: int) returns (c: int)
    requires IsPow2(a) && IsPow2(b) && a > b
    ensures IsPow2(c) && a == 2 * b * c
    decreases a
  {
    if b == 1 {
      c := a / 2;
    } else {
      var c' := Pow2Multiple(a / 2, b / 2);
      c := c';
      calc {
        a;
        2 * (a / 2);
        2 * (2 * (b / 2) * c);
        { assert 2 * (b / 2) == b; }
        2 * b * c;
      }
    }
  }

  /** Bitwise AND of two non-negative integers, bit by bit from the lowest. */
  function BitAnd(a: nat, b: nat): nat
    decreases a
  {
    if a == 0 || b == 0 then 0
    else 2 * BitAnd(a / 2, b / 2) + (if a % 2 == 1 && b % 2 == 1 then 1 else 0)
  }

  lemma {:induction false} BitAndSelf(a: nat)
    ensures BitAnd(a, a) == a
    decreases a
  {
    if a > 0 {
      BitAndSelf(a / 2);
    }
  }

  /** The classic test: for x >= 1, x & (x - 1) clears the lowest set bit,
      so it is zero exactly when x has a single set bit. */
  lemma {:induction false} BitAndPredecessor(x: nat)
    requires x >= 1
    ensures BitAnd(x, x - 1) == 0 <==> IsPow2(x)
    decreases x
  {
    if x > 1 {
      if x % 2 == 0 {
        assert (x - 1) / 2 == x / 2 - 1;
        BitAndPredecessor(x / 2);
      } else {
        assert (x - 1) / 2 == x / 2;
        BitAndSelf(x / 2);
      }
    }
  }

  /** Two numbers whose highest set bit is bit k share that bit. */
  lemma {:induction false} BitAndHighBit(a: nat, b: nat, k: nat)
    requires Pow2(k) <= a < 2 * Pow2(k) && Pow2(k) <= b < 2 * Pow2(k)
    ensures BitAnd(a, b) >= Pow2(k)
    decreases k
  {
    if k > 0 {
      BitAndHighBit(a / 2, b / 2, k - 1);
    }
  }

  const TwoTo31: int := 0x8000_0000
  const TwoTo32: int := 0x1_0000_0000

  /** The program's `int`: 32-bit two's complement. */
  newtype Int32 = x: int | -0x8000_0000 <= x < 0x8000_0000

  /** The 32 bits of x, read as an unsigned number. */
  function Bits(x: Int32): (u: nat)
    ensures u < TwoTo32
    ensures x >= 0 ==> u == x as int
  {
    if x >= 0 then x as nat else (x as int + TwoTo32) as nat
  }

  /** 32-bit wrap-around of an integer result. */
  function Wrap(v: int): (r: Int32)
    ensures (r as int - v) % TwoTo32 == 0
  {
    ((v + TwoTo31) % TwoTo32 - TwoTo31) as Int32
  }

  /** `x != 0 && (x & (x - 1)) == 0` on a 32-bit int, with `x - 1` wrapping
      around from the least value to the greatest. */
  function IsPowerOfTwo(x: Int32): (r: bool)
    ensures r <==> (x > 0 && IsPow2(x as int)) || x as int == -TwoTo31
  {
    BitTestAsWritten(x);
    x != 0 && BitAnd(Bits(x), Bits(Wrap(x as int - 1))) == 0
  }

  /** For x != 0 the bits of the wrapped x - 1 are the bits of x, minus one. */
  lemma BitsOfPredecessor(x: Int32)
    requires x != 0
    ensures Bits(Wrap(x as int - 1)) == Bits(x) - 1
  {
  }

  lemma {:induction false} Pow2Add(m: nat, n: nat)
    ensures Pow2(m + n) == Pow2(m) * Pow2(n)
    decreases m
  {
    if m > 0 {
      Pow2Add(m - 1, n);
    }
  }

  lemma TwoTo31IsPow2()
    ensures Pow2(31) == TwoTo31 && IsPow2(TwoTo31)
  {
    assert Pow2(2) == 4;
    Pow2Add(2, 1);
    Pow2Add(2, 2);
    Pow2Add(4, 3);
    Pow2Add(4, 4);
    Pow2Add(8, 7);
    Pow2Add(8, 8);
    Pow2Add(16, 15);
    Pow2IsPow2(31);
  }

  /** What the bit test accepts as written: the positive powers of two, and
      also the least 32-bit int, whose predecessor wraps to the greatest. */
  lemma BitTestAsWritten(x: Int32)
    ensures (x != 0 && BitAnd(Bits(x), Bits(Wrap(x as int - 1))) == 0)
            <==> (x > 0 && IsPow2(x as int)) || x as int == -TwoTo31
  {
    if x != 0 {
      var u := Bits(x);
      BitsOfPredecessor(x);
      assert Bits(Wrap(x as int - 1)) == u - 1;
      if x > 0 {
        BitAndPredecessor(u);
      } else {
        NegativeBits(x);
      }
    }
  }

  /** A negative int passes the test exactly when it is the least one. */
  lemma NegativeBits(x: Int32)
    requires x < 0
    ensures BitAnd(Bits(x), Bits(x) - 1) == 0 <==> x as int == -TwoTo31
  {
    TwoTo31IsPow2();
    var u := Bits(x);
    assert u == x as int + TwoTo32;
    if x as int == -TwoTo31 {
      BitAndPredecessor(u);
    } else {
      BitAndHighBit(u, u - 1, 31);
    }
  }

  /** The least 32-bit int passes the test although it is no power of two. */
  lemma MinIntPassesTest()
    ensures IsPowerOfTwo(-0x8000_0000) && !IsPow2(-0x8000_0000)
  {
    assert Wrap(-0x8000_0000 - 1) as int == TwoTo31 - 1;
  }

  /** The test with the sign checked first, as evidently intended. */
  function IsPowerOfTwoChecked(x: Int32): (r: bool)
    ensures r <==> x > 0 && IsPow2(x as int)
  {
    x > 0 && IsPowerOfTwo(x)
  }
}
