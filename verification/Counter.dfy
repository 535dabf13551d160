/** Big-endian counters and the counter-mode key stream (NIST SP 800-38A, section
    6.5 and appendix B.1). */
module Counter {
  import opened Keys

  const TWO64: nat := 0x1_0000_0000_0000_0000

  function Pow256(n: nat): (p: nat)
    ensures p > 0
  {
    if n == 0 then 1 else 256 * Pow256(n - 1)
  }

  /** The number that a byte string spells, most significant byte first. */
  function Value(s: Key): nat {
    if s == [] then 0 else 256 * Value(s[..|s| - 1]) + s[|s| - 1]
  }

  /** The last `n` base-256 digits of `x`. */
  function Digits(n: nat, x: nat): (s: Key)
    ensures |s| == n
  {
    if n == 0 then [] else Digits(n - 1, x / 256) + [x % 256]
  }

  lemma Distribute(d: int, x: int, y: int)
    ensures d * (x + y) == d * x + d * y
  {
  }

  lemma MulOrder(d: nat, a: int, b: int)
    ensures a <= b ==> d * a <= d * b
  {
    if a <= b {
      Distribute(d, a, b - a);
      assert d * (b - a) >= 0;
    }
  }

  lemma Euclid(x: nat, d: nat)
    requires d > 0
    ensures x == d * (x / d) + x % d && x % d < d
  {
  }

  /** Quotient and remainder are determined by what they stand for. */
  lemma RemainderIs(x: nat, d: nat, k: nat, r: nat)
    requires d > 0 && x == d * k + r && r < d
    ensures x % d == r
  {
    var q := x / d;
    Euclid(x, d);
    MulOrder(d, q + 1, k);
    MulOrder(d, k + 1, q);
    Distribute(d, q, 1);
    Distribute(d, k, 1);
  }

  lemma SplitMod(a: nat, p: nat, r: nat)
    requires p > 0 && r < 256
    ensures (256 * a + r) % (256 * p) == 256 * (a % p) + r
  {
    var k, m := a / p, a % p;
    Euclid(a, p);
    Regroup(p, k);
    RemainderIs(256 * a + r, 256 * p, k, 256 * m + r);
  }

  lemma Regroup(p: nat, k: nat)
    ensures (256 * p) * k == 256 * (p * k)
  {
  }

  lemma {:induction false} ValueIsBelow(s: Key)
    ensures Value(s) < Pow256(|s|)
  {
    if s != [] {
      ValueIsBelow(s[..|s| - 1]);
    }
  }

  lemma {:induction false} DigitsSpell(n: nat, x: nat)
    ensures Value(Digits(n, x)) == x % Pow256(n)
  {
    if n > 0 {
      DigitsSpell(n - 1, x / 256);
      assert Digits(n, x)[..n - 1] == Digits(n - 1, x / 256);
      SplitMod(x / 256, Pow256(n - 1), x % 256);
    }
  }

  /** Byte strings of one length are the same when they spell the same number. */
  lemma {:induction false} ValueDetermines(a: Key, b: Key)
    requires |a| == |b| && Value(a) == Value(b)
    ensures a == b
  {
    if a != [] {
      ValueDetermines(a[..|a| - 1], b[..|b| - 1]);
      assert a == a[..|a| - 1] + [a[|a| - 1]] && b == b[..|b| - 1] + [b[|b| - 1]];
    }
  }

  /** The counter `n` blocks on, modulo 256 to the length of the counter. */
  function Plus(ctr: Key, n: nat): Key {
    Digits(|ctr|, Value(ctr) + n)
  }

  lemma SumMod(a: nat, b: nat, p: nat)
    requires p > 0
    ensures (a % p + b) % p == (a + b) % p
  {
    var t := a % p + b;
    Euclid(a, p);
    Euclid(t, p);
    Distribute(p, a / p, t / p);
    RemainderIs(a + b, p, a / p + t / p, t % p);
  }

  /** Counting on from a later block is counting on from the first. */
  lemma PlusAdds(ctr: Key, m: nat, n: nat)
    ensures Plus(Plus(ctr, m), n) == Plus(ctr, m + n)
  {
    var p := Pow256(|ctr|);
    DigitsSpell(|ctr|, Value(ctr) + m);
    DigitsSpell(|ctr|, Value(Plus(ctr, m)) + n);
    DigitsSpell(|ctr|, Value(ctr) + m + n);
    SumMod(Value(ctr) + m, n, p);
    ValueDetermines(Plus(Plus(ctr, m), n), Plus(ctr, m + n));
  }

  lemma PlusZero(ctr: Key)
    ensures Plus(ctr, 0) == ctr
  {
    DigitsSpell(|ctr|, Value(ctr));
    ValueIsBelow(ctr);
    RemainderIs(Value(ctr), Pow256(|ctr|), 0, Value(ctr));
    ValueDetermines(Plus(ctr, 0), ctr);
  }

  // ----- addCtr -----

  /** `addCtr`: ripple a 64-bit carry from the last byte to the first. */
  function AddTo(ctr: Key, val: nat): (r: Key)
    ensures |r| == |ctr|
  {
    if ctr == [] then []
    else
      var v := (val + ctr[|ctr| - 1]) % TWO64;
      AddTo(ctr[..|ctr| - 1], v / 256) + [v % 256]
  }

  lemma AddStep(all: Key, i: nat, v: nat)
    requires i < |all|
    ensures var w := (v + all[i]) % TWO64;
            AddTo(all[..i + 1], v) == AddTo(all[..i], w / 256) + [w % 256]
  {
    assert all[..i + 1][..i] == all[..i];
  }

  method AddCtr(ctr: array<Byte>, val: nat)
    requires val < TWO64
    modifies ctr
    ensures ctr[..] == AddTo(old(ctr[..]), val)
  {
    var i, v: nat := ctr.Length, val;
    ghost var all := ctr[..];
    assert all[..i] == all && ctr[i..] == [];
    while i > 0
      invariant 0 <= i <= ctr.Length
      invariant ctr[..i] == all[..i]
      invariant AddTo(all[..i], v) + ctr[i..] == AddTo(all, val)
    {
      i := i - 1;
      ghost var tail := ctr[i + 1..];
      AddStep(all, i, v);
      v := (v + ctr[i]) % TWO64;
      ctr[i] := v % 256;
      assert ctr[i..] == [v % 256] + tail;
      v := v / 256;
      assert ctr[..i] == all[..i];
    }
    assert ctr[i..] == ctr[..];
  }

  /** While the carry stays within 64 bits the sum is exact. */
  lemma {:induction false} AddWithinWord(ctr: Key, val: nat)
    requires ctr != [] ==> val + ctr[|ctr| - 1] < TWO64
    ensures ctr == [] ==> Value(AddTo(ctr, val)) == 0
    ensures ctr != [] ==> Value(AddTo(ctr, val)) == (Value(ctr) + val) % Pow256(|ctr|)
    decreases |ctr|, 1
  {
    if ctr != [] {
      var v := val + ctr[|ctr| - 1];
      AddCarry(ctr, val, v);
    }
  }

  /** One step of the ripple, whatever happened to the carry before. */
  lemma AddCarry(ctr: Key, val: nat, v: nat)
    requires ctr != [] && v < TWO64 && v == (val + ctr[|ctr| - 1]) % TWO64
    ensures Value(AddTo(ctr, val)) == (256 * Value(ctr[..|ctr| - 1]) + v) % Pow256(|ctr|)
    decreases |ctr|, 0
  {
    var front := ctr[..|ctr| - 1];
    AddWithinWord(front, v / 256);
    assert AddTo(ctr, val)[..|front|] == AddTo(front, v / 256);
    SplitMod(Value(front) + v / 256, Pow256(|front|), v % 256);
    if front == [] {
      assert (Value(front) + v / 256) % 1 == 0;
    }
  }

  lemma {:induction false} PowerOfWord(n: nat)
    ensures n <= 8 ==> TWO64 == Pow256(n) * Pow256(8 - n)
    ensures n > 8 ==> Pow256(n) > TWO64
  {
    PowersMultiply(if n <= 8 then n else 8, if n <= 8 then 8 - n else n - 8);
    assert Pow256(8) == TWO64 by {
      assert Pow256(4) == 0x1_0000_0000;
      PowersMultiply(4, 4);
    }
    if n > 8 {
      assert Pow256(n - 8) >= 256;
    }
  }

  lemma {:induction false} PowersMultiply(a: nat, b: nat)
    ensures Pow256(a + b) == Pow256(a) * Pow256(b)
  {
    if a > 0 {
      PowersMultiply(a - 1, b);
    }
  }

  /** `addCtr` adds modulo 256 to the length of the counter if and only if the
      first step stays within 64 bits or the counter is no longer than 8 bytes. */
  lemma AddToIsSum(ctr: Key, val: nat)
    requires ctr != [] && val < TWO64
    ensures AddTo(ctr, val) == Plus(ctr, val) <==> |ctr| <= 8 || val + ctr[|ctr| - 1] < TWO64
  {
    DigitsSpell(|ctr|, Value(ctr) + val);
    if AddTo(ctr, val) != Plus(ctr, val) && Value(AddTo(ctr, val)) == Value(Plus(ctr, val)) {
      ValueDetermines(AddTo(ctr, val), Plus(ctr, val));
    }
    if val + ctr[|ctr| - 1] < TWO64 {
      AddWithinWord(ctr, val);
    } else {
      AddOverflows(ctr, val);
    }
  }

  /** A lost carry of 2^64 matters only to counters longer than 64 bits. */
  lemma AddOverflows(ctr: Key, val: nat)
    requires ctr != [] && val < TWO64 <= val + ctr[|ctr| - 1]
    ensures Value(AddTo(ctr, val)) == (Value(ctr) + val) % Pow256(|ctr|) <==> |ctr| <= 8
  {
    var p, rest := Pow256(|ctr|), val + ctr[|ctr| - 1] - TWO64;
    AddCarry(ctr, val, rest);
    PowerOfWord(|ctr|);
    var short := 256 * Value(ctr[..|ctr| - 1]) + rest;
    assert Value(ctr) + val == short + TWO64;
    if |ctr| <= 8 {
      AddMultiple(short, p, Pow256(8 - |ctr|));
    } else {
      NotSameRemainder(short, TWO64, p);
    }
  }

  lemma AddMultiple(x: nat, p: nat, k: nat)
    requires p > 0
    ensures (x + p * k) % p == x % p
  {
    Euclid(x, p);
    Distribute(p, x / p, k);
    RemainderIs(x + p * k, p, x / p + k, x % p);
  }

  lemma NotSameRemainder(x: nat, d: nat, p: nat)
    requires 0 < d < p
    ensures (x + d) % p != x % p
  {
    var a, b := x / p, (x + d) / p;
    Euclid(x, p);
    Euclid(x + d, p);
    MulOrder(p, a + 1, b);
    MulOrder(p, b, a);
    Distribute(p, a, 1);
  }

  // ----- the key stream -----

  /** Byte `q` of the key stream that starts at `ctr`. */
  function Pad(block: Key -> Key, ctr: Key, q: nat): Byte {
    var b := block(Plus(ctr, q / 16));
    if q % 16 < |b| then b[q % 16] else 0
  }

  /** A stream started `n` blocks on is the original stream from there. */
  lemma PadShifts(block: Key -> Key, ctr: Key, n: nat, q: nat)
    ensures Pad(block, Plus(ctr, n), q) == Pad(block, ctr, 16 * n + q)
  {
    PlusAdds(ctr, n, q / 16);
    assert (16 * n + q) / 16 == n + q / 16 && (16 * n + q) % 16 == q % 16;
  }

  /** Exclusive or, bit by bit from the lowest. */
  function XorBits(a: nat, b: nat, n: nat): (r: nat)
    ensures r < Pow2(n)
  {
    if n == 0 then 0 else 2 * XorBits(a / 2, b / 2, n - 1) + (if a % 2 == b % 2 then 0 else 1)
  }

  function Pow2(n: nat): nat {
    if n == 0 then 1 else 2 * Pow2(n - 1)
  }

  function Xor(a: Byte, b: Byte): Byte {
    assert Pow2(8) == 256 by { assert Pow2(4) == 16; }
    XorBits(a, b, 8)
  }

  lemma {:induction false} XorBitsTwice(a: nat, b: nat, n: nat)
    requires a < Pow2(n)
    ensures XorBits(XorBits(a, b, n), b, n) == a
  {
    if n > 0 {
      XorBitsTwice(a / 2, b / 2, n - 1);
      var r := XorBits(a / 2, b / 2, n - 1);
      var x := XorBits(a, b, n);
      LowBit(r, if a % 2 == b % 2 then 0 else 1);
      assert x / 2 == r && x % 2 == if a % 2 == b % 2 then 0 else 1;
    }
  }

  lemma LowBit(r: nat, bit: nat)
    requires bit <= 1
    ensures (2 * r + bit) / 2 == r && (2 * r + bit) % 2 == bit
  {
  }

  /** Combining twice with the same byte gives the byte back. */
  lemma XorTwice(a: Byte, b: Byte)
    ensures Xor(Xor(a, b), b) == a
  {
    assert Pow2(8) == 256 by { assert Pow2(4) == 16; }
    XorBitsTwice(a, b, 8);
  }

  /** Bit `i`, counted from the lowest. */
  function Bit(x: nat, i: nat): nat {
    if i == 0 then x % 2 else Bit(x / 2, i - 1)
  }

  lemma {:induction false} XorBitsAre(a: nat, b: nat, n: nat, i: nat)
    requires i < n
    ensures Bit(XorBits(a, b, n), i) == if Bit(a, i) == Bit(b, i) then 0 else 1
  {
    LowBit(XorBits(a / 2, b / 2, n - 1), if a % 2 == b % 2 then 0 else 1);
    if i > 0 {
      XorBitsAre(a / 2, b / 2, n - 1, i - 1);
    }
  }

  /** Each bit of the combination is set exactly where the two bytes differ. */
  lemma XorMeans(a: Byte, b: Byte, i: nat)
    requires i < 8
    ensures Bit(Xor(a, b), i) == if Bit(a, i) == Bit(b, i) then 0 else 1
  {
    XorBitsAre(a, b, 8, i);
  }

  /** Counters are big-endian: 256 to the place of a byte from the end. */
  lemma {:induction false} ValueOfFront(s: Key, t: Key)
    ensures Value(s + t) == Value(s) * Pow256(|t|) + Value(t)
  {
    if t == [] {
      assert s + t == s;
    } else {
      var front := t[..|t| - 1];
      assert (s + t)[..|s + t| - 1] == s + front;
      ValueOfFront(s, front);
      Regroup256(Value(s), Pow256(|front|));
    }
  }

  lemma Regroup256(v: nat, p: nat)
    ensures 256 * (v * p) == v * (256 * p)
  {
  }
}
