/**
 Hash and comparison of keys, lib/cc_utility.c and lib/cc_hash_table.c. The hash is FNV-1a, section 2 of
 draft-eastlake-fnv, with 32 bits.
 */
module KeyHash {
  import opened Bytes
  import opened BucketModel

  const OFFSET_BASIS := 0x811c_9dc5
  const PRIME := 0x0100_0193

  function Pow2(n: nat): nat {
    if n == 0 then 1 else 2 * Pow2(n - 1)
  }

  /** The exclusive or of the n low bits. */
  function Xor(a: nat, b: nat, n: nat): (r: nat)
    ensures r < Pow2(n)
  {
    if n == 0 then 0 else 2 * Xor(a / 2, b / 2, n - 1) + if a % 2 == b % 2 then 0 else 1
  }

  function Xor8(a: byte, b: byte): byte {
    assert Pow2(8) == 0x100;
    Xor(a, b, 8)
  }

  /** The exclusive or of the state and a byte. */
  function Mixed(h: u32, c: byte): u32 {
    h / 0x100 * 0x100 + Xor8(h % 0x100, c)
  }

  /** One round: exclusive or into the low byte, then a multiplication modulo 2^32. */
  function Step(h: u32, c: byte): u32 {
    Mixed(h, c) * PRIME % UINT_RANGE
  }

  function Fnv(h: u32, key: Bytes): u32
    decreases |key|
  {
    if key == [] then h else Fnv(Step(h, key[0]), key[1..])
  }

  function HashOf(key: Bytes): u32 {
    Fnv(OFFSET_BASIS, key)
  }

  method HashCore(key: Bytes) returns (h: u32)
    ensures h == HashOf(key)
  {
    h := OFFSET_BASIS;
    assert key[0..] == key;
    for i := 0 to |key|
      invariant Fnv(h, key[i..]) == HashOf(key)
    {
      assert key[i..][1..] == key[i + 1..];
      h := Step(h, key[i]);
    }
  }

  lemma XorStep(a: nat, b: nat, n: nat)
    requires n > 0
    ensures Xor(a, b, n) == 2 * Xor(a / 2, b / 2, n - 1) + if a % 2 == b % 2 then 0 else 1
  {
  }

  /** The exclusive or of the low byte of the offset basis and the letter a. */
  lemma FirstXor()
    ensures Xor8(0xc5, 0x61) == 0xa4
  {
    hide Xor;
    XorStep(0xc5, 0x61, 8);
    XorStep(0x62, 0x30, 7);
    XorStep(0x31, 0x18, 6);
    XorStep(0x18, 0x0c, 5);
    XorStep(0x0c, 0x06, 4);
    XorStep(0x06, 0x03, 3);
    XorStep(0x03, 0x01, 2);
    XorStep(0x01, 0x00, 1);
    XorEnd(0, 0);
  }

  lemma XorEnd(a: nat, b: nat)
    ensures Xor(a, b, 0) == 0
  {
  }

  /** Two values that are published for FNV-1a with 32 bits: of the empty key and of the key a. */
  lemma PublishedValues()
    ensures HashOf([]) == 0x811c_9dc5 && HashOf([0x61]) == 0xe40c_292c
  {
    hide Xor8;
    FirstXor();
    var key: Bytes := [0x61];
    assert key[1..] == [];
    assert Step(0x811c_9dc5, 0x61) == 0xe40c_292c;
  }

  // ---------- every round is a bijection ----------

  const INVERSE := 0x359c_449b

  lemma XorHalves(a: nat, b: nat, n: nat)
    requires n > 0
    ensures Xor(a, b, n) / 2 == Xor(a / 2, b / 2, n - 1) && Xor(a, b, n) % 2 == if a % 2 == b % 2 then 0 else 1
  {
  }

  lemma {:induction false} XorTwice(a: nat, b: nat, n: nat)
    requires a < Pow2(n)
    ensures Xor(Xor(a, b, n), b, n) == a && Xor(b, Xor(b, a, n), n) == a
  {
    if n > 0 {
      XorTwice(a / 2, b / 2, n - 1);
      XorHalves(a, b, n);
      XorHalves(b, a, n);
      XorHalves(Xor(a, b, n), b, n);
      XorHalves(b, Xor(b, a, n), n);
      hide Xor;
    }
  }

  lemma Xor8Injective(a: byte, a': byte, b: byte)
    ensures Xor8(a, b) == Xor8(a', b) ==> a == a'
    ensures Xor8(b, a) == Xor8(b, a') ==> a == a'
  {
    assert Pow2(8) == 0x100;
    hide Xor, Pow2;
    XorTwice(a, b, 8);
    XorTwice(a', b, 8);
  }

  lemma ModProduct(a: nat, b: nat)
    ensures a % UINT_RANGE * b % UINT_RANGE == a * b % UINT_RANGE
  {
    var q, r := a / UINT_RANGE, a % UINT_RANGE;
    assert a * b == r * b + UINT_RANGE * (q * b);
    ModShift(r * b, q * b);
  }

  lemma ModShift(a: nat, q: nat)
    ensures (a + UINT_RANGE * q) % UINT_RANGE == a % UINT_RANGE
  {
  }

  /** The prime is odd, so it has an inverse modulo 2^32. */
  lemma PrimeInverse(x: u32)
    ensures x * PRIME % UINT_RANGE * INVERSE % UINT_RANGE == x
  {
    ModProduct(x * PRIME, INVERSE);
    assert PRIME * INVERSE == 1 + UINT_RANGE * 3513497;
    assert x * PRIME * INVERSE == x + UINT_RANGE * (3513497 * x);
    ModShift(x, 3513497 * x);
  }

  lemma HighAndLow(p: nat, x: byte, q: nat, y: byte)
    requires p * 0x100 + x == q * 0x100 + y
    ensures p == q && x == y
  {
  }

  lemma MixedInjective(h: u32, h': u32, c: byte, c': byte)
    ensures Mixed(h, c) == Mixed(h', c) ==> h == h'
    ensures Mixed(h, c) == Mixed(h, c') ==> c == c'
  {
    hide Xor8;
    Xor8Injective(h % 0x100, h' % 0x100, c);
    Xor8Injective(c, c', h % 0x100);
    if Mixed(h, c) == Mixed(h', c) {
      HighAndLow(h / 0x100, Xor8(h % 0x100, c), h' / 0x100, Xor8(h' % 0x100, c));
    }
  }

  lemma StepUndone(h: u32, c: byte)
    ensures Step(h, c) * INVERSE % UINT_RANGE == Mixed(h, c)
  {
    hide Mixed;
    PrimeInverse(Mixed(h, c));
  }

  lemma StepInjective(h: u32, h': u32, c: byte, c': byte)
    ensures Step(h, c) == Step(h', c) ==> h == h'
    ensures Step(h, c) == Step(h, c') ==> c == c'
  {
    hide Step;
    StepUndone(h, c);
    StepUndone(h', c);
    StepUndone(h, c');
    MixedInjective(h, h', c, c');
  }

  lemma {:induction false} FnvInjective(h: u32, h': u32, key: Bytes)
    requires h != h'
    ensures Fnv(h, key) != Fnv(h', key)
    decreases |key|
  {
    hide Step;
    if key != [] {
      if Step(h, key[0]) == Step(h', key[0]) {
        StepInjective(h, h', key[0], key[0]);
      }
      FnvInjective(Step(h, key[0]), Step(h', key[0]), key[1..]);
    }
  }

  /** Keys of the same length that differ in exactly one byte hash differently. */
  lemma {:induction false} OneByteMatters(h: u32, x: Bytes, y: Bytes, i: nat)
    requires |x| == |y| && i < |x| && x[i] != y[i]
    requires forall k :: 0 <= k < |x| && k != i ==> x[k] == y[k]
    ensures Fnv(h, x) != Fnv(h, y)
    decreases |x|
  {
    hide Step;
    if i > 0 {
      OneByteMatters(Step(h, x[0]), x[1..], y[1..], i - 1);
    } else {
      assert x[1..] == y[1..];
      if Step(h, x[0]) == Step(h, y[0]) {
        StepInjective(h, h, x[0], y[0]);
      }
      FnvInjective(Step(h, x[0]), Step(h, y[0]), x[1..]);
    }
  }

  // ---------- the comparisons and hashes that a table can be created with ----------

  /** A C string in memory: what is before its first zero byte. */
  function CString(memory: Bytes): Bytes {
    if memory == [] || memory[0] == 0 then [] else [memory[0]] + CString(memory[1..])
  }

  predicate CompareString(x: Bytes, y: Bytes) {
    CString(x) == CString(y)
  }

  function HashString(x: Bytes): nat {
    HashOf(CString(x))
  }

  type Mac = x: Bytes | |x| == 6 witness Zeros(6)

  predicate CompareMac(x: Mac, y: Mac) {
    x == y
  }

  function HashMac(x: Mac): nat {
    HashOf(x)
  }

  predicate CompareUint32(x: u32, y: u32) {
    x == y
  }

  function HashUint32(x: u32): nat {
    x % UINT_MAX
  }

  /** A datapath id, as the host stores it. */
  type DatapathId = x: Bytes | |x| == 8 witness Zeros(8)

  function ValueOf(order: Order, x: Bytes): nat {
    if x == [] then 0
    else
      match order
      case Big => ValueOf(order, x[..|x| - 1]) * 0x100 + x[|x| - 1]
      case Little => ValueOf(order, x[1..]) * 0x100 + x[0]
  }

  /** Datapath ids are compared as numbers. */
  predicate CompareDatapathId(order: Order, x: DatapathId, y: DatapathId) {
    ValueOf(order, x) == ValueOf(order, y)
  }

  function HashDatapathId(x: DatapathId): nat {
    HashOf(x)
  }

  /** A key that is compared as a pointer. */
  predicate CompareAtom(x: u64, y: u64) {
    x == y
  }

  /** Shifting a pointer right by two bits and keeping 32 of them. */
  function HashAtom(x: u64): nat {
    x / 4 % UINT_RANGE
  }

  lemma {:induction false} ValueInjective(order: Order, x: Bytes, y: Bytes)
    requires |x| == |y| && ValueOf(order, x) == ValueOf(order, y)
    ensures x == y
    decreases |x|
  {
    if x != [] {
      var n := |x| - 1;
      match order
      case Big =>
        HighAndLow(ValueOf(order, x[..n]), x[n], ValueOf(order, y[..n]), y[n]);
        ValueInjective(order, x[..n], y[..n]);
        assert x == x[..n] + [x[n]] && y == y[..n] + [y[n]];
      case Little =>
        HighAndLow(ValueOf(order, x[1..]), x[0], ValueOf(order, y[1..]), y[0]);
        ValueInjective(order, x[1..], y[1..]);
        assert x == [x[0]] + x[1..] && y == [y[0]] + y[1..];
    }
  }

  /** The hash of an integer is the integer, but for the greatest; that of a pointer is without its two low bits. */
  lemma IntegerHashes(x: u32, q: u32, low: nat)
    requires low < 4
    ensures HashUint32(x) == (if x == 0xffff_ffff then 0 else x) && HashAtom(4 * q + low) == q
  {
  }

  /** Keys in which exactly one byte differs do not collide, whatever they are keys for. */
  lemma NoCollision(x: Bytes, y: Bytes, i: nat)
    requires |x| == |y| && i < |x| && x[i] != y[i] && forall k :: 0 <= k < |x| && k != i ==> x[k] == y[k]
    ensures |x| == 6 ==> HashMac(x) != HashMac(y)
    ensures |x| == 8 ==> HashDatapathId(x) != HashDatapathId(y)
    ensures 0 !in x && 0 !in y ==> HashString(x + [0]) != HashString(y + [0])
  {
    hide Fnv;
    OneByteMatters(OFFSET_BASIS, x, y, i);
    if 0 !in x && 0 !in y {
      CStringIs(x, []);
      CStringIs(y, []);
      assert x + [0] + [] == x + [0] && y + [0] + [] == y + [0];
    }
  }

  /** A string is what comes before its first zero. */
  lemma {:induction false} CStringIs(x: Bytes, rest: Bytes)
    requires 0 !in x
    ensures CString(x + [0] + rest) == x
  {
    if x == [] {
      assert x + [0] + rest == [0] + rest;
    } else {
      CStringIs(x[1..], rest);
      assert x[0] in x && forall b :: b in x[1..] ==> b in x;
      assert (x + [0] + rest)[1..] == x[1..] + [0] + rest;
    }
  }

  /** Strings compare by what comes before their first zero, everything else by all its bytes. */
  lemma Comparisons(order: Order, x: Bytes, y: Bytes, restX: Bytes, restY: Bytes)
    ensures 0 !in x && 0 !in y ==> (CompareString(x + [0] + restX, y + [0] + restY) <==> x == y)
    ensures |x| == |y| == 6 ==> (CompareMac(x, y) <==> x == y)
    ensures |x| == |y| == 8 ==> (CompareDatapathId(order, x, y) <==> x == y)
    ensures HashString([0x61, 0]) == 0xe40c_292c
  {
    if 0 !in x && 0 !in y {
      CStringIs(x, restX);
      CStringIs(y, restY);
    }
    if |x| == |y| == 8 && CompareDatapathId(order, x, y) {
      ValueInjective(order, x, y);
    }
    hide Fnv, Xor8;
    PublishedValues();
    CStringIs([0x61], []);
    assert [0x61] + [0] + [] == [0x61, 0];
  }

  /** Every pair is what the hash table demands: an equivalence, under which equal keys hash equal. */
  lemma KeysAreProper(order: Order)
    ensures KeyFunctions(CompareString, HashString) && KeyFunctions(CompareMac, HashMac)
    ensures KeyFunctions(CompareUint32, HashUint32) && KeyFunctions(CompareAtom, HashAtom)
    ensures KeyFunctions((x, y) => CompareDatapathId(order, x, y), HashDatapathId)
  {
    var compare := (x: DatapathId, y: DatapathId) => CompareDatapathId(order, x, y);
    forall x: DatapathId, y: DatapathId | Same(compare, x, y) ensures x == y {
      ValueInjective(order, x, y);
    }
  }
}
