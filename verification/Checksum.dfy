/** The Internet checksum of lib/cc_utility.c; sections 1 and 2 of RFC 1071. */
module Checksum {
  import opened Bytes

  /** The host-order words of the data; an odd last byte counts as itself. */
  function Words(order: Order, data: Bytes): seq<u16> {
    if |data| == 0 then []
    else if |data| == 1 then [data[0]]
    else [Get16(order, data, 0)] + Words(order, data[2..])
  }

  function Sum(words: seq<u16>): nat {
    if words == [] then 0 else words[0] + Sum(words[1..])
  }

  /** The ones' complement sum: the value congruent to sum modulo 65535 that is 0 only for 0. */
  function Residue(sum: nat): (r: u16)
    ensures r % 0xffff == sum % 0xffff && (r == 0 <==> sum == 0)
  {
    if sum == 0 then 0 else if sum % 0xffff == 0 then 0xffff else sum % 0xffff
  }

  function ChecksumOf(words: seq<u16>): u16 {
    0xffff - Residue(Sum(words))
  }

  /** There is only one such value. */
  lemma ResidueUnique(sum: nat, r: u16)
    requires r % 0xffff == sum % 0xffff && (r == 0 <==> sum == 0)
    ensures r == Residue(sum)
  {
  }

  lemma {:induction false} SumBound(words: seq<u16>)
    ensures Sum(words) <= 0xffff * |words|
  {
    if words != [] {
      SumBound(words[1..]);
    }
  }

  lemma {:induction false} WordCount(order: Order, data: Bytes)
    ensures |Words(order, data)| == (|data| + 1) / 2
  {
    if |data| >= 2 {
      WordCount(order, data[2..]);
    }
  }

  /** What the words are: two bytes each, and an odd last byte by itself. */
  lemma {:induction false} WordsAre(order: Order, data: Bytes)
    ensures |Words(order, data)| == (|data| + 1) / 2
    ensures forall i :: 0 <= i < |data| / 2 ==> Words(order, data)[i] == Get16(order, data, 2 * i)
    ensures |data| % 2 == 1 ==> Words(order, data)[|data| / 2] == data[|data| - 1]
  {
    hide Get16;
    WordCount(order, data);
    if |data| >= 2 {
      WordsAre(order, data[2..]);
      assert Words(order, data) == [Get16(order, data, 0)] + Words(order, data[2..]);
      forall i | 0 <= i < |data| / 2 ensures Words(order, data)[i] == Get16(order, data, 2 * i) {
        if i > 0 {
          Get16Later(order, data, 2 * (i - 1));
        }
      }
    }
  }

  lemma Get16Later(order: Order, data: Bytes, o: nat)
    requires o + 4 <= |data|
    ensures Get16(order, data[2..], o) == Get16(order, data, o + 2)
  {
  }

  /** The sum of words is that of their parts. */
  lemma {:induction false} SumAppend(a: seq<u16>, b: seq<u16>)
    ensures Sum(a + b) == Sum(a) + Sum(b) && Sum([]) == 0
    ensures forall w: u16 :: Sum([w]) == w
  {
    if a == [] {
      assert a + b == b;
    } else {
      SumAppend(a[1..], b);
      assert (a + b)[1..] == a[1..] + b;
    }
  }

  lemma FoldKeeps(c: nat)
    requires c > 0xffff
    ensures var d := c % 0x1_0000 + c / 0x1_0000; 0 < d < c && d % 0xffff == c % 0xffff
  {
    var q, l := c / 0x1_0000, c % 0x1_0000;
    assert c == 0xffff * q + (q + l);
    ModAdd(q + l, q);
  }

  lemma ModAdd(a: nat, q: nat)
    ensures (0xffff * q + a) % 0xffff == a % 0xffff
  {
  }

  /** The first loop; the accumulator has 32 bits. */
  method Accumulate(order: Order, data: Bytes) returns (csum: u32)
    ensures csum == Sum(Words(order, data)) % UINT_RANGE
  {
    hide Get16, Add32;
    csum := 0;
    var pos: nat, size: nat := 0, |data|;
    assert data[0..] == data;
    while 2 <= size
      invariant pos + size == |data|
      invariant (csum as int + Sum(Words(order, data[pos..]))) % UINT_RANGE == Sum(Words(order, data)) % UINT_RANGE
      decreases size
    {
      NextWord(order, data, pos);
      AddedModulo(csum, Get16(order, data, pos), Sum(Words(order, data[pos + 2..])));
      csum := Add32(csum, Get16(order, data, pos));
      pos, size := pos + 2, size - 2;
    }
    LastByte(order, data, pos);
    if size == 1 {
      AddedModulo(csum, data[pos], 0);
      csum := Add32(csum, data[pos]);
    }
  }

  lemma NextWord(order: Order, data: Bytes, pos: nat)
    requires pos + 2 <= |data|
    ensures Sum(Words(order, data[pos..])) == Get16(order, data, pos) as int + Sum(Words(order, data[pos + 2..]))
  {
    assert data[pos..][2..] == data[pos + 2..];
    assert Get16(order, data[pos..], 0) == Get16(order, data, pos);
  }

  lemma LastByte(order: Order, data: Bytes, pos: nat)
    requires pos <= |data| <= pos + 1
    ensures Sum(Words(order, data[pos..])) == if pos == |data| then 0 else data[pos]
  {
  }

  lemma AddedModulo(a: u32, b: u32, c: nat)
    ensures (Add32(a, b) as int + c) % UINT_RANGE == (a as int + (b as int + c)) % UINT_RANGE
  {
  }

  /**
   The complement of the ones' complement sum of what the accumulator keeps, after folding that at most twice. Up to
   131074 bytes it keeps the whole sum.
   */
  method GetChecksum(order: Order, data: Bytes) returns (r: u16, ghost folds: nat)
    ensures r == Computed(Sum(Words(order, data))) && folds <= 2
    ensures |data| <= 131074 ==> r == ChecksumOf(Words(order, data))
  {
    hide Residue, Sum, Words;
    SmallSums(order, data);
    var csum: u32 := Accumulate(order, data);
    folds := 0;
    ghost var sum := csum;
    while csum > 0xffff
      invariant csum % 0xffff == sum % 0xffff && (csum == 0 <==> sum == 0)
      invariant folds == 0 || (folds == 1 && csum <= 0x1fffe) || (folds == 2 && csum <= 0xffff)
      decreases csum
    {
      FoldKeeps(csum);
      csum := csum % 0x1_0000 + csum / 0x1_0000;
      folds := folds + 1;
    }
    ResidueUnique(sum, csum);
    r := 0xffff - csum;
  }

  lemma SmallSums(order: Order, data: Bytes)
    ensures |data| <= 131074 ==> Sum(Words(order, data)) < UINT_RANGE
  {
    WordCount(order, data);
    SumBound(Words(order, data));
  }

  // ---------- beyond 131074 bytes ----------

  /** What the 32-bit accumulator makes of a sum. */
  function Computed(sum: nat): u16 {
    0xffff - Residue(sum % UINT_RANGE)
  }

  /**
   Since 2^32 is 1 modulo 65535, what the accumulator loses is a multiple of 65535 exactly if it overflows a multiple of
   65535 times; and it must not lose everything.
   */
  lemma ComputedRight(sum: nat)
    ensures Computed(sum) == 0xffff - Residue(sum)
       <==> sum / UINT_RANGE % 0xffff == 0 && (sum % UINT_RANGE == 0 ==> sum == 0)
  {
    var q, l := sum / UINT_RANGE, sum % UINT_RANGE;
    assert sum == 0xffff * (0x1_0001 * q) + (q + l);
    ModAdd(q + l, 0x1_0001 * q);
    SameResidue(l, q);
    hide Residue;
    ResidueEqual(sum, l);
  }

  lemma ResidueEqual(a: nat, b: nat)
    ensures Residue(a) == Residue(b) <==> a % 0xffff == b % 0xffff && (a == 0 <==> b == 0)
  {
  }

  lemma SameResidue(l: nat, q: nat)
    ensures (q + l) % 0xffff == l % 0xffff <==> q % 0xffff == 0
  {
  }

  /** The last data whose sum fits, extended: 131074 bytes of ones, one more, and zeros. */
  function Overflowing(n: nat): (data: Bytes)
    requires n >= 131075
    ensures |data| == n
  {
    Ones(65537) + ([0xff] + Zeros(n - 131075))
  }

  /** n words of ones. */
  function Ones(n: nat): (data: Bytes)
    ensures |data| == 2 * n
  {
    if n == 0 then [] else [0xff, 0xff] + Ones(n - 1)
  }

  lemma OnesMore(order: Order, n: nat, rest: Bytes)
    requires n > 0
    ensures var data := Ones(n) + rest; data[2..] == Ones(n - 1) + rest && Get16(order, data, 0) == 0xffff
  {
    assert Ones(n) == [0xff, 0xff] + Ones(n - 1);
  }

  lemma {:induction false} OnesSum(order: Order, n: nat, rest: Bytes)
    ensures Sum(Words(order, Ones(n) + rest)) == 0xffff * n + Sum(Words(order, rest))
  {
    hide Ones, Get16;
    if n == 0 {
      NoOnes();
      assert Ones(0) + rest == rest;
    } else {
      OnesSum(order, n - 1, rest);
      OnesMore(order, n, rest);
    }
  }

  lemma NoOnes()
    ensures Ones(0) == []
  {
  }

  lemma {:induction false} ZerosSum(order: Order, n: nat)
    ensures Sum(Words(order, Zeros(n))) == 0
  {
    if n >= 2 {
      ZerosSum(order, n - 2);
      assert Zeros(n)[2..] == Zeros(n - 2);
    }
  }

  lemma OverflowingSum(order: Order, n: nat)
    requires n >= 131075
    ensures UINT_RANGE <= Sum(Words(order, Overflowing(n))) < 2 * UINT_RANGE
  {
    var rest := [0xff] + Zeros(n - 131075);
    if n > 131075 {
      ZerosSum(order, n - 131076);
      assert rest[2..] == Zeros(n - 131076);
    }
    assert 0 < Sum(Words(order, rest)) <= 0xffff;
    OnesSum(order, 65537, rest);
  }

  /** The sum of all data of a length fits the accumulator, and all checksums are right, exactly up to 131074 bytes. */
  lemma RightUpTo(order: Order, n: nat)
    ensures n <= 131074 <==> forall data: Bytes :: |data| == n ==> Sum(Words(order, data)) < UINT_RANGE
    ensures n <= 131074
       <==> forall data: Bytes :: |data| == n ==> Computed(Sum(Words(order, data))) == ChecksumOf(Words(order, data))
  {
    hide Words, Sum, Overflowing;
    forall data: Bytes | |data| == n
      ensures n <= 131074 ==> Sum(Words(order, data)) < UINT_RANGE
      ensures n <= 131074 ==> Computed(Sum(Words(order, data))) == ChecksumOf(Words(order, data))
    {
      SmallSums(order, data);
    }
    if n >= 131075 {
      OverflowingSum(order, n);
      ComputedRight(Sum(Words(order, Overflowing(n))));
      assert Computed(Sum(Words(order, Overflowing(n)))) != ChecksumOf(Words(order, Overflowing(n)));
    }
  }

  // ---------- what the checksum is for ----------

  lemma {:induction false} SumUpdate(words: seq<u16>, i: nat, v: u16)
    requires i < |words|
    ensures Sum(words[i := v]) == Sum(words) - words[i] + v
  {
    if i > 0 {
      SumUpdate(words[1..], i - 1, v);
      assert words[i := v][1..] == words[1..][i - 1 := v];
    } else {
      assert words[0 := v][1..] == words[1..];
    }
  }

  /** Writing the checksum into a slot that held zero makes the checksum of the whole zero. */
  lemma ChecksumVerifies(words: seq<u16>, i: nat)
    requires i < |words| && words[i] == 0
    ensures ChecksumOf(words[i := ChecksumOf(words)]) == 0
  {
    SumUpdate(words, i, ChecksumOf(words));
    var s := Sum(words);
    var t := s + 0xffff - Residue(s);
    assert t % 0xffff == 0 by {
      Divides(s, Residue(s));
    }
    ResidueUnique(t, 0xffff);
  }

  lemma Divides(s: nat, r: u16)
    requires r % 0xffff == s % 0xffff
    ensures (s + 0xffff - r) % 0xffff == 0
  {
  }

  /** The data with a host-order word stored at at. */
  function Store16(order: Order, data: Bytes, at: nat, v: u16): (r: Bytes)
    requires at + 2 <= |data|
    ensures |r| == |data| && Get16(order, r, at) == v
  {
    match order
    case Big => data[at := v / 0x100][at + 1 := v % 0x100]
    case Little => data[at := v % 0x100][at + 1 := v / 0x100]
  }

  lemma StoreTail(order: Order, data: Bytes, at: nat, v: u16)
    requires at + 4 <= |data|
    ensures Store16(order, data, at + 2, v)[2..] == Store16(order, data[2..], at, v)
    ensures Get16(order, Store16(order, data, at + 2, v), 0) == Get16(order, data, 0)
    ensures Get16(order, data[2..], at) == Get16(order, data, at + 2)
  {
  }

  lemma StoreHead(order: Order, data: Bytes, v: u16)
    requires 2 <= |data|
    ensures Store16(order, data, 0, v)[2..] == data[2..]
  {
  }

  lemma WordsFrom(order: Order, data: Bytes)
    requires |data| >= 2
    ensures Words(order, data) == [Get16(order, data, 0)] + Words(order, data[2..])
  {
  }

  lemma {:induction false} StoredWord(order: Order, data: Bytes, i: nat, v: u16)
    requires 2 * i + 2 <= |data|
    ensures i < |Words(order, data)| && Words(order, data)[i] == Get16(order, data, 2 * i)
    ensures Words(order, Store16(order, data, 2 * i, v)) == Words(order, data)[i := v]
    decreases i
  {
    hide Get16, Store16, Words;
    WordsFrom(order, data);
    WordsFrom(order, Store16(order, data, 2 * i, v));
    if i == 0 {
      StoreHead(order, data, v);
    } else {
      StoredWord(order, data[2..], i - 1, v);
      StoreTail(order, data, 2 * (i - 1), v);
    }
  }

  /** The same in memory, for a slot at an even offset. */
  lemma StoredChecksumVerifies(order: Order, data: Bytes, i: nat)
    requires 2 * i + 2 <= |data| && Get16(order, data, 2 * i) == 0
    ensures ChecksumOf(Words(order, Store16(order, data, 2 * i, ChecksumOf(Words(order, data))))) == 0
  {
    StoredWord(order, data, i, ChecksumOf(Words(order, data)));
    ChecksumVerifies(Words(order, data), i);
  }

  lemma RemoveLater(words: seq<u16>, i: nat)
    requires 0 < i < |words|
    ensures words[..i] + words[i + 1..] == [words[0]] + (words[1..][..i - 1] + words[1..][i..])
  {
  }

  lemma {:induction false} SumRemove(words: seq<u16>, i: nat)
    requires i < |words|
    ensures Sum(words) == words[i] as int + Sum(words[..i] + words[i + 1..])
  {
    if i > 0 {
      SumRemove(words[1..], i - 1);
      RemoveLater(words, i);
      SumOfCons(words[0], words[1..][..i - 1] + words[1..][i..]);
    } else {
      assert words[..0] + words[1..] == words[1..];
    }
  }

  lemma SumOfCons(w: u16, words: seq<u16>)
    ensures Sum([w] + words) == w as int + Sum(words)
  {
  }

  lemma Removed(words: seq<u16>, i: nat)
    requires i < |words|
    ensures multiset(words[..i] + words[i + 1..]) == multiset(words) - multiset{words[i]}
  {
    assert words == words[..i] + [words[i]] + words[i + 1..];
  }

  lemma FirstRemoved(a: seq<u16>, b: seq<u16>, i: nat)
    requires multiset(a) == multiset(b) && a != [] && i < |b| && b[i] == a[0]
    ensures multiset(a[1..]) == multiset(b[..i] + b[i + 1..])
  {
    Removed(a, 0);
    Removed(b, i);
    assert a[..0] + a[1..] == a[1..];
  }

  lemma Occurs(words: seq<u16>, w: u16) returns (i: nat)
    requires w in multiset(words)
    ensures i < |words| && words[i] == w
  {
    i :| 0 <= i < |words| && words[i] == w;
  }

  lemma {:induction false} SumPermutation(a: seq<u16>, b: seq<u16>)
    requires multiset(a) == multiset(b)
    ensures Sum(a) == Sum(b)
    decreases |a|
  {
    if a == [] {
      assert |b| == |multiset(b)|;
    } else {
      assert a[0] in multiset(a);
      var i := Occurs(b, a[0]);
      FirstRemoved(a, b, i);
      SumRemove(b, i);
      SumPermutation(a[1..], b[..i] + b[i + 1..]);
    }
  }

  /** The order of the words does not matter. */
  lemma ChecksumPermutes(a: seq<u16>, b: seq<u16>)
    requires multiset(a) == multiset(b)
    ensures ChecksumOf(a) == ChecksumOf(b)
  {
    SumPermutation(a, b);
  }

  function SwapBytes(w: u16): u16 {
    w % 0x100 * 0x100 + w / 0x100
  }

  function SwapAll(words: seq<u16>): seq<u16> {
    if words == [] then [] else [SwapBytes(words[0])] + SwapAll(words[1..])
  }

  lemma SwapIsTimes256(w: u16)
    ensures SwapBytes(w) == w as int * 0x100 - 0xffff * (w as int / 0x100)
  {
  }

  lemma {:induction false} SwappedSum(words: seq<u16>)
    ensures exists k: nat :: Sum(SwapAll(words)) == Sum(words) * 0x100 - 0xffff * k
    ensures Sum(SwapAll(words)) == 0 <==> Sum(words) == 0
  {
    if words == [] {
      assert Sum(SwapAll(words)) == Sum(words) * 0x100 - 0xffff * 0;
    } else {
      SwappedSum(words[1..]);
      SwapIsTimes256(words[0]);
      var k: nat :| Sum(SwapAll(words[1..])) == Sum(words[1..]) * 0x100 - 0xffff * k;
      var q: nat := words[0] as int / 0x100;
      assert SwapAll(words)[1..] == SwapAll(words[1..]);
      assert Sum(SwapAll(words)) == Sum(words) * 0x100 - 0xffff * (k + q);
    }
  }

  lemma ModSub(a: nat, k: nat)
    requires a >= 0xffff * k
    ensures (a - 0xffff * k) % 0xffff == a % 0xffff
  {
    ModAdd(a - 0xffff * k, k);
  }

  lemma ModTimes(a: nat, b: nat)
    requires a % 0xffff == b % 0xffff
    ensures a * 0x100 % 0xffff == b * 0x100 % 0xffff
  {
    var p, q, r := a / 0xffff, b / 0xffff, a % 0xffff;
    assert a * 0x100 == 0xffff * (p * 0x100) + r * 0x100 && b * 0x100 == 0xffff * (q * 0x100) + r * 0x100;
    ModAdd(r * 0x100, p * 0x100);
    ModAdd(r * 0x100, q * 0x100);
  }

  lemma SwappedMod(s: nat, t: nat, k: nat, r: u16)
    requires t == s * 0x100 - 0xffff * k && r % 0xffff == s % 0xffff
    ensures SwapBytes(r) % 0xffff == t % 0xffff
  {
    ModSub(s * 0x100, k);
    ModTimes(s, r);
    SwapIsTimes256(r);
    hide SwapBytes;
    ModSub(r as int * 0x100, r as int / 0x100);
  }

  lemma SwapZero(r: u16)
    ensures SwapBytes(r) == 0 <==> r == 0
  {
  }

  lemma SwapComplement(r: u16)
    ensures SwapBytes(0xffff - r) == 0xffff - SwapBytes(r)
  {
  }

  /** Byte order does not matter: swapping the bytes of every word swaps the bytes of the checksum. */
  lemma ChecksumSwaps(words: seq<u16>)
    ensures ChecksumOf(SwapAll(words)) == SwapBytes(ChecksumOf(words))
  {
    hide Residue, SwapBytes, SwapAll, Sum;
    var s, t, r := Sum(words), Sum(SwapAll(words)), Residue(Sum(words));
    SwappedSum(words);
    var k: nat :| t == s * 0x100 - 0xffff * k;
    SwappedMod(s, t, k, r);
    SwapZero(r);
    ResidueUnique(t, SwapBytes(r));
    SwapComplement(r);
  }

  lemma WordSwaps(data: Bytes)
    requires |data| >= 2
    ensures Get16(Big, data, 0) == SwapBytes(Get16(Little, data, 0))
  {
  }

  /** The words of the data in the one byte order are those in the other with their bytes swapped. */
  lemma {:induction false} WordsSwap(data: Bytes)
    requires |data| % 2 == 0
    ensures Words(Big, data) == SwapAll(Words(Little, data))
  {
    if data != [] {
      WordsSwap(data[2..]);
      WordSwaps(data);
      hide Get16, SwapBytes;
      assert Words(Little, data)[1..] == Words(Little, data[2..]);
    }
  }
}
