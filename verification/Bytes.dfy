/** Bytes in memory: the host's byte order, 16- and 32-bit fields, and regions tiled by length-prefixed elements. */
module Bytes {
  type byte = b: int | 0 <= b < 0x100

  type Bytes = seq<byte>

  type u16 = v: int | 0 <= v < 0x1_0000

  type u32 = v: int | 0 <= v < 0x1_0000_0000

  type u64 = v: int | 0 <= v < 0x1_0000_0000_0000_0000

  const UINT_MAX := 0xffff_ffff
  const UINT_RANGE := 0x1_0000_0000

  /** The byte order of the machine the controller runs on; the network's is Big. */
  datatype Order = Little | Big

  function Join(high: byte, low: byte): u16 {
    high as int * 0x100 + low
  }

  /** The 16-bit value stored at offset o. */
  function Get16(order: Order, x: Bytes, o: nat): u16
    requires o + 2 <= |x|
  {
    match order
    case Big => Join(x[o], x[o + 1])
    case Little => Join(x[o + 1], x[o])
  }

  function Net16(x: Bytes, o: nat): u16
    requires o + 2 <= |x|
  {
    Get16(Big, x, o)
  }

  function Get32(order: Order, x: Bytes, o: nat): u32
    requires o + 4 <= |x|
  {
    match order
    case Big => Get16(Big, x, o) as int * 0x1_0000 + Get16(Big, x, o + 2)
    case Little => Get16(Little, x, o + 2) as int * 0x1_0000 + Get16(Little, x, o)
  }

  function Get64(order: Order, x: Bytes, o: nat): u64
    requires o + 8 <= |x|
  {
    match order
    case Big => Get32(Big, x, o) as int * UINT_RANGE + Get32(Big, x, o + 4)
    case Little => Get32(Little, x, o + 4) as int * UINT_RANGE + Get32(Little, x, o)
  }

  function Net32(x: Bytes, o: nat): u32
    requires o + 4 <= |x|
  {
    Get32(Big, x, o)
  }

  // ---------- arithmetic that wraps ----------

  /** ( uint16_t ) ( a + b ). */
  function Add16(a: u16, b: u16): (r: u16)
    ensures a as int + b < 0x1_0000 ==> r == a as int + b
  {
    (a as int + b) % 0x1_0000
  }

  /** ( uint16_t ) ( a - b ). */
  function Sub16(a: u16, b: u16): (r: u16)
    ensures b <= a ==> r == a - b
  {
    (a as int - b) % 0x1_0000
  }

  /** ( uint32_t ) ( a + b ). */
  function Add32(a: u32, b: u32): (r: u32)
    ensures a as int + b < 0x1_0000_0000 ==> r == a as int + b
  {
    (a as int + b) % 0x1_0000_0000
  }

  // ---------- regions ----------

  function Zeros(n: nat): (z: Bytes)
    ensures |z| == n
  {
    seq(n, _ => 0)
  }

  function Flatten(xs: seq<Bytes>): Bytes {
    if xs == [] then [] else xs[0] + Flatten(xs[1..])
  }

  lemma {:induction false} FlattenAppend(xs: seq<Bytes>, ys: seq<Bytes>)
    ensures Flatten(xs + ys) == Flatten(xs) + Flatten(ys)
  {
    if xs == [] {
      assert xs + ys == ys;
    } else {
      FlattenAppend(xs[1..], ys);
      assert (xs + ys)[1..] == xs[1..] + ys;
      Associative(xs[0], Flatten(xs[1..]), Flatten(ys));
    }
  }

  lemma Associative<A>(x: seq<A>, y: seq<A>, z: seq<A>)
    ensures x + y + z == x + (y + z)
  {
  }

  lemma FlattenUpTo(xs: seq<Bytes>, i: nat)
    requires i < |xs|
    ensures Flatten(xs[..i + 1]) == Flatten(xs[..i]) + xs[i]
  {
    FlattenAppend(xs[..i], [xs[i]]);
    assert xs[..i] + [xs[i]] == xs[..i + 1];
    assert Flatten([xs[i]]) == xs[i];
  }

  lemma FlattenFrom(xs: seq<Bytes>, i: nat)
    requires i < |xs|
    ensures Flatten(xs[i..]) == xs[i] + Flatten(xs[i + 1..])
  {
    assert xs[i..][1..] == xs[i + 1..];
  }

  lemma FlattenSplit(xs: seq<Bytes>, i: nat)
    requires i <= |xs|
    ensures Flatten(xs) == Flatten(xs[..i]) + Flatten(xs[i..])
  {
    FlattenAppend(xs[..i], xs[i..]);
    assert xs[..i] + xs[i..] == xs;
  }

  /** A kind of length-prefixed element: where its 16-bit length is, and the least length it may have. */
  datatype Kind = Kind(lengthAt: nat, least: nat)
  {
    predicate Is(order: Order, x: Bytes) {
      lengthAt + 2 <= least <= |x| && Get16(order, x, lengthAt) == |x|
    }
  }

  /**
   The list of elements tiles the region: one after another with no gap, each as long as its own length field says.
   */
  predicate Tiles(order: Order, kind: Kind, xs: seq<Bytes>, region: Bytes) {
    region == Flatten(xs) && forall i :: 0 <= i < |xs| ==> kind.Is(order, xs[i])
  }

  lemma TilesTail(order: Order, kind: Kind, xs: seq<Bytes>, region: Bytes)
    requires Tiles(order, kind, xs, region) && xs != []
    ensures |xs[0]| <= |region| && region[..|xs[0]|] == xs[0]
    ensures Tiles(order, kind, xs[1..], region[|xs[0]|..])
    ensures Get16(order, region, kind.lengthAt) == |xs[0]|
  {
    assert region == xs[0] + Flatten(xs[1..]);
  }

  /** The length fields alone determine the elements. */
  lemma {:induction false} TilingUnique(order: Order, kind: Kind, xs: seq<Bytes>, ys: seq<Bytes>, region: Bytes)
    requires Tiles(order, kind, xs, region) && Tiles(order, kind, ys, region)
    ensures xs == ys
  {
    if xs != [] {
      TilesTail(order, kind, xs, region);
    }
    if ys != [] {
      TilesTail(order, kind, ys, region);
    }
    if xs != [] && ys != [] {
      TilingUnique(order, kind, xs[1..], ys[1..], region[|xs[0]|..]);
      assert xs == [xs[0]] + xs[1..] && ys == [ys[0]] + ys[1..];
    }
  }
}
