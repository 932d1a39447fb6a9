/**
 What the fields of every structure of include/openflow.h are after a conversion: field by field, by offset and width,
 as the OpenFlow Switch Specification 1.0.0 lays them out (sections 5.2.2 to 5.2.4 and 5.3.5).
 */
module FieldLaws {
  import opened Bytes
  import opened OpenFlow
  import opened ByteOrder

  // ---------- fields in general ----------

  lemma Kept16(order: Order, from: Order, to: Order, s: Struct, x: Bytes, o: nat)
    requires Between(order, from, to) && |x| == Width(s) && o + 2 <= |x|
    requires forall k :: o <= k < o + 2 ==> From(s, k) == Mirror(o, 2, k)
    ensures Get16(to, Conv(order, s, x), o) == Get16(from, x, o)
  {
    hide Conv, From, Get16;
    Converted16(order, s, x, o);
  }

  lemma Kept32(order: Order, from: Order, to: Order, s: Struct, x: Bytes, o: nat)
    requires Between(order, from, to) && |x| == Width(s) && o + 4 <= |x|
    requires forall k :: o <= k < o + 4 ==> From(s, k) == Mirror(o, 4, k)
    ensures Get32(to, Conv(order, s, x), o) == Get32(from, x, o)
  {
    hide Conv, From, Get32;
    Converted32(order, s, x, o);
  }

  lemma Kept64(order: Order, from: Order, to: Order, s: Struct, x: Bytes, o: nat)
    requires Between(order, from, to) && |x| == Width(s) && o + 8 <= |x|
    requires forall k :: o <= k < o + 8 ==> From(s, k) == Mirror(o, 8, k)
    ensures Get64(to, Conv(order, s, x), o) == Get64(from, x, o)
  {
    hide Conv, From;
    forall k: nat | o <= k < o + 8
      ensures Conv(order, s, x)[k] == if order.Big? then x[k] else x[Mirror(o, 8, k)]
    {
      ConvAt(order, s, x, k);
    }
    Mirrored64(order, from, to, x, Conv(order, s, x), o);
  }

  lemma Mirrored64(order: Order, from: Order, to: Order, x: Bytes, y: Bytes, o: nat)
    requires Between(order, from, to) && o + 8 <= |x| == |y|
    requires forall k: nat :: o <= k < o + 8 ==> y[k] == if order.Big? then x[k] else x[Mirror(o, 8, k)]
    ensures Get64(to, y, o) == Get64(from, x, o)
  {
    if order.Little? {
      assert y[o] == x[o + 7] && y[o + 1] == x[o + 6] && y[o + 2] == x[o + 5] && y[o + 3] == x[o + 4];
      assert y[o + 4] == x[o + 3] && y[o + 5] == x[o + 2] && y[o + 6] == x[o + 1] && y[o + 7] == x[o];
    } else {
      assert y[o] == x[o] && y[o + 1] == x[o + 1] && y[o + 2] == x[o + 2] && y[o + 3] == x[o + 3];
      assert y[o + 4] == x[o + 4] && y[o + 5] == x[o + 5] && y[o + 6] == x[o + 6] && y[o + 7] == x[o + 7];
    }
  }

  /** Bytes that are copied, such as addresses. */
  lemma KeptBytes(order: Order, s: Struct, x: Bytes, o: nat, n: nat)
    requires |x| == Width(s) && o + n <= |x| && forall k :: o <= k < o + n ==> From(s, k) == k
    ensures forall k :: o <= k < o + n ==> Conv(order, s, x)[k] == x[k]
  {
    hide Conv, From;
    forall k: nat | o <= k < o + n ensures Conv(order, s, x)[k] == x[k] {
      ConvAt(order, s, x, k);
    }
  }

  lemma ZeroBytes(order: Order, s: Struct, x: Bytes, o: nat, n: nat)
    requires |x| == Width(s) && o + n <= |x| && forall k :: o <= k < o + n ==> From(s, k) < 0
    ensures forall k :: o <= k < o + n ==> Conv(order, s, x)[k] == 0
  {
  }

  // ---------- the match ----------

  lemma MatchLayout(s: Struct)
    requires s.Match?
    ensures Width(s) == 40
    ensures forall k :: 0 <= k < 4 ==> From(s, k) == Mirror(0, 4, k)
    ensures forall k :: 4 <= k < 6 ==> From(s, k) == Mirror(4, 2, k)
    ensures forall k :: 6 <= k < 18 ==> From(s, k) == k
    ensures forall k :: 18 <= k < 20 ==> From(s, k) == Mirror(18, 2, k)
    ensures From(s, 20) == 20
    ensures From(s, 21) < 0
    ensures forall k :: 22 <= k < 24 ==> From(s, k) == Mirror(22, 2, k)
    ensures forall k :: 24 <= k < 26 ==> From(s, k) == k
    ensures forall k :: 26 <= k < 28 ==> From(s, k) < 0
    ensures forall k :: 28 <= k < 32 ==> From(s, k) == Mirror(28, 4, k)
    ensures forall k :: 32 <= k < 36 ==> From(s, k) == Mirror(32, 4, k)
    ensures forall k :: 36 <= k < 38 ==> From(s, k) == Mirror(36, 2, k)
    ensures forall k :: 38 <= k < 40 ==> From(s, k) == Mirror(38, 2, k)
  {
  }

  /** Every field of a match, with the addresses byte by byte, and zero padding. */
  lemma MatchKept(order: Order, from: Order, to: Order, s: Struct, x: Bytes, y: Bytes)
    requires Between(order, from, to) && s.Match? && |x| == Width(s) && y == Conv(order, s, x)
    ensures |x| == |y| == 40
    ensures forall o :: o == 4 || o == 18 || o == 22 || o == 36 || o == 38 ==> Get16(to, y, o) == Get16(from, x, o)
    ensures forall o :: o == 0 || o == 28 || o == 32 ==> Get32(to, y, o) == Get32(from, x, o)
    ensures forall k :: 6 <= k < 18 || k == 20 || 24 <= k < 26 ==> y[k] == x[k]
    ensures forall k :: k == 21 || 26 <= k < 28 ==> y[k] == 0
  {
    hide Conv, From, Width, Get16, Get32, Get64;
    MatchLayout(s);
    Kept32(order, from, to, s, x, 0);
    Kept16(order, from, to, s, x, 4);
    KeptBytes(order, s, x, 6, 12);
    Kept16(order, from, to, s, x, 18);
    KeptBytes(order, s, x, 20, 1);
    ZeroBytes(order, s, x, 21, 1);
    Kept16(order, from, to, s, x, 22);
    KeptBytes(order, s, x, 24, 2);
    ZeroBytes(order, s, x, 26, 2);
    Kept32(order, from, to, s, x, 28);
    Kept32(order, from, to, s, x, 32);
    Kept16(order, from, to, s, x, 36);
    Kept16(order, from, to, s, x, 38);
  }

  /** A match in one byte order has the fields of another in its own. */
  ghost predicate SameMatch(from: Order, x: Bytes, to: Order, y: Bytes) {
    && |x| == |y| == 40
    && (forall o :: o == 4 || o == 18 || o == 22 || o == 36 || o == 38 ==> Get16(to, y, o) == Get16(from, x, o))
    && (forall o :: o == 0 || o == 28 || o == 32 ==> Get32(to, y, o) == Get32(from, x, o))
    && (forall k :: 6 <= k < 18 || k == 20 || 24 <= k < 26 ==> y[k] == x[k])
    && (forall k :: k == 21 || 26 <= k < 28 ==> y[k] == 0)
  }

  // ---------- actions ----------

  lemma OutputLayout(s: Struct)
    requires s.Output?
    ensures Width(s) == 8
    ensures forall k :: 0 <= k < 2 ==> From(s, k) == Mirror(0, 2, k)
    ensures forall k :: 2 <= k < 4 ==> From(s, k) == Mirror(2, 2, k)
    ensures forall k :: 4 <= k < 6 ==> From(s, k) == Mirror(4, 2, k)
    ensures forall k :: 6 <= k < 8 ==> From(s, k) == Mirror(6, 2, k)
  {
  }

  /** port and max_len */
  lemma OutputKept(order: Order, from: Order, to: Order, s: Struct, x: Bytes, y: Bytes)
    requires Between(order, from, to) && s.Output? && |x| == Width(s) && y == Conv(order, s, x)
    ensures |x| == |y| == 8
    ensures forall o :: o == 0 || o == 2 || o == 4 || o == 6 ==> Get16(to, y, o) == Get16(from, x, o)
  {
    hide Conv, From, Width, Get16, Get32, Get64;
    OutputLayout(s);
    Kept16(order, from, to, s, x, 0);
    Kept16(order, from, to, s, x, 2);
    Kept16(order, from, to, s, x, 4);
    Kept16(order, from, to, s, x, 6);
  }

  lemma VlanVidLayout(s: Struct)
    requires s.VlanVid?
    ensures Width(s) == 8
    ensures forall k :: 0 <= k < 2 ==> From(s, k) == Mirror(0, 2, k)
    ensures forall k :: 2 <= k < 4 ==> From(s, k) == Mirror(2, 2, k)
    ensures forall k :: 4 <= k < 6 ==> From(s, k) == Mirror(4, 2, k)
    ensures forall k :: 6 <= k < 8 ==> From(s, k) < 0
  {
  }

  /** vlan_vid */
  lemma VlanVidKept(order: Order, from: Order, to: Order, s: Struct, x: Bytes, y: Bytes)
    requires Between(order, from, to) && s.VlanVid? && |x| == Width(s) && y == Conv(order, s, x)
    ensures |x| == |y| == 8
    ensures forall o :: o == 0 || o == 2 || o == 4 ==> Get16(to, y, o) == Get16(from, x, o)
    ensures forall k :: 6 <= k < 8 ==> y[k] == 0
  {
    hide Conv, From, Width, Get16, Get32, Get64;
    VlanVidLayout(s);
    Kept16(order, from, to, s, x, 0);
    Kept16(order, from, to, s, x, 2);
    Kept16(order, from, to, s, x, 4);
    ZeroBytes(order, s, x, 6, 2);
  }

  lemma VlanPcpLayout(s: Struct)
    requires s.VlanPcp?
    ensures Width(s) == 8
    ensures forall k :: 0 <= k < 2 ==> From(s, k) == Mirror(0, 2, k)
    ensures forall k :: 2 <= k < 4 ==> From(s, k) == Mirror(2, 2, k)
    ensures From(s, 4) == 4
    ensures forall k :: 5 <= k < 8 ==> From(s, k) < 0
  {
  }

  /** vlan_pcp */
  lemma VlanPcpKept(order: Order, from: Order, to: Order, s: Struct, x: Bytes, y: Bytes)
    requires Between(order, from, to) && s.VlanPcp? && |x| == Width(s) && y == Conv(order, s, x)
    ensures |x| == |y| == 8
    ensures forall o :: o == 0 || o == 2 ==> Get16(to, y, o) == Get16(from, x, o)
    ensures forall k :: k == 4 ==> y[k] == x[k]
    ensures forall k :: 5 <= k < 8 ==> y[k] == 0
  {
    hide Conv, From, Width, Get16, Get32, Get64;
    VlanPcpLayout(s);
    Kept16(order, from, to, s, x, 0);
    Kept16(order, from, to, s, x, 2);
    KeptBytes(order, s, x, 4, 1);
    ZeroBytes(order, s, x, 5, 3);
  }

  lemma StripVlanLayout(s: Struct)
    requires s.StripVlan?
    ensures Width(s) == 8
    ensures forall k :: 0 <= k < 2 ==> From(s, k) == Mirror(0, 2, k)
    ensures forall k :: 2 <= k < 4 ==> From(s, k) == Mirror(2, 2, k)
    ensures forall k :: 4 <= k < 8 ==> From(s, k) < 0
  {
  }

  /** nothing but its header */
  lemma StripVlanKept(order: Order, from: Order, to: Order, s: Struct, x: Bytes, y: Bytes)
    requires Between(order, from, to) && s.StripVlan? && |x| == Width(s) && y == Conv(order, s, x)
    ensures |x| == |y| == 8
    ensures forall o :: o == 0 || o == 2 ==> Get16(to, y, o) == Get16(from, x, o)
    ensures forall k :: 4 <= k < 8 ==> y[k] == 0
  {
    hide Conv, From, Width, Get16, Get32, Get64;
    StripVlanLayout(s);
    Kept16(order, from, to, s, x, 0);
    Kept16(order, from, to, s, x, 2);
    ZeroBytes(order, s, x, 4, 4);
  }

  lemma DlAddrLayout(s: Struct)
    requires s.DlAddr?
    ensures Width(s) == 16
    ensures forall k :: 0 <= k < 2 ==> From(s, k) == Mirror(0, 2, k)
    ensures forall k :: 2 <= k < 4 ==> From(s, k) == Mirror(2, 2, k)
    ensures forall k :: 4 <= k < 10 ==> From(s, k) == k
    ensures forall k :: 10 <= k < 16 ==> From(s, k) < 0
  {
  }

  /** dl_addr */
  lemma DlAddrKept(order: Order, from: Order, to: Order, s: Struct, x: Bytes, y: Bytes)
    requires Between(order, from, to) && s.DlAddr? && |x| == Width(s) && y == Conv(order, s, x)
    ensures |x| == |y| == 16
    ensures forall o :: o == 0 || o == 2 ==> Get16(to, y, o) == Get16(from, x, o)
    ensures forall k :: 4 <= k < 10 ==> y[k] == x[k]
    ensures forall k :: 10 <= k < 16 ==> y[k] == 0
  {
    hide Conv, From, Width, Get16, Get32, Get64;
    DlAddrLayout(s);
    Kept16(order, from, to, s, x, 0);
    Kept16(order, from, to, s, x, 2);
    KeptBytes(order, s, x, 4, 6);
    ZeroBytes(order, s, x, 10, 6);
  }

  lemma NwAddrLayout(s: Struct)
    requires s.NwAddr?
    ensures Width(s) == 8
    ensures forall k :: 0 <= k < 2 ==> From(s, k) == Mirror(0, 2, k)
    ensures forall k :: 2 <= k < 4 ==> From(s, k) == Mirror(2, 2, k)
    ensures forall k :: 4 <= k < 8 ==> From(s, k) == Mirror(4, 4, k)
  {
  }

  /** nw_addr */
  lemma NwAddrKept(order: Order, from: Order, to: Order, s: Struct, x: Bytes, y: Bytes)
    requires Between(order, from, to) && s.NwAddr? && |x| == Width(s) && y == Conv(order, s, x)
    ensures |x| == |y| == 8
    ensures forall o :: o == 0 || o == 2 ==> Get16(to, y, o) == Get16(from, x, o)
    ensures forall o :: o == 4 ==> Get32(to, y, o) == Get32(from, x, o)
  {
    hide Conv, From, Width, Get16, Get32, Get64;
    NwAddrLayout(s);
    Kept16(order, from, to, s, x, 0);
    Kept16(order, from, to, s, x, 2);
    Kept32(order, from, to, s, x, 4);
  }

  lemma NwTosLayout(s: Struct)
    requires s.NwTos?
    ensures Width(s) == 8
    ensures forall k :: 0 <= k < 2 ==> From(s, k) == Mirror(0, 2, k)
    ensures forall k :: 2 <= k < 4 ==> From(s, k) == Mirror(2, 2, k)
    ensures From(s, 4) == 4
    ensures forall k :: 5 <= k < 8 ==> From(s, k) < 0
  {
  }

  /** nw_tos */
  lemma NwTosKept(order: Order, from: Order, to: Order, s: Struct, x: Bytes, y: Bytes)
    requires Between(order, from, to) && s.NwTos? && |x| == Width(s) && y == Conv(order, s, x)
    ensures |x| == |y| == 8
    ensures forall o :: o == 0 || o == 2 ==> Get16(to, y, o) == Get16(from, x, o)
    ensures forall k :: k == 4 ==> y[k] == x[k]
    ensures forall k :: 5 <= k < 8 ==> y[k] == 0
  {
    hide Conv, From, Width, Get16, Get32, Get64;
    NwTosLayout(s);
    Kept16(order, from, to, s, x, 0);
    Kept16(order, from, to, s, x, 2);
    KeptBytes(order, s, x, 4, 1);
    ZeroBytes(order, s, x, 5, 3);
  }

  lemma TpPortLayout(s: Struct)
    requires s.TpPort?
    ensures Width(s) == 8
    ensures forall k :: 0 <= k < 2 ==> From(s, k) == Mirror(0, 2, k)
    ensures forall k :: 2 <= k < 4 ==> From(s, k) == Mirror(2, 2, k)
    ensures forall k :: 4 <= k < 6 ==> From(s, k) == Mirror(4, 2, k)
    ensures forall k :: 6 <= k < 8 ==> From(s, k) < 0
  {
  }

  /** tp_port */
  lemma TpPortKept(order: Order, from: Order, to: Order, s: Struct, x: Bytes, y: Bytes)
    requires Between(order, from, to) && s.TpPort? && |x| == Width(s) && y == Conv(order, s, x)
    ensures |x| == |y| == 8
    ensures forall o :: o == 0 || o == 2 || o == 4 ==> Get16(to, y, o) == Get16(from, x, o)
    ensures forall k :: 6 <= k < 8 ==> y[k] == 0
  {
    hide Conv, From, Width, Get16, Get32, Get64;
    TpPortLayout(s);
    Kept16(order, from, to, s, x, 0);
    Kept16(order, from, to, s, x, 2);
    Kept16(order, from, to, s, x, 4);
    ZeroBytes(order, s, x, 6, 2);
  }

  lemma EnqueueLayout(s: Struct)
    requires s.Enqueue?
    ensures Width(s) == 16
    ensures forall k :: 0 <= k < 2 ==> From(s, k) == Mirror(0, 2, k)
    ensures forall k :: 2 <= k < 4 ==> From(s, k) == Mirror(2, 2, k)
    ensures forall k :: 4 <= k < 6 ==> From(s, k) == Mirror(4, 2, k)
    ensures forall k :: 6 <= k < 12 ==> From(s, k) < 0
    ensures forall k :: 12 <= k < 16 ==> From(s, k) == Mirror(12, 4, k)
  {
  }

  /** port and queue_id */
  lemma EnqueueKept(order: Order, from: Order, to: Order, s: Struct, x: Bytes, y: Bytes)
    requires Between(order, from, to) && s.Enqueue? && |x| == Width(s) && y == Conv(order, s, x)
    ensures |x| == |y| == 16
    ensures forall o :: o == 0 || o == 2 || o == 4 ==> Get16(to, y, o) == Get16(from, x, o)
    ensures forall o :: o == 12 ==> Get32(to, y, o) == Get32(from, x, o)
    ensures forall k :: 6 <= k < 12 ==> y[k] == 0
  {
    hide Conv, From, Width, Get16, Get32, Get64;
    EnqueueLayout(s);
    Kept16(order, from, to, s, x, 0);
    Kept16(order, from, to, s, x, 2);
    Kept16(order, from, to, s, x, 4);
    ZeroBytes(order, s, x, 6, 6);
    Kept32(order, from, to, s, x, 12);
  }

  lemma VendorHeaderLayout(s: Struct)
    requires s.VendorHeader?
    ensures Width(s) == 8
    ensures forall k :: 0 <= k < 2 ==> From(s, k) == Mirror(0, 2, k)
    ensures forall k :: 2 <= k < 4 ==> From(s, k) == Mirror(2, 2, k)
    ensures forall k :: 4 <= k < 8 ==> From(s, k) == Mirror(4, 4, k)
  {
  }

  /** vendor */
  lemma VendorHeaderKept(order: Order, from: Order, to: Order, s: Struct, x: Bytes, y: Bytes)
    requires Between(order, from, to) && s.VendorHeader? && |x| == Width(s) && y == Conv(order, s, x)
    ensures |x| == |y| == 8
    ensures forall o :: o == 0 || o == 2 ==> Get16(to, y, o) == Get16(from, x, o)
    ensures forall o :: o == 4 ==> Get32(to, y, o) == Get32(from, x, o)
  {
    hide Conv, From, Width, Get16, Get32, Get64;
    VendorHeaderLayout(s);
    Kept16(order, from, to, s, x, 0);
    Kept16(order, from, to, s, x, 2);
    Kept32(order, from, to, s, x, 4);
  }

  // ---------- flow records ----------

  lemma FlowStatsHeadLayout(s: Struct)
    requires s.FlowStatsHead?
    ensures Width(s) == 88
    ensures forall k :: 0 <= k < 2 ==> From(s, k) == Mirror(0, 2, k)
    ensures From(s, 2) == 2
    ensures From(s, 3) < 0
    ensures forall k :: 4 <= k < 8 ==> From(s, k) == Mirror(4, 4, k)
    ensures forall k :: 8 <= k < 10 ==> From(s, k) == Mirror(8, 2, k)
    ensures forall k :: 10 <= k < 22 ==> From(s, k) == k
    ensures forall k :: 22 <= k < 24 ==> From(s, k) == Mirror(22, 2, k)
    ensures From(s, 24) == 24
    ensures From(s, 25) < 0
    ensures forall k :: 26 <= k < 28 ==> From(s, k) == Mirror(26, 2, k)
    ensures forall k :: 28 <= k < 30 ==> From(s, k) == k
    ensures forall k :: 30 <= k < 32 ==> From(s, k) < 0
    ensures forall k :: 32 <= k < 36 ==> From(s, k) == Mirror(32, 4, k)
    ensures forall k :: 36 <= k < 40 ==> From(s, k) == Mirror(36, 4, k)
    ensures forall k :: 40 <= k < 42 ==> From(s, k) == Mirror(40, 2, k)
    ensures forall k :: 42 <= k < 44 ==> From(s, k) == Mirror(42, 2, k)
    ensures forall k :: 44 <= k < 48 ==> From(s, k) == Mirror(44, 4, k)
    ensures forall k :: 48 <= k < 52 ==> From(s, k) == Mirror(48, 4, k)
    ensures forall k :: 52 <= k < 54 ==> From(s, k) == Mirror(52, 2, k)
    ensures forall k :: 54 <= k < 56 ==> From(s, k) == Mirror(54, 2, k)
    ensures forall k :: 56 <= k < 58 ==> From(s, k) == Mirror(56, 2, k)
    ensures forall k :: 58 <= k < 64 ==> From(s, k) < 0
    ensures forall k :: 64 <= k < 72 ==> From(s, k) == Mirror(64, 8, k)
    ensures forall k :: 72 <= k < 80 ==> From(s, k) == Mirror(72, 8, k)
    ensures forall k :: 80 <= k < 88 ==> From(s, k) == Mirror(80, 8, k)
  {
  }

  /** Every field of the fixed part of a flow record, its match included. */
  lemma FlowStatsHeadKept(order: Order, from: Order, to: Order, s: Struct, x: Bytes, y: Bytes)
    requires Between(order, from, to) && s.FlowStatsHead? && |x| == Width(s) && y == Conv(order, s, x)
    ensures |x| == |y| == 88
    ensures forall o :: o == 0 || o == 8 || o == 22 || o == 26 || o == 40 || o == 42 ==>
              Get16(to, y, o) == Get16(from, x, o)
    ensures forall o :: o == 52 || o == 54 || o == 56 ==> Get16(to, y, o) == Get16(from, x, o)
    ensures forall o :: o == 4 || o == 32 || o == 36 || o == 44 || o == 48 ==> Get32(to, y, o) == Get32(from, x, o)
    ensures forall o :: o == 64 || o == 72 || o == 80 ==> Get64(to, y, o) == Get64(from, x, o)
    ensures forall k :: k == 2 || 10 <= k < 22 || k == 24 || 28 <= k < 30 ==> y[k] == x[k]
    ensures forall k :: k == 3 || k == 25 || 30 <= k < 32 || 58 <= k < 64 ==> y[k] == 0
  {
    hide Conv, From, Width, Get16, Get32, Get64;
    FlowStatsHeadLayout(s);
    Kept16(order, from, to, s, x, 0);
    KeptBytes(order, s, x, 2, 1);
    ZeroBytes(order, s, x, 3, 1);
    Kept32(order, from, to, s, x, 4);
    Kept16(order, from, to, s, x, 8);
    KeptBytes(order, s, x, 10, 12);
    Kept16(order, from, to, s, x, 22);
    KeptBytes(order, s, x, 24, 1);
    ZeroBytes(order, s, x, 25, 1);
    Kept16(order, from, to, s, x, 26);
    KeptBytes(order, s, x, 28, 2);
    ZeroBytes(order, s, x, 30, 2);
    Kept32(order, from, to, s, x, 32);
    Kept32(order, from, to, s, x, 36);
    Kept16(order, from, to, s, x, 40);
    Kept16(order, from, to, s, x, 42);
    Kept32(order, from, to, s, x, 44);
    Kept32(order, from, to, s, x, 48);
    Kept16(order, from, to, s, x, 52);
    Kept16(order, from, to, s, x, 54);
    Kept16(order, from, to, s, x, 56);
    ZeroBytes(order, s, x, 58, 6);
    Kept64(order, from, to, s, x, 64);
    Kept64(order, from, to, s, x, 72);
    Kept64(order, from, to, s, x, 80);
  }

  // ---------- queues ----------

  lemma QueueHeadLayout(s: Struct)
    requires s.QueueHead?
    ensures Width(s) == 8
    ensures forall k :: 0 <= k < 4 ==> From(s, k) == Mirror(0, 4, k)
    ensures forall k :: 4 <= k < 6 ==> From(s, k) == Mirror(4, 2, k)
    ensures forall k :: 6 <= k < 8 ==> From(s, k) < 0
  {
  }

  /** The id and the length of a queue. */
  lemma QueueHeadKept(order: Order, from: Order, to: Order, s: Struct, x: Bytes, y: Bytes)
    requires Between(order, from, to) && s.QueueHead? && |x| == Width(s) && y == Conv(order, s, x)
    ensures |x| == |y| == 8
    ensures forall o :: o == 4 ==> Get16(to, y, o) == Get16(from, x, o)
    ensures forall o :: o == 0 ==> Get32(to, y, o) == Get32(from, x, o)
    ensures forall k :: 6 <= k < 8 ==> y[k] == 0
  {
    hide Conv, From, Width, Get16, Get32, Get64;
    QueueHeadLayout(s);
    Kept32(order, from, to, s, x, 0);
    Kept16(order, from, to, s, x, 4);
    ZeroBytes(order, s, x, 6, 2);
  }

  // ---------- whole actions, records and properties ----------

  /** Reading a whole in its first part. */
  lemma InHead(order: Order, head: Bytes, rest: Bytes)
    ensures forall o :: 0 <= o <= |head| - 2 ==> Get16(order, head + rest, o) == Get16(order, head, o)
    ensures forall o :: 0 <= o <= |head| - 4 ==> Get32(order, head + rest, o) == Get32(order, head, o)
    ensures forall o :: 0 <= o <= |head| - 8 ==> Get64(order, head + rest, o) == Get64(order, head, o)
    ensures forall k :: 0 <= k < |head| ==> (head + rest)[k] == head[k]
  {
  }

  /** The structure by which an action of a type is converted, and what follows it. */
  lemma ActionParts(order: Order, from: Order, kind: u16, x: Bytes, y: Bytes, s: Struct)
    requires Known(from, x) && y == Converted(order, from, x) && kind == Get16(from, x, 0) && s == ActionStruct(kind)
    ensures 8 <= Width(s) <= |x| == |y| && (kind != 0xffff ==> |x| == Width(s))
    ensures y[..Width(s)] == Conv(order, s, x[..Width(s)]) && y[Width(s)..] == x[Width(s)..]
    ensures kind <= 11 || kind == 0xffff
    ensures kind == 0 ==> s.Output?
    ensures kind == 1 ==> s.VlanVid?
    ensures kind == 2 ==> s.VlanPcp?
    ensures kind == 3 ==> s.StripVlan?
    ensures kind == 4 || kind == 5 ==> s.DlAddr?
    ensures kind == 6 || kind == 7 ==> s.NwAddr?
    ensures kind == 8 ==> s.NwTos?
    ensures kind == 9 || kind == 10 ==> s.TpPort?
    ensures kind == 11 ==> s.Enqueue?
    ensures kind == 0xffff ==> s.VendorHeader? && Width(s) == 8
  {
    hide Conv, Get16;
  }

  /**
   A converted action, told of its type alone: type and length, the fields that the type has, zero padding, and the body
   of a vendor action byte by byte.
   */
  lemma ActionFieldsKept(order: Order, from: Order, to: Order, kind: u16, x: Bytes, y: Bytes)
    requires Between(order, from, to) && Known(from, x) && y == Converted(order, from, x) && kind == Get16(from, x, 0)
    ensures |y| == |x| == Get16(to, y, 2) && Get16(to, y, 0) == kind
    ensures kind <= 11 ==> |x| == if kind == 4 || kind == 5 || kind == 11 then 16 else 8
    ensures kind == 0xffff ==> |x| >= 8 && Get32(to, y, 4) == Get32(from, x, 4) && y[8..] == x[8..]
    ensures kind == 0 ==> Get16(to, y, 6) == Get16(from, x, 6)
    ensures kind == 0 || kind == 1 || kind == 9 || kind == 10 || kind == 11 ==> Get16(to, y, 4) == Get16(from, x, 4)
    ensures kind == 2 || kind == 8 ==> y[4] == x[4]
    ensures kind == 4 || kind == 5 ==> y[4..10] == x[4..10]
    ensures kind == 6 || kind == 7 ==> Get32(to, y, 4) == Get32(from, x, 4)
    ensures kind == 11 ==> Get32(to, y, 12) == Get32(from, x, 12)
    ensures forall k :: 0 <= k < |y| && kind == 3 && 4 <= k ==> y[k] == 0
    ensures forall k :: 0 <= k < |y| && (kind == 2 || kind == 8) && 5 <= k ==> y[k] == 0
    ensures forall k :: 0 <= k < |y| && (kind == 1 || kind == 9 || kind == 10) && 6 <= k ==> y[k] == 0
    ensures forall k :: 0 <= k < |y| && (kind == 4 || kind == 5) && 10 <= k ==> y[k] == 0
    ensures forall k :: 0 <= k < |y| && kind == 11 && 6 <= k < 12 ==> y[k] == 0
  {
    hide Conv, Get16, Get32, From, ActionStruct, Known, Converted;
    KnownHead(from, x);
    var s := ActionStruct(kind);
    ActionParts(order, from, kind, x, y, s);
    var n := Width(s);
    var head, head' := x[..n], y[..n];
    assert x == head + x[n..] && y == head' + y[n..];
    InHead(from, head, x[n..]);
    InHead(to, head', y[n..]);
    if s.Output? {
      OutputKept(order, from, to, s, head, head');
    } else if s.VlanVid? {
      VlanVidKept(order, from, to, s, head, head');
    } else if s.VlanPcp? {
      VlanPcpKept(order, from, to, s, head, head');
    } else if s.StripVlan? {
      StripVlanKept(order, from, to, s, head, head');
    } else if s.DlAddr? {
      DlAddrKept(order, from, to, s, head, head');
    } else if s.NwAddr? {
      NwAddrKept(order, from, to, s, head, head');
    } else if s.NwTos? {
      NwTosKept(order, from, to, s, head, head');
    } else if s.TpPort? {
      TpPortKept(order, from, to, s, head, head');
    } else if s.Enqueue? {
      EnqueueKept(order, from, to, s, head, head');
    } else {
      VendorHeaderKept(order, from, to, s, head, head');
    }
  }

  lemma KnownHead(from: Order, x: Bytes)
    requires Known(from, x)
    ensures |x| >= 8 && Get16(from, x, 2) == |x| && KnownAction(Get16(from, x, 0))
  {
  }

  /** A record's fields in one byte order are those of another record in its own. */
  ghost predicate SameRecord(from: Order, x: Bytes, to: Order, y: Bytes) {
    && |x| == |y| >= 88 && y[2] == x[2]
    && (forall o :: o == 0 || o == 8 || o == 22 || o == 26 || o == 40 || o == 42 || o == 52 || o == 54 || o == 56 ==>
          Get16(to, y, o) == Get16(from, x, o))
    && (forall o :: o == 4 || o == 32 || o == 36 || o == 44 || o == 48 ==> Get32(to, y, o) == Get32(from, x, o))
    && (forall o :: o == 64 || o == 72 || o == 80 ==> Get64(to, y, o) == Get64(from, x, o))
    && (forall k :: 10 <= k < 22 || k == 24 || 28 <= k < 30 ==> y[k] == x[k])
    && (forall k :: k == 3 || k == 25 || 30 <= k < 32 || 58 <= k < 64 ==> y[k] == 0)
  }

  /** Every field of a converted flow record: the counters, the times, the priority and the match. */
  lemma RecordFieldsKept(order: Order, from: Order, to: Order, x: Bytes, actions: seq<Bytes>, y: Bytes)
    requires Between(order, from, to) && FlowRecord(from, x, actions) && y == ConvertedFlow(order, from, x, actions)
    ensures |x| == |y| >= 88 && y[2] == x[2]
    ensures forall o :: o == 0 || o == 8 || o == 22 || o == 26 || o == 40 || o == 42 ==>
              Get16(to, y, o) == Get16(from, x, o)
    ensures forall o :: o == 52 || o == 54 || o == 56 ==> Get16(to, y, o) == Get16(from, x, o)
    ensures forall o :: o == 4 || o == 32 || o == 36 || o == 44 || o == 48 ==> Get32(to, y, o) == Get32(from, x, o)
    ensures forall o :: o == 64 || o == 72 || o == 80 ==> Get64(to, y, o) == Get64(from, x, o)
    ensures forall k :: 10 <= k < 22 || k == 24 || 28 <= k < 30 ==> y[k] == x[k]
    ensures forall k :: k == 3 || k == 25 || 30 <= k < 32 || 58 <= k < 64 ==> y[k] == 0
    ensures SameRecord(from, x, to, y)
  {
    hide Conv, Get16, Get32, Get64, From, Flatten, Known, Tiles;
    var head, rest := x[..88], Flatten(ConvertedAll(order, from, actions));
    var head' := Conv(order, FlowStatsHead, head);
    FlowStatsHeadKept(order, from, to, FlowStatsHead, head, head');
    assert x == head + x[88..] && y == head' + rest;
    InHead(from, head, x[88..]);
    InHead(to, head', rest);
  }

  /** Every field of a converted property, and all its other bytes as they were in the destination. */
  lemma PropertyFieldsKept(order: Order, from: Order, to: Order, x: Bytes, kept: Bytes, y: Bytes)
    requires Between(order, from, to) && Property(from, x) && |kept| == |x|
    requires y == ConvProperty(order, IsMinRate(from, x), x, kept)
    ensures |y| == |x| == Get16(to, y, 2) && Get16(to, y, 0) == Get16(from, x, 0)
    ensures Get16(from, x, 0) == 1 ==> |x| >= 10 && Get16(to, y, 8) == Get16(from, x, 8)
    ensures forall k :: 4 <= k < |y| && !(Get16(from, x, 0) == 1 && 8 <= k < 10) ==> y[k] == kept[k]
  {
    hide ConvProperty, PropertyFrom;
    ConvertedProperty16(order, from, to, IsMinRate(from, x), x, kept, 0);
    ConvertedProperty16(order, from, to, IsMinRate(from, x), x, kept, 2);
    if IsMinRate(from, x) {
      ConvertedProperty16(order, from, to, true, x, kept, 8);
    }
    forall k | 4 <= k < |y| && !(Get16(from, x, 0) == 1 && 8 <= k < 10) ensures y[k] == kept[k] {
      NoField(IsMinRate(from, x), k);
      ConvPropertyAt(order, IsMinRate(from, x), x, kept, k);
    }
  }

  lemma NoField(minRate: bool, k: nat)
    requires 4 <= k && !(minRate && 8 <= k < 10)
    ensures PropertyFrom(minRate, k) < 0
  {
  }

}
