/**
 Conversion between host and network byte order, lib/cc_byte_order.c. A destination pointer is an array and an offset
 into it; a source is the bytes from its pointer on. The hton_ functions that the header defines as the ntoh_ ones are
 one method here.
 */
module ByteOrder {
  import opened Bytes
  import opened OpenFlow

  /** The bytes b with y written at d. */
  ghost function Splice(b: Bytes, d: nat, y: Bytes): (r: Bytes)
    requires d + |y| <= |b|
    ensures |r| == |b|
  {
    b[..d] + y + b[d + |y|..]
  }

  lemma SpliceIs(b: Bytes, r: Bytes, d: nat, y: Bytes)
    requires d + |y| <= |b| == |r|
    requires forall j :: 0 <= j < |b| ==> r[j] == if d <= j < d + |y| then y[j - d] else b[j]
    ensures r == Splice(b, d, y)
  {
  }

  lemma SpliceAt(b: Bytes, d: nat, y: Bytes)
    requires d + |y| <= |b|
    ensures forall j :: 0 <= j < |b| ==> Splice(b, d, y)[j] == if d <= j < d + |y| then y[j - d] else b[j]
  {
  }

  lemma SliceStart(order: Order, m: Bytes, s: nat, x: Bytes, o: nat)
    requires s + |x| <= |m| && m[s..s + |x|] == x && o + 2 <= |x|
    ensures Get16(order, m[s..], o) == Get16(order, x, o)
  {
    assert m[s..][o] == x[o] && m[s..][o + 1] == x[o + 1];
  }

  lemma SpliceMore(b: Bytes, d: nat, y: Bytes, z: Bytes)
    requires d + |y| + |z| <= |b|
    ensures Splice(Splice(b, d, y), d + |y|, z) == Splice(b, d, y + z)
  {
  }

  // ---------- assigning one field ----------

  /** dst->field = ntoh(src->field), for a field of n bytes at offset o of both structures. */
  method Swap(order: Order, dst: array<byte>, d: nat, src: Bytes, o: nat, n: nat)
    requires n == 2 || n == 4 || n == 8
    requires d + o + n <= dst.Length && o + n <= |src|
    modifies dst
    ensures forall j :: d + o <= j < d + o + n ==> dst[j] == if order.Big? then src[j - d] else src[Mirror(o, n, j - d)]
    ensures forall j :: 0 <= j < dst.Length && !(d + o <= j < d + o + n) ==> dst[j] == old(dst[j])
  {
    forall j | d + o <= j < d + o + n {
      dst[j] := if order.Big? then src[j - d] else src[Mirror(o, n, j - d)];
    }
  }

  method Copy(dst: array<byte>, d: nat, src: Bytes, o: nat, n: nat)
    requires d + o + n <= dst.Length && o + n <= |src|
    modifies dst
    ensures forall j :: d + o <= j < d + o + n ==> dst[j] == src[j - d]
    ensures forall j :: 0 <= j < dst.Length && !(d + o <= j < d + o + n) ==> dst[j] == old(dst[j])
  {
    forall j | d + o <= j < d + o + n {
      dst[j] := src[j - d];
    }
  }

  method Clear(dst: array<byte>, d: nat, o: nat, n: nat)
    requires d + o + n <= dst.Length
    modifies dst
    ensures forall j :: d + o <= j < d + o + n ==> dst[j] == 0
    ensures forall j :: 0 <= j < dst.Length && !(d + o <= j < d + o + n) ==> dst[j] == old(dst[j])
  {
    forall j | d + o <= j < d + o + n {
      dst[j] := 0;
    }
  }

  // ---------- structures of fixed size ----------

  method NtohMatch(order: Order, dst: array<byte>, d: nat, src: Bytes)
    requires d + MATCH <= dst.Length && MATCH <= |src|
    modifies dst
    ensures dst[..] == Splice(old(dst[..]), d, Conv(order, Match, src[..MATCH]))
  {
    Swap(order, dst, d, src, 0, 4);
    Swap(order, dst, d, src, 4, 2);
    Copy(dst, d, src, 6, 6);
    Copy(dst, d, src, 12, 6);
    Swap(order, dst, d, src, 18, 2);
    Copy(dst, d, src, 20, 1);
    Swap(order, dst, d, src, 22, 2);
    Copy(dst, d, src, 24, 1);
    Copy(dst, d, src, 25, 1);
    Clear(dst, d, 21, 1);
    Clear(dst, d, 26, 2);
    Swap(order, dst, d, src, 28, 4);
    Swap(order, dst, d, src, 32, 4);
    Swap(order, dst, d, src, 36, 2);
    Swap(order, dst, d, src, 38, 2);
    SpliceIs(old(dst[..]), dst[..], d, Conv(order, Match, src[..MATCH]));
  }

  method NtohActionOutput(order: Order, dst: array<byte>, d: nat, src: Bytes)
    requires d + 8 <= dst.Length && 8 <= |src|
    modifies dst
    ensures dst[..] == Splice(old(dst[..]), d, Conv(order, Output, src[..8]))
  {
    Swap(order, dst, d, src, 0, 2);
    Swap(order, dst, d, src, 2, 2);
    Swap(order, dst, d, src, 4, 2);
    Swap(order, dst, d, src, 6, 2);
    SpliceIs(old(dst[..]), dst[..], d, Conv(order, Output, src[..8]));
  }

  method NtohActionVlanVid(order: Order, dst: array<byte>, d: nat, src: Bytes)
    requires d + 8 <= dst.Length && 8 <= |src|
    modifies dst
    ensures dst[..] == Splice(old(dst[..]), d, Conv(order, VlanVid, src[..8]))
  {
    Swap(order, dst, d, src, 0, 2);
    Swap(order, dst, d, src, 2, 2);
    Swap(order, dst, d, src, 4, 2);
    Clear(dst, d, 6, 2);
    SpliceIs(old(dst[..]), dst[..], d, Conv(order, VlanVid, src[..8]));
  }

  method NtohActionVlanPcp(order: Order, dst: array<byte>, d: nat, src: Bytes)
    requires d + 8 <= dst.Length && 8 <= |src|
    modifies dst
    ensures dst[..] == Splice(old(dst[..]), d, Conv(order, VlanPcp, src[..8]))
  {
    Swap(order, dst, d, src, 0, 2);
    Swap(order, dst, d, src, 2, 2);
    Copy(dst, d, src, 4, 1);
    Clear(dst, d, 5, 3);
    SpliceIs(old(dst[..]), dst[..], d, Conv(order, VlanPcp, src[..8]));
  }

  method NtohActionStripVlan(order: Order, dst: array<byte>, d: nat, src: Bytes)
    requires d + 8 <= dst.Length && 8 <= |src|
    modifies dst
    ensures dst[..] == Splice(old(dst[..]), d, Conv(order, StripVlan, src[..8]))
  {
    Swap(order, dst, d, src, 0, 2);
    Swap(order, dst, d, src, 2, 2);
    Clear(dst, d, 4, 4);
    SpliceIs(old(dst[..]), dst[..], d, Conv(order, StripVlan, src[..8]));
  }

  method NtohActionDlAddr(order: Order, dst: array<byte>, d: nat, src: Bytes)
    requires d + 16 <= dst.Length && 16 <= |src|
    modifies dst
    ensures dst[..] == Splice(old(dst[..]), d, Conv(order, DlAddr, src[..16]))
  {
    Swap(order, dst, d, src, 0, 2);
    Swap(order, dst, d, src, 2, 2);
    Copy(dst, d, src, 4, 6);
    Clear(dst, d, 10, 6);
    SpliceIs(old(dst[..]), dst[..], d, Conv(order, DlAddr, src[..16]));
  }

  method NtohActionNwAddr(order: Order, dst: array<byte>, d: nat, src: Bytes)
    requires d + 8 <= dst.Length && 8 <= |src|
    modifies dst
    ensures dst[..] == Splice(old(dst[..]), d, Conv(order, NwAddr, src[..8]))
  {
    Swap(order, dst, d, src, 0, 2);
    Swap(order, dst, d, src, 2, 2);
    Swap(order, dst, d, src, 4, 4);
    SpliceIs(old(dst[..]), dst[..], d, Conv(order, NwAddr, src[..8]));
  }

  method NtohActionNwTos(order: Order, dst: array<byte>, d: nat, src: Bytes)
    requires d + 8 <= dst.Length && 8 <= |src|
    modifies dst
    ensures dst[..] == Splice(old(dst[..]), d, Conv(order, NwTos, src[..8]))
  {
    Swap(order, dst, d, src, 0, 2);
    Swap(order, dst, d, src, 2, 2);
    Copy(dst, d, src, 4, 1);
    Clear(dst, d, 5, 3);
    SpliceIs(old(dst[..]), dst[..], d, Conv(order, NwTos, src[..8]));
  }

  method NtohActionTpPort(order: Order, dst: array<byte>, d: nat, src: Bytes)
    requires d + 8 <= dst.Length && 8 <= |src|
    modifies dst
    ensures dst[..] == Splice(old(dst[..]), d, Conv(order, TpPort, src[..8]))
  {
    Swap(order, dst, d, src, 0, 2);
    Swap(order, dst, d, src, 2, 2);
    Swap(order, dst, d, src, 4, 2);
    Clear(dst, d, 6, 2);
    SpliceIs(old(dst[..]), dst[..], d, Conv(order, TpPort, src[..8]));
  }

  method NtohActionEnqueue(order: Order, dst: array<byte>, d: nat, src: Bytes)
    requires d + 16 <= dst.Length && 16 <= |src|
    modifies dst
    ensures dst[..] == Splice(old(dst[..]), d, Conv(order, Enqueue, src[..16]))
  {
    Swap(order, dst, d, src, 0, 2);
    Swap(order, dst, d, src, 2, 2);
    Swap(order, dst, d, src, 4, 2);
    Clear(dst, d, 6, 6);
    Swap(order, dst, d, src, 12, 4);
    SpliceIs(old(dst[..]), dst[..], d, Conv(order, Enqueue, src[..16]));
  }

  // ---------- actions ----------

  /** The structure of the actions of a type, if the type is defined. */
  function ActionStruct(kind: u16): (s: Struct)
    requires KnownAction(kind)
    ensures !s.Match? && !s.FlowStatsHead? && !s.QueueHead?
  {
    if kind == OFPAT_OUTPUT then Output
    else if kind == OFPAT_SET_VLAN_VID then VlanVid
    else if kind == OFPAT_SET_VLAN_PCP then VlanPcp
    else if kind == OFPAT_STRIP_VLAN then StripVlan
    else if kind == OFPAT_SET_DL_SRC || kind == OFPAT_SET_DL_DST then DlAddr
    else if kind == OFPAT_SET_NW_SRC || kind == OFPAT_SET_NW_DST then NwAddr
    else if kind == OFPAT_SET_NW_TOS then NwTos
    else if kind == OFPAT_SET_TP_SRC || kind == OFPAT_SET_TP_DST then TpPort
    else if kind == OFPAT_ENQUEUE then Enqueue
    else VendorHeader
  }

  predicate KnownAction(kind: u16) {
    kind <= OFPAT_ENQUEUE || kind == OFPAT_VENDOR
  }

  /** A whole action: its length field is its length, and if its type is known it has the length of that type. */
  predicate Action(order: Order, x: Bytes) {
    && ACTION.Is(order, x)
    && var kind := Get16(order, x, 0);
       KnownAction(kind) ==> if kind == OFPAT_VENDOR then |x| >= 8 else |x| == Width(ActionStruct(kind))
  }

  /** A known action of the given type in the other byte order; the body of a vendor action stays as it is. */
  function ConvAction(order: Order, kind: u16, x: Bytes): (y: Bytes)
    requires KnownAction(kind) && if kind == OFPAT_VENDOR then |x| >= 8 else |x| == Width(ActionStruct(kind))
    ensures |y| == |x|
  {
    var w := Width(ActionStruct(kind));
    Conv(order, ActionStruct(kind), x[..w]) + x[w..]
  }

  /** An action of a known type. */
  predicate Known(order: Order, x: Bytes) {
    Action(order, x) && KnownAction(Get16(order, x, 0))
  }

  /** The action x, which is in order from, in the other byte order: from is Big for ntoh and the host's for hton. */
  function Converted(order: Order, from: Order, x: Bytes): (y: Bytes)
    requires Known(from, x)
    ensures |y| == |x|
  {
    ConvAction(order, Get16(from, x, 0), x)
  }

  /** An action whose padding has been set to zero. */
  function ZeroedAction(from: Order, x: Bytes): (y: Bytes)
    requires Known(from, x)
    ensures |y| == |x|
  {
    var s := ActionStruct(Get16(from, x, 0));
    ZeroPads(s, x[..Width(s)]) + x[Width(s)..]
  }

  /** Every structure of an action starts with its type and its length. */
  lemma ActionHead(kind: u16, k: nat)
    requires KnownAction(kind) && k < 4
    ensures Width(ActionStruct(kind)) >= 8
    ensures From(ActionStruct(kind), k) == if k < 2 then Mirror(0, 2, k) else Mirror(2, 2, k)
  {
  }

  lemma ConvActionTwice(order: Order, kind: u16, x: Bytes)
    requires KnownAction(kind) && if kind == OFPAT_VENDOR then |x| >= 8 else |x| == Width(ActionStruct(kind))
    ensures var y, s := ConvAction(order, kind, x), ActionStruct(kind);
            && Net16(y, 0) == Get16(order, x, 0) && Net16(y, 2) == Get16(order, x, 2)
            && Get16(order, y, 0) == Net16(x, 0) && Get16(order, y, 2) == Net16(x, 2)
            && ConvAction(order, kind, y) == ZeroPads(s, x[..Width(s)]) + x[Width(s)..]
  {
    hide Conv, ZeroPads, From, Get16, ActionStruct;
    VendorWidth(kind);
    ActionHead(kind, 0);
    ActionHead(kind, 1);
    ActionHead(kind, 2);
    ActionHead(kind, 3);
    var s := ActionStruct(kind);
    var head, rest := x[..Width(s)], x[Width(s)..];
    var y := Conv(order, s, head);
    Converted16(order, s, head, 0);
    Converted16(order, s, head, 2);
    ConvTwice(order, s, head);
    assert x == head + rest;
    HeadFields(order, head, rest);
    HeadFields(order, y, rest);
  }

  lemma VendorWidth(kind: u16)
    requires KnownAction(kind)
    ensures kind == OFPAT_VENDOR ==> Width(ActionStruct(kind)) == 8
  {
  }

  /** Reading type and length of an action in the structure that it starts with. */
  lemma HeadFields(order: Order, head: Bytes, rest: Bytes)
    requires |head| >= 4
    ensures (head + rest)[..|head|] == head && (head + rest)[|head|..] == rest
    ensures Get16(order, head + rest, 0) == Get16(order, head, 0) && Net16(head + rest, 0) == Net16(head, 0)
    ensures Get16(order, head + rest, 2) == Get16(order, head, 2) && Net16(head + rest, 2) == Net16(head, 2)
  {
  }

  /** One of from and to is the host's byte order and the other the network's. */
  predicate Between(order: Order, from: Order, to: Order) {
    (from == order && to == Big) || (from == Big && to == order)
  }

  /** Converting an action there and back, either way round, gives it back with its padding zeroed. */
  lemma ActionRoundTrip(order: Order, from: Order, to: Order, x: Bytes)
    requires Between(order, from, to) && Known(from, x)
    ensures Known(to, Converted(order, from, x))
    ensures Get16(to, Converted(order, from, x), 0) == Get16(from, x, 0)
    ensures Get16(to, Converted(order, from, x), 2) == |x|
    ensures Converted(order, to, Converted(order, from, x)) == ZeroedAction(from, x)
  {
    ConvActionTwice(order, Get16(from, x, 0), x);
  }

  method CopyActionVendorBody(dst: array<byte>, d: nat, src: Bytes, bodyLength: nat)
    requires d + 8 + bodyLength <= dst.Length && 8 + bodyLength <= |src|
    modifies dst
    ensures dst[..] == Splice(old(dst[..]), d + 8, src[8..8 + bodyLength])
  {
    if bodyLength > 0 {
      Copy(dst, d, src, 8, bodyLength);
    }
    SpliceIs(old(dst[..]), dst[..], d + 8, src[8..8 + bodyLength]);
  }

  /** ntoh_action_vendor and hton_action_vendor; length is the action's length in host order. */
  method ActionVendor(order: Order, dst: array<byte>, d: nat, src: Bytes, length: u16)
    requires 8 <= length && d + length <= dst.Length && length <= |src|
    modifies dst
    ensures dst[..] == Splice(old(dst[..]), d, ConvAction(order, OFPAT_VENDOR, src[..length]))
  {
    hide Splice;
    Swap(order, dst, d, src, 0, 2);
    Swap(order, dst, d, src, 2, 2);
    Swap(order, dst, d, src, 4, 4);
    SpliceIs(old(dst[..]), dst[..], d, Conv(order, VendorHeader, src[..8]));
    hide Conv;
    CopyActionVendorBody(dst, d, src, length - 8);
    SpliceMore(old(dst[..]), d, Conv(order, VendorHeader, src[..8]), src[8..length]);
    assert src[..length][..8] == src[..8] && src[..length][8..] == src[8..length];
  }

  lemma FixedAction(order: Order, kind: u16, x: Bytes)
    requires KnownAction(kind) && kind != OFPAT_VENDOR && |x| == Width(ActionStruct(kind))
    ensures ConvAction(order, kind, x) == Conv(order, ActionStruct(kind), x)
  {
    assert x[..|x|] == x;
  }

  /** The switch over action types of ntoh_action and hton_action. */
  method ConvertAction(order: Order, dst: array<byte>, d: nat, src: Bytes, kind: u16, length: u16)
    requires KnownAction(kind) && d + length <= dst.Length && length <= |src|
    requires if kind == OFPAT_VENDOR then length >= 8 else length == Width(ActionStruct(kind))
    modifies dst
    ensures dst[..] == Splice(old(dst[..]), d, ConvAction(order, kind, src[..length]))
  {
    hide Splice, Conv, ConvAction;
    if kind != OFPAT_VENDOR {
      FixedAction(order, kind, src[..length]);
    }
    if kind == OFPAT_OUTPUT {
      NtohActionOutput(order, dst, d, src);
    } else if kind == OFPAT_SET_VLAN_VID {
      NtohActionVlanVid(order, dst, d, src);
    } else if kind == OFPAT_SET_VLAN_PCP {
      NtohActionVlanPcp(order, dst, d, src);
    } else if kind == OFPAT_STRIP_VLAN {
      NtohActionStripVlan(order, dst, d, src);
    } else if kind == OFPAT_SET_DL_SRC || kind == OFPAT_SET_DL_DST {
      NtohActionDlAddr(order, dst, d, src);
    } else if kind == OFPAT_SET_NW_SRC || kind == OFPAT_SET_NW_DST {
      NtohActionNwAddr(order, dst, d, src);
    } else if kind == OFPAT_SET_NW_TOS {
      NtohActionNwTos(order, dst, d, src);
    } else if kind == OFPAT_SET_TP_SRC || kind == OFPAT_SET_TP_DST {
      NtohActionTpPort(order, dst, d, src);
    } else if kind == OFPAT_ENQUEUE {
      NtohActionEnqueue(order, dst, d, src);
    } else {
      ActionVendor(order, dst, d, src, length);
    }
  }

  /** An undefined type is only logged. */
  method NtohAction(order: Order, dst: array<byte>, d: nat, src: Bytes, ghost x: Bytes)
    requires Action(Big, x) && x <= src && d + |x| <= dst.Length
    modifies dst
    ensures dst[..] == if KnownAction(Net16(x, 0)) then Splice(old(dst[..]), d, Converted(order, Big, x))
                       else old(dst[..])
  {
    hide Splice, ConvAction;
    var kind := Net16(src, 0);
    assert src[..Net16(src, 2)] == x;
    if KnownAction(kind) {
      ConvertAction(order, dst, d, src, kind, Net16(src, 2));
    }
  }

  /** An undefined type ends the program. */
  method HtonAction(order: Order, dst: array<byte>, d: nat, src: Bytes, ghost x: Bytes)
    requires Known(order, x) && x <= src && d + |x| <= dst.Length
    modifies dst
    ensures dst[..] == Splice(old(dst[..]), d, Converted(order, order, x))
  {
    hide Splice, ConvAction;
    assert src[..Get16(order, src, 2)] == x;
    ConvertAction(order, dst, d, src, Get16(order, src, 0), Get16(order, src, 2));
  }

  // ---------- flow statistics ----------

  ghost function ConvertedAll(order: Order, from: Order, xs: seq<Bytes>): (ys: seq<Bytes>)
    requires forall i :: 0 <= i < |xs| ==> Known(from, xs[i])
    ensures |ys| == |xs| && forall i :: 0 <= i < |xs| ==> ys[i] == Converted(order, from, xs[i])
  {
    seq(|xs|, i requires 0 <= i < |xs| => Converted(order, from, xs[i]))
  }

  /** Elements of pairwise the same length lie at the same offsets. */
  lemma {:induction false} SameOffsets(xs: seq<Bytes>, ys: seq<Bytes>, i: nat)
    requires |xs| == |ys| && i <= |xs|
    requires forall k :: 0 <= k < |xs| ==> |xs[k]| == |ys[k]|
    ensures |Flatten(xs[..i])| == |Flatten(ys[..i])|
  {
    if i > 0 {
      SameOffsets(xs, ys, i - 1);
      FlattenUpTo(xs, i - 1);
      FlattenUpTo(ys, i - 1);
    }
  }

  /** The i-th tile is where the tiles before it end. */
  lemma TileAt(from: Order, kind: Kind, xs: seq<Bytes>, region: Bytes, i: nat)
    requires Tiles(from, kind, xs, region) && i <= |xs|
    ensures var at := |Flatten(xs[..i])|;
            && at <= |region|
            && (i == |xs| ==> at == |region|)
            && (i < |xs| ==> && xs[i] <= region[at..] && kind.Is(from, xs[i])
                             && at + |xs[i]| == |Flatten(xs[..i + 1])| <= |region|)
  {
    if i == |xs| {
      assert xs[..i] == xs;
    } else {
      FlattenSplit(xs, i);
      FlattenFrom(xs, i);
      FlattenUpTo(xs, i);
    }
  }

  /** A flow record in order from: actions tile what follows its fixed part. */
  ghost predicate FlowRecord(from: Order, x: Bytes, actions: seq<Bytes>) {
    && FLOW.Is(from, x) && Tiles(from, ACTION, actions, x[FLOW_STATS_ACTIONS..])
    && forall i :: 0 <= i < |actions| ==> Known(from, actions[i])
  }

  ghost function ConvertedFlow(order: Order, from: Order, x: Bytes, actions: seq<Bytes>): (y: Bytes)
    requires FlowRecord(from, x, actions)
    ensures |y| == |x|
  {
    SameOffsets(actions, ConvertedAll(order, from, actions), |actions|);
    assert actions[..|actions|] == actions;
    assert ConvertedAll(order, from, actions)[..|actions|] == ConvertedAll(order, from, actions);
    Conv(order, FlowStatsHead, x[..FLOW_STATS_ACTIONS]) + Flatten(ConvertedAll(order, from, actions))
  }

  method FlowStatsFields(order: Order, dst: array<byte>, d: nat, fs: Bytes)
    requires d + FLOW_STATS_ACTIONS <= dst.Length && FLOW_STATS_ACTIONS <= |fs|
    modifies dst
    ensures dst[..] == Splice(old(dst[..]), d, Conv(order, FlowStatsHead, fs[..FLOW_STATS_ACTIONS]))
  {
    Swap(order, dst, d, fs, 0, 2);
    Copy(dst, d, fs, 2, 1);
    Clear(dst, d, 3, 1);
    MatchField(order, dst, d + 4, fs[4..]);
    Swap(order, dst, d, fs, 44, 4);
    Swap(order, dst, d, fs, 48, 4);
    Swap(order, dst, d, fs, 52, 2);
    Swap(order, dst, d, fs, 54, 2);
    Swap(order, dst, d, fs, 56, 2);
    Clear(dst, d, 58, 6);
    Swap(order, dst, d, fs, 64, 8);
    Swap(order, dst, d, fs, 72, 8);
    Swap(order, dst, d, fs, 80, 8);
    SpliceIs(old(dst[..]), dst[..], d, Conv(order, FlowStatsHead, fs[..FLOW_STATS_ACTIONS]));
  }

  /** NtohMatch, told byte by byte. */
  method MatchField(order: Order, dst: array<byte>, d: nat, src: Bytes)
    requires d + MATCH <= dst.Length && MATCH <= |src|
    modifies dst
    ensures forall j :: d <= j < d + MATCH ==> dst[j] == Conv(order, Match, src[..MATCH])[j - d]
    ensures forall j :: 0 <= j < dst.Length && !(d <= j < d + MATCH) ==> dst[j] == old(dst[j])
  {
    NtohMatch(order, dst, d, src);
    SpliceAt(old(dst[..]), d, Conv(order, Match, src[..MATCH]));
    assert forall j :: 0 <= j < dst.Length ==> dst[..][j] == dst[j];
  }

  /** The fixed part of a converted record and its first i actions. */
  ghost function FlowUpTo(order: Order, from: Order, x: Bytes, actions: seq<Bytes>, i: nat): Bytes
    requires FlowRecord(from, x, actions) && i <= |actions|
  {
    Conv(order, FlowStatsHead, x[..FLOW_STATS_ACTIONS]) + Flatten(ConvertedAll(order, from, actions)[..i])
  }

  lemma ActionAt(from: Order, x: Bytes, actions: seq<Bytes>, i: nat)
    requires FlowRecord(from, x, actions) && i <= |actions|
    ensures var at := FLOW_STATS_ACTIONS + |Flatten(actions[..i])|;
            && at <= |x|
            && if i == |actions| then at == |x|
               else && Known(from, actions[i]) && actions[i] <= x[at..] && |actions[i]| >= ACTION_HEADER
                    && at + |actions[i]| <= |x|
  {
    var region := x[FLOW_STATS_ACTIONS..];
    TileAt(from, ACTION, actions, region, i);
    if i < |actions| {
      assert region[|Flatten(actions[..i])|..] == x[FLOW_STATS_ACTIONS + |Flatten(actions[..i])|..];
    }
  }

  lemma FlowUpToNext(order: Order, from: Order, x: Bytes, actions: seq<Bytes>, i: nat)
    requires FlowRecord(from, x, actions) && i <= |actions|
    ensures |FlowUpTo(order, from, x, actions, i)| == FLOW_STATS_ACTIONS + |Flatten(actions[..i])|
    ensures if i == |actions| then FlowUpTo(order, from, x, actions, i) == ConvertedFlow(order, from, x, actions)
            else FlowUpTo(order, from, x, actions, i + 1)
                 == FlowUpTo(order, from, x, actions, i) + Converted(order, from, actions[i])
  {
    var ys := ConvertedAll(order, from, actions);
    SameOffsets(actions, ys, i);
    if i == |actions| {
      assert ys[..i] == ys;
    } else {
      FlattenUpTo(ys, i);
      Associative(Conv(order, FlowStatsHead, x[..FLOW_STATS_ACTIONS]), Flatten(ys[..i]), ys[i]);
    }
  }

  /** All that one round of the loop over the actions depends on. */
  lemma NextAction(order: Order, from: Order, to: Order, x: Bytes, actions: seq<Bytes>, i: nat)
    requires Between(order, from, to) && FlowRecord(from, x, actions) && i <= |actions|
    ensures var at := |FlowUpTo(order, from, x, actions, i)|;
            at <= |x|
            && if i == |actions| then
                 at == |x| && FlowUpTo(order, from, x, actions, i) == ConvertedFlow(order, from, x, actions)
               else
                 && Known(from, actions[i]) && actions[i] <= x[at..]
                 && |actions[i]| >= ACTION_HEADER && at + |actions[i]| <= |x|
                 && FlowUpTo(order, from, x, actions, i + 1)
                 == FlowUpTo(order, from, x, actions, i) + Converted(order, from, actions[i])
                 && Get16(to, Converted(order, from, actions[i]), 2) == Get16(from, actions[i], 2) == |actions[i]|
  {
    hide FlowUpTo, ConvertedFlow, Converted;
    ActionAt(from, x, actions, i);
    FlowUpToNext(order, from, x, actions, i);
    if i < |actions| {
      ActionRoundTrip(order, from, to, actions[i]);
    }
  }

  /** What was just written at the end of a splice reads back. */
  lemma SpliceEnd(b: Bytes, d: nat, y: Bytes, z: Bytes, order: Order, o: nat)
    requires d + |y| + |z| <= |b| && o + 2 <= |z|
    ensures Get16(order, Splice(b, d, y + z), d + |y| + o) == Get16(order, z, o)
  {
  }

  /** One round of the loop of ntoh_flow_stats; the length comes from the converted action. */
  method NtohNextAction(order: Order, dst: array<byte>, d: nat, fs: Bytes, at: nat,
                        ghost b: Bytes, ghost actions: seq<Bytes>, ghost i: nat)
    returns (length: u16)
    requires FlowRecord(Big, fs, actions) && i < |actions| && at == |FlowUpTo(order, Big, fs, actions, i)| <= |fs|
    requires d + |fs| <= dst.Length == |b| && dst[..] == Splice(b, d, FlowUpTo(order, Big, fs, actions, i))
    modifies dst
    ensures length == |actions[i]| >= ACTION_HEADER && at + length == |FlowUpTo(order, Big, fs, actions, i + 1)| <= |fs|
    ensures dst[..] == Splice(b, d, FlowUpTo(order, Big, fs, actions, i + 1))
  {
    hide FlowUpTo, FlowRecord, Splice, Action, Converted;
    NextAction(order, Big, order, fs, actions, i);
    ghost var done, y := FlowUpTo(order, Big, fs, actions, i), Converted(order, Big, actions[i]);
    NtohAction(order, dst, d + at, fs[at..], actions[i]);
    SpliceMore(b, d, done, y);
    SpliceEnd(b, d, done, y, order, 2);
    length := Get16(order, dst[..], d + at + 2);
  }

  /** One round of the loop of hton_flow_stats; the length comes from the action being converted. */
  method HtonNextAction(order: Order, dst: array<byte>, d: nat, fs: Bytes, at: nat,
                        ghost b: Bytes, ghost actions: seq<Bytes>, ghost i: nat)
    returns (length: u16)
    requires FlowRecord(order, fs, actions) && i < |actions| && at == |FlowUpTo(order, order, fs, actions, i)| <= |fs|
    requires d + |fs| <= dst.Length == |b| && dst[..] == Splice(b, d, FlowUpTo(order, order, fs, actions, i))
    modifies dst
    ensures length == |actions[i]| >= ACTION_HEADER
            && at + length == |FlowUpTo(order, order, fs, actions, i + 1)| <= |fs|
    ensures dst[..] == Splice(b, d, FlowUpTo(order, order, fs, actions, i + 1))
  {
    hide FlowUpTo, FlowRecord, Splice, Action, Converted;
    NextAction(order, order, Big, fs, actions, i);
    HtonAction(order, dst, d + at, fs[at..], actions[i]);
    SpliceMore(b, d, FlowUpTo(order, order, fs, actions, i), Converted(order, order, actions[i]));
    length := Get16(order, fs[at..], 2);
  }

  /** dst may be the same memory as src: the record is copied before anything is written. */
  method NtohFlowStats(order: Order, dst: array<byte>, d: nat, src: array<byte>, s: nat,
                       ghost x: Bytes, ghost actions: seq<Bytes>)
    requires FlowRecord(Big, x, actions) && s + |x| <= src.Length && src[..][s..s + |x|] == x && d + |x| <= dst.Length
    modifies dst
    ensures dst[..] == Splice(old(dst[..]), d, ConvertedFlow(order, Big, x, actions))
  {
    hide Splice, ConvertedFlow;
    SliceStart(Big, src[..], s, x, 0);
    NtohFlowStatsCopy(order, dst, d, src[..][s..s + Net16(src[..][s..], 0)], actions);
  }

  /** ntoh_flow_stats from its private copy of the record on. */
  method NtohFlowStatsCopy(order: Order, dst: array<byte>, d: nat, fs: Bytes, ghost actions: seq<Bytes>)
    requires FlowRecord(Big, fs, actions) && d + |fs| <= dst.Length
    modifies dst
    ensures dst[..] == Splice(old(dst[..]), d, ConvertedFlow(order, Big, fs, actions))
  {
    FlowStatsFields(order, dst, d, fs);
    assert FlowUpTo(order, Big, fs, actions, 0) == Conv(order, FlowStatsHead, fs[..FLOW_STATS_ACTIONS]);
    assert Net16(fs, 0) == |fs|;
    hide FlowUpTo, FlowRecord, Splice, Conv, Sub16;
    var actionsLength := Sub16(Net16(fs, 0), FLOW_STATS_ACTIONS);
    var at := FLOW_STATS_ACTIONS;
    ghost var i := 0;
    NextAction(order, Big, order, fs, actions, i);
    while actionsLength >= ACTION_HEADER
      invariant i <= |actions| && at == |FlowUpTo(order, Big, fs, actions, i)| <= |fs| && actionsLength == |fs| - at
      invariant i == |actions| ==> at == |fs|
      invariant dst[..] == Splice(old(dst[..]), d, FlowUpTo(order, Big, fs, actions, i))
      decreases actionsLength
    {
      var length := NtohNextAction(order, dst, d, fs, at, old(dst[..]), actions, i);
      actionsLength := Sub16(actionsLength, length);
      at := at + length;
      i := i + 1;
      NextAction(order, Big, order, fs, actions, i);
    }
    NextAction(order, Big, order, fs, actions, i);
  }

  method HtonFlowStats(order: Order, dst: array<byte>, d: nat, src: array<byte>, s: nat,
                       ghost x: Bytes, ghost actions: seq<Bytes>)
    requires FlowRecord(order, x, actions) && s + |x| <= src.Length && src[..][s..s + |x|] == x && d + |x| <= dst.Length
    modifies dst
    ensures dst[..] == Splice(old(dst[..]), d, ConvertedFlow(order, order, x, actions))
  {
    hide Splice, ConvertedFlow;
    SliceStart(order, src[..], s, x, 0);
    HtonFlowStatsCopy(order, dst, d, src[..][s..s + Get16(order, src[..][s..], 0)], actions);
  }

  /** hton_flow_stats from its private copy of the record on. */
  method HtonFlowStatsCopy(order: Order, dst: array<byte>, d: nat, fs: Bytes, ghost actions: seq<Bytes>)
    requires FlowRecord(order, fs, actions) && d + |fs| <= dst.Length
    modifies dst
    ensures dst[..] == Splice(old(dst[..]), d, ConvertedFlow(order, order, fs, actions))
  {
    FlowStatsFields(order, dst, d, fs);
    assert FlowUpTo(order, order, fs, actions, 0) == Conv(order, FlowStatsHead, fs[..FLOW_STATS_ACTIONS]);
    assert Get16(order, fs, 0) == |fs|;
    hide FlowUpTo, FlowRecord, Splice, Conv, Sub16;
    var actionsLength := Sub16(Get16(order, fs, 0), FLOW_STATS_ACTIONS);
    var at := FLOW_STATS_ACTIONS;
    ghost var i := 0;
    NextAction(order, order, Big, fs, actions, i);
    while actionsLength >= ACTION_HEADER
      invariant i <= |actions| && at == |FlowUpTo(order, order, fs, actions, i)| <= |fs| && actionsLength == |fs| - at
      invariant i == |actions| ==> at == |fs|
      invariant dst[..] == Splice(old(dst[..]), d, FlowUpTo(order, order, fs, actions, i))
      decreases actionsLength
    {
      var length := HtonNextAction(order, dst, d, fs, at, old(dst[..]), actions, i);
      actionsLength := Sub16(actionsLength, length);
      at := at + length;
      i := i + 1;
      NextAction(order, order, Big, fs, actions, i);
    }
    NextAction(order, order, Big, fs, actions, i);
  }

  ghost function ZeroedActions(from: Order, actions: seq<Bytes>): seq<Bytes>
    requires forall i :: 0 <= i < |actions| ==> Known(from, actions[i])
  {
    seq(|actions|, i requires 0 <= i < |actions| => ZeroedAction(from, actions[i]))
  }

  ghost function ZeroedFlow(from: Order, x: Bytes, actions: seq<Bytes>): Bytes
    requires FlowRecord(from, x, actions)
  {
    ZeroPads(FlowStatsHead, x[..FLOW_STATS_ACTIONS]) + Flatten(ZeroedActions(from, actions))
  }

  lemma ActionsRoundTrip(order: Order, from: Order, to: Order, actions: seq<Bytes>)
    requires Between(order, from, to) && forall i :: 0 <= i < |actions| ==> Known(from, actions[i])
    ensures var actions' := ConvertedAll(order, from, actions);
            && (forall i :: 0 <= i < |actions| ==> Known(to, actions'[i]))
            && ConvertedAll(order, to, actions') == ZeroedActions(from, actions)
  {
    hide Known, Converted, ZeroedAction;
    var actions' := ConvertedAll(order, from, actions);
    forall i | 0 <= i < |actions|
      ensures Known(to, actions'[i]) && Converted(order, to, actions'[i]) == ZeroedAction(from, actions[i])
    {
      ActionRoundTrip(order, from, to, actions[i]);
    }
  }

  /** Where the bytes of the length of a flow record, and of the id and the length of a queue, are. */
  lemma FieldBytes(s: Struct, k: nat)
    requires k < Width(s)
    ensures s.FlowStatsHead? && k < 2 ==> From(s, k) == Mirror(0, 2, k)
    ensures s.QueueHead? && k < 4 ==> From(s, k) == Mirror(0, 4, k)
    ensures s.QueueHead? && 4 <= k < 6 ==> From(s, k) == Mirror(4, 2, k)
  {
  }

  lemma FlowHeadRoundTrip(order: Order, from: Order, to: Order, head: Bytes)
    requires Between(order, from, to) && |head| == FLOW_STATS_ACTIONS
    ensures Get16(to, Conv(order, FlowStatsHead, head), 0) == Get16(from, head, 0)
    ensures Conv(order, FlowStatsHead, Conv(order, FlowStatsHead, head)) == ZeroPads(FlowStatsHead, head)
  {
    hide Conv, ZeroPads, Get16, From;
    FieldBytes(FlowStatsHead, 0);
    FieldBytes(FlowStatsHead, 1);
    Converted16(order, FlowStatsHead, head, 0);
    ConvTwice(order, FlowStatsHead, head);
  }

  lemma KnownTiles(from: Order, actions: seq<Bytes>)
    requires forall i :: 0 <= i < |actions| ==> Known(from, actions[i])
    ensures Tiles(from, ACTION, actions, Flatten(actions))
  {
  }

  /** Reading a field of the head of a whole. */
  lemma HeadField(order: Order, head: Bytes, rest: Bytes, o: nat)
    requires o + 2 <= |head|
    ensures (head + rest)[..|head|] == head && (head + rest)[|head|..] == rest
    ensures Get16(order, head + rest, o) == Get16(order, head, o)
  {
  }

  /** hton_flow_stats then ntoh_flow_stats, and the other way round, give the record back with its padding zeroed. */
  lemma FlowRoundTrip(order: Order, from: Order, to: Order, x: Bytes, actions: seq<Bytes>)
    requires Between(order, from, to) && FlowRecord(from, x, actions)
    ensures var y, actions' := ConvertedFlow(order, from, x, actions), ConvertedAll(order, from, actions);
            && FlowRecord(to, y, actions')
            && ConvertedFlow(order, to, y, actions') == ZeroedFlow(from, x, actions)
  {
    hide Conv, Known, ConvertedAll, ZeroedActions, ZeroPads, Get16, Between;
    var head, actions' := x[..FLOW_STATS_ACTIONS], ConvertedAll(order, from, actions);
    assert x == head + x[FLOW_STATS_ACTIONS..];
    HeadField(from, head, x[FLOW_STATS_ACTIONS..], 0);
    HeadField(to, Conv(order, FlowStatsHead, head), Flatten(actions'), 0);
    FlowHeadRoundTrip(order, from, to, head);
    ActionsRoundTrip(order, from, to, actions);
    KnownTiles(to, actions');
  }

  // ---------- queues ----------

  /** Where byte k of a converted queue property comes from; -1 for the bytes that the conversion leaves as they are. */
  function PropertyFrom(minRate: bool, k: nat): (from: int) {
    if k < 2 then Mirror(0, 2, k)                          // property
    else if k < 4 then Mirror(2, 2, k)                     // len
    else if minRate && 8 <= k < 10 then Mirror(8, 2, k)    // rate
    else -1
  }

  predicate IsMinRate(from: Order, x: Bytes)
    requires |x| >= 2
  {
    Get16(from, x, 0) == OFPQT_MIN_RATE
  }

  /** A whole property; the conversion relies only on a minimum rate being long enough to hold the rate. */
  predicate Property(from: Order, x: Bytes) {
    PROPERTY.Is(from, x) && (IsMinRate(from, x) ==> |x| >= 10)
  }

  /** The property x written over the bytes kept. */
  function ConvProperty(order: Order, minRate: bool, x: Bytes, kept: Bytes): (y: Bytes)
    requires |x| == |kept| && |x| >= (if minRate then 10 else 4)
    ensures |y| == |x|
  {
    seq(|x|, k requires 0 <= k < |x| =>
      if PropertyFrom(minRate, k) < 0 then kept[k] else if order.Big? then x[k] else x[PropertyFrom(minRate, k)])
  }

  lemma ConvPropertyIs(order: Order, minRate: bool, x: Bytes, kept: Bytes, y: Bytes)
    requires |x| == |kept| == |y| && |x| >= (if minRate then 10 else 4)
    requires forall k :: 0 <= k < |x| && PropertyFrom(minRate, k) < 0 ==> y[k] == kept[k]
    requires forall k :: 0 <= k < |x| && PropertyFrom(minRate, k) >= 0 ==>
               y[k] == if order.Big? then x[k] else x[PropertyFrom(minRate, k)]
    ensures y == ConvProperty(order, minRate, x, kept)
  {
  }

  method NtohQueueProperty(order: Order, dst: array<byte>, d: nat, src: Bytes, ghost x: Bytes)
    requires Property(Big, x) && x <= src && d + |x| <= dst.Length
    modifies dst
    ensures dst[..] == Splice(old(dst[..]), d, ConvProperty(order, IsMinRate(Big, x), x, old(dst[d..d + |x|])))
  {
    hide Splice, ConvProperty;
    var ph := src[..Net16(src, 2)];
    Swap(order, dst, d, ph, 0, 2);
    Swap(order, dst, d, ph, 2, 2);
    assert ph == x;
    if Get16(order, dst[d..d + 2], 0) == OFPQT_MIN_RATE {
      Swap(order, dst, d, ph, 8, 2);
    }
    ConvPropertyIs(order, IsMinRate(Big, x), x, old(dst[d..d + |x|]), dst[d..d + |x|]);
    SpliceIs(old(dst[..]), dst[..], d, dst[d..d + |x|]);
  }

  /** What src holds once y has been written to dst at d; the two may be the same memory. */
  ghost function Seen(src: array<byte>, dst: array<byte>, d: nat, y: Bytes): (m: Bytes)
    requires d + |y| <= dst.Length
    reads src, dst
    ensures |m| == src.Length
  {
    if src == dst then Splice(dst[..], d, y) else src[..]
  }

  /** The type and the length of a property in the other byte order. */
  ghost function PropertyHead(order: Order, x: Bytes): (y: Bytes)
    requires |x| >= 4
    ensures |y| == 4
  {
    ConvProperty(order, false, x[..4], x[..4])
  }

  /** hton_queue_property looks at the type in src only when it has written the type and the length of dst. */
  ghost predicate TakesForMinRate(order: Order, dst: array<byte>, d: nat, src: array<byte>, s: nat, x: Bytes)
    requires |x| >= 4 && s + 2 <= src.Length && d + 4 <= dst.Length
    reads src, dst
  {
    Get16(order, Seen(src, dst, d, PropertyHead(order, x)), s) == OFPQT_MIN_RATE
  }

  method HtonQueueProperty(order: Order, dst: array<byte>, d: nat, src: array<byte>, s: nat, ghost x: Bytes)
    requires PROPERTY.Is(order, x) && s + |x| <= src.Length && src[..][s..s + |x|] == x && d + |x| <= dst.Length
    requires TakesForMinRate(order, dst, d, src, s, x) ==> |x| >= 10
    modifies dst
    ensures var minRate := old(TakesForMinRate(order, dst, d, src, s, x));
            dst[..] == Splice(old(dst[..]), d, ConvProperty(order, minRate, x, old(dst[d..d + |x|])))
  {
    hide Splice, ConvProperty;
    ghost var minRate := TakesForMinRate(order, dst, d, src, s, x);
    SliceStart(order, src[..], s, x, 2);
    var ph := src[..][s..s + Get16(order, src[..][s..], 2)];
    assert ph == x;
    Swap(order, dst, d, ph, 0, 2);
    Swap(order, dst, d, ph, 2, 2);
    HeadWritten(order, old(dst[..]), dst[..], d, x);
    if Get16(order, src[..], s) == OFPQT_MIN_RATE {
      Swap(order, dst, d, ph, 8, 2);
    }
    ConvPropertyIs(order, minRate, x, old(dst[d..d + |x|]), dst[d..d + |x|]);
    SpliceIs(old(dst[..]), dst[..], d, dst[d..d + |x|]);
  }

  lemma HeadWritten(order: Order, b: Bytes, r: Bytes, d: nat, x: Bytes)
    requires |x| >= 4 && d + 4 <= |b| == |r|
    requires forall j :: d <= j < d + 2 ==> r[j] == if order.Big? then x[j - d] else x[Mirror(0, 2, j - d)]
    requires forall j :: d + 2 <= j < d + 4 ==> r[j] == if order.Big? then x[j - d] else x[Mirror(2, 2, j - d)]
    requires forall j :: 0 <= j < |b| && !(d <= j < d + 4) ==> r[j] == b[j]
    ensures r == Splice(b, d, PropertyHead(order, x))
  {
    SpliceIs(b, r, d, PropertyHead(order, x));
  }

  /** It takes the type right if dst is other memory, or does not reach the type. */
  lemma TypeTakenRight(order: Order, dst: array<byte>, d: nat, src: array<byte>, s: nat, x: Bytes)
    requires |x| >= 4 && s + |x| <= src.Length && src[..][s..s + |x|] == x && d + 4 <= dst.Length
    requires src != dst || d + 4 <= s || s + 2 <= d
    ensures TakesForMinRate(order, dst, d, src, s, x) == IsMinRate(order, x)
  {
    var m := Seen(src, dst, d, PropertyHead(order, x));
    SpliceAt(dst[..], d, PropertyHead(order, x));
    assert m[s] == src[..][s..s + |x|][0] && m[s + 1] == src[..][s..s + |x|][1];
  }

  /**
   In place it sees the type already converted. So of a property of a known type it takes the type right, and converts
   the rate, exactly if the host's byte order is the network's or there is no rate.
   */
  lemma PropertyInPlace(order: Order, dst: array<byte>, d: nat, x: Bytes)
    requires Property(order, x) && d + |x| <= dst.Length && dst[..][d..d + |x|] == x
    requires Get16(order, x, 0) <= OFPQT_MIN_RATE
    ensures TakesForMinRate(order, dst, d, dst, d, x) == IsMinRate(Big, x)
    ensures TakesForMinRate(order, dst, d, dst, d, x) == IsMinRate(order, x) <==> order.Big? || !IsMinRate(order, x)
  {
    var m := Seen(dst, dst, d, PropertyHead(order, x));
    SpliceAt(dst[..], d, PropertyHead(order, x));
    assert m[d] == PropertyHead(order, x)[0] && m[d + 1] == PropertyHead(order, x)[1];
  }

  /** A queue description in order from: properties tile what follows its fixed part. */
  ghost predicate QueueRecord(from: Order, x: Bytes, properties: seq<Bytes>) {
    && QUEUE.Is(from, x) && Tiles(from, PROPERTY, properties, x[QUEUE_PROPERTIES..])
    && forall i :: 0 <= i < |properties| ==> Property(from, properties[i])
  }

  /** The properties written over the bytes kept. */
  ghost function ConvertedProperties(order: Order, from: Order, properties: seq<Bytes>, kept: Bytes): (y: Bytes)
    requires |kept| == |Flatten(properties)|
    requires forall i :: 0 <= i < |properties| ==> Property(from, properties[i])
    ensures |y| == |kept|
  {
    if properties == [] then []
    else
      var x := properties[0];
      assert Property(from, x);
      ConvProperty(order, IsMinRate(from, x), x, kept[..|x|])
      + ConvertedProperties(order, from, properties[1..], kept[|x|..])
  }

  /** The queue description x written over the bytes kept. */
  ghost function ConvertedQueue(order: Order, from: Order, x: Bytes, properties: seq<Bytes>, kept: Bytes): (y: Bytes)
    requires QueueRecord(from, x, properties) && |kept| == |x|
    ensures |y| == |x|
  {
    Conv(order, QueueHead, x[..QUEUE_PROPERTIES])
    + ConvertedProperties(order, from, properties, kept[QUEUE_PROPERTIES..])
  }

  lemma PropertyAt(from: Order, x: Bytes, properties: seq<Bytes>, i: nat)
    requires QueueRecord(from, x, properties) && i <= |properties|
    ensures var at := QUEUE_PROPERTIES + |Flatten(properties[..i])|;
            && at + |Flatten(properties[i..])| == |x|
            && (i == |properties| ==> at == |x|)
            && (i < |properties| ==>
                  var p := properties[i];
                  && Property(from, p) && p <= x[at..] && |p| >= QUEUE_PROP_HEADER && at + |p| <= |x|
                  && at + |p| == QUEUE_PROPERTIES + |Flatten(properties[..i + 1])|)
  {
    var region := x[QUEUE_PROPERTIES..];
    TileAt(from, PROPERTY, properties, region, i);
    if i == |properties| {
      assert properties[i..] == [];
    } else {
      FlattenSplit(properties, i);
      assert region[|Flatten(properties[..i])|..] == x[QUEUE_PROPERTIES + |Flatten(properties[..i])|..];
    }
  }

  lemma ConvertedPropertiesNext(order: Order, from: Order, properties: seq<Bytes>, kept: Bytes, i: nat, at: nat)
    requires forall k :: 0 <= k < |properties| ==> Property(from, properties[k])
    requires i < |properties| && at + |Flatten(properties[i..])| == |kept|
    ensures |Flatten(properties[i..])| == |properties[i]| + |Flatten(properties[i + 1..])|
    ensures Property(from, properties[i])
    ensures var p := properties[i];
              ConvertedProperties(order, from, properties[i..], kept[at..])
              == ConvProperty(order, IsMinRate(from, p), p, kept[at..at + |p|])
                 + ConvertedProperties(order, from, properties[i + 1..], kept[at + |p|..])
  {
    var p := properties[i];
    FlattenFrom(properties, i);
    assert properties[i..][1..] == properties[i + 1..];
    assert kept[at..][..|p|] == kept[at..at + |p|] && kept[at..][|p|..] == kept[at + |p|..];
  }

  lemma ConvPropertyAt(order: Order, minRate: bool, x: Bytes, kept: Bytes, k: nat)
    requires |kept| == |x| && |x| >= (if minRate then 10 else 4) && k < |x|
    ensures ConvProperty(order, minRate, x, kept)[k]
         == if PropertyFrom(minRate, k) < 0 then kept[k] else if order.Big? then x[k] else x[PropertyFrom(minRate, k)]
  {
  }

  lemma FieldOfProperty(minRate: bool, o: nat)
    requires o == 0 || o == 2 || (o == 8 && minRate)
    ensures PropertyFrom(minRate, o) == o + 1 && PropertyFrom(minRate, o + 1) == o
  {
  }

  lemma PropertyField(order: Order, minRate: bool, x: Bytes, kept: Bytes, o: nat)
    requires |kept| == |x| && |x| >= (if minRate then 10 else 4)
    requires o == 0 || o == 2 || (o == 8 && minRate)
    ensures var y := ConvProperty(order, minRate, x, kept);
              && y[o] == (if order.Big? then x[o] else x[o + 1])
              && y[o + 1] == (if order.Big? then x[o + 1] else x[o])
  {
    hide PropertyFrom, ConvProperty;
    FieldOfProperty(minRate, o);
    ConvPropertyAt(order, minRate, x, kept, o);
    ConvPropertyAt(order, minRate, x, kept, o + 1);
  }

  lemma ConvertedProperty16(order: Order, from: Order, to: Order, minRate: bool, x: Bytes, kept: Bytes, o: nat)
    requires Between(order, from, to) && |kept| == |x| && |x| >= (if minRate then 10 else 4)
    requires o == 0 || o == 2 || (o == 8 && minRate)
    ensures Get16(to, ConvProperty(order, minRate, x, kept), o) == Get16(from, x, o)
  {
    hide ConvProperty;
    PropertyField(order, minRate, x, kept, o);
  }

  /** The fixed part of a converted queue followed by done, which is what the first i properties became. */
  ghost predicate QueueUpTo(order: Order, from: Order, x: Bytes, properties: seq<Bytes>, kept: Bytes, i: nat,
                            done: Bytes)
    requires QueueRecord(from, x, properties) && |kept| == |x|
  {
    && i <= |properties| && |done| == QUEUE_PROPERTIES + |Flatten(properties[..i])| <= |x|
    && |x| - |done| == |Flatten(properties[i..])|
    && done + ConvertedProperties(order, from, properties[i..], kept[|done|..])
       == ConvertedQueue(order, from, x, properties, kept)
  }

  lemma QueueStart(order: Order, from: Order, x: Bytes, properties: seq<Bytes>, kept: Bytes)
    requires QueueRecord(from, x, properties) && |kept| == |x|
    ensures QueueUpTo(order, from, x, properties, kept, 0, Conv(order, QueueHead, x[..QUEUE_PROPERTIES]))
  {
    assert properties[0..] == properties && properties[..0] == [];
  }

  lemma QueueEnd(order: Order, from: Order, x: Bytes, properties: seq<Bytes>, kept: Bytes, i: nat, done: Bytes)
    requires QueueRecord(from, x, properties) && |kept| == |x|
    requires QueueUpTo(order, from, x, properties, kept, i, done)
    ensures if i == |properties| then |done| == |x| && done == ConvertedQueue(order, from, x, properties, kept)
            else |done| + QUEUE_PROP_HEADER <= |x|
  {
    PropertyAt(from, x, properties, i);
    assert done + [] == done;
  }

  lemma QueueNext(order: Order, from: Order, x: Bytes, properties: seq<Bytes>, kept: Bytes, i: nat, done: Bytes,
                  y: Bytes)
    requires QueueRecord(from, x, properties) && |kept| == |x|
    requires QueueUpTo(order, from, x, properties, kept, i, done) && i < |properties|
    requires Property(from, properties[i]) && |done| + |properties[i]| <= |x|
    requires var p := properties[i];
               y == ConvProperty(order, IsMinRate(from, p), p, kept[|done|..|done| + |p|])
    ensures QueueUpTo(order, from, x, properties, kept, i + 1, done + y)
  {
    hide ConvertedQueue, ConvProperty;
    var at' := |done| + |y|;
    assert |Flatten(properties[i + 1..])| == |kept[at'..]|
            && at' == QUEUE_PROPERTIES + |Flatten(properties[..i + 1])| by {
      PropertyAt(from, x, properties, i);
      PropertyAt(from, x, properties, i + 1);
    }
    ConvertedPropertiesNext(order, from, properties, kept, i, |done|);
    hide ConvertedProperties, QueueRecord, Flatten;
    Shift(done, y, ConvertedProperties(order, from, properties[i + 1..], kept[at'..]),
          ConvertedProperties(order, from, properties[i..], kept[|done|..]),
          ConvertedQueue(order, from, x, properties, kept));
  }

  lemma Shift<A>(done: seq<A>, y: seq<A>, rest: seq<A>, left: seq<A>, whole: seq<A>)
    requires done + left == whole && left == y + rest
    ensures |done + y| == |done| + |y| && done + y + rest == whole
  {
  }

  method PacketQueueFields(order: Order, dst: array<byte>, d: nat, pq: Bytes)
    requires d + QUEUE_PROPERTIES <= dst.Length && QUEUE_PROPERTIES <= |pq|
    modifies dst
    ensures dst[..] == Splice(old(dst[..]), d, Conv(order, QueueHead, pq[..QUEUE_PROPERTIES]))
  {
    Swap(order, dst, d, pq, 0, 4);
    Swap(order, dst, d, pq, 4, 2);
    Clear(dst, d, 6, 2);
    SpliceIs(old(dst[..]), dst[..], d, Conv(order, QueueHead, pq[..QUEUE_PROPERTIES]));
  }

  /** What follows a splice is still what it was. */
  lemma SpliceRest(b: Bytes, d: nat, done: Bytes, size: nat, n: nat)
    requires d + size <= |b| && |done| + n <= size
    ensures Splice(b, d, done)[d + |done|..d + |done| + n] == b[d..d + size][|done|..|done| + n]
  {
    hide Splice;
    SpliceAt(b, d, done);
    var m := Splice(b, d, done);
    var l, r := m[d + |done|..d + |done| + n], b[d..d + size][|done|..|done| + n];
    forall k | 0 <= k < n ensures l[k] == r[k] {
      assert l[k] == m[d + |done| + k] && r[k] == b[d..d + size][|done| + k] == b[d + |done| + k];
    }
  }

  lemma QueueBound(order: Order, from: Order, x: Bytes, properties: seq<Bytes>, kept: Bytes, i: nat, done: Bytes)
    requires QueueRecord(from, x, properties) && |kept| == |x|
    requires QueueUpTo(order, from, x, properties, kept, i, done)
    ensures i <= |properties| && |done| <= |x|
  {
  }

  lemma PropertyLeast(from: Order, p: Bytes)
    requires Property(from, p)
    ensures PROPERTY.Is(from, p) && |p| >= (if IsMinRate(from, p) then 10 else 8)
  {
  }

  /** The property that is next. */
  lemma QueueHere(order: Order, from: Order, x: Bytes, properties: seq<Bytes>, kept: Bytes, i: nat, done: Bytes)
    requires QueueRecord(from, x, properties) && |kept| == |x| && i < |properties|
    requires QueueUpTo(order, from, x, properties, kept, i, done)
    ensures var p := properties[i];
            && Property(from, p) && |done| + |p| <= |x| && p <= x[|done|..] && |p| >= QUEUE_PROP_HEADER
  {
    hide Property;
    PropertyAt(from, x, properties, i);
  }

  /** One round of the loop of ntoh_packet_queue; the length comes from the converted property. */
  method NtohNextProperty(order: Order, dst: array<byte>, d: nat, pq: Bytes, at: nat, ghost b: Bytes,
                          ghost properties: seq<Bytes>, ghost i: nat, ghost done: Bytes)
    returns (length: u16, ghost done': Bytes)
    requires QueueRecord(Big, pq, properties) && i < |properties| && d + |pq| <= dst.Length == |b|
    requires QueueUpTo(order, Big, pq, properties, b[d..d + |pq|], i, done) && at == |done|
    requires dst[..] == Splice(b, d, done)
    modifies dst
    ensures QueueUpTo(order, Big, pq, properties, b[d..d + |pq|], i + 1, done')
    ensures length >= QUEUE_PROP_HEADER && |done'| == at + length
    ensures dst[..] == Splice(b, d, done')
  {
    hide Splice, QueueRecord, QueueUpTo, ConvProperty, Property;
    ghost var p, kept := properties[i], b[d..d + |pq|];
    QueueHere(order, Big, pq, properties, kept, i, done);
    PropertyLeast(Big, p);
    SpliceRest(b, d, done, |pq|, |p|);
    ghost var y := ConvProperty(order, IsMinRate(Big, p), p, kept[at..at + |p|]);
    QueueNext(order, Big, pq, properties, kept, i, done, y);
    NtohQueueProperty(order, dst, d + at, pq[at..], p);
    done' := done + y;
    SpliceMore(b, d, done, y);
    SpliceEnd(b, d, done, y, order, 2);
    ConvertedProperty16(order, Big, order, IsMinRate(Big, p), p, kept[at..at + |p|], 2);
    length := Get16(order, dst[..], d + at + 2);
  }

  /** ntoh_packet_queue from its private copy of the queue on. */
  method NtohPacketQueueCopy(order: Order, dst: array<byte>, d: nat, pq: Bytes, ghost properties: seq<Bytes>)
    requires QueueRecord(Big, pq, properties) && d + |pq| <= dst.Length
    modifies dst
    ensures dst[..] == Splice(old(dst[..]), d, ConvertedQueue(order, Big, pq, properties, old(dst[d..d + |pq|])))
  {
    PacketQueueFields(order, dst, d, pq);
    ghost var kept, i, done := old(dst[d..d + |pq|]), 0, Conv(order, QueueHead, pq[..QUEUE_PROPERTIES]);
    QueueStart(order, Big, pq, properties, kept);
    QueueEnd(order, Big, pq, properties, kept, i, done);
    assert Net16(pq, 4) == |pq|;
    hide QueueRecord, QueueUpTo, Splice, Conv, Sub16;
    var propertiesLength := Sub16(Net16(pq, 4), QUEUE_PROPERTIES);
    var at := QUEUE_PROPERTIES;
    while propertiesLength >= QUEUE_PROP_HEADER
      invariant QueueUpTo(order, Big, pq, properties, kept, i, done)
      invariant i <= |properties| && at == |done| <= |pq| && propertiesLength == |pq| - at
      invariant if i == |properties| then done == ConvertedQueue(order, Big, pq, properties, kept) && at == |pq|
                else at + QUEUE_PROP_HEADER <= |pq|
      invariant dst[..] == Splice(old(dst[..]), d, done)
      decreases propertiesLength
    {
      var length;
      length, done := NtohNextProperty(order, dst, d, pq, at, old(dst[..]), properties, i, done);
      i := i + 1;
      QueueBound(order, Big, pq, properties, kept, i, done);
      QueueEnd(order, Big, pq, properties, kept, i, done);
      propertiesLength := Sub16(propertiesLength, length);
      at := at + length;
    }
  }

  /** dst may be the same memory as src: the queue is copied before anything is written. */
  method NtohPacketQueue(order: Order, dst: array<byte>, d: nat, src: array<byte>, s: nat,
                         ghost x: Bytes, ghost properties: seq<Bytes>)
    requires QueueRecord(Big, x, properties) && s + |x| <= src.Length && src[..][s..s + |x|] == x
            && d + |x| <= dst.Length
    modifies dst
    ensures dst[..] == Splice(old(dst[..]), d, ConvertedQueue(order, Big, x, properties, old(dst[d..d + |x|])))
  {
    hide Splice, ConvertedQueue;
    SliceStart(Big, src[..], s, x, 4);
    NtohPacketQueueCopy(order, dst, d, src[..][s..s + Net16(src[..][s..], 4)], properties);
  }

  /** One round of the loop of hton_packet_queue; the length comes from the property being converted. */
  method HtonNextProperty(order: Order, dst: array<byte>, d: nat, pq: array<byte>, at: nat, ghost x: Bytes,
                          ghost b: Bytes, ghost properties: seq<Bytes>, ghost i: nat, ghost done: Bytes)
    returns (length: u16, ghost done': Bytes)
    requires pq != dst && pq[..] == x
    requires QueueRecord(order, x, properties) && i < |properties| && d + |x| <= dst.Length == |b|
    requires QueueUpTo(order, order, x, properties, b[d..d + |x|], i, done) && at == |done|
    requires dst[..] == Splice(b, d, done)
    modifies dst
    ensures QueueUpTo(order, order, x, properties, b[d..d + |x|], i + 1, done')
    ensures length >= QUEUE_PROP_HEADER && |done'| == at + length
    ensures dst[..] == Splice(b, d, done')
  {
    hide Splice, QueueRecord, QueueUpTo, ConvProperty, TakesForMinRate, Property;
    ghost var p, kept := properties[i], b[d..d + |x|];
    QueueHere(order, order, x, properties, kept, i, done);
    PropertyLeast(order, p);
    SpliceRest(b, d, done, |x|, |p|);
    ghost var y := ConvProperty(order, IsMinRate(order, p), p, kept[at..at + |p|]);
    QueueNext(order, order, x, properties, kept, i, done, y);
    SliceIs(x, at, p);
    TypeTakenRight(order, dst, d + at, pq, at, p);
    HtonQueueProperty(order, dst, d + at, pq, at, p);
    done' := done + y;
    SpliceMore(b, d, done, y);
    SliceStart(order, x, at, p, 2);
    length := Get16(order, pq[..][at..], 2);
  }

  lemma SliceIs(x: Bytes, at: nat, p: Bytes)
    requires at + |p| <= |x| && p <= x[at..]
    ensures x[at..at + |p|] == p
  {
  }

  /** The loop of hton_packet_queue over the properties of its private copy. */
  method HtonProperties(order: Order, dst: array<byte>, d: nat, pq: array<byte>, propertiesLength: u16, ghost x: Bytes,
                        ghost b: Bytes, ghost properties: seq<Bytes>)
    requires pq != dst && pq[..] == x && QueueRecord(order, x, properties) && d + |x| <= dst.Length == |b|
    requires propertiesLength == |x| - QUEUE_PROPERTIES
    requires dst[..] == Splice(b, d, Conv(order, QueueHead, x[..QUEUE_PROPERTIES]))
    modifies dst
    ensures dst[..] == Splice(b, d, ConvertedQueue(order, order, x, properties, b[d..d + |x|]))
  {
    ghost var kept, i, done := b[d..d + |x|], 0, Conv(order, QueueHead, x[..QUEUE_PROPERTIES]);
    QueueStart(order, order, x, properties, kept);
    QueueEnd(order, order, x, properties, kept, i, done);
    hide QueueRecord, QueueUpTo, Splice, Conv, Sub16;
    var left, at := propertiesLength, QUEUE_PROPERTIES;
    while left >= QUEUE_PROP_HEADER
      invariant QueueUpTo(order, order, x, properties, kept, i, done)
      invariant i <= |properties| && at == |done| <= |x| && left == |x| - at
      invariant if i == |properties| then done == ConvertedQueue(order, order, x, properties, kept) && at == |x|
                else at + QUEUE_PROP_HEADER <= |x|
      invariant pq[..] == x && dst[..] == Splice(b, d, done)
      decreases left
    {
      var length;
      length, done := HtonNextProperty(order, dst, d, pq, at, x, b, properties, i, done);
      i := i + 1;
      QueueBound(order, order, x, properties, kept, i, done);
      QueueEnd(order, order, x, properties, kept, i, done);
      left := Sub16(left, length);
      at := at + length;
    }
  }

  /** hton_packet_queue looks at the length in src only when it has written the fixed part of dst. */
  ghost function LengthTaken(order: Order, dst: array<byte>, d: nat, src: array<byte>, s: nat, x: Bytes): u16
    requires |x| >= QUEUE_PROPERTIES && s + 6 <= src.Length && d + |x| <= dst.Length
    reads src, dst
  {
    Get16(order, Seen(src, dst, d, Conv(order, QueueHead, x[..QUEUE_PROPERTIES])), s + 4)
  }

  /** dst may be the same memory as src, as long as its fixed part leaves src's length as it is. */
  method HtonPacketQueue(order: Order, dst: array<byte>, d: nat, src: array<byte>, s: nat,
                         ghost x: Bytes, ghost properties: seq<Bytes>)
    requires QueueRecord(order, x, properties) && s + |x| <= src.Length && src[..][s..s + |x|] == x
            && d + |x| <= dst.Length
    requires LengthTaken(order, dst, d, src, s, x) == |x|
    modifies dst
    ensures dst[..] == Splice(old(dst[..]), d, ConvertedQueue(order, order, x, properties, old(dst[d..d + |x|])))
  {
    hide Splice, ConvertedQueue, Conv;
    SliceStart(order, src[..], s, x, 4);
    var n := Get16(order, src[..][s..], 4);
    var pq := new byte[n];
    Copy(pq, 0, src[..][s..s + n], 0, n);
    assert pq[..] == x;
    PacketQueueFields(order, dst, d, pq[..]);
    assert pq[..] == x;
    var propertiesLength := Sub16(Get16(order, src[..], s + 4), QUEUE_PROPERTIES);
    HtonProperties(order, dst, d, pq, propertiesLength, x, old(dst[..]), properties);
  }

  /** It takes the length right if dst is other memory, or its fixed part does not reach the length. */
  lemma LengthTakenRight(order: Order, dst: array<byte>, d: nat, src: array<byte>, s: nat, x: Bytes)
    requires QUEUE.Is(order, x) && s + |x| <= src.Length && src[..][s..s + |x|] == x && d + |x| <= dst.Length
    requires src != dst || d + QUEUE_PROPERTIES <= s + 4 || s + 6 <= d
    ensures LengthTaken(order, dst, d, src, s, x) == |x|
  {
    hide Conv, Splice;
    var y := Conv(order, QueueHead, x[..QUEUE_PROPERTIES]);
    SpliceAt(dst[..], d, y);
    var m := Seen(src, dst, d, y);
    assert m[s + 4] == src[..][s..s + |x|][4] && m[s + 5] == src[..][s..s + |x|][5];
  }

  /** Counting down from left, in 16 bits, the loop stops when it has converted all the properties and no sooner. */
  ghost predicate StopsAfter(left: u16, properties: seq<Bytes>)
    requires forall i :: 0 <= i < |properties| ==> |properties[i]| <= USHRT_MAX
    decreases |properties|
  {
    if properties == [] then left < QUEUE_PROP_HEADER
    else left >= QUEUE_PROP_HEADER && StopsAfter(Sub16(left, |properties[0]|), properties[1..])
  }

  lemma {:induction false} StopsAfterIs(left: u16, properties: seq<Bytes>)
    requires forall i :: 0 <= i < |properties| ==> QUEUE_PROP_HEADER <= |properties[i]| <= USHRT_MAX
    ensures left == |Flatten(properties)| ==> StopsAfter(left, properties)
    ensures StopsAfter(left, properties) ==> (left as int - |Flatten(properties)|) % 0x1_0000 < QUEUE_PROP_HEADER
    decreases |properties|
  {
    if properties != [] {
      StopsAfterIs(Sub16(left, |properties[0]|), properties[1..]);
      SubMod(left, |properties[0]|, |Flatten(properties[1..])|);
    }
  }

  lemma SubMod(a: int, b: int, c: int)
    ensures ((a - b) % 0x1_0000 - c) % 0x1_0000 == (a - (b + c)) % 0x1_0000
  {
  }

  /** A length with its bytes exchanged is not even close to it, unless it is the same. */
  lemma SwappedLength(order: Order, x: Bytes)
    requires QUEUE.Is(order, x)
    ensures (Net16(x, 4) as int - |x|) % 0x1_0000 < QUEUE_PROP_HEADER <==> order.Big? || |x| / 0x100 == |x| % 0x100
    ensures order.Big? || |x| / 0x100 == |x| % 0x100 ==> Net16(x, 4) == |x|
  {
    if order.Little? {
      SwappedJoin(x[5], x[4]);
    }
  }

  lemma SwappedJoin(high: byte, low: byte)
    ensures Join(high, low) as int / 0x100 == high && Join(high, low) as int % 0x100 == low
    ensures (Join(low, high) as int - Join(high, low)) % 0x1_0000 < QUEUE_PROP_HEADER <==> high == low
  {
    FarFromMultiple(low as int - high);
  }

  lemma FarFromMultiple(d: int)
    requires -0x100 < d < 0x100
    ensures 255 * d % 0x1_0000 < QUEUE_PROP_HEADER <==> d == 0
  {
    assert 255 * d % 0x1_0000 == if d >= 0 then 255 * d else 255 * d + 0x1_0000;
  }

  lemma StopsAtEnd(length: u16, x: Bytes, properties: seq<Bytes>)
    requires |x| == QUEUE_PROPERTIES + |Flatten(properties)|
    requires forall i :: 0 <= i < |properties| ==> QUEUE_PROP_HEADER <= |properties[i]| <= USHRT_MAX
    ensures length == |x| ==> StopsAfter(Sub16(length, QUEUE_PROPERTIES), properties)
    ensures StopsAfter(Sub16(length, QUEUE_PROPERTIES), properties) ==>
              (length as int - |x|) % 0x1_0000 < QUEUE_PROP_HEADER
  {
    hide Flatten, StopsAfter;
    StopsAfterIs(Sub16(length, QUEUE_PROPERTIES), properties);
    SubMod(length, QUEUE_PROPERTIES, |Flatten(properties)|);
  }

  lemma PropertyLengths(order: Order, x: Bytes, properties: seq<Bytes>)
    requires QueueRecord(order, x, properties)
    ensures |x| == QUEUE_PROPERTIES + |Flatten(properties)|
    ensures forall i :: 0 <= i < |properties| ==> QUEUE_PROP_HEADER <= |properties[i]| <= USHRT_MAX
  {
    forall i | 0 <= i < |properties| ensures QUEUE_PROP_HEADER <= |properties[i]| <= USHRT_MAX {
      assert Property(order, properties[i]);
    }
  }

  /**
   In place it takes the length already converted. So it converts all the properties and stops there exactly if the
   host's byte order is the network's, or the two bytes of the length are the same.
   */
  lemma QueueInPlace(order: Order, dst: array<byte>, d: nat, x: Bytes, properties: seq<Bytes>)
    requires QueueRecord(order, x, properties) && d + |x| <= dst.Length && dst[..][d..d + |x|] == x
    ensures forall i :: 0 <= i < |properties| ==> |properties[i]| <= USHRT_MAX
    ensures LengthTaken(order, dst, d, dst, d, x) == Net16(x, 4)
    ensures StopsAfter(Sub16(LengthTaken(order, dst, d, dst, d, x), QUEUE_PROPERTIES), properties)
       <==> order.Big? || |x| / 0x100 == |x| % 0x100
  {
    hide LengthTaken, StopsAfter, Sub16, Get16;
    PropertyLengths(order, x, properties);
    InPlaceLength(order, dst, d, x);
    SwappedLength(order, x);
    StopsAtEnd(Net16(x, 4), x, properties);
  }

  lemma InPlaceLength(order: Order, dst: array<byte>, d: nat, x: Bytes)
    requires |x| >= QUEUE_PROPERTIES && d + |x| <= dst.Length
    ensures LengthTaken(order, dst, d, dst, d, x) == Net16(x, 4)
  {
    hide Conv, Splice;
    var head := x[..QUEUE_PROPERTIES];
    var y := Conv(order, QueueHead, head);
    FieldBytes(QueueHead, 4);
    FieldBytes(QueueHead, 5);
    Converted16(order, QueueHead, head, 4);
    SpliceAt(dst[..], d, y);
    assert Seen(dst, dst, d, y)[d + 4] == y[4] && Seen(dst, dst, d, y)[d + 5] == y[5];
  }

  /** Two properties, each in its own byte order, have the same length and the same fields. */
  ghost predicate SameProperty(from: Order, x: Bytes, to: Order, y: Bytes) {
    && Property(from, x) && Property(to, y) && |x| == |y| && Get16(from, x, 0) == Get16(to, y, 0)
    && (IsMinRate(from, x) ==> Get16(from, x, 8) == Get16(to, y, 8))
  }

  ghost predicate SameProperties(from: Order, xs: seq<Bytes>, to: Order, ys: seq<Bytes>) {
    |xs| == |ys| && forall i :: 0 <= i < |xs| ==> SameProperty(from, xs[i], to, ys[i])
  }

  lemma PropertyRoundTrip(order: Order, from: Order, to: Order, x: Bytes, kept: Bytes)
    requires Between(order, from, to) && Property(from, x) && |kept| == |x|
    ensures SameProperty(from, x, to, ConvProperty(order, IsMinRate(from, x), x, kept))
  {
    hide ConvProperty;
    ConvertedProperty16(order, from, to, IsMinRate(from, x), x, kept, 0);
    ConvertedProperty16(order, from, to, IsMinRate(from, x), x, kept, 2);
    if IsMinRate(from, x) {
      ConvertedProperty16(order, from, to, true, x, kept, 8);
    }
  }

  /** The converted properties, one by one. */
  ghost function ConvertedEach(order: Order, from: Order, properties: seq<Bytes>, kept: Bytes): (ys: seq<Bytes>)
    requires |kept| == |Flatten(properties)|
    requires forall i :: 0 <= i < |properties| ==> Property(from, properties[i])
    ensures |ys| == |properties| && Flatten(ys) == ConvertedProperties(order, from, properties, kept)
  {
    if properties == [] then []
    else
      var x := properties[0];
      assert Property(from, x);
      [ConvProperty(order, IsMinRate(from, x), x, kept[..|x|])]
      + ConvertedEach(order, from, properties[1..], kept[|x|..])
  }

  /** The fields of the property x over the bytes kept, in the byte order that it has. */
  function RestoredProperty(minRate: bool, x: Bytes, kept: Bytes): (y: Bytes)
    requires |x| == |kept|
    ensures |y| == |x|
  {
    seq(|x|, k requires 0 <= k < |x| => if PropertyFrom(minRate, k) < 0 then kept[k] else x[k])
  }

  ghost function RestoredEach(from: Order, properties: seq<Bytes>, kept: Bytes): (ys: seq<Bytes>)
    requires |kept| == |Flatten(properties)|
    requires forall i :: 0 <= i < |properties| ==> Property(from, properties[i])
    ensures |ys| == |properties| && |Flatten(ys)| == |kept|
  {
    if properties == [] then []
    else
      var x := properties[0];
      assert Property(from, x);
      [RestoredProperty(IsMinRate(from, x), x, kept[..|x|])] + RestoredEach(from, properties[1..], kept[|x|..])
  }

  /** The queue x as it was, but for the padding: zero in its fixed part, and whatever was kept in its properties. */
  ghost function RestoredQueue(from: Order, x: Bytes, properties: seq<Bytes>, kept: Bytes): (y: Bytes)
    requires QueueRecord(from, x, properties) && |kept| == |x|
  {
    ZeroPads(QueueHead, x[..QUEUE_PROPERTIES]) + Flatten(RestoredEach(from, properties, kept[QUEUE_PROPERTIES..]))
  }

  lemma PropertyTwice(order: Order, minRate: bool, x: Bytes, kept: Bytes, kept': Bytes)
    requires |x| == |kept| == |kept'| && |x| >= (if minRate then 10 else 4)
    ensures ConvProperty(order, minRate, ConvProperty(order, minRate, x, kept), kept')
         == RestoredProperty(minRate, x, kept')
  {
  }

  lemma PropertyRestored(from: Order, x: Bytes, kept: Bytes)
    requires Property(from, x) && |kept| == |x|
    ensures SameProperty(from, x, from, RestoredProperty(IsMinRate(from, x), x, kept))
  {
  }

  lemma {:induction false} PropertiesConverted(order: Order, from: Order, to: Order, xs: seq<Bytes>, kept: Bytes)
    requires Between(order, from, to) && |kept| == |Flatten(xs)|
    requires forall i :: 0 <= i < |xs| ==> Property(from, xs[i])
    ensures SameProperties(from, xs, to, ConvertedEach(order, from, xs, kept))
    decreases |xs|
  {
    if xs != [] {
      hide ConvProperty, SameProperty, IsMinRate;
      var x := xs[0];
      assert Property(from, x);
      PropertyRoundTrip(order, from, to, x, kept[..|x|]);
      PropertiesConverted(order, from, to, xs[1..], kept[|x|..]);
      SameFirst(from, x, xs[1..], to, ConvProperty(order, IsMinRate(from, x), x, kept[..|x|]),
                ConvertedEach(order, from, xs[1..], kept[|x|..]));
      assert xs == [x] + xs[1..];
    }
  }

  lemma {:induction false} PropertiesRestored(from: Order, xs: seq<Bytes>, kept: Bytes)
    requires |kept| == |Flatten(xs)|
    requires forall i :: 0 <= i < |xs| ==> Property(from, xs[i])
    ensures SameProperties(from, xs, from, RestoredEach(from, xs, kept))
    decreases |xs|
  {
    if xs != [] {
      hide RestoredProperty, SameProperty, IsMinRate;
      var x := xs[0];
      assert Property(from, x);
      PropertyRestored(from, x, kept[..|x|]);
      PropertiesRestored(from, xs[1..], kept[|x|..]);
      SameFirst(from, x, xs[1..], from, RestoredProperty(IsMinRate(from, x), x, kept[..|x|]),
                RestoredEach(from, xs[1..], kept[|x|..]));
      assert xs == [x] + xs[1..];
    }
  }

  /** Both conversions of the first property. */
  lemma FirstPropertyTwice(order: Order, from: Order, to: Order, x: Bytes, kept: Bytes, kept': Bytes)
    requires Between(order, from, to) && Property(from, x) && |kept| == |kept'| == |x|
    ensures var y := ConvProperty(order, IsMinRate(from, x), x, kept);
            && Property(to, y)
            && ConvProperty(order, IsMinRate(to, y), y, kept') == RestoredProperty(IsMinRate(from, x), x, kept')
  {
    hide ConvProperty, RestoredProperty, SameProperty, IsMinRate;
    PropertyRoundTrip(order, from, to, x, kept);
    SameKind(from, x, to, ConvProperty(order, IsMinRate(from, x), x, kept));
    PropertyTwice(order, IsMinRate(from, x), x, kept, kept');
  }

  lemma {:induction false} PropertiesRoundTrip(order: Order, from: Order, to: Order, xs: seq<Bytes>, kept: Bytes,
                                               kept': Bytes)
    requires Between(order, from, to) && |kept| == |kept'| == |Flatten(xs)|
    requires forall i :: 0 <= i < |xs| ==> Property(from, xs[i])
    ensures var ys := ConvertedEach(order, from, xs, kept);
            && (forall i :: 0 <= i < |ys| ==> Property(to, ys[i]))
            && ConvertedProperties(order, to, ys, kept') == Flatten(RestoredEach(from, xs, kept'))
    decreases |xs|
  {
    hide ConvProperty, SameProperty, RestoredProperty, IsMinRate, Between, Property, SameProperties;
    PropertiesConverted(order, from, to, xs, kept);
    SamePropertiesTile(from, xs, to, ConvertedEach(order, from, xs, kept));
    if xs != [] {
      var x := xs[0];
      assert Property(from, x);
      FirstPropertyTwice(order, from, to, x, kept[..|x|], kept'[..|x|]);
      PropertiesRoundTrip(order, from, to, xs[1..], kept[|x|..], kept'[|x|..]);
    }
  }

  lemma SameKind(from: Order, x: Bytes, to: Order, y: Bytes)
    requires SameProperty(from, x, to, y)
    ensures Property(to, y) && IsMinRate(to, y) == IsMinRate(from, x)
  {
  }

  lemma SameFirst(from: Order, x: Bytes, xs: seq<Bytes>, to: Order, y: Bytes, ys: seq<Bytes>)
    requires SameProperty(from, x, to, y) && SameProperties(from, xs, to, ys)
    ensures SameProperties(from, [x] + xs, to, [y] + ys)
  {
  }

  lemma SamePropertiesTile(from: Order, xs: seq<Bytes>, to: Order, ys: seq<Bytes>)
    requires SameProperties(from, xs, to, ys)
    ensures forall i :: 0 <= i < |ys| ==> Property(to, ys[i])
    ensures Tiles(to, PROPERTY, ys, Flatten(ys))
  {
    forall i | 0 <= i < |ys| ensures Property(to, ys[i]) {
      assert SameProperty(from, xs[i], to, ys[i]);
    }
  }

  lemma QueueHeadRoundTrip(order: Order, from: Order, to: Order, head: Bytes)
    requires Between(order, from, to) && |head| == QUEUE_PROPERTIES
    ensures var y := Conv(order, QueueHead, head);
            && Get16(to, y, 4) == Get16(from, head, 4) && Get32(to, y, 0) == Get32(from, head, 0) && y[6] == y[7] == 0
            && Conv(order, QueueHead, y) == ZeroPads(QueueHead, head)
  {
    hide Conv, ZeroPads, Get16, Get32, From;
    forall k | 0 <= k < 4 ensures From(QueueHead, k) == Mirror(0, 4, k) {
      FieldBytes(QueueHead, k);
    }
    FieldBytes(QueueHead, 4);
    FieldBytes(QueueHead, 5);
    QueueHeadPadding(order, head);
    Converted16(order, QueueHead, head, 4);
    Converted32(order, QueueHead, head, 0);
    ConvTwice(order, QueueHead, head);
  }

  lemma QueueHeadPadding(order: Order, head: Bytes)
    requires |head| == QUEUE_PROPERTIES
    ensures |Conv(order, QueueHead, head)| == |ZeroPads(QueueHead, head)| == QUEUE_PROPERTIES
    ensures Conv(order, QueueHead, head)[6] == Conv(order, QueueHead, head)[7] == 0
    ensures ZeroPads(QueueHead, head)[6] == ZeroPads(QueueHead, head)[7] == 0
    ensures forall k :: 0 <= k < 6 ==> ZeroPads(QueueHead, head)[k] == head[k]
  {
  }

  lemma HeadWord(order: Order, head: Bytes, rest: Bytes)
    requires |head| == QUEUE_PROPERTIES
    ensures Get32(order, head + rest, 0) == Get32(order, head, 0)
    ensures (head + rest)[6] == head[6] && (head + rest)[7] == head[7]
  {
  }

  /**
   Converting a queue gives a queue of the same length, id and properties, and converting that gives the queue back,
   with the padding of its fixed part zeroed; the padding of a property is whatever was in the memory that the second
   conversion wrote to.
   */
  lemma QueueRoundTrip(order: Order, from: Order, to: Order, x: Bytes, properties: seq<Bytes>, kept: Bytes,
                       kept': Bytes)
    requires Between(order, from, to) && QueueRecord(from, x, properties) && |kept| == |kept'| == |x|
    ensures var y := ConvertedQueue(order, from, x, properties, kept);
            var properties' := ConvertedEach(order, from, properties, kept[QUEUE_PROPERTIES..]);
            && QueueRecord(to, y, properties') && SameProperties(from, properties, to, properties')
            && Get32(to, y, 0) == Get32(from, x, 0) && y[6] == y[7] == 0
            && ConvertedQueue(order, to, y, properties', kept') == RestoredQueue(from, x, properties, kept')
  {
    hide ConvertedEach, RestoredEach, Property, SameProperties, ConvertedProperties, Conv, ZeroPads, Get16, Get32;
    hide Between;
    var head, rest, rest' := x[..QUEUE_PROPERTIES], kept[QUEUE_PROPERTIES..], kept'[QUEUE_PROPERTIES..];
    var properties' := ConvertedEach(order, from, properties, rest);
    assert x == head + x[QUEUE_PROPERTIES..];
    HeadField(from, head, x[QUEUE_PROPERTIES..], 4);
    HeadWord(from, head, x[QUEUE_PROPERTIES..]);
    HeadField(to, Conv(order, QueueHead, head), Flatten(properties'), 4);
    HeadWord(to, Conv(order, QueueHead, head), Flatten(properties'));
    QueueHeadRoundTrip(order, from, to, head);
    PropertiesConverted(order, from, to, properties, rest);
    PropertiesRoundTrip(order, from, to, properties, rest, rest');
    SamePropertiesTile(from, properties, to, properties');
  }

  lemma ZeroedQueueHead(from: Order, head: Bytes)
    requires |head| == QUEUE_PROPERTIES
    ensures var z := ZeroPads(QueueHead, head);
            && Get16(from, z, 4) == Get16(from, head, 4) && Get32(from, z, 0) == Get32(from, head, 0)
            && z[6] == z[7] == 0
  {
    hide Conv, ZeroPads;
    QueueHeadPadding(from, head);
  }

  /** What comes back is a queue with the same id, length and properties. */
  lemma RestoredIsSame(from: Order, x: Bytes, properties: seq<Bytes>, kept: Bytes)
    requires QueueRecord(from, x, properties) && |kept| == |x|
    ensures var z := RestoredQueue(from, x, properties, kept);
            var properties' := RestoredEach(from, properties, kept[QUEUE_PROPERTIES..]);
            && |z| == |x| && QueueRecord(from, z, properties') && SameProperties(from, properties, from, properties')
            && Get32(from, z, 0) == Get32(from, x, 0) && z[6] == z[7] == 0
  {
    hide RestoredEach, Property, SameProperties, ZeroPads, Get16, Get32;
    var head, rest := x[..QUEUE_PROPERTIES], kept[QUEUE_PROPERTIES..];
    var properties' := RestoredEach(from, properties, rest);
    assert x == head + x[QUEUE_PROPERTIES..];
    HeadField(from, head, x[QUEUE_PROPERTIES..], 4);
    HeadWord(from, head, x[QUEUE_PROPERTIES..]);
    HeadField(from, ZeroPads(QueueHead, head), Flatten(properties'), 4);
    HeadWord(from, ZeroPads(QueueHead, head), Flatten(properties'));
    ZeroedQueueHead(from, head);
    PropertiesRestored(from, properties, rest);
    SamePropertiesTile(from, properties, from, properties');
  }

  /** Over zeros, the padding of every property is zero. */
  ghost predicate ZeroPadding(minRate: bool, x: Bytes) {
    forall k: nat :: k < |x| && PropertyFrom(minRate, k) < 0 ==> x[k] == 0
  }

  lemma {:induction false} PaddingZeroed(order: Order, from: Order, properties: seq<Bytes>, kept: Bytes)
    requires |kept| == |Flatten(properties)|
    requires forall i :: 0 <= i < |properties| ==> Property(from, properties[i])
    requires forall k :: 0 <= k < |kept| ==> kept[k] == 0
    ensures forall i :: 0 <= i < |properties| ==>
              && Property(from, properties[i])
              && ZeroPadding(IsMinRate(from, properties[i]), ConvertedEach(order, from, properties, kept)[i])
    decreases |properties|
  {
    if properties != [] {
      var x := properties[0];
      PaddingZeroed(order, from, properties[1..], kept[|x|..]);
      assert ZeroPadding(IsMinRate(from, x), ConvProperty(order, IsMinRate(from, x), x, kept[..|x|]));
      hide ZeroPadding, IsMinRate, ConvProperty;
      forall i | 0 <= i < |properties|
        ensures Property(from, properties[i])
        ensures ZeroPadding(IsMinRate(from, properties[i]), ConvertedEach(order, from, properties, kept)[i])
      {
        assert i > 0 ==> properties[i] == properties[1..][i - 1];
      }
    }
  }
}
