/** Constants and structures of include/openflow.h, as laid out by the OpenFlow Switch Specification 1.0.0. */
module OpenFlow {
  import opened Bytes

  const OFP_VERSION := 0x01

  const OFPT_HELLO := 0
  const OFPT_ERROR := 1
  const OFPT_ECHO_REQUEST := 2
  const OFPT_ECHO_REPLY := 3
  const OFPT_VENDOR := 4
  const OFPT_FEATURES_REQUEST := 5
  const OFPT_GET_CONFIG_REQUEST := 7
  const OFPT_SET_CONFIG := 9
  const OFPT_PACKET_IN := 10
  const OFPT_FLOW_REMOVED := 11
  const OFPT_PORT_STATUS := 12
  const OFPT_PACKET_OUT := 13
  const OFPT_FLOW_MOD := 14
  const OFPT_PORT_MOD := 15
  const OFPT_STATS_REQUEST := 16
  const OFPT_STATS_REPLY := 17
  const OFPT_BARRIER_REQUEST := 18
  const OFPT_BARRIER_REPLY := 19
  const OFPT_QUEUE_GET_CONFIG_REQUEST := 20
  const OFPT_QUEUE_GET_CONFIG_REPLY := 21

  const OFPP_MAX := 0xff00
  const OFPP_IN_PORT := 0xfff8
  const OFPP_LOCAL := 0xfffe
  const OFPP_NONE := 0xffff

  const OFPAT_OUTPUT := 0
  const OFPAT_SET_VLAN_VID := 1
  const OFPAT_SET_VLAN_PCP := 2
  const OFPAT_STRIP_VLAN := 3
  const OFPAT_SET_DL_SRC := 4
  const OFPAT_SET_DL_DST := 5
  const OFPAT_SET_NW_SRC := 6
  const OFPAT_SET_NW_DST := 7
  const OFPAT_SET_NW_TOS := 8
  const OFPAT_SET_TP_SRC := 9
  const OFPAT_SET_TP_DST := 10
  const OFPAT_ENQUEUE := 11
  const OFPAT_VENDOR := 0xffff

  const OFPFC_DELETE := 3
  const OFPFC_DELETE_STRICT := 4

  const OFPST_DESC := 0
  const OFPST_FLOW := 1
  const OFPST_AGGREGATE := 2
  const OFPST_TABLE := 3
  const OFPST_PORT := 4
  const OFPST_QUEUE := 5
  const OFPST_VENDOR := 0xffff

  const OFPQT_NONE := 0
  const OFPQT_MIN_RATE := 1

  const USHRT_MAX := 0xffff

  // Sizes of the fixed parts, and offsets of what follows them.
  const HEADER := 8
  const ACTION_HEADER := 8
  const MATCH := 40
  const FLOW_STATS_ACTIONS := 88
  const PACKET_OUT_ACTIONS := 16
  const FLOW_MOD_ACTIONS := 72
  const STATS_REPLY_BODY := 12
  const QUEUE_PROPERTIES := 8
  const QUEUE_PROP_HEADER := 8
  const QUEUE_PROP_MIN_RATE := 16
  const CONFIG_REPLY_QUEUES := 16

  /** The length-prefixed elements that tile the variable parts of messages. */
  const ACTION := Kind(2, ACTION_HEADER)
  const FLOW := Kind(0, FLOW_STATS_ACTIONS)
  const QUEUE := Kind(4, QUEUE_PROPERTIES)
  const PROPERTY := Kind(2, QUEUE_PROP_HEADER)

  /** The structures that a single function of lib/cc_byte_order.c converts field by field. */
  datatype Struct =
    | Match | Output | VlanVid | VlanPcp | StripVlan | DlAddr | NwAddr | NwTos | TpPort | Enqueue | VendorHeader
    | FlowStatsHead | QueueHead

  function Width(s: Struct): nat {
    match s
    case Match => MATCH
    case DlAddr | Enqueue => 16
    case FlowStatsHead => FLOW_STATS_ACTIONS
    case _ => 8
  }

  /** Byte k of a field of n bytes at offset o is byte Mirror(o, n, k) in the other byte order. */
  function Mirror(o: nat, n: nat, k: int): int {
    2 * o + n - 1 - k
  }

  function FromMatch(k: nat): (from: int)
    requires k < MATCH
    ensures -1 <= from < MATCH
  {
    if k < 4 then Mirror(0, 4, k)                 // wildcards
    else if k < 6 then Mirror(4, 2, k)            // in_port
    else if k < 18 then k                         // dl_src, dl_dst
    else if k < 20 then Mirror(18, 2, k)          // dl_vlan
    else if k < 21 then k                         // dl_vlan_pcp
    else if k < 22 then -1
    else if k < 24 then Mirror(22, 2, k)          // dl_type
    else if k < 26 then k                         // nw_tos, nw_proto
    else if k < 28 then -1
    else if k < 32 then Mirror(28, 4, k)          // nw_src
    else if k < 36 then Mirror(32, 4, k)          // nw_dst
    else if k < 38 then Mirror(36, 2, k)          // tp_src
    else Mirror(38, 2, k)                         // tp_dst
  }

  function FromFlowStats(k: nat): (from: int)
    requires k < FLOW_STATS_ACTIONS
    ensures -1 <= from < FLOW_STATS_ACTIONS
  {
    if k < 2 then Mirror(0, 2, k)                 // length
    else if k < 3 then k                          // table_id
    else if k < 4 then -1
    else if k < 44 then                           // match
      if FromMatch(k - 4) < 0 then -1 else 4 + FromMatch(k - 4)
    else if k < 48 then Mirror(44, 4, k)          // duration_sec
    else if k < 52 then Mirror(48, 4, k)          // duration_nsec
    else if k < 54 then Mirror(52, 2, k)          // priority
    else if k < 56 then Mirror(54, 2, k)          // idle_timeout
    else if k < 58 then Mirror(56, 2, k)          // hard_timeout
    else if k < 64 then -1
    else if k < 72 then Mirror(64, 8, k)          // cookie
    else if k < 80 then Mirror(72, 8, k)          // packet_count
    else Mirror(80, 8, k)                         // byte_count
  }

  /** Where byte k of the structure is in the other byte order; -1 for padding. */
  function From(s: Struct, k: nat): (from: int)
    requires k < Width(s)
    ensures -1 <= from < Width(s)
  {
    match s
    case Match => FromMatch(k)
    case FlowStatsHead => FromFlowStats(k)
    case QueueHead =>
      if k < 4 then Mirror(0, 4, k)               // queue_id
      else if k < 6 then Mirror(4, 2, k)          // len
      else -1
    case _ =>
      if k < 2 then Mirror(0, 2, k)               // type
      else if k < 4 then Mirror(2, 2, k)          // len
      else FromArgument(s, k)
  }

  /** The part of an action that follows its type and len. */
  function FromArgument(s: Struct, k: nat): (from: int)
    requires !s.Match? && !s.FlowStatsHead? && !s.QueueHead? && 4 <= k < Width(s)
    ensures from == -1 || 4 <= from < Width(s)
  {
    match s
    case Output => if k < 6 then Mirror(4, 2, k) else Mirror(6, 2, k)               // port, max_len
    case VlanVid | TpPort => if k < 6 then Mirror(4, 2, k) else -1
    case VlanPcp | NwTos => if k < 5 then k else -1
    case DlAddr => if k < 10 then k else -1
    case NwAddr | VendorHeader => Mirror(4, 4, k)
    case Enqueue => if k < 6 then Mirror(4, 2, k) else if k < 12 then -1 else Mirror(12, 4, k)
    case _ => -1
  }

  /** Both conversions between host and network order: on a big-endian host only the padding changes. */
  function Conv(order: Order, s: Struct, x: Bytes): (y: Bytes)
    requires |x| == Width(s)
    ensures |y| == |x|
  {
    seq(Width(s), k requires 0 <= k < Width(s) =>
      if From(s, k) < 0 then 0 else if order.Big? then x[k] else x[From(s, k)])
  }

  function ZeroPads(s: Struct, x: Bytes): (y: Bytes)
    requires |x| == Width(s)
    ensures |y| == |x|
  {
    seq(Width(s), k requires 0 <= k < Width(s) => if From(s, k) < 0 then 0 else x[k])
  }

  lemma FromTwice(s: Struct, k: nat)
    requires k < Width(s) && From(s, k) >= 0
    ensures From(s, From(s, k)) == k
  {
    if s.Match? {
      FromMatchTwice(k);
    } else if s.FlowStatsHead? {
      FromFlowStatsTwice(k);
    }
  }

  lemma FromMatchTwice(k: nat)
    requires k < MATCH && FromMatch(k) >= 0
    ensures FromMatch(FromMatch(k)) == k
  {
  }

  lemma FromFlowStatsTwice(k: nat)
    requires k < FLOW_STATS_ACTIONS && FromFlowStats(k) >= 0
    ensures FromFlowStats(FromFlowStats(k)) == k
  {
    if 4 <= k < 44 {
      FromMatchTwice(k - 4);
    }
  }

  /** Either conversion undoes the other, up to padding. */
  lemma ConvTwice(order: Order, s: Struct, x: Bytes)
    requires |x| == Width(s)
    ensures Conv(order, s, Conv(order, s, x)) == ZeroPads(s, x)
  {
    forall k | 0 <= k < Width(s) && From(s, k) >= 0 ensures From(s, From(s, k)) == k {
      FromTwice(s, k);
    }
  }

  lemma ConvAt(order: Order, s: Struct, x: Bytes, k: nat)
    requires |x| == Width(s) && k < Width(s) && From(s, k) >= 0
    ensures Conv(order, s, x)[k] == if order.Big? then x[k] else x[From(s, k)]
  {
  }

  /** A 16-bit field that was converted reads the same in the order it was converted to. */
  lemma Converted16(order: Order, s: Struct, x: Bytes, o: nat)
    requires |x| == Width(s) && o + 2 <= |x| && From(s, o) == o + 1 && From(s, o + 1) == o
    ensures Net16(Conv(order, s, x), o) == Get16(order, x, o)
    ensures Get16(order, Conv(order, s, x), o) == Net16(x, o)
  {
    hide Conv, From;
    ConvAt(order, s, x, o);
    ConvAt(order, s, x, o + 1);
  }

  lemma Converted32(order: Order, s: Struct, x: Bytes, o: nat)
    requires |x| == Width(s) && o + 4 <= |x|
    requires forall k :: o <= k < o + 4 ==> From(s, k) == Mirror(o, 4, k)
    ensures Net32(Conv(order, s, x), o) == Get32(order, x, o)
    ensures Get32(order, Conv(order, s, x), o) == Net32(x, o)
  {
    hide Conv, From;
    ConvAt(order, s, x, o);
    ConvAt(order, s, x, o + 1);
    ConvAt(order, s, x, o + 2);
    ConvAt(order, s, x, o + 3);
  }
}
