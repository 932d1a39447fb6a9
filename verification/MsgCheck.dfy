/**
 Message validation, lib/cc_of_msg_check.c. A validator is handed a pointer and follows 16-bit lengths from there, with
 nothing to stop it at the end of the message; so memory is a total function, of which the message is a part.
 A loop of the source need not end, so what it computes is told up to a number of rounds.
 */
module MsgCheck {
  import opened Bytes
  import opened OpenFlow
  import opened ByteOrder

  type Memory = nat -> byte

  datatype Buffer = Buffer(length: nat, data: Memory)

  const ERROR_UNSUPPORTED_VERSION := -60
  const ERROR_INVALID_LENGTH := -59
  const ERROR_TOO_SHORT_MESSAGE := -58
  const ERROR_TOO_LONG_MESSAGE := -57
  const ERROR_INVALID_TYPE := -56
  const ERROR_UNDEFINED_TYPE := -55
  const ERROR_INVALID_PORT_NO := -52
  const ERROR_INVALID_PORT_CONFIG := -51
  const ERROR_INVALID_PORT_FEATURES := -49
  const ERROR_INVALID_SWITCH_CONFIG := -48
  const ERROR_INVALID_PACKET_IN_REASON := -47
  const ERROR_INVALID_FLOW_REMOVED_REASON := -46
  const ERROR_INVALID_WILDCARDS := -45
  const ERROR_INVALID_VLAN_VID := -44
  const ERROR_INVALID_VLAN_PCP := -43
  const ERROR_INVALID_NW_TOS := -42
  const ERROR_INVALID_PORT_STATUS_REASON := -41
  const ERROR_TOO_SHORT_QUEUE_DESCRIPTION := -40
  const ERROR_TOO_SHORT_QUEUE_PROPERTY := -39
  const ERROR_TOO_LONG_QUEUE_PROPERTY := -38
  const ERROR_UNDEFINED_QUEUE_PROPERTY := -37
  const ERROR_TOO_SHORT_ACTION := -36
  const ERROR_UNDEFINED_ACTION_TYPE := -35
  const ERROR_INVALID_ACTION_TYPE := -34
  const ERROR_TOO_SHORT_ACTION_OUTPUT := -33
  const ERROR_TOO_LONG_ACTION_OUTPUT := -32
  const ERROR_TOO_SHORT_ACTION_VLAN_VID := -31
  const ERROR_TOO_LONG_ACTION_VLAN_VID := -30
  const ERROR_TOO_SHORT_ACTION_VLAN_PCP := -29
  const ERROR_TOO_LONG_ACTION_VLAN_PCP := -28
  const ERROR_TOO_SHORT_ACTION_STRIP_VLAN := -27
  const ERROR_TOO_LONG_ACTION_STRIP_VLAN := -26
  const ERROR_TOO_SHORT_ACTION_DL_SRC := -25
  const ERROR_TOO_LONG_ACTION_DL_SRC := -24
  const ERROR_TOO_SHORT_ACTION_DL_DST := -23
  const ERROR_TOO_LONG_ACTION_DL_DST := -22
  const ERROR_TOO_SHORT_ACTION_NW_SRC := -21
  const ERROR_TOO_LONG_ACTION_NW_SRC := -20
  const ERROR_TOO_SHORT_ACTION_NW_DST := -19
  const ERROR_TOO_LONG_ACTION_NW_DST := -18
  const ERROR_TOO_SHORT_ACTION_NW_TOS := -17
  const ERROR_TOO_LONG_ACTION_NW_TOS := -16
  const ERROR_TOO_SHORT_ACTION_TP_SRC := -15
  const ERROR_TOO_LONG_ACTION_TP_SRC := -14
  const ERROR_TOO_SHORT_ACTION_TP_DST := -13
  const ERROR_TOO_LONG_ACTION_TP_DST := -12
  const ERROR_TOO_SHORT_ACTION_ENQUEUE := -11
  const ERROR_TOO_LONG_ACTION_ENQUEUE := -10
  const ERROR_TOO_SHORT_ACTION_VENDOR := -9
  const ERROR_UNSUPPORTED_STATS_TYPE := -8
  const ERROR_INVALID_STATS_REPLY_FLAGS := -7
  const ERROR_INVALID_FLOW_PRIORITY := -6
  const ERROR_INVALID_FLOW_MOD_FLAGS := -5
  const ERROR_INVALID_PORT_MASK := -4
  const ERROR_INVALID_STATS_TYPE := -3
  const ERROR_INVALID_STATS_REQUEST_FLAGS := -2
  const ERROR_UNDEFINED_FLOW_MOD_COMMAND := -1

  function At16(m: Memory, at: nat): u16 {
    Join(m(at), m(at + 1))
  }

  function At32(m: Memory, at: nat): u32 {
    At16(m, at) as int * 0x1_0000 + At16(m, at + 2)
  }

  /** The memory from at on holds the bytes x. */
  ghost predicate Holds(m: Memory, at: nat, x: Bytes) {
    forall j {:trigger m(j)} :: at <= j < at + |x| ==> m(j) == x[j - at]
  }

  /** The n bytes of the memory from at on. */
  function Stretch(m: Memory, at: nat, n: nat): (x: Bytes)
    ensures |x| == n && Holds(m, at, x)
  {
    seq(n, k requires 0 <= k => m(at + k))
  }

  lemma HoldsPart(m: Memory, at: nat, x: Bytes, from: nat, to: nat)
    requires Holds(m, at, x) && from <= to <= |x|
    ensures Holds(m, at + from, x[from..to])
  {
  }

  lemma Held16(m: Memory, at: nat, x: Bytes, o: nat)
    requires Holds(m, at, x) && o + 2 <= |x|
    ensures At16(m, at + o) == Net16(x, o)
  {
  }

  lemma Held32(m: Memory, at: nat, x: Bytes, o: nat)
    requires Holds(m, at, x) && o + 4 <= |x|
    ensures At32(m, at + o) == Net32(x, o)
  {
    Held16(m, at, x, o);
    Held16(m, at, x, o + 2);
  }

  // ---------- fields ----------

  function ValidateHeader(b: Buffer, kind: byte, least: nat, most: nat): (ret: int) {
    var length := At16(b.data, 2);
    if b.length < HEADER then ERROR_TOO_SHORT_MESSAGE
    else if b.data(0) != OFP_VERSION then ERROR_UNSUPPORTED_VERSION
    else if b.data(1) > OFPT_QUEUE_GET_CONFIG_REPLY then ERROR_UNDEFINED_TYPE
    else if b.data(1) != kind then ERROR_INVALID_TYPE
    else if length > most then ERROR_TOO_LONG_MESSAGE
    else if length < least then ERROR_TOO_SHORT_MESSAGE
    else if length < b.length then ERROR_TOO_LONG_MESSAGE
    else if length > b.length then ERROR_TOO_SHORT_MESSAGE
    else if b.length > most then ERROR_TOO_LONG_MESSAGE
    else 0
  }

  /** A header passes exactly if it fits the type, the buffer and the bounds. */
  lemma HeaderPasses(b: Buffer, kind: byte, least: nat, most: nat)
    requires kind <= OFPT_QUEUE_GET_CONFIG_REPLY
    ensures ValidateHeader(b, kind, least, most) <= 0
    ensures ValidateHeader(b, kind, least, most) == 0
       <==> && b.length >= HEADER && b.data(0) == OFP_VERSION && b.data(1) == kind
            && At16(b.data, 2) == b.length && least <= b.length <= most
  {
  }

  predicate ValidPort(port: u16) {
    0 < port <= OFPP_MAX || OFPP_IN_PORT <= port
  }

  function ValidatePhyPortNo(port: u16): int {
    if port == 0 || (port > OFPP_MAX && port < OFPP_IN_PORT) then ERROR_INVALID_PORT_NO else 0
  }

  /** The fields of a match, in host order, that are checked. */
  datatype MatchFields = MatchFields(wildcards: u32, dlVlan: u16, dlVlanPcp: byte, nwTos: byte)
  {
    predicate Valid() {
      wildcards < 0x40_0000 && (dlVlan <= 0x0fff || dlVlan == 0xffff) && dlVlanPcp <= 7 && nwTos % 4 == 0
    }
  }

  function NtohMatchFields(m: Memory, at: nat): MatchFields {
    MatchFields(At32(m, at), At16(m, at + 18), m(at + 20), m(at + 24))
  }

  function ValidateWildcards(wildcards: u32): int {
    if wildcards / 0x40_0000 != 0 then ERROR_INVALID_WILDCARDS else 0
  }

  function ValidateVlanVid(vid: u16): int {
    if vid != USHRT_MAX && vid / 0x1000 != 0 then ERROR_INVALID_VLAN_VID else 0
  }

  function ValidateVlanPcp(pcp: byte): int {
    if pcp / 8 != 0 then ERROR_INVALID_VLAN_PCP else 0
  }

  function ValidateNwTos(tos: byte): int {
    if tos % 4 != 0 then ERROR_INVALID_NW_TOS else 0
  }

  function ValidateMatch(f: MatchFields): (ret: int) {
    if ValidateWildcards(f.wildcards) < 0 then ValidateWildcards(f.wildcards)
    else if ValidateVlanVid(f.dlVlan) < 0 then ValidateVlanVid(f.dlVlan)
    else if ValidateVlanPcp(f.dlVlanPcp) < 0 then ValidateVlanPcp(f.dlVlanPcp)
    else ValidateNwTos(f.nwTos)
  }

  lemma MatchAccepted(f: MatchFields)
    ensures ValidateMatch(f) <= 0 && (ValidateMatch(f) == 0 <==> f.Valid())
  {
  }

  // ---------- actions ----------

  /** What the validator of an action looks at: its type, its length and, after them, two bytes or one. */
  datatype ActionFields = ActionFields(kind: u16, len: u16, arg: u16, first: byte)
  {
    /** The length is that of the structure the type's converter converts, and the fields are in range. */
    predicate Valid() {
      && KnownAction(kind)
      && (if kind == OFPAT_VENDOR then len >= 8 else len == Width(ActionStruct(kind)))
      && (kind == OFPAT_OUTPUT || kind == OFPAT_ENQUEUE ==> ValidPort(arg))
      && (kind == OFPAT_SET_VLAN_VID ==> arg <= 0x0fff || arg == 0xffff)
      && (kind == OFPAT_SET_VLAN_PCP ==> first <= 7)
      && (kind == OFPAT_SET_NW_TOS ==> first % 4 == 0)
    }
  }

  function FieldsAt(m: Memory, at: nat): ActionFields {
    ActionFields(At16(m, at), At16(m, at + 2), At16(m, at + 4), m(at + 4))
  }

  function CheckLength(len: u16, exact: nat, tooShort: int, tooLong: int): int {
    if len < exact then tooShort else if len > exact then tooLong else 0
  }

  function ValidateActionOutput(a: ActionFields): int {
    var ret := CheckLength(a.len, 8, ERROR_TOO_SHORT_ACTION_OUTPUT, ERROR_TOO_LONG_ACTION_OUTPUT);
    if a.kind != OFPAT_OUTPUT then ERROR_INVALID_ACTION_TYPE else if ret < 0 then ret else ValidatePhyPortNo(a.arg)
  }

  function ValidateActionSetVlanVid(a: ActionFields): int {
    var ret := CheckLength(a.len, 8, ERROR_TOO_SHORT_ACTION_VLAN_VID, ERROR_TOO_LONG_ACTION_VLAN_VID);
    if a.kind != OFPAT_SET_VLAN_VID then ERROR_INVALID_ACTION_TYPE else if ret < 0 then ret else ValidateVlanVid(a.arg)
  }

  function ValidateActionSetVlanPcp(a: ActionFields): int {
    var ret := CheckLength(a.len, 8, ERROR_TOO_SHORT_ACTION_VLAN_PCP, ERROR_TOO_LONG_ACTION_VLAN_PCP);
    if a.kind != OFPAT_SET_VLAN_PCP then ERROR_INVALID_ACTION_TYPE
    else if ret < 0 then ret
    else ValidateVlanPcp(a.first)
  }

  function ValidateActionStripVlan(a: ActionFields): int {
    if a.kind != OFPAT_STRIP_VLAN then ERROR_INVALID_ACTION_TYPE
    else CheckLength(a.len, 8, ERROR_TOO_SHORT_ACTION_STRIP_VLAN, ERROR_TOO_LONG_ACTION_STRIP_VLAN)
  }

  function ValidateActionSetDlSrc(a: ActionFields): int {
    if a.kind != OFPAT_SET_DL_SRC then ERROR_INVALID_ACTION_TYPE
    else CheckLength(a.len, 16, ERROR_TOO_SHORT_ACTION_DL_SRC, ERROR_TOO_LONG_ACTION_DL_SRC)
  }

  function ValidateActionSetDlDst(a: ActionFields): int {
    if a.kind != OFPAT_SET_DL_DST then ERROR_INVALID_ACTION_TYPE
    else CheckLength(a.len, 16, ERROR_TOO_SHORT_ACTION_DL_DST, ERROR_TOO_LONG_ACTION_DL_DST)
  }

  function ValidateActionSetNwSrc(a: ActionFields): int {
    if a.kind != OFPAT_SET_NW_SRC then ERROR_INVALID_ACTION_TYPE
    else CheckLength(a.len, 8, ERROR_TOO_SHORT_ACTION_NW_SRC, ERROR_TOO_LONG_ACTION_NW_SRC)
  }

  function ValidateActionSetNwDst(a: ActionFields): int {
    if a.kind != OFPAT_SET_NW_DST then ERROR_INVALID_ACTION_TYPE
    else CheckLength(a.len, 8, ERROR_TOO_SHORT_ACTION_NW_DST, ERROR_TOO_LONG_ACTION_NW_DST)
  }

  function ValidateActionSetNwTos(a: ActionFields): int {
    var ret := CheckLength(a.len, 8, ERROR_TOO_SHORT_ACTION_NW_TOS, ERROR_TOO_LONG_ACTION_NW_TOS);
    if a.kind != OFPAT_SET_NW_TOS then ERROR_INVALID_ACTION_TYPE else if ret < 0 then ret else ValidateNwTos(a.first)
  }

  function ValidateActionSetTpSrc(a: ActionFields): int {
    if a.kind != OFPAT_SET_TP_SRC then ERROR_INVALID_ACTION_TYPE
    else CheckLength(a.len, 8, ERROR_TOO_SHORT_ACTION_TP_SRC, ERROR_TOO_LONG_ACTION_TP_SRC)
  }

  function ValidateActionSetTpDst(a: ActionFields): int {
    if a.kind != OFPAT_SET_TP_DST then ERROR_INVALID_ACTION_TYPE
    else CheckLength(a.len, 8, ERROR_TOO_SHORT_ACTION_TP_DST, ERROR_TOO_LONG_ACTION_TP_DST)
  }

  function ValidateActionEnqueue(a: ActionFields): int {
    var ret := CheckLength(a.len, 16, ERROR_TOO_SHORT_ACTION_ENQUEUE, ERROR_TOO_LONG_ACTION_ENQUEUE);
    if a.kind != OFPAT_ENQUEUE then ERROR_INVALID_ACTION_TYPE else if ret < 0 then ret else ValidatePhyPortNo(a.arg)
  }

  function ValidateActionVendor(a: ActionFields): int {
    if a.kind != OFPAT_VENDOR then ERROR_INVALID_ACTION_TYPE
    else if a.len < 8 then ERROR_TOO_SHORT_ACTION_VENDOR
    else 0
  }

  function ValidateActionFields(a: ActionFields): (ret: int) {
    if a.len < ACTION_HEADER then ERROR_TOO_SHORT_ACTION
    else if a.kind == OFPAT_OUTPUT then ValidateActionOutput(a)
    else if a.kind == OFPAT_SET_VLAN_VID then ValidateActionSetVlanVid(a)
    else if a.kind == OFPAT_SET_VLAN_PCP then ValidateActionSetVlanPcp(a)
    else if a.kind == OFPAT_STRIP_VLAN then ValidateActionStripVlan(a)
    else if a.kind == OFPAT_SET_DL_SRC then ValidateActionSetDlSrc(a)
    else if a.kind == OFPAT_SET_DL_DST then ValidateActionSetDlDst(a)
    else if a.kind == OFPAT_SET_NW_SRC then ValidateActionSetNwSrc(a)
    else if a.kind == OFPAT_SET_NW_DST then ValidateActionSetNwDst(a)
    else if a.kind == OFPAT_SET_NW_TOS then ValidateActionSetNwTos(a)
    else if a.kind == OFPAT_SET_TP_SRC then ValidateActionSetTpSrc(a)
    else if a.kind == OFPAT_SET_TP_DST then ValidateActionSetTpDst(a)
    else if a.kind == OFPAT_ENQUEUE then ValidateActionEnqueue(a)
    else if a.kind == OFPAT_VENDOR then ValidateActionVendor(a)
    else ERROR_UNDEFINED_ACTION_TYPE
  }

  function ValidateAction(m: Memory, at: nat): int {
    ValidateActionFields(FieldsAt(m, at))
  }

  /** An action is accepted exactly if it has its type's exact length and its fields are in range. */
  lemma ActionAccepted(a: ActionFields)
    ensures ValidateActionFields(a) <= 0 && (ValidateActionFields(a) == 0 <==> a.Valid())
  {
  }

  // ---------- queue properties ----------

  function PropertyCode(kind: u16, len: u16): int {
    if len < QUEUE_PROP_HEADER then ERROR_TOO_SHORT_QUEUE_PROPERTY
    else if kind == OFPQT_NONE then
      CheckLength(len, QUEUE_PROP_HEADER, ERROR_TOO_SHORT_QUEUE_PROPERTY, ERROR_TOO_LONG_QUEUE_PROPERTY)
    else if kind == OFPQT_MIN_RATE then
      CheckLength(len, QUEUE_PROP_MIN_RATE, ERROR_TOO_SHORT_QUEUE_PROPERTY, ERROR_TOO_LONG_QUEUE_PROPERTY)
    else ERROR_UNDEFINED_QUEUE_PROPERTY
  }

  predicate ValidProperty(kind: u16, len: u16) {
    (kind == OFPQT_NONE && len == 8) || (kind == OFPQT_MIN_RATE && len == 16)
  }

  lemma PropertyAccepted(kind: u16, len: u16)
    ensures PropertyCode(kind, len) <= 0 && (PropertyCode(kind, len) == 0 <==> ValidProperty(kind, len))
  {
  }

  function ValidateQueueProperty(m: Memory, at: nat): int {
    PropertyCode(At16(m, at), At16(m, at + 2))
  }

  // ---------- the walk over actions, and over queue properties ----------

  datatype Outcome = Running | Done(ret: int)

  /** The loop of validate_actions and validate_queue_properties, from a 16-bit offset on, for at most rounds rounds. */
  function Walk(check: (Memory, nat) -> int, m: Memory, head: nat, length: u16, offset: u16, rounds: nat): Outcome
    decreases rounds
  {
    if offset >= length then Done(0)
    else if rounds == 0 then Running
    else
      var ret := check(m, head + offset);
      if ret < 0 then Done(ret)
      else Walk(check, m, head, length, Add16(offset, At16(m, head + offset + 2)), rounds - 1)
  }

  /** The offsets at which that loop checks an element, one after another. */
  ghost function Offsets(check: (Memory, nat) -> int, m: Memory, head: nat, length: u16, offset: u16, rounds: nat)
    : seq<u16>
    decreases rounds
  {
    if offset >= length || rounds == 0 then []
    else if check(m, head + offset) < 0 then [offset]
    else [offset] + Offsets(check, m, head, length, Add16(offset, At16(m, head + offset + 2)), rounds - 1)
  }

  /** The number of rounds granted does not matter once the loop ends within it. */
  lemma {:induction false} MoreRounds(check: (Memory, nat) -> int, m: Memory, head: nat, length: u16, offset: u16,
                                      rounds: nat, more: nat)
    requires Walk(check, m, head, length, offset, rounds).Done? && rounds <= more
    ensures Walk(check, m, head, length, offset, more) == Walk(check, m, head, length, offset, rounds)
    decreases rounds
  {
    if offset < length && check(m, head + offset) >= 0 {
      MoreRounds(check, m, head, length, Add16(offset, At16(m, head + offset + 2)), rounds - 1, more - 1);
    }
  }

  method ValidateActions(m: Memory, head: nat, length: u16, ghost rounds: nat) returns (ret: int)
    requires Walk(ValidateAction, m, head, length, 0, rounds).Done?
    ensures Walk(ValidateAction, m, head, length, 0, rounds) == Done(ret)
  {
    hide ValidateAction, At16, Add16;
    var offset: u16 := 0;
    var action := head;
    ghost var left := rounds;
    while offset < length
      invariant action == head + offset
      invariant Walk(ValidateAction, m, head, length, 0, rounds) == Walk(ValidateAction, m, head, length, offset, left)
      decreases left
    {
      ret := ValidateAction(m, action);
      if ret < 0 {
        return;
      }
      offset := Add16(offset, At16(m, action + 2));
      action := head + offset;
      left := left - 1;
    }
    ret := 0;
  }

  method ValidateQueueProperties(m: Memory, head: nat, length: u16, ghost rounds: nat) returns (ret: int)
    requires Walk(ValidateQueueProperty, m, head, length, 0, rounds).Done?
    ensures Walk(ValidateQueueProperty, m, head, length, 0, rounds) == Done(ret)
  {
    hide ValidateQueueProperty, At16, Add16;
    var offset: u16 := 0;
    var property := head;
    ghost var left := rounds;
    while offset < length
      invariant property == head + offset
      invariant Walk(ValidateQueueProperty, m, head, length, 0, rounds)
             == Walk(ValidateQueueProperty, m, head, length, offset, left)
      decreases left
    {
      ret := ValidateQueueProperty(m, property);
      if ret < 0 {
        return;
      }
      offset := Add16(offset, At16(m, property + 2));
      property := head + offset;
      left := left - 1;
    }
    ret := 0;
  }

  // ---------- packet-out and flow-mod ----------

  function ValidatePacketOut(b: Buffer, rounds: nat): Outcome {
    var ret := ValidateHeader(b, OFPT_PACKET_OUT, PACKET_OUT_ACTIONS, USHRT_MAX);
    var port := ValidatePhyPortNo(At16(b.data, 12));
    if ret < 0 then Done(ret)
    else if port < 0 then Done(port)
    else if At16(b.data, 14) > 0 then Walk(ValidateAction, b.data, PACKET_OUT_ACTIONS, At16(b.data, 14), 0, rounds)
    else Done(0)
  }

  /** An exact match must have the highest priority. */
  function ValidatePriority(f: MatchFields, priority: u16): int {
    if f.wildcards % 0x40_0000 == 0 && priority != USHRT_MAX then ERROR_INVALID_FLOW_PRIORITY else 0
  }

  function ValidateFlowModFields(m: Memory): int {
    var command, outPort := At16(m, 56), At16(m, 68);
    var f := NtohMatchFields(m, 8);
    if ValidateMatch(f) < 0 then ValidateMatch(f)
    else if command > OFPFC_DELETE_STRICT then ERROR_UNDEFINED_FLOW_MOD_COMMAND
    else if ValidatePriority(f, At16(m, 62)) < 0 then ValidatePriority(f, At16(m, 62))
    else if && (command == OFPFC_DELETE || command == OFPFC_DELETE_STRICT) && outPort != OFPP_NONE
            && ValidatePhyPortNo(outPort) < 0 then ValidatePhyPortNo(outPort)
    else if At16(m, 70) / 8 != 0 then ERROR_INVALID_FLOW_MOD_FLAGS
    else 0
  }

  function ValidateFlowMod(b: Buffer, rounds: nat): Outcome {
    var ret := ValidateHeader(b, OFPT_FLOW_MOD, FLOW_MOD_ACTIONS, USHRT_MAX);
    var fields := ValidateFlowModFields(b.data);
    var actionsLength := Sub16(At16(b.data, 2), FLOW_MOD_ACTIONS);
    if ret < 0 then Done(ret)
    else if fields < 0 then Done(fields)
    else if actionsLength > 0 then Walk(ValidateAction, b.data, FLOW_MOD_ACTIONS, actionsLength, 0, rounds)
    else Done(0)
  }

  // ---------- flow statistics ----------

  /** One round of the loop of validate_flow_stats_reply: the record at at. */
  function FlowStatsCode(m: Memory, at: nat, rounds: nat): Outcome {
    var f := NtohMatchFields(m, at + 4);
    var actionsLength := Sub16(At16(m, at), FLOW_STATS_ACTIONS);
    if ValidateMatch(f) < 0 then Done(ValidateMatch(f))
    else if ValidatePriority(f, At16(m, at + 52)) < 0 then Done(ValidatePriority(f, At16(m, at + 52)))
    else if actionsLength > 0 then Walk(ValidateAction, m, at + FLOW_STATS_ACTIONS, actionsLength, 0, rounds)
    else Done(0)
  }

  /** That loop; flowLength counts down in 16 bits. */
  function FlowWalk(m: Memory, at: nat, flowLength: u16, records: nat, rounds: nat): Outcome
    decreases records
  {
    if flowLength == 0 then Done(0)
    else if records == 0 then Running
    else
      match FlowStatsCode(m, at, rounds)
      case Running => Running
      case Done(ret) =>
        if ret < 0 then Done(ret)
        else FlowWalk(m, at + At16(m, at), Sub16(flowLength, At16(m, at)), records - 1, rounds)
  }

  function FlowStatsReplyCode(b: Buffer, records: nat, rounds: nat): Outcome {
    var ret := ValidateHeader(b, OFPT_STATS_REPLY, STATS_REPLY_BODY, USHRT_MAX);
    if ret < 0 then Done(ret)
    else if At16(b.data, 10) / 2 != 0 then Done(ERROR_INVALID_STATS_REPLY_FLAGS)
    else FlowWalk(b.data, STATS_REPLY_BODY, Sub16(At16(b.data, 2), STATS_REPLY_BODY), records, rounds)
  }

  method ValidateFlowStatsReply(b: Buffer, ghost records: nat, ghost rounds: nat) returns (ret: int)
    requires FlowStatsReplyCode(b, records, rounds).Done?
    ensures FlowStatsReplyCode(b, records, rounds) == Done(ret)
  {
    hide ValidateHeader, ValidateMatch, Walk, At16, At32, Sub16;
    ret := ValidateHeader(b, OFPT_STATS_REPLY, STATS_REPLY_BODY, USHRT_MAX);
    if ret < 0 {
      return;
    }
    if At16(b.data, 10) / 2 != 0 {
      return ERROR_INVALID_STATS_REPLY_FLAGS;
    }
    var flowLength: u16 := Sub16(At16(b.data, 2), STATS_REPLY_BODY);
    var flowStats: nat := STATS_REPLY_BODY;
    ghost var left := records;
    while flowLength > 0
      invariant FlowStatsReplyCode(b, records, rounds) == FlowWalk(b.data, flowStats, flowLength, left, rounds)
      decreases left
    {
      var f := NtohMatchFields(b.data, flowStats + 4);
      ret := ValidateMatch(f);
      if ret < 0 {
        return;
      }
      if f.wildcards % 0x40_0000 == 0 && At16(b.data, flowStats + 52) < USHRT_MAX {
        return ERROR_INVALID_FLOW_PRIORITY;
      }
      var actionsLength := Sub16(At16(b.data, flowStats), FLOW_STATS_ACTIONS);
      if actionsLength > 0 {
        ret := ValidateActions(b.data, flowStats + FLOW_STATS_ACTIONS, actionsLength, rounds);
        if ret < 0 {
          return;
        }
      }
      flowLength := Sub16(flowLength, At16(b.data, flowStats));
      flowStats := flowStats + At16(b.data, flowStats);
      left := left - 1;
    }
    ret := 0;
  }

  // ---------- queue configuration ----------

  function ValidatePacketQueue(m: Memory, at: nat, rounds: nat): Outcome {
    var len := At16(m, at + 4);
    if len < QUEUE_PROPERTIES + QUEUE_PROP_HEADER then Done(ERROR_TOO_SHORT_QUEUE_DESCRIPTION)
    else Walk(ValidateQueueProperty, m, at + QUEUE_PROPERTIES, Sub16(len, QUEUE_PROPERTIES), 0, rounds)
  }

  function QueuesCode(m: Memory, at: nat, queues: nat, rounds: nat): Outcome
    decreases queues
  {
    if queues == 0 then Done(0)
    else
      match ValidatePacketQueue(m, at, rounds)
      case Running => Running
      case Done(ret) => if ret < 0 then Done(ret) else QueuesCode(m, at + At16(m, at + 4), queues - 1, rounds)
  }

  datatype Count = Counting | Counted(left: u16, queues: nat)

  /** The loop that counts the queues of a reply; what is left of their length counts down in 16 bits. */
  function CountQueues(m: Memory, at: nat, queuesLength: u16, counted: nat, rounds: nat): Count
    decreases rounds
  {
    if queuesLength <= QUEUE_PROPERTIES then Counted(queuesLength, counted)
    else if rounds == 0 then Counting
    else CountQueues(m, at + At16(m, at + 4), Sub16(queuesLength, At16(m, at + 4)), counted + 1, rounds - 1)
  }

  function QueueReplyCode(b: Buffer, rounds: nat): Outcome {
    var ret := ValidateHeader(b, OFPT_QUEUE_GET_CONFIG_REPLY, CONFIG_REPLY_QUEUES + QUEUE_PROPERTIES, USHRT_MAX);
    var port := ValidatePhyPortNo(At16(b.data, 8));
    if ret < 0 then Done(ret)
    else if port < 0 then Done(port)
    else
      match CountQueues(b.data, CONFIG_REPLY_QUEUES, Sub16(At16(b.data, 2), CONFIG_REPLY_QUEUES), 0, rounds)
      case Counting => Running
      case Counted(left, queues) =>
        if left != 0 then Done(ERROR_INVALID_LENGTH) else QueuesCode(b.data, CONFIG_REPLY_QUEUES, queues, rounds)
  }

  method ValidatePacketQueues(m: Memory, head: nat, queues: nat, ghost rounds: nat) returns (ret: int)
    requires QueuesCode(m, head, queues, rounds).Done?
    ensures QueuesCode(m, head, queues, rounds) == Done(ret)
  {
    hide Walk, At16, Sub16;
    var queue: nat := head;
    for i := 0 to queues
      invariant QueuesCode(m, head, queues, rounds) == QueuesCode(m, queue, queues - i, rounds)
    {
      if At16(m, queue + 4) < QUEUE_PROPERTIES + QUEUE_PROP_HEADER {
        return ERROR_TOO_SHORT_QUEUE_DESCRIPTION;
      }
      ret := ValidateQueueProperties(m, queue + QUEUE_PROPERTIES, Sub16(At16(m, queue + 4), QUEUE_PROPERTIES), rounds);
      if ret < 0 {
        return;
      }
      queue := queue + At16(m, queue + 4);
    }
    ret := 0;
  }

  method ValidateQueueGetConfigReply(b: Buffer, ghost rounds: nat) returns (ret: int)
    requires QueueReplyCode(b, rounds).Done?
    ensures QueueReplyCode(b, rounds) == Done(ret)
  {
    ret := ValidateHeader(b, OFPT_QUEUE_GET_CONFIG_REPLY, CONFIG_REPLY_QUEUES + QUEUE_PROPERTIES, USHRT_MAX);
    if ret < 0 {
      return;
    }
    ret := ValidatePhyPortNo(At16(b.data, 8));
    if ret < 0 {
      return;
    }
    assert QueuesCode(b.data, CONFIG_REPLY_QUEUES, 0, rounds) == Done(0);
    hide ValidateHeader, ValidatePhyPortNo, QueuesCode, At16, Sub16;
    var queuesLength: u16 := Sub16(At16(b.data, 2), CONFIG_REPLY_QUEUES);
    var queue: nat, queues: nat := CONFIG_REPLY_QUEUES, 0;
    ghost var left := rounds;
    ghost var count := CountQueues(b.data, queue, queuesLength, 0, rounds);
    while queuesLength > QUEUE_PROPERTIES
      invariant count == CountQueues(b.data, queue, queuesLength, queues, left)
      decreases left
    {
      queuesLength := Sub16(queuesLength, At16(b.data, queue + 4));
      queue := queue + At16(b.data, queue + 4);
      queues := queues + 1;
      left := left - 1;
    }
    if queuesLength != 0 {
      return ERROR_INVALID_LENGTH;
    }
    ret := 0;
    if queues > 0 {
      ret := ValidatePacketQueues(b.data, CONFIG_REPLY_QUEUES, queues, rounds);
    }
  }
}
