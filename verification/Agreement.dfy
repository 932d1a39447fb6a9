/**
 Builder, converter and validator are three walks over the same bytes. Here: what the builders build, the validators
 accept, and converting it record by record gives back what was put in, with padding zeroed.
 */
module Agreement {
  import opened Bytes
  import opened OpenFlow
  import opened ByteOrder
  import opened FieldLaws
  import opened MsgCheck
  import opened MsgCreate
  import opened Walks

  /** A buffer that holds the bytes x; what lies beyond them is arbitrary. */
  ghost predicate IsMessage(b: Buffer, x: Bytes) {
    b.length == |x| && Holds(b.data, 0, x)
  }

  lemma HoldsBoth(m: Memory, at: nat, x: Bytes, y: Bytes)
    requires Holds(m, at, x + y)
    ensures Holds(m, at, x) && Holds(m, at + |x|, y)
  {
    HoldsPart(m, at, x + y, 0, |x|);
    HoldsPart(m, at, x + y, |x|, |x + y|);
    assert (x + y)[0..|x|] == x && (x + y)[|x|..|x + y|] == y;
  }

  lemma HeaderAccepted(b: Buffer, xid: u32, kind: byte, length: u16, least: nat)
    requires Holds(b.data, 0, HeaderBytes(xid, kind, length)) && b.length == length >= least >= HEADER
    requires kind <= OFPT_QUEUE_GET_CONFIG_REPLY
    ensures At16(b.data, 2) == length && At32(b.data, 4) == xid && ValidateHeader(b, kind, least, USHRT_MAX) == 0
  {
    hide Bytes32, Bytes16, ValidateHeader;
    HoldsBoth(b.data, 0, [OFP_VERSION, kind] + Bytes16(length), Bytes32(xid));
    HoldsBoth(b.data, 0, [OFP_VERSION, kind], Bytes16(length));
    Held16(b.data, 2, Bytes16(length), 0);
    Held32(b.data, 4, Bytes32(xid), 0);
    Bytes32Reads(xid);
    assert b.data(0) == [OFP_VERSION, kind][0] && b.data(1) == [OFP_VERSION, kind][1];
    HeaderPasses(b, kind, least, USHRT_MAX);
  }

  // ---------- actions ----------

  function HostFields(order: Order, x: Bytes): ActionFields
    requires |x| >= ACTION_HEADER
  {
    ActionFields(Get16(order, x, 0), Get16(order, x, 2), Get16(order, x, 4), x[4])
  }

  /** An action in host order with its type's length and its fields within the validator's ranges. */
  ghost predicate ValidHostAction(order: Order, x: Bytes) {
    ACTION.Is(order, x) && HostFields(order, x).Valid()
  }

  ghost predicate ValidHostActions(order: Order, actions: seq<Bytes>) {
    forall i :: 0 <= i < |actions| ==> ValidHostAction(order, actions[i])
  }

  /** Conversion keeps the argument of an action: two bytes that form a field, or the byte after the length. */
  lemma ArgumentOnWire(order: Order, kind: u16, x: Bytes)
    requires KnownAction(kind) && kind != OFPAT_VENDOR && |x| == Width(ActionStruct(kind))
    ensures kind == OFPAT_OUTPUT || kind == OFPAT_ENQUEUE || kind == OFPAT_SET_VLAN_VID ==>
              Net16(ConvAction(order, kind, x), 4) == Get16(order, x, 4)
    ensures kind == OFPAT_SET_VLAN_PCP || kind == OFPAT_SET_NW_TOS ==> ConvAction(order, kind, x)[4] == x[4]
  {
    FixedAction(order, kind, x);
    hide ConvAction;
    if kind == OFPAT_OUTPUT || kind == OFPAT_ENQUEUE || kind == OFPAT_SET_VLAN_VID {
      Converted16(order, ActionStruct(kind), x, 4);
    }
  }

  /** Conversion keeps every field the validator looks at. */
  lemma ValidOnWire(order: Order, x: Bytes)
    requires Known(order, x)
    ensures ACTION.Is(Big, Converted(order, order, x))
    ensures ValidAction(Converted(order, order, x)) <==> ValidHostAction(order, x)
  {
    hide ConvAction, FromArgument;
    ActionRoundTrip(order, order, Big, x);
    var kind := Get16(order, x, 0);
    if kind != OFPAT_VENDOR {
      ArgumentOnWire(order, kind, x);
    }
  }

  lemma ActionsOnWire(order: Order, actions: seq<Bytes>)
    requires KnownActions(order, actions)
    ensures var ys := ConvertedAll(order, order, actions);
              && Tiles(Big, ACTION, ys, WireActions(order, actions))
              && (forall i :: 0 <= i < |ys| ==> (ValidAction(ys[i]) <==> ValidHostAction(order, actions[i])))
              && (forall i :: 0 <= i < |ys| ==>
                        Known(Big, ys[i]) && Converted(order, Big, ys[i]) == ZeroedAction(order, actions[i]))
  {
    hide Converted, ZeroedAction, ValidAction, ValidHostAction, Action;
    forall i | 0 <= i < |actions|
      ensures ValidAction(Converted(order, order, actions[i])) <==> ValidHostAction(order, actions[i])
      ensures ACTION.Is(Big, Converted(order, order, actions[i]))
      ensures Known(Big, Converted(order, order, actions[i]))
      ensures Converted(order, Big, Converted(order, order, actions[i])) == ZeroedAction(order, actions[i])
    {
      ValidOnWire(order, actions[i]);
      ActionRoundTrip(order, order, Big, actions[i]);
    }
  }

  /** validate_actions ends on actions on the wire, and passes them exactly if their fields are in range. */
  lemma WireActionsJudged(order: Order, actions: seq<Bytes>, m: Memory, head: nat, rounds: nat)
    requires KnownActions(order, actions)
    requires |Flatten(actions)| <= USHRT_MAX && rounds >= |actions|
    requires Holds(m, head, WireActions(order, actions))
    ensures Walk(ValidateAction, m, head, |Flatten(actions)|, 0, rounds).Done?
    ensures Walk(ValidateAction, m, head, |Flatten(actions)|, 0, rounds).ret <= 0
    ensures Walk(ValidateAction, m, head, |Flatten(actions)|, 0, rounds) == Done(0)
            <==> ValidHostActions(order, actions)
  {
    hide ValidHostAction, ValidAction, Walk, ActionCode, FirstFailure, Tiles, Holds, Known, Converted, ZeroedAction;
    hide Flatten, Offsets, Starts, UpToFailure;
    ActionsOnWire(order, actions);
    var ys := ConvertedAll(order, order, actions);
    TiledActions(m, head, ys, WireActions(order, actions));
    FirstFailureSign(ActionCode, ys);
    MoreRounds(ValidateAction, m, head, |Flatten(actions)|, 0, |actions|, rounds);
  }

  // ---------- packet-out ----------

  /**
   A packet-out that has been built is accepted exactly if its arguments are valid; it carries all of them, and its
   actions convert back to those supplied.
   */
  lemma PacketOutAgrees(order: Order, xid: u32, bufferId: u32, inPort: u16, actions: seq<Bytes>, data: Bytes, b: Buffer)
    requires KnownActions(order, actions)
    requires PACKET_OUT_ACTIONS + |Flatten(actions)| + |data| <= USHRT_MAX
    requires IsMessage(b, PacketOutBytes(order, xid, bufferId, inPort, actions, data))
    ensures ValidatePacketOut(b, |actions|).Done?
    ensures ValidatePacketOut(b, |actions|) == Done(0) <==> ValidPort(inPort) && ValidHostActions(order, actions)
    ensures At32(b.data, 4) == xid && At32(b.data, 8) == bufferId && At16(b.data, 12) == inPort
    ensures At16(b.data, 14) == |Flatten(actions)| && Holds(b.data, PACKET_OUT_ACTIONS, WireActions(order, actions))
    ensures Holds(b.data, PACKET_OUT_ACTIONS + |Flatten(actions)|, data)
    ensures var ys := ConvertedAll(order, order, actions);
              && Tiles(Big, ACTION, ys, WireActions(order, actions))
              && forall i :: 0 <= i < |ys| ==>
                        Known(Big, ys[i]) && Converted(order, Big, ys[i]) == ZeroedAction(order, actions[i])
  {
    hide ValidatePacketOut, PacketOutBytes, ValidPort, WireActions, ValidHostActions, Holds, At16, At32;
    PacketOutHeld(order, xid, bufferId, inPort, actions, data, b);
    WireActionsJudged(order, actions, b.data, PACKET_OUT_ACTIONS, |actions|);
    NoActions(order, actions);
    PacketOutPasses(b, |Flatten(actions)|, |actions|, ValidHostActions(order, actions));
    ActionsOnWire(order, actions);
  }

  lemma NoActions(order: Order, actions: seq<Bytes>)
    requires KnownActions(order, actions)
    ensures |Flatten(actions)| == 0 ==> ValidHostActions(order, actions)
  {
    if actions != [] {
      assert Known(order, actions[0]);
    }
  }

  lemma PacketOutPasses(b: Buffer, total: u16, rounds: nat, valid: bool)
    requires ValidateHeader(b, OFPT_PACKET_OUT, PACKET_OUT_ACTIONS, USHRT_MAX) == 0 && At16(b.data, 14) == total
    requires Walk(ValidateAction, b.data, PACKET_OUT_ACTIONS, total, 0, rounds).Done?
    requires Walk(ValidateAction, b.data, PACKET_OUT_ACTIONS, total, 0, rounds) == Done(0) <==> valid
    requires total == 0 ==> valid
    ensures ValidatePacketOut(b, rounds).Done?
    ensures ValidatePacketOut(b, rounds) == Done(0) <==> ValidPort(At16(b.data, 12)) && valid
  {
    hide ValidateHeader, At16, Walk;
  }

  /** Where the parts of a packet-out are. */
  lemma PacketOutHeld(order: Order, xid: u32, bufferId: u32, inPort: u16, actions: seq<Bytes>, data: Bytes, b: Buffer)
    requires KnownActions(order, actions) && PACKET_OUT_ACTIONS + |Flatten(actions)| + |data| <= USHRT_MAX
    requires IsMessage(b, PacketOutBytes(order, xid, bufferId, inPort, actions, data))
    ensures ValidateHeader(b, OFPT_PACKET_OUT, PACKET_OUT_ACTIONS, USHRT_MAX) == 0
    ensures At32(b.data, 4) == xid && At32(b.data, 8) == bufferId
    ensures At16(b.data, 12) == inPort && At16(b.data, 14) == |Flatten(actions)|
    ensures Holds(b.data, PACKET_OUT_ACTIONS, WireActions(order, actions))
    ensures Holds(b.data, PACKET_OUT_ACTIONS + |Flatten(actions)|, data)
  {
    hide Holds, ValidateHeader, HeaderBytes, Bytes16, Bytes32, WireActions, At16, At32;
    var length := PACKET_OUT_ACTIONS + |Flatten(actions)| + |data|;
    var h := HeaderBytes(xid, OFPT_PACKET_OUT, length);
    var h1 := h + Bytes32(bufferId);
    var h2 := h1 + Bytes16(inPort);
    var h3 := h2 + Bytes16(|Flatten(actions)|);
    HoldsBoth(b.data, 0, h3 + WireActions(order, actions), data);
    HoldsBoth(b.data, 0, h3, WireActions(order, actions));
    HoldsBoth(b.data, 0, h2, Bytes16(|Flatten(actions)|));
    HoldsBoth(b.data, 0, h1, Bytes16(inPort));
    HoldsBoth(b.data, 0, h, Bytes32(bufferId));
    Held32(b.data, 8, Bytes32(bufferId), 0);
    Bytes32Reads(bufferId);
    Held16(b.data, 12, Bytes16(inPort), 0);
    Held16(b.data, 14, Bytes16(|Flatten(actions)|), 0);
    HeaderAccepted(b, xid, OFPT_PACKET_OUT, length, PACKET_OUT_ACTIONS);
  }

  // ---------- flow-mod ----------

  function HostMatchFields(order: Order, x: Bytes): MatchFields
    requires |x| == MATCH
  {
    MatchFields(Get32(order, x, 0), Get16(order, x, 18), x[20], x[24])
  }

  lemma Read32(order: Order, s: Struct, x: Bytes, o: nat, m: Memory, at: nat)
    requires |x| == Width(s) && o + 4 <= |x| && (forall k :: o <= k < o + 4 ==> From(s, k) == Mirror(o, 4, k))
    requires Holds(m, at, Conv(order, s, x))
    ensures At32(m, at + o) == Get32(order, x, o)
  {
    hide Holds;
    Converted32(order, s, x, o);
    Held32(m, at, Conv(order, s, x), o);
  }

  lemma Read16(order: Order, s: Struct, x: Bytes, o: nat, m: Memory, at: nat)
    requires |x| == Width(s) && o + 2 <= |x| && From(s, o) == o + 1 && From(s, o + 1) == o
    requires Holds(m, at, Conv(order, s, x))
    ensures At16(m, at + o) == Get16(order, x, o)
  {
    hide Holds;
    Converted16(order, s, x, o);
    Held16(m, at, Conv(order, s, x), o);
  }

  lemma Read8(order: Order, s: Struct, x: Bytes, o: nat, m: Memory, at: nat)
    requires |x| == Width(s) && o < |x| && From(s, o) == o
    requires Holds(m, at, Conv(order, s, x))
    ensures m(at + o) == x[o]
  {
    assert m(at + o) == Conv(order, s, x)[o];
  }

  lemma MatchOnWire(order: Order, x: Bytes, m: Memory, at: nat)
    requires |x| == MATCH && Holds(m, at, Conv(order, Match, x))
    ensures NtohMatchFields(m, at) == HostMatchFields(order, x)
  {
    hide Holds, Conv, At16, At32, Get16, Get32;
    Read32(order, Match, x, 0, m, at);
    Read16(order, Match, x, 18, m, at);
    Read8(order, Match, x, 20, m, at);
    Read8(order, Match, x, 24, m, at);
  }

  /** What validate_flow_mod demands of the arguments. */
  ghost predicate ValidFlowMod(order: Order, matches: Bytes, args: FlowModArgs)
    requires |matches| == MATCH
  {
    && HostMatchFields(order, matches).Valid()
    && args.command <= OFPFC_DELETE_STRICT && args.flags < 8
    && (HostMatchFields(order, matches).wildcards == 0 ==> args.priority == USHRT_MAX)
    && (args.command >= OFPFC_DELETE ==> args.outPort == OFPP_NONE || ValidPort(args.outPort))
  }

  /** Every argument is where the structure has it. */
  predicate ArgsAt(m: Memory, args: FlowModArgs) {
    && At32(m, 48) as int * 0x1_0000_0000 + At32(m, 52) == args.cookie
    && At16(m, 56) == args.command && At16(m, 58) == args.idleTimeout && At16(m, 60) == args.hardTimeout
    && At16(m, 62) == args.priority && At32(m, 64) == args.bufferId && At16(m, 68) == args.outPort
    && At16(m, 70) == args.flags
  }

  lemma ArgsRead(m: Memory, args: FlowModArgs)
    requires Holds(m, 48, args.Bytes())
    ensures ArgsAt(m, args)
  {
    hide Bytes16, Bytes32, Bytes64, At16, At32;
    var a := Bytes64(args.cookie);
    var c := a + Bytes16(args.command);
    var i := c + Bytes16(args.idleTimeout);
    var h := i + Bytes16(args.hardTimeout);
    var p := h + Bytes16(args.priority);
    var b := p + Bytes32(args.bufferId);
    var o := b + Bytes16(args.outPort);
    HoldsBoth(m, 48, o, Bytes16(args.flags));
    HoldsBoth(m, 48, b, Bytes16(args.outPort));
    HoldsBoth(m, 48, p, Bytes32(args.bufferId));
    HoldsBoth(m, 48, h, Bytes16(args.priority));
    HoldsBoth(m, 48, i, Bytes16(args.hardTimeout));
    HoldsBoth(m, 48, c, Bytes16(args.idleTimeout));
    HoldsBoth(m, 48, a, Bytes16(args.command));
    hide Holds;
    Held32(m, 48, a, 0);
    Held32(m, 48, a, 4);
    Bytes64Reads(args.cookie);
    Held16(m, 56, Bytes16(args.command), 0);
    Held16(m, 58, Bytes16(args.idleTimeout), 0);
    Held16(m, 60, Bytes16(args.hardTimeout), 0);
    Held16(m, 62, Bytes16(args.priority), 0);
    Held32(m, 64, Bytes32(args.bufferId), 0);
    Bytes32Reads(args.bufferId);
    Held16(m, 68, Bytes16(args.outPort), 0);
    Held16(m, 70, Bytes16(args.flags), 0);
  }

  /** The fields of a flow-mod are accepted exactly if they are valid. */
  lemma FlowModFields(order: Order, matches: Bytes, args: FlowModArgs, m: Memory)
    requires |matches| == MATCH && Holds(m, 8, Conv(order, Match, matches)) && Holds(m, 48, args.Bytes())
    ensures ValidateFlowModFields(m) <= 0 && (ValidateFlowModFields(m) == 0 <==> ValidFlowMod(order, matches, args))
  {
    hide Holds, NtohMatchFields, HostMatchFields, ValidateMatch, At16, At32, Conv, FlowModArgs.Bytes;
    MatchOnWire(order, matches, m, 8);
    ArgsRead(m, args);
    MatchAccepted(HostMatchFields(order, matches));
  }

  /** The fields of a match on the wire. */
  lemma MatchHeld(order: Order, matches: Bytes, m: Memory, at: nat)
    requires |matches| == MATCH && Holds(m, at, Conv(order, Match, matches))
    ensures SameMatch(order, matches, Big, Stretch(m, at, MATCH))
  {
    hide Conv, Get16, Get32;
    SameHeld(m, at, Stretch(m, at, MATCH), Conv(order, Match, matches));
    hide Holds;
    MatchKept(order, order, Big, Match, matches, Stretch(m, at, MATCH));
  }

  lemma SameHeld(m: Memory, at: nat, x: Bytes, y: Bytes)
    requires Holds(m, at, x) && Holds(m, at, y) && |x| == |y|
    ensures x == y
  {
    forall k | 0 <= k < |x| ensures x[k] == y[k] {
      assert m(at + k) == x[k];
    }
  }

  lemma HeldBytes(m: Memory, at: nat, x: Bytes)
    requires Holds(m, at, x)
    ensures forall k :: at <= k < at + |x| ==> m(k) == x[k - at]
  {
  }

  /**
   A flow-mod that has been built is accepted exactly if its arguments are valid; it carries all of them, and its match
   and its actions convert back to those supplied.
   */
  lemma FlowModAgrees(order: Order, xid: u32, matches: Bytes, args: FlowModArgs, actions: seq<Bytes>, b: Buffer)
    requires |matches| == MATCH && KnownActions(order, actions)
    requires FLOW_MOD_ACTIONS + |Flatten(actions)| <= USHRT_MAX
    requires IsMessage(b, FlowModBytes(order, xid, matches, args, actions))
    ensures ValidateFlowMod(b, |actions|).Done?
    ensures ValidateFlowMod(b, |actions|) == Done(0)
       <==> ValidFlowMod(order, matches, args) && ValidHostActions(order, actions)
    ensures At32(b.data, 4) == xid && ArgsAt(b.data, args)
    ensures Holds(b.data, HEADER, Conv(order, Match, matches))
    ensures SameMatch(order, matches, Big, Stretch(b.data, HEADER, MATCH))
    ensures Conv(order, Match, Conv(order, Match, matches)) == ZeroPads(Match, matches)
    ensures Holds(b.data, FLOW_MOD_ACTIONS, WireActions(order, actions))
    ensures var ys := ConvertedAll(order, order, actions);
              && Tiles(Big, ACTION, ys, WireActions(order, actions))
              && forall i :: 0 <= i < |ys| ==>
                        Known(Big, ys[i]) && Converted(order, Big, ys[i]) == ZeroedAction(order, actions[i])
  {
    hide SameMatch, Holds, ValidateFlowMod, WireActions, ValidHostActions, ValidFlowMod, ValidateFlowModFields, Conv;
    hide FlowModArgs.Bytes, FlowModBytes, At16, At32, ArgsAt, Get16, Get32, Known, ConvertedAll, Tiles, Walk, Flatten;
    FlowModHeld(order, xid, matches, args, actions, b);
    MatchHeld(order, matches, b.data, HEADER);
    ArgsRead(b.data, args);
    FlowModFields(order, matches, args, b.data);
    WireActionsJudged(order, actions, b.data, FLOW_MOD_ACTIONS, |actions|);
    NoActions(order, actions);
    FlowModPasses(b, |Flatten(actions)|, |actions|, ValidHostActions(order, actions));
    ActionsOnWire(order, actions);
    ConvTwice(order, Match, matches);
  }

  lemma FlowModPasses(b: Buffer, total: u16, rounds: nat, valid: bool)
    requires ValidateHeader(b, OFPT_FLOW_MOD, FLOW_MOD_ACTIONS, USHRT_MAX) == 0
    requires ValidateFlowModFields(b.data) <= 0 && At16(b.data, 2) == FLOW_MOD_ACTIONS as int + total
    requires Walk(ValidateAction, b.data, FLOW_MOD_ACTIONS, total, 0, rounds).Done?
    requires Walk(ValidateAction, b.data, FLOW_MOD_ACTIONS, total, 0, rounds) == Done(0) <==> valid
    requires total == 0 ==> valid
    ensures ValidateFlowMod(b, rounds).Done?
    ensures ValidateFlowMod(b, rounds) == Done(0) <==> ValidateFlowModFields(b.data) == 0 && valid
  {
    hide ValidateHeader, ValidateFlowModFields, At16, Sub16, Walk;
  }

  /** Where the parts of a flow-mod are. */
  lemma FlowModHeld(order: Order, xid: u32, matches: Bytes, args: FlowModArgs, actions: seq<Bytes>, b: Buffer)
    requires |matches| == MATCH && KnownActions(order, actions) && FLOW_MOD_ACTIONS + |Flatten(actions)| <= USHRT_MAX
    requires IsMessage(b, FlowModBytes(order, xid, matches, args, actions))
    ensures ValidateHeader(b, OFPT_FLOW_MOD, FLOW_MOD_ACTIONS, USHRT_MAX) == 0
    ensures At16(b.data, 2) == FLOW_MOD_ACTIONS + |Flatten(actions)| && At32(b.data, 4) == xid
    ensures Holds(b.data, HEADER, Conv(order, Match, matches)) && Holds(b.data, 48, args.Bytes())
    ensures Holds(b.data, FLOW_MOD_ACTIONS, WireActions(order, actions))
  {
    hide Holds, ValidateHeader, HeaderBytes, FlowModArgs.Bytes, WireActions, At16, At32, Conv;
    var length := FLOW_MOD_ACTIONS + |Flatten(actions)|;
    var h := HeaderBytes(xid, OFPT_FLOW_MOD, length);
    var h1 := h + Conv(order, Match, matches);
    HoldsBoth(b.data, 0, h1 + args.Bytes(), WireActions(order, actions));
    HoldsBoth(b.data, 0, h1, args.Bytes());
    HoldsBoth(b.data, 0, h, Conv(order, Match, matches));
    HeaderAccepted(b, xid, OFPT_FLOW_MOD, length, FLOW_MOD_ACTIONS);
  }

  // ---------- flow statistics ----------

  /** A flow record in host order that validate_flow_stats_reply has nothing against. */
  ghost predicate ValidFlow(order: Order, x: Bytes, actions: seq<Bytes>)
    requires FlowRecord(order, x, actions)
  {
    && ValidHostActions(order, actions) && HostMatchFields(order, x[4..44]).Valid()
    && (HostMatchFields(order, x[4..44]).wildcards == 0 ==> Get16(order, x, 52) == USHRT_MAX)
  }

  ghost predicate ValidFlows(order: Order, flows: seq<Bytes>, actions: seq<seq<Bytes>>)
    requires FlowRecords(order, flows, actions)
  {
    forall i :: 0 <= i < |flows| ==> ValidFlow(order, flows[i], actions[i])
  }

  /** The fixed part of a record on the wire holds the match at offset 4. */
  lemma FlowMatchOnWire(order: Order, x: Bytes, m: Memory, at: nat)
    requires |x| == FLOW_STATS_ACTIONS && Holds(m, at, Conv(order, FlowStatsHead, x))
    ensures NtohMatchFields(m, at + 4) == HostMatchFields(order, x[4..44])
  {
    hide Holds, Conv, NtohMatchFields, HostMatchFields;
    HoldsPart(m, at, Conv(order, FlowStatsHead, x), 4, 44);
    MatchInFlow(order, x);
    MatchOnWire(order, x[4..44], m, at + 4);
  }

  /** Its length is at offset 0 and its priority at offset 52. */
  lemma FlowShortOnWire(order: Order, x: Bytes, o: nat, m: Memory, at: nat)
    requires o == 0 || o == 52
    requires |x| == FLOW_STATS_ACTIONS && Holds(m, at, Conv(order, FlowStatsHead, x))
    ensures At16(m, at + o) == Get16(order, x, o)
  {
    Read16(order, FlowStatsHead, x, o, m, at);
  }

  lemma MatchInFlow(order: Order, x: Bytes)
    requires |x| == FLOW_STATS_ACTIONS
    ensures Conv(order, FlowStatsHead, x)[4..44] == Conv(order, Match, x[4..44])
  {
    var y, z := Conv(order, FlowStatsHead, x)[4..44], Conv(order, Match, x[4..44]);
    forall k | 0 <= k < MATCH ensures y[k] == z[k] {
      assert y[k] == Conv(order, FlowStatsHead, x)[4 + k];
    }
  }

  lemma {:induction false} TilesCount(order: Order, kind: Kind, xs: seq<Bytes>, region: Bytes)
    requires Tiles(order, kind, xs, region) && kind.least > 0
    ensures |xs| <= |region|
  {
    if xs != [] {
      TilesTail(order, kind, xs, region);
      TilesCount(order, kind, xs[1..], region[|xs[0]|..]);
    }
  }

  lemma FlowFixedPart(order: Order, x: Bytes, actions: seq<Bytes>, m: Memory, at: nat)
    requires FlowRecord(order, x, actions) && Holds(m, at, ConvertedFlow(order, order, x, actions))
    requires KnownActions(order, actions)
    ensures At16(m, at) == |x| == FLOW_STATS_ACTIONS + |Flatten(actions)|
    ensures At16(m, at + 52) == Get16(order, x, 52)
    ensures NtohMatchFields(m, at + 4) == HostMatchFields(order, x[4..44])
    ensures Holds(m, at + FLOW_STATS_ACTIONS, WireActions(order, actions))
  {
    hide Holds, Conv, NtohMatchFields, HostMatchFields;
    var head := x[..FLOW_STATS_ACTIONS];
    HoldsBoth(m, at, Conv(order, FlowStatsHead, head), WireActions(order, actions));
    FlowShortOnWire(order, head, 0, m, at);
    FlowShortOnWire(order, head, 52, m, at);
    FlowMatchOnWire(order, head, m, at);
    assert head[4..44] == x[4..44];
  }

  /** A record passes its round of the loop exactly if it is valid. */
  lemma FlowJudged(order: Order, x: Bytes, actions: seq<Bytes>, m: Memory, at: nat)
    requires FlowRecord(order, x, actions) && Holds(m, at, ConvertedFlow(order, order, x, actions))
    ensures At16(m, at) == |x| >= FLOW_STATS_ACTIONS
    ensures FlowStatsCode(m, at, USHRT_MAX).Done? && FlowStatsCode(m, at, USHRT_MAX).ret <= 0
    ensures FlowStatsCode(m, at, USHRT_MAX) == Done(0) <==> ValidFlow(order, x, actions)
  {
    TilesCount(order, ACTION, actions, x[FLOW_STATS_ACTIONS..]);
    hide FlowStatsCode, Holds, ConvertedFlow, WireActions, FlowRecord, ValidHostActions, HostMatchFields;
    hide NtohMatchFields, At16, Get16, Walk, MatchFields.Valid;
    FlowFixedPart(order, x, actions, m, at);
    NoActions(order, actions);
    WireActionsJudged(order, actions, m, at + FLOW_STATS_ACTIONS, USHRT_MAX);
    FlowCode(m, at, |Flatten(actions)|, ValidHostActions(order, actions));
  }

  lemma FlowCode(m: Memory, at: nat, total: u16, valid: bool)
    requires At16(m, at) == FLOW_STATS_ACTIONS as int + total && (total == 0 ==> valid)
    requires Walk(ValidateAction, m, at + FLOW_STATS_ACTIONS, total, 0, USHRT_MAX).Done?
    requires Walk(ValidateAction, m, at + FLOW_STATS_ACTIONS, total, 0, USHRT_MAX).ret <= 0
    requires Walk(ValidateAction, m, at + FLOW_STATS_ACTIONS, total, 0, USHRT_MAX) == Done(0) <==> valid
    ensures FlowStatsCode(m, at, USHRT_MAX).Done? && FlowStatsCode(m, at, USHRT_MAX).ret <= 0
    ensures var f := NtohMatchFields(m, at + 4);
              FlowStatsCode(m, at, USHRT_MAX) == Done(0)
              <==> f.Valid() && (f.wildcards == 0 ==> At16(m, at + 52) == USHRT_MAX) && valid
  {
    hide Walk, At16, NtohMatchFields, Sub16;
    MatchAccepted(NtohMatchFields(m, at + 4));
    hide ValidateMatch;
  }

  lemma WireFlowsTail(order: Order, flows: seq<Bytes>, actions: seq<seq<Bytes>>)
    requires FlowRecords(order, flows, actions) && flows != []
    ensures FlowRecord(order, flows[0], actions[0]) && FlowRecords(order, flows[1..], actions[1..])
    ensures ValidFlows(order, flows, actions)
            <==> ValidFlow(order, flows[0], actions[0]) && ValidFlows(order, flows[1..], actions[1..])
    ensures Flatten(WireFlows(order, flows, actions))
         == ConvertedFlow(order, order, flows[0], actions[0]) + Flatten(WireFlows(order, flows[1..], actions[1..]))
  {
    hide FlowRecord, ValidFlow, ConvertedFlow;
    assert WireFlows(order, flows, actions)[1..] == WireFlows(order, flows[1..], actions[1..]);
    if ValidFlow(order, flows[0], actions[0]) && ValidFlows(order, flows[1..], actions[1..]) {
      forall i | 0 <= i < |flows| ensures ValidFlow(order, flows[i], actions[i]) {
        assert i > 0 ==> flows[1..][i - 1] == flows[i] && actions[1..][i - 1] == actions[i];
      }
    }
  }

  /** The loop ends on a tiled reply; if every record is valid it drives its counter to exactly 0. */
  lemma {:induction false} FlowsJudged(order: Order, flows: seq<Bytes>, actions: seq<seq<Bytes>>, m: Memory, at: nat)
    requires FlowRecords(order, flows, actions)
    requires |Flatten(flows)| <= USHRT_MAX && Holds(m, at, Flatten(WireFlows(order, flows, actions)))
    ensures FlowWalk(m, at, |Flatten(flows)|, |flows|, USHRT_MAX).Done?
    ensures FlowWalk(m, at, |Flatten(flows)|, |flows|, USHRT_MAX) == Done(0) <==> ValidFlows(order, flows, actions)
    decreases |flows|
  {
    hide FlowStatsCode, Holds, ConvertedFlow, ValidFlow, FlowRecord, WireFlows, Sub16, At16;
    if flows != [] {
      hide ValidFlows, FlowRecords;
      var x := flows[0];
      WireFlowsTail(order, flows, actions);
      HoldsBoth(m, at, ConvertedFlow(order, order, x, actions[0]), Flatten(WireFlows(order, flows[1..], actions[1..])));
      FlowJudged(order, x, actions[0], m, at);
      FlowsJudged(order, flows[1..], actions[1..], m, at + |x|);
    }
  }

  /**
   A flow statistics reply that has been built, of any number of records, is accepted exactly if its arguments are
   valid; its records lie one after another and convert back to those supplied.
   */
  lemma FlowStatsReplyAgrees(order: Order, xid: u32, flags: u16, flows: seq<Bytes>, actions: seq<seq<Bytes>>, b: Buffer)
    requires FlowRecords(order, flows, actions) && STATS_REPLY_BODY + |Flatten(flows)| <= USHRT_MAX
    requires IsMessage(b, FlowStatsReplyBytes(order, xid, flags, flows, actions))
    ensures FlowStatsReplyCode(b, |flows|, USHRT_MAX).Done?
    ensures FlowStatsReplyCode(b, |flows|, USHRT_MAX) == Done(0) <==> flags <= 1 && ValidFlows(order, flows, actions)
    ensures At32(b.data, 4) == xid && At16(b.data, 8) == OFPST_FLOW && At16(b.data, 10) == flags
    ensures var ys := WireFlows(order, flows, actions);
              && Holds(b.data, STATS_REPLY_BODY, Flatten(ys)) && Tiles(Big, FLOW, ys, Flatten(ys))
              && forall i :: 0 <= i < |flows| ==>
                   ConvertsBack(order, flows[i], actions[i], ys[i]) && SameRecord(order, flows[i], Big, ys[i])
  {
    hide Holds, ValidFlows, FlowRecord, ConvertsBack, SameRecord, WireFlows, Tiles, At16, At32, FlowStatsReplyCode;
    hide FlowStatsReplyBytes, IsMessage, Flatten;
    FlowStatsReplyHeld(order, xid, flags, flows, actions, b);
    FlowsJudged(order, flows, actions, b.data, STATS_REPLY_BODY);
    FlowStatsReplyPasses(b, |Flatten(flows)|, |flows|, ValidFlows(order, flows, actions));
    FlowsConvertBack(order, flows, actions);
  }

  lemma FlowStatsReplyPasses(b: Buffer, total: u16, records: nat, valid: bool)
    requires ValidateHeader(b, OFPT_STATS_REPLY, STATS_REPLY_BODY, USHRT_MAX) == 0
    requires At16(b.data, 2) == STATS_REPLY_BODY as int + total
    requires FlowWalk(b.data, STATS_REPLY_BODY, total, records, USHRT_MAX).Done?
    requires FlowWalk(b.data, STATS_REPLY_BODY, total, records, USHRT_MAX) == Done(0) <==> valid
    ensures FlowStatsReplyCode(b, records, USHRT_MAX).Done?
    ensures FlowStatsReplyCode(b, records, USHRT_MAX) == Done(0) <==> At16(b.data, 10) <= 1 && valid
  {
    hide ValidateHeader, At16, Sub16, FlowWalk;
  }

  lemma FlowStatsReplyHeld(order: Order, xid: u32, flags: u16, flows: seq<Bytes>, actions: seq<seq<Bytes>>, b: Buffer)
    requires FlowRecords(order, flows, actions) && STATS_REPLY_BODY + |Flatten(flows)| <= USHRT_MAX
    requires IsMessage(b, FlowStatsReplyBytes(order, xid, flags, flows, actions))
    ensures ValidateHeader(b, OFPT_STATS_REPLY, STATS_REPLY_BODY, USHRT_MAX) == 0
    ensures At16(b.data, 2) == STATS_REPLY_BODY + |Flatten(flows)| && At32(b.data, 4) == xid
            && At16(b.data, 8) == OFPST_FLOW && At16(b.data, 10) == flags
    ensures Holds(b.data, STATS_REPLY_BODY, Flatten(WireFlows(order, flows, actions)))
  {
    hide Holds, ValidateHeader, HeaderBytes, Bytes16, At16, At32, FlowRecord, ConvertedFlow;
    var length := STATS_REPLY_BODY + |Flatten(flows)|;
    var h := HeaderBytes(xid, OFPT_STATS_REPLY, length);
    var h1 := h + Bytes16(OFPST_FLOW);
    var ys := WireFlows(order, flows, actions);
    SameTotal(flows, ys);
    HoldsBoth(b.data, 0, h1 + Bytes16(flags), Flatten(ys));
    HoldsBoth(b.data, 0, h1, Bytes16(flags));
    HoldsBoth(b.data, 0, h, Bytes16(OFPST_FLOW));
    Held16(b.data, 8, Bytes16(OFPST_FLOW), 0);
    Held16(b.data, 10, Bytes16(flags), 0);
    HeaderAccepted(b, xid, OFPT_STATS_REPLY, length, STATS_REPLY_BODY);
  }

  /** The record y on the wire converts to the record x in host order, with its padding zeroed. */
  ghost predicate ConvertsBack(order: Order, x: Bytes, actions: seq<Bytes>, y: Bytes)
    requires FlowRecord(order, x, actions)
  {
    var actions' := ConvertedAll(order, order, actions);
    FlowRecord(Big, y, actions') && ConvertedFlow(order, Big, y, actions') == ZeroedFlow(order, x, actions)
  }

  lemma FlowsConvertBack(order: Order, flows: seq<Bytes>, actions: seq<seq<Bytes>>)
    requires FlowRecords(order, flows, actions)
    ensures var ys := WireFlows(order, flows, actions);
              && Tiles(Big, FLOW, ys, Flatten(ys))
              && forall i :: 0 <= i < |flows| ==>
                   ConvertsBack(order, flows[i], actions[i], ys[i]) && SameRecord(order, flows[i], Big, ys[i])
  {
    hide ConvertedFlow, ZeroedFlow, ConvertedAll, SameRecord;
    forall i | 0 <= i < |flows|
      ensures FLOW.Is(Big, WireFlows(order, flows, actions)[i])
      ensures ConvertsBack(order, flows[i], actions[i], WireFlows(order, flows, actions)[i])
      ensures SameRecord(order, flows[i], Big, WireFlows(order, flows, actions)[i])
    {
      RecordFieldsKept(order, order, Big, flows[i], actions[i], WireFlows(order, flows, actions)[i]);
      FlowRoundTrip(order, order, Big, flows[i], actions[i]);
    }
  }

  // ---------- queue configuration ----------

  ghost predicate ValidHostProperty(order: Order, p: Bytes) {
    Property(order, p) && ValidProperty(Get16(order, p, 0), Get16(order, p, 2))
  }

  /** A queue description in host order with at least one property. */
  ghost predicate Describes(order: Order, x: Bytes, properties: seq<Bytes>) {
    QueueRecord(order, x, properties) && properties != []
  }

  ghost predicate Described(order: Order, queues: seq<Bytes>, properties: seq<seq<Bytes>>) {
    |queues| == |properties| && forall i :: 0 <= i < |queues| ==> Describes(order, queues[i], properties[i])
  }

  ghost predicate ValidProperties(order: Order, properties: seq<Bytes>) {
    forall i :: 0 <= i < |properties| ==> ValidHostProperty(order, properties[i])
  }

  ghost predicate ValidQueues(order: Order, properties: seq<seq<Bytes>>) {
    forall i :: 0 <= i < |properties| ==> ValidProperties(order, properties[i])
  }

  lemma QueueLeast(order: Order, x: Bytes, properties: seq<Bytes>)
    requires Describes(order, x, properties)
    ensures |x| >= QUEUE_PROPERTIES + QUEUE_PROP_HEADER
  {
    assert Property(order, properties[0]);
    TilesTail(order, PROPERTY, properties, x[QUEUE_PROPERTIES..]);
  }

  lemma PropertiesJudged(order: Order, properties: seq<Bytes>, kept: Bytes, m: Memory, head: nat)
    requires |kept| == |Flatten(properties)| <= USHRT_MAX
    requires forall i :: 0 <= i < |properties| ==> Property(order, properties[i])
    requires Holds(m, head, ConvertedProperties(order, order, properties, kept))
    ensures Walk(ValidateQueueProperty, m, head, |kept|, 0, USHRT_MAX).Done?
    ensures Walk(ValidateQueueProperty, m, head, |kept|, 0, USHRT_MAX).ret <= 0
    ensures Walk(ValidateQueueProperty, m, head, |kept|, 0, USHRT_MAX) == Done(0)
            <==> ValidProperties(order, properties)
  {
    hide ValidProperty, Holds, Walk, ConvertedProperties;
    var region := ConvertedProperties(order, order, properties, kept);
    var ys := ConvertedEach(order, order, properties, kept);
    PropertiesConverted(order, order, Big, properties, kept);
    forall i | 0 <= i < |ys|
      ensures |ys[i]| >= 4 && PROPERTY.Is(Big, ys[i])
      ensures ValidProperty(Net16(ys[i], 0), Net16(ys[i], 2)) <==> ValidHostProperty(order, properties[i])
    {
      assert SameProperty(order, properties[i], Big, ys[i]);
    }
    TilesCount(Big, PROPERTY, ys, region);
    TiledProperties(m, head, ys, region);
    FirstFailureIs(PropertyCodeOf, ys);
    MoreRounds(ValidateQueueProperty, m, head, |kept|, 0, |ys|, USHRT_MAX);
  }

  lemma QueueLengthOnWire(order: Order, x: Bytes, m: Memory, at: nat)
    requires QUEUE.Is(order, x) && Holds(m, at, Conv(order, QueueHead, x[..QUEUE_PROPERTIES]))
    ensures At16(m, at + 4) == |x|
  {
    Read16(order, QueueHead, x[..QUEUE_PROPERTIES], 4, m, at);
  }

  /** A queue has the length by which both loops move on, and passes the validating one exactly if it is valid. */
  lemma QueueJudged(order: Order, x: Bytes, properties: seq<Bytes>, m: Memory, at: nat)
    requires Describes(order, x, properties)
    requires Holds(m, at, ConvertedQueue(order, order, x, properties, Zeros(|x|)))
    ensures At16(m, at + 4) == |x| >= QUEUE_PROPERTIES + QUEUE_PROP_HEADER
    ensures ValidatePacketQueue(m, at, USHRT_MAX).Done? && ValidatePacketQueue(m, at, USHRT_MAX).ret <= 0
    ensures ValidatePacketQueue(m, at, USHRT_MAX) == Done(0) <==> ValidProperties(order, properties)
  {
    hide Holds, Conv, ConvertedProperties, At16, Get16, Sub16, Walk, ValidProperties;
    var head, kept := x[..QUEUE_PROPERTIES], Zeros(|x|)[QUEUE_PROPERTIES..];
    HoldsBoth(m, at, Conv(order, QueueHead, head), ConvertedProperties(order, order, properties, kept));
    QueueLengthOnWire(order, x, m, at);
    QueueLeast(order, x, properties);
    PropertiesJudged(order, properties, kept, m, at + QUEUE_PROPERTIES);
  }

  lemma WireQueuesTail(order: Order, queues: seq<Bytes>, properties: seq<seq<Bytes>>)
    requires Described(order, queues, properties) && QueueRecords(order, queues, properties) && queues != []
    ensures Describes(order, queues[0], properties[0])
    ensures Described(order, queues[1..], properties[1..]) && QueueRecords(order, queues[1..], properties[1..])
    ensures ValidQueues(order, properties)
            <==> ValidProperties(order, properties[0]) && ValidQueues(order, properties[1..])
    ensures Flatten(WireQueues(order, queues, properties))
         == ConvertedQueue(order, order, queues[0], properties[0], Zeros(|queues[0]|))
            + Flatten(WireQueues(order, queues[1..], properties[1..]))
  {
    hide QueueRecord, ConvertedQueue, ValidProperties, Describes;
    assert WireQueues(order, queues, properties)[1..] == WireQueues(order, queues[1..], properties[1..]);
    if ValidProperties(order, properties[0]) && ValidQueues(order, properties[1..]) {
      forall i | 0 <= i < |properties| ensures ValidProperties(order, properties[i]) {
        assert i > 0 ==> properties[1..][i - 1] == properties[i];
      }
    }
  }

  /** The counting loop ends with nothing left and finds exactly the queues that the validating loop then visits. */
  lemma {:induction false} QueuesJudged(order: Order, queues: seq<Bytes>, properties: seq<seq<Bytes>>, m: Memory,
                                        at: nat, counted: nat, rounds: nat)
    requires Described(order, queues, properties) && QueueRecords(order, queues, properties) && rounds >= |queues|
    requires |Flatten(queues)| <= USHRT_MAX && Holds(m, at, Flatten(WireQueues(order, queues, properties)))
    ensures CountQueues(m, at, |Flatten(queues)|, counted, rounds) == Counted(0, counted + |queues|)
    ensures QueuesCode(m, at, |queues|, USHRT_MAX).Done?
    ensures QueuesCode(m, at, |queues|, USHRT_MAX) == Done(0) <==> ValidQueues(order, properties)
    decreases |queues|
  {
    hide ValidatePacketQueue, Holds, ConvertedQueue, ValidProperties, QueueRecord, WireQueues, Sub16, At16, Describes;
    if queues != [] {
      hide ValidQueues, Described, QueueRecords;
      var x := queues[0];
      WireQueuesTail(order, queues, properties);
      HoldsBoth(m, at, ConvertedQueue(order, order, x, properties[0], Zeros(|x|)),
                Flatten(WireQueues(order, queues[1..], properties[1..])));
      QueueJudged(order, x, properties[0], m, at);
      QueuesJudged(order, queues[1..], properties[1..], m, at + |x|, counted + 1, rounds - 1);
    }
  }

  lemma QueueReplyHeld(order: Order, xid: u32, port: u16, queues: seq<Bytes>, properties: seq<seq<Bytes>>, b: Buffer)
    requires QueueRecords(order, queues, properties) && CONFIG_REPLY_QUEUES + |Flatten(queues)| <= USHRT_MAX
    requires |Flatten(queues)| >= QUEUE_PROPERTIES
    requires IsMessage(b, QueueReplyBytes(order, xid, port, queues, properties))
    ensures ValidateHeader(b, OFPT_QUEUE_GET_CONFIG_REPLY, CONFIG_REPLY_QUEUES + QUEUE_PROPERTIES, USHRT_MAX) == 0
    ensures At16(b.data, 2) == CONFIG_REPLY_QUEUES + |Flatten(queues)| && At32(b.data, 4) == xid
            && At16(b.data, 8) == port && forall k :: 10 <= k < 16 ==> b.data(k) == 0
    ensures Holds(b.data, CONFIG_REPLY_QUEUES, Flatten(WireQueues(order, queues, properties)))
  {
    hide Holds, ValidateHeader, HeaderBytes, Bytes16, At16, At32, QueueRecord, ConvertedQueue;
    var length := CONFIG_REPLY_QUEUES + |Flatten(queues)|;
    var h := HeaderBytes(xid, OFPT_QUEUE_GET_CONFIG_REPLY, length);
    var h1 := h + Bytes16(port);
    var ys := WireQueues(order, queues, properties);
    SameTotal(queues, ys);
    HoldsBoth(b.data, 0, h1 + Zeros(6), Flatten(ys));
    HoldsBoth(b.data, 0, h1, Zeros(6));
    HoldsBoth(b.data, 0, h, Bytes16(port));
    Held16(b.data, 8, Bytes16(port), 0);
    HeldBytes(b.data, 10, Zeros(6));
    HeaderAccepted(b, xid, OFPT_QUEUE_GET_CONFIG_REPLY, length, CONFIG_REPLY_QUEUES + QUEUE_PROPERTIES);
  }

  /** The properties of a queue on the wire, where it is built over zeros. */
  ghost function WireProperties(order: Order, x: Bytes, properties: seq<Bytes>): (ys: seq<Bytes>)
    requires QueueRecord(order, x, properties)
    ensures |ys| == |properties|
  {
    ConvertedEach(order, order, properties, Zeros(|x|)[QUEUE_PROPERTIES..])
  }

  /**
   y is the queue x on the wire: the same id and length, properties with the same fields, zero padding. Whatever memory
   it is converted into, ntoh_packet_queue gives x back there, but for the padding.
   */
  ghost predicate QueueConvertsBack(order: Order, x: Bytes, properties: seq<Bytes>, y: Bytes)
    requires QueueRecord(order, x, properties)
  {
    var ys := WireProperties(order, x, properties);
    && QueueRecord(Big, y, ys) && |y| == |x| && SameProperties(order, properties, Big, ys)
    && Net32(y, 0) == Get32(order, x, 0) && y[6] == y[7] == 0
    && (forall i :: 0 <= i < |ys| ==> Property(Big, ys[i]) && ZeroPadding(IsMinRate(Big, ys[i]), ys[i]))
    && forall kept: Bytes :: |kept| == |y| ==>
         ConvertedQueue(order, Big, y, ys, kept) == RestoredQueue(order, x, properties, kept)
  }

  lemma WirePadding(order: Order, x: Bytes, properties: seq<Bytes>)
    requires QueueRecord(order, x, properties)
    ensures var ys := WireProperties(order, x, properties);
            forall i :: 0 <= i < |ys| ==> Property(Big, ys[i]) && ZeroPadding(IsMinRate(Big, ys[i]), ys[i])
  {
    hide Property, ZeroPadding, IsMinRate;
    var kept := Zeros(|x|)[QUEUE_PROPERTIES..];
    var ys := WireProperties(order, x, properties);
    PaddingZeroed(order, order, properties, kept);
    PropertiesConverted(order, order, Big, properties, kept);
    forall i | 0 <= i < |ys| ensures Property(Big, ys[i]) && ZeroPadding(IsMinRate(Big, ys[i]), ys[i]) {
      SameKind(order, properties[i], Big, ys[i]);
    }
  }

  lemma BuiltQueueConvertsBack(order: Order, x: Bytes, properties: seq<Bytes>)
    requires QueueRecord(order, x, properties)
    ensures var y := ConvertedQueue(order, order, x, properties, Zeros(|x|));
            QUEUE.Is(Big, y) && QueueConvertsBack(order, x, properties, y)
  {
    hide ConvertedQueue, RestoredQueue, SameProperties, Property, ZeroPadding;
    WirePadding(order, x, properties);
    forall kept: Bytes | |kept| == |x|
      ensures var y := ConvertedQueue(order, order, x, properties, Zeros(|x|));
              var ys := WireProperties(order, x, properties);
              && QueueRecord(Big, y, ys)
              && ConvertedQueue(order, Big, y, ys, kept) == RestoredQueue(order, x, properties, kept)
    {
      QueueRoundTrip(order, order, Big, x, properties, Zeros(|x|), kept);
    }
    QueueRoundTrip(order, order, Big, x, properties, Zeros(|x|), Zeros(|x|));
  }

  lemma QueuesConvertBack(order: Order, queues: seq<Bytes>, properties: seq<seq<Bytes>>)
    requires QueueRecords(order, queues, properties)
    ensures var ys := WireQueues(order, queues, properties);
              && Tiles(Big, QUEUE, ys, Flatten(ys))
              && forall i :: 0 <= i < |queues| ==>
                   QueueRecord(order, queues[i], properties[i])
                   && QueueConvertsBack(order, queues[i], properties[i], ys[i])
  {
    hide ConvertedQueue, QueueConvertsBack;
    forall i | 0 <= i < |queues|
      ensures QUEUE.Is(Big, WireQueues(order, queues, properties)[i])
      ensures QueueConvertsBack(order, queues[i], properties[i], WireQueues(order, queues, properties)[i])
    {
      BuiltQueueConvertsBack(order, queues[i], properties[i]);
    }
  }

  /**
   A reply that has been built from at least one queue, each with at least one property, is accepted exactly if the port
   and every property are valid. The queues lie one after another, and ntoh_packet_queue gives back what was supplied.
   */
  lemma QueueReplyAgrees(order: Order, xid: u32, port: u16, queues: seq<Bytes>, properties: seq<seq<Bytes>>, b: Buffer)
    requires Described(order, queues, properties) && QueueRecords(order, queues, properties) && queues != []
    requires CONFIG_REPLY_QUEUES + |Flatten(queues)| <= USHRT_MAX
    requires IsMessage(b, QueueReplyBytes(order, xid, port, queues, properties))
    ensures QueueReplyCode(b, USHRT_MAX).Done?
    ensures QueueReplyCode(b, USHRT_MAX) == Done(0) <==> ValidPort(port) && ValidQueues(order, properties)
    ensures At32(b.data, 4) == xid && At16(b.data, 8) == port && forall k :: 10 <= k < 16 ==> b.data(k) == 0
    ensures CountQueues(b.data, CONFIG_REPLY_QUEUES, |Flatten(queues)|, 0, USHRT_MAX) == Counted(0, |queues|)
    ensures var ys := WireQueues(order, queues, properties);
              && Holds(b.data, CONFIG_REPLY_QUEUES, Flatten(ys)) && Tiles(Big, QUEUE, ys, Flatten(ys))
              && forall i :: 0 <= i < |queues| ==>
                   QueueRecord(order, queues[i], properties[i])
                   && QueueConvertsBack(order, queues[i], properties[i], ys[i])
  {
    hide QueueReplyCode, CountQueues, QueuesCode, WireQueues, Holds, IsMessage, ValidQueues, Tiles, At16, At32;
    hide QueueConvertsBack, ValidPort, Flatten, Described, QueueRecord, QueueRecords, QueueReplyBytes, ValidateHeader;
    QueuesBound(order, queues, properties);
    QueueReplyHeld(order, xid, port, queues, properties, b);
    QueuesJudged(order, queues, properties, b.data, CONFIG_REPLY_QUEUES, 0, USHRT_MAX);
    QueueReplyPasses(b, |Flatten(queues)|, |queues|, ValidQueues(order, properties));
    QueuesConvertBack(order, queues, properties);
  }

  lemma QueuesBound(order: Order, queues: seq<Bytes>, properties: seq<seq<Bytes>>)
    requires Described(order, queues, properties) && queues != []
    ensures |queues| <= |Flatten(queues)| && QUEUE_PROPERTIES <= |Flatten(queues)|
  {
    forall i | 0 <= i < |queues| ensures QUEUE.Is(order, queues[i]) {
      assert Describes(order, queues[i], properties[i]);
    }
    TilesCount(order, QUEUE, queues, Flatten(queues));
    TilesTail(order, QUEUE, queues, Flatten(queues));
  }

  lemma QueueReplyPasses(b: Buffer, total: u16, queues: nat, valid: bool)
    requires ValidateHeader(b, OFPT_QUEUE_GET_CONFIG_REPLY, CONFIG_REPLY_QUEUES + QUEUE_PROPERTIES, USHRT_MAX) == 0
    requires At16(b.data, 2) == CONFIG_REPLY_QUEUES as int + total
    requires CountQueues(b.data, CONFIG_REPLY_QUEUES, total, 0, USHRT_MAX) == Counted(0, queues)
    requires QueuesCode(b.data, CONFIG_REPLY_QUEUES, queues, USHRT_MAX).Done?
    requires QueuesCode(b.data, CONFIG_REPLY_QUEUES, queues, USHRT_MAX) == Done(0) <==> valid
    ensures QueueReplyCode(b, USHRT_MAX).Done?
    ensures QueueReplyCode(b, USHRT_MAX) == Done(0) <==> ValidPort(At16(b.data, 8)) && valid
  {
    hide ValidateHeader, At16, Sub16, CountQueues, QueuesCode;
  }
}
