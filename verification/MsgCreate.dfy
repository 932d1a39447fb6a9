/**
 Message builders, lib/cc_of_msg_create.c. Structures that are handed in are bytes in host order; a list is the sequence
 of what its elements point at, and a NULL list the empty one.
 */
module MsgCreate {
  import opened Pointers
  import opened Bytes
  import opened OpenFlow
  import opened ByteOrder

  // ---------- fields as they are on the wire ----------

  function Bytes16(v: u16): (x: Bytes)
    ensures |x| == 2 && Net16(x, 0) == v
  {
    [v / 0x100, v % 0x100]
  }

  function Bytes32(v: u32): (x: Bytes)
    ensures |x| == 4
  {
    Bytes16(v / 0x1_0000) + Bytes16(v % 0x1_0000)
  }

  function Bytes64(v: u64): (x: Bytes)
    ensures |x| == 8
  {
    Bytes32(v / 0x1_0000_0000) + Bytes32(v % 0x1_0000_0000)
  }

  lemma Bytes32Reads(v: u32)
    ensures Net32(Bytes32(v), 0) == v
  {
  }

  lemma Bytes64Reads(v: u64)
    ensures Net32(Bytes64(v), 0) as int * 0x1_0000_0000 + Net32(Bytes64(v), 4) == v
  {
    var high: u32, low: u32 := v / 0x1_0000_0000, v % 0x1_0000_0000;
    Bytes32Reads(high);
    Bytes32Reads(low);
    assert Bytes64(v)[..4] == Bytes32(high) && Bytes64(v)[4..] == Bytes32(low);
  }

  function HeaderBytes(xid: u32, kind: byte, length: u16): (x: Bytes)
    ensures |x| == HEADER
  {
    [OFP_VERSION, kind] + Bytes16(length) + Bytes32(xid)
  }

  // ---------- filling a zeroed buffer from the front ----------

  /** b is p followed by zeros. */
  ghost predicate Filled(b: Bytes, p: Bytes) {
    |p| <= |b| && b == p + Zeros(|b| - |p|)
  }

  lemma FilledMore(b: Bytes, p: Bytes, y: Bytes)
    requires Filled(b, p) && |p| + |y| <= |b|
    ensures Filled(Splice(b, |p|, y), p + y) && |Splice(b, |p|, y)| == |b|
  {
  }

  lemma FilledZeros(b: Bytes, p: Bytes, n: nat)
    requires Filled(b, p) && |p| + n <= |b|
    ensures b[|p|..|p| + n] == Zeros(n) && Filled(b, p + Zeros(n))
  {
  }

  method Put(buf: array<byte>, at: nat, y: Bytes, ghost p: Bytes)
    requires |p| == at && at + |y| <= buf.Length && Filled(buf[..], p)
    modifies buf
    ensures Filled(buf[..], p + y)
  {
    Copy(buf, at, y, 0, |y|);
    SpliceIs(old(buf[..]), buf[..], at, y);
    FilledMore(old(buf[..]), p, y);
  }

  /** A zeroed buffer of exactly length bytes, with the four header fields set. */
  method CreateHeader(xid: u32, kind: byte, length: u16) returns (buf: array<byte>)
    requires length >= HEADER
    ensures fresh(buf) && buf.Length == length && Filled(buf[..], HeaderBytes(xid, kind, length))
  {
    buf := new byte[length](_ => 0);
    assert buf[..] == [] + Zeros(length);
    Put(buf, 0, HeaderBytes(xid, kind, length), []);
    assert [] + HeaderBytes(xid, kind, length) == HeaderBytes(xid, kind, length);
  }

  /** The 16-bit sum of the length fields of the elements of a list. */
  method TotalLength(order: Order, kind: Kind, xs: seq<Bytes>) returns (length: u16)
    requires (forall i :: 0 <= i < |xs| ==> kind.Is(order, xs[i])) && |Flatten(xs)| <= USHRT_MAX
    ensures length == |Flatten(xs)|
  {
    length := 0;
    for i := 0 to |xs|
      invariant length == |Flatten(xs[..i])|
    {
      FlattenSplit(xs, i + 1);
      FlattenUpTo(xs, i);
      length := length + Get16(order, xs[i], kind.lengthAt);
    }
    assert xs[..|xs|] == xs;
  }

  // ---------- actions ----------

  ghost predicate KnownActions(order: Order, actions: seq<Bytes>) {
    forall i :: 0 <= i < |actions| ==> Known(order, actions[i])
  }

  /** The actions of a list on the wire. */
  ghost function WireActions(order: Order, actions: seq<Bytes>): (y: Bytes)
    requires KnownActions(order, actions)
    ensures |y| == |Flatten(actions)|
  {
    var ys := ConvertedAll(order, order, actions);
    SameOffsets(actions, ys, |actions|);
    assert actions[..|actions|] == actions && ys[..|actions|] == ys;
    Flatten(ys)
  }

  lemma NextPut(order: Order, actions: seq<Bytes>, p: Bytes, i: nat)
    requires KnownActions(order, actions) && i < |actions|
    ensures var ys := ConvertedAll(order, order, actions);
              && |ys[i]| == |actions[i]| == Get16(order, actions[i], 2)
              && p + Flatten(ys[..i]) + ys[i] == p + Flatten(ys[..i + 1])
              && |Flatten(actions[..i])| + |actions[i]| == |Flatten(actions[..i + 1])| <= |Flatten(actions)|
              && |Flatten(ys[..i])| == |Flatten(actions[..i])|
  {
    var ys := ConvertedAll(order, order, actions);
    SameOffsets(actions, ys, i);
    FlattenUpTo(ys, i);
    FlattenUpTo(actions, i);
    FlattenSplit(actions, i + 1);
    Associative(p, Flatten(ys[..i]), ys[i]);
  }

  /** The loop over the list of actions of cc_create_packet_out and cc_create_flow_mod. */
  method PutActions(order: Order, buf: array<byte>, at: nat, actions: seq<Bytes>, ghost p: Bytes)
    requires KnownActions(order, actions) && |p| == at && at + |Flatten(actions)| <= buf.Length && Filled(buf[..], p)
    modifies buf
    ensures Filled(buf[..], p + WireActions(order, actions))
  {
    ghost var ys := ConvertedAll(order, order, actions);
    var a := at;
    assert p + Flatten(ys[..0]) == p;
    for i := 0 to |actions|
      invariant a == at + |Flatten(actions[..i])| == |p + Flatten(ys[..i])|
      invariant Filled(buf[..], p + Flatten(ys[..i]))
    {
      ghost var done, was := p + Flatten(ys[..i]), buf[..];
      NextPut(order, actions, p, i);
      hide Filled, Splice, Converted;
      HtonAction(order, buf, a, actions[i], actions[i]);
      FilledMore(was, done, ys[i]);
      a := a + Get16(order, actions[i], 2);
    }
    assert ys[..|actions|] == ys;
  }

  // ---------- packet-out ----------

  ghost function PacketOutBytes(order: Order, xid: u32, bufferId: u32, inPort: u16, actions: seq<Bytes>,
                                data: Bytes): (x: Bytes)
    requires KnownActions(order, actions) && PACKET_OUT_ACTIONS + |Flatten(actions)| + |data| <= USHRT_MAX
    ensures |x| == PACKET_OUT_ACTIONS + |Flatten(actions)| + |data|
  {
    HeaderBytes(xid, OFPT_PACKET_OUT, PACKET_OUT_ACTIONS + |Flatten(actions)| + |data|)
    + Bytes32(bufferId) + Bytes16(inPort) + Bytes16(|Flatten(actions)|)
    + WireActions(order, actions) + data
  }

  /** The part of the data that ( uint16_t ) data->length leaves. */
  function SentData(data: Ptr<Bytes>): (sent: Bytes)
    ensures |sent| <= USHRT_MAX
  {
    match data
    case Null => []
    case Ref(x) => x[..|x| % 0x1_0000]
  }

  lemma SentDataIs(data: Ptr<Bytes>)
    ensures data.Null? ==> SentData(data) == []
    ensures data.Ref? && |data.value| <= USHRT_MAX ==> SentData(data) == data.value
  {
  }

  /** fcs and minimum are ETH_FCS_LENGTH and ETH_MINIMUM_LENGTH. */
  method CreatePacketOut(order: Order, xid: u32, bufferId: u32, inPort: u16, actions: seq<Bytes>, data: Ptr<Bytes>,
                         fcs: nat, minimum: nat) returns (buf: array?<byte>)
    requires KnownActions(order, actions) && PACKET_OUT_ACTIONS + |Flatten(actions)| + |SentData(data)| <= USHRT_MAX
    ensures buf == null <==> bufferId == UINT_MAX && (data.Null? || |data.value| + fcs < minimum)
    ensures buf != null ==>
              fresh(buf) && buf[..] == PacketOutBytes(order, xid, bufferId, inPort, actions, SentData(data))
    ensures buf != null && data.Null? ==> buf[..] == PacketOutBytes(order, xid, bufferId, inPort, actions, [])
    ensures buf != null && data.Ref? && |data.value| <= 0xffff ==>
              && PACKET_OUT_ACTIONS + |Flatten(actions)| + |data.value| <= USHRT_MAX
              && buf[..] == PacketOutBytes(order, xid, bufferId, inPort, actions, data.value)
  {
    hide SentData, PacketOutBytes, KnownActions, Flatten;
    SentDataIs(data);
    if bufferId == UINT_MAX {
      if data.Null? {
        return null;
      }
      if |data.value| + fcs < minimum {
        return null;
      }
    }
    buf := BuildPacketOut(order, xid, bufferId, inPort, actions, SentData(data));
  }

  lemma ActionKinds(order: Order, actions: seq<Bytes>)
    requires KnownActions(order, actions)
    ensures forall i :: 0 <= i < |actions| ==> ACTION.Is(order, actions[i])
  {
  }

  /** The message, once the data is known to be long enough. */
  method BuildPacketOut(order: Order, xid: u32, bufferId: u32, inPort: u16, actions: seq<Bytes>, sent: Bytes)
    returns (buf: array<byte>)
    requires KnownActions(order, actions) && PACKET_OUT_ACTIONS + |Flatten(actions)| + |sent| <= USHRT_MAX
    ensures fresh(buf) && buf[..] == PacketOutBytes(order, xid, bufferId, inPort, actions, sent)
  {
    hide Filled, WireActions, HeaderBytes, Bytes32, Bytes16, KnownActions, Kind.Is, Flatten;
    ActionKinds(order, actions);
    var actionsLength := TotalLength(order, ACTION, actions);
    var length: u16 := PACKET_OUT_ACTIONS + actionsLength + |sent|;
    buf := CreateHeader(xid, OFPT_PACKET_OUT, length);
    ghost var p := HeaderBytes(xid, OFPT_PACKET_OUT, length);
    PutPacketOutArgs(buf, bufferId, inPort, actionsLength, p);
    p := p + Bytes32(bufferId) + Bytes16(inPort) + Bytes16(actionsLength);
    PutActions(order, buf, PACKET_OUT_ACTIONS, actions, p);
    p := p + WireActions(order, actions);
    Put(buf, PACKET_OUT_ACTIONS + actionsLength, sent, p);
    FilledUp(buf[..], p + sent);
  }

  method PutPacketOutArgs(buf: array<byte>, bufferId: u32, inPort: u16, actionsLength: u16, ghost p: Bytes)
    requires |p| == HEADER && PACKET_OUT_ACTIONS <= buf.Length && Filled(buf[..], p)
    modifies buf
    ensures Filled(buf[..], p + Bytes32(bufferId) + Bytes16(inPort) + Bytes16(actionsLength))
  {
    hide Filled, Bytes16, Bytes32;
    Put(buf, 8, Bytes32(bufferId), p);
    Put(buf, 12, Bytes16(inPort), p + Bytes32(bufferId));
    Put(buf, 14, Bytes16(actionsLength), p + Bytes32(bufferId) + Bytes16(inPort));
  }

  lemma FilledUp(b: Bytes, p: Bytes)
    requires Filled(b, p) && |p| == |b|
    ensures b == p
  {
  }

  // ---------- flow-mod ----------

  /** The arguments of cc_create_flow_mod beside the match and the actions. */
  datatype FlowModArgs = FlowModArgs(cookie: u64, command: u16, idleTimeout: u16, hardTimeout: u16, priority: u16,
                                     bufferId: u32, outPort: u16, flags: u16)
  {
    function Bytes(): (x: Bytes)
      ensures |x| == 24
    {
      Bytes64(cookie) + Bytes16(command) + Bytes16(idleTimeout) + Bytes16(hardTimeout) + Bytes16(priority)
      + Bytes32(bufferId) + Bytes16(outPort) + Bytes16(flags)
    }
  }

  ghost function FlowModBytes(order: Order, xid: u32, matches: Bytes, args: FlowModArgs,
                              actions: seq<Bytes>): (x: Bytes)
    requires |matches| == MATCH && KnownActions(order, actions) && FLOW_MOD_ACTIONS + |Flatten(actions)| <= USHRT_MAX
    ensures |x| == FLOW_MOD_ACTIONS + |Flatten(actions)|
  {
    HeaderBytes(xid, OFPT_FLOW_MOD, FLOW_MOD_ACTIONS + |Flatten(actions)|)
    + Conv(order, Match, matches) + args.Bytes() + WireActions(order, actions)
  }

  method PutFlowModArgs(buf: array<byte>, args: FlowModArgs, ghost p: Bytes)
    requires |p| == HEADER + MATCH && FLOW_MOD_ACTIONS <= buf.Length && Filled(buf[..], p)
    modifies buf
    ensures Filled(buf[..], p + args.Bytes())
  {
    hide Filled, Bytes16, Bytes32, Bytes64;
    Put(buf, 48, Bytes64(args.cookie), p);
    ghost var q := Bytes64(args.cookie);
    q := PutNext16(buf, 56, args.command, p, q);
    q := PutNext16(buf, 58, args.idleTimeout, p, q);
    q := PutNext16(buf, 60, args.hardTimeout, p, q);
    q := PutNext16(buf, 62, args.priority, p, q);
    Put(buf, 64, Bytes32(args.bufferId), p + q);
    Associative(p, q, Bytes32(args.bufferId));
    q := q + Bytes32(args.bufferId);
    q := PutNext16(buf, 68, args.outPort, p, q);
    q := PutNext16(buf, 70, args.flags, p, q);
  }

  method PutNext16(buf: array<byte>, at: nat, v: u16, ghost p: Bytes, ghost q: Bytes) returns (ghost q': Bytes)
    requires |p + q| == at && at + 2 <= buf.Length && Filled(buf[..], p + q)
    modifies buf
    ensures q' == q + Bytes16(v) && Filled(buf[..], p + q')
  {
    Put(buf, at, Bytes16(v), p + q);
    Associative(p, q, Bytes16(v));
    q' := q + Bytes16(v);
  }

  method CreateFlowMod(order: Order, xid: u32, matches: Bytes, args: FlowModArgs, actions: seq<Bytes>)
    returns (buf: array<byte>)
    requires |matches| == MATCH && KnownActions(order, actions) && FLOW_MOD_ACTIONS + |Flatten(actions)| <= USHRT_MAX
    ensures fresh(buf) && buf[..] == FlowModBytes(order, xid, matches, args, actions)
  {
    var actionsLength := TotalLength(order, ACTION, actions);
    buf := CreateHeader(xid, OFPT_FLOW_MOD, FLOW_MOD_ACTIONS + actionsLength);
    hide Filled, Splice, WireActions, HeaderBytes, FlowModArgs.Bytes;
    ghost var p, was := HeaderBytes(xid, OFPT_FLOW_MOD, FLOW_MOD_ACTIONS + actionsLength), buf[..];
    assert matches[..MATCH] == matches;
    NtohMatch(order, buf, 8, matches);
    FilledMore(was, p, Conv(order, Match, matches));
    p := p + Conv(order, Match, matches);
    PutFlowModArgs(buf, args, p);
    p := p + args.Bytes();
    PutActions(order, buf, FLOW_MOD_ACTIONS, actions, p);
    FilledUp(buf[..], p + WireActions(order, actions));
  }

  // ---------- flow statistics ----------

  /** A list of flow records in host order, with the actions that tile each of them. */
  ghost predicate FlowRecords(order: Order, flows: seq<Bytes>, actions: seq<seq<Bytes>>) {
    |flows| == |actions| && forall i :: 0 <= i < |flows| ==> FlowRecord(order, flows[i], actions[i])
  }

  ghost function WireFlows(order: Order, flows: seq<Bytes>, actions: seq<seq<Bytes>>): (ys: seq<Bytes>)
    requires FlowRecords(order, flows, actions)
    ensures |ys| == |flows|
    ensures forall i :: 0 <= i < |flows| ==>
              ys[i] == ConvertedFlow(order, order, flows[i], actions[i]) && |ys[i]| == |flows[i]|
  {
    seq(|flows|, i requires 0 <= i < |flows| => ConvertedFlow(order, order, flows[i], actions[i]))
  }

  ghost function FlowStatsReplyBytes(order: Order, xid: u32, flags: u16, flows: seq<Bytes>,
                                     actions: seq<seq<Bytes>>): (x: Bytes)
    requires FlowRecords(order, flows, actions) && STATS_REPLY_BODY + |Flatten(flows)| <= USHRT_MAX
  {
    HeaderBytes(xid, OFPT_STATS_REPLY, STATS_REPLY_BODY + |Flatten(flows)|) + Bytes16(OFPST_FLOW) + Bytes16(flags)
    + Flatten(WireFlows(order, flows, actions))
  }

  method CreateStatsReply(xid: u32, kind: u16, length: u16, flags: u16) returns (buf: array<byte>)
    requires length >= STATS_REPLY_BODY
    ensures fresh(buf) && buf.Length == length
    ensures Filled(buf[..], HeaderBytes(xid, OFPT_STATS_REPLY, length) + Bytes16(kind) + Bytes16(flags))
  {
    buf := CreateHeader(xid, OFPT_STATS_REPLY, length);
    hide Filled;
    Put(buf, 8, Bytes16(kind), HeaderBytes(xid, OFPT_STATS_REPLY, length));
    Put(buf, 10, Bytes16(flags), HeaderBytes(xid, OFPT_STATS_REPLY, length) + Bytes16(kind));
  }

  /** Appending the i-th of the elements ys, which are as long as the elements xs. */
  lemma NextElement(xs: seq<Bytes>, ys: seq<Bytes>, p: Bytes, i: nat)
    requires |xs| == |ys| && i < |xs| && forall k :: 0 <= k < |xs| ==> |ys[k]| == |xs[k]|
    ensures p + Flatten(ys[..i]) + ys[i] == p + Flatten(ys[..i + 1])
    ensures |Flatten(ys[..i])| == |Flatten(xs[..i])|
    ensures |Flatten(xs[..i])| + |xs[i]| == |Flatten(xs[..i + 1])| <= |Flatten(xs)|
  {
    SameOffsets(xs, ys, i);
    FlattenUpTo(ys, i);
    FlattenUpTo(xs, i);
    FlattenSplit(xs, i + 1);
    Associative(p, Flatten(ys[..i]), ys[i]);
  }

  method PutFlow(order: Order, buf: array<byte>, at: nat, x: Bytes, ghost actions: seq<Bytes>, ghost p: Bytes)
    requires FlowRecord(order, x, actions) && |p| == at && at + |x| <= buf.Length && Filled(buf[..], p)
    modifies buf
    ensures Filled(buf[..], p + ConvertedFlow(order, order, x, actions))
  {
    hide Filled, Splice, FlowRecord, ConvertedFlow;
    ghost var was := buf[..];
    HtonFlowStatsCopy(order, buf, at, x, actions);
    FilledMore(was, p, ConvertedFlow(order, order, x, actions));
  }

  /** The loop over the list of flow records. */
  method PutFlows(order: Order, buf: array<byte>, at: nat, flows: seq<Bytes>, ghost actions: seq<seq<Bytes>>,
                  ghost p: Bytes)
    requires FlowRecords(order, flows, actions) && |p| == at && at + |Flatten(flows)| <= buf.Length
            && Filled(buf[..], p)
    modifies buf
    ensures Filled(buf[..], p + Flatten(WireFlows(order, flows, actions)))
  {
    hide Filled, FlowRecord, ConvertedFlow;
    var flowStats := at;
    ghost var ys := WireFlows(order, flows, actions);
    assert p + Flatten(ys[..0]) == p;
    for i := 0 to |flows|
      invariant flowStats == at + |Flatten(flows[..i])| == |p + Flatten(ys[..i])|
      invariant Filled(buf[..], p + Flatten(ys[..i]))
    {
      NextElement(flows, ys, p, i);
      PutFlow(order, buf, flowStats, flows[i], actions[i], p + Flatten(ys[..i]));
      flowStats := flowStats + FlowLength(order, flows[i], actions[i]);
    }
    assert ys[..|flows|] == ys;
  }

  method CreateFlowStatsReply(order: Order, xid: u32, flags: u16, flows: seq<Bytes>, ghost actions: seq<seq<Bytes>>)
    returns (buf: array<byte>)
    requires FlowRecords(order, flows, actions) && STATS_REPLY_BODY + |Flatten(flows)| <= USHRT_MAX
    ensures fresh(buf) && buf[..] == FlowStatsReplyBytes(order, xid, flags, flows, actions)
  {
    assert forall i :: 0 <= i < |flows| ==> FLOW.Is(order, flows[i]);
    hide Filled, FlowRecords, WireFlows, HeaderBytes, Bytes16, Kind.Is;
    var length := TotalLength(order, FLOW, flows);
    buf := CreateStatsReply(xid, OFPST_FLOW, STATS_REPLY_BODY + length, flags);
    ghost var p := HeaderBytes(xid, OFPT_STATS_REPLY, STATS_REPLY_BODY + length) + Bytes16(OFPST_FLOW) + Bytes16(flags);
    SameTotal(flows, WireFlows(order, flows, actions));
    PutFlows(order, buf, STATS_REPLY_BODY, flows, actions, p);
    FilledUp(buf[..], p + Flatten(WireFlows(order, flows, actions)));
  }

  lemma SameTotal(xs: seq<Bytes>, ys: seq<Bytes>)
    requires |xs| == |ys| && forall k :: 0 <= k < |xs| ==> |ys[k]| == |xs[k]|
    ensures |Flatten(xs)| == |Flatten(ys)|
  {
    SameOffsets(xs, ys, |xs|);
    assert xs[..|xs|] == xs && ys[..|ys|] == ys;
  }

  /** fs->length */
  function FlowLength(order: Order, x: Bytes, ghost actions: seq<Bytes>): (length: u16)
    requires FlowRecord(order, x, actions)
    ensures length == |x|
  {
    Get16(order, x, 0)
  }

  // ---------- queue configuration ----------

  ghost predicate QueueRecords(order: Order, queues: seq<Bytes>, properties: seq<seq<Bytes>>) {
    |queues| == |properties| && forall i :: 0 <= i < |queues| ==> QueueRecord(order, queues[i], properties[i])
  }

  /** The queues on the wire; the padding of their properties is what the zeroed buffer holds. */
  ghost function WireQueues(order: Order, queues: seq<Bytes>, properties: seq<seq<Bytes>>): (ys: seq<Bytes>)
    requires QueueRecords(order, queues, properties)
    ensures |ys| == |queues|
    ensures forall i :: 0 <= i < |queues| ==>
              && ys[i] == ConvertedQueue(order, order, queues[i], properties[i], Zeros(|queues[i]|))
              && |ys[i]| == |queues[i]|
  {
    seq(|queues|, i requires 0 <= i < |queues| =>
      ConvertedQueue(order, order, queues[i], properties[i], Zeros(|queues[i]|)))
  }

  ghost function QueueReplyBytes(order: Order, xid: u32, port: u16, queues: seq<Bytes>,
                                 properties: seq<seq<Bytes>>): (x: Bytes)
    requires QueueRecords(order, queues, properties) && CONFIG_REPLY_QUEUES + |Flatten(queues)| <= USHRT_MAX
  {
    HeaderBytes(xid, OFPT_QUEUE_GET_CONFIG_REPLY, CONFIG_REPLY_QUEUES + |Flatten(queues)|) + Bytes16(port) + Zeros(6)
    + Flatten(WireQueues(order, queues, properties))
  }

  /** pq->len */
  function QueueLength(order: Order, x: Bytes, ghost properties: seq<Bytes>): (length: u16)
    requires QueueRecord(order, x, properties)
    ensures length == |x|
  {
    Get16(order, x, 4)
  }

  /** A queue of the list lies in memory of its own. */
  method QueueOf(x: Bytes) returns (pq: array<byte>)
    ensures fresh(pq) && pq[..] == x
  {
    pq := new byte[|x|];
    Copy(pq, 0, x, 0, |x|);
  }

  method PutQueue(order: Order, buf: array<byte>, at: nat, x: Bytes, ghost properties: seq<Bytes>, ghost p: Bytes)
    requires QueueRecord(order, x, properties) && |p| == at && at + |x| <= buf.Length && Filled(buf[..], p)
    modifies buf
    ensures Filled(buf[..], p + ConvertedQueue(order, order, x, properties, Zeros(|x|)))
  {
    hide Filled, Splice, QueueRecord, ConvertedQueue, LengthTaken;
    ghost var was := buf[..];
    FilledZeros(was, p, |x|);
    assert buf[at..at + |x|] == was[at..at + |x|];
    var pq := QueueOf(x);
    QueueTaken(order, buf, at, pq, x, properties);
    HtonPacketQueue(order, buf, at, pq, 0, x, properties);
    FilledMore(was, p, ConvertedQueue(order, order, x, properties, Zeros(|x|)));
  }

  lemma QueueTaken(order: Order, buf: array<byte>, at: nat, pq: array<byte>, x: Bytes, properties: seq<Bytes>)
    requires QueueRecord(order, x, properties) && pq != buf && pq[..] == x && at + |x| <= buf.Length
    ensures |pq[..]| == |x| && pq[..][0..0 + |x|] == x && |x| >= QUEUE_PROPERTIES
    ensures LengthTaken(order, buf, at, pq, 0, x) == |x|
  {
    LengthTakenRight(order, buf, at, pq, 0, x);
  }

  /** The loop over the list of queues. */
  method PutQueues(order: Order, buf: array<byte>, at: nat, queues: seq<Bytes>, ghost properties: seq<seq<Bytes>>,
                   ghost p: Bytes)
    requires QueueRecords(order, queues, properties) && |p| == at && at + |Flatten(queues)| <= buf.Length
            && Filled(buf[..], p)
    modifies buf
    ensures Filled(buf[..], p + Flatten(WireQueues(order, queues, properties)))
  {
    hide Filled, QueueRecord, ConvertedQueue;
    var packetQueue := at;
    ghost var ys := WireQueues(order, queues, properties);
    assert p + Flatten(ys[..0]) == p;
    for i := 0 to |queues|
      invariant packetQueue == at + |Flatten(queues[..i])| == |p + Flatten(ys[..i])|
      invariant Filled(buf[..], p + Flatten(ys[..i]))
    {
      NextElement(queues, ys, p, i);
      PutQueue(order, buf, packetQueue, queues[i], properties[i], p + Flatten(ys[..i]));
      packetQueue := packetQueue + QueueLength(order, queues[i], properties[i]);
    }
    assert ys[..|queues|] == ys;
  }

  method CreateQueueGetConfigReply(order: Order, xid: u32, port: u16, queues: seq<Bytes>,
                                   ghost properties: seq<seq<Bytes>>)
    returns (buf: array<byte>)
    requires QueueRecords(order, queues, properties) && CONFIG_REPLY_QUEUES + |Flatten(queues)| <= USHRT_MAX
    ensures fresh(buf) && buf[..] == QueueReplyBytes(order, xid, port, queues, properties)
  {
    assert forall i :: 0 <= i < |queues| ==> QUEUE.Is(order, queues[i]);
    hide Filled, QueueRecords, WireQueues, HeaderBytes, Bytes16, Kind.Is;
    var queuesLength := TotalLength(order, QUEUE, queues);
    buf := CreateHeader(xid, OFPT_QUEUE_GET_CONFIG_REPLY, CONFIG_REPLY_QUEUES + queuesLength);
    ghost var p := HeaderBytes(xid, OFPT_QUEUE_GET_CONFIG_REPLY, CONFIG_REPLY_QUEUES + queuesLength);
    Put(buf, 8, Bytes16(port), p);
    p := p + Bytes16(port);
    Put(buf, 10, Zeros(6), p);
    p := p + Zeros(6);
    SameTotal(queues, WireQueues(order, queues, properties));
    PutQueues(order, buf, CONFIG_REPLY_QUEUES, queues, properties, p);
    FilledUp(buf[..], p + Flatten(WireQueues(order, queues, properties)));
  }
}
