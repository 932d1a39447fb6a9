/** What the messages that the validators accept hold, whoever wrote them. */
module Acceptance {
  import opened Bytes
  import opened OpenFlow
  import opened ByteOrder
  import opened MsgCheck
  import opened Walks
  import opened Endings
  import opened MessageEndings

  // ---------- elements that pass ----------

  /** Elements that pass tile length bytes from at on. */
  ghost predicate Lie(kind: Kind, passes: (Memory, nat) -> bool, m: Memory, at: nat, length: int, xs: seq<Bytes>) {
    && Tiles(Big, kind, xs, Flatten(xs)) && |Flatten(xs)| == length && Holds(m, at, Flatten(xs))
    && forall i :: 0 <= i < |xs| ==> passes(m, at + |Flatten(xs[..i])|)
  }

  lemma TailStart(x: Bytes, tail: seq<Bytes>, i: nat)
    requires i <= |tail|
    ensures |Flatten(([x] + tail)[..i + 1])| == |x| + |Flatten(tail[..i])|
    ensures ([x] + tail)[0] == x && (i < |tail| ==> ([x] + tail)[i + 1] == tail[i])
    ensures Flatten([x] + tail) == x + Flatten(tail) && |Flatten(([x] + tail)[..0])| == 0
  {
    assert ([x] + tail)[..i + 1] == [x] + tail[..i] && ([x] + tail[..i])[1..] == tail[..i];
    assert ([x] + tail)[1..] == tail;
  }

  lemma LieSplit(kind: Kind, passes: (Memory, nat) -> bool, m: Memory, at: nat, length: int, x: Bytes, tail: seq<Bytes>)
    requires Lie(kind, passes, m, at, length, [x] + tail)
    ensures kind.Is(Big, x) && Holds(m, at, x) && passes(m, at)
    ensures Lie(kind, passes, m, at + |x|, length - |x|, tail)
  {
    hide Holds, Flatten, Kind.Is;
    TailStart(x, tail, 0);
    HoldsJoined(m, at, x, Flatten(tail));
    forall i | 0 <= i < |tail|
      ensures kind.Is(Big, tail[i]) && passes(m, at + |x| + |Flatten(tail[..i])|)
    {
      TailStart(x, tail, i);
      assert passes(m, at + |Flatten(([x] + tail)[..i + 1])|);
    }
    assert passes(m, at + |Flatten(([x] + tail)[..0])|);
  }

  lemma LieJoin(kind: Kind, passes: (Memory, nat) -> bool, m: Memory, at: nat, length: int, x: Bytes, tail: seq<Bytes>)
    requires kind.Is(Big, x) && Holds(m, at, x) && passes(m, at)
    requires Lie(kind, passes, m, at + |x|, length - |x|, tail)
    ensures Lie(kind, passes, m, at, length, [x] + tail)
  {
    hide Holds, Flatten, Kind.Is;
    var xs := [x] + tail;
    TailStart(x, tail, 0);
    HoldsJoined(m, at, x, Flatten(tail));
    forall i | 0 <= i < |xs| ensures kind.Is(Big, xs[i]) && passes(m, at + |Flatten(xs[..i])|) {
      if i > 0 {
        TailStart(x, tail, i - 1);
        assert passes(m, at + |x| + |Flatten(tail[..i - 1])|);
      }
    }
  }

  lemma NoneLie(kind: Kind, passes: (Memory, nat) -> bool, m: Memory, at: nat, length: int)
    ensures Lie(kind, passes, m, at, length, []) <==> length == 0
  {
  }

  lemma LieCount(kind: Kind, passes: (Memory, nat) -> bool, m: Memory, at: nat, length: int, xs: seq<Bytes>)
    requires Lie(kind, passes, m, at, length, xs)
    ensures |xs| <= length
  {
    hide Holds;
    ElementsCount(xs);
  }

  lemma {:induction false} ElementsCount(xs: seq<Bytes>)
    requires forall i :: 0 <= i < |xs| ==> xs[i] != []
    ensures |xs| <= |Flatten(xs)|
  {
    if xs != [] {
      ElementsCount(xs[1..]);
    }
  }

  // ---------- packet-out and flow-mod ----------

  /** What validate_actions does on a region of a message: it accepts, and its offset never wraps. */
  ghost predicate ActionsPass(m: Memory, head: nat, length: u16) {
    && Walk(ValidateAction, m, head, length, 0, USHRT_MAX) == Done(0)
    && NoWrap(ValidateAction, m, head, Offsets(ValidateAction, m, head, length, 0, USHRT_MAX))
  }

  ghost predicate ActionsCover(m: Memory, head: nat, length: int, actions: seq<Bytes>) {
    Covers(ActionCode, ACTION, m, head, length, USHRT_MAX, actions)
  }

  lemma ActionsMean(m: Memory, head: nat, length: u16)
    ensures ActionsPass(m, head, length) <==> exists actions :: ActionsCover(m, head, length, actions)
  {
    hide At16, Walk, Covers, AcceptsStraight, NoWrap, Offsets;
    AcceptedActions(m, head, length);
    AcceptsStraightInTime(ValidateAction, m, head, length);
    if xs :| Covers(ActionCode, ACTION, m, head, length, USHRT_MAX, xs) {
      assert ActionsCover(m, head, length, xs);
    }
  }

  /** The covering is unique, and it tiles the region exactly if its last action does not reach beyond that. */
  lemma ActionsTile(m: Memory, head: nat, length: nat, actions: seq<Bytes>)
    requires ActionsCover(m, head, length, actions)
    ensures (exists ys :: Tiles(Big, ACTION, ys, Stretch(m, head, length))) <==> |Flatten(actions)| == length
    ensures forall ys :: ActionsCover(m, head, length, ys) ==> ys == actions
  {
    hide Covers, Tiles;
    AcceptedTiles(ActionCode, ACTION, m, head, length, USHRT_MAX, actions);
    forall ys | ActionsCover(m, head, length, ys) ensures ys == actions {
      CoverUnique(ActionCode, ACTION, m, head, length, USHRT_MAX, ys, actions);
    }
  }

  /** What validate_flow_mod demands of the fields before the actions. */
  ghost predicate FlowModFieldsPass(m: Memory) {
    var f, command, outPort := NtohMatchFields(m, 8), At16(m, 56), At16(m, 68);
    && f.Valid() && command <= OFPFC_DELETE_STRICT && At16(m, 70) <= 7
    && (f.wildcards == 0 ==> At16(m, 62) == USHRT_MAX)
    && (command == OFPFC_DELETE || command == OFPFC_DELETE_STRICT ==> outPort == OFPP_NONE || ValidPort(outPort))
  }

  lemma FlowModFieldsMean(m: Memory)
    ensures ValidateFlowModFields(m) <= 0 && (ValidateFlowModFields(m) == 0 <==> FlowModFieldsPass(m))
  {
    hide At16, ValidateMatch, NtohMatchFields;
    MatchAccepted(NtohMatchFields(m, 8));
  }

  ghost predicate FlowModAccepted(b: Buffer) {
    && ValidateFlowMod(b, USHRT_MAX) == Done(0)
    && NoWrap(ValidateAction, b.data, FLOW_MOD_ACTIONS,
              Offsets(ValidateAction, b.data, FLOW_MOD_ACTIONS, Sub16(At16(b.data, 2), FLOW_MOD_ACTIONS), 0, USHRT_MAX))
  }

  ghost predicate FlowModCovered(b: Buffer, actions: seq<Bytes>) {
    ActionsCover(b.data, FLOW_MOD_ACTIONS, b.length - FLOW_MOD_ACTIONS, actions)
  }

  lemma FlowModCode(b: Buffer)
    requires ValidateHeader(b, OFPT_FLOW_MOD, FLOW_MOD_ACTIONS, USHRT_MAX) == 0
    ensures FLOW_MOD_ACTIONS <= b.length <= USHRT_MAX
    ensures FlowModAccepted(b)
       <==> FlowModFieldsPass(b.data) && ActionsPass(b.data, FLOW_MOD_ACTIONS, b.length - FLOW_MOD_ACTIONS)
  {
    hide At16, ValidateHeader, ValidateFlowModFields, FlowModFieldsPass, NoWrap, Walk, Offsets, Sub16;
    HeaderPasses(b, OFPT_FLOW_MOD, FLOW_MOD_ACTIONS, USHRT_MAX);
    FlowModFieldsMean(b.data);
    NoWalk(b.data, FLOW_MOD_ACTIONS);
  }

  lemma NoWalk(m: Memory, head: nat)
    ensures Walk(ValidateAction, m, head, 0, 0, USHRT_MAX) == Done(0)
  {
  }

  lemma FlowModHeader(b: Buffer)
    requires FlowModAccepted(b)
    ensures ValidateHeader(b, OFPT_FLOW_MOD, FLOW_MOD_ACTIONS, USHRT_MAX) == 0
  {
    hide At16, ValidateHeader, ValidateFlowModFields, Walk, NoWrap, Offsets;
    HeaderPasses(b, OFPT_FLOW_MOD, FLOW_MOD_ACTIONS, USHRT_MAX);
  }

  ghost predicate FlowModIsCovered(b: Buffer) {
    exists actions :: FlowModCovered(b, actions)
  }

  lemma FlowModActions(b: Buffer)
    requires FLOW_MOD_ACTIONS <= b.length <= USHRT_MAX
    ensures ActionsPass(b.data, FLOW_MOD_ACTIONS, b.length - FLOW_MOD_ACTIONS) <==> FlowModIsCovered(b)
  {
    hide ActionsPass, ActionsCover;
    var length := b.length - FLOW_MOD_ACTIONS;
    ActionsMean(b.data, FLOW_MOD_ACTIONS, length);
    if ActionsPass(b.data, FLOW_MOD_ACTIONS, length) {
      var xs :| ActionsCover(b.data, FLOW_MOD_ACTIONS, length, xs);
      assert FlowModCovered(b, xs);
    }
  }

  /**
   A flow-mod is accepted, without the offset of its actions wrapping, exactly if its header and its fields are valid
   and valid actions cover what follows them.
   */
  lemma FlowModMeans(b: Buffer)
    ensures FlowModAccepted(b)
       <==> && ValidateHeader(b, OFPT_FLOW_MOD, FLOW_MOD_ACTIONS, USHRT_MAX) == 0 && FlowModFieldsPass(b.data)
            && FlowModIsCovered(b)
  {
    hide ValidateHeader, FlowModAccepted, FlowModFieldsPass, FlowModIsCovered, ActionsPass;
    if FlowModAccepted(b) {
      FlowModHeader(b);
    }
    if ValidateHeader(b, OFPT_FLOW_MOD, FLOW_MOD_ACTIONS, USHRT_MAX) == 0 {
      FlowModCode(b);
      FlowModActions(b);
    }
  }

  ghost predicate PacketOutAccepted(b: Buffer) {
    && ValidatePacketOut(b, USHRT_MAX) == Done(0)
    && NoWrap(ValidateAction, b.data, PACKET_OUT_ACTIONS,
              Offsets(ValidateAction, b.data, PACKET_OUT_ACTIONS, At16(b.data, 14), 0, USHRT_MAX))
  }

  ghost predicate PacketOutCovered(b: Buffer, actions: seq<Bytes>) {
    ActionsCover(b.data, PACKET_OUT_ACTIONS, At16(b.data, 14), actions)
  }

  /**
   A packet-out is accepted, without the offset of its actions wrapping, exactly if its header and its port are valid
   and valid actions cover as many bytes as it says its actions have; that these lie within the message is not asked.
   */
  lemma PacketOutMeans(b: Buffer)
    ensures PacketOutAccepted(b)
       <==> && ValidateHeader(b, OFPT_PACKET_OUT, PACKET_OUT_ACTIONS, USHRT_MAX) == 0 && ValidPort(At16(b.data, 12))
            && exists actions :: PacketOutCovered(b, actions)
  {
    HeaderPasses(b, OFPT_PACKET_OUT, PACKET_OUT_ACTIONS, USHRT_MAX);
    hide At16, ValidateHeader, NoWrap, Walk, Offsets, ActionsCover;
    var length := At16(b.data, 14);
    NoWalk(b.data, PACKET_OUT_ACTIONS);
    ActionsMean(b.data, PACKET_OUT_ACTIONS, length);
    if xs :| ActionsCover(b.data, PACKET_OUT_ACTIONS, length, xs) {
      assert PacketOutCovered(b, xs);
    }
  }

  /** A packet-out of 16 bytes that says it has 8 bytes of actions; they are those that follow it in memory. */
  function OutsidePacketOut(): Buffer {
    Buffer(16, (at: nat) =>
      if at == 0 then OFP_VERSION else if at == 1 then OFPT_PACKET_OUT else if at == 3 then 16 else if at == 13 then 1
      else if at == 15 then 8 else if at == 17 then OFPAT_STRIP_VLAN else if at == 19 then 8 else 0)
  }

  lemma OutsideAt16(at: nat)
    requires at == 2 || at == 12 || at == 14 || at == 16 || at == 18 || at == 20
    ensures At16(OutsidePacketOut().data, at)
         == if at == 2 then 16 else if at == 12 then 1 else if at == 16 then OFPAT_STRIP_VLAN
            else if at == 20 then 0 else 8
    ensures at == 20 ==> OutsidePacketOut().data(at) == 0
  {
  }

  lemma OutsideHeader()
    ensures ValidateHeader(OutsidePacketOut(), OFPT_PACKET_OUT, PACKET_OUT_ACTIONS, USHRT_MAX) == 0
    ensures OutsidePacketOut().length == PACKET_OUT_ACTIONS
  {
    hide At16;
    OutsideAt16(2);
  }

  lemma OutsideAction()
    ensures ValidateAction(OutsidePacketOut().data, 16) == 0
  {
    hide At16, OutsidePacketOut;
    OutsideAt16(16);
    OutsideAt16(18);
    OutsideAt16(20);
    ActionAccepted(ActionFields(OFPAT_STRIP_VLAN, 8, 0, 0));
    hide ValidateActionFields;
  }

  lemma OutsideAccepted()
    ensures var b := OutsidePacketOut();
            b.length == PACKET_OUT_ACTIONS && At16(b.data, 14) == 8 && ValidatePacketOut(b, 1) == Done(0)
  {
    hide At16, OutsidePacketOut, ValidateHeader, ValidateAction;
    OutsideHeader();
    OutsideAt16(12);
    OutsideAt16(14);
    OutsideAt16(18);
    OutsideAction();
  }

  // ---------- queues ----------

  /** The counting loop never steps over a queue that is longer than what is left. */
  ghost predicate CountsStraight(m: Memory, at: nat, queuesLength: u16, rounds: nat)
    decreases rounds
  {
    var len := At16(m, at + 4);
    queuesLength <= QUEUE_PROPERTIES || rounds == 0
    || (len <= queuesLength && CountsStraight(m, at + len, queuesLength - len, rounds - 1))
  }

  /** Valid properties cover what follows the fixed part of the queue at at. */
  ghost predicate QueueCovered(m: Memory, at: nat, properties: seq<Bytes>) {
    var length := At16(m, at + 4) - QUEUE_PROPERTIES;
    Covers(PropertyCodeOf, PROPERTY, m, at + QUEUE_PROPERTIES, length, USHRT_MAX, properties)
  }

  ghost predicate QueuePasses(m: Memory, at: nat) {
    At16(m, at + 4) >= QUEUE_PROPERTIES + QUEUE_PROP_HEADER && exists properties :: QueueCovered(m, at, properties)
  }

  lemma PropertiesAreShort(m: Memory, head: nat, length: u16)
    ensures Short(ValidateQueueProperty, m, head, length)
  {
    hide At16;
  }

  /** A walk over properties that accepts has never wrapped. */
  lemma PropertiesStraight(m: Memory, head: nat, length: u16)
    requires length <= 65528
    ensures Walk(ValidateQueueProperty, m, head, length, 0, USHRT_MAX) == Done(0)
       <==> AcceptsStraight(ValidateQueueProperty, m, head, length)
  {
    hide At16, Walk, Offsets, NoWrap, AcceptsStraight, Short;
    PropertiesAreShort(m, head, length);
    AcceptsStraightInTime(ValidateQueueProperty, m, head, length);
    if Walk(ValidateQueueProperty, m, head, length, 0, USHRT_MAX) == Done(0) {
      DoneIsStraight(ValidateQueueProperty, m, head, length, USHRT_MAX);
    }
  }

  lemma PacketQueueMeans(m: Memory, at: nat)
    ensures ValidatePacketQueue(m, at, USHRT_MAX).Done? ==> ValidatePacketQueue(m, at, USHRT_MAX).ret <= 0
    ensures ValidatePacketQueue(m, at, USHRT_MAX) == Done(0) <==> QueuePasses(m, at)
  {
    hide At16, Walk, Covers, AcceptsStraight;
    if At16(m, at + 4) >= QUEUE_PROPERTIES + QUEUE_PROP_HEADER {
      var head, length := at + QUEUE_PROPERTIES, At16(m, at + 4) - QUEUE_PROPERTIES;
      WalkCodes(ValidateQueueProperty, m, head, length, 0, USHRT_MAX);
      PropertiesStraight(m, head, length);
      AcceptedActions(m, head, length);
      if xs :| Covers(PropertyCodeOf, PROPERTY, m, head, length, USHRT_MAX, xs) {
        assert QueueCovered(m, at, xs);
      }
    }
  }

  /** One round of each of the two loops. */
  lemma AcceptedRound(m: Memory, at: nat, queuesLength: u16, counted: nat, rounds: nat, n: nat)
    requires queuesLength <= 65520 && CountsStraight(m, at, queuesLength, rounds)
    requires CountQueues(m, at, queuesLength, counted, rounds) == Counted(0, counted + n)
    requires QueuesCode(m, at, n, USHRT_MAX) == Done(0)
    ensures queuesLength <= QUEUE_PROPERTIES ==> queuesLength == 0 && n == 0
    ensures queuesLength > QUEUE_PROPERTIES ==>
              var len := At16(m, at + 4);
              && n > 0 && rounds > 0 && len <= queuesLength && QueuePasses(m, at)
              && CountsStraight(m, at + len, queuesLength - len, rounds - 1)
              && CountQueues(m, at + len, queuesLength - len, counted + 1, rounds - 1) == Counted(0, counted + n)
              && QueuesCode(m, at + len, n - 1, USHRT_MAX) == Done(0)
  {
    hide At16, ValidatePacketQueue, QueuePasses, LeftAfter;
    if queuesLength > QUEUE_PROPERTIES {
      var len := At16(m, at + 4);
      CountEnds(m, at + len, queuesLength - len, counted + 1, rounds - 1);
      PacketQueueMeans(m, at);
    }
  }

  lemma {:induction false} AcceptedQueues(m: Memory, at: nat, queuesLength: u16, counted: nat, rounds: nat, n: nat)
    returns (queues: seq<Bytes>)
    requires queuesLength <= 65520 && CountsStraight(m, at, queuesLength, rounds)
    requires CountQueues(m, at, queuesLength, counted, rounds) == Counted(0, counted + n)
    requires QueuesCode(m, at, n, USHRT_MAX) == Done(0)
    ensures Lie(QUEUE, QueuePasses, m, at, queuesLength, queues) && |queues| == n
    decreases rounds
  {
    hide At16, Holds, Lie, QueuePasses, CountsStraight, CountQueues, QueuesCode;
    AcceptedRound(m, at, queuesLength, counted, rounds, n);
    if queuesLength <= QUEUE_PROPERTIES {
      queues := [];
      NoneLie(QUEUE, QueuePasses, m, at, queuesLength);
    } else {
      PassingQueue(m, at);
      var x := Stretch(m, at, At16(m, at + 4));
      Held16(m, at, x, 4);
      var tail := AcceptedQueues(m, at + |x|, queuesLength - |x|, counted + 1, rounds - 1, n - 1);
      queues := [x] + tail;
      LieJoin(QUEUE, QueuePasses, m, at, queuesLength, x, tail);
    }
  }

  lemma PassingQueue(m: Memory, at: nat)
    requires QueuePasses(m, at)
    ensures At16(m, at + 4) >= QUEUE_PROPERTIES + QUEUE_PROP_HEADER
  {
  }

  lemma {:induction false} LyingQueues(m: Memory, at: nat, queuesLength: u16, counted: nat, rounds: nat,
                                       queues: seq<Bytes>)
    requires queuesLength <= 65520 && Lie(QUEUE, QueuePasses, m, at, queuesLength, queues) && rounds >= |queues|
    ensures CountsStraight(m, at, queuesLength, rounds)
    ensures CountQueues(m, at, queuesLength, counted, rounds) == Counted(0, counted + |queues|)
    ensures QueuesCode(m, at, |queues|, USHRT_MAX) == Done(0)
    decreases |queues|
  {
    hide At16, ValidatePacketQueue, Holds, QueuePasses, Lie;
    if queues == [] {
      NoneLie(QUEUE, QueuePasses, m, at, queuesLength);
    } else {
      var x := queues[0];
      assert queues == [x] + queues[1..];
      LieSplit(QUEUE, QueuePasses, m, at, queuesLength, x, queues[1..]);
      LieCount(QUEUE, QueuePasses, m, at + |x|, queuesLength - |x|, queues[1..]);
      Held16(m, at, x, 4);
      PassingQueue(m, at);
      PacketQueueMeans(m, at);
      LyingQueues(m, at + |x|, queuesLength - |x|, counted + 1, rounds - 1, queues[1..]);
    }
  }

  ghost predicate QueuesTile(b: Buffer, queues: seq<Bytes>) {
    Lie(QUEUE, QueuePasses, b.data, CONFIG_REPLY_QUEUES, b.length - CONFIG_REPLY_QUEUES, queues)
  }

  ghost predicate ReplyHeaderPasses(b: Buffer) {
    ValidateHeader(b, OFPT_QUEUE_GET_CONFIG_REPLY, CONFIG_REPLY_QUEUES + QUEUE_PROPERTIES, USHRT_MAX) == 0
  }

  /** The reply is accepted, and its counting loop does not step over its end. */
  ghost predicate ReplyAcceptedStraight(b: Buffer) {
    && QueueReplyCode(b, USHRT_MAX) == Done(0)
    && CountsStraight(b.data, CONFIG_REPLY_QUEUES, Sub16(At16(b.data, 2), CONFIG_REPLY_QUEUES), USHRT_MAX)
  }

  lemma ReplyCode(b: Buffer)
    requires ReplyHeaderPasses(b)
    ensures CONFIG_REPLY_QUEUES + QUEUE_PROPERTIES <= b.length == At16(b.data, 2)
    ensures QueueReplyCode(b, USHRT_MAX)
         == if ValidatePhyPortNo(At16(b.data, 8)) < 0 then Done(ValidatePhyPortNo(At16(b.data, 8)))
            else match CountQueues(b.data, CONFIG_REPLY_QUEUES, b.length - CONFIG_REPLY_QUEUES, 0, USHRT_MAX)
                 case Counting => Running
                 case Counted(left, queues) =>
                   if left != 0 then Done(ERROR_INVALID_LENGTH)
                   else QueuesCode(b.data, CONFIG_REPLY_QUEUES, queues, USHRT_MAX)
  {
    hide At16, ValidateHeader, CountQueues, QueuesCode, ValidatePhyPortNo, Sub16;
    HeaderPasses(b, OFPT_QUEUE_GET_CONFIG_REPLY, CONFIG_REPLY_QUEUES + QUEUE_PROPERTIES, USHRT_MAX);
  }

  lemma ReplyHeader(b: Buffer)
    requires ReplyAcceptedStraight(b)
    ensures ReplyHeaderPasses(b)
  {
    hide At16, ValidateHeader, CountQueues, QueuesCode, CountsStraight, ValidatePhyPortNo;
    HeaderPasses(b, OFPT_QUEUE_GET_CONFIG_REPLY, CONFIG_REPLY_QUEUES + QUEUE_PROPERTIES, USHRT_MAX);
  }

  lemma AcceptedReplyTiles(b: Buffer)
    requires ReplyAcceptedStraight(b)
    ensures ReplyHeaderPasses(b) && ValidPort(At16(b.data, 8)) && exists queues :: QueuesTile(b, queues)
  {
    hide At16, ReplyHeaderPasses, QueueReplyCode, Lie, CountQueues, CountsStraight, QueuesCode;
    ReplyHeader(b);
    ReplyCode(b);
    var length := b.length - CONFIG_REPLY_QUEUES;
    var count := CountQueues(b.data, CONFIG_REPLY_QUEUES, length, 0, USHRT_MAX);
    var queues := AcceptedQueues(b.data, CONFIG_REPLY_QUEUES, length, 0, USHRT_MAX, count.queues);
    assert QueuesTile(b, queues);
  }

  lemma TiledReplyAccepted(b: Buffer, queues: seq<Bytes>)
    requires ReplyHeaderPasses(b) && ValidPort(At16(b.data, 8)) && QueuesTile(b, queues)
    ensures ReplyAcceptedStraight(b)
  {
    hide At16, ReplyHeaderPasses, QueueReplyCode, Lie, CountQueues, CountsStraight, QueuesCode;
    ReplyCode(b);
    var length := b.length - CONFIG_REPLY_QUEUES;
    LieCount(QUEUE, QueuePasses, b.data, CONFIG_REPLY_QUEUES, length, queues);
    LyingQueues(b.data, CONFIG_REPLY_QUEUES, length, 0, USHRT_MAX, queues);
  }

  /**
   A reply is accepted, without its counting loop stepping over its end, exactly if its header and port are valid and it
   is tiled by queues each of which valid properties cover.
   */
  lemma QueueReplyMeans(b: Buffer)
    ensures ReplyAcceptedStraight(b)
       <==> ReplyHeaderPasses(b) && ValidPort(At16(b.data, 8)) && exists queues :: QueuesTile(b, queues)
  {
    hide ReplyAcceptedStraight, ReplyHeaderPasses, QueuesTile, At16;
    if ReplyAcceptedStraight(b) {
      AcceptedReplyTiles(b);
    }
    if ReplyHeaderPasses(b) && ValidPort(At16(b.data, 8)) {
      if queues :| QueuesTile(b, queues) {
        TiledReplyAccepted(b, queues);
      }
    }
  }

  // ---------- flow records ----------

  /** Valid actions cover what follows the fixed part of the record at at. */
  ghost predicate FlowCovered(m: Memory, at: nat, actions: seq<Bytes>) {
    ActionsCover(m, at + FLOW_STATS_ACTIONS, At16(m, at) - FLOW_STATS_ACTIONS, actions)
  }

  /** A valid match, and the highest priority if the match is exact. */
  ghost predicate FlowFieldsPass(m: Memory, at: nat) {
    var f := NtohMatchFields(m, at + 4);
    f.Valid() && (f.wildcards == 0 ==> At16(m, at + 52) == USHRT_MAX)
  }

  ghost predicate FlowPasses(m: Memory, at: nat) {
    && FlowFieldsPass(m, at) && At16(m, at) >= FLOW_STATS_ACTIONS
    && exists actions :: FlowCovered(m, at, actions)
  }

  /** The record at at is as long as its fixed part and no longer than what is left, and its actions do not wrap. */
  ghost predicate FlowStraight(m: Memory, at: nat, flowLength: u16) {
    var len := At16(m, at);
    && FLOW_STATS_ACTIONS <= len <= flowLength
    && NoWrap(ValidateAction, m, at + FLOW_STATS_ACTIONS,
              Offsets(ValidateAction, m, at + FLOW_STATS_ACTIONS, len - FLOW_STATS_ACTIONS, 0, USHRT_MAX))
  }

  ghost predicate FlowsStraight(m: Memory, at: nat, flowLength: u16, records: nat)
    decreases records
  {
    flowLength == 0 || records == 0
    || (FlowStraight(m, at, flowLength) && FlowsStraight(m, at + At16(m, at), flowLength - At16(m, at), records - 1))
  }

  ghost predicate FlowActionsPass(m: Memory, at: nat) {
    var head, length := at + FLOW_STATS_ACTIONS, Sub16(At16(m, at), FLOW_STATS_ACTIONS);
    Walk(ValidateAction, m, head, length, 0, USHRT_MAX) == Done(0)
  }

  lemma FlowActionsMean(m: Memory, at: nat, flowLength: u16)
    requires FLOW_STATS_ACTIONS <= At16(m, at) <= flowLength
    ensures FlowActionsPass(m, at) && FlowStraight(m, at, flowLength) <==> exists actions :: FlowCovered(m, at, actions)
  {
    hide At16, Walk, ActionsCover, NoWrap, Offsets;
    var head, length := at + FLOW_STATS_ACTIONS, At16(m, at) - FLOW_STATS_ACTIONS;
    ActionsMean(m, head, length);
    if xs :| ActionsCover(m, head, length, xs) {
      assert FlowCovered(m, at, xs);
    }
  }

  lemma FlowCodeMeans(m: Memory, at: nat)
    ensures FlowStatsCode(m, at, USHRT_MAX).Done? ==> FlowStatsCode(m, at, USHRT_MAX).ret <= 0
    ensures FlowStatsCode(m, at, USHRT_MAX) == Done(0) <==> FlowFieldsPass(m, at) && FlowActionsPass(m, at)
  {
    hide At16, Walk, ValidateMatch, NtohMatchFields;
    MatchAccepted(NtohMatchFields(m, at + 4));
    WalkCodes(ValidateAction, m, at + FLOW_STATS_ACTIONS, Sub16(At16(m, at), FLOW_STATS_ACTIONS), 0, USHRT_MAX);
    NoWalk(m, at + FLOW_STATS_ACTIONS);
  }

  lemma FlowMeans(m: Memory, at: nat, flowLength: u16)
    requires At16(m, at) <= flowLength
    ensures FlowStatsCode(m, at, USHRT_MAX).Done? ==> FlowStatsCode(m, at, USHRT_MAX).ret <= 0
    ensures FlowStatsCode(m, at, USHRT_MAX) == Done(0) && FlowStraight(m, at, flowLength) <==> FlowPasses(m, at)
  {
    hide At16, FlowCovered, FlowActionsPass, FlowFieldsPass, FlowStatsCode, NoWrap, Offsets;
    FlowCodeMeans(m, at);
    if At16(m, at) >= FLOW_STATS_ACTIONS {
      FlowActionsMean(m, at, flowLength);
    }
  }

  lemma {:induction false} AcceptedFlows(m: Memory, at: nat, flowLength: u16, records: nat) returns (flows: seq<Bytes>)
    requires FlowsStraight(m, at, flowLength, records) && FlowWalk(m, at, flowLength, records, USHRT_MAX) == Done(0)
    ensures Lie(FLOW, FlowPasses, m, at, flowLength, flows)
    decreases records
  {
    hide At16, Holds, Lie, FlowPasses, FlowStatsCode;
    if flowLength == 0 {
      flows := [];
      NoneLie(FLOW, FlowPasses, m, at, flowLength);
    } else {
      FlowMeans(m, at, flowLength);
      var x := Stretch(m, at, At16(m, at));
      Held16(m, at, x, 0);
      var tail := AcceptedFlows(m, at + |x|, flowLength - |x|, records - 1);
      flows := [x] + tail;
      LieJoin(FLOW, FlowPasses, m, at, flowLength, x, tail);
    }
  }

  lemma {:induction false} LyingFlows(m: Memory, at: nat, flowLength: u16, records: nat, flows: seq<Bytes>)
    requires Lie(FLOW, FlowPasses, m, at, flowLength, flows) && records >= |flows|
    ensures FlowsStraight(m, at, flowLength, records) && FlowWalk(m, at, flowLength, records, USHRT_MAX) == Done(0)
    decreases |flows|
  {
    hide At16, Holds, Lie, FlowPasses, FlowStatsCode, FlowStraight;
    if flows == [] {
      NoneLie(FLOW, FlowPasses, m, at, flowLength);
    } else {
      var x := flows[0];
      assert flows == [x] + flows[1..];
      LieSplit(FLOW, FlowPasses, m, at, flowLength, x, flows[1..]);
      LieCount(FLOW, FlowPasses, m, at + |x|, flowLength - |x|, flows[1..]);
      Held16(m, at, x, 0);
      FlowMeans(m, at, flowLength);
      LyingFlows(m, at + |x|, flowLength - |x|, records - 1, flows[1..]);
    }
  }

  ghost predicate FlowsTile(b: Buffer, flows: seq<Bytes>) {
    Lie(FLOW, FlowPasses, b.data, STATS_REPLY_BODY, b.length - STATS_REPLY_BODY, flows)
  }

  ghost predicate StatsHeaderPasses(b: Buffer) {
    ValidateHeader(b, OFPT_STATS_REPLY, STATS_REPLY_BODY, USHRT_MAX) == 0 && At16(b.data, 10) <= 1
  }

  ghost predicate StatsAcceptedStraight(b: Buffer) {
    && FlowStatsReplyCode(b, USHRT_MAX, USHRT_MAX) == Done(0)
    && FlowsStraight(b.data, STATS_REPLY_BODY, Sub16(At16(b.data, 2), STATS_REPLY_BODY), USHRT_MAX)
  }

  lemma StatsCode(b: Buffer)
    requires ValidateHeader(b, OFPT_STATS_REPLY, STATS_REPLY_BODY, USHRT_MAX) == 0
    ensures STATS_REPLY_BODY <= b.length <= USHRT_MAX
    ensures StatsAcceptedStraight(b)
       <==> && At16(b.data, 10) <= 1
            && FlowWalk(b.data, STATS_REPLY_BODY, b.length - STATS_REPLY_BODY, USHRT_MAX, USHRT_MAX) == Done(0)
            && FlowsStraight(b.data, STATS_REPLY_BODY, b.length - STATS_REPLY_BODY, USHRT_MAX)
  {
    hide At16, ValidateHeader, FlowWalk, FlowsStraight, Sub16;
    HeaderPasses(b, OFPT_STATS_REPLY, STATS_REPLY_BODY, USHRT_MAX);
    Half(At16(b.data, 10));
  }

  lemma Half(flags: u16)
    ensures flags as int / 2 != 0 <==> flags > 1
  {
  }

  lemma StatsHeader(b: Buffer)
    requires StatsAcceptedStraight(b)
    ensures ValidateHeader(b, OFPT_STATS_REPLY, STATS_REPLY_BODY, USHRT_MAX) == 0
  {
    hide At16, ValidateHeader, FlowWalk, FlowsStraight;
    HeaderPasses(b, OFPT_STATS_REPLY, STATS_REPLY_BODY, USHRT_MAX);
  }

  lemma AcceptedStatsTile(b: Buffer)
    requires StatsAcceptedStraight(b)
    ensures StatsHeaderPasses(b) && exists flows :: FlowsTile(b, flows)
  {
    hide At16, ValidateHeader, Lie, FlowWalk, FlowsStraight, StatsAcceptedStraight;
    StatsHeader(b);
    StatsCode(b);
    var flows := AcceptedFlows(b.data, STATS_REPLY_BODY, b.length - STATS_REPLY_BODY, USHRT_MAX);
    assert FlowsTile(b, flows);
  }

  lemma TiledStatsAccepted(b: Buffer, flows: seq<Bytes>)
    requires StatsHeaderPasses(b) && FlowsTile(b, flows)
    ensures StatsAcceptedStraight(b)
  {
    hide At16, ValidateHeader, Lie, FlowWalk, FlowsStraight, StatsAcceptedStraight;
    StatsCode(b);
    var length := b.length - STATS_REPLY_BODY;
    LieCount(FLOW, FlowPasses, b.data, STATS_REPLY_BODY, length, flows);
    LyingFlows(b.data, STATS_REPLY_BODY, length, USHRT_MAX, flows);
  }

  /**
   A reply with flow statistics is accepted, without any of the 16-bit counters wrapping, exactly if its header and
   flags are valid and it is tiled by records with valid matches, priorities and actions.
   */
  lemma FlowStatsReplyMeans(b: Buffer)
    ensures StatsAcceptedStraight(b) <==> StatsHeaderPasses(b) && exists flows :: FlowsTile(b, flows)
  {
    hide StatsAcceptedStraight, StatsHeaderPasses, FlowsTile;
    if StatsAcceptedStraight(b) {
      AcceptedStatsTile(b);
    }
    if StatsHeaderPasses(b) {
      if flows :| FlowsTile(b, flows) {
        TiledStatsAccepted(b, flows);
      }
    }
  }

  // ---------- what is accepted and what can be converted ----------

  lemma StretchTail(m: Memory, at: nat, n: nat, from: nat)
    requires from <= n
    ensures Stretch(m, at, n)[from..] == Stretch(m, at + from, n - from)
  {
  }

  lemma CoveredKnown(m: Memory, head: nat, length: int, actions: seq<Bytes>)
    requires ActionsCover(m, head, length, actions)
    ensures forall i :: 0 <= i < |actions| ==> Known(Big, actions[i])
  {
    hide Holds, Known;
    forall i | 0 <= i < |actions| ensures Known(Big, actions[i]) {
      assert ACTION.Is(Big, actions[i]) && ActionCode(actions[i]) >= 0;
      PassingActionKnown(actions[i]);
    }
  }

  lemma PassingActionKnown(x: Bytes)
    requires ACTION.Is(Big, x) && ActionCode(x) >= 0
    ensures Known(Big, x)
  {
    ActionAccepted(ActionFields(Net16(x, 0), Net16(x, 2), Net16(x, 4), x[4]));
    hide ValidateActionFields;
  }

  lemma RecordIs(m: Memory, at: nat, n: nat, ys: seq<Bytes>)
    requires n == At16(m, at) >= FLOW_STATS_ACTIONS
    ensures FlowRecord(Big, Stretch(m, at, n), ys)
       <==> && Tiles(Big, ACTION, ys, Stretch(m, at + FLOW_STATS_ACTIONS, n - FLOW_STATS_ACTIONS))
            && forall i :: 0 <= i < |ys| ==> Known(Big, ys[i])
  {
    hide Tiles, Known, At16;
    Held16(m, at, Stretch(m, at, n), 0);
    StretchTail(m, at, n, FLOW_STATS_ACTIONS);
  }

  /**
   A record with valid actions is what ntoh_flow_stats can convert exactly if its last action does not reach beyond it.
   */
  lemma FlowConvertible(m: Memory, at: nat, actions: seq<Bytes>)
    requires At16(m, at) >= FLOW_STATS_ACTIONS && FlowCovered(m, at, actions)
    ensures var x := Stretch(m, at, At16(m, at));
            && ((exists ys :: FlowRecord(Big, x, ys)) <==> |Flatten(actions)| == |x| - FLOW_STATS_ACTIONS)
            && forall ys :: FlowRecord(Big, x, ys) ==> ys == actions
  {
    hide At16, Known, Covers, Tiles, Stretch, FlowRecord;
    var n := At16(m, at);
    CoveredKnown(m, at + FLOW_STATS_ACTIONS, n - FLOW_STATS_ACTIONS, actions);
    AcceptedTiles(ActionCode, ACTION, m, at + FLOW_STATS_ACTIONS, n - FLOW_STATS_ACTIONS, USHRT_MAX, actions);
    forall ys
      ensures FlowRecord(Big, Stretch(m, at, n), ys)
         <==> && Tiles(Big, ACTION, ys, Stretch(m, at + FLOW_STATS_ACTIONS, n - FLOW_STATS_ACTIONS))
              && forall i :: 0 <= i < |ys| ==> Known(Big, ys[i])
    {
      RecordIs(m, at, n, ys);
    }
  }

  lemma PassingProperty(x: Bytes)
    requires PROPERTY.Is(Big, x) && PropertyCodeOf(x) >= 0
    ensures Property(Big, x)
  {
    PropertyAccepted(Net16(x, 0), Net16(x, 2));
  }

  lemma QueueIs(m: Memory, at: nat, n: nat, ys: seq<Bytes>)
    requires n == At16(m, at + 4) >= QUEUE_PROPERTIES
    ensures QueueRecord(Big, Stretch(m, at, n), ys)
       <==> && Tiles(Big, PROPERTY, ys, Stretch(m, at + QUEUE_PROPERTIES, n - QUEUE_PROPERTIES))
            && forall i :: 0 <= i < |ys| ==> Property(Big, ys[i])
  {
    hide Tiles, Property, At16;
    Held16(m, at, Stretch(m, at, n), 4);
    StretchTail(m, at, n, QUEUE_PROPERTIES);
  }

  lemma CoveredProperties(m: Memory, at: nat, properties: seq<Bytes>)
    requires QueueCovered(m, at, properties)
    ensures forall i :: 0 <= i < |properties| ==> Property(Big, properties[i])
  {
    hide Property, Holds, At16;
    forall i | 0 <= i < |properties| ensures Property(Big, properties[i]) {
      PassingProperty(properties[i]);
    }
  }

  /** A queue with valid properties is what ntoh_packet_queue can convert exactly if its last property does not. */
  lemma QueueConvertible(m: Memory, at: nat, properties: seq<Bytes>)
    requires At16(m, at + 4) >= QUEUE_PROPERTIES && QueueCovered(m, at, properties)
    ensures var x := Stretch(m, at, At16(m, at + 4));
            && ((exists ys :: QueueRecord(Big, x, ys)) <==> |Flatten(properties)| == |x| - QUEUE_PROPERTIES)
            && forall ys :: QueueRecord(Big, x, ys) ==> ys == properties
  {
    hide At16, Property, Covers, Tiles, Stretch, QueueRecord;
    var n := At16(m, at + 4);
    CoveredProperties(m, at, properties);
    AcceptedTiles(PropertyCodeOf, PROPERTY, m, at + QUEUE_PROPERTIES, n - QUEUE_PROPERTIES, USHRT_MAX, properties);
    forall ys
      ensures QueueRecord(Big, Stretch(m, at, n), ys)
         <==> && Tiles(Big, PROPERTY, ys, Stretch(m, at + QUEUE_PROPERTIES, n - QUEUE_PROPERTIES))
              && forall i :: 0 <= i < |ys| ==> Property(Big, ys[i])
    {
      QueueIs(m, at, n, ys);
    }
  }

  /** Where 8 bytes start with an element of 16, nothing tiles them. */
  lemma OverrunTilesNothing(kind: Kind, region: Bytes, ys: seq<Bytes>)
    requires kind.lengthAt == 2 && |region| == 8 && Net16(region, 2) == 16
    ensures !Tiles(Big, kind, ys, region)
  {
    if Tiles(Big, kind, ys, region) {
      assert ys != [];
      TilesTail(Big, kind, ys, region);
    }
  }

  /** A reply with one record of 96 bytes, whose action is 16 bytes long. */
  function OverrunStatsReply(): Buffer {
    Buffer(108, (at: nat) =>
      if at == 0 then OFP_VERSION else if at == 1 then OFPT_STATS_REPLY else if at == 3 then 108
      else if at == 9 then OFPST_FLOW else if at == 13 then 96 else if at == 64 || at == 65 then 255
      else if at == 101 then OFPAT_SET_DL_SRC else if at == 103 then 16 else 0)
  }

  lemma OverrunStatsAt16(at: nat)
    requires 14 <= at < 63 || at == 12 || at == 64 || at == 2 || at == 10 || at == 100 || at == 102 || at == 104
    ensures At16(OverrunStatsReply().data, at)
         == if at == 2 then 108 else if at == 12 then 96 else if at == 64 then USHRT_MAX
            else if at == 100 then OFPAT_SET_DL_SRC else if at == 102 then 16 else 0
    ensures 14 <= at < 63 || at == 104 ==> OverrunStatsReply().data(at) == 0
  {
  }

  lemma OverrunStatsCode()
    ensures FlowStatsCode(OverrunStatsReply().data, STATS_REPLY_BODY, 1) == Done(0)
  {
    hide At16, OverrunStatsReply;
    OverrunStatsAt16(12);
    OverrunStatsAt16(16);
    OverrunStatsAt16(18);
    OverrunStatsAt16(34);
    OverrunStatsAt16(36);
    OverrunStatsAt16(40);
    OverrunStatsAt16(64);
    OverrunStatsAt16(100);
    OverrunStatsAt16(102);
    OverrunStatsAt16(104);
    ActionAccepted(ActionFields(OFPAT_SET_DL_SRC, 16, 0, 0));
    hide ValidateActionFields;
  }

  lemma OverrunStatsHeader()
    ensures var b := OverrunStatsReply();
            ValidateHeader(b, OFPT_STATS_REPLY, STATS_REPLY_BODY, USHRT_MAX) == 0 && At16(b.data, 2) == b.length == 108
  {
    assert At16(OverrunStatsReply().data, 2) == 108;
  }

  /** It is accepted, and there is nothing in it that ntoh_flow_stats can convert. */
  lemma OverrunStatsAccepted()
    ensures var b := OverrunStatsReply();
            && FlowStatsReplyCode(b, 1, 1) == Done(0)
            && forall ys :: !FlowRecord(Big, Stretch(b.data, STATS_REPLY_BODY, 96), ys)
  {
    hide At16, FlowStatsCode, ValidateHeader, OverrunStatsReply, Tiles;
    var b := OverrunStatsReply();
    OverrunStatsHeader();
    OverrunStatsCode();
    OverrunStatsAt16(10);
    OverrunStatsAt16(12);
    OverrunStatsAt16(102);
    StretchTail(b.data, STATS_REPLY_BODY, 96, FLOW_STATS_ACTIONS);
    Held16(b.data, 100, Stretch(b.data, 100, 8), 2);
    forall ys ensures !FlowRecord(Big, Stretch(b.data, STATS_REPLY_BODY, 96), ys) {
      OverrunTilesNothing(ACTION, Stretch(b.data, 100, 8), ys);
    }
  }

  /** A reply with one queue of 16 bytes, whose property is 16 bytes long. */
  function OverrunQueueReply(): Buffer {
    Buffer(32, (at: nat) =>
      if at == 0 then OFP_VERSION else if at == 1 then OFPT_QUEUE_GET_CONFIG_REPLY else if at == 3 then 32
      else if at == 9 then 1 else if at == 21 then 16 else if at == 25 then OFPQT_MIN_RATE
      else if at == 27 then 16 else 0)
  }

  lemma OverrunQueueAt16(at: nat)
    requires at == 2 || at == 8 || at == 20 || at == 24 || at == 26
    ensures At16(OverrunQueueReply().data, at)
         == if at == 2 then 32 else if at == 20 || at == 26 then 16 else 1
  {
  }

  lemma OverrunQueueHeader()
    ensures ValidateHeader(OverrunQueueReply(), OFPT_QUEUE_GET_CONFIG_REPLY, CONFIG_REPLY_QUEUES + QUEUE_PROPERTIES,
                           USHRT_MAX) == 0
  {
    hide At16;
    OverrunQueueAt16(2);
  }

  lemma OverrunQueueCounted()
    ensures CountQueues(OverrunQueueReply().data, CONFIG_REPLY_QUEUES, 16, 0, 1) == Counted(0, 1)
  {
    hide At16, OverrunQueueReply;
    OverrunQueueAt16(20);
  }

  lemma OverrunQueuePasses()
    ensures ValidatePacketQueue(OverrunQueueReply().data, CONFIG_REPLY_QUEUES, 1) == Done(0)
  {
    hide At16, OverrunQueueReply;
    OverrunQueueAt16(20);
    OverrunQueueAt16(24);
    OverrunQueueAt16(26);
  }

  lemma OverrunQueueCode()
    ensures QueueReplyCode(OverrunQueueReply(), 1) == Done(0)
  {
    hide At16, OverrunQueueReply, ValidateHeader, CountQueues, ValidatePacketQueue;
    OverrunQueueHeader();
    OverrunQueueAt16(2);
    OverrunQueueAt16(8);
    OverrunQueueCounted();
    OverrunQueuePasses();
  }

  /** It is accepted, and there is nothing in it that ntoh_packet_queue can convert. */
  lemma OverrunQueueAccepted()
    ensures var b := OverrunQueueReply();
            && QueueReplyCode(b, 1) == Done(0)
            && forall ys :: !QueueRecord(Big, Stretch(b.data, CONFIG_REPLY_QUEUES, 16), ys)
  {
    hide At16, QueueReplyCode, OverrunQueueReply, Tiles;
    var b := OverrunQueueReply();
    OverrunQueueCode();
    StretchTail(b.data, CONFIG_REPLY_QUEUES, 16, QUEUE_PROPERTIES);
    OverrunQueueAt16(26);
    Held16(b.data, 24, Stretch(b.data, 24, 8), 2);
    forall ys ensures !QueueRecord(Big, Stretch(b.data, CONFIG_REPLY_QUEUES, 16), ys) {
      OverrunTilesNothing(PROPERTY, Stretch(b.data, 24, 8), ys);
    }
  }
}
