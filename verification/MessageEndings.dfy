/** On which messages the validators that follow lengths come to an end. */
module MessageEndings {
  import opened Bytes
  import opened OpenFlow
  import opened MsgCheck
  import opened Walks
  import opened Endings
  import opened ErrorMaps

  // ---------- packet-out and flow-mod ----------

  ghost predicate FlowModEnds(b: Buffer) {
    exists rounds: nat :: ValidateFlowMod(b, rounds).Done?
  }

  ghost predicate PacketOutEnds(b: Buffer) {
    exists rounds: nat :: ValidatePacketOut(b, rounds).Done?
  }

  /** A flow-mod of any length that is in order but for its actions, which are those of CIRCLE. */
  function CirclingFlowMod(length: u16): Buffer {
    Buffer(length, (at: nat) =>
      if at == 0 then OFP_VERSION else if at == 1 then OFPT_FLOW_MOD
      else if at == 2 then length / 0x100 else if at == 3 then length % 0x100
      else if at == 62 || at == 63 then 255
      else if 72 <= at < 88 then CIRCLE[at - 72] else 0)
  }

  lemma CirclingFlowModHeader(length: u16)
    requires length >= FLOW_MOD_ACTIONS
    ensures var b := CirclingFlowMod(length);
              ValidateHeader(b, OFPT_FLOW_MOD, FLOW_MOD_ACTIONS, USHRT_MAX) == 0 && At16(b.data, 2) == length
  {
    assert At16(CirclingFlowMod(length).data, 2) == length;
  }

  lemma CirclingFlowModAt16(length: u16, at: nat)
    requires 8 <= at < 61 || at == 62 || at == 70
    ensures At16(CirclingFlowMod(length).data, at) == if at == 62 then USHRT_MAX else 0
    ensures at != 62 ==> CirclingFlowMod(length).data(at) == 0
  {
  }

  lemma CirclingFlowModFields(length: u16)
    ensures ValidateFlowModFields(CirclingFlowMod(length).data) == 0
  {
    hide At16, CirclingFlowMod;
    CirclingFlowModAt16(length, 8);
    CirclingFlowModAt16(length, 10);
    CirclingFlowModAt16(length, 26);
    CirclingFlowModAt16(length, 28);
    CirclingFlowModAt16(length, 32);
    CirclingFlowModAt16(length, 56);
    CirclingFlowModAt16(length, 62);
    CirclingFlowModAt16(length, 70);
  }

  lemma CirclingFlowModActions(length: u16)
    ensures Holds(CirclingFlowMod(length).data, FLOW_MOD_ACTIONS, CIRCLE)
  {
  }

  /** On this message, 88 bytes long for example, validate_flow_mod never ends. */
  lemma FlowModCircles(length: u16, rounds: nat)
    requires length > FLOW_MOD_ACTIONS + 8
    ensures ValidateFlowMod(CirclingFlowMod(length), rounds) == Running
  {
    hide ValidateHeader, ValidateFlowModFields, At16, Holds, Walk, CirclingFlowMod;
    CirclingFlowModHeader(length);
    CirclingFlowModFields(length);
    CirclingFlowModActions(length);
    CircleNeverEnds(CirclingFlowMod(length).data, FLOW_MOD_ACTIONS, length - FLOW_MOD_ACTIONS, rounds);
  }

  /** validate_flow_mod ends on every message of a length exactly if that leaves room for no more than one action. */
  lemma FlowModsEnd(length: u16)
    ensures length <= FLOW_MOD_ACTIONS + 8
       <==> forall b: Buffer :: b.length == length ==> FlowModEnds(b)
  {
    hide ValidateFlowModFields, At16, Walk, CirclingFlowMod;
    if length <= FLOW_MOD_ACTIONS + 8 {
      forall b: Buffer | b.length == length ensures FlowModEnds(b) {
        ShortWalkEnds(b.data, FLOW_MOD_ACTIONS, Sub16(At16(b.data, 2), FLOW_MOD_ACTIONS));
        HeaderPasses(b, OFPT_FLOW_MOD, FLOW_MOD_ACTIONS, USHRT_MAX);
        hide ValidateHeader;
        assert ValidateFlowMod(b, 1).Done?;
      }
    } else {
      hide ValidateFlowMod;
      forall rounds: nat ensures ValidateFlowMod(CirclingFlowMod(length), rounds) == Running {
        FlowModCircles(length, rounds);
      }
      assert CirclingFlowMod(length).length == length by {
        CirclingLength(length);
      }
      assert !FlowModEnds(CirclingFlowMod(length));
    }
  }

  lemma CirclingLength(length: u16)
    ensures CirclingFlowMod(length).length == length
  {
  }

  lemma ShortWalkEnds(m: Memory, head: nat, length: u16)
    ensures length <= 8 ==> Walk(ValidateAction, m, head, length, 0, 1).Done?
  {
    hide ValidateAction, At16;
    ChecksLongEnough();
  }

  /** The only action of this flow-mod is 16 bytes long, of which the message holds 8; still it is accepted. */
  lemma OverrunAccepted()
    ensures var b := OneFlowMod(OFPAT_SET_DL_SRC, 16, 0);
            && ValidateFlowMod(b, 1) == Done(0)
            && b.length == FLOW_MOD_ACTIONS + 8 && At16(b.data, FLOW_MOD_ACTIONS + 2) == 16
  {
    hide ValidateFlowMod;
    FlowModWitness(OFPAT_SET_DL_SRC, 16, 0);
  }

  /** A packet-out of the given length of actions that is in order but for those. */
  function CirclingPacketOut(actionsLength: u16): Buffer {
    Buffer(PACKET_OUT_ACTIONS + actionsLength as int, (at: nat) =>
      if at == 0 then OFP_VERSION else if at == 1 then OFPT_PACKET_OUT
      else if at == 2 then (PACKET_OUT_ACTIONS + actionsLength as int) / 0x100 % 0x100
      else if at == 3 then (PACKET_OUT_ACTIONS + actionsLength as int) % 0x100
      else if at == 13 then 1
      else if at == 14 then actionsLength / 0x100 else if at == 15 then actionsLength % 0x100
      else if 16 <= at < 32 then CIRCLE[at - 16] else 0)
  }

  lemma CirclingPacketOutRead(actionsLength: u16)
    requires PACKET_OUT_ACTIONS + actionsLength as int <= USHRT_MAX
    ensures var b := CirclingPacketOut(actionsLength);
            && b.length == PACKET_OUT_ACTIONS + actionsLength as int
            && ValidateHeader(b, OFPT_PACKET_OUT, PACKET_OUT_ACTIONS, USHRT_MAX) == 0
            && At16(b.data, 12) == 1 && At16(b.data, 14) == actionsLength
            && Holds(b.data, PACKET_OUT_ACTIONS, CIRCLE)
  {
    assert At16(CirclingPacketOut(actionsLength).data, 2) == PACKET_OUT_ACTIONS + actionsLength as int;
  }

  lemma PacketOutCircles(actionsLength: u16, rounds: nat)
    requires actionsLength > 8 && PACKET_OUT_ACTIONS + actionsLength as int <= USHRT_MAX
    ensures ValidatePacketOut(CirclingPacketOut(actionsLength), rounds) == Running
  {
    hide ValidateHeader, At16, Holds, Walk, CirclingPacketOut;
    CirclingPacketOutRead(actionsLength);
    CircleNeverEnds(CirclingPacketOut(actionsLength).data, PACKET_OUT_ACTIONS, actionsLength, rounds);
  }

  /**
   validate_packet_out ends on every message whose actions are of a given length, and lie within it, exactly if that
   leaves room for no more than one action.
   */
  lemma PacketOutsEnd(actionsLength: u16)
    requires PACKET_OUT_ACTIONS + actionsLength as int <= USHRT_MAX
    ensures actionsLength <= 8
       <==> forall b: Buffer ::
              At16(b.data, 14) == actionsLength && b.length >= PACKET_OUT_ACTIONS + actionsLength as int ==>
                PacketOutEnds(b)
  {
    hide ValidateHeader, At16, Walk, CirclingPacketOut;
    if actionsLength <= 8 {
      forall b: Buffer | At16(b.data, 14) == actionsLength ensures PacketOutEnds(b) {
        ShortWalkEnds(b.data, PACKET_OUT_ACTIONS, actionsLength);
        assert ValidatePacketOut(b, 1).Done?;
      }
    } else {
      hide ValidatePacketOut;
      forall rounds: nat ensures ValidatePacketOut(CirclingPacketOut(actionsLength), rounds) == Running {
        PacketOutCircles(actionsLength, rounds);
      }
      CirclingPacketOutRead(actionsLength);
      assert !PacketOutEnds(CirclingPacketOut(actionsLength));
    }
  }

  /** Whether either of them ends on a message is settled after 65535 rounds. */
  lemma SettledInTime(b: Buffer)
    ensures FlowModEnds(b) <==> ValidateFlowMod(b, USHRT_MAX).Done?
    ensures PacketOutEnds(b) <==> ValidatePacketOut(b, USHRT_MAX).Done?
  {
    var length := Sub16(At16(b.data, 2), FLOW_MOD_ACTIONS);
    hide ValidateHeader, ValidateFlowModFields, At16, Walk, Sub16;
    SettledWalk(b.data, FLOW_MOD_ACTIONS, length);
    SettledWalk(b.data, PACKET_OUT_ACTIONS, At16(b.data, 14));
    if rounds: nat :| ValidateFlowMod(b, rounds).Done? {
      assert Walk(ValidateAction, b.data, FLOW_MOD_ACTIONS, length, 0, rounds).Done?
          ==> Walk(ValidateAction, b.data, FLOW_MOD_ACTIONS, length, 0, USHRT_MAX).Done?;
    }
    if rounds: nat :| ValidatePacketOut(b, rounds).Done? {
      assert Walk(ValidateAction, b.data, PACKET_OUT_ACTIONS, At16(b.data, 14), 0, rounds).Done?
          ==> Walk(ValidateAction, b.data, PACKET_OUT_ACTIONS, At16(b.data, 14), 0, USHRT_MAX).Done?;
    }
  }

  lemma SettledWalk(m: Memory, head: nat, length: u16)
    ensures forall rounds: nat :: Walk(ValidateAction, m, head, length, 0, rounds).Done?
              ==> Walk(ValidateAction, m, head, length, 0, USHRT_MAX).Done?
  {
    hide Walk;
    EndsUnlessRecurs(ValidateAction, m, head, length);
    if Walk(ValidateAction, m, head, length, 0, length).Done? {
      MoreRounds(ValidateAction, m, head, length, 0, length, USHRT_MAX);
    }
  }

  // ---------- flow statistics ----------

  ghost predicate FlowStatsReplyEnds(b: Buffer) {
    exists records: nat, rounds: nat :: FlowStatsReplyCode(b, records, rounds).Done?
  }

  /** A reply of any length that is in order but for the actions of its first record. */
  function CirclingFlowStatsReply(length: u16): Buffer {
    Buffer(length, (at: nat) =>
      if at == 0 then OFP_VERSION else if at == 1 then OFPT_STATS_REPLY
      else if at == 2 then length / 0x100 else if at == 3 then length % 0x100
      else if at == 9 then OFPST_FLOW
      else if at == 13 then 104 else if at == 64 || at == 65 then 255
      else if 100 <= at < 116 then CIRCLE[at - 100] else 0)
  }

  lemma CirclingFlowStatsReplyHeader(length: u16)
    requires length > STATS_REPLY_BODY
    ensures var b := CirclingFlowStatsReply(length);
            && ValidateHeader(b, OFPT_STATS_REPLY, STATS_REPLY_BODY, USHRT_MAX) == 0
            && At16(b.data, 2) == length == b.length && At16(b.data, 10) == 0
  {
    assert At16(CirclingFlowStatsReply(length).data, 2) == length;
  }

  lemma CirclingFlowStatsReplyAt16(length: u16, at: nat)
    requires 14 <= at < 63 || at == 12 || at == 64
    ensures At16(CirclingFlowStatsReply(length).data, at) == if at == 12 then 104 else if at == 64 then USHRT_MAX else 0
    ensures at != 12 && at != 64 ==> CirclingFlowStatsReply(length).data(at) == 0
  {
  }

  lemma CirclingFlowStatsReplyActions(length: u16)
    ensures Holds(CirclingFlowStatsReply(length).data, STATS_REPLY_BODY + FLOW_STATS_ACTIONS, CIRCLE)
  {
  }

  lemma FlowStatsCircles(length: u16, rounds: nat)
    ensures FlowStatsCode(CirclingFlowStatsReply(length).data, STATS_REPLY_BODY, rounds) == Running
  {
    hide At16, CirclingFlowStatsReply, Walk, Holds;
    CirclingFlowStatsReplyAt16(length, 12);
    CirclingFlowStatsReplyAt16(length, 16);
    CirclingFlowStatsReplyAt16(length, 18);
    CirclingFlowStatsReplyAt16(length, 34);
    CirclingFlowStatsReplyAt16(length, 36);
    CirclingFlowStatsReplyAt16(length, 40);
    CirclingFlowStatsReplyAt16(length, 64);
    CirclingFlowStatsReplyActions(length);
    CircleNeverEnds(CirclingFlowStatsReply(length).data, STATS_REPLY_BODY + FLOW_STATS_ACTIONS, 16, rounds);
  }

  /** validate_flow_stats_reply ends on every message of a length exactly if that leaves room for no record. */
  lemma FlowStatsRepliesEnd(length: u16)
    ensures length <= STATS_REPLY_BODY
       <==> forall b: Buffer :: b.length == length ==> FlowStatsReplyEnds(b)
  {
    hide At16, FlowStatsCode, CirclingFlowStatsReply;
    if length <= STATS_REPLY_BODY {
      forall b: Buffer | b.length == length ensures FlowStatsReplyEnds(b) {
        HeaderPasses(b, OFPT_STATS_REPLY, STATS_REPLY_BODY, USHRT_MAX);
        hide ValidateHeader;
        assert FlowStatsReplyCode(b, 0, 0).Done?;
      }
    } else {
      hide ValidateHeader;
      var b := CirclingFlowStatsReply(length);
      CirclingFlowStatsReplyHeader(length);
      forall records: nat, rounds: nat ensures FlowStatsReplyCode(b, records, rounds) == Running {
        FlowStatsCircles(length, rounds);
      }
      assert !FlowStatsReplyEnds(b);
    }
  }

  /** Where following the lengths of k records leads. */
  ghost function FlowAt(m: Memory, at: nat, k: nat): (next: nat)
    ensures next >= at
    decreases k
  {
    if k == 0 then at else FlowAt(m, at + At16(m, at), k - 1)
  }

  /** What the 16-bit counter says is left then. */
  ghost function FlowLeft(m: Memory, at: nat, flowLength: u16, k: nat): u16 {
    (flowLength as int - (FlowAt(m, at, k) - at)) % 0x1_0000
  }

  /** The loop goes on after record k: something is left there, and the record passes. */
  ghost predicate GoesOn(m: Memory, at: nat, flowLength: u16, rounds: nat, k: nat) {
    && FlowLeft(m, at, flowLength, k) > 0
    && FlowStatsCode(m, FlowAt(m, at, k), rounds).Done? && FlowStatsCode(m, FlowAt(m, at, k), rounds).ret >= 0
  }

  /** What the loop returns at record k, if it does. */
  ghost function StopsWith(m: Memory, at: nat, flowLength: u16, rounds: nat, k: nat): Outcome
    requires !GoesOn(m, at, flowLength, rounds, k)
  {
    if FlowLeft(m, at, flowLength, k) == 0 then Done(0) else FlowStatsCode(m, FlowAt(m, at, k), rounds)
  }

  lemma FlowLeftNext(m: Memory, at: nat, flowLength: u16, k: nat)
    requires k > 0
    ensures FlowLeft(m, at, flowLength, k)
         == FlowLeft(m, at + At16(m, at), Sub16(flowLength, At16(m, at)), k - 1)
  {
    hide At16;
    var len, d := At16(m, at), FlowAt(m, at, k) - at;
    Modulo(flowLength as int - len, d - len);
  }

  lemma GoesOnNext(m: Memory, at: nat, flowLength: u16, rounds: nat, k: nat)
    requires k > 0
    ensures FlowAt(m, at, k) == FlowAt(m, at + At16(m, at), k - 1)
    ensures FlowLeft(m, at, flowLength, k)
         == FlowLeft(m, at + At16(m, at), Sub16(flowLength, At16(m, at)), k - 1)
    ensures GoesOn(m, at, flowLength, rounds, k)
       <==> GoesOn(m, at + At16(m, at), Sub16(flowLength, At16(m, at)), rounds, k - 1)
  {
    hide At16, Sub16, FlowStatsCode, FlowLeft;
    FlowLeftNext(m, at, flowLength, k);
  }

  lemma FirstRecord(m: Memory, at: nat, flowLength: u16)
    ensures FlowAt(m, at, 0) == at && FlowLeft(m, at, flowLength, 0) == flowLength
  {
  }

  /**
   The loop over records stops at the first one at which nothing is left, modulo 65536, or which does not pass, and
   returns what that says; if there is none among those granted, it is still running.
   */
  lemma {:induction false} FlowWalkEnds(m: Memory, at: nat, flowLength: u16, records: nat, rounds: nat)
    returns (k: nat)
    ensures k <= records && forall j :: 0 <= j < k ==> GoesOn(m, at, flowLength, rounds, j)
    ensures k < records ==> !GoesOn(m, at, flowLength, rounds, k)
    ensures FlowWalk(m, at, flowLength, records, rounds)
         == if k < records || FlowLeft(m, at, flowLength, k) == 0 then StopsWith(m, at, flowLength, rounds, k)
            else Running
    decreases records
  {
    hide At16, Sub16, FlowStatsCode, FlowLeft, FlowAt;
    FirstRecord(m, at, flowLength);
    if records == 0 || !GoesOn(m, at, flowLength, rounds, 0) {
      k := 0;
    } else {
      var next, left := at + At16(m, at), Sub16(flowLength, At16(m, at));
      var k' := FlowWalkEnds(m, next, left, records - 1, rounds);
      k := k' + 1;
      forall j | 0 < j <= k
        ensures FlowAt(m, at, j) == FlowAt(m, next, j - 1)
        ensures FlowLeft(m, at, flowLength, j) == FlowLeft(m, next, left, j - 1)
        ensures GoesOn(m, at, flowLength, rounds, j) <==> GoesOn(m, next, left, rounds, j - 1)
      {
        GoesOnNext(m, at, flowLength, rounds, j);
      }
      hide GoesOn;
    }
  }

  // ---------- queue configuration ----------

  /** Where following the lengths of k queues leads. */
  ghost function QueueAt(m: Memory, at: nat, k: nat): (next: nat)
    ensures next >= at
    decreases k
  {
    if k == 0 then at else QueueAt(m, at + At16(m, at + 4), k - 1)
  }

  /** What the 16-bit counter says is left then. */
  ghost function LeftAfter(m: Memory, at: nat, queuesLength: u16, k: nat): u16 {
    (queuesLength as int - (QueueAt(m, at, k) - at)) % 0x1_0000
  }

  lemma LeftNext(m: Memory, at: nat, queuesLength: u16, k: nat)
    requires k > 0
    ensures LeftAfter(m, at, queuesLength, k)
         == LeftAfter(m, at + At16(m, at + 4), Sub16(queuesLength, At16(m, at + 4)), k - 1)
  {
    hide At16;
    var len, d := At16(m, at + 4), QueueAt(m, at, k) - at;
    Modulo(queuesLength as int - len, d - len);
  }

  lemma Modulo(a: int, b: int)
    ensures (a % 0x1_0000 - b) % 0x1_0000 == (a - b) % 0x1_0000
  {
  }

  /**
   The counting loop ends at the first queue at which no more than 8 bytes are left, modulo 65536; if there is none, it
   never ends.
   */
  lemma {:induction false} CountEnds(m: Memory, at: nat, queuesLength: u16, counted: nat, rounds: nat)
    ensures match CountQueues(m, at, queuesLength, counted, rounds)
            case Counting => forall k :: 0 <= k <= rounds ==> LeftAfter(m, at, queuesLength, k) > QUEUE_PROPERTIES
            case Counted(left, n) =>
              && counted <= n <= counted + rounds
              && left == LeftAfter(m, at, queuesLength, n - counted) <= QUEUE_PROPERTIES
              && forall k :: 0 <= k < n - counted ==> LeftAfter(m, at, queuesLength, k) > QUEUE_PROPERTIES
    decreases rounds
  {
    hide At16, Sub16;
    assert LeftAfter(m, at, queuesLength, 0) == queuesLength;
    if queuesLength > QUEUE_PROPERTIES && rounds > 0 {
      CountEnds(m, at + At16(m, at + 4), Sub16(queuesLength, At16(m, at + 4)), counted + 1, rounds - 1);
      forall k: nat | k > 0
        ensures LeftAfter(m, at, queuesLength, k)
             == LeftAfter(m, at + At16(m, at + 4), Sub16(queuesLength, At16(m, at + 4)), k - 1)
      {
        LeftNext(m, at, queuesLength, k);
      }
      hide LeftAfter;
    }
  }

  /** A queue whose length is 0, with more than 8 bytes left, is counted again and again. */
  lemma {:induction false} EmptyQueueCircles(m: Memory, at: nat, queuesLength: u16, counted: nat, rounds: nat)
    requires At16(m, at + 4) == 0 && queuesLength > QUEUE_PROPERTIES
    ensures CountQueues(m, at, queuesLength, counted, rounds) == Counting
    decreases rounds
  {
    hide At16;
    if rounds > 0 {
      EmptyQueueCircles(m, at, queuesLength, counted + 1, rounds - 1);
    }
  }

  ghost predicate QueueReplyEnds(b: Buffer) {
    exists rounds: nat :: QueueReplyCode(b, rounds).Done?
  }

  /** A reply of any length, all zero after its port. */
  function CirclingQueueReply(length: u16): Buffer {
    Buffer(length, (at: nat) =>
      if at == 0 then OFP_VERSION else if at == 1 then OFPT_QUEUE_GET_CONFIG_REPLY
      else if at == 2 then length / 0x100 else if at == 3 then length % 0x100 else if at == 9 then 1 else 0)
  }

  lemma CirclingQueueReplyRead(length: u16)
    requires length >= CONFIG_REPLY_QUEUES + QUEUE_PROPERTIES
    ensures var b := CirclingQueueReply(length);
            && ValidateHeader(b, OFPT_QUEUE_GET_CONFIG_REPLY, CONFIG_REPLY_QUEUES + QUEUE_PROPERTIES, USHRT_MAX) == 0
            && At16(b.data, 2) == length == b.length && At16(b.data, 8) == 1
            && At16(b.data, CONFIG_REPLY_QUEUES + 4) == 0
  {
    assert At16(CirclingQueueReply(length).data, 2) == length;
  }

  /**
   validate_queue_get_config_reply ends on every message of a length exactly if that leaves room for no more than the
   fixed part of one queue.
   */
  lemma QueueRepliesEnd(length: u16)
    ensures length <= CONFIG_REPLY_QUEUES + QUEUE_PROPERTIES
       <==> forall b: Buffer :: b.length == length ==> QueueReplyEnds(b)
  {
    hide At16, QueuesCode, CirclingQueueReply;
    if length <= CONFIG_REPLY_QUEUES + QUEUE_PROPERTIES {
      forall b: Buffer | b.length == length ensures QueueReplyEnds(b) {
        HeaderPasses(b, OFPT_QUEUE_GET_CONFIG_REPLY, CONFIG_REPLY_QUEUES + QUEUE_PROPERTIES, USHRT_MAX);
        hide ValidateHeader;
        assert QueueReplyCode(b, 0).Done?;
      }
    } else {
      hide ValidateHeader;
      var b := CirclingQueueReply(length);
      CirclingQueueReplyRead(length);
      forall rounds: nat ensures QueueReplyCode(b, rounds) == Running {
        EmptyQueueCircles(b.data, CONFIG_REPLY_QUEUES, length - CONFIG_REPLY_QUEUES, 0, rounds);
      }
      assert !QueueReplyEnds(b);
    }
  }
}
