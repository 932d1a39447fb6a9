/**
 Which code a validator of lib/cc_of_msg_check.c returns for which bytes: every value it can return, by number, and the
 bytes for which it does.
 */
module Verdicts {
  import opened Bytes
  import opened OpenFlow
  import opened MsgCheck
  import opened MessageEndings
  import opened ErrorMaps

  // ---------- parts of messages ----------

  /** A whole message of the given type, and of a length within the bounds. */
  ghost predicate Fits(b: Buffer, kind: byte, least: nat, most: nat) {
    && b.length >= 8 && b.data(0) == 1 && b.data(1) == kind
    && At16(b.data, 2) == b.length && least <= b.length <= most
  }

  lemma HeaderVerdict(b: Buffer, kind: byte, least: nat, most: nat)
    requires kind <= 21
    ensures var ret, length := ValidateHeader(b, kind, least, most), At16(b.data, 2);
            && (b.length < 8 ==> ret == -58)
            && (b.length >= 8 ==>
                  && (b.data(0) != 1 ==> ret == -60)
                  && (b.data(0) == 1 && b.data(1) > 21 ==> ret == -55)
                  && (b.data(0) == 1 && b.data(1) <= 21 && b.data(1) != kind ==> ret == -56)
                  && (b.data(0) == 1 && b.data(1) == kind ==>
                        && (length > most ==> ret == -57)
                        && (length < least && length <= most ==> ret == -58)
                        && (least <= length <= most && length < b.length ==> ret == -57)
                        && (least <= length <= most && length > b.length ==> ret == -58)
                        && (least <= length <= most && length == b.length ==> ret == 0)))
            && (ret == 0 <==> Fits(b, kind, least, most)) && ret <= 0
  {
    hide At16;
  }

  lemma PortVerdict(port: u16)
    ensures ValidatePhyPortNo(port) == if port == 0 || 0xff00 < port < 0xfff8 then -52 else 0
  {
  }

  /** The match at at: its wildcards, VLAN id, VLAN priority and TOS, in this order. */
  lemma MatchVerdict(m: Memory, at: nat)
    ensures var ret, vid := ValidateMatch(NtohMatchFields(m, at)), At16(m, at + 18);
            var goodVid := vid <= 0x0fff || vid == 0xffff;
            && (At32(m, at) >= 0x40_0000 ==> ret == -45)
            && (At32(m, at) < 0x40_0000 && !goodVid ==> ret == -44)
            && (At32(m, at) < 0x40_0000 && goodVid && m(at + 20) > 7 ==> ret == -43)
            && (At32(m, at) < 0x40_0000 && goodVid && m(at + 20) <= 7 ==>
                  ret == if m(at + 24) % 4 != 0 then -42 else 0)
  {
    hide At16, At32;
  }

  /** The action at at. */
  lemma ActionVerdict(m: Memory, at: nat)
    ensures var ret, kind, len, arg := ValidateAction(m, at), At16(m, at), At16(m, at + 2), At16(m, at + 4);
            var exact := if kind == 4 || kind == 5 || kind == 11 then 16 else 8;
            && (len < 8 ==> ret == -36)
            && (len >= 8 && 11 < kind < 0xffff ==> ret == -35)
            && (kind <= 11 && 8 <= len < exact ==> ret == -33 + 2 * kind)
            && (kind <= 11 && len > exact ==> ret == -32 + 2 * kind)
            && (len == exact && (kind == 0 || kind == 11) ==>
                  ret == if arg == 0 || 0xff00 < arg < 0xfff8 then -52 else 0)
            && (len == exact && kind == 1 ==> ret == if 0x0fff < arg < 0xffff then -44 else 0)
            && (len == exact && kind == 2 ==> ret == if m(at + 4) > 7 then -43 else 0)
            && (len == exact && kind == 8 ==> ret == if m(at + 4) % 4 != 0 then -42 else 0)
            && (len == exact && (3 <= kind <= 7 || kind == 9 || kind == 10) ==> ret == 0)
            && (len >= 8 && kind == 0xffff ==> ret == 0)
  {
    hide At16;
  }

  /** The property at at. */
  lemma PropertyVerdict(m: Memory, at: nat)
    ensures var ret, kind, len := ValidateQueueProperty(m, at), At16(m, at), At16(m, at + 2);
            && (len < 8 || (kind == 1 && len < 16) ==> ret == -39)
            && ((kind == 0 && len > 8) || (kind == 1 && len > 16) ==> ret == -38)
            && (kind > 1 && len >= 8 ==> ret == -37)
            && ((kind == 0 && len == 8) || (kind == 1 && len == 16) ==> ret == 0)
  {
    hide At16;
  }

  // ---------- the walk over actions, and over queue properties ----------

  /** Where following k lengths leads, in 16 bits. */
  ghost function OffsetAt(m: Memory, head: nat, offset: u16, k: nat): u16
    decreases k
  {
    if k == 0 then offset else OffsetAt(m, head, (offset as int + At16(m, head + offset + 2)) % 0x1_0000, k - 1)
  }

  /**
   The walk stops at the first offset that is not below length, with 0, or at which the check fails, with its code; if
   there is none among those granted, it is still running.
   */
  lemma {:induction false} WalkVerdict(check: (Memory, nat) -> int, m: Memory, head: nat, length: u16, offset: u16,
                                       rounds: nat) returns (k: nat)
    ensures k <= rounds
    ensures forall j :: 0 <= j < k ==>
              OffsetAt(m, head, offset, j) < length && check(m, head + OffsetAt(m, head, offset, j)) >= 0
    ensures var at := OffsetAt(m, head, offset, k);
            && (k < rounds ==> at >= length || check(m, head + at) < 0)
            && Walk(check, m, head, length, offset, rounds)
               == if at >= length then Done(0) else if k < rounds then Done(check(m, head + at)) else Running
    decreases rounds
  {
    hide At16, Add16, OffsetAt;
    OffsetStart(m, head, offset);
    if offset >= length || rounds == 0 || check(m, head + offset) < 0 {
      k := 0;
    } else {
      var next := Add16(offset, At16(m, head + offset + 2));
      k := WalkVerdict(check, m, head, length, next, rounds - 1);
      k := k + 1;
      forall j | 0 < j <= k ensures OffsetAt(m, head, offset, j) == OffsetAt(m, head, next, j - 1) {
        OffsetNext(m, head, offset, j);
      }
    }
  }

  lemma OffsetStart(m: Memory, head: nat, offset: u16)
    ensures OffsetAt(m, head, offset, 0) == offset
  {
  }

  lemma OffsetNext(m: Memory, head: nat, offset: u16, j: nat)
    requires j > 0
    ensures OffsetAt(m, head, offset, j) == OffsetAt(m, head, Add16(offset, At16(m, head + offset + 2)), j - 1)
  {
    hide At16;
  }

  // ---------- packet-out and flow-mod ----------

  /** The fields of a flow-mod that are checked before its actions. */
  lemma FlowModFieldsVerdict(m: Memory)
    ensures var ret, command, outPort := ValidateFlowModFields(m), At16(m, 56), At16(m, 68);
            var match' := ValidateMatch(NtohMatchFields(m, 8));
            var exact := At32(m, 8) == 0 && At16(m, 62) != 0xffff;
            var deletes := command == 3 || command == 4;
            var badPort := deletes && (outPort == 0 || 0xff00 < outPort < 0xfff8);
            && (match' < 0 ==> ret == match')
            && (match' == 0 && command > 4 ==> ret == -1)
            && (match' == 0 && command <= 4 && exact ==> ret == -6)
            && (match' == 0 && command <= 4 && !exact && badPort ==> ret == -52)
            && (match' == 0 && command <= 4 && !exact && !badPort ==> ret == if At16(m, 70) > 7 then -5 else 0)
  {
    hide At16, At32, ValidateMatch;
    MatchFits(m, 8);
  }

  lemma MatchFits(m: Memory, at: nat)
    ensures ValidateMatch(NtohMatchFields(m, at)) <= 0
    ensures ValidateMatch(NtohMatchFields(m, at)) == 0 ==> At32(m, at) < 0x40_0000
    ensures At32(m, at) < 0x40_0000 ==> At32(m, at) % 0x40_0000 == At32(m, at)
  {
    hide At16, At32;
  }

  /** A packet-out: its header, its port, and then the actions it says it has. */
  lemma PacketOutVerdict(b: Buffer, rounds: nat)
    ensures var result, port := ValidatePacketOut(b, rounds), At16(b.data, 12);
            var badPort := port == 0 || 0xff00 < port < 0xfff8;
            && (!Fits(b, 13, 16, 0xffff) ==> result == Done(ValidateHeader(b, 13, 16, 0xffff)))
            && (Fits(b, 13, 16, 0xffff) && badPort ==> result == Done(-52))
            && (Fits(b, 13, 16, 0xffff) && !badPort ==>
                  result == Walk(ValidateAction, b.data, 16, At16(b.data, 14), 0, rounds))
  {
    hide At16, ValidateHeader, Walk;
    HeaderVerdict(b, 13, 16, 0xffff);
    EmptyWalk(b.data, 16, rounds);
  }

  lemma EmptyWalk(m: Memory, head: nat, rounds: nat)
    ensures Walk(ValidateAction, m, head, 0, 0, rounds) == Done(0)
  {
  }

  /** A flow-mod: its header, its fields, and then the actions that follow them. */
  lemma FlowModVerdict(b: Buffer, rounds: nat)
    ensures var result, fields := ValidateFlowMod(b, rounds), ValidateFlowModFields(b.data);
            && (!Fits(b, 14, 72, 0xffff) ==> result == Done(ValidateHeader(b, 14, 72, 0xffff)))
            && (Fits(b, 14, 72, 0xffff) && fields < 0 ==> result == Done(fields))
            && (Fits(b, 14, 72, 0xffff) && fields >= 0 ==>
                  result == Walk(ValidateAction, b.data, 72, b.length - 72, 0, rounds))
  {
    hide At16, ValidateHeader, Walk, ValidateFlowModFields, Sub16;
    HeaderVerdict(b, 14, 72, 0xffff);
    EmptyWalk(b.data, 72, rounds);
  }

  // ---------- flow statistics ----------

  /** A flow record: its match, its priority, and then its actions, as many as its length says, modulo 65536. */
  lemma FlowStatsVerdict(m: Memory, at: nat, rounds: nat)
    ensures var result, match' := FlowStatsCode(m, at, rounds), ValidateMatch(NtohMatchFields(m, at + 4));
            var exact := At32(m, at + 4) == 0 && At16(m, at + 52) != 0xffff;
            && (match' < 0 ==> result == Done(match'))
            && (match' == 0 && exact ==> result == Done(-6))
            && (match' == 0 && !exact && At16(m, at) >= 88 ==>
                  result == Walk(ValidateAction, m, at + 88, At16(m, at) - 88, 0, rounds))
            && (match' == 0 && !exact && At16(m, at) < 88 ==>
                  result == Walk(ValidateAction, m, at + 88, At16(m, at) + 65448, 0, rounds))
  {
    hide At16, At32, ValidateMatch, Walk, Sub16;
    MatchFits(m, at + 4);
    Less(At16(m, at));
    EmptyWalk(m, at + 88, rounds);
  }

  lemma Less(len: u16)
    ensures Sub16(len, 88) == if len >= 88 then len - 88 else len + 65448
  {
  }

  /** A reply: its header, its flags, and then its records. */
  lemma FlowStatsReplyVerdict(b: Buffer, records: nat, rounds: nat)
    ensures var result := FlowStatsReplyCode(b, records, rounds);
            && (!Fits(b, 17, 12, 0xffff) ==> result == Done(ValidateHeader(b, 17, 12, 0xffff)))
            && (Fits(b, 17, 12, 0xffff) && At16(b.data, 10) > 1 ==> result == Done(-7))
            && (Fits(b, 17, 12, 0xffff) && At16(b.data, 10) <= 1 ==>
                  result == FlowWalk(b.data, 12, b.length - 12, records, rounds))
  {
    hide At16, ValidateHeader, FlowWalk, Sub16;
    HeaderVerdict(b, 17, 12, 0xffff);
  }

  // ---------- queues ----------

  /** A queue: its length, and then its properties. */
  lemma PacketQueueVerdict(m: Memory, at: nat, rounds: nat)
    ensures var result, len := ValidatePacketQueue(m, at, rounds), At16(m, at + 4);
            && (len < 16 ==> result == Done(-40))
            && (len >= 16 ==> result == Walk(ValidateQueueProperty, m, at + 8, len - 8, 0, rounds))
  {
    hide At16, Walk, Sub16;
  }

  ghost predicate QueuePassed(m: Memory, at: nat, rounds: nat) {
    ValidatePacketQueue(m, at, rounds).Done? && ValidatePacketQueue(m, at, rounds).ret >= 0
  }

  /** The validating loop returns what the first queue that does not pass gives, and 0 if all n do. */
  lemma {:induction false} QueuesVerdict(m: Memory, at: nat, n: nat, rounds: nat) returns (k: nat)
    ensures k <= n && forall j :: 0 <= j < k ==> QueuePassed(m, QueueAt(m, at, j), rounds)
    ensures k == n ==> QueuesCode(m, at, n, rounds) == Done(0)
    ensures k < n ==> !QueuePassed(m, QueueAt(m, at, k), rounds)
    ensures k < n ==> QueuesCode(m, at, n, rounds) == ValidatePacketQueue(m, QueueAt(m, at, k), rounds)
    decreases n
  {
    hide At16, ValidatePacketQueue;
    if n == 0 || !QueuePassed(m, at, rounds) {
      k := 0;
    } else {
      var next := at + At16(m, at + 4);
      k := QueuesVerdict(m, next, n - 1, rounds);
      k := k + 1;
      forall j | 0 < j <= k ensures QueueAt(m, at, j) == QueueAt(m, next, j - 1) {
      }
    }
  }

  /** A reply: its header, its port, what the counting loop leaves, and then its queues. */
  lemma QueueReplyVerdict(b: Buffer, rounds: nat)
    ensures var result, port := QueueReplyCode(b, rounds), At16(b.data, 8);
            var badPort := port == 0 || 0xff00 < port < 0xfff8;
            && (!Fits(b, 21, 24, 0xffff) ==> result == Done(ValidateHeader(b, 21, 24, 0xffff)))
            && (Fits(b, 21, 24, 0xffff) && badPort ==> result == Done(-52))
            && (Fits(b, 21, 24, 0xffff) && !badPort ==>
                  var count := CountQueues(b.data, 16, b.length - 16, 0, rounds);
                  && (count.Counting? ==> result == Running)
                  && (count.Counted? && count.left != 0 ==> result == Done(-59))
                  && (count.Counted? && count.left == 0 ==> result == QueuesCode(b.data, 16, count.queues, rounds)))
  {
    hide At16, ValidateHeader, CountQueues, QueuesCode, Sub16;
    HeaderVerdict(b, 21, 24, 0xffff);
  }

  // ---------- the other messages ----------

  /** Messages of which no more than the header is looked at. */
  lemma HeaderOnlyVerdict(b: Buffer, rounds: nat)
    requires Plain(b.data(1))
    ensures var result, kind := ValidateOpenflowMessage(b, rounds), b.data(1);
            && (kind == 0 || kind == 5 || kind == 7 || kind == 18 || kind == 19 ==>
                  result == Done(ValidateHeader(b, kind, 8, 8)) && (result == Done(0) <==> Fits(b, kind, 8, 8)))
            && (kind == 1 || kind == 4 ==>
                  && result == Done(ValidateHeader(b, kind, 12, 0xffff))
                  && (result == Done(0) <==> Fits(b, kind, 12, 0xffff)))
            && (kind == 2 || kind == 3 ==>
                  && result == Done(ValidateHeader(b, kind, 8, 0xffff))
                  && (result == Done(0) <==> Fits(b, kind, 8, 0xffff)))
  {
    hide At16, ValidateHeader;
    var kind := b.data(1);
    if kind <= 21 {
      HeaderVerdict(b, kind, 8, 8);
      HeaderVerdict(b, kind, 12, 0xffff);
      HeaderVerdict(b, kind, 8, 0xffff);
    }
  }

  lemma SetConfigVerdict(b: Buffer, rounds: nat)
    requires b.data(1) == 9
    ensures var result := ValidateOpenflowMessage(b, rounds);
            && (!Fits(b, 9, 12, 12) ==> result == Done(ValidateHeader(b, 9, 12, 12)))
            && (Fits(b, 9, 12, 12) ==> result == Done(if At16(b.data, 8) > 3 then -48 else 0))
  {
    hide At16, ValidateHeader;
    HeaderVerdict(b, 9, 12, 12);
  }

  /** The port, then the configuration, the mask and the features to advertise. */
  lemma PortModVerdict(b: Buffer, rounds: nat)
    requires b.data(1) == 15
    ensures var result, port := ValidateOpenflowMessage(b, rounds), At16(b.data, 8);
            var goodPort := 1 <= port <= 0xff00 || port == 0xfffe;
            var config, mask, advertise := At32(b.data, 16), At32(b.data, 20), At32(b.data, 24);
            && (!Fits(b, 15, 32, 32) ==> result == Done(ValidateHeader(b, 15, 32, 32)))
            && (Fits(b, 15, 32, 32) && !goodPort ==> result == Done(-52))
            && (Fits(b, 15, 32, 32) && goodPort && config >= 0x80 ==> result == Done(-51))
            && (Fits(b, 15, 32, 32) && goodPort && config < 0x80 && mask >= 0x80 ==> result == Done(-4))
            && (Fits(b, 15, 32, 32) && goodPort && config < 0x80 && mask < 0x80 ==>
                  result == Done(if advertise >= 0x80 then -49 else 0))
  {
    hide At16, At32, ValidateHeader;
    HeaderVerdict(b, 15, 32, 32);
  }

  lemma QueueConfigRequestVerdict(b: Buffer, rounds: nat)
    requires b.data(1) == 20
    ensures var result, port := ValidateOpenflowMessage(b, rounds), At16(b.data, 8);
            && (!Fits(b, 20, 12, 12) ==> result == Done(ValidateHeader(b, 20, 12, 12)))
            && (Fits(b, 20, 12, 12) ==> result == Done(if port == 0 || 0xff00 < port < 0xfff8 then -52 else 0))
  {
    hide At16, ValidateHeader;
    HeaderVerdict(b, 20, 12, 12);
  }

  /**
   A statistics request: its type, its header, its flags, and then, for flows and aggregates, the match and the port,
   and for ports and queues the port.
   */
  lemma StatsRequestVerdict(b: Buffer, rounds: nat)
    requires b.data(1) == 16
    ensures var result, kind := ValidateOpenflowMessage(b, rounds), At16(b.data, 8);
            var match', port, outPort := ValidateMatch(NtohMatchFields(b.data, 12)), At16(b.data, 12), At16(b.data, 54);
            var least := if kind == 0 || kind == 3 then 12 else if kind == 1 || kind == 2 then 56
                         else if kind == 0xffff then 16 else 20;
            var most := if kind == 0xffff then 0xffff else least;
            var good := Fits(b, 16, least, most) && At16(b.data, 10) == 0;
            && (5 < kind < 0xffff ==> result == Done(-8))
            && ((kind <= 5 || kind == 0xffff) && !Fits(b, 16, least, most) ==>
                  result == Done(ValidateHeader(b, 16, least, most)))
            && ((kind <= 5 || kind == 0xffff) && Fits(b, 16, least, most) && !good ==> result == Done(-2))
            && (good && (kind == 0 || kind == 3 || kind == 0xffff) ==> result == Done(0))
            && (good && (kind == 1 || kind == 2) && match' < 0 ==> result == Done(match'))
            && (good && (kind == 1 || kind == 2) && match' >= 0 ==>
                  result == Done(if outPort == 0 || 0xff00 < outPort < 0xfff8 then -52 else 0))
            && (good && kind == 4 ==>
                  result == Done(if 1 <= port <= 0xff00 || port == 0xfffe || port == 0xffff then 0 else -52))
            && (good && kind == 5 ==> result == Done(if port == 0 || 0xff00 < port < 0xfff8 then -52 else 0))
  {
    hide At16, ValidateHeader, ValidateMatch, NtohMatchFields;
    HeaderVerdict(b, 16, 12, 12);
    HeaderVerdict(b, 16, 56, 56);
    HeaderVerdict(b, 16, 20, 20);
    HeaderVerdict(b, 16, 16, 0xffff);
  }
}
