/**
 The loops of lib/cc_of_msg_check.c on bytes that nobody has built: when they end, and what it means that they accept.
 */
module Endings {
  import opened Bytes
  import opened OpenFlow
  import opened MsgCheck
  import opened Walks

  // ---------- the walks that end ----------

  ghost predicate Ends(check: (Memory, nat) -> int, m: Memory, head: nat, length: u16) {
    exists rounds: nat :: Walk(check, m, head, length, 0, rounds).Done?
  }

  /** A walk that is still running has visited an offset in each round and is about to visit another. */
  lemma {:induction false} StillRunning(check: (Memory, nat) -> int, m: Memory, head: nat, length: u16, offset: u16,
                                        rounds: nat)
    requires Walk(check, m, head, length, offset, rounds) == Running
    ensures |Offsets(check, m, head, length, offset, rounds + 1)| == rounds + 1
    decreases rounds
  {
    hide Add16, At16;
    if rounds > 0 {
      StillRunning(check, m, head, length, Add16(offset, At16(m, head + offset + 2)), rounds - 1);
    }
  }

  lemma {:induction false} OffsetsBelow(check: (Memory, nat) -> int, m: Memory, head: nat, length: u16, offset: u16,
                                        rounds: nat)
    ensures forall o :: o in Offsets(check, m, head, length, offset, rounds) ==> o < length
    decreases rounds
  {
    hide Add16, At16;
    if offset < length && rounds > 0 {
      OffsetsBelow(check, m, head, length, Add16(offset, At16(m, head + offset + 2)), rounds - 1);
    }
  }

  /** From the i-th offset that it visits on, a walk is the walk from there. */
  lemma {:induction false} Resumes(check: (Memory, nat) -> int, m: Memory, head: nat, length: u16, offset: u16,
                                   rounds: nat, i: nat, more: nat)
    requires i < |Offsets(check, m, head, length, offset, rounds)|
    ensures i <= rounds
    ensures var o := Offsets(check, m, head, length, offset, rounds)[i];
            && Offsets(check, m, head, length, offset, rounds)[i..] == Offsets(check, m, head, length, o, rounds - i)
            && Walk(check, m, head, length, offset, i + more) == Walk(check, m, head, length, o, more)
    decreases rounds
  {
    hide Add16, At16;
    if i > 0 {
      var next := Add16(offset, At16(m, head + offset + 2));
      Resumes(check, m, head, length, next, rounds - 1, i - 1, more);
      assert Offsets(check, m, head, length, offset, rounds)
          == [offset] + Offsets(check, m, head, length, next, rounds - 1);
    }
  }

  /** An offset that the walk comes back to after some rounds is never left behind. */
  lemma {:induction false} Circles(check: (Memory, nat) -> int, m: Memory, head: nat, length: u16, offset: u16,
                                   round: nat, rounds: nat)
    requires offset < length && round > 0
    requires forall more: nat ::
               Walk(check, m, head, length, offset, round + more) == Walk(check, m, head, length, offset, more)
    ensures Walk(check, m, head, length, offset, rounds) == Running
    decreases rounds
  {
    if rounds >= round {
      Circles(check, m, head, length, offset, round, rounds - round);
      assert rounds == round + (rounds - round);
    } else if Walk(check, m, head, length, offset, rounds).Done? {
      MoreRounds(check, m, head, length, offset, rounds, round);
      assert Walk(check, m, head, length, offset, round + 0) == Walk(check, m, head, length, offset, 0);
    }
  }

  ghost predicate Recurs(os: seq<u16>) {
    exists i, j :: 0 <= i < j < |os| && os[i] == os[j]
  }

  lemma ComesBack(check: (Memory, nat) -> int, m: Memory, head: nat, length: u16, rounds: nat, i: nat, j: nat,
                  more: nat)
    requires i < j < |Offsets(check, m, head, length, 0, rounds)|
    requires Offsets(check, m, head, length, 0, rounds)[i] == Offsets(check, m, head, length, 0, rounds)[j]
    ensures var o := Offsets(check, m, head, length, 0, rounds)[i];
            Walk(check, m, head, length, o, j - i + more) == Walk(check, m, head, length, o, more)
  {
    hide Offsets, Walk;
    var os := Offsets(check, m, head, length, 0, rounds);
    Resumes(check, m, head, length, 0, rounds, i, 0);
    assert os[i..][j - i] == os[j];
    Resumes(check, m, head, length, os[i], rounds - i, j - i, more);
  }

  lemma RecursNeverEnds(check: (Memory, nat) -> int, m: Memory, head: nat, length: u16, rounds: nat, more: nat)
    requires Recurs(Offsets(check, m, head, length, 0, rounds))
    ensures Walk(check, m, head, length, 0, more) == Running
  {
    hide Offsets, Walk;
    var os := Offsets(check, m, head, length, 0, rounds);
    var i, j :| 0 <= i < j < |os| && os[i] == os[j];
    OffsetsBelow(check, m, head, length, 0, rounds);
    var round := j - i;
    forall k: nat
      ensures Walk(check, m, head, length, os[i], round + k) == Walk(check, m, head, length, os[i], k)
    {
      ComesBack(check, m, head, length, rounds, i, j, k);
    }
    assert os[i] in os;
    Circles(check, m, head, length, os[i], round, more);
    Resumes(check, m, head, length, 0, rounds, i, more);
    if Walk(check, m, head, length, 0, more).Done? {
      MoreRounds(check, m, head, length, 0, more, i + more);
    }
  }

  ghost function Below(bound: nat): (s: set<int>)
    ensures |s| == bound && forall x :: x in s <==> 0 <= x < bound
  {
    if bound == 0 then {} else Below(bound - 1) + {bound - 1}
  }

  lemma {:induction false} Elements(os: seq<u16>) returns (s: set<int>)
    requires !Recurs(os)
    ensures |s| == |os| && forall x :: x in s <==> x in os
  {
    if os == [] {
      s := {};
    } else {
      var last := |os| - 1;
      assert !Recurs(os[..last]);
      s := Elements(os[..last]);
      assert os == os[..last] + [os[last]];
      s := s + {os[last]};
    }
  }

  /** Below a bound only so many offsets are distinct. */
  lemma Pigeonhole(os: seq<u16>, bound: nat)
    requires (forall o :: o in os ==> o < bound) && !Recurs(os)
    ensures |os| <= bound
  {
    var s := Elements(os);
    assert Below(bound) == s + (Below(bound) - s);
  }

  /**
   A walk over length bytes ends exactly if it ends within length rounds, and exactly if none of the first length + 1
   offsets that it visits recurs.
   */
  lemma EndsUnlessRecurs(check: (Memory, nat) -> int, m: Memory, head: nat, length: u16)
    ensures Ends(check, m, head, length) <==> Walk(check, m, head, length, 0, length).Done?
    ensures Ends(check, m, head, length) <==> !Recurs(Offsets(check, m, head, length, 0, length as int + 1))
  {
    hide Walk, Offsets;
    if Walk(check, m, head, length, 0, length) == Running {
      StillRunning(check, m, head, length, 0, length);
      OffsetsBelow(check, m, head, length, 0, length as int + 1);
      if !Recurs(Offsets(check, m, head, length, 0, length as int + 1)) {
        Pigeonhole(Offsets(check, m, head, length, 0, length as int + 1), length);
      }
    }
    if Recurs(Offsets(check, m, head, length, 0, length as int + 1)) {
      forall rounds: nat ensures Walk(check, m, head, length, 0, rounds) == Running {
        RecursNeverEnds(check, m, head, length, length as int + 1, rounds);
      }
    }
  }

  lemma {:induction false} WalkCodes(check: (Memory, nat) -> int, m: Memory, head: nat, length: u16, offset: u16,
                                     rounds: nat)
    ensures var o := Walk(check, m, head, length, offset, rounds); o.Done? ==> o.ret <= 0
    decreases rounds
  {
    hide Add16, At16;
    if offset < length && rounds > 0 {
      WalkCodes(check, m, head, length, Add16(offset, At16(m, head + offset + 2)), rounds - 1);
    }
  }

  // ---------- walks whose offset never wraps ----------

  /** None of the elements visited reaches beyond what 16 bits can count. */
  ghost predicate NoWrap(check: (Memory, nat) -> int, m: Memory, head: nat, os: seq<u16>) {
    forall o :: o in os && check(m, head + o) >= 0 ==> o as int + At16(m, head + o + 2) <= USHRT_MAX
  }

  /** What passes the check is at least 8 bytes long. */
  ghost predicate LongEnough(check: (Memory, nat) -> int) {
    forall m: Memory, at: nat {:trigger check(m, at)} :: check(m, at) >= 0 ==> At16(m, at + 2) >= 8
  }

  lemma ChecksLongEnough()
    ensures LongEnough(ValidateAction) && LongEnough(ValidateQueueProperty)
  {
    forall m: Memory, at: nat | ValidateAction(m, at) >= 0 ensures At16(m, at + 2) >= 8 {
      ActionAccepted(FieldsAt(m, at));
    }
  }

  /** A walk that does not wrap moves on by at least 8 bytes a round, so it ends. */
  lemma {:induction false} EndsWithoutWrap(check: (Memory, nat) -> int, m: Memory, head: nat, length: u16, offset: u16,
                                           rounds: nat)
    requires LongEnough(check) && offset as int + 8 * rounds >= length
    requires NoWrap(check, m, head, Offsets(check, m, head, length, offset, rounds))
    ensures Walk(check, m, head, length, offset, rounds).Done?
    decreases rounds
  {
    hide Add16, At16;
    if offset < length && check(m, head + offset) >= 0 {
      var next := Add16(offset, At16(m, head + offset + 2));
      var os := Offsets(check, m, head, length, next, rounds - 1);
      assert Offsets(check, m, head, length, offset, rounds) == [offset] + os;
      assert offset in [offset] + os && forall o :: o in os ==> o in [offset] + os;
      EndsWithoutWrap(check, m, head, length, next, rounds - 1);
    }
  }

  function Ceil8(length: u16): nat {
    (length as int + 7) / 8
  }

  /** At every multiple of 8 below length, what passes the check is 8 or 16 bytes long. */
  ghost predicate Short(check: (Memory, nat) -> int, m: Memory, head: nat, length: u16) {
    forall at: nat {:trigger check(m, at)} ::
      head <= at < head + length && (at - head) % 8 == 0 && check(m, at) >= 0 ==>
        At16(m, at + 2) == 8 || At16(m, at + 2) == 16
  }

  lemma ShortAt(check: (Memory, nat) -> int, m: Memory, head: nat, length: u16, offset: u16)
    requires Short(check, m, head, length) && offset % 8 == 0 && offset < length && check(m, head + offset) >= 0
    ensures At16(m, head + offset + 2) == 8 || At16(m, head + offset + 2) == 16
    ensures Add16(offset, At16(m, head + offset + 2)) % 8 == 0
  {
    hide At16;
    assert (head + offset - head) % 8 == 0;
  }

  /** The offset of such a walk stays a multiple of 8. */
  lemma {:induction false} AlignedOffsets(check: (Memory, nat) -> int, m: Memory, head: nat, length: u16, offset: u16,
                                          rounds: nat)
    requires Short(check, m, head, length) && offset % 8 == 0
    ensures forall o :: o in Offsets(check, m, head, length, offset, rounds) ==> o % 8 == 0
    decreases rounds
  {
    hide Add16, At16, Short;
    if offset < length && rounds > 0 && check(m, head + offset) >= 0 {
      ShortAt(check, m, head, length, offset);
      AlignedOffsets(check, m, head, length, Add16(offset, At16(m, head + offset + 2)), rounds - 1);
    }
  }

  /** Over up to 65520 bytes it never wraps. */
  lemma AlignedNoWrap(check: (Memory, nat) -> int, m: Memory, head: nat, length: u16, rounds: nat)
    requires Short(check, m, head, length) && length <= 65520
    ensures NoWrap(check, m, head, Offsets(check, m, head, length, 0, rounds))
  {
    hide Offsets, At16, Short, Add16;
    AlignedOffsets(check, m, head, length, 0, rounds);
    OffsetsBelow(check, m, head, length, 0, rounds);
    forall o | o in Offsets(check, m, head, length, 0, rounds) && check(m, head + o) >= 0
      ensures o as int + At16(m, head + o + 2) <= USHRT_MAX
    {
      ShortAt(check, m, head, length, o);
    }
  }

  lemma EndsInTime(check: (Memory, nat) -> int, m: Memory, head: nat, length: u16, rounds: nat)
    requires LongEnough(check) && Short(check, m, head, length) && length <= 65520
    ensures Walk(check, m, head, length, 0, Ceil8(length)).Done?
    ensures var os := Offsets(check, m, head, length, 0, rounds);
            NoWrap(check, m, head, os) && forall o :: o in os ==> o % 8 == 0
  {
    hide LongEnough, Short, NoWrap, Walk, Offsets;
    AlignedOffsets(check, m, head, length, 0, rounds);
    AlignedNoWrap(check, m, head, length, rounds);
    AlignedNoWrap(check, m, head, length, Ceil8(length));
    EndsWithoutWrap(check, m, head, length, 0, Ceil8(length));
  }

  // ---------- walks that wrap and never end ----------

  /** Memory filled with elements of 16 bytes each, whose type has the given low byte. */
  function Sixteens(kind: byte): Memory {
    (at: nat) => if at % 16 == 1 then kind else if at % 16 == 3 then 16 else 0
  }

  lemma SixteensRead(kind: byte, at: nat)
    requires at % 16 == 0
    ensures At16(Sixteens(kind), at) == kind && At16(Sixteens(kind), at + 2) == 16
  {
  }

  lemma NextSixteen(offset: u16)
    requires offset % 16 == 0
    ensures Add16(offset, 16) % 16 == 0 && Add16(offset, 16) <= 65520
  {
  }

  /** Beyond 65520 bytes the offset wraps around to 0. */
  lemma {:induction false} NeverEnds(check: (Memory, nat) -> int, kind: byte, length: u16, offset: u16, rounds: nat)
    requires forall at: nat {:trigger check(Sixteens(kind), at)} :: at % 16 == 0 ==> check(Sixteens(kind), at) == 0
    requires length > 65520 && offset % 16 == 0 && offset <= 65520
    ensures Walk(check, Sixteens(kind), 0, length, offset, rounds) == Running
    decreases rounds
  {
    hide At16, Sixteens, Add16;
    if rounds > 0 {
      SixteensRead(kind, offset);
      NextSixteen(offset);
      NeverEnds(check, kind, length, Add16(offset, 16), rounds - 1);
    }
  }

  /** No multiple of 8 below length is where a vendor action starts. */
  ghost predicate NoVendor(m: Memory, head: nat, length: u16) {
    forall at: nat {:trigger At16(m, at)} :: head <= at < head + length && (at - head) % 8 == 0 ==>
              At16(m, at) != OFPAT_VENDOR
  }

  lemma NoVendorIsShort(m: Memory, head: nat, length: u16)
    requires NoVendor(m, head, length)
    ensures Short(ValidateAction, m, head, length)
  {
    hide At16, ValidateActionFields;
    forall at: nat | head <= at < head + length && (at - head) % 8 == 0 && ValidateAction(m, at) >= 0
      ensures At16(m, at + 2) == 8 || At16(m, at + 2) == 16
    {
      ActionAccepted(FieldsAt(m, at));
    }
  }

  lemma SixteensPass(at: nat)
    requires at % 16 == 0
    ensures ValidateAction(Sixteens(OFPAT_SET_DL_SRC), at) == 0
    ensures ValidateQueueProperty(Sixteens(OFPQT_MIN_RATE), at) == 0
  {
    hide At16, Sixteens;
    SixteensRead(OFPAT_SET_DL_SRC, at);
    SixteensRead(OFPQT_MIN_RATE, at);
  }

  /**
   With no vendor action validate_actions ends within ceil(length / 8) rounds on all bytes exactly if length is at most
   65520.
   */
  lemma EndsWithin(length: u16)
    ensures length <= 65520
       <==> forall m: Memory, head: nat :: NoVendor(m, head, length) ==>
                 Walk(ValidateAction, m, head, length, 0, Ceil8(length)).Done?
    ensures length <= 65520
       <==> forall m: Memory, head: nat :: NoVendor(m, head, length) ==> Ends(ValidateAction, m, head, length)
  {
    hide ValidateAction, Sixteens, At16, LongEnough, Short, NoVendor, Walk;
    if length <= 65520 {
      ChecksLongEnough();
      forall m: Memory, head: nat | NoVendor(m, head, length)
        ensures Walk(ValidateAction, m, head, length, 0, Ceil8(length)).Done?
        ensures Ends(ValidateAction, m, head, length)
      {
        NoVendorIsShort(m, head, length);
        EndsInTime(ValidateAction, m, head, length, 0);
      }
    } else {
      SixteensHaveNoVendor(length);
      forall at: nat | at % 16 == 0 ensures ValidateAction(Sixteens(OFPAT_SET_DL_SRC), at) == 0 {
        SixteensPass(at);
      }
      var m := Sixteens(OFPAT_SET_DL_SRC);
      forall rounds: nat ensures Walk(ValidateAction, m, 0, length, 0, rounds) == Running {
        NeverEnds(ValidateAction, OFPAT_SET_DL_SRC, length, 0, rounds);
      }
      assert !Walk(ValidateAction, m, 0, length, 0, Ceil8(length)).Done?;
      assert !Ends(ValidateAction, m, 0, length);
    }
  }

  lemma SixteensHaveNoVendor(length: u16)
    ensures NoVendor(Sixteens(OFPAT_SET_DL_SRC), 0, length)
  {
  }

  /** Properties of queues are 8 or 16 bytes long, so there validate_queue_properties ends exactly on as many bytes. */
  lemma PropertiesEndWithin(length: u16)
    ensures length <= 65520
       <==> forall m: Memory, head: nat :: Walk(ValidateQueueProperty, m, head, length, 0, Ceil8(length)).Done?
    ensures length <= 65520 <==> forall m: Memory, head: nat :: Ends(ValidateQueueProperty, m, head, length)
  {
    hide Sixteens, At16, LongEnough, Walk;
    if length <= 65520 {
      ChecksLongEnough();
      forall m: Memory, head: nat
        ensures Walk(ValidateQueueProperty, m, head, length, 0, Ceil8(length)).Done?
        ensures Ends(ValidateQueueProperty, m, head, length)
      {
        EndsInTime(ValidateQueueProperty, m, head, length, 0);
      }
    } else {
      forall at: nat | at % 16 == 0 ensures ValidateQueueProperty(Sixteens(OFPQT_MIN_RATE), at) == 0 {
        SixteensPass(at);
      }
      var m := Sixteens(OFPQT_MIN_RATE);
      forall rounds: nat ensures Walk(ValidateQueueProperty, m, 0, length, 0, rounds) == Running {
        NeverEnds(ValidateQueueProperty, OFPQT_MIN_RATE, length, 0, rounds);
      }
      assert !Walk(ValidateQueueProperty, m, 0, length, 0, Ceil8(length)).Done?;
      assert !Ends(ValidateQueueProperty, m, 0, length);
    }
  }

  /** Two actions of which the second, a vendor action, is as long as it takes for the offset to wrap around to 0. */
  const CIRCLE: Bytes := [0, 3, 0, 8, 0, 0, 0, 0, 255, 255, 255, 248, 0, 0, 0, 0]

  lemma CircleRead(m: Memory, head: nat)
    requires Holds(m, head, CIRCLE)
    ensures ValidateAction(m, head) == 0 && At16(m, head + 2) == 8
    ensures ValidateAction(m, head + 8) == 0 && At16(m, head + 10) == 65528
  {
    Held16(m, head, CIRCLE, 0);
    Held16(m, head, CIRCLE, 2);
    Held16(m, head, CIRCLE, 8);
    Held16(m, head, CIRCLE, 10);
  }

  lemma {:induction false} CircleNeverEnds(m: Memory, head: nat, length: u16, rounds: nat)
    requires Holds(m, head, CIRCLE) && length > 8
    ensures Walk(ValidateAction, m, head, length, 0, rounds) == Running
    ensures Walk(ValidateAction, m, head, length, 8, rounds) == Running
    decreases rounds
  {
    hide ValidateAction, Holds, At16;
    if rounds > 0 {
      CircleRead(m, head);
      CircleNeverEnds(m, head, length, rounds - 1);
    }
  }

  /** The memory that starts with x. */
  function MemoryOf(x: Bytes): Memory {
    (at: nat) => if at < |x| then x[at] else 0
  }

  /** With vendor actions, validate_actions ends on all bytes only if it ends after the first action. */
  lemma ActionsEnd(length: u16)
    ensures length <= 8 <==> forall m: Memory, head: nat :: Ends(ValidateAction, m, head, length)
  {
    hide ValidateAction, At16, CIRCLE;
    if length <= 8 {
      ChecksLongEnough();
      forall m: Memory, head: nat ensures Ends(ValidateAction, m, head, length) {
        assert Walk(ValidateAction, m, head, length, 0, 1).Done?;
      }
    } else {
      var m := MemoryOf(CIRCLE);
      forall rounds: nat ensures Walk(ValidateAction, m, 0, length, 0, rounds) == Running {
        CircleNeverEnds(m, 0, length, rounds);
      }
      assert !Ends(ValidateAction, m, 0, length);
    }
  }

  lemma BackToStart(check: (Memory, nat) -> int, m: Memory, head: nat, length: u16, rounds: nat, i: nat, k: nat)
    requires i < |Offsets(check, m, head, length, 0, rounds)|
    requires var o := Offsets(check, m, head, length, 0, rounds)[i];
             check(m, head + o) >= 0 && o as int + At16(m, head + o + 2) == 0x1_0000
    ensures Walk(check, m, head, length, 0, i + 1 + k) == Walk(check, m, head, length, 0, k)
    ensures 0 < length
  {
    hide Offsets, At16, Walk;
    var o := Offsets(check, m, head, length, 0, rounds)[i];
    OffsetsBelow(check, m, head, length, 0, rounds);
    assert o in Offsets(check, m, head, length, 0, rounds);
    Resumes(check, m, head, length, 0, rounds, i, 1 + k);
    assert i + (1 + k) == i + 1 + k;
    StepToStart(check, m, head, length, o, k);
  }

  /** A walk whose offset wraps to exactly 0 starts over, so it never ends. */
  lemma WrapsToStart(check: (Memory, nat) -> int, m: Memory, head: nat, length: u16, rounds: nat, i: nat, more: nat)
    requires i < |Offsets(check, m, head, length, 0, rounds)|
    requires var o := Offsets(check, m, head, length, 0, rounds)[i];
             check(m, head + o) >= 0 && o as int + At16(m, head + o + 2) == 0x1_0000
    ensures Walk(check, m, head, length, 0, more) == Running
  {
    hide Offsets, At16, Walk;
    var round := i + 1;
    BackToStart(check, m, head, length, rounds, i, 0);
    forall k: nat ensures Walk(check, m, head, length, 0, round + k) == Walk(check, m, head, length, 0, k) {
      BackToStart(check, m, head, length, rounds, i, k);
    }
    Circles(check, m, head, length, 0, round, more);
  }

  lemma StepToStart(check: (Memory, nat) -> int, m: Memory, head: nat, length: u16, o: u16, k: nat)
    requires check(m, head + o) >= 0 && o as int + At16(m, head + o + 2) == 0x1_0000
    ensures o < length ==> Walk(check, m, head, length, o, 1 + k) == Walk(check, m, head, length, 0, k)
  {
    hide At16;
  }

  lemma WrapIsExact(o: u16, len: u16, length: u16)
    requires o % 8 == 0 && o < length <= 65528 && (len == 8 || len == 16) && o as int + len > USHRT_MAX
    ensures o as int + len == 0x1_0000
  {
  }

  lemma WrappingNeverEnds(check: (Memory, nat) -> int, m: Memory, head: nat, length: u16, rounds: nat, i: nat,
                          more: nat)
    requires Short(check, m, head, length) && length <= 65528 && i < |Offsets(check, m, head, length, 0, rounds)|
    requires var o := Offsets(check, m, head, length, 0, rounds)[i];
             check(m, head + o) >= 0 && o as int + At16(m, head + o + 2) > USHRT_MAX
    ensures Walk(check, m, head, length, 0, more) == Running
  {
    hide Offsets, Walk, At16, Short, Add16, NoWrap;
    var o := Offsets(check, m, head, length, 0, rounds)[i];
    AlignedOffsets(check, m, head, length, 0, rounds);
    OffsetsBelow(check, m, head, length, 0, rounds);
    assert o in Offsets(check, m, head, length, 0, rounds);
    ShortAt(check, m, head, length, o);
    WrapIsExact(o, At16(m, head + o + 2), length);
    WrapsToStart(check, m, head, length, rounds, i, more);
  }

  /** Elements of 8 or 16 bytes can make the offset wrap only to 0, so a walk over them that ends has never wrapped. */
  lemma DoneIsStraight(check: (Memory, nat) -> int, m: Memory, head: nat, length: u16, rounds: nat)
    requires Short(check, m, head, length) && length <= 65528
    requires Walk(check, m, head, length, 0, rounds).Done?
    ensures NoWrap(check, m, head, Offsets(check, m, head, length, 0, rounds))
  {
    hide Offsets, Walk, At16, Short;
    var os := Offsets(check, m, head, length, 0, rounds);
    forall o | o in os && check(m, head + o) >= 0 ensures o as int + At16(m, head + o + 2) <= USHRT_MAX {
      var i :| 0 <= i < |os| && os[i] == o;
      if o as int + At16(m, head + o + 2) > USHRT_MAX {
        WrappingNeverEnds(check, m, head, length, rounds, i, rounds);
      }
    }
  }

  // ---------- what acceptance means ----------

  /**
   Elements that pass lie one after another from at on. They are as many as it takes to cover rest bytes, so only the
   last may reach beyond those, and together they are at most room bytes long.
   */
  ghost predicate Covers(code: Bytes -> int, kind: Kind, m: Memory, at: nat, rest: int, room: int, xs: seq<Bytes>) {
    && (forall i :: 0 <= i < |xs| ==> kind.Is(Big, xs[i]) && code(xs[i]) >= 0)
    && Holds(m, at, Flatten(xs)) && rest <= |Flatten(xs)| <= room
    && (xs != [] ==> |Flatten(xs[..|xs| - 1])| < rest)
  }

  lemma FlattenHead(x: Bytes, tail: seq<Bytes>)
    ensures Flatten([x] + tail) == x + Flatten(tail)
    ensures tail != [] ==> |Flatten(([x] + tail)[..|tail|])| == |x| + |Flatten(tail[..|tail| - 1])|
    ensures tail == [] ==> ([x] + tail)[..|tail|] == []
  {
    assert ([x] + tail)[1..] == tail;
    if tail != [] {
      assert ([x] + tail)[..|tail|] == [x] + tail[..|tail| - 1];
      assert ([x] + tail[..|tail| - 1])[1..] == tail[..|tail| - 1];
    }
  }

  lemma CoversSplit(code: Bytes -> int, kind: Kind, m: Memory, at: nat, rest: int, room: int, x: Bytes,
                    tail: seq<Bytes>)
    requires Covers(code, kind, m, at, rest, room, [x] + tail)
    ensures rest > 0 && kind.Is(Big, x) && code(x) >= 0 && Holds(m, at, x)
    ensures Covers(code, kind, m, at + |x|, rest - |x|, room - |x|, tail)
  {
    hide Holds, Flatten, Kind.Is;
    FlattenHead(x, tail);
    HoldsJoined(m, at, x, Flatten(tail));
    assert ([x] + tail)[0] == x;
    forall i | 0 <= i < |tail| ensures tail[i] == ([x] + tail)[i + 1] {
    }
  }

  lemma CoversJoin(code: Bytes -> int, kind: Kind, m: Memory, at: nat, rest: int, room: int, x: Bytes,
                   tail: seq<Bytes>)
    requires rest > 0 && kind.Is(Big, x) && code(x) >= 0 && Holds(m, at, x)
    requires Covers(code, kind, m, at + |x|, rest - |x|, room - |x|, tail)
    ensures Covers(code, kind, m, at, rest, room, [x] + tail)
  {
    hide Holds, Flatten, Kind.Is;
    FlattenHead(x, tail);
    NoBytes();
    HoldsJoined(m, at, x, Flatten(tail));
    forall i | 0 <= i < |[x] + tail| ensures kind.Is(Big, ([x] + tail)[i]) && code(([x] + tail)[i]) >= 0 {
      assert i > 0 ==> ([x] + tail)[i] == tail[i - 1];
    }
  }

  lemma NoBytes()
    ensures Flatten([]) == []
  {
  }

  lemma CoversTail(code: Bytes -> int, kind: Kind, m: Memory, at: nat, rest: int, room: int, xs: seq<Bytes>)
    requires xs != []
    ensures Covers(code, kind, m, at, rest, room, xs)
       <==> && rest > 0 && kind.Is(Big, xs[0]) && code(xs[0]) >= 0 && Holds(m, at, xs[0])
            && Covers(code, kind, m, at + |xs[0]|, rest - |xs[0]|, room - |xs[0]|, xs[1..])
  {
    hide Holds, Covers, Kind.Is;
    var x, tail := xs[0], xs[1..];
    assert xs == [x] + tail;
    if Covers(code, kind, m, at, rest, room, xs) {
      CoversSplit(code, kind, m, at, rest, room, x, tail);
    }
    if && rest > 0 && kind.Is(Big, x) && code(x) >= 0 && Holds(m, at, x)
       && Covers(code, kind, m, at + |x|, rest - |x|, room - |x|, tail) {
      CoversJoin(code, kind, m, at, rest, room, x, tail);
    }
  }

  lemma HoldsJoined(m: Memory, at: nat, x: Bytes, y: Bytes)
    ensures Holds(m, at, x + y) <==> Holds(m, at, x) && Holds(m, at + |x|, y)
  {
    if Holds(m, at, x + y) {
      assert (x + y)[..|x|] == x && (x + y)[|x|..] == y;
      HoldsPart(m, at, x + y, 0, |x|);
      HoldsPart(m, at, x + y, |x|, |x| + |y|);
    }
  }

  /** The element at at, read from memory by its length field, judged by its bytes alone. */
  lemma ReadElement(check: (Memory, nat) -> int, code: Bytes -> int, kind: Kind, m: Memory, at: nat)
    returns (x: Bytes)
    requires Local(check, code, kind) && LongEnough(check) && kind.lengthAt == 2 && 4 <= kind.least <= 8
    requires check(m, at) >= 0
    ensures |x| == At16(m, at + 2) >= 8 && Holds(m, at, x) && kind.Is(Big, x) && check(m, at) == code(x)
  {
    x := Stretch(m, at, At16(m, at + 2));
    Held16(m, at, x, 2);
  }

  /** One round of an accepting walk that does not wrap. */
  lemma AcceptingRound(check: (Memory, nat) -> int, m: Memory, head: nat, length: u16, offset: u16, rounds: nat)
    requires Walk(check, m, head, length, offset, rounds) == Done(0) && offset < length
    requires NoWrap(check, m, head, Offsets(check, m, head, length, offset, rounds))
    ensures rounds > 0 && check(m, head + offset) >= 0 && offset as int + At16(m, head + offset + 2) <= USHRT_MAX
    ensures var next := offset + At16(m, head + offset + 2);
            && Walk(check, m, head, length, next, rounds - 1) == Done(0)
            && NoWrap(check, m, head, Offsets(check, m, head, length, next, rounds - 1))
  {
    hide Add16, At16;
    var next := Add16(offset, At16(m, head + offset + 2));
    var os := Offsets(check, m, head, length, next, rounds - 1);
    assert Offsets(check, m, head, length, offset, rounds) == [offset] + os;
    assert offset in [offset] + os && forall o :: o in os ==> o in [offset] + os;
  }

  lemma {:induction false} AcceptedIsCovered(check: (Memory, nat) -> int, code: Bytes -> int, kind: Kind, m: Memory,
                                             head: nat, length: u16, offset: u16, rounds: nat)
    returns (xs: seq<Bytes>)
    requires Local(check, code, kind) && LongEnough(check) && kind.lengthAt == 2 && 4 <= kind.least <= 8
    requires Walk(check, m, head, length, offset, rounds) == Done(0)
    requires NoWrap(check, m, head, Offsets(check, m, head, length, offset, rounds))
    ensures Covers(code, kind, m, head + offset, length as int - offset, USHRT_MAX - offset, xs)
    decreases rounds
  {
    hide Covers, Holds, At16, Walk, Offsets, Local, LongEnough, NoWrap;
    if offset >= length {
      xs := [];
      NothingToCover(code, kind, m, head + offset, length as int - offset, USHRT_MAX - offset);
    } else {
      AcceptingRound(check, m, head, length, offset, rounds);
      var x := ReadElement(check, code, kind, m, head + offset);
      var tail := AcceptedIsCovered(check, code, kind, m, head, length, offset + |x|, rounds - 1);
      xs := [x] + tail;
      assert xs[1..] == tail;
      CoversTail(code, kind, m, head + offset, length as int - offset, USHRT_MAX - offset, xs);
    }
  }

  lemma NothingToCover(code: Bytes -> int, kind: Kind, m: Memory, at: nat, rest: int, room: int)
    ensures Covers(code, kind, m, at, rest, room, []) <==> rest <= 0 <= room
  {
  }

  lemma {:induction false} CoveredIsAccepted(check: (Memory, nat) -> int, code: Bytes -> int, kind: Kind, m: Memory,
                                             head: nat, length: u16, offset: u16, xs: seq<Bytes>)
    requires Local(check, code, kind) && kind.lengthAt == 2
    requires Covers(code, kind, m, head + offset, length as int - offset, USHRT_MAX - offset, xs)
    ensures Walk(check, m, head, length, offset, |xs|) == Done(0)
    ensures NoWrap(check, m, head, Offsets(check, m, head, length, offset, |xs|))
    decreases |xs|
  {
    hide Add16, Covers, Holds, At16, Local;
    if xs == [] {
      NothingToCover(code, kind, m, head + offset, length as int - offset, USHRT_MAX - offset);
    } else {
      var x := xs[0];
      CoversTail(code, kind, m, head + offset, length as int - offset, USHRT_MAX - offset, xs);
      CoverFits(code, kind, m, head + offset + |x|, length as int - offset - |x|, USHRT_MAX - offset - |x|, xs[1..]);
      CheckHeld(check, code, kind, m, head + offset, x);
      CoveredIsAccepted(check, code, kind, m, head, length, Add16(offset, |x|), xs[1..]);
    }
  }

  lemma CheckHeld(check: (Memory, nat) -> int, code: Bytes -> int, kind: Kind, m: Memory, at: nat, x: Bytes)
    requires Local(check, code, kind) && kind.lengthAt == 2 && kind.Is(Big, x) && Holds(m, at, x)
    ensures check(m, at) == code(x) && At16(m, at + 2) == |x|
  {
    Held16(m, at, x, 2);
  }

  lemma CoverFits(code: Bytes -> int, kind: Kind, m: Memory, at: nat, rest: int, room: int, xs: seq<Bytes>)
    requires Covers(code, kind, m, at, rest, room, xs)
    ensures room >= 0
  {
  }

  /** The walk accepts, and its offset never wraps. */
  ghost predicate AcceptsStraight(check: (Memory, nat) -> int, m: Memory, head: nat, length: u16) {
    exists rounds: nat ::
      && Walk(check, m, head, length, 0, rounds) == Done(0)
      && NoWrap(check, m, head, Offsets(check, m, head, length, 0, rounds))
  }

  lemma {:induction false} MoreOffsets(check: (Memory, nat) -> int, m: Memory, head: nat, length: u16, offset: u16,
                                       rounds: nat, more: nat)
    requires Walk(check, m, head, length, offset, rounds).Done? && rounds <= more
    ensures Offsets(check, m, head, length, offset, more) == Offsets(check, m, head, length, offset, rounds)
    decreases rounds
  {
    hide Add16, At16;
    if offset < length && check(m, head + offset) >= 0 {
      MoreOffsets(check, m, head, length, Add16(offset, At16(m, head + offset + 2)), rounds - 1, more - 1);
    }
  }

  /** Enough rounds to tell. */
  lemma AcceptsStraightInTime(check: (Memory, nat) -> int, m: Memory, head: nat, length: u16)
    ensures AcceptsStraight(check, m, head, length)
       <==> && Walk(check, m, head, length, 0, USHRT_MAX) == Done(0)
            && NoWrap(check, m, head, Offsets(check, m, head, length, 0, USHRT_MAX))
  {
    hide Walk, Offsets, NoWrap;
    if rounds: nat :| && Walk(check, m, head, length, 0, rounds) == Done(0)
                      && NoWrap(check, m, head, Offsets(check, m, head, length, 0, rounds)) {
      EndsUnlessRecurs(check, m, head, length);
      var more := if rounds <= USHRT_MAX then USHRT_MAX else rounds;
      MoreRounds(check, m, head, length, 0, length, USHRT_MAX);
      MoreRounds(check, m, head, length, 0, length, more);
      MoreRounds(check, m, head, length, 0, rounds, more);
      MoreOffsets(check, m, head, length, 0, length, USHRT_MAX);
      MoreOffsets(check, m, head, length, 0, length, more);
      MoreOffsets(check, m, head, length, 0, rounds, more);
    }
  }

  /** A walk accepts without wrapping exactly if elements that pass cover the bytes it is to look at. */
  lemma AcceptedMeans(check: (Memory, nat) -> int, code: Bytes -> int, kind: Kind, m: Memory, head: nat, length: u16)
    requires Local(check, code, kind) && LongEnough(check) && kind.lengthAt == 2 && 4 <= kind.least <= 8
    ensures AcceptsStraight(check, m, head, length)
       <==> exists xs :: Covers(code, kind, m, head, length, USHRT_MAX, xs)
  {
    hide Local, LongEnough, Covers, Walk, NoWrap;
    if AcceptsStraight(check, m, head, length) {
      var rounds: nat :| && Walk(check, m, head, length, 0, rounds) == Done(0)
                         && NoWrap(check, m, head, Offsets(check, m, head, length, 0, rounds));
      var xs := AcceptedIsCovered(check, code, kind, m, head, length, 0, rounds);
    }
    if xs :| Covers(code, kind, m, head, length, USHRT_MAX, xs) {
      CoveredIsAccepted(check, code, kind, m, head, length, 0, xs);
    }
  }

  /**
   So validate_actions accepts without wrapping exactly if valid actions lie one after another from the start of the
   region on, of which only the last may reach beyond its end; validate_queue_properties likewise.
   */
  lemma AcceptedActions(m: Memory, head: nat, length: u16)
    ensures AcceptsStraight(ValidateAction, m, head, length)
       <==> exists xs :: Covers(ActionCode, ACTION, m, head, length, USHRT_MAX, xs)
    ensures AcceptsStraight(ValidateQueueProperty, m, head, length)
       <==> exists xs :: Covers(PropertyCodeOf, PROPERTY, m, head, length, USHRT_MAX, xs)
  {
    hide LongEnough, Local, AcceptsStraight, Covers;
    ActionIsLocal();
    PropertyIsLocal();
    ChecksLongEnough();
    AcceptedMeans(ValidateAction, ActionCode, ACTION, m, head, length);
    AcceptedMeans(ValidateQueueProperty, PropertyCodeOf, PROPERTY, m, head, length);
  }

  /** A tiling of the first bytes is also what covers them. */
  lemma {:induction false} TilingCovers(code: Bytes -> int, kind: Kind, m: Memory, at: nat, room: int, xs: seq<Bytes>,
                                        ys: seq<Bytes>)
    requires kind.lengthAt == 2 && Tiles(Big, kind, ys, Flatten(ys)) && Holds(m, at, Flatten(ys))
    requires Covers(code, kind, m, at, |Flatten(ys)|, room, xs)
    ensures xs == ys
    decreases |ys|
  {
    hide Covers, Holds, Kind.Is;
    if ys == [] {
      if xs != [] {
        CoversTail(code, kind, m, at, 0, room, xs);
      }
    } else {
      CoveredNonempty(code, kind, m, at, room, xs, ys);
      var x, y := xs[0], ys[0];
      CoversTail(code, kind, m, at, |Flatten(ys)|, room, xs);
      HoldsJoined(m, at, y, Flatten(ys[1..]));
      SameElement(kind, m, at, x, y);
      TilingCovers(code, kind, m, at + |y|, room - |y|, xs[1..], ys[1..]);
      assert xs == [x] + xs[1..] && ys == [y] + ys[1..];
    }
  }

  lemma CoveredNonempty(code: Bytes -> int, kind: Kind, m: Memory, at: nat, room: int, xs: seq<Bytes>, ys: seq<Bytes>)
    requires ys != [] && kind.Is(Big, ys[0]) && Covers(code, kind, m, at, |Flatten(ys)|, room, xs)
    ensures xs != []
  {
  }

  /** Two elements that lie at the same place are the same. */
  lemma SameElement(kind: Kind, m: Memory, at: nat, x: Bytes, y: Bytes)
    requires kind.lengthAt == 2 && kind.Is(Big, x) && kind.Is(Big, y) && Holds(m, at, x) && Holds(m, at, y)
    ensures x == y
  {
    Held16(m, at, x, 2);
    Held16(m, at, y, 2);
    hide At16;
    forall k | 0 <= k < |x| ensures x[k] == y[k] {
      assert x[k] == m(at + k) == y[k];
    }
  }

  /** There is only one covering. */
  lemma {:induction false} CoverUnique(code: Bytes -> int, kind: Kind, m: Memory, at: nat, rest: int, room: int,
                                       xs: seq<Bytes>, ys: seq<Bytes>)
    requires kind.lengthAt == 2
    requires Covers(code, kind, m, at, rest, room, xs) && Covers(code, kind, m, at, rest, room, ys)
    ensures xs == ys
    decreases |xs|
  {
    hide Covers, Holds, Kind.Is;
    if xs != [] {
      CoversTail(code, kind, m, at, rest, room, xs);
    }
    if ys != [] {
      CoversTail(code, kind, m, at, rest, room, ys);
    }
    if xs != [] && ys != [] {
      SameElement(kind, m, at, xs[0], ys[0]);
      CoverUnique(code, kind, m, at + |xs[0]|, rest - |xs[0]|, room - |xs[0]|, xs[1..], ys[1..]);
      assert xs == [xs[0]] + xs[1..] && ys == [ys[0]] + ys[1..];
    } else {
      NothingToCover(code, kind, m, at, rest, room);
    }
  }

  /** What is covered is tiled exactly if the last element does not reach beyond it; the tiling is the covering. */
  lemma AcceptedTiles(code: Bytes -> int, kind: Kind, m: Memory, head: nat, length: nat, room: int, xs: seq<Bytes>)
    requires kind.lengthAt == 2 && Covers(code, kind, m, head, length, room, xs)
    ensures (exists ys :: Tiles(Big, kind, ys, Stretch(m, head, length))) <==> |Flatten(xs)| == length
    ensures forall ys :: Tiles(Big, kind, ys, Stretch(m, head, length)) ==> ys == xs
  {
    forall ys | Tiles(Big, kind, ys, Stretch(m, head, length)) ensures ys == xs {
      hide Covers, Kind.Is;
      TilingCovers(code, kind, m, head, room, xs, ys);
    }
    if |Flatten(xs)| == length {
      hide Kind.Is;
      forall k | 0 <= k < length ensures Flatten(xs)[k] == Stretch(m, head, length)[k] {
        assert Flatten(xs)[k] == m(head + k);
      }
      assert Tiles(Big, kind, xs, Stretch(m, head, length));
    }
  }
}
