/** What the validators' walks compute on regions that are tiled. */
module Walks {
  import opened Bytes
  import opened OpenFlow
  import opened ByteOrder
  import opened MsgCheck

  /** The result for the first element that fails; 0 if none does. */
  ghost function FirstFailure(code: Bytes -> int, xs: seq<Bytes>): int {
    if xs == [] then 0 else if code(xs[0]) < 0 then code(xs[0]) else FirstFailure(code, xs[1..])
  }

  /** No failure means no failing element; otherwise it is that of an element before which none fails. */
  lemma {:induction false} FirstFailureIs(code: Bytes -> int, xs: seq<Bytes>)
    ensures if FirstFailure(code, xs) == 0 then forall i :: 0 <= i < |xs| ==> code(xs[i]) >= 0
            else exists i :: 0 <= i < |xs| && FirstFailure(code, xs) == code(xs[i]) < 0
                             && forall j :: 0 <= j < i ==> code(xs[j]) >= 0
  {
    if xs != [] && code(xs[0]) >= 0 {
      FirstFailureIs(code, xs[1..]);
      if FirstFailure(code, xs[1..]) == 0 {
        forall i | 0 <= i < |xs| ensures code(xs[i]) >= 0 {
          assert i > 0 ==> xs[1..][i - 1] == xs[i];
        }
      } else {
        var i :| 0 <= i < |xs[1..]| && FirstFailure(code, xs[1..]) == code(xs[1..][i]) < 0
                 && forall j :: 0 <= j < i ==> code(xs[1..][j]) >= 0;
        assert xs[i + 1] == xs[1..][i];
        forall j | 0 <= j < i + 1 ensures code(xs[j]) >= 0 {
          assert j > 0 ==> xs[1..][j - 1] == xs[j];
        }
      }
    }
  }

  lemma {:induction false} FirstFailureSign(code: Bytes -> int, xs: seq<Bytes>)
    ensures FirstFailure(code, xs) <= 0
  {
    if xs != [] && code(xs[0]) >= 0 {
      FirstFailureSign(code, xs[1..]);
    }
  }

  /** The check of an element depends on nothing but the element. */
  ghost predicate Local(check: (Memory, nat) -> int, code: Bytes -> int, kind: Kind) {
    forall m: Memory, at: nat, x: Bytes {:trigger check(m, at), code(x)} ::
      kind.Is(Big, x) && Holds(m, at, x) ==> check(m, at) == code(x)
  }

  /** Where elements lie that follow one another from at on. */
  ghost function Starts(at: nat, xs: seq<Bytes>): seq<nat>
    decreases |xs|
  {
    if xs == [] then [] else [at] + Starts(at + |xs[0]|, xs[1..])
  }

  /** The elements up to the first that fails, that one included. */
  ghost function UpToFailure(code: Bytes -> int, xs: seq<Bytes>): seq<Bytes> {
    if xs == [] then [] else if code(xs[0]) < 0 then [xs[0]] else [xs[0]] + UpToFailure(code, xs[1..])
  }

  /** Elements start at the sums of the lengths before them. */
  lemma {:induction false} StartsAre(at: nat, xs: seq<Bytes>)
    ensures |Starts(at, xs)| == |xs| && forall i :: 0 <= i < |xs| ==> Starts(at, xs)[i] == at + |Flatten(xs[..i])|
    decreases |xs|
  {
    if xs != [] {
      StartsAre(at + |xs[0]|, xs[1..]);
      forall i | 0 <= i < |xs| ensures Starts(at, xs)[i] == at + |Flatten(xs[..i])| {
        if i > 0 {
          assert xs[..i] == [xs[0]] + xs[1..][..i - 1];
        }
      }
    }
  }

  /** The elements up to the first failure begin the list; it is the whole list if none fails. */
  lemma {:induction false} UpToFailureIs(code: Bytes -> int, xs: seq<Bytes>)
    ensures UpToFailure(code, xs) <= xs && (FirstFailure(code, xs) == 0 ==> UpToFailure(code, xs) == xs)
    ensures xs != [] ==> UpToFailure(code, xs) != []
    ensures FirstFailure(code, xs) != 0 ==>
              code(UpToFailure(code, xs)[|UpToFailure(code, xs)| - 1]) == FirstFailure(code, xs)
  {
    if xs != [] && code(xs[0]) >= 0 {
      UpToFailureIs(code, xs[1..]);
      assert xs == [xs[0]] + xs[1..];
    }
  }

  lemma NoTiles(kind: Kind, region: Bytes)
    requires Tiles(Big, kind, [], region)
    ensures region == []
  {
  }

  /** What a round of the walk finds at the first tile, and leaves for the next. */
  lemma FirstTile(check: (Memory, nat) -> int, code: Bytes -> int, kind: Kind, m: Memory, at: nat, xs: seq<Bytes>,
                  region: Bytes)
    requires Local(check, code, kind) && kind.lengthAt == 2 && kind.least > 0
    requires Tiles(Big, kind, xs, region) && Holds(m, at, region) && xs != []
    ensures check(m, at) == code(xs[0]) && At16(m, at + 2) == |xs[0]| && 0 < |xs[0]| <= |region|
    ensures Tiles(Big, kind, xs[1..], region[|xs[0]|..]) && Holds(m, at + |xs[0]|, region[|xs[0]|..])
  {
    var x := xs[0];
    TilesTail(Big, kind, xs, region);
    HoldsPart(m, at, region, 0, |x|);
    HoldsPart(m, at, region, |x|, |region|);
    Held16(m, at, region, 2);
    assert region[|x|..] == region[|x|..|region|];
  }

  /**
   On a tiled region the walk ends in as many rounds as there are tiles and returns the result for the first failing
   one. The 16-bit offsets that it visits are where the tiles up to that one lie, so they never wrap.
   */
  lemma {:induction false} TiledWalk(check: (Memory, nat) -> int, code: Bytes -> int, kind: Kind, m: Memory, head: nat,
                                     length: u16, offset: u16, xs: seq<Bytes>, region: Bytes)
    requires Local(check, code, kind) && kind.lengthAt == 2 && kind.least > 0
    requires Tiles(Big, kind, xs, region) && Holds(m, head + offset, region) && offset as int + |region| == length
    ensures Walk(check, m, head, length, offset, |xs|) == Done(FirstFailure(code, xs))
    ensures Offsets(check, m, head, length, offset, |xs|) == Starts(offset, UpToFailure(code, xs))
    decreases |xs|
  {
    hide Local, Tiles, Holds, At16, Add16;
    if xs == [] {
      NoTiles(kind, region);
    } else {
      FirstTile(check, code, kind, m, head + offset, xs, region);
      TiledWalk(check, code, kind, m, head, length, Add16(offset, |xs[0]|), xs[1..], region[|xs[0]|..]);
    }
  }

  // ---------- actions ----------

  function ActionCode(x: Bytes): int {
    if |x| < ACTION_HEADER then ERROR_TOO_SHORT_ACTION
    else ValidateActionFields(ActionFields(Net16(x, 0), Net16(x, 2), Net16(x, 4), x[4]))
  }

  ghost predicate ValidAction(x: Bytes) {
    |x| >= ACTION_HEADER && ActionFields(Net16(x, 0), Net16(x, 2), Net16(x, 4), x[4]).Valid()
  }

  lemma ActionIsLocal()
    ensures Local(ValidateAction, ActionCode, ACTION)
  {
    forall m: Memory, at: nat, x: Bytes | ACTION.Is(Big, x) && Holds(m, at, x)
      ensures ValidateAction(m, at) == ActionCode(x)
    {
      Held16(m, at, x, 0);
      Held16(m, at, x, 2);
      Held16(m, at, x, 4);
    }
  }

  /**
   On every region tiled by actions validate_actions ends; it returns 0 exactly if every action has its type's length
   and its fields in range, and otherwise the code of the first action that has not.
   */
  lemma TiledActions(m: Memory, head: nat, actions: seq<Bytes>, region: Bytes)
    requires Tiles(Big, ACTION, actions, region) && |region| <= USHRT_MAX && Holds(m, head, region)
    ensures Walk(ValidateAction, m, head, |region|, 0, |actions|) == Done(FirstFailure(ActionCode, actions))
    ensures Offsets(ValidateAction, m, head, |region|, 0, |actions|) == Starts(0, UpToFailure(ActionCode, actions))
    ensures FirstFailure(ActionCode, actions) == 0 <==> forall i :: 0 <= i < |actions| ==> ValidAction(actions[i])
    ensures forall i :: 0 <= i < |actions| && ValidAction(actions[i]) ==> Known(Big, actions[i])
  {
    ActionIsLocal();
    TiledWalk(ValidateAction, ActionCode, ACTION, m, head, |region|, 0, actions, region);
    FirstFailureIs(ActionCode, actions);
    forall i | 0 <= i < |actions| ensures ActionCode(actions[i]) >= 0 <==> ValidAction(actions[i]) {
      var x := actions[i];
      ActionAccepted(ActionFields(Net16(x, 0), Net16(x, 2), Net16(x, 4), x[4]));
    }
  }

  // ---------- queue properties ----------

  function PropertyCodeOf(x: Bytes): int {
    if |x| < QUEUE_PROP_HEADER then ERROR_TOO_SHORT_QUEUE_PROPERTY else PropertyCode(Net16(x, 0), Net16(x, 2))
  }

  lemma PropertyIsLocal()
    ensures Local(ValidateQueueProperty, PropertyCodeOf, PROPERTY)
  {
    forall m: Memory, at: nat, x: Bytes | PROPERTY.Is(Big, x) && Holds(m, at, x)
      ensures ValidateQueueProperty(m, at) == PropertyCodeOf(x)
    {
      Held16(m, at, x, 0);
      Held16(m, at, x, 2);
    }
  }

  lemma TiledProperties(m: Memory, head: nat, properties: seq<Bytes>, region: Bytes)
    requires Tiles(Big, PROPERTY, properties, region) && |region| <= USHRT_MAX && Holds(m, head, region)
    ensures Walk(ValidateQueueProperty, m, head, |region|, 0, |properties|)
         == Done(FirstFailure(PropertyCodeOf, properties))
    ensures FirstFailure(PropertyCodeOf, properties) == 0
       <==> forall i :: 0 <= i < |properties| ==>
                 |properties[i]| >= 4 && ValidProperty(Net16(properties[i], 0), Net16(properties[i], 2))
  {
    PropertyIsLocal();
    TiledWalk(ValidateQueueProperty, PropertyCodeOf, PROPERTY, m, head, |region|, 0, properties, region);
    FirstFailureIs(PropertyCodeOf, properties);
    forall i | 0 <= i < |properties|
      ensures |properties[i]| >= 4
      ensures PropertyCodeOf(properties[i]) >= 0
         <==> ValidProperty(Net16(properties[i], 0), Net16(properties[i], 2))
    {
      PropertyAccepted(Net16(properties[i], 0), Net16(properties[i], 2));
    }
  }
}
