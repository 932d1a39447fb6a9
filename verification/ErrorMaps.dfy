/**
 The messages a switch is sent, as validate_openflow_message of lib/cc_of_msg_check.c judges them, and the table by
 which cc_trans_error_type_and_code turns a judgement into an OpenFlow error.
 */
module ErrorMaps {
  import opened Bytes
  import opened OpenFlow
  import opened MsgCheck

  // ---------- validators of the other requests ----------

  function ValidateError(b: Buffer): int {
    ValidateHeader(b, OFPT_ERROR, 12, USHRT_MAX)
  }

  /** validate_echo_request and validate_echo_reply. */
  function ValidateEcho(b: Buffer, kind: byte): int {
    var ret := ValidateHeader(b, kind, HEADER, USHRT_MAX);
    if ret < 0 then ret else if b.length != At16(b.data, 2) then ERROR_INVALID_LENGTH else 0
  }

  function ValidateVendor(b: Buffer): int {
    var ret := ValidateHeader(b, OFPT_VENDOR, 12, USHRT_MAX);
    if ret < 0 then ret else if b.length != At16(b.data, 2) then ERROR_INVALID_LENGTH else 0
  }

  function ValidateSetConfig(b: Buffer): int {
    var ret := ValidateHeader(b, OFPT_SET_CONFIG, 12, 12);
    if ret < 0 then ret else if At16(b.data, 8) > 3 then ERROR_INVALID_SWITCH_CONFIG else 0
  }

  function ValidatePortMod(b: Buffer): int {
    var ret := ValidateHeader(b, OFPT_PORT_MOD, 32, 32);
    var port := At16(b.data, 8);
    if ret < 0 then ret
    else if ValidatePhyPortNo(port) < 0 then ValidatePhyPortNo(port)
    else if port > OFPP_MAX && port != OFPP_LOCAL then ERROR_INVALID_PORT_NO
    else if At32(b.data, 16) / 0x80 != 0 then ERROR_INVALID_PORT_CONFIG
    else if At32(b.data, 20) / 0x80 != 0 then ERROR_INVALID_PORT_MASK
    else if At32(b.data, 24) / 0x80 != 0 then ERROR_INVALID_PORT_FEATURES
    else 0
  }

  /** The start of every validator of a statistics request: its header, its type and its flags. */
  function ValidateStatsHead(b: Buffer, kind: u16, least: nat, most: nat): int {
    var ret := ValidateHeader(b, OFPT_STATS_REQUEST, least, most);
    if ret < 0 then ret
    else if At16(b.data, 8) != kind then ERROR_INVALID_STATS_TYPE
    else if At16(b.data, 10) != 0 then ERROR_INVALID_STATS_REQUEST_FLAGS
    else 0
  }

  /** validate_flow_stats_request and validate_aggregate_stats_request. */
  function ValidateFlowsRequest(b: Buffer, kind: u16): int {
    var ret := ValidateStatsHead(b, kind, 56, 56);
    var f := NtohMatchFields(b.data, 12);
    if ret < 0 then ret
    else if ValidateMatch(f) < 0 then ValidateMatch(f)
    else ValidatePhyPortNo(At16(b.data, 54))
  }

  function ValidatePortStatsRequest(b: Buffer): int {
    var ret := ValidateStatsHead(b, OFPST_PORT, 20, 20);
    var port := At16(b.data, 12);
    if ret < 0 then ret
    else if ValidatePhyPortNo(port) < 0 then ValidatePhyPortNo(port)
    else if port > OFPP_MAX && port != OFPP_NONE && port != OFPP_LOCAL then ERROR_INVALID_PORT_NO
    else 0
  }

  function ValidateQueueStatsRequest(b: Buffer): int {
    var ret := ValidateStatsHead(b, OFPST_QUEUE, 20, 20);
    if ret < 0 then ret else ValidatePhyPortNo(At16(b.data, 12))
  }

  function ValidateStatsRequest(b: Buffer): int {
    var kind := At16(b.data, 8);
    if kind == OFPST_DESC then ValidateStatsHead(b, OFPST_DESC, 12, 12)
    else if kind == OFPST_FLOW || kind == OFPST_AGGREGATE then ValidateFlowsRequest(b, kind)
    else if kind == OFPST_TABLE then ValidateStatsHead(b, OFPST_TABLE, 12, 12)
    else if kind == OFPST_PORT then ValidatePortStatsRequest(b)
    else if kind == OFPST_QUEUE then ValidateQueueStatsRequest(b)
    else if kind == OFPST_VENDOR then ValidateStatsHead(b, OFPST_VENDOR, 16, USHRT_MAX)
    else ERROR_UNSUPPORTED_STATS_TYPE
  }

  function ValidateQueueGetConfigRequest(b: Buffer): int {
    var ret := ValidateHeader(b, OFPT_QUEUE_GET_CONFIG_REQUEST, 12, 12);
    if ret < 0 then ret else ValidatePhyPortNo(At16(b.data, 8))
  }

  /** The message types whose validators neither loop nor are left out. */
  predicate Plain(kind: byte) {
    || kind == OFPT_HELLO || kind == OFPT_ERROR || kind == OFPT_ECHO_REQUEST || kind == OFPT_ECHO_REPLY
    || kind == OFPT_VENDOR || kind == OFPT_FEATURES_REQUEST || kind == OFPT_GET_CONFIG_REQUEST
    || kind == OFPT_SET_CONFIG || kind == OFPT_PORT_MOD || kind == OFPT_STATS_REQUEST || kind == OFPT_BARRIER_REQUEST
    || kind == OFPT_BARRIER_REPLY || kind == OFPT_QUEUE_GET_CONFIG_REQUEST
  }

  /** The switch of validate_openflow_message, on the types that are modelled. */
  function ValidateOpenflowMessage(b: Buffer, rounds: nat): Outcome
    requires var kind := b.data(1); Plain(kind) || kind == OFPT_PACKET_OUT || kind == OFPT_FLOW_MOD
  {
    var kind := b.data(1);
    if kind == OFPT_PACKET_OUT then ValidatePacketOut(b, rounds)
    else if kind == OFPT_FLOW_MOD then ValidateFlowMod(b, rounds)
    else if kind == OFPT_ERROR then Done(ValidateError(b))
    else if kind == OFPT_ECHO_REQUEST || kind == OFPT_ECHO_REPLY then Done(ValidateEcho(b, kind))
    else if kind == OFPT_VENDOR then Done(ValidateVendor(b))
    else if kind == OFPT_SET_CONFIG then Done(ValidateSetConfig(b))
    else if kind == OFPT_PORT_MOD then Done(ValidatePortMod(b))
    else if kind == OFPT_STATS_REQUEST then Done(ValidateStatsRequest(b))
    else if kind == OFPT_QUEUE_GET_CONFIG_REQUEST then Done(ValidateQueueGetConfigRequest(b))
    else Done(ValidateHeader(b, kind, HEADER, HEADER))
  }

  // ---------- the translation table ----------

  const OFPET_HELLO_FAILED := 0
  const OFPET_BAD_REQUEST := 1
  const OFPET_BAD_ACTION := 2
  const OFPET_FLOW_MOD_FAILED := 3
  const OFPET_PORT_MOD_FAILED := 4
  const OFPET_QUEUE_OP_FAILED := 5

  const OFPHFC_INCOMPATIBLE := 0
  const OFPBRC_BAD_VERSION := 0
  const OFPBRC_BAD_TYPE := 1
  const OFPBRC_BAD_STAT := 2
  const OFPBRC_EPERM := 5
  const OFPBRC_BAD_LEN := 6
  const OFPBAC_BAD_TYPE := 0
  const OFPBAC_BAD_LEN := 1
  const OFPBAC_BAD_OUT_PORT := 4
  const OFPBAC_BAD_ARGUMENT := 5
  const OFPFMFC_EPERM := 2
  const OFPFMFC_BAD_COMMAND := 4
  const OFPPMFC_BAD_PORT := 0
  const OFPQOFC_BAD_PORT := 0

  datatype Map = Map(errorNo: int, errorType: u16, errorCode: u16)

  const END := Map(0, 0, 0)

  /** The five entries that open the table of every type. */
  function HeaderMaps(kind: byte): seq<Map> {
    [ if kind == OFPT_HELLO then Map(ERROR_UNSUPPORTED_VERSION, OFPET_HELLO_FAILED, OFPHFC_INCOMPATIBLE)
      else Map(ERROR_UNSUPPORTED_VERSION, OFPET_BAD_REQUEST, OFPBRC_BAD_VERSION),
      Map(ERROR_TOO_SHORT_MESSAGE, OFPET_BAD_REQUEST, OFPBRC_BAD_LEN),
      Map(ERROR_TOO_LONG_MESSAGE, OFPET_BAD_REQUEST, OFPBRC_BAD_LEN),
      Map(ERROR_UNDEFINED_TYPE, OFPET_BAD_REQUEST, OFPBRC_BAD_TYPE),
      Map(ERROR_INVALID_TYPE, OFPET_BAD_REQUEST, OFPBRC_BAD_TYPE) ]
  }

  /** The entries for actions, the same for packet-out and flow-mod. */
  const ACTION_MAPS: seq<Map> := [
    Map(ERROR_INVALID_ACTION_TYPE, OFPET_BAD_ACTION, OFPBAC_BAD_TYPE),
    Map(ERROR_TOO_SHORT_ACTION_OUTPUT, OFPET_BAD_ACTION, OFPBAC_BAD_LEN),
    Map(ERROR_TOO_LONG_ACTION_OUTPUT, OFPET_BAD_ACTION, OFPBAC_BAD_LEN),
    Map(ERROR_INVALID_PORT_NO, OFPET_BAD_ACTION, OFPBAC_BAD_OUT_PORT),
    Map(ERROR_TOO_SHORT_ACTION_VLAN_VID, OFPET_BAD_ACTION, OFPBAC_BAD_LEN),
    Map(ERROR_TOO_LONG_ACTION_VLAN_VID, OFPET_BAD_ACTION, OFPBAC_BAD_LEN),
    Map(ERROR_INVALID_VLAN_VID, OFPET_BAD_ACTION, OFPBAC_BAD_ARGUMENT),
    Map(ERROR_TOO_SHORT_ACTION_VLAN_PCP, OFPET_BAD_ACTION, OFPBAC_BAD_LEN),
    Map(ERROR_TOO_LONG_ACTION_VLAN_PCP, OFPET_BAD_ACTION, OFPBAC_BAD_LEN),
    Map(ERROR_INVALID_VLAN_PCP, OFPET_BAD_ACTION, OFPBAC_BAD_ARGUMENT),
    Map(ERROR_TOO_SHORT_ACTION_STRIP_VLAN, OFPET_BAD_ACTION, OFPBAC_BAD_LEN),
    Map(ERROR_TOO_LONG_ACTION_STRIP_VLAN, OFPET_BAD_ACTION, OFPBAC_BAD_LEN),
    Map(ERROR_TOO_SHORT_ACTION_DL_SRC, OFPET_BAD_ACTION, OFPBAC_BAD_LEN),
    Map(ERROR_TOO_LONG_ACTION_DL_SRC, OFPET_BAD_ACTION, OFPBAC_BAD_LEN),
    Map(ERROR_TOO_SHORT_ACTION_DL_DST, OFPET_BAD_ACTION, OFPBAC_BAD_LEN),
    Map(ERROR_TOO_LONG_ACTION_DL_DST, OFPET_BAD_ACTION, OFPBAC_BAD_LEN),
    Map(ERROR_TOO_SHORT_ACTION_NW_SRC, OFPET_BAD_ACTION, OFPBAC_BAD_LEN),
    Map(ERROR_TOO_LONG_ACTION_NW_SRC, OFPET_BAD_ACTION, OFPBAC_BAD_LEN),
    Map(ERROR_TOO_SHORT_ACTION_NW_DST, OFPET_BAD_ACTION, OFPBAC_BAD_LEN),
    Map(ERROR_TOO_LONG_ACTION_NW_DST, OFPET_BAD_ACTION, OFPBAC_BAD_LEN),
    Map(ERROR_TOO_SHORT_ACTION_NW_TOS, OFPET_BAD_ACTION, OFPBAC_BAD_LEN),
    Map(ERROR_TOO_LONG_ACTION_NW_TOS, OFPET_BAD_ACTION, OFPBAC_BAD_LEN),
    Map(ERROR_TOO_SHORT_ACTION_TP_SRC, OFPET_BAD_ACTION, OFPBAC_BAD_LEN),
    Map(ERROR_TOO_LONG_ACTION_TP_SRC, OFPET_BAD_ACTION, OFPBAC_BAD_LEN),
    Map(ERROR_TOO_SHORT_ACTION_TP_DST, OFPET_BAD_ACTION, OFPBAC_BAD_LEN),
    Map(ERROR_TOO_LONG_ACTION_TP_DST, OFPET_BAD_ACTION, OFPBAC_BAD_LEN),
    Map(ERROR_TOO_SHORT_ACTION_ENQUEUE, OFPET_BAD_ACTION, OFPBAC_BAD_LEN),
    Map(ERROR_TOO_LONG_ACTION_ENQUEUE, OFPET_BAD_ACTION, OFPBAC_BAD_LEN),
    Map(ERROR_INVALID_PORT_NO, OFPET_BAD_ACTION, OFPBAC_BAD_OUT_PORT),
    Map(ERROR_TOO_SHORT_ACTION_VENDOR, OFPET_BAD_ACTION, OFPBAC_BAD_LEN),
    Map(ERROR_UNDEFINED_ACTION_TYPE, OFPET_BAD_ACTION, OFPBAC_BAD_TYPE)
  ]

  /** The entries that are particular to a type. */
  function OwnMaps(kind: byte): seq<Map> {
    if kind == OFPT_SET_CONFIG then [Map(ERROR_INVALID_SWITCH_CONFIG, OFPET_BAD_REQUEST, OFPBRC_EPERM)]
    else if kind == OFPT_PACKET_IN then [Map(ERROR_INVALID_PACKET_IN_REASON, OFPET_BAD_REQUEST, OFPBRC_EPERM)]
    else if kind == OFPT_FLOW_REMOVED then [
      Map(ERROR_INVALID_FLOW_PRIORITY, OFPET_BAD_REQUEST, OFPBRC_EPERM),
      Map(ERROR_INVALID_FLOW_REMOVED_REASON, OFPET_BAD_REQUEST, OFPBRC_EPERM)
    ]
    else if kind == OFPT_PORT_STATUS then [Map(ERROR_INVALID_PORT_STATUS_REASON, OFPET_BAD_REQUEST, OFPBRC_EPERM)]
    else if kind == OFPT_PACKET_OUT then ACTION_MAPS
    else if kind == OFPT_FLOW_MOD then
      ACTION_MAPS + [
        Map(ERROR_INVALID_WILDCARDS, OFPET_FLOW_MOD_FAILED, OFPFMFC_EPERM),
        Map(ERROR_UNDEFINED_FLOW_MOD_COMMAND, OFPET_FLOW_MOD_FAILED, OFPFMFC_BAD_COMMAND),
        Map(ERROR_INVALID_FLOW_PRIORITY, OFPET_FLOW_MOD_FAILED, OFPFMFC_EPERM),
        Map(ERROR_INVALID_FLOW_MOD_FLAGS, OFPET_FLOW_MOD_FAILED, OFPFMFC_EPERM)
      ]
    else if kind == OFPT_PORT_MOD then [
      Map(ERROR_INVALID_PORT_NO, OFPET_PORT_MOD_FAILED, OFPPMFC_BAD_PORT),
      Map(ERROR_INVALID_PORT_CONFIG, OFPET_BAD_REQUEST, OFPBRC_EPERM),
      Map(ERROR_INVALID_PORT_MASK, OFPET_BAD_REQUEST, OFPBRC_EPERM),
      Map(ERROR_INVALID_PORT_FEATURES, OFPET_BAD_REQUEST, OFPBRC_EPERM)
    ]
    else if kind == OFPT_STATS_REQUEST then [
      Map(ERROR_UNSUPPORTED_STATS_TYPE, OFPET_BAD_REQUEST, OFPBRC_BAD_STAT),
      Map(ERROR_INVALID_STATS_TYPE, OFPET_BAD_REQUEST, OFPBRC_BAD_STAT),
      Map(ERROR_INVALID_STATS_REQUEST_FLAGS, OFPET_BAD_REQUEST, OFPBRC_EPERM),
      Map(ERROR_INVALID_PORT_NO, OFPET_BAD_REQUEST, OFPBRC_EPERM),
      Map(ERROR_INVALID_WILDCARDS, OFPET_BAD_REQUEST, OFPBRC_EPERM),
      Map(ERROR_INVALID_VLAN_VID, OFPET_BAD_REQUEST, OFPBRC_EPERM),
      Map(ERROR_INVALID_VLAN_PCP, OFPET_BAD_REQUEST, OFPBRC_EPERM),
      Map(ERROR_INVALID_NW_TOS, OFPET_BAD_REQUEST, OFPBRC_EPERM)
    ]
    else if kind == OFPT_QUEUE_GET_CONFIG_REQUEST then
      [Map(ERROR_INVALID_PORT_NO, OFPET_QUEUE_OP_FAILED, OFPQOFC_BAD_PORT)]
    else []
  }

  /** The entries of a type, up to the terminating zero entry. */
  function Maps(kind: byte): seq<Map> {
    HeaderMaps(kind) + OwnMaps(kind)
  }

  /** The table translates the error. */
  ghost predicate Translates(maps: seq<Map>, errorNo: int) {
    exists i :: 0 <= i < |maps| && maps[i].errorNo == errorNo
  }

  datatype Translation = Untranslated | Translated(errorType: u16, errorCode: u16)

  /** What the first entry for the error says. */
  ghost predicate FirstMatch(maps: seq<Map>, errorNo: int, t: u16, c: u16) {
    exists i :: 0 <= i < |maps| && maps[i] == Map(errorNo, t, c)
                && forall j :: 0 <= j < i ==> maps[j].errorNo != errorNo
  }

  /** The loop of cc_trans_error_type_and_code, to the zero entry that ends the table. */
  method Search(maps: seq<Map>, errorNo: int) returns (result: Translation)
    requires forall i :: 0 <= i < |maps| ==> maps[i].errorNo != 0
    ensures result.Untranslated? ==> !Translates(maps, errorNo)
    ensures result.Translated? ==> FirstMatch(maps, errorNo, result.errorType, result.errorCode)
  {
    var table := maps + [END];
    var i := 0;
    while table[i].errorNo != 0
      invariant 0 <= i <= |maps|
      invariant forall j :: 0 <= j < i ==> maps[j].errorNo != errorNo
      decreases |maps| - i
    {
      if errorNo == table[i].errorNo {
        return Translated(table[i].errorType, table[i].errorCode);
      }
      i := i + 1;
    }
    result := Untranslated;
  }

  lemma NoZeroEntry(kind: byte)
    ensures forall i :: 0 <= i < |Maps(kind)| ==> Maps(kind)[i].errorNo < 0
  {
    assert forall i :: 0 <= i < |ACTION_MAPS| ==> ACTION_MAPS[i].errorNo < 0;
    assert forall i :: 0 <= i < |OwnMaps(kind)| ==> OwnMaps(kind)[i].errorNo < 0;
  }

  method TransErrorTypeAndCode(kind: byte, errorNo: int) returns (result: Translation)
    ensures kind > OFPT_QUEUE_GET_CONFIG_REPLY ==> result == Translated(OFPET_BAD_REQUEST, OFPBRC_BAD_TYPE)
    ensures kind <= OFPT_QUEUE_GET_CONFIG_REPLY ==>
              if result.Untranslated? then !Translates(Maps(kind), errorNo)
              else FirstMatch(Maps(kind), errorNo, result.errorType, result.errorCode)
    ensures kind <= 21 ==>
              && (errorNo == -60 ==> result == Translated(if kind == 0 then 0 else 1, 0))
              && (errorNo == -58 || errorNo == -57 ==> result == Translated(1, 6))
              && (errorNo == -55 || errorNo == -56 ==> result == Translated(1, 1))
              && ((kind == 13 || kind == 14) && -33 <= errorNo <= -9 ==> result == Translated(2, 1))
              && ((kind == 13 || kind == 14) && (errorNo == -34 || errorNo == -35) ==> result == Translated(2, 0))
              && ((kind == 13 || kind == 14) && errorNo == -52 ==> result == Translated(2, 4))
              && ((kind == 13 || kind == 14) && (errorNo == -44 || errorNo == -43) ==> result == Translated(2, 5))
              && (kind == 14 && (errorNo == -45 || errorNo == -6 || errorNo == -5) ==> result == Translated(3, 2))
              && (kind == 14 && errorNo == -1 ==> result == Translated(3, 4))
              && (kind == 15 && errorNo == -52 ==> result == Translated(4, 0))
              && (kind == 15 && (errorNo == -51 || errorNo == -49 || errorNo == -4) ==> result == Translated(1, 5))
              && (kind == 9 && errorNo == -48 ==> result == Translated(1, 5))
              && (kind == 16 && (errorNo == -8 || errorNo == -3) ==> result == Translated(1, 2))
              && (kind == 16 && (errorNo == -2 || errorNo == -52 || -45 <= errorNo <= -42) ==>
                    result == Translated(1, 5))
              && (kind == 20 && errorNo == -52 ==> result == Translated(5, 0))
    ensures (kind == 13 || kind == 14) && (errorNo == -36 || errorNo == -42) ==> result == Untranslated
  {
    hide Maps;
    if kind > OFPT_QUEUE_GET_CONFIG_REPLY {
      return Translated(OFPET_BAD_REQUEST, OFPBRC_BAD_TYPE);
    }
    NoZeroEntry(kind);
    result := Search(Maps(kind), errorNo);
    Answers(kind, errorNo, result);
  }

  /** All entries of a type for the same error say the same, which is this. */
  lemma HeaderEntries(kind: byte, e: Map)
    requires e in HeaderMaps(kind)
    ensures -60 <= e.errorNo <= -55 && e.errorNo != -59
    ensures e.errorNo == -60 ==> e == Map(-60, if kind == 0 then 0 else 1, 0)
    ensures e.errorNo == -58 || e.errorNo == -57 ==> e == Map(e.errorNo, 1, 6)
    ensures e.errorNo == -55 || e.errorNo == -56 ==> e == Map(e.errorNo, 1, 1)
  {
  }

  lemma ActionEntry(i: nat)
    requires i < |ACTION_MAPS|
    ensures var e := ACTION_MAPS[i];
            && (-35 <= e.errorNo <= -9 || e.errorNo == -52 || e.errorNo == -44 || e.errorNo == -43)
            && (-33 <= e.errorNo <= -9 ==> e == Map(e.errorNo, 2, 1))
            && (e.errorNo == -34 || e.errorNo == -35 ==> e == Map(e.errorNo, 2, 0))
            && (e.errorNo == -52 ==> e == Map(-52, 2, 4))
            && (e.errorNo == -44 || e.errorNo == -43 ==> e == Map(e.errorNo, 2, 5))
  {
  }

  lemma EntrySays(kind: byte, i: nat)
    requires i < |Maps(kind)|
    ensures var e := Maps(kind)[i];
            && (e.errorNo == -60 ==> e == Map(e.errorNo, if kind == 0 then 0 else 1, 0))
            && (e.errorNo == -58 || e.errorNo == -57 ==> e == Map(e.errorNo, 1, 6))
            && (e.errorNo == -55 || e.errorNo == -56 ==> e == Map(e.errorNo, 1, 1))
            && ((kind == 13 || kind == 14) && -33 <= e.errorNo <= -9 ==> e == Map(e.errorNo, 2, 1))
            && ((kind == 13 || kind == 14) && (e.errorNo == -34 || e.errorNo == -35) ==> e == Map(e.errorNo, 2, 0))
            && ((kind == 13 || kind == 14) && e.errorNo == -52 ==> e == Map(e.errorNo, 2, 4))
            && ((kind == 13 || kind == 14) && (e.errorNo == -44 || e.errorNo == -43) ==> e == Map(e.errorNo, 2, 5))
            && (kind == 14 && (e.errorNo == -45 || e.errorNo == -6 || e.errorNo == -5) ==> e == Map(e.errorNo, 3, 2))
            && (kind == 14 && e.errorNo == -1 ==> e == Map(e.errorNo, 3, 4))
            && (kind == 15 && e.errorNo == -52 ==> e == Map(e.errorNo, 4, 0))
            && (kind == 15 && (e.errorNo == -51 || e.errorNo == -49 || e.errorNo == -4) ==> e == Map(e.errorNo, 1, 5))
            && (kind == 9 && e.errorNo == -48 ==> e == Map(e.errorNo, 1, 5))
            && (kind == 16 && (e.errorNo == -8 || e.errorNo == -3) ==> e == Map(e.errorNo, 1, 2))
            && (kind == 16 && (e.errorNo == -2 || e.errorNo == -52 || -45 <= e.errorNo <= -42) ==>
                  e == Map(e.errorNo, 1, 5))
            && (kind == 20 && e.errorNo == -52 ==> e == Map(e.errorNo, 5, 0))
  {
    hide HeaderMaps, ACTION_MAPS;
    if i < 5 {
      FiveHeaders(kind);
      HeaderEntries(kind, HeaderMaps(kind)[i]);
    } else {
      FiveHeaders(kind);
      OwnEntrySays(kind, i - 5);
    }
  }

  lemma FiveHeaders(kind: byte)
    ensures |HeaderMaps(kind)| == 5
  {
  }

  lemma OwnEntrySays(kind: byte, i: nat)
    requires i < |OwnMaps(kind)|
    ensures var e := OwnMaps(kind)[i];
            && !(-60 <= e.errorNo <= -55)
            && ((kind == 13 || kind == 14) && -33 <= e.errorNo <= -9 ==> e == Map(e.errorNo, 2, 1))
            && ((kind == 13 || kind == 14) && (e.errorNo == -34 || e.errorNo == -35) ==> e == Map(e.errorNo, 2, 0))
            && ((kind == 13 || kind == 14) && e.errorNo == -52 ==> e == Map(e.errorNo, 2, 4))
            && ((kind == 13 || kind == 14) && (e.errorNo == -44 || e.errorNo == -43) ==> e == Map(e.errorNo, 2, 5))
            && (kind == 14 && (e.errorNo == -45 || e.errorNo == -6 || e.errorNo == -5) ==> e == Map(e.errorNo, 3, 2))
            && (kind == 14 && e.errorNo == -1 ==> e == Map(e.errorNo, 3, 4))
            && (kind == 15 && e.errorNo == -52 ==> e == Map(e.errorNo, 4, 0))
            && (kind == 15 && (e.errorNo == -51 || e.errorNo == -49 || e.errorNo == -4) ==> e == Map(e.errorNo, 1, 5))
            && (kind == 9 && e.errorNo == -48 ==> e == Map(e.errorNo, 1, 5))
            && (kind == 16 && (e.errorNo == -8 || e.errorNo == -3) ==> e == Map(e.errorNo, 1, 2))
            && (kind == 16 && (e.errorNo == -2 || e.errorNo == -52 || -45 <= e.errorNo <= -42) ==>
                  e == Map(e.errorNo, 1, 5))
            && (kind == 20 && e.errorNo == -52 ==> e == Map(e.errorNo, 5, 0))
  {
    hide ACTION_MAPS;
    if kind == 13 || kind == 14 {
      ActionCount();
      if i < 31 {
        ActionEntry(i);
      }
    }
  }

  lemma ActionCount()
    ensures |ACTION_MAPS| == 31
  {
  }

  /** What the search answers, by the number of the error. */
  lemma Answers(kind: byte, errorNo: int, result: Translation)
    requires kind <= 21
    requires if result.Untranslated? then !Translates(Maps(kind), errorNo)
             else FirstMatch(Maps(kind), errorNo, result.errorType, result.errorCode)
    ensures
      && (errorNo == -60 ==> result == Translated(if kind == 0 then 0 else 1, 0))
      && (errorNo == -58 || errorNo == -57 ==> result == Translated(1, 6))
      && (errorNo == -55 || errorNo == -56 ==> result == Translated(1, 1))
      && ((kind == 13 || kind == 14) && -33 <= errorNo <= -9 ==> result == Translated(2, 1))
      && ((kind == 13 || kind == 14) && (errorNo == -34 || errorNo == -35) ==> result == Translated(2, 0))
      && ((kind == 13 || kind == 14) && errorNo == -52 ==> result == Translated(2, 4))
      && ((kind == 13 || kind == 14) && (errorNo == -44 || errorNo == -43) ==> result == Translated(2, 5))
      && (kind == 14 && (errorNo == -45 || errorNo == -6 || errorNo == -5) ==> result == Translated(3, 2))
      && (kind == 14 && errorNo == -1 ==> result == Translated(3, 4))
      && (kind == 15 && errorNo == -52 ==> result == Translated(4, 0))
      && (kind == 15 && (errorNo == -51 || errorNo == -49 || errorNo == -4) ==> result == Translated(1, 5))
      && (kind == 9 && errorNo == -48 ==> result == Translated(1, 5))
      && (kind == 16 && (errorNo == -8 || errorNo == -3) ==> result == Translated(1, 2))
      && (kind == 16 && (errorNo == -2 || errorNo == -52 || -45 <= errorNo <= -42) ==> result == Translated(1, 5))
      && (kind == 20 && errorNo == -52 ==> result == Translated(5, 0))
    ensures (kind == 13 || kind == 14) && (errorNo == -36 || errorNo == -42) ==> result == Untranslated
  {
    hide Maps, OwnMaps;
    if result.Translated? {
      var i :| 0 <= i < |Maps(kind)| && Maps(kind)[i] == Map(errorNo, result.errorType, result.errorCode);
      EntrySays(kind, i);
      if (kind == 13 || kind == 14) && Missing(errorNo) {
        MissingEntries(kind, errorNo);
      }
    } else {
      HasEntry(kind, errorNo);
    }
  }

  lemma HasEntry(kind: byte, errorNo: int)
    ensures -60 <= errorNo <= -55 && errorNo != -59 ==> Translates(Maps(kind), errorNo)
    ensures (kind == 13 || kind == 14) && ActionError(errorNo) && !Missing(errorNo) ==> Translates(Maps(kind), errorNo)
    ensures kind == 14 && (errorNo == -45 || errorNo == -6 || errorNo == -5 || errorNo == -1) ==>
              Translates(Maps(kind), errorNo)
    ensures kind == 15 && (errorNo == -52 || errorNo == -51 || errorNo == -49 || errorNo == -4) ==>
              Translates(Maps(kind), errorNo)
    ensures kind == 9 && errorNo == -48 ==> Translates(Maps(kind), errorNo)
    ensures kind == 16 && (errorNo == -8 || errorNo == -3 || errorNo == -2 || errorNo == -52) ==>
              Translates(Maps(kind), errorNo)
    ensures kind == 16 && -45 <= errorNo <= -42 ==>
              Translates(Maps(kind), errorNo)
    ensures kind == 20 && errorNo == -52 ==> Translates(Maps(kind), errorNo)
  {
    hide Maps, Translates;
    if -60 <= errorNo <= -55 && errorNo != -59 {
      HeaderCode(kind, errorNo);
    }
    if (kind == 13 || kind == 14) && ActionError(errorNo) && !Missing(errorNo) {
      ActionErrorEntries(kind, errorNo);
    }
    forall i: nat | i < |OwnMaps(kind)| ensures Translates(Maps(kind), OwnMaps(kind)[i].errorNo) {
      OwnEntry(kind, i);
    }
    if kind == 14 {
      FlowModEntries();
    } else if kind == 15 || kind == 9 || kind == 16 || kind == 20 {
      OwnErrors(kind);
    }
  }

  lemma OwnErrors(kind: byte)
    ensures kind == 15 ==> |OwnMaps(kind)| == 4 && OwnMaps(kind)[0].errorNo == -52 && OwnMaps(kind)[1].errorNo == -51
    ensures kind == 15 ==> OwnMaps(kind)[2].errorNo == -4 && OwnMaps(kind)[3].errorNo == -49
    ensures kind == 9 ==> |OwnMaps(kind)| == 1 && OwnMaps(kind)[0].errorNo == -48
    ensures kind == 20 ==> |OwnMaps(kind)| == 1 && OwnMaps(kind)[0].errorNo == -52
    ensures kind == 16 ==> |OwnMaps(kind)| == 8 && OwnMaps(kind)[0].errorNo == -8 && OwnMaps(kind)[1].errorNo == -3
    ensures kind == 16 ==> OwnMaps(kind)[2].errorNo == -2 && OwnMaps(kind)[3].errorNo == -52
    ensures kind == 16 ==> OwnMaps(kind)[4].errorNo == -45 && OwnMaps(kind)[5].errorNo == -44
    ensures kind == 16 ==> OwnMaps(kind)[6].errorNo == -43 && OwnMaps(kind)[7].errorNo == -42
  {
  }

  // ---------- which judgements are translated ----------

  lemma HeaderTranslated(b: Buffer, kind: byte, least: nat, most: nat)
    ensures ValidateHeader(b, kind, least, most) <= 0
    ensures ValidateHeader(b, kind, least, most) == 0 ==> b.length == At16(b.data, 2)
    ensures forall k: byte :: ValidateHeader(b, kind, least, most) < 0 ==>
              Translates(Maps(k), ValidateHeader(b, kind, least, most))
  {
    var ret := ValidateHeader(b, kind, least, most);
    if ret < 0 {
      forall k: byte ensures Translates(Maps(k), ret) {
        HeaderCode(k, ret);
      }
    }
  }

  lemma HeaderCode(k: byte, ret: int)
    requires ret == ERROR_UNSUPPORTED_VERSION || ret == ERROR_TOO_SHORT_MESSAGE || ret == ERROR_TOO_LONG_MESSAGE
             || ret == ERROR_UNDEFINED_TYPE || ret == ERROR_INVALID_TYPE
    ensures Translates(Maps(k), ret)
  {
    hide OwnMaps;
    var i := if ret == ERROR_UNSUPPORTED_VERSION then 0 else if ret == ERROR_TOO_SHORT_MESSAGE then 1
             else if ret == ERROR_TOO_LONG_MESSAGE then 2 else if ret == ERROR_UNDEFINED_TYPE then 3 else 4;
    assert HeaderMaps(k)[i].errorNo == ret && Maps(k)[i] == HeaderMaps(k)[i];
  }

  /** Entry i of a type's own entries, in its whole table. */
  lemma OwnEntry(kind: byte, i: nat)
    requires i < |OwnMaps(kind)|
    ensures Translates(Maps(kind), OwnMaps(kind)[i].errorNo)
  {
    hide OwnMaps;
    assert Maps(kind)[5 + i] == OwnMaps(kind)[i];
  }

  lemma PortModTranslated(b: Buffer)
    ensures ValidatePortMod(b) < 0 ==> Translates(Maps(OFPT_PORT_MOD), ValidatePortMod(b))
  {
    HeaderTranslated(b, OFPT_PORT_MOD, 32, 32);
    OwnEntry(OFPT_PORT_MOD, 0);
    OwnEntry(OFPT_PORT_MOD, 1);
    OwnEntry(OFPT_PORT_MOD, 2);
    OwnEntry(OFPT_PORT_MOD, 3);
    hide Maps, ValidateHeader;
  }

  lemma StatsRequestTranslated(b: Buffer)
    ensures ValidateStatsRequest(b) < 0 ==> Translates(Maps(OFPT_STATS_REQUEST), ValidateStatsRequest(b))
  {
    forall least: nat, most: nat
      ensures ValidateHeader(b, OFPT_STATS_REQUEST, least, most) < 0
          ==> Translates(Maps(OFPT_STATS_REQUEST), ValidateHeader(b, OFPT_STATS_REQUEST, least, most))
    {
      HeaderTranslated(b, OFPT_STATS_REQUEST, least, most);
    }
    OwnEntry(OFPT_STATS_REQUEST, 0);
    OwnEntry(OFPT_STATS_REQUEST, 1);
    OwnEntry(OFPT_STATS_REQUEST, 2);
    OwnEntry(OFPT_STATS_REQUEST, 3);
    OwnEntry(OFPT_STATS_REQUEST, 4);
    OwnEntry(OFPT_STATS_REQUEST, 5);
    OwnEntry(OFPT_STATS_REQUEST, 6);
    OwnEntry(OFPT_STATS_REQUEST, 7);
    hide Maps, ValidateHeader;
  }

  /**
   For these types every error has a translation. A length that is wrong is reported by the check of the header, so the
   untranslated code of the echo and vendor validators is never returned.
   */
  lemma PlainTranslated(b: Buffer, rounds: nat)
    requires Plain(b.data(1))
    ensures ValidateOpenflowMessage(b, rounds).Done?
    ensures ValidateOpenflowMessage(b, rounds).ret < 0 ==>
              Translates(Maps(b.data(1)), ValidateOpenflowMessage(b, rounds).ret)
  {
    var kind := b.data(1);
    PortModTranslated(b);
    StatsRequestTranslated(b);
    HeaderTranslated(b, kind, HEADER, HEADER);
    HeaderTranslated(b, kind, 12, USHRT_MAX);
    HeaderTranslated(b, kind, HEADER, USHRT_MAX);
    HeaderTranslated(b, kind, 12, 12);
    if kind == OFPT_SET_CONFIG || kind == OFPT_QUEUE_GET_CONFIG_REQUEST {
      OwnEntry(kind, 0);
    }
    hide Maps, ValidateHeader, ValidatePortMod, ValidateStatsRequest;
  }

  // ---------- packet-out and flow-mod ----------

  /** The errors an action can have. */
  predicate ActionError(ret: int) {
    || ERROR_INVALID_ACTION_TYPE <= ret <= ERROR_TOO_SHORT_ACTION_VENDOR
    || ret == ERROR_TOO_SHORT_ACTION || ret == ERROR_UNDEFINED_ACTION_TYPE || ret == ERROR_INVALID_PORT_NO
    || ret == ERROR_INVALID_VLAN_VID || ret == ERROR_INVALID_VLAN_PCP || ret == ERROR_INVALID_NW_TOS
  }

  lemma ActionErrors(a: ActionFields)
    ensures ValidateActionFields(a) < 0 ==> ActionError(ValidateActionFields(a))
  {
  }

  lemma {:induction false} WalkErrors(m: Memory, head: nat, length: u16, offset: u16, rounds: nat)
    ensures var o := Walk(ValidateAction, m, head, length, offset, rounds);
              o.Done? && o.ret != 0 ==> ActionError(o.ret)
    decreases rounds
  {
    hide ValidateActionFields, ActionError;
    if offset < length && rounds > 0 {
      ActionErrors(FieldsAt(m, head + offset));
      ActionAccepted(FieldsAt(m, head + offset));
      WalkErrors(m, head, length, Add16(offset, At16(m, head + offset + 2)), rounds - 1);
    }
  }

  /** The two errors of actions that have no entry. */
  predicate Missing(ret: int) {
    ret == ERROR_TOO_SHORT_ACTION || ret == ERROR_INVALID_NW_TOS
  }

  lemma MissingEntries(kind: byte, ret: int)
    requires kind == OFPT_PACKET_OUT || kind == OFPT_FLOW_MOD
    requires Missing(ret)
    ensures !Translates(Maps(kind), ret)
  {
    assert forall i :: 0 <= i < |HeaderMaps(kind)| ==> HeaderMaps(kind)[i].errorNo != ret;
    assert forall i :: 0 <= i < |ACTION_MAPS| ==> ACTION_MAPS[i].errorNo != ret;
    assert forall i :: 0 <= i < |OwnMaps(kind)| ==> OwnMaps(kind)[i].errorNo != ret;
  }

  lemma FirstActionEntries(ret: int)
    requires ERROR_INVALID_ACTION_TYPE <= ret <= ERROR_TOO_SHORT_ACTION_NW_SRC
    ensures Translates(ACTION_MAPS, ret)
  {
    assert ACTION_MAPS[0].errorNo == ERROR_INVALID_ACTION_TYPE;
    assert ACTION_MAPS[1].errorNo == ERROR_TOO_SHORT_ACTION_OUTPUT;
    assert ACTION_MAPS[2].errorNo == ERROR_TOO_LONG_ACTION_OUTPUT;
    assert ACTION_MAPS[4].errorNo == ERROR_TOO_SHORT_ACTION_VLAN_VID;
    assert ACTION_MAPS[5].errorNo == ERROR_TOO_LONG_ACTION_VLAN_VID;
    assert ACTION_MAPS[7].errorNo == ERROR_TOO_SHORT_ACTION_VLAN_PCP;
    assert ACTION_MAPS[8].errorNo == ERROR_TOO_LONG_ACTION_VLAN_PCP;
    assert ACTION_MAPS[10].errorNo == ERROR_TOO_SHORT_ACTION_STRIP_VLAN;
    assert ACTION_MAPS[11].errorNo == ERROR_TOO_LONG_ACTION_STRIP_VLAN;
    assert ACTION_MAPS[12].errorNo == ERROR_TOO_SHORT_ACTION_DL_SRC;
    assert ACTION_MAPS[13].errorNo == ERROR_TOO_LONG_ACTION_DL_SRC;
    assert ACTION_MAPS[14].errorNo == ERROR_TOO_SHORT_ACTION_DL_DST;
    assert ACTION_MAPS[15].errorNo == ERROR_TOO_LONG_ACTION_DL_DST;
    assert ACTION_MAPS[16].errorNo == ERROR_TOO_SHORT_ACTION_NW_SRC;
  }

  lemma LastActionEntries(ret: int)
    requires ERROR_TOO_LONG_ACTION_NW_SRC <= ret <= ERROR_TOO_SHORT_ACTION_VENDOR
    ensures Translates(ACTION_MAPS, ret)
  {
    assert ACTION_MAPS[17].errorNo == ERROR_TOO_LONG_ACTION_NW_SRC;
    assert ACTION_MAPS[18].errorNo == ERROR_TOO_SHORT_ACTION_NW_DST;
    assert ACTION_MAPS[19].errorNo == ERROR_TOO_LONG_ACTION_NW_DST;
    assert ACTION_MAPS[20].errorNo == ERROR_TOO_SHORT_ACTION_NW_TOS;
    assert ACTION_MAPS[21].errorNo == ERROR_TOO_LONG_ACTION_NW_TOS;
    assert ACTION_MAPS[22].errorNo == ERROR_TOO_SHORT_ACTION_TP_SRC;
    assert ACTION_MAPS[23].errorNo == ERROR_TOO_LONG_ACTION_TP_SRC;
    assert ACTION_MAPS[24].errorNo == ERROR_TOO_SHORT_ACTION_TP_DST;
    assert ACTION_MAPS[25].errorNo == ERROR_TOO_LONG_ACTION_TP_DST;
    assert ACTION_MAPS[26].errorNo == ERROR_TOO_SHORT_ACTION_ENQUEUE;
    assert ACTION_MAPS[27].errorNo == ERROR_TOO_LONG_ACTION_ENQUEUE;
    assert ACTION_MAPS[29].errorNo == ERROR_TOO_SHORT_ACTION_VENDOR;
  }

  /** Every other error of actions has an entry. */
  lemma ActionEntries(ret: int)
    requires ActionError(ret) && !Missing(ret)
    ensures Translates(ACTION_MAPS, ret)
  {
    if ERROR_INVALID_ACTION_TYPE <= ret <= ERROR_TOO_SHORT_ACTION_NW_SRC {
      FirstActionEntries(ret);
    } else if ERROR_TOO_LONG_ACTION_NW_SRC <= ret <= ERROR_TOO_SHORT_ACTION_VENDOR {
      LastActionEntries(ret);
    }
    assert ACTION_MAPS[3].errorNo == ERROR_INVALID_PORT_NO;
    assert ACTION_MAPS[6].errorNo == ERROR_INVALID_VLAN_VID;
    assert ACTION_MAPS[9].errorNo == ERROR_INVALID_VLAN_PCP;
    assert ACTION_MAPS[30].errorNo == ERROR_UNDEFINED_ACTION_TYPE;
  }

  lemma OwnActionEntries(kind: byte, ret: int)
    requires kind == OFPT_PACKET_OUT || kind == OFPT_FLOW_MOD
    requires Translates(ACTION_MAPS, ret)
    ensures Translates(Maps(kind), ret)
  {
    var i :| 0 <= i < |ACTION_MAPS| && ACTION_MAPS[i].errorNo == ret;
    assert OwnMaps(kind)[i] == ACTION_MAPS[i];
    hide OwnMaps, Maps;
    OwnEntry(kind, i);
  }

  lemma ActionErrorEntries(kind: byte, ret: int)
    requires kind == OFPT_PACKET_OUT || kind == OFPT_FLOW_MOD
    requires ActionError(ret)
    ensures Translates(Maps(kind), ret) <==> !Missing(ret)
  {
    hide Maps, Translates;
    if Missing(ret) {
      MissingEntries(kind, ret);
    } else {
      ActionEntries(ret);
      OwnActionEntries(kind, ret);
    }
  }

  lemma FlowModFieldErrors(m: Memory)
    ensures var ret := ValidateFlowModFields(m);
              ret < 0 ==> ActionError(ret) || (exists i :: 31 <= i < 35 && OwnMaps(OFPT_FLOW_MOD)[i].errorNo == ret)
  {
    hide OwnMaps, At16, At32;
    FlowModEntries();
    MatchErrors(NtohMatchFields(m, 8));
    hide ValidateMatch;
  }

  lemma MatchErrors(f: MatchFields)
    ensures ValidateMatch(f) == 0 || ValidateMatch(f) == ERROR_INVALID_WILDCARDS || ActionError(ValidateMatch(f))
  {
  }

  lemma FlowModEntries()
    ensures |OwnMaps(OFPT_FLOW_MOD)| == 35
    ensures OwnMaps(OFPT_FLOW_MOD)[31].errorNo == ERROR_INVALID_WILDCARDS
    ensures OwnMaps(OFPT_FLOW_MOD)[32].errorNo == ERROR_UNDEFINED_FLOW_MOD_COMMAND
    ensures OwnMaps(OFPT_FLOW_MOD)[33].errorNo == ERROR_INVALID_FLOW_PRIORITY
    ensures OwnMaps(OFPT_FLOW_MOD)[34].errorNo == ERROR_INVALID_FLOW_MOD_FLAGS
  {
  }

  /** For packet-out and flow-mod an error has a translation unless it is one of the two. */
  lemma ActionsTranslated(b: Buffer, rounds: nat)
    requires b.data(1) == OFPT_PACKET_OUT || b.data(1) == OFPT_FLOW_MOD
    requires ValidateOpenflowMessage(b, rounds).Done? && ValidateOpenflowMessage(b, rounds).ret < 0
    ensures Translates(Maps(b.data(1)), ValidateOpenflowMessage(b, rounds).ret)
            <==> !Missing(ValidateOpenflowMessage(b, rounds).ret)
  {
    var kind, ret := b.data(1), ValidateOpenflowMessage(b, rounds).ret;
    HeaderTranslated(b, kind, if kind == OFPT_PACKET_OUT then PACKET_OUT_ACTIONS else FLOW_MOD_ACTIONS, USHRT_MAX);
    WalkErrors(b.data, PACKET_OUT_ACTIONS, At16(b.data, 14), 0, rounds);
    WalkErrors(b.data, FLOW_MOD_ACTIONS, Sub16(At16(b.data, 2), FLOW_MOD_ACTIONS), 0, rounds);
    FlowModFieldErrors(b.data);
    FlowModEntries();
    forall i | 31 <= i < 35 ensures Translates(Maps(OFPT_FLOW_MOD), OwnMaps(OFPT_FLOW_MOD)[i].errorNo) {
      OwnEntry(OFPT_FLOW_MOD, i);
    }
    if ActionError(ret) {
      ActionErrorEntries(kind, ret);
    }
    hide Maps, OwnMaps, Walk, ValidateFlowModFields, Translates;
  }

  /** Two messages with one action each, of the given type and length and with tos in its fifth byte. */
  function OnePacketOut(action: byte, len: byte, tos: byte): Buffer {
    Buffer(24, (at: nat) =>
      if at == 0 then 1 else if at == 1 then OFPT_PACKET_OUT else if at == 3 then 24 else if at == 13 then 1
      else if at == 15 then 8 else if at == 17 then action else if at == 19 then len else if at == 20 then tos else 0)
  }

  function OneFlowMod(action: byte, len: byte, tos: byte): Buffer {
    Buffer(80, (at: nat) =>
      if at == 0 then 1 else if at == 1 then OFPT_FLOW_MOD else if at == 3 then 80 else if at == 62 || at == 63 then 255
      else if at == 73 then action else if at == 75 then len else if at == 76 then tos else 0)
  }

  /** Both errors are returned for both types. */
  lemma MissingAreReached()
    ensures ValidatePacketOut(OnePacketOut(OFPAT_OUTPUT, 0, 0), 1) == Done(ERROR_TOO_SHORT_ACTION)
    ensures ValidatePacketOut(OnePacketOut(OFPAT_SET_NW_TOS, 8, 1), 1) == Done(ERROR_INVALID_NW_TOS)
    ensures ValidateFlowMod(OneFlowMod(OFPAT_OUTPUT, 0, 0), 1) == Done(ERROR_TOO_SHORT_ACTION)
    ensures ValidateFlowMod(OneFlowMod(OFPAT_SET_NW_TOS, 8, 1), 1) == Done(ERROR_INVALID_NW_TOS)
  {
    hide ValidatePacketOut, ValidateFlowMod, ValidateActionFields, OnePacketOut, OneFlowMod;
    MissingErrors();
    PacketOutWitness(OFPAT_OUTPUT, 0, 0);
    PacketOutWitness(OFPAT_SET_NW_TOS, 8, 1);
    FlowModWitness(OFPAT_OUTPUT, 0, 0);
    FlowModWitness(OFPAT_SET_NW_TOS, 8, 1);
  }

  lemma MissingErrors()
    ensures ValidateActionFields(ActionFields(OFPAT_OUTPUT, 0, 0, 0)) == ERROR_TOO_SHORT_ACTION
    ensures ValidateActionFields(ActionFields(OFPAT_SET_NW_TOS, 8, 0x100, 1)) == ERROR_INVALID_NW_TOS
  {
  }

  lemma PacketOutWitness(action: byte, len: byte, tos: byte)
    ensures var ret := ValidateActionFields(ActionFields(action, len, tos as int * 0x100, tos));
              ret < 0 ==> ValidatePacketOut(OnePacketOut(action, len, tos), 1) == Done(ret)
  {
    var b := OnePacketOut(action, len, tos);
    assert FieldsAt(b.data, 16) == ActionFields(action, len, tos as int * 0x100, tos);
    assert At16(b.data, 14) == 8 && At16(b.data, 12) == 1;
    assert ValidateHeader(b, OFPT_PACKET_OUT, PACKET_OUT_ACTIONS, USHRT_MAX) == 0;
    hide ValidateActionFields, ValidateHeader, OnePacketOut, At16;
  }

  lemma OneFlowModAt16(action: byte, len: byte, tos: byte, at: nat)
    requires 8 <= at < 61 || at == 62 || at == 70
    ensures At16(OneFlowMod(action, len, tos).data, at) == if at == 62 then USHRT_MAX else 0
    ensures at != 62 ==> OneFlowMod(action, len, tos).data(at) == 0
  {
  }

  lemma OneFlowModRead(action: byte, len: byte, tos: byte)
    ensures var m := OneFlowMod(action, len, tos).data;
              && NtohMatchFields(m, 8) == MatchFields(0, 0, 0, 0)
              && At16(m, 56) == 0 && At16(m, 62) == USHRT_MAX && At16(m, 70) == 0
  {
    hide At16, OneFlowMod;
    OneFlowModAt16(action, len, tos, 8);
    OneFlowModAt16(action, len, tos, 10);
    OneFlowModAt16(action, len, tos, 26);
    OneFlowModAt16(action, len, tos, 28);
    OneFlowModAt16(action, len, tos, 32);
    OneFlowModAt16(action, len, tos, 56);
    OneFlowModAt16(action, len, tos, 62);
    OneFlowModAt16(action, len, tos, 70);
  }

  lemma OneFlowModFields(action: byte, len: byte, tos: byte)
    ensures ValidateFlowModFields(OneFlowMod(action, len, tos).data) == 0
  {
    hide At16, OneFlowMod, NtohMatchFields;
    OneFlowModRead(action, len, tos);
  }

  lemma FlowModWitness(action: byte, len: byte, tos: byte)
    ensures var ret := ValidateActionFields(ActionFields(action, len, tos as int * 0x100, tos));
            && (ret < 0 ==> ValidateFlowMod(OneFlowMod(action, len, tos), 1) == Done(ret))
            && (ret == 0 && len >= 8 ==> ValidateFlowMod(OneFlowMod(action, len, tos), 1) == Done(0))
  {
    var b := OneFlowMod(action, len, tos);
    assert FieldsAt(b.data, 72) == ActionFields(action, len, tos as int * 0x100, tos);
    assert At16(b.data, 2) == 80;
    OneFlowModFields(action, len, tos);
    assert ValidateHeader(b, OFPT_FLOW_MOD, FLOW_MOD_ACTIONS, USHRT_MAX) == 0;
    hide ValidateActionFields, ValidateHeader, OneFlowMod, At16, ValidateFlowModFields, Sub16;
  }
}
