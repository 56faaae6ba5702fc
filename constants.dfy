/**
 * The constant tables of `jt808/constants.py`: message identifiers, location
 * status bits, alarm flags, general-response result codes and the ids of the
 * extra items of a location report.
 */
module Constants {

  // Message identifiers, terminal to platform.
  const TERMINAL_GENERAL_RESPONSE: nat := 0x0001
  const TERMINAL_HEARTBEAT: nat := 0x0002
  const TERMINAL_LOGOUT: nat := 0x0003
  const TERMINAL_REGISTRATION: nat := 0x0100
  const TERMINAL_AUTH: nat := 0x0102
  const TERMINAL_ATTRIBUTE_REPORT: nat := 0x0107
  const LOCATION_REPORT: nat := 0x0200
  const LOCATION_INFO_QUERY_RESPONSE: nat := 0x0201
  const BATCH_LOCATION_UPLOAD: nat := 0x0704
  // Message identifiers, platform to terminal.
  const PLATFORM_GENERAL_RESPONSE: nat := 0x8001
  const TERMINAL_REGISTRATION_RESPONSE: nat := 0x8100
  const SET_TERMINAL_PARAMETERS: nat := 0x8103
  const TERMINAL_CONTROL: nat := 0x8105
  const LOCATION_INFO_QUERY: nat := 0x8201
  const TEMP_POSITION_TRACKING: nat := 0x8202
  // Message identifiers of the project's own extensions.
  const REQUEST_SYNC_TIME: nat := 0x0109
  const SYNC_TIME_RESPONSE: nat := 0x8109
  const SMS_CENTER_NUMBER: nat := 0x0818

  /** Every `MessageID` value, in declaration order. */
  const MESSAGE_IDS: seq<nat> := [
    TERMINAL_GENERAL_RESPONSE, TERMINAL_HEARTBEAT, TERMINAL_LOGOUT, TERMINAL_REGISTRATION,
    TERMINAL_AUTH, TERMINAL_ATTRIBUTE_REPORT, LOCATION_REPORT, LOCATION_INFO_QUERY_RESPONSE,
    BATCH_LOCATION_UPLOAD, PLATFORM_GENERAL_RESPONSE, TERMINAL_REGISTRATION_RESPONSE,
    SET_TERMINAL_PARAMETERS, TERMINAL_CONTROL, LOCATION_INFO_QUERY, TEMP_POSITION_TRACKING,
    REQUEST_SYNC_TIME, SYNC_TIME_RESPONSE, SMS_CENTER_NUMBER]

  // Location status bits.
  const ACC_ON: nat := 0x1
  const LOCATION_FIXED: nat := 0x2
  const LAT_SOUTH: nat := 0x4
  const LON_WEST: nat := 0x8
  const IN_OPERATION: nat := 0x10
  const ENCRYPTED: nat := 0x20

  const STATUS_BITS: seq<nat> := [ACC_ON, LOCATION_FIXED, LAT_SOUTH, LON_WEST, IN_OPERATION, ENCRYPTED]

  // Alarm flags.
  const EMERGENCY: nat := 0x1
  const OVERSPEED: nat := 0x2
  const FATIGUE_DRIVING: nat := 0x4
  const DANGER_WARNING: nat := 0x8
  const GNSS_MODULE_FAULT: nat := 0x10
  const GNSS_ANTENNA_DISCONNECTED: nat := 0x20
  const GNSS_ANTENNA_SHORT_CIRCUIT: nat := 0x40
  const TERMINAL_MAIN_POWER_UNDERVOLTAGE: nat := 0x80

  const ALARM_FLAGS: seq<nat> := [
    EMERGENCY, OVERSPEED, FATIGUE_DRIVING, DANGER_WARNING, GNSS_MODULE_FAULT,
    GNSS_ANTENNA_DISCONNECTED, GNSS_ANTENNA_SHORT_CIRCUIT, TERMINAL_MAIN_POWER_UNDERVOLTAGE]

  // General-response result codes.
  const SUCCESS: nat := 0
  const FAILURE: nat := 1
  const MESSAGE_ERROR: nat := 2
  const UNSUPPORTED: nat := 3
  const ALARM_PROCESSING_CONFIRMATION: nat := 4

  // Extra-item ids of a location report.
  const MILEAGE: nat := 0x01
  const OIL: nat := 0x02
  const SPEED: nat := 0x03
  const ALTITUDE: nat := 0x04

  /** No value occurs twice in `s`. */
  predicate Distinct(s: seq<nat>)
  {
    forall i, j :: 0 <= i < j < |s| ==> s[i] != s[j]
  }

  /** `x` has exactly one bit set. */
  predicate IsSingleBit(x: nat)
  {
    x == 1 || (x > 1 && x % 2 == 0 && IsSingleBit(x / 2))
  }

  /** No two message identifiers coincide, so dispatch on the identifier is unambiguous. */
  lemma MessageIdsDistinct()
    ensures Distinct(MESSAGE_IDS)
  {
    // One pair at a time: each comparison is between two known constants.
    var s := MESSAGE_IDS;
    forall i, j | 0 <= i < j < |s|
      ensures s[i] != s[j]
    {
    }
  }

  /** Status bits and alarm flags are single bits, pairwise distinct within their table. */
  lemma FlagTablesAreSingleBits()
    ensures forall i :: 0 <= i < |STATUS_BITS| ==> IsSingleBit(STATUS_BITS[i])
    ensures forall i :: 0 <= i < |ALARM_FLAGS| ==> IsSingleBit(ALARM_FLAGS[i])
    ensures Distinct(STATUS_BITS) && Distinct(ALARM_FLAGS)
  {
    assert IsSingleBit(0x80) by {
      assert IsSingleBit(0x40) by {
        assert IsSingleBit(0x20) by {
          assert IsSingleBit(0x10) by {
            assert IsSingleBit(0x8);
          }
        }
      }
    }
  }
}
