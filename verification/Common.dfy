/** What several parts of the model use: bytes, options, error codes. */
module Common {
  /** An 8-bit byte, as the source's uint8_t. */
  type byte = bv8

  const UINT8_MAX: nat := 0xFF
  const UINT16_MAX: nat := 0xFFFF
  const UINT32_MAX: nat := 0xFFFF_FFFF

  datatype Option<T> = None | Some(value: T)

  function Minimum(a: nat, b: nat): nat {
    if a < b then a else b
  }

  /** The internal error codes, and the distance from a request's primitive to
      its confirm's and from an indication's to its response's. */
  const GEN_ERROR := -1
  const TIMEOUT_ERROR := -2
  const SYNC_ERROR := -3
  const WRONG_PARAM_ERROR := -4
  const WRONG_CRC := -5
  const WRONG_BUFFER_SIZE := -6
  const WRONG_CRC_FROM_HOST := -7

  const SAP_CONFIRM_OFFSET: nat := 0x80
  const SAP_RESPONSE_OFFSET: nat := SAP_CONFIRM_OFFSET
}
