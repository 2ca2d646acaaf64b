module AppResults {
  /** The results the node interface reports to its callers; the others of the
      source do not occur in the operations modelled here. */
  datatype AppRes =
    | OK | STACK_NOT_STOPPED | STACK_ALREADY_STOPPED | STACK_ALREADY_STARTED | INVALID_VALUE | ACCESS_DENIED
    | DATA_ERROR | NO_SCRATCHPAD_START | NO_VALID_SCRATCHPAD | INVALID_SEQ | INVALID_START_ADDRESS
    | INVALID_NUMBER_OF_BYTES | INVALID_SCRATCHPAD | NODE_ADD_NOT_SET | INTERNAL_ERROR
}
