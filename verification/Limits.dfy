/** The sizes of the server's buffers, and the mark for a response whose last block has been loaded. */
module Limits {
  const MAX_REQ_BUF_SIZE := 128
  const MAX_SEND_BUF_SIZE := 256
  const STAGE_END: nat := 0xFFFF_FFFF
}
