/** Parameters shared by every control transfer the bridge makes. */
module Usb {
  /** Timeout of every control transfer, in milliseconds. */
  const TransferTimeoutMs := 1000
}
