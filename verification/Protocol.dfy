/** Wire constants and packet headers (packed structs of the video and parity packets). */
module Protocol {
  import opened Bytes

  const MAX_UDP_PAYLOAD: nat := 1300
  const FEC_GROUP_SIZE: nat := 5
  const MAX_FRAGMENTS: nat := 1024
  const FRAME_CAPACITY: nat := 1024 * 1024

  type uint16 = n: nat | n < 0x10000

  /** The three sender clocks that every fragment of a frame repeats. */
  datatype Stamps = Stamps(capture: nat, encodeStart: nat, encodeEnd: nat)

  datatype VideoHeader = VideoHeader(
    frameId: nat, fragmentIndex: uint16, totalFragments: uint16,
    stamps: Stamps, flags: byte, dataSize: uint16)

  datatype FECHeader = FECHeader(
    frameId: nat, fragmentStart: uint16, fragmentCount: uint16, dataSize: uint16)

  predicate KeyframeFlag(flags: byte) {
    flags & 1 != 0
  }

  predicate HEVCFlag(flags: byte) {
    flags & 2 != 0
  }
}
