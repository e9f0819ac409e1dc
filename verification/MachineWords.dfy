/** Go's unsigned machine words, as subset types of `nat`. */
module MachineWords {

  const WORD32: nat := 0x1_0000_0000
  const WORD64: nat := 0x1_0000_0000_0000_0000

  type byte = n: nat | n < 0x100
  type uint32 = n: nat | n < WORD32
  type uint64 = n: nat | n < WORD64
}
