/** The machine types several modules share. */
module MachineWords {
  type byte = b: nat | b < 256

  const U32_MAX := 0xFFFF_FFFF
}
