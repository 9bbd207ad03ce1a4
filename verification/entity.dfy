/** The `ENTITY` record of entity.h: one pin-backed input or output. */
module Entities {
  import opened Words

  /** The record's scalar fields. Its two pointer fields, `port` and
      `data_direction_register`, address hardware registers that several
      entities may share; the bytes they point to are therefore passed to and
      returned from each operation separately instead of being stored here. */
  datatype Entity = Entity(
    registryBit: uint8,
    lastUpdatedMs: uint32,
    debounceMs: uint32,
    longPressTriggerMs: uint32,
    isActive: uint8
  )
}
