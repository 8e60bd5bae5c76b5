/** The 32-bit flag word stored with every item: 4 type bits, 12 internal bits, 16 user bits. */
module PayloadFlags {

  const MASK_TYPE: bv32 := 0x0000_000F
  const MASK_INTERNAL: bv32 := 0x0000_FFF0
  const MASK_USER: bv32 := 0xFFFF_0000

  const IS_STRING: bv32 := 0
  const IS_LONG: bv32 := 1
  const IS_DOUBLE: bv32 := 2
  const IS_BOOL: bv32 := 3
  const IS_SERIALIZED: bv32 := 4
  const IS_IGBINARY: bv32 := 5
  const IS_JSON: bv32 := 6
  const IS_MSGPACK: bv32 := 7

  const COMPRESSED: bv32 := 1
  const COMPRESSION_ZLIB: bv32 := 2
  const COMPRESSION_FASTLZ: bv32 := 4
  const COMPRESSION_ZSTD: bv32 := 8

  function GetType(flags: bv32): bv32 {
    flags & MASK_TYPE
  }

  function SetType(flags: bv32, code: bv32): bv32 {
    flags | (code & MASK_TYPE)
  }

  function GetInternal(flags: bv32): bv32 {
    (flags & MASK_INTERNAL) >> 4
  }

  function SetInternal(flags: bv32, bits: bv32): bv32 {
    flags | ((bits << 4) & MASK_INTERNAL)
  }

  predicate HasInternal(flags: bv32, bits: bv32) {
    GetInternal(flags) & bits == bits
  }

  function GetUser(flags: bv32): bv32 {
    (flags & MASK_USER) >> 16
  }

  function SetUser(flags: bv32, user: bv32): bv32 {
    flags | ((user << 16) & MASK_USER)
  }

  /** The three fields do not disturb each other, whichever of them are set. */
  lemma FieldsIndependent(code: bv32, bits: bv32, user: bv32)
    requires code <= 0xF && bits <= 0xFFF && user <= 0xFFFF
    ensures var f := SetUser(SetInternal(SetType(0, code), bits), user);
            GetType(f) == code && GetInternal(f) == bits && GetUser(f) == user
  {
  }

  lemma NothingSet(flags: bv32)
    ensures SetInternal(flags, 0) == flags && SetUser(flags, 0) == flags
  {
  }
}
