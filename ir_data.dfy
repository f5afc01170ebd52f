/** The decoded-result record that every decoder of the receiver fills in
    (the `decodedIRData` member of the receiver), and the enumerations it uses.
    The record's definition is not part of this model's source; only the fields
    that the Kaseikyo decoder reads or writes are kept. */
module IRData {
  import opened Bitwise

  /** Protocol identity (`decode_type_t`), restricted to the members the
      Kaseikyo codec produces, plus the value of a frame nobody recognised. */
  datatype Protocol =
    | Unknown
    | Panasonic
    | Kaseikyo
    | KaseikyoDenon
    | KaseikyoSharp
    | KaseikyoJvc
    | KaseikyoMitsubishi

  /** The flags of a decoded frame (`IRDATA_FLAGS_*`). Their bit values are
      defined outside this model's source, so the flag byte is modelled as the
      set of flags that are on: `flags = A | B` replaces the set by `{A, B}`,
      `flags |= A` adds `A`. */
  datatype Flag =
    | IsRepeat
    | IsAutoRepeat
    | ParityFailed
    | ToggleBit
    | ExtraInfo
    | IsLsbFirst

  /** One decoded frame. Widths follow the C record: 16-bit address, command
      and extra, 32-bit raw data. */
  datatype DecodedResult = DecodedResult(
    protocol: Protocol,
    address: Word,
    command: Word,
    extra: Word,
    numberOfBits: nat,
    flags: set<Flag>,
    decodedRawData: Long
  )

  /** The outcome of a generic decoding routine: the word it read, or
      nothing when the durations did not match. */
  datatype Option<T> = None | Some(value: T)
}
