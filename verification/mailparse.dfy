/**
 * The outside mail parser, reduced to the four capabilities the core uses.
 * Its behaviour is not modelled: a parser is a value passed in, and the only
 * thing assumed about it is `Sound`.
 */
module MailParse {
  import opened Common
  import opened Addresses

  /** A parsed header: its name and the raw bytes of its value as they stand in the input. */
  datatype MailHeader = MailHeader(key: Bytes, valueRaw: Bytes)

  datatype MailParser = MailParser(
    /** Parses the header at the start of the bytes given. */
    parseHeader: Bytes -> Option<MailHeader>,
    /** Parses a header's value as an address list. */
    addrParseHeader: MailHeader -> Option<AddrList>,
    /** A header's value, decoded. */
    getValue: MailHeader -> Bytes,
    /** The textual form of an address list. */
    display: AddrList -> Bytes)
  {
    /** The raw value of a parsed header is a slice of the bytes it was parsed from. */
    ghost predicate Sound()
    {
      forall b :: parseHeader(b).Some? ==> Occurs(b, parseHeader(b).value.valueRaw)
    }
  }
}
