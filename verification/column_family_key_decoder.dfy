/** `ColumnFamilyKeyDecoder`: the text the raw-state export shows for a key.
    Keys of the families registered with a decoder (the string-keyed
    `DEFAULT` and `KEY`) are read as a `DbString` after the family prefix;
    every other key is shown in hex. Reading a `DbString` belongs to Zeebe
    and is the parameter `dbString`. */
module ColumnFamilyKeyDecoder {

  import opened Wrappers
  import opened Bytes
  import opened ColumnFamilies

  /** Whether a decoder is registered for the family (`cfDecoders`). */
  predicate HasDecoder(family: Family) {
    family == DEFAULT || family == KEY
  }

  /** `decodeColumnFamilyKey(cf, key)`: the registered decoder's text, or
      the key in hex; a hex rendering always reads back as the key. */
  function DecodeColumnFamilyKey(family: Family, key: Bytes, dbString: Bytes -> string): (r: string)
    ensures HasDecoder(family) ==> r == dbString(key)
    ensures !HasDecoder(family) ==> ParseHex(r) == Some(key)
  {
    if HasDecoder(family) then dbString(key)
    else
      ParseHexOfHex(key);
      Hex(key)
  }
}
