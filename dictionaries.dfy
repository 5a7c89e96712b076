/** The description of one dictionary the client can search. */
module Dictionaries {
  /** A dictionary: the short key it is stored and shown under, and its display name. */
  datatype DictInfo = DictInfo(key: string, displayName: string)

  /** The key of a dictionary. */
  function DictKey(d: DictInfo): string {
    d.key
  }
}
