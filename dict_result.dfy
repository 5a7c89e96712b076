/** The result records a dictionary lookup returns to the client. */
module DictResult {
  import opened Wrappers
  import opened Xml

  /** One inflected form of a lemma, with its grammatical description. */
  datatype InflectionData = InflectionData(
    lemmaName: string,
    form: string,
    data: string,
    usageNote: Option<string>)

  /** One dictionary entry, with the inflections that led to it when the lookup went
      through inflection analysis. The outline type belongs to code not modelled here. */
  datatype EntryResult<O> = EntryResult(
    outline: O,
    entry: Node,
    inflections: Option<seq<InflectionData>>)
}
