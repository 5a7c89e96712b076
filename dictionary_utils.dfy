/**
 * Dictionary page helpers: the rewriting of `class` attributes for embedded
 * views, the inflection table grouped by form, and the search settings kept in
 * session storage.
 */
module DictionaryUtils {
  import opened Wrappers
  import opened Strings
  import Seqs
  import opened OrderedMaps
  import opened DictResult
  import opened Dictionaries

  // ---------------------------------------------------------------------------
  // Class attributes

  const QuickNavAnchor: string := "QNA"
  const QnaEmbedded: string := "QNAEmbedded"

  /** What happens to one class token: in an embedded view the quick-navigation anchor
      class is renamed, everything else stays. */
  function Token(isEmbedded: bool): string -> string {
    chunk => if !isEmbedded || chunk != QuickNavAnchor then chunk else QnaEmbedded
  }

  /** `transformClassAttr`: the space-separated tokens, each passed through `Token`. */
  function TransformClassAttr(value: string, isEmbedded: bool): string {
    Join(Seqs.Map(Split(value, ' '), Token(isEmbedded)), " ")
  }

  /** Outside an embedded view the attribute is returned as it was. */
  lemma TransformNotEmbedded(value: string)
    ensures TransformClassAttr(value, false) == value
  {
    var tokens := Split(value, ' ');
    assert Seqs.Map(tokens, Token(false)) == tokens;
    JoinOfSplit(value, ' ');
  }

  /** In an embedded view the attribute has as many tokens as before, each "QNA" token
      becomes "QNAEmbedded" and every other token is kept. */
  lemma TransformEmbedded(value: string)
    ensures var before := Split(value, ' ');
            var after := Split(TransformClassAttr(value, true), ' ');
            && |after| == |before|
            && forall i :: 0 <= i < |before| ==>
                 after[i] == (if before[i] == QuickNavAnchor then QnaEmbedded else before[i])
  {
    var tokens := Seqs.Map(Split(value, ' '), Token(true));
    assert NoneContains(tokens, ' ');
    SplitOfJoin(tokens, ' ');
  }

  /** Rewriting twice is rewriting once: "QNAEmbedded" is never rewritten. */
  lemma TransformIdempotent(value: string, isEmbedded: bool)
    ensures TransformClassAttr(TransformClassAttr(value, isEmbedded), isEmbedded)
            == TransformClassAttr(value, isEmbedded)
  {
    var tokens := Seqs.Map(Split(value, ' '), Token(isEmbedded));
    assert NoneContains(tokens, ' ');
    SplitOfJoin(tokens, ' ');
    assert Seqs.Map(tokens, Token(isEmbedded)) == tokens;
  }

  // ---------------------------------------------------------------------------
  // The inflection table

  /** The form an inflection is listed under. */
  function FormOf(d: InflectionData): string {
    d.form
  }

  /** The pair pushed for an inflection: its description and its usage note. */
  type Row = (string, Option<string>)

  function RowOf(d: InflectionData): Row {
    (d.data, d.usageNote)
  }

  /** The `byForm` loop of `InflectionDataSection`. */
  method GroupByForm(inflections: seq<InflectionData>) returns (byForm: Entries<string, seq<InflectionData>>)
    ensures byForm == GroupBy(inflections, FormOf)
  {
    byForm := [];
    for k := 0 to |inflections|
      invariant byForm == GroupBy(inflections[..k], FormOf)
    {
      assert inflections[..k + 1][..k] == inflections[..k];
      var data := inflections[k];
      ghost var before := byForm;
      if Get(byForm, data.form).None? {
        byForm := Set(byForm, data.form, []);
        GetAfterSet(before, data.form, [], data.form);
        SetTwice(before, data.form, [], [data]);
        assert Get(before, FormOf(data)).GetOr([]) + [data] == [data];
      }
      byForm := Set(byForm, data.form, Get(byForm, data.form).value + [data]);
      assert byForm == Set(before, FormOf(data), Get(before, FormOf(data)).GetOr([]) + [data]);
    }
    assert inflections[..|inflections|] == inflections;
  }

  /** The sort order of the usage notes: a missing note comes first, two notes compare by
      `noteLe` (`localeCompare(a, b) <= 0`, whatever order the locale gives). */
  predicate UsageLe(noteLe: (string, string) -> bool, a: Option<string>, b: Option<string>) {
    a.None? || (b.Some? && noteLe(a.value, b.value))
  }

  /** Any two usage notes are ordered when any two notes are. */
  lemma UsageTotal(noteLe: (string, string) -> bool, a: Option<string>, b: Option<string>)
    requires Seqs.Connected(noteLe)
    ensures UsageLe(noteLe, a, b) || UsageLe(noteLe, b, a)
  {
    if a.Some? && b.Some? {
      assert noteLe(a.value, b.value) || noteLe(b.value, a.value);
    }
  }

  /** Character-code order, one order the notes may be compared by, relates every two. */
  lemma CodeOrderConnected()
    ensures Seqs.Connected(LexLe)
  {
    forall a: string, b: string
      ensures LexLe(a, b) || LexLe(b, a)
    {
      LexTotal(a, b);
    }
  }

  /** Two rows in usage-note order. */
  function RowLe(noteLe: (string, string) -> bool): (Row, Row) -> bool {
    (a: Row, b: Row) => UsageLe(noteLe, a.1, b.1)
  }

  lemma RowLeConnected(noteLe: (string, string) -> bool)
    requires Seqs.Connected(noteLe)
    ensures Seqs.Connected(RowLe(noteLe))
  {
    forall a: Row, b: Row
      ensures RowLe(noteLe)(a, b) || RowLe(noteLe)(b, a)
    {
      UsageTotal(noteLe, a.1, b.1);
    }
  }

  /** The sort of a form's rows by usage note. */
  function SortByUsage(rows: seq<Row>, noteLe: (string, string) -> bool): seq<Row> {
    Seqs.SortBy(rows, RowLe(noteLe))
  }

  /** The sorted rows are ordered by usage note and are the same rows. */
  lemma SortByUsageSpec(rows: seq<Row>, noteLe: (string, string) -> bool)
    requires Seqs.Connected(noteLe)
    ensures Seqs.SortedBy(SortByUsage(rows, noteLe), RowLe(noteLe))
    ensures multiset(SortByUsage(rows, noteLe)) == multiset(rows)
  {
    RowLeConnected(noteLe);
    Seqs.SortBySpec(rows, RowLe(noteLe));
  }

  /** In sorted rows, every row without a usage note comes before every row with one. */
  lemma {:induction false} NoUsageFirst(s: seq<Row>, noteLe: (string, string) -> bool, i: nat, j: nat)
    requires Seqs.SortedBy(s, RowLe(noteLe))
    requires i < j < |s| && s[j].1.None?
    ensures s[i].1.None?
    decreases j - i
  {
    assert RowLe(noteLe)(s[j - 1], s[j]);
    if i < j - 1 {
      NoUsageFirst(s, noteLe, i, j - 1);
    }
  }

  /** One line of the table: the description, then the usage note in parentheses. */
  function FormatLine(row: Row): (line: string)
    ensures |line| >= |row.0| && line[..|row.0|] == row.0
    ensures line == row.0 <==> row.1.None?
  {
    row.0 + (if row.1.None? then "" else " (" + row.1.value + ")")
  }

  /** The lines of one form: its rows sorted by usage note, then formatted. */
  function FormattedLines(group: seq<InflectionData>, noteLe: (string, string) -> bool): seq<string> {
    Seqs.Map(SortByUsage(Seqs.Map(group, RowOf), noteLe), FormatLine)
  }

  /** A form's lines: a single line inline after a space, several as a list without
      repeated lines. */
  datatype FormView = Inline(text: string) | Bullets(items: seq<string>)

  datatype FormSection = FormSection(form: string, view: FormView)

  function ViewOf(lines: seq<string>): FormView {
    if |lines| == 1 then Inline(" " + lines[0]) else Bullets(Seqs.Distinct(lines))
  }

  /** A single line is shown inline; otherwise each distinct line is listed once. */
  lemma ViewOfSpec(lines: seq<string>)
    ensures ViewOf(lines).Inline? <==> |lines| == 1
    ensures ViewOf(lines).Bullets? ==>
              Seqs.NoDuplicates(ViewOf(lines).items)
              && forall x :: x in ViewOf(lines).items <==> x in lines
  {
    Seqs.DistinctSpec(lines);
  }

  function SectionsOf(byForm: Entries<string, seq<InflectionData>>, noteLe: (string, string) -> bool): (r: seq<FormSection>)
    ensures |r| == |byForm|
  {
    seq(|byForm|, i requires 0 <= i < |byForm| =>
      FormSection(byForm[i].0, ViewOf(FormattedLines(byForm[i].1, noteLe))))
  }

  /** `InflectionDataSection`: group, then one section per form. */
  method InflectionDataSection(inflections: seq<InflectionData>, noteLe: (string, string) -> bool)
    returns (sections: seq<FormSection>)
    ensures sections == SectionsOf(GroupBy(inflections, FormOf), noteLe)
  {
    var byForm := GroupByForm(inflections);
    sections := SectionsOf(byForm, noteLe);
  }

  /** The table has one section per distinct form, in first-occurrence order, and each
      section shows the lines of exactly the inflections with that form. */
  lemma SectionsSpec(inflections: seq<InflectionData>, noteLe: (string, string) -> bool, i: nat)
    requires i < |SectionsOf(GroupBy(inflections, FormOf), noteLe)|
    ensures var sections := SectionsOf(GroupBy(inflections, FormOf), noteLe);
            var forms := Seqs.Distinct(Seqs.Map(inflections, FormOf));
            && |sections| == |forms|
            && sections[i].form == forms[i]
            && sections[i].view == ViewOf(FormattedLines(Seqs.Filter(inflections, SameKey(FormOf, forms[i])), noteLe))
  {
    var byForm := GroupBy(inflections, FormOf);
    GroupByKeys(inflections, FormOf);
    assert Keys(byForm)[i] == byForm[i].0;
    GetAt(byForm, i);
    GroupBySpec(inflections, FormOf, byForm[i].0);
  }

  // ---------------------------------------------------------------------------
  // Search settings

  const SearchSettingsKey: string := "SEARCH_SETTINGS_KEY"

  /** Whether a dictionary's key is among the keys. */
  function KeyIn(keys: seq<string>): DictInfo -> bool {
    (d: DictInfo) => d.key in keys
  }

  /** What `store` writes: the keys joined by ";". */
  function StoredValue(dicts: seq<DictInfo>): string {
    Join(Seqs.Map(dicts, DictKey), ";")
  }

  /** What `retrieve` returns for a storage content: every available dictionary when
      nothing is stored, otherwise the available ones whose key is among the stored
      ";"-separated keys, in the available order. */
  function RetrieveFrom(storage: map<string, string>, available: seq<DictInfo>): (r: seq<DictInfo>)
    ensures Seqs.IsSubsequence(r, available)
    ensures SearchSettingsKey !in storage ==> r == available
    ensures SearchSettingsKey in storage ==>
              forall i :: 0 <= i < |available| ==>
                (available[i] in r <==> available[i].key in Split(storage[SearchSettingsKey], ';'))
  {
    if SearchSettingsKey !in storage then
      Seqs.SubsequenceReflexive(available);
      available
    else
      var stored := Split(storage[SearchSettingsKey], ';');
      Seqs.FilterIsSubsequence(available, KeyIn(stored));
      Seqs.Filter(available, KeyIn(stored))
  }

  /** `SearchSettings`: the session storage the settings live in. */
  class SearchSettings {
    var storage: map<string, string>

    constructor(storage: map<string, string>)
      ensures this.storage == storage
    {
      this.storage := storage;
    }

    /** `store`: write the keys of the dictionaries into the settings slot. */
    method Store(dicts: seq<DictInfo>)
      modifies this
      ensures storage == old(storage)[SearchSettingsKey := StoredValue(dicts)]
    {
      var keys := Seqs.Map(dicts, DictKey);
      storage := storage[SearchSettingsKey := Join(keys, ";")];
    }

    /** `retrieve`, with `LatinDict.AVAILABLE` as `available`. */
    method Retrieve(available: seq<DictInfo>) returns (r: seq<DictInfo>)
      ensures r == RetrieveFrom(storage, available)
    {
      if SearchSettingsKey !in storage {
        return available;
      }
      var stored := Split(storage[SearchSettingsKey], ';');
      r := Seqs.Filter(available, KeyIn(stored));
    }
  }

  /** Storing and then retrieving gives the available dictionaries whose keys were
      stored, provided no key contains ";". Storing no dictionary writes "", which
      reads back as the single key "". */
  lemma StoreThenRetrieve(storage: map<string, string>, dicts: seq<DictInfo>, available: seq<DictInfo>)
    requires NoneContains(Seqs.Map(dicts, DictKey), ';')
    ensures var r := RetrieveFrom(storage[SearchSettingsKey := StoredValue(dicts)], available);
            && (dicts != [] ==> r == Seqs.Filter(available, KeyIn(Seqs.Map(dicts, DictKey))))
            && (dicts == [] ==> r == Seqs.Filter(available, KeyIn([""])))
  {
    var keys := Seqs.Map(dicts, DictKey);
    if dicts != [] {
      SplitOfJoin(keys, ';');
    }
  }
}
