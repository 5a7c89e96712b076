/**
 * Lewis & Short: choosing the storage keys of each parsed entry, turning it into
 * a stored row, and merging exact and inflected lookups.
 *
 * Parsing, orth extraction, vowel-marker merging, display rendering, outlines,
 * message encoding, the SQL store and the inflection database belong to code not
 * modelled here; they enter as function-valued parameters.
 */
module LewisAndShort {
  import opened Wrappers
  import opened Strings
  import opened Seqs
  import opened Xml
  import opened DictResult

  /** What is stored for one entry. */
  datatype StoredEntryData<O> = StoredEntryData(n: Option<string>, outline: O, entry: Node)

  /** A row of the dictionary store: the comma-joined keys and the encoded entry. */
  datatype RawDictEntry = RawDictEntry(keys: string, entry: string)

  /** The functions of other files that entry processing calls. */
  datatype Collaborators<!O> = Collaborators(
    getOrths: Node -> seq<string>,
    mergeVowelMarkers: string -> string,
    isRegularOrth: string -> bool,
    displayEntryFree: Node -> Node,
    extractOutline: Node -> O,
    encode: StoredEntryData<O> -> string)

  // ---------------------------------------------------------------------------
  // Key selection

  /** The regular orths when there is at least one, otherwise every orth. */
  function ChooseKeys(orths: seq<string>, isRegular: string -> bool): seq<string> {
    var regulars := Filter(orths, isRegular);
    if |regulars| > 0 then regulars else orths
  }

  lemma ChooseKeysRule(orths: seq<string>, isRegular: string -> bool)
    ensures (exists i :: 0 <= i < |orths| && isRegular(orths[i])) ==>
              ChooseKeys(orths, isRegular) == Filter(orths, isRegular)
    ensures (forall i :: 0 <= i < |orths| ==> !isRegular(orths[i])) ==>
              ChooseKeys(orths, isRegular) == orths
    ensures IsSubsequence(ChooseKeys(orths, isRegular), orths)
    ensures |orths| > 0 ==> |ChooseKeys(orths, isRegular)| > 0
  {
    var regulars := Filter(orths, isRegular);
    if |regulars| > 0 {
      FilterIsSubsequence(orths, isRegular);
      assert regulars[0] in orths && isRegular(regulars[0]);
    } else {
      SubsequenceReflexive(orths);
    }
  }

  /** The merged orths of an entry. */
  function MergedOrths<O>(root: Node, c: Collaborators<O>): seq<string> {
    Map(c.getOrths(root), c.mergeVowelMarkers)
  }

  /** The storage keys of one entry; an entry without orths is an error. */
  function EntryKeys<O>(root: Node, c: Collaborators<O>): (r: Result<seq<string>>)
    ensures r.Success? <==> |c.getOrths(root)| > 0
    ensures r.Success? ==> |r.value| > 0 && IsSubsequence(r.value, MergedOrths(root, c))
    ensures r.Success? ==> r.value == ChooseKeys(MergedOrths(root, c), c.isRegularOrth)
  {
    var orths := MergedOrths(root, c);
    if |orths| == 0 then Failure("Expected > 0 orths")
    else
      ChooseKeysRule(orths, c.isRegularOrth);
      Success(ChooseKeys(orths, c.isRegularOrth))
  }

  /** `StoredEntryData.toRawDictEntry`: no key may contain a comma, since the keys are
      stored comma-joined. */
  function ToRawDictEntry<O>(keys: seq<string>, entry: StoredEntryData<O>, encode: StoredEntryData<O> -> string)
    : (r: Result<RawDictEntry>)
    ensures r.Success? <==> NoneContains(keys, ',')
    ensures r.Success? ==> r.value.entry == encode(entry)
    ensures r.Success? && |keys| > 0 ==> Split(r.value.keys, ',') == keys
  {
    if exists i :: 0 <= i < |keys| && ',' in keys[i] then Failure("assertEqual: a key contains ','")
    else
      var row := RawDictEntry(Join(keys, ","), encode(entry));
      if |keys| > 0 then SplitOfJoin(keys, ','); Success(row) else Success(row)
  }

  /** The row for one parsed entry. */
  function EntryFor<O>(root: Node, c: Collaborators<O>): (r: Result<RawDictEntry>)
    ensures r.Success? ==> |c.getOrths(root)| > 0
  {
    var keys :- EntryKeys(root, c);
    var data := StoredEntryData(GetAttr(root, "n"), c.extractOutline(root), c.displayEntryFree(root));
    ToRawDictEntry(keys, data, c.encode)
  }

  /** Every stored row has a non-empty key list whose split gives back the chosen keys. */
  lemma EntryForKeys<O>(root: Node, c: Collaborators<O>)
    requires EntryFor(root, c).Success?
    ensures var keys := Split(EntryFor(root, c).value.keys, ',');
            |keys| > 0 && keys == ChooseKeys(MergedOrths(root, c), c.isRegularOrth)
  {
    var keys := EntryKeys(root, c).value;
    assert |keys| > 0;
  }

  /** `processPerseusXml` over the roots the parser produced: one row per root, in order,
      or the first error. */
  method ProcessPerseusXml<O>(roots: seq<Node>, c: Collaborators<O>) returns (r: Result<seq<RawDictEntry>>)
    ensures r.Success? <==> forall i :: 0 <= i < |roots| ==> EntryFor(roots[i], c).Success?
    ensures r.Success? ==> |r.value| == |roots|
    ensures r.Success? ==> forall i :: 0 <= i < |roots| ==> r.value[i] == EntryFor(roots[i], c).value
    ensures r.Failure? ==> exists i :: 0 <= i < |roots| && EntryFor(roots[i], c) == Failure(r.error)
                              && forall j :: 0 <= j < i ==> EntryFor(roots[j], c).Success?
  {
    r := HandleEach(roots, (root: Node) => EntryFor(root, c));
  }

  /** The loop of `processPerseusXml`: each root in turn, stopping at the first error. */
  method HandleEach<X, Y>(roots: seq<X>, handle: X -> Result<Y>) returns (r: Result<seq<Y>>)
    ensures r.Success? <==> forall i :: 0 <= i < |roots| ==> handle(roots[i]).Success?
    ensures r.Success? ==> |r.value| == |roots|
    ensures r.Success? ==> forall i :: 0 <= i < |roots| ==> r.value[i] == handle(roots[i]).value
    ensures r.Failure? ==> exists i :: 0 <= i < |roots| && handle(roots[i]) == Failure(r.error)
                              && forall j :: 0 <= j < i ==> handle(roots[j]).Success?
  {
    var rows: seq<Y> := [];
    var numHandled := 0;
    while numHandled < |roots|
      invariant 0 <= numHandled <= |roots| && |rows| == numHandled
      invariant forall i :: 0 <= i < numHandled ==> handle(roots[i]).Success?
      invariant forall i :: 0 <= i < numHandled ==> rows[i] == handle(roots[i]).value
    {
      var row := handle(roots[numHandled]);
      if row.Failure? {
        return Failure(row.error);
      }
      rows := rows + [row.value];
      numHandled := numHandled + 1;
    }
    r := Success(rows);
  }

  // ---------------------------------------------------------------------------
  // Lookup

  /** A morphological analysis of the input word. */
  datatype InflectionInfo = InflectionInfo(inflection: string, usageNote: Option<string>)
  datatype InflectedForm = InflectedForm(form: string, inflectionData: seq<InflectionInfo>)
  datatype Analysis = Analysis(lemmaName: string, inflectedForms: seq<InflectedForm>)

  function ToEntryResult<O>(data: StoredEntryData<O>): EntryResult<O> {
    EntryResult(data.outline, data.entry, None)
  }

  /** The inflection records of one analysis: each form's data, form by form. */
  function InflectionsOf(a: Analysis, forms: seq<InflectedForm>): seq<InflectionData>
    decreases |forms|
  {
    if forms == [] then []
    else
      Map(forms[0].inflectionData, (info: InflectionInfo) =>
        InflectionData(a.lemmaName, forms[0].form, info.inflection, info.usageNote))
      + InflectionsOf(a, forms[1..])
  }

  /** The filter on stored entries for a lemma split on "#": with one chunk everything is
      kept; otherwise each entry checks that there are exactly two chunks and is kept when
      its `n` equals the second. */
  function KeepForLemma<O>(chunks: seq<string>, data: seq<StoredEntryData<O>>): Result<seq<StoredEntryData<O>>>
    requires |chunks| >= 1
  {
    if |chunks| == 1 then Success(data)
    else if data == [] then Success([])
    else if |chunks| != 2 then Failure("assertEqual: lemma has more than one '#'")
    else Success(Filter(data, (d: StoredEntryData<O>) => d.n == Some(chunks[1])))
  }

  /** What a lemma without "#", with one "#", or with more keeps. */
  lemma KeepForLemmaCases<O>(name: string, data: seq<StoredEntryData<O>>)
    ensures '#' !in name ==> KeepForLemma(Split(name, '#'), data) == Success(data)
    ensures Count(name, '#') == 1 ==>
              var k := IndexOf(name, '#');
              Split(name, '#') == [name[..k], name[k + 1..]] &&
              KeepForLemma(Split(name, '#'), data)
                == Success(Filter(data, (d: StoredEntryData<O>) => d.n == Some(name[k + 1..])))
    ensures Count(name, '#') > 1 && data != [] ==> KeepForLemma(Split(name, '#'), data).Failure?
  {
    SplitLength(name, '#');
    if '#' !in name {
      SplitWithout(name, '#');
    }
    if Count(name, '#') == 1 {
      var k := IndexOf(name, '#');
      SplitAtFirst(name, '#');
      var rest := name[k + 1..];
      SplitLength(rest, '#');
      SplitWithout(rest, '#');
    }
  }

  /** The results contributed by one analysis. */
  function ResultsFor<O>(a: Analysis, store: string -> seq<StoredEntryData<O>>): Result<seq<EntryResult<O>>> {
    var chunks := Split(a.lemmaName, '#');
    var kept :- KeepForLemma(chunks, store(chunks[0]));
    Success(Map(kept, (d: StoredEntryData<O>) =>
      EntryResult(d.outline, d.entry, Some(InflectionsOf(a, a.inflectedForms)))))
  }

  /** An analysis is exact when its lemma base is the input without diacritics. */
  predicate IsExact(a: Analysis, plainInput: string) {
    Split(a.lemmaName, '#')[0] == plainInput
  }

  /** The exact and inflected results of the given analyses, in analysis order. */
  function Partition<O>(analyses: seq<Analysis>, store: string -> seq<StoredEntryData<O>>, plainInput: string)
    : Result<(seq<EntryResult<O>>, seq<EntryResult<O>>)>
    decreases |analyses|
  {
    if analyses == [] then Success(([], []))
    else
      var p :- Partition(analyses[..|analyses| - 1], store, plainInput);
      var a := analyses[|analyses| - 1];
      var rs :- ResultsFor(a, store);
      if IsExact(a, plainInput) then Success((p.0 + rs, p.1)) else Success((p.0, p.1 + rs))
  }

  function IdOf<O>(e: EntryResult<O>): Option<string> {
    GetAttr(e.entry, "id")
  }

  function Ids<O>(s: seq<EntryResult<O>>): (r: seq<Option<string>>)
    ensures |r| == |s| && forall i :: 0 <= i < |s| ==> r[i] == IdOf(s[i])
  {
    seq(|s|, i requires 0 <= i < |s| => IdOf(s[i]))
  }

  /** The candidates left after skipping each one whose id was already seen. */
  function Dedup<O>(s: seq<EntryResult<O>>): seq<EntryResult<O>>
    decreases |s|
  {
    if s == [] then []
    else
      var d := Dedup(s[..|s| - 1]);
      if IdOf(s[|s| - 1]) in Ids(d) then d else d + [s[|s| - 1]]
  }

  /** Index `i` holds the first candidate with its id. */
  predicate IsFirstWithId<O>(s: seq<EntryResult<O>>, i: nat)
    requires i < |s|
  {
    forall j :: 0 <= j < i ==> IdOf(s[j]) != IdOf(s[i])
  }

  /** The first-occurrence candidates, in order (a reference definition). */
  function FirstOccurrences<O>(s: seq<EntryResult<O>>): seq<EntryResult<O>>
    decreases |s|
  {
    if s == [] then []
    else
      var f := FirstOccurrences(s[..|s| - 1]);
      if IsFirstWithId(s, |s| - 1) then f + [s[|s| - 1]] else f
  }

  /** The merged results carry exactly the ids of the candidates. */
  lemma {:induction false} DedupIds<O>(s: seq<EntryResult<O>>, x: Option<string>)
    ensures x in Ids(Dedup(s)) <==> x in Ids(s)
    decreases |s|
  {
    if s != [] {
      var p := s[..|s| - 1];
      DedupIds(p, x);
      DedupIds(p, IdOf(s[|s| - 1]));
      var d := Dedup(p);
      assert Ids(s) == Ids(p) + [IdOf(s[|s| - 1])];
      if IdOf(s[|s| - 1]) !in Ids(d) {
        assert Ids(d + [s[|s| - 1]]) == Ids(d) + [IdOf(s[|s| - 1])];
      }
    }
  }

  /** No two merged results share an id. */
  lemma {:induction false} DedupNoDuplicateIds<O>(s: seq<EntryResult<O>>)
    ensures NoDuplicates(Ids(Dedup(s)))
    decreases |s|
  {
    if s != [] {
      var d := Dedup(s[..|s| - 1]);
      DedupNoDuplicateIds(s[..|s| - 1]);
      if IdOf(s[|s| - 1]) !in Ids(d) {
        assert Ids(d + [s[|s| - 1]]) == Ids(d) + [IdOf(s[|s| - 1])];
      }
    }
  }

  /** Merging keeps exactly the first candidate of each id, in candidate order. */
  lemma {:induction false} DedupIsFirstOccurrences<O>(s: seq<EntryResult<O>>)
    ensures Dedup(s) == FirstOccurrences(s)
    decreases |s|
  {
    if s != [] {
      var p := s[..|s| - 1];
      var last := s[|s| - 1];
      DedupIsFirstOccurrences(p);
      DedupIds(p, IdOf(last));
      if IdOf(last) in Ids(p) {
        var j :| 0 <= j < |p| && Ids(p)[j] == IdOf(last);
        assert IdOf(s[j]) == IdOf(last);
        assert !IsFirstWithId(s, |s| - 1);
      } else {
        forall j | 0 <= j < |s| - 1
          ensures IdOf(s[j]) != IdOf(last)
        {
          assert Ids(p)[j] == IdOf(s[j]);
        }
      }
    }
  }

  /** `getEntry`: the exact matches alone unless inflected lookup is asked for and an
      inflection database exists; otherwise the exact-lemma results, the exact matches and
      the inflected results, keeping the first entry of each id. */
  method GetEntry<O>(
    store: string -> seq<StoredEntryData<O>>,
    input: string,
    handleInflections: Option<bool>,
    inflectionDbConfigured: bool,
    analysesFor: string -> seq<Analysis>,
    removeDiacritics: string -> string)
    returns (r: Result<seq<EntryResult<O>>>)
    ensures handleInflections != Some(true) || !inflectionDbConfigured ==>
              r == Success(Map(store(input), ToEntryResult))
    ensures handleInflections == Some(true) && inflectionDbConfigured ==>
              var p := Partition(analysesFor(input), store, removeDiacritics(input));
              (r.Failure? <==> p.Failure?) &&
              (p.Success? ==> r.value == Dedup(p.value.0 + Map(store(input), ToEntryResult) + p.value.1))
  {
    var exactMatches := Map(store(input), ToEntryResult);
    if handleInflections != Some(true) || !inflectionDbConfigured {
      return Success(exactMatches);
    }
    var p := PartitionAnalyses(analysesFor(input), store, removeDiacritics(input));
    if p.Failure? {
      return Failure(p.error);
    }
    var merged := MergeById(p.value.0 + exactMatches + p.value.1);
    r := Success(merged);
  }

  /** The loop over the analyses: exact-lemma and inflected results, in analysis order, or
      the error of the first analysis that fails. */
  method PartitionAnalyses<O>(analyses: seq<Analysis>, store: string -> seq<StoredEntryData<O>>, plain: string)
    returns (r: Result<(seq<EntryResult<O>>, seq<EntryResult<O>>)>)
    ensures r.Failure? <==> Partition(analyses, store, plain).Failure?
    ensures r.Success? ==> r == Partition(analyses, store, plain)
  {
    var inflectedResults: seq<EntryResult<O>> := [];
    var exactResults: seq<EntryResult<O>> := [];
    for k := 0 to |analyses|
      invariant Partition(analyses[..k], store, plain) == Success((exactResults, inflectedResults))
    {
      assert analyses[..k + 1][..k] == analyses[..k];
      var results := ResultsFor(analyses[k], store);
      if results.Failure? {
        assert Partition(analyses[..k + 1], store, plain).Failure?;
        PartitionFailurePropagates(analyses, k + 1, store, plain);
        return Failure(results.error);
      }
      if Split(analyses[k].lemmaName, '#')[0] == plain {
        exactResults := exactResults + results.value;
      } else {
        inflectedResults := inflectedResults + results.value;
      }
    }
    assert analyses[..|analyses|] == analyses;
    r := Success((exactResults, inflectedResults));
  }

  /** The merge loop: a candidate is kept unless its id was seen before. */
  method MergeById<O>(candidates: seq<EntryResult<O>>) returns (merged: seq<EntryResult<O>>)
    ensures merged == Dedup(candidates)
  {
    merged := [];
    var idsSoFar: set<Option<string>> := {};
    for k := 0 to |candidates|
      invariant merged == Dedup(candidates[..k])
      invariant forall x :: x in idsSoFar <==> x in Ids(merged)
    {
      assert candidates[..k + 1][..k] == candidates[..k];
      var id := IdOf(candidates[k]);
      if id in idsSoFar {
        continue;
      }
      idsSoFar := idsSoFar + {id};
      merged := merged + [candidates[k]];
      assert Ids(merged) == Ids(merged[..|merged| - 1]) + [id];
    }
    assert candidates[..|candidates|] == candidates;
  }

  /** Once a prefix of the analyses fails, so does the whole list. */
  lemma {:induction false} PartitionFailurePropagates<O>(
    analyses: seq<Analysis>, k: nat, store: string -> seq<StoredEntryData<O>>, plainInput: string)
    requires k <= |analyses|
    requires Partition(analyses[..k], store, plainInput).Failure?
    ensures Partition(analyses, store, plainInput).Failure?
    decreases |analyses| - k
  {
    if k < |analyses| {
      assert analyses[..k + 1][..k] == analyses[..k];
      PartitionFailurePropagates(analyses, k + 1, store, plainInput);
    } else {
      assert analyses[..k] == analyses;
    }
  }
}
