/**
 * Building the library index: each work gets an id derived from its path, an
 * output path and its metadata, and the server answers from a cached copy of
 * the index.
 */
module ProcessLibrary {
  import opened Wrappers
  import opened Strings
  import Seqs
  import opened OrderedMaps

  const LibDefaultDir: string := "library_processed"

  /** The works processed when no list is given. */
  const AllWorks: seq<string> := ["texts/latin/perseus/data/phi0448/phi001/phi0448.phi001.perseus-lat2.xml"]

  const LibraryIndex: string := "morcus_library_index.json"

  /** What the index records about a work. */
  datatype WorkMetadata = WorkMetadata(id: string, author: string, name: string)

  /** The author and title read from a work's TEI header. */
  datatype TeiInfo = TeiInfo(author: string, title: string)

  /** The index: work id to output path and metadata. */
  type Index = Entries<string, (string, WorkMetadata)>

  /** The last "/"-separated segment of a path. */
  function LastSegment(path: string): (r: string)
    ensures '/' !in r
  {
    var parts := Split(path, '/');
    parts[|parts| - 1]
  }

  /** A path without "/" is its own last segment. */
  lemma LastSegmentOfName(name: string)
    requires '/' !in name
    ensures LastSegment(name) == name
  {
    SplitWithout(name, '/');
  }

  /** The position of the last "." in `s`. */
  function LastDot(s: string): (r: Option<nat>)
    ensures r.None? <==> '.' !in s
    ensures r.Some? ==> r.value < |s| && s[r.value] == '.' && '.' !in s[r.value + 1..]
    decreases |s|
  {
    if s == [] then None
    else if s[|s| - 1] == '.' then Some(|s| - 1)
    else
      var r := LastDot(s[..|s| - 1]);
      assert s == s[..|s| - 1] + [s[|s| - 1]];
      r
  }

  /** `replace(/\.[^/.]+$/, "")` on a name without "/": removes the last "." and what
      follows it, when something follows it. */
  function StripExtension(name: string): string {
    match LastDot(name)
    case Some(k) => if k < |name| - 1 then name[..k] else name
    case None => name
  }

  /** Only a final, non-empty extension goes: a name without "." or ending in "." is
      kept, otherwise the name is the result, a ".", and an extension without "." or "/". */
  lemma StripExtensionSpec(name: string)
    requires '/' !in name
    ensures var r := StripExtension(name);
            && ('.' !in name ==> r == name)
            && (name != [] && name[|name| - 1] == '.' ==> r == name)
            && ('.' in name && name[|name| - 1] != '.' ==>
                  exists ext :: ext != "" && '.' !in ext && '/' !in ext && name == r + "." + ext)
  {
    if '.' in name && name[|name| - 1] != '.' {
      var k := LastDot(name).value;
      var ext := name[k + 1..];
      assert name == name[..k] + "." + ext;
    }
  }

  /** The work id: the last path segment without its final extension. */
  function WorkId(path: string): (id: string)
    ensures '/' !in id
  {
    var name := LastSegment(path);
    var r := StripExtension(name);
    assert '/' !in r by {
      if LastDot(name).Some? && LastDot(name).value < |name| - 1 {
        assert forall i :: 0 <= i < |r| ==> r[i] == name[i];
      }
    }
    r
  }

  /** The entry a work adds to the index: its output path and its metadata. */
  function EntryFor(outputDir: string, info: string -> TeiInfo): string -> (string, WorkMetadata) {
    path => (outputDir + "/" + WorkId(path), WorkMetadata(WorkId(path), info(path).author, info(path).title))
  }

  /** The index after the given works, each setting its id's entry. */
  function IndexOf(outputDir: string, works: seq<string>, info: string -> TeiInfo): Index {
    SetEach(works, WorkId, EntryFor(outputDir, info))
  }

  /** `processLibrary` without the file I/O: `info` stands for reading and parsing each
      work's TEI header. */
  method ProcessLibraryIndex(info: string -> TeiInfo, outputDir: string := LibDefaultDir, works: seq<string> := AllWorks)
    returns (index: Index)
    ensures index == IndexOf(outputDir, works, info)
  {
    index := [];
    for k := 0 to |works|
      invariant index == SetEach(works[..k], WorkId, EntryFor(outputDir, info))
    {
      assert works[..k + 1][..k] == works[..k];
      var workPath := works[k];
      var workId := WorkId(workPath);
      var tei := info(workPath);
      var metadata := WorkMetadata(workId, tei.author, tei.title);
      var outputPath := outputDir + "/" + workId;
      index := Set(index, workId, (outputPath, metadata));
    }
    assert works[..|works|] == works;
  }

  /** The index has one entry per distinct work id, in first-occurrence order, and each
      entry holds its id's output path, and metadata with that id. */
  lemma IndexShape(outputDir: string, works: seq<string>, info: string -> TeiInfo)
    ensures var index := IndexOf(outputDir, works, info);
            && Keys(index) == Seqs.Distinct(Seqs.Map(works, WorkId))
            && DistinctKeys(index)
            && forall i :: 0 <= i < |index| ==>
                 index[i].1.0 == outputDir + "/" + index[i].0 && index[i].1.1.id == index[i].0
  {
    var index := IndexOf(outputDir, works, info);
    SetEachKeys(works, WorkId, EntryFor(outputDir, info));
    forall i | 0 <= i < |index|
      ensures index[i].1.0 == outputDir + "/" + index[i].0 && index[i].1.1.id == index[i].0
    {
      SetEachEntries(works, WorkId, EntryFor(outputDir, info), index[i]);
    }
  }

  /** A work's id maps to that work's entry unless a later work has the same id: later
      works overwrite earlier ones. */
  lemma IndexLastWins(outputDir: string, works: seq<string>, info: string -> TeiInfo, i: nat)
    requires i < |works|
    requires forall j :: i < j < |works| ==> WorkId(works[j]) != WorkId(works[i])
    ensures Get(IndexOf(outputDir, works, info), WorkId(works[i])) == Some(EntryFor(outputDir, info)(works[i]))
  {
    SetEachLastWins(works, WorkId, EntryFor(outputDir, info), i);
  }

  /** An id no work has is not in the index. */
  lemma IndexMissing(outputDir: string, works: seq<string>, info: string -> TeiInfo, id: string)
    requires id !in Seqs.Map(works, WorkId)
    ensures Get(IndexOf(outputDir, works, info), id).None?
  {
    SetEachKeys(works, WorkId, EntryFor(outputDir, info));
    Seqs.DistinctSpec(Seqs.Map(works, WorkId));
  }

  /** The answer to a request for a work: its serialized text, or a rejection with an
      HTTP status. */
  datatype Response = Text(text: string) | Rejected(status: nat, message: string)

  /** The server side of the library: the indices read so far, by result directory. */
  class LibraryServer {
    /** What reading the index file of a result directory gives. */
    const readIndex: string -> Index
    var indices: map<string, Index>
    /** The result directories whose index file has been read, in order. */
    ghost var loads: seq<string>

    ghost predicate Valid()
      reads this
    {
      && Seqs.NoDuplicates(loads)
      && (forall d :: d in loads <==> d in indices)
      && forall d :: d in indices ==> indices[d] == readIndex(d)
    }

    constructor(readIndex: string -> Index)
      ensures Valid() && this.readIndex == readIndex && indices == map[] && loads == []
    {
      this.readIndex := readIndex;
      indices := map[];
      loads := [];
    }

    /** `getIndex`: read a directory's index file the first time only. */
    method GetIndex(resultDir: string := LibDefaultDir) returns (index: Index)
      requires Valid()
      modifies this
      ensures Valid() && index == readIndex(resultDir)
      ensures resultDir in old(indices) ==> indices == old(indices) && loads == old(loads)
      ensures resultDir !in old(indices) ==>
                indices == old(indices)[resultDir := readIndex(resultDir)] && loads == old(loads) + [resultDir]
    {
      if resultDir !in indices {
        indices := indices[resultDir := readIndex(resultDir)];
        loads := loads + [resultDir];
      }
      index := indices[resultDir];
    }

    /** `retrieveWorksList`: the metadata of every indexed work. */
    method RetrieveWorksList(resultDir: string := LibDefaultDir) returns (works: seq<WorkMetadata>)
      requires Valid()
      modifies this
      ensures Valid() && resultDir in indices
      ensures resultDir in old(indices) ==> indices == old(indices) && loads == old(loads)
      ensures resultDir !in old(indices) ==>
                indices == old(indices)[resultDir := readIndex(resultDir)] && loads == old(loads) + [resultDir]
      ensures |works| == |readIndex(resultDir)|
      ensures forall i :: 0 <= i < |works| ==> works[i] == readIndex(resultDir)[i].1.1
    {
      var index := GetIndex(resultDir);
      works := Seqs.Map(Values(index), (e: (string, WorkMetadata)) => e.1);
    }

    /** `retrieveWorkStringified`: the contents of the work's output file, or 404 for an
        id the index does not have. `readFile` stands for reading a file. */
    method RetrieveWorkStringified(workId: string, readFile: string -> string, resultDir: string := LibDefaultDir)
      returns (r: Response)
      requires Valid()
      modifies this
      ensures Valid() && resultDir in indices
      ensures resultDir in old(indices) ==> indices == old(indices) && loads == old(loads)
      ensures resultDir !in old(indices) ==>
                indices == old(indices)[resultDir := readIndex(resultDir)] && loads == old(loads) + [resultDir]
      ensures r.Rejected? <==> workId !in Keys(readIndex(resultDir))
      ensures r.Rejected? ==> r.status == 404 && r.message == "Invalid id: " + workId
      ensures r.Text? ==> r.text == readFile(Get(readIndex(resultDir), workId).value.0)
    {
      var index := GetIndex(resultDir);
      var workPath := Get(index, workId);
      if workPath.None? {
        return Rejected(404, "Invalid id: " + workId);
      }
      r := Text(readFile(workPath.value.0));
    }
  }
}
