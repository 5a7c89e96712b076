/**
 * The Lewis & Short author abbreviations: parsing the list markup of the
 * abbreviation page into authors with their works, grouping them by key into a
 * lazily filled map, and the small static abbreviation tables.
 *
 * The page itself is read from a file by code not modelled here; the parsed
 * root element is a parameter.
 */
module LsAbbreviations {
  import opened Wrappers
  import opened Strings
  import opened Seqs
  import opened Xml
  import opened OrderedMaps

  // ---------------------------------------------------------------------------
  // One list item

  /** Without its first character when that is a comma. */
  function DropLeadingComma(t: string): (r: string)
    ensures if |t| > 0 && t[0] == ',' then r == t[1..] else r == t
  {
    if |t| > 0 && t[0] == ',' then t[1..] else t
  }

  /** Without its last character when that is a comma. */
  function DropTrailingComma(t: string): (r: string)
    ensures if |t| > 0 && t[|t| - 1] == ',' then r == t[..|t| - 1] else r == t
  {
    if |t| > 0 && t[|t| - 1] == ',' then t[..|t| - 1] else t
  }

  /** `s.trim().replace(/(^,)|(,$)/g, "")`: trimmed, then without one leading and one
      trailing comma (a lone "," loses only the one). */
  function Clean(s: string): string {
    DropTrailingComma(DropLeadingComma(Trim(s)))
  }

  /** Reads keys from `children[i..]`: a `<b>` child, and another one after each text
      child that is exactly " or ". Gives the keys and the index where reading stopped. */
  function KeyPhase(children: seq<Node>, i: nat): Result<(seq<string>, nat)>
    decreases |children| - i
  {
    if i >= |children| then Success(([], i))
    else
      var child := children[i];
      if !(child.Elem? && child.name == "b") then Failure("assertIsNode: expected <b>")
      else
        var key :- SoleText(child);
        if i + 1 < |children| && children[i + 1] == Text(" or ") then
          var rest :- KeyPhase(children, i + 2);
          Success(([key] + rest.0, rest.1))
        else Success(([key], i + 1))
  }

  /** What one child after the keys adds to the expansion. A `ul` adds nothing; it is
      handed to the `onUl` callback on the spot, and the error the callback throws, if
      any, ends the walk there. */
  function Piece(n: Node, onUl: Node -> Option<string>): Result<string> {
    if n.Text? then Success(n.text)
    else if n.name == "ul" then (if onUl(n).Some? then Failure(onUl(n).value) else Success(""))
    else SoleText(n)
  }

  /** The expansion text of `children[i..]`, or the first error in child order. */
  function ExpansionFrom(children: seq<Node>, i: nat, onUl: Node -> Option<string>): Result<string>
    decreases |children| - i
  {
    if i >= |children| then Success("")
    else
      var p :- Piece(children[i], onUl);
      var rest :- ExpansionFrom(children, i + 1, onUl);
      Success(p + rest)
  }

  predicate IsUl(n: Node) {
    n.Elem? && n.name == "ul"
  }

  /** The `ul` children of `children[i..]`, in order: those handed to the callback. */
  function UlsFrom(children: seq<Node>, i: nat): (r: seq<Node>)
    ensures forall k :: 0 <= k < |r| ==> IsUl(r[k])
    decreases |children| - i
  {
    if i >= |children| then []
    else (if IsUl(children[i]) then [children[i]] else []) + UlsFrom(children, i + 1)
  }

  /** `new Map(keys.map(key => [clean(key), value]))`. */
  function KeyMap(keys: seq<string>, value: string): Entries<string, string> {
    SetKeys(Seqs.Map(keys, Clean), value)
  }

  /** `set(c, value)` for each `c` of `cs` in turn, starting from an empty map. */
  function SetKeys(cs: seq<string>, value: string): Entries<string, string> {
    SetEach(cs, (c: string) => c, (c: string) => value)
  }

  /** The map holds each of `cs` exactly once, and nothing else, all with the value. */
  lemma SetKeysSpec(cs: seq<string>, value: string)
    ensures DistinctKeys(SetKeys(cs, value))
    ensures forall k :: 0 <= k < |SetKeys(cs, value)| ==> SetKeys(cs, value)[k].1 == value
    ensures forall x :: x in Keys(SetKeys(cs, value)) <==> x in cs
  {
    var key := (c: string) => c;
    var val := (c: string) => value;
    var m := SetEach(cs, key, val);
    SetEachKeys(cs, key, val);
    assert Seqs.Map(cs, key) == cs;
    Seqs.DistinctSpec(cs);
    forall k | 0 <= k < |m|
      ensures m[k].1 == value
    {
      SetEachEntries(cs, key, val, m[k]);
    }
  }

  /** A parsed list item: its keys mapped to its expansion, and the nested lists met. */
  datatype ListItem = ListItem(entries: Entries<string, string>, uls: seq<Node>)

  /** `parseListItem` as a function of the item and of what the callback throws. */
  function ListItemOf(root: Node, onUl: Node -> Option<string>): Result<ListItem> {
    if !(root.Elem? && root.name == "li") then Failure("assertEqual: expected <li>")
    else
      var kp :- KeyPhase(root.children, 0);
      var expanded :- ExpansionFrom(root.children, kp.1, onUl);
      Success(ListItem(KeyMap(kp.0, Clean(expanded)), UlsFrom(root.children, kp.1)))
  }

  function PrependKeys(keys: seq<string>, r: Result<(seq<string>, nat)>): Result<(seq<string>, nat)> {
    if r.Failure? then r else Success((keys + r.value.0, r.value.1))
  }

  function PrependText(s: string, r: Result<string>): Result<string> {
    if r.Failure? then r else Success(s + r.value)
  }

  /** `parseListItem`: the index walk over the item's children. Each `ul` child goes to
      `onUl` when it is reached; the nested lists are also returned, in order, so that the
      caller can gather what they hold. */
  method ParseListItem(root: Node, onUl: Node -> Option<string>) returns (r: Result<ListItem>)
    ensures r == ListItemOf(root, onUl)
    ensures r.Success? ==> root.Elem? && root.name == "li"
    ensures r.Success? ==> forall k :: 0 <= k < |r.value.uls| ==> IsUl(r.value.uls[k])
  {
    if !(root.Elem? && root.name == "li") {
      return Failure("assertEqual: expected <li>");
    }
    var kp := ReadKeys(root.children);
    if kp.Failure? {
      return Failure(kp.error);
    }
    var expanded, uls := ReadExpansion(root.children, kp.value.1, onUl);
    if expanded.Failure? {
      return Failure(expanded.error);
    }
    r := Success(ListItem(KeyMap(kp.value.0, Clean(expanded.value)), uls));
  }

  /** The first loop of `parseListItem`: a `<b>` key, and another after each " or ". */
  method ReadKeys(children: seq<Node>) returns (r: Result<(seq<string>, nat)>)
    ensures r == KeyPhase(children, 0)
  {
    var i := 0;
    var keys: seq<string> := [];
    var done := false;
    assert PrependKeys(keys, KeyPhase(children, i)) == KeyPhase(children, 0) by {
      assert forall x: seq<string> :: [] + x == x;
    }
    while i < |children| && !done
      invariant i <= |children|
      invariant !done ==> KeyPhase(children, 0) == PrependKeys(keys, KeyPhase(children, i))
      invariant done ==> KeyPhase(children, 0) == Success((keys, i))
      decreases |children| - i, if done then 0 else 1
    {
      var current := children[i];
      if !(current.Elem? && current.name == "b") {
        return Failure("assertIsNode: expected <b>");
      }
      var text := SoleText(current);
      if text.Failure? {
        return Failure(text.error);
      }
      ghost var before := keys;
      keys := keys + [text.value];
      i := i + 1;
      var hasOtherKey := i < |children| && children[i] == Text(" or ");
      if !hasOtherKey {
        done := true;
      } else {
        i := i + 1;
        var rest := KeyPhase(children, i);
        if rest.Success? {
          assert keys + rest.value.0 == before + ([text.value] + rest.value.0);
        }
      }
    }
    if !done {
      assert keys + [] == keys;
    }
    r := Success((keys, i));
  }

  /** The second loop of `parseListItem`: the expansion text and the nested lists. */
  method ReadExpansion(children: seq<Node>, start: nat, onUl: Node -> Option<string>)
    returns (r: Result<string>, uls: seq<Node>)
    ensures r == ExpansionFrom(children, start, onUl)
    ensures uls == UlsFrom(children, start)
  {
    var i := start;
    var expanded := "";
    uls := [];
    PrependNothing(ExpansionFrom(children, start, onUl));
    while i < |children|
      invariant start <= i
      invariant ExpansionFrom(children, start, onUl) == PrependText(expanded, ExpansionFrom(children, i, onUl))
      invariant UlsFrom(children, start) == uls + UlsFrom(children, i)
      decreases |children| - i
    {
      var current := children[i];
      var piece := "";
      UlsStep(children, i, uls);
      if current.Text? {
        piece := current.text;
      } else if current.name == "ul" {
        var thrown := onUl(current);
        if thrown.Some? {
          uls := UlsFrom(children, start);
          return Failure(thrown.value), uls;
        }
        uls := uls + [current];
      } else {
        var text := SoleText(current);
        if text.Failure? {
          uls := UlsFrom(children, start);
          return Failure(text.error), uls;
        }
        piece := text.value;
      }
      ExpansionStep(children, i, expanded, piece, onUl);
      expanded := expanded + piece;
      i := i + 1;
    }
    assert expanded + "" == expanded;
    r := Success(expanded);
  }

  lemma PrependNothing(r: Result<string>)
    ensures PrependText("", r) == r
  {
    if r.Success? {
      assert "" + r.value == r.value;
    }
  }

  /** Reading one more child moves it, when it is a `ul`, from the rest to the lists
      collected so far. */
  lemma UlsStep(children: seq<Node>, i: nat, uls: seq<Node>)
    requires i < |children|
    ensures IsUl(children[i]) ==> uls + UlsFrom(children, i) == (uls + [children[i]]) + UlsFrom(children, i + 1)
    ensures !IsUl(children[i]) ==> uls + UlsFrom(children, i) == uls + UlsFrom(children, i + 1)
  {
  }

  /** Reading one more child that contributes `piece` moves it from the rest to the text
      read so far. */
  lemma ExpansionStep(children: seq<Node>, i: nat, expanded: string, piece: string, onUl: Node -> Option<string>)
    requires i < |children| && Piece(children[i], onUl) == Success(piece)
    ensures PrependText(expanded, ExpansionFrom(children, i, onUl))
            == PrependText(expanded + piece, ExpansionFrom(children, i + 1, onUl))
  {
    var rest := ExpansionFrom(children, i + 1, onUl);
    if rest.Success? {
      assert expanded + piece + rest.value == expanded + (piece + rest.value);
    }
  }

  /** Where key reading stops: after the first key not followed by " or ", or at the end
      when the last child is " or ". */
  lemma {:induction false} KeyPhaseEnd(children: seq<Node>, i: nat)
    requires KeyPhase(children, i).Success?
    ensures var (keys, j) := KeyPhase(children, i).value;
            && (i >= |children| ==> keys == [] && j == i)
            && (i < |children| ==> |keys| >= 1 && j <= |children|)
            && (i < |children| ==> j == i + 2 * |keys| - 1 || j == i + 2 * |keys| == |children|)
            && (i < |children| && j < |children| ==> children[j] != Text(" or "))
    decreases |children| - i
  {
    if i < |children| && i + 1 < |children| && children[i + 1] == Text(" or ") {
      KeyPhaseEnd(children, i + 2);
    }
  }

  /** The keys sit at every other position from `i`, each a `<b>` holding that text. */
  lemma {:induction false} KeyPhaseKeys(children: seq<Node>, i: nat)
    requires KeyPhase(children, i).Success?
    ensures var keys := KeyPhase(children, i).value.0;
            forall m :: 0 <= m < |keys| ==>
              i + 2 * m < |children| && children[i + 2 * m].Elem? && children[i + 2 * m].name == "b"
              && SoleText(children[i + 2 * m]) == Success(keys[m])
    decreases |children| - i
  {
    if i < |children| && i + 1 < |children| && children[i + 1] == Text(" or ") {
      KeyPhaseKeys(children, i + 2);
      var keys := KeyPhase(children, i).value.0;
      var rest := KeyPhase(children, i + 2).value.0;
      assert keys == [keys[0]] + rest;
      forall m | 1 <= m < |keys|
        ensures i + 2 * m < |children| && children[i + 2 * m].Elem? && children[i + 2 * m].name == "b"
        ensures SoleText(children[i + 2 * m]) == Success(keys[m])
      {
        assert i + 2 * m == (i + 2) + 2 * (m - 1);
        assert keys[m] == rest[m - 1];
      }
    }
  }

  /** Consecutive keys are separated by a text child that is exactly " or ". */
  lemma {:induction false} KeyPhaseSeparators(children: seq<Node>, i: nat)
    requires KeyPhase(children, i).Success?
    ensures var keys := KeyPhase(children, i).value.0;
            forall m :: 0 <= m < |keys| - 1 ==>
              i + 2 * m + 1 < |children| && children[i + 2 * m + 1] == Text(" or ")
    decreases |children| - i
  {
    if i < |children| && i + 1 < |children| && children[i + 1] == Text(" or ") {
      KeyPhaseSeparators(children, i + 2);
      var keys := KeyPhase(children, i).value.0;
      var rest := KeyPhase(children, i + 2).value.0;
      assert |keys| == 1 + |rest|;
      forall m | 1 <= m < |keys| - 1
        ensures i + 2 * m + 1 < |children| && children[i + 2 * m + 1] == Text(" or ")
      {
        assert i + 2 * m + 1 == (i + 2) + 2 * (m - 1) + 1;
      }
    }
  }

  /** Every key of an item maps to the item's cleaned expansion, and the keys of the
      map are exactly the cleaned key texts. */
  lemma ListItemEntries(root: Node, onUl: Node -> Option<string>)
    requires ListItemOf(root, onUl).Success?
    ensures var item := ListItemOf(root, onUl).value;
            var (keys, j) := KeyPhase(root.children, 0).value;
            var expanded := ExpansionFrom(root.children, j, onUl).value;
            && DistinctKeys(item.entries)
            && (forall k :: 0 <= k < |item.entries| ==> item.entries[k].1 == Clean(expanded))
            && (forall x :: x in Keys(item.entries) <==> x in Seqs.Map(keys, Clean))
  {
    var (keys, j) := KeyPhase(root.children, 0).value;
    SetKeysSpec(Seqs.Map(keys, Clean), Clean(ExpansionFrom(root.children, j, onUl).value));
  }

  // ---------------------------------------------------------------------------
  // The author list

  /** One author: a key, its expansion and the abbreviations of its works. */
  datatype AuthorAbbreviation = AuthorAbbreviation(key: string, expanded: string, works: Entries<string, string>)

  function ChildrenOf(n: Node): seq<Node> {
    if n.Elem? then n.children else []
  }

  /** `works.set` for every entry of a work item, in order. */
  function SetAll(works: Entries<string, string>, entries: Entries<string, string>): Entries<string, string>
    decreases |entries|
  {
    if entries == [] then works
    else
      var last := entries[|entries| - 1];
      Set(SetAll(works, entries[..|entries| - 1]), last.0, last.1)
  }

  /** The callback of a work item: a nested list there throws as soon as it is met. */
  function NoNestedList(ul: Node): Option<string> {
    Some("This should never happen")
  }

  /** What one child of a nested list adds to the works: white-space text nothing,
      other text is an error, and a work item must not hold a nested list. */
  function WorkStep(works: Entries<string, string>, child: Node): Result<Entries<string, string>> {
    if child.Text? then
      if Trim(child.text) == "" then Success(works) else Failure("assert: non-blank text in a works list")
    else
      var item :- ListItemOf(child, NoNestedList);
      Success(SetAll(works, item.entries))
  }

  /** The works gathered from the children of one nested list. */
  function WorksFromChildren(works: Entries<string, string>, children: seq<Node>): Result<Entries<string, string>>
    decreases |children|
  {
    if children == [] then Success(works)
    else
      var w :- WorksFromChildren(works, children[..|children| - 1]);
      WorkStep(w, children[|children| - 1])
  }

  /** The works gathered from all nested lists of an author item, into one map. */
  function WorksFromUls(uls: seq<Node>): Result<Entries<string, string>>
    decreases |uls|
  {
    if uls == [] then Success([])
    else
      var w :- WorksFromUls(uls[..|uls| - 1]);
      WorksFromChildren(w, ChildrenOf(uls[|uls| - 1]))
  }

  /** The callback of an author item: the nested list's works are read when the list is
      met, and the first error among them is thrown there. Whether they fail does not
      depend on the works gathered before (`WorksErrorIndependent`). */
  function WorksListError(ul: Node): Option<string> {
    var w := WorksFromChildren([], ChildrenOf(ul));
    if w.Failure? then Some(w.error) else None
  }

  /** One author record per key of the item, all sharing the item's expansion and works. */
  function AuthorEntries(entries: Entries<string, string>, works: Entries<string, string>): (r: seq<AuthorAbbreviation>)
    ensures |r| == |entries|
    ensures forall k :: 0 <= k < |r| ==> r[k] == AuthorAbbreviation(entries[k].0, entries[k].1, works)
  {
    seq(|entries|, k requires 0 <= k < |entries| => AuthorAbbreviation(entries[k].0, entries[k].1, works))
  }

  /** The records one top-level child contributes: none for white-space text, an error
      for other text, one per key for an author item. */
  function AuthorRecords(author: Node): Result<seq<AuthorAbbreviation>> {
    if author.Text? then
      if Trim(author.text) == "" then Success([]) else Failure("assert: non-blank text in the author list")
    else
      var item :- ListItemOf(author, WorksListError);
      var works :- WorksFromUls(item.uls);
      Success(AuthorEntries(item.entries, works))
  }

  /** What each element contributes, concatenated in order, or the first error. */
  function ConcatEach<X, Y>(xs: seq<X>, f: X -> Result<seq<Y>>): Result<seq<Y>>
    decreases |xs|
  {
    if xs == [] then Success([])
    else
      var acc :- ConcatEach(xs[..|xs| - 1], f);
      var ys :- f(xs[|xs| - 1]);
      Success(acc + ys)
  }

  /** One more element adds its contribution, or its error. */
  lemma ConcatStep<X, Y>(xs: seq<X>, k: nat, acc: seq<Y>, f: X -> Result<seq<Y>>)
    requires k < |xs| && ConcatEach(xs[..k], f) == Success(acc)
    ensures ConcatEach(xs[..k + 1], f)
            == if f(xs[k]).Failure? then Failure(f(xs[k]).error) else Success(acc + f(xs[k]).value)
  {
    assert xs[..k + 1][..k] == xs[..k];
  }

  /** Once a prefix fails, the whole sequence fails with the same error. */
  lemma {:induction false} ConcatFailurePropagates<X, Y>(xs: seq<X>, k: nat, e: string, f: X -> Result<seq<Y>>)
    requires k <= |xs|
    requires ConcatEach(xs[..k], f) == Failure(e)
    ensures ConcatEach(xs, f) == Failure(e)
    decreases |xs| - k
  {
    if k < |xs| {
      assert xs[..k + 1][..k] == xs[..k];
      ConcatFailurePropagates(xs, k + 1, e, f);
    } else {
      assert xs[..k] == xs;
    }
  }

  /** The authors listed by the top-level children of the page. */
  function AuthorsFrom(children: seq<Node>): Result<seq<AuthorAbbreviation>> {
    ConcatEach(children, AuthorRecords)
  }

  /** `parseAuthorAbbreviations` on the parsed page. */
  method ParseAuthorAbbreviations(root: Node) returns (r: Result<seq<AuthorAbbreviation>>)
    ensures r == AuthorsFrom(ChildrenOf(root))
  {
    var children := ChildrenOf(root);
    var entries: seq<AuthorAbbreviation> := [];
    for k := 0 to |children|
      invariant AuthorsFrom(children[..k]) == Success(entries)
    {
      var records := ParseAuthor(children[k]);
      ConcatStep(children, k, entries, AuthorRecords);
      if records.Failure? {
        AuthorsFailurePropagates(children, k + 1, records.error);
        return Failure(records.error);
      }
      entries := entries + records.value;
    }
    assert children[..|children|] == children;
    r := Success(entries);
  }

  /** The body of the loop over the page's children. */
  method ParseAuthor(author: Node) returns (r: Result<seq<AuthorAbbreviation>>)
    ensures r == AuthorRecords(author)
  {
    if author.Text? {
      if Trim(author.text) != "" {
        return Failure("assert: non-blank text in the author list");
      }
      return Success([]);
    }
    var item := ParseListItem(author, WorksListError);
    if item.Failure? {
      return Failure(item.error);
    }
    var works := CollectWorks(item.value.uls);
    if works.Failure? {
      return Failure(works.error);
    }
    var entries := PushAuthors([], item.value.entries, works.value);
    assert entries == AuthorEntries(item.value.entries, works.value);
    r := Success(entries);
  }

  /** `authorResults.forEach((expanded, key) => entries.push(...))`. */
  method PushAuthors(entries: seq<AuthorAbbreviation>, authorResults: Entries<string, string>, works: Entries<string, string>)
    returns (r: seq<AuthorAbbreviation>)
    ensures r == entries + AuthorEntries(authorResults, works)
  {
    r := entries;
    for m := 0 to |authorResults|
      invariant r == entries + AuthorEntries(authorResults[..m], works)
    {
      r := r + [AuthorAbbreviation(authorResults[m].0, authorResults[m].1, works)];
      assert AuthorEntries(authorResults[..m + 1], works)
        == AuthorEntries(authorResults[..m], works) + [AuthorAbbreviation(authorResults[m].0, authorResults[m].1, works)];
    }
    assert authorResults[..|authorResults|] == authorResults;
  }

  /** The `onUl` callback of an author item, applied to each nested list in turn. */
  method CollectWorks(uls: seq<Node>) returns (r: Result<Entries<string, string>>)
    ensures r == WorksFromUls(uls)
  {
    var works: Entries<string, string> := [];
    for k := 0 to |uls|
      invariant WorksFromUls(uls[..k]) == Success(works)
    {
      assert uls[..k + 1][..k] == uls[..k];
      var next := CollectWorksFromList(works, ChildrenOf(uls[k]));
      if next.Failure? {
        WorksFromUlsFailurePropagates(uls, k + 1, next.error);
        return next;
      }
      works := next.value;
    }
    assert uls[..|uls|] == uls;
    r := Success(works);
  }

  /** The loop over the children of one nested list. */
  method CollectWorksFromList(works: Entries<string, string>, worksList: seq<Node>) returns (r: Result<Entries<string, string>>)
    ensures r == WorksFromChildren(works, worksList)
  {
    var acc := works;
    for m := 0 to |worksList|
      invariant WorksFromChildren(works, worksList[..m]) == Success(acc)
    {
      assert worksList[..m + 1][..m] == worksList[..m];
      var next := ParseWork(acc, worksList[m]);
      if next.Failure? {
        WorksFailurePropagates(works, worksList, m + 1, next.error);
        return next;
      }
      acc := next.value;
    }
    assert worksList[..|worksList|] == worksList;
    r := Success(acc);
  }

  /** The body of the loop over one nested list's children. */
  method ParseWork(works: Entries<string, string>, work: Node) returns (r: Result<Entries<string, string>>)
    ensures r == WorkStep(works, work)
  {
    if work.Text? {
      if Trim(work.text) != "" {
        return Failure("assert: non-blank text in a works list");
      }
      return Success(works);
    }
    var item := ParseListItem(work, NoNestedList);
    if item.Failure? {
      return Failure(item.error);
    }
    var updated := SetWorks(works, item.value.entries);
    r := Success(updated);
  }

  /** `parsed.forEach((value, key) => works.set(key, value))`. */
  method SetWorks(works: Entries<string, string>, entries: Entries<string, string>) returns (r: Entries<string, string>)
    ensures r == SetAll(works, entries)
  {
    r := works;
    for e := 0 to |entries|
      invariant r == SetAll(works, entries[..e])
    {
      assert entries[..e + 1][..e] == entries[..e];
      r := Set(r, entries[e].0, entries[e].1);
    }
    assert entries[..|entries|] == entries;
  }

  /** Once the authors of a prefix fail, the whole list fails with the same error. */
  lemma AuthorsFailurePropagates(children: seq<Node>, k: nat, e: string)
    requires k <= |children|
    requires AuthorsFrom(children[..k]) == Failure(e)
    ensures AuthorsFrom(children) == Failure(e)
  {
    ConcatFailurePropagates(children, k, e, AuthorRecords);
  }

  lemma {:induction false} WorksFailurePropagates(works: Entries<string, string>, children: seq<Node>, k: nat, e: string)
    requires k <= |children|
    requires WorksFromChildren(works, children[..k]) == Failure(e)
    ensures WorksFromChildren(works, children) == Failure(e)
    decreases |children| - k
  {
    if k < |children| {
      assert children[..k + 1][..k] == children[..k];
      WorksFailurePropagates(works, children, k + 1, e);
    } else {
      assert children[..k] == children;
    }
  }

  lemma {:induction false} WorksFromUlsFailurePropagates(uls: seq<Node>, k: nat, e: string)
    requires k <= |uls|
    requires WorksFromUls(uls[..k]) == Failure(e)
    ensures WorksFromUls(uls) == Failure(e)
    decreases |uls| - k
  {
    if k < |uls| {
      assert uls[..k + 1][..k] == uls[..k];
      WorksFromUlsFailurePropagates(uls, k + 1, e);
    } else {
      assert uls[..k] == uls;
    }
  }

  /** The expansion walk fails exactly when some child fails, and then with the error of
      the first failing child: a nested list's callback error before a later child's. */
  lemma {:induction false} ExpansionFirstError(children: seq<Node>, i: nat, onUl: Node -> Option<string>)
    ensures ExpansionFrom(children, i, onUl).Failure?
            <==> exists k :: i <= k < |children| && Piece(children[k], onUl).Failure?
    ensures ExpansionFrom(children, i, onUl).Failure? ==>
              exists k :: i <= k < |children| && Piece(children[k], onUl) == Failure(ExpansionFrom(children, i, onUl).error)
                          && forall m :: i <= m < k ==> Piece(children[m], onUl).Success?
    decreases |children| - i
  {
    if i < |children| {
      ExpansionFirstError(children, i + 1, onUl);
      if Piece(children[i], onUl).Success? && ExpansionFrom(children, i + 1, onUl).Failure? {
        var e := ExpansionFrom(children, i + 1, onUl).error;
        var k :| i + 1 <= k < |children| && Piece(children[k], onUl) == Failure(e)
                 && forall m :: i + 1 <= m < k ==> Piece(children[m], onUl).Success?;
        assert forall m :: i <= m < k ==> Piece(children[m], onUl).Success?;
      }
    }
  }

  /** Whether a nested list's works fail, and with which error, does not depend on the
      works gathered before it. */
  lemma {:induction false} WorksErrorIndependent(w1: Entries<string, string>, w2: Entries<string, string>, children: seq<Node>)
    ensures WorksFromChildren(w1, children).Failure? <==> WorksFromChildren(w2, children).Failure?
    ensures WorksFromChildren(w1, children).Failure? ==>
              WorksFromChildren(w1, children).error == WorksFromChildren(w2, children).error
    decreases |children|
  {
    if children != [] {
      WorksErrorIndependent(w1, w2, children[..|children| - 1]);
    }
  }

  /** Every nested list of a walk that succeeded passed the callback. */
  lemma {:induction false} UlsPassed(children: seq<Node>, i: nat, onUl: Node -> Option<string>)
    requires ExpansionFrom(children, i, onUl).Success?
    ensures forall k :: 0 <= k < |UlsFrom(children, i)| ==> onUl(UlsFrom(children, i)[k]).None?
    decreases |children| - i
  {
    if i < |children| {
      UlsPassed(children, i + 1, onUl);
    }
  }

  /** Lists that each passed the author callback give their works without error. */
  lemma {:induction false} WorksFromPassedUls(uls: seq<Node>)
    requires forall k :: 0 <= k < |uls| ==> WorksListError(uls[k]).None?
    ensures WorksFromUls(uls).Success?
    decreases |uls|
  {
    if uls != [] {
      var init := uls[..|uls| - 1];
      assert forall k :: 0 <= k < |init| ==> init[k] == uls[k];
      WorksFromPassedUls(init);
      var last := uls[|uls| - 1];
      assert WorksListError(last).None?;
      WorksErrorIndependent(WorksFromUls(init).value, [], ChildrenOf(last));
    }
  }

  /** `<li><b>K</b><ul><li>bad</li></ul><i>x y</i></li>`: the nested list's error is
      thrown when the `ul` is met, so the later `<i>`, which has two text children, is
      never read. */
  lemma NestedListErrorFirst()
    ensures var bad := Elem("li", [], [Text("bad")]);
            var ul := Elem("ul", [], [bad]);
            var i := Elem("i", [], [Text("x"), Text("y")]);
            var author := Elem("li", [], [Elem("b", [], [Text("K")]), ul, i]);
            AuthorRecords(author) == Failure("assertIsNode: expected <b>")
  {
    var bad := Elem("li", [], [Text("bad")]);
    var ul := Elem("ul", [], [bad]);
    assert WorkStep([], bad) == Failure("assertIsNode: expected <b>");
    assert WorksFromChildren([], [bad]) == Failure("assertIsNode: expected <b>") by {
      assert [bad][..0] == [];
    }
    assert WorksListError(ul) == Some("assertIsNode: expected <b>");
    var i := Elem("i", [], [Text("x"), Text("y")]);
    var children := [Elem("b", [], [Text("K")]), ul, i];
    assert KeyPhase(children, 0) == Success((["K"], 1));
    assert Piece(children[1], WorksListError) == Failure("assertIsNode: expected <b>");
    assert ExpansionFrom(children, 1, WorksListError) == Failure("assertIsNode: expected <b>");
    assert ListItemOf(Elem("li", [], children), WorksListError) == Failure("assertIsNode: expected <b>");
  }

  /** Once an author item's walk has succeeded, gathering the works of its nested lists
      afterwards cannot fail: the item's error is always the first in child order. */
  lemma AuthorWorksAfterWalk(author: Node)
    requires author.Elem? && ListItemOf(author, WorksListError).Success?
    ensures WorksFromUls(ListItemOf(author, WorksListError).value.uls).Success?
    ensures AuthorRecords(author).Success?
  {
    var j := KeyPhase(author.children, 0).value.1;
    UlsPassed(author.children, j, WorksListError);
    WorksFromPassedUls(UlsFrom(author.children, j));
  }

  // ---------------------------------------------------------------------------
  // The author index

  /** The key a record is filed under. */
  function AuthorKey(d: AuthorAbbreviation): string {
    d.key
  }

  /** After population every key of the parsed records maps to exactly the records with
      that key, in parse order, no other key is present, and keys appear in the order
      they were first met. */
  lemma AuthorMapContents(data: seq<AuthorAbbreviation>, key: string)
    ensures Get(GroupBy(data, AuthorKey), key) ==
              if key in Seqs.Map(data, AuthorKey) then Some(Filter(data, SameKey(AuthorKey, key))) else None
    ensures Keys(GroupBy(data, AuthorKey)) == Distinct(Seqs.Map(data, AuthorKey))
  {
    GroupBySpec(data, AuthorKey, key);
    GroupByKeys(data, AuthorKey);
  }

  /** `LsAuthorAbbreviations`: the module-level `authorMap`, filled on first use. */
  class AuthorIndex {
    var authorMap: Entries<string, seq<AuthorAbbreviation>>

    constructor()
      ensures authorMap == []
    {
      authorMap := [];
    }

    /** `authors()`: `populateMaps` parses the page and groups it only while the map is
        empty; a failing parse leaves the map as it was. The parsed page is a parameter. */
    method Authors(page: Node) returns (r: Result<Entries<string, seq<AuthorAbbreviation>>>)
      modifies this
      ensures old(authorMap) != [] ==> authorMap == old(authorMap)
      ensures old(authorMap) == [] ==>
                match AuthorsFrom(ChildrenOf(page))
                case Success(data) => authorMap == GroupBy(data, AuthorKey)
                case Failure(_) => authorMap == old(authorMap)
      ensures r.Success? <==> old(authorMap) != [] || AuthorsFrom(ChildrenOf(page)).Success?
      ensures r.Success? ==> r.value == authorMap
    {
      if authorMap == [] {
        var data := ParseAuthorAbbreviations(page);
        if data.Failure? {
          return Failure(data.error);
        }
        Populate(data.value);
      }
      r := Success(authorMap);
    }

    /** The loop of `populateMaps`: start each new key with an empty list, then push. */
    method Populate(data: seq<AuthorAbbreviation>)
      modifies this
      requires authorMap == []
      ensures authorMap == GroupBy(data, AuthorKey)
    {
      for k := 0 to |data|
        invariant authorMap == GroupBy(data[..k], AuthorKey)
      {
        assert data[..k + 1][..k] == data[..k];
        var datum := data[k];
        ghost var before := authorMap;
        if Get(authorMap, datum.key).None? {
          authorMap := Set(authorMap, datum.key, []);
          GetAfterSet(before, datum.key, [], datum.key);
          SetTwice(before, datum.key, [], [datum]);
          assert Get(before, datum.key).GetOr([]) + [datum] == [datum];
        }
        authorMap := Set(authorMap, datum.key, Get(authorMap, datum.key).value + [datum]);
        assert authorMap == Set(before, AuthorKey(datum), Get(before, AuthorKey(datum)).GetOr([]) + [datum]);
      }
      assert data[..|data|] == data;
    }
  }

  /** Grouping a non-empty list gives a non-empty map, so once a page with authors
      has been loaded, later calls of `Authors` find the map filled and leave it alone. */
  lemma GroupByKeyNonEmpty(data: seq<AuthorAbbreviation>)
    requires data != []
    ensures GroupBy(data, AuthorKey) != []
  {
    assert Keys(GroupBy(data, AuthorKey)) != [];
  }

  // ---------------------------------------------------------------------------
  // Static tables

  const ScholarAbbreviations: set<string> := {"Rib.", "Schneid."}

  const NumberAbbreviations: Entries<string, string> := [
    ("sing.", "singular"),
    ("plur.", "plural")
  ]

  const MoodAbbreviations: Entries<string, string> := [
    ("Part.", "Participle")
  ]

  const CaseAbbreviations: Entries<string, string> := [
    ("nom.", "nominative"),
    ("acc.", "accusative"),
    ("dat.", "dative"),
    ("gen.", "genitive"),
    ("abl.", "ablative"),
    ("voc.", "vocative")
  ]

  /** Per element name, the label abbreviations used inside it. */
  const LblAbbreviations: Entries<string, Entries<string, string>> := [
    ("sense", [("dim.", "diminutive")]),
    ("entryFree", [("dim.", "diminutive")]),
    ("etym", [("dim.", "diminutive")]),
    ("xr", [("v.", "see")])
  ]

  const GenAbbreviations: Entries<string, string> := [
    ("f.", "feminine"),
    ("m.", "masculine"),
    ("n.", "neuter"),
    ("com.", "common gender"),
    ("comm.", "common gender")
  ]

  const PosAbbreviations: Entries<string, string> := [
    ("prep.", "preposition"),
    ("interj.", "interjection"),
    ("adj.", "adjective"),
    ("v. n.", "verb (active only)"),
    ("v. a.", "verb (active and passive)"),
    ("v. a. and n.", "verb (depending on sense: active only, or active and passive)"),
    ("v. freq. a.", "verb (frequentative; active and passive forms)"),
    ("v. freq. a. and n.", "verb (frequentative; depending on sense: active only, or active and passive)"),
    ("adv.", "adverb"),
    ("P. a.", "participal adjective"),
    ("v. dep.", "verb [deponent]"),
    ("Adj.", "Adjective"),
    ("Subst.", "Substantive"),
    ("adv. num.", "adverb [numeral]"),
    ("num. adj.", "adjective [numeral]"),
    ("pron. adj.", "adjective [pronoun]")
  ]

  const UsgAbbreviations: Entries<string, string> := [
    ("poet.", "poetically"),
    ("Transf.", "Transferred"),
    ("Lit.", "Literally"),
    ("Absol.", "Absolutely [without case or adjunct]"),
    ("Trop.", "Tropical [tropical or figurative sense]"),
    ("Polit. t. t.", "Political [technical term]"),
    ("Meton.", "By Metonymy"),
    ("Poet.", "Poetically"),
    ("Medic. t. t.", "Medical [technical term]"),
    ("Milit. t. t.", "Military [technical term]"),
    ("Mercant. t. t.", "Mercantile [technical term]")
  ]
}
