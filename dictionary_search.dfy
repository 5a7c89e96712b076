/**
 * The dictionary search box: the query an autocomplete option stands for, the
 * switch that enables or disables a dictionary, and the state of the dropdown.
 */
module DictionarySearch {
  import opened Strings
  import Seqs
  import opened Dictionaries

  /** An autocomplete option: the dictionary it comes from and the word shown. */
  type SearchOption = (DictInfo, string)

  /** `toQuery`: the option's word, a comma, then the dictionary key with its first "&"
      replaced by "n" (`replace` with a string pattern replaces one occurrence). */
  function ToQuery(option: SearchOption): (q: string)
    ensures ',' in q
  {
    var q := option.1 + "," + ReplaceFirst(option.0.key, '&', 'n');
    assert q[|option.1|] == ',';
    q
  }

  /** When neither the word nor the key holds a comma, splitting the query on "," gives the
      word and the rewritten key back. */
  lemma ToQuerySplit(option: SearchOption)
    requires ',' !in option.1 && ',' !in option.0.key
    ensures Split(ToQuery(option), ',') == [option.1, ReplaceFirst(option.0.key, '&', 'n')]
  {
    var key := ReplaceFirst(option.0.key, '&', 'n');
    ReplaceFirstAbsent(option.0.key, '&', 'n', ',');
    var parts := [option.1, key];
    assert NoneContains(parts, ',');
    assert Join(parts, [',']) == ToQuery(option) by {
      assert parts[1..] == [key];
    }
    SplitOfJoin(parts, ',');
  }

  /** Only the first "&" of the key is replaced: the query's key part has exactly one "&"
      fewer when the key has any, and is the key itself when it has none. */
  lemma ToQueryKey(option: SearchOption)
    ensures var key := ReplaceFirst(option.0.key, '&', 'n');
            && |key| == |option.0.key|
            && ('&' !in option.0.key ==> key == option.0.key)
            && ('&' in option.0.key ==> Count(key, '&') == Count(option.0.key, '&') - 1)
  {
    ReplaceFirstSpec(option.0.key, '&', 'n');
    if '&' in option.0.key {
      ReplaceFirstCount(option.0.key, '&', 'n');
    }
  }

  // ---------------------------------------------------------------------------
  // Enabling and disabling dictionaries

  /** Whether a value differs from `x`. */
  function Other<T(==)>(x: T): T -> bool {
    y => y != x
  }

  /** The elements other than `x`, in order. */
  function Without<T(==)>(s: seq<T>, x: T): seq<T> {
    Seqs.Filter(s, Other(x))
  }

  /** A JavaScript `Set`: its elements in insertion order, each once. */
  class InsertionSet<T(==)> {
    var items: seq<T>

    /** `new Set(s)`: the elements of `s`, each at its first occurrence. */
    constructor(s: seq<T>)
      ensures items == Seqs.Distinct(s)
    {
      items := Seqs.Distinct(s);
    }

    /** `add`: appends `x` unless it is already there. */
    method Add(x: T)
      modifies this
      ensures items == if x in old(items) then old(items) else old(items) + [x]
    {
      if x !in items {
        items := items + [x];
      }
    }

    /** `delete`: removes `x`, keeping the order of the rest. */
    method Delete(x: T)
      modifies this
      ensures items == Without(old(items), x)
    {
      items := Without(items, x);
    }
  }

  /** The list of enabled dictionaries after the switch of `dict` is set to `checked`. */
  function Switched(dicts: seq<DictInfo>, dict: DictInfo, checked: bool): (r: seq<DictInfo>)
    ensures Seqs.NoDuplicates(r)
    ensures forall d :: d in r <==> if checked then d in dicts || d == dict else d in dicts && d != dict
  {
    var distinct := Seqs.Distinct(dicts);
    Seqs.DistinctSpec(dicts);
    if checked then
      if dict in distinct then distinct else distinct + [dict]
    else
      Seqs.FilterNoDuplicates(distinct, Other(dict));
      Without(distinct, dict)
  }

  /** The switch's `onChange`: copy the enabled dictionaries into a set, add or delete the
      dictionary, and spread the set back into a list. */
  method OnSwitch(dicts: seq<DictInfo>, dict: DictInfo, checked: bool) returns (r: seq<DictInfo>)
    ensures r == Switched(dicts, dict, checked)
  {
    var enabled := new InsertionSet(dicts);
    if checked {
      enabled.Add(dict);
    } else {
      enabled.Delete(dict);
    }
    r := enabled.items;
  }

  /** When the enabled list has no repetitions, switching a dictionary on appends it if it
      was missing and switching it off removes just it, keeping the others in order. */
  lemma SwitchKeepsOrder(dicts: seq<DictInfo>, dict: DictInfo)
    requires Seqs.NoDuplicates(dicts)
    ensures Switched(dicts, dict, true) == if dict in dicts then dicts else dicts + [dict]
    ensures Switched(dicts, dict, false) == Without(dicts, dict)
  {
    Seqs.DistinctOfNoDuplicates(dicts);
  }

  /** Switching a dictionary on and then off gives the enabled list without it. */
  lemma SwitchOnOff(dicts: seq<DictInfo>, dict: DictInfo)
    requires Seqs.NoDuplicates(dicts)
    ensures Switched(Switched(dicts, dict, true), dict, false) == Without(dicts, dict)
  {
    SwitchKeepsOrder(dicts, dict);
    var on := Switched(dicts, dict, true);
    SwitchKeepsOrder(on, dict);
    if dict !in dicts {
      Seqs.FilterSnoc(dicts, dict, Other(dict));
    }
  }

  // ---------------------------------------------------------------------------
  // The search box

  /** What the autocomplete's `onChange` receives: free text or one of the options. */
  datatype Choice = FreeText(text: string) | Picked(option: SearchOption)

  /** The label of the search field: a request to enable a dictionary when none is
      enabled, otherwise the enabled keys joined by ", ". */
  function Label(dicts: seq<DictInfo>): (shown: string)
    ensures shown == "Enable a dictionary in settings" <==> dicts == []
  {
    if |dicts| == 0 then "Enable a dictionary in settings"
    else
      var text := "Search for a word (dictionaries: " + Join(Seqs.Map(dicts, DictKey), ", ") + ")";
      assert text[0] == 'S';
      text
  }

  /** With comma-free keys, the listed keys are recovered by splitting the label's list on
      ",": the first key as it is, each later one after a space. */
  lemma LabelKeys(dicts: seq<DictInfo>)
    requires dicts != [] && NoneContains(Seqs.Map(dicts, DictKey), ',')
    ensures var keys := Join(Seqs.Map(dicts, DictKey), ", ");
            && Label(dicts) == "Search for a word (dictionaries: " + keys + ")"
            && Split(keys, ',') == Spaced(Seqs.Map(dicts, DictKey))
  {
    SplitCommaSpaceJoin(Seqs.Map(dicts, DictKey));
  }

  /** The state of `DictionarySearch`: whether the dropdown is open, the text in the
      field, and the queries handed to the navigation so far. */
  class SearchBox {
    var open: bool
    var input: string
    var queries: seq<string>

    constructor()
      ensures !open && input == "" && queries == []
    {
      open := false;
      input := "";
      queries := [];
    }

    /** `onEnter`: close the dropdown; navigate only for a non-empty term. */
    method OnEnter(searchTerm: string)
      modifies this
      ensures !open && input == old(input)
      ensures queries == old(queries) + (if |searchTerm| == 0 then [] else [searchTerm])
    {
      open := false;
      if |searchTerm| == 0 {
        return;
      }
      queries := queries + [searchTerm];
    }

    /** `onInputChange`: ignored for clicks; otherwise take the text and open the
        dropdown exactly when the text is not blank. */
    method OnInputChange(value: string, isClick: bool)
      modifies this
      ensures queries == old(queries)
      ensures isClick ==> open == old(open) && input == old(input)
      ensures !isClick ==> input == value && (open <==> exists i :: 0 <= i < |value| && !IsSpace(value[i]))
    {
      if isClick {
        return;
      }
      input := value;
      open := |Trim(value)| > 0;
      TrimEmptyIff(value);
    }

    /** A click in the field opens the dropdown when it holds text. */
    method OnInputClick()
      modifies this
      ensures (open <==> |input| > 0) && input == old(input) && queries == old(queries)
    {
      open := |input| > 0;
    }

    /** The autocomplete's `onChange`: ignored unless it comes from a click; free text is
        searched as typed, an option searches its query and shows its word. */
    method OnChange(value: Choice, isClick: bool)
      modifies this
      ensures !isClick ==> open == old(open) && input == old(input) && queries == old(queries)
      ensures isClick && value.FreeText? ==>
                !open && input == value.text
                && queries == old(queries) + (if |value.text| == 0 then [] else [value.text])
      ensures isClick && value.Picked? ==>
                !open && input == value.option.1 && queries == old(queries) + [ToQuery(value.option)]
    {
      if !isClick {
        return;
      }
      open := false;
      match value {
        case FreeText(text) =>
          input := text;
          OnEnter(text);
        case Picked(option) =>
          input := option.1;
          OnEnter(ToQuery(option));
      }
    }

    /** Clicking a rendered option: show its word and search its query. */
    method OnOptionClick(option: SearchOption)
      modifies this
      ensures !open && input == option.1 && queries == old(queries) + [ToQuery(option)]
    {
      input := option.1;
      OnEnter(ToQuery(option));
    }
  }
}
