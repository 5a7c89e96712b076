/** Text helpers of the reader: title-casing and the class lists of two widgets. */
module ReaderUtils {
  import opened Wrappers
  import opened Strings
  import Seqs

  /** `toUpperCase` on one character, for ASCII letters; every other character is kept. */
  function Upper(c: char): (u: char)
    ensures u == ' ' <==> c == ' '
  {
    if 'a' <= c <= 'z' then (c as int - 32) as char else c
  }

  lemma UpperIdempotent(c: char)
    ensures Upper(Upper(c)) == Upper(c)
  {
  }

  /** A word with its first character upper-cased; the empty word is kept. */
  function CapitalizeWord(word: string): (r: string)
    ensures |r| == |word|
    ensures word != "" ==> r[0] == Upper(word[0]) && r[1..] == word[1..]
  {
    if |word| == 0 then word else [Upper(word[0])] + word[1..]
  }

  /** `capitalizeWords`: each " "-separated word capitalized. */
  function CapitalizeWords(input: string): string {
    Join(Seqs.Map(Split(input, ' '), CapitalizeWord), " ")
  }

  /** The words are the same in number and length, empty words stay empty, and in every
      other word only the first character may change, to its upper case. The text keeps
      its length. */
  lemma CapitalizeWordsSpec(input: string)
    ensures var before := Split(input, ' ');
            var after := Split(CapitalizeWords(input), ' ');
            && |after| == |before|
            && |CapitalizeWords(input)| == |input|
            && forall i :: 0 <= i < |before| ==>
                 && |after[i]| == |before[i]|
                 && (before[i] == "" ==> after[i] == "")
                 && (before[i] != "" ==> after[i][0] == Upper(before[i][0]) && after[i][1..] == before[i][1..])
  {
    var words := Split(input, ' ');
    var capitalized := Seqs.Map(words, CapitalizeWord);
    assert NoneContains(capitalized, ' ') by {
      forall i | 0 <= i < |capitalized|
        ensures ' ' !in capitalized[i]
      {
        var w := words[i];
        if w != "" {
          assert capitalized[i] == [Upper(w[0])] + w[1..];
          assert w[0] != ' ';
          assert ' ' !in w[1..];
        }
      }
    }
    SplitOfJoin(capitalized, ' ');
    JoinSameLengths(capitalized, words, " ");
    JoinOfSplit(input, ' ');
  }

  /** Capitalizing twice is capitalizing once. */
  lemma CapitalizeWordsIdempotent(input: string)
    ensures CapitalizeWords(CapitalizeWords(input)) == CapitalizeWords(input)
  {
    var capitalized := Seqs.Map(Split(input, ' '), CapitalizeWord);
    CapitalizeWordsSpec(input);
    SplitOfJoin(capitalized, ' ');
    forall i | 0 <= i < |capitalized|
      ensures CapitalizeWord(capitalized[i]) == capitalized[i]
    {
      if capitalized[i] != "" {
        UpperIdempotent(Split(input, ' ')[i][0]);
      }
    }
    assert Seqs.Map(capitalized, CapitalizeWord) == capitalized;
  }

  /** The class string of a widget: the extra classes (none when missing), then its own
      classes, joined by spaces. */
  function ClassList(extra: Option<seq<string>>, own: string): string {
    Join(extra.GetOr([]) + [own], " ")
  }

  /** `InfoText`'s class string. */
  function InfoTextClasses(additionalClasses: Option<seq<string>>): string {
    ClassList(additionalClasses, "text sm light")
  }

  /** `NavIcon`'s class string. */
  function NavIconClasses(extraClasses: Option<seq<string>>): string {
    ClassList(extraClasses, "readerNavIconContainer")
  }

  /** The widget's own classes come last, after a space when there are extra classes,
      and alone when there are none; extra classes without spaces are read back first
      when the string is split. */
  lemma ClassListSpec(extra: Option<seq<string>>, own: string)
    ensures extra.GetOr([]) == [] ==> ClassList(extra, own) == own
    ensures extra.GetOr([]) != [] ==> ClassList(extra, own) == Join(extra.value, " ") + " " + own
    ensures NoneContains(extra.GetOr([]), ' ') ==>
              Split(ClassList(extra, own), ' ') == extra.GetOr([]) + Split(own, ' ')
  {
    var cs := extra.GetOr([]);
    var owns := Split(own, ' ');
    JoinOfSplit(own, ' ');
    if cs != [] {
      JoinSnoc(cs, own, " ");
    }
    if NoneContains(cs, ' ') {
      JoinConcat(cs, owns);
      assert NoneContains(cs + owns, ' ');
      SplitOfJoin(cs + owns, ' ');
    }
  }

  /** Joining two runs of pieces on a space is joining each and putting a space between. */
  lemma {:induction false} JoinConcat(a: seq<string>, b: seq<string>)
    requires |b| >= 1
    ensures Join(a + b, " ") == if a == [] then Join(b, " ") else Join(a, " ") + " " + Join(b, " ")
    decreases |a|
  {
    if a != [] {
      if |a| == 1 {
        assert (a + b)[1..] == b;
      } else {
        JoinConcat(a[1..], b);
        assert (a + b)[1..] == a[1..] + b;
      }
    } else {
      assert a + b == b;
    }
  }

  /** For `InfoText`: the classes split back into the additional ones, then "text", "sm"
      and "light". */
  lemma InfoTextClassesSpec(additionalClasses: Option<seq<string>>)
    requires NoneContains(additionalClasses.GetOr([]), ' ')
    ensures Split(InfoTextClasses(additionalClasses), ' ') == additionalClasses.GetOr([]) + ["text", "sm", "light"]
  {
    var parts := ["text", "sm", "light"];
    assert Join(parts, " ") == "text sm light" by {
      assert parts[1..][1..] == ["light"];
    }
    assert NoneContains(parts, ' ');
    SplitOfJoin(parts, ' ');
    ClassListSpec(additionalClasses, "text sm light");
  }
}
