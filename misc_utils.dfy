/**
 * Small shared helpers: a counter of occurrences with its report, a lazily
 * initialised value, and the guard for unreachable cases.
 */
module MiscUtils {
  import opened Wrappers
  import opened Strings
  import Seqs
  import opened OrderedMaps

  // ---------------------------------------------------------------------------
  // Tally

  /** The count of an item: 0 when it was never counted. */
  function CountOf<T(==)>(counts: Entries<T, int>, item: T): int {
    Get(counts, item).GetOr(0)
  }

  /** The counts after one more occurrence of `item`. */
  function Bump<T(==)>(counts: Entries<T, int>, item: T): Entries<T, int> {
    Set(counts, item, CountOf(counts, item) + 1)
  }

  /** Counting raises the item's count by one and leaves every other count alone; an item
      never counted before gets 1. */
  lemma BumpCount<T>(counts: Entries<T, int>, item: T, x: T)
    ensures CountOf(Bump(counts, item), x) == CountOf(counts, x) + (if x == item then 1 else 0)
  {
    GetAfterSet(counts, item, CountOf(counts, item) + 1, x);
  }

  /** The first count of an item sets it to 1. */
  lemma BumpFirst<T>(counts: Entries<T, int>, item: T)
    requires item !in Keys(counts)
    ensures Get(Bump(counts, item), item) == Some(1)
  {
    GetAfterSet(counts, item, 1, item);
  }

  /** The sum of the counts. */
  function Total<T>(counts: Entries<T, int>): int
    decreases |counts|
  {
    if counts == [] then 0 else counts[0].1 + Total(counts[1..])
  }

  /** `set` changes the sum by the difference between the new and the old value. */
  lemma {:induction false} TotalAfterSet<T>(counts: Entries<T, int>, item: T, n: int)
    ensures Total(Set(counts, item, n)) == Total(counts) - CountOf(counts, item) + n
    decreases |counts|
  {
    if counts != [] && counts[0].0 != item {
      TotalAfterSet(counts[1..], item, n);
    }
  }

  /** Each count raises the sum by exactly one. */
  lemma TotalAfterBump<T>(counts: Entries<T, int>, item: T)
    ensures Total(Bump(counts, item)) == Total(counts) + 1
  {
    TotalAfterSet(counts, item, CountOf(counts, item) + 1);
  }

  /** Whether an entry's count reaches the threshold. */
  function AtLeast<T>(threshold: int): ((T, int)) -> bool {
    (e: (T, int)) => e.1 >= threshold
  }

  /** The order of the report: larger counts first. */
  predicate CountGe<T>(a: (T, int), b: (T, int)) {
    a.1 >= b.1
  }

  /** The entries the report lists: those reaching the threshold (0 when it is missing),
      from the largest count down, in insertion order among equal counts. */
  function Listed<T>(counts: Entries<T, int>, threshold: Option<int>): seq<(T, int)> {
    Seqs.SortBy(Seqs.Filter(counts, AtLeast(threshold.GetOr(0))), CountGe)
  }

  /** The listed entries are in non-increasing count order, are exactly the entries
      reaching the threshold, and each reaches it. */
  lemma ListedSpec<T(!new)>(counts: Entries<T, int>, threshold: Option<int>)
    ensures Seqs.SortedBy(Listed(counts, threshold), CountGe)
    ensures multiset(Listed(counts, threshold)) == multiset(Seqs.Filter(counts, AtLeast(threshold.GetOr(0))))
    ensures forall e :: e in Listed(counts, threshold) ==> e in counts && e.1 >= threshold.GetOr(0)
  {
    var kept := Seqs.Filter(counts, AtLeast(threshold.GetOr(0)));
    assert Seqs.Connected(CountGe<T>);
    Seqs.SortBySpec(kept, CountGe);
    forall e | e in Listed(counts, threshold)
      ensures e in counts && e.1 >= threshold.GetOr(0)
    {
      assert e in multiset(kept);
    }
  }

  /** Without a threshold every entry with a non-negative count is listed. */
  lemma ListedAll<T(!new)>(counts: Entries<T, int>)
    requires forall i :: 0 <= i < |counts| ==> counts[i].1 >= 0
    ensures multiset(Listed(counts, None)) == multiset(counts)
  {
    Seqs.FilterAll(counts, AtLeast(0));
    ListedSpec(counts, None);
  }

  /** One line of the report: the count, " <= ", then the item. */
  function Line<T>(show: T -> string): ((T, int)) -> string {
    (e: (T, int)) => IntToString(e.1) + " <= " + show(e.0)
  }

  /** `Tally.toString`: the total, then one line per listed entry. */
  function Report<T>(counts: Entries<T, int>, threshold: Option<int>, show: T -> string): string {
    "Total: " + IntToString(Total(counts)) + "\n" + Join(Seqs.Map(Listed(counts, threshold), Line(show)), "\n")
  }

  /** All counts are at least one. */
  predicate Positive<T>(counts: Entries<T, int>) {
    forall i :: 0 <= i < |counts| ==> counts[i].1 >= 1
  }

  /** Counts with distinct keys and positive values stay so after a count. */
  lemma BumpKeepsValid<T>(counts: Entries<T, int>, item: T)
    requires DistinctKeys(counts) && Positive(counts)
    ensures DistinctKeys(Bump(counts, item))
    ensures Positive(Bump(counts, item))
    ensures Total(Bump(counts, item)) == Total(counts) + 1
  {
    TotalAfterBump(counts, item);
    SetKeepsDistinct(counts, item, CountOf(counts, item) + 1);
    BumpPositive(counts, item);
  }

  lemma CountNonNegative<T>(counts: Entries<T, int>, item: T)
    requires Positive(counts)
    ensures CountOf(counts, item) >= 0
  {
    if Get(counts, item).Some? {
      var j :| 0 <= j < |counts| && counts[j] == (item, Get(counts, item).value);
    }
  }

  lemma BumpPositive<T>(counts: Entries<T, int>, item: T)
    requires Positive(counts)
    ensures Positive(Bump(counts, item))
  {
    var n := CountOf(counts, item) + 1;
    CountNonNegative(counts, item);
    SetEntries(counts, item, n);
    var r := Bump(counts, item);
    forall i | 0 <= i < |r|
      ensures r[i].1 >= 1
    {
      if r[i] != (item, n) {
        assert r[i] in counts;
        var j :| 0 <= j < |counts| && counts[j] == r[i];
      }
    }
  }

  /** `Tally`: how often each item was counted, in first-count order. */
  class Tally<T(==)> {
    var counts: Entries<T, int>
    /** The number of `count` calls so far. */
    ghost var calls: nat

    ghost predicate Valid()
      reads this
    {
      && DistinctKeys(counts)
      && Total(counts) == calls
      && Positive(counts)
    }

    constructor()
      ensures Valid() && counts == [] && calls == 0
    {
      counts := [];
      calls := 0;
    }

    /** `count`: one more occurrence of `item`. */
    method Count(item: T)
      requires Valid()
      modifies this
      ensures Valid()
      ensures counts == Bump(old(counts), item) && calls == old(calls) + 1
    {
      ghost var before := counts;
      if Get(counts, item).None? {
        counts := Set(counts, item, 0);
        GetAfterSet(before, item, 0, item);
        SetTwice(before, item, 0, 1);
      }
      counts := Set(counts, item, Get(counts, item).value + 1);
      calls := calls + 1;
      BumpKeepsValid(before, item);
    }

    /** `toString`: the total is the number of `count` calls. */
    function ToString(threshold: Option<int>, show: T -> string): (s: string)
      reads this
      ensures Valid() ==>
                s == "Total: " + IntToString(calls) + "\n"
                     + Join(Seqs.Map(Listed(counts, threshold), Line(show)), "\n")
    {
      Report(counts, threshold, show)
    }
  }

  // ---------------------------------------------------------------------------
  // Lazy values

  /** `singletonOf`: a value computed by the initializer on first use. The initializer
      may give `undefined` (`None`), in which case the next use calls it again. */
  class Singleton<T> {
    const initializer: () -> Option<T>
    var value: Option<T>
    /** How many times the initializer has been called. */
    ghost var inits: nat

    /** The value is the initializer's once it has been called; a defined value is
        computed at most once. */
    ghost predicate Valid()
      reads this
    {
      && value == (if inits == 0 then None else initializer())
      && (initializer().Some? ==> inits <= 1)
    }

    constructor(initializer: () -> Option<T>)
      ensures Valid() && this.initializer == initializer && inits == 0
    {
      this.initializer := initializer;
      value := None;
      inits := 0;
    }

    /** `get`: call the initializer only while no value is held. */
    method Get() returns (v: Option<T>)
      requires Valid()
      modifies this
      ensures Valid()
      ensures v == initializer()
      ensures inits == old(inits) + (if old(value).None? then 1 else 0)
    {
      if value.None? {
        value := initializer();
        inits := inits + 1;
      }
      v := value;
    }
  }

  /** `exhaustiveGuard`: reaching it is always an error. */
  function ExhaustiveGuard<T>(value: T, show: T -> string): (r: Result<()>)
    ensures r.Failure?
  {
    Failure("ERROR! Reached forbidden guard function with unexpected value: " + show(value))
  }
}
