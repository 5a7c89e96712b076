/**
 * The JavaScript string operations the modelled code relies on, written out:
 * `split` and `join` on a separator, `trim`, the decimal text of an integer,
 * parsing it back, and `replace` with a one-character string pattern.
 */
module Strings {
  import opened Wrappers

  /** `s.split(sep)` for a one-character separator: the pieces between separators,
      so "" gives [""] and a leading or doubled separator gives an empty piece. */
  function Split(s: string, sep: char): (r: seq<string>)
    ensures |r| >= 1
    ensures forall i :: 0 <= i < |r| ==> sep !in r[i]
    decreases |s|
  {
    if s == [] then [""]
    else
      var rest := Split(s[1..], sep);
      if s[0] == sep then [""] + rest
      else [[s[0]] + rest[0]] + rest[1..]
  }

  /** `parts.join(sep)`. */
  function Join(parts: seq<string>, sep: string): string
    decreases |parts|
  {
    if |parts| == 0 then ""
    else if |parts| == 1 then parts[0]
    else parts[0] + sep + Join(parts[1..], sep)
  }

  /** No piece contains the separator. */
  predicate NoneContains(parts: seq<string>, sep: char) {
    forall i :: 0 <= i < |parts| ==> sep !in parts[i]
  }

  lemma JoinExtendFirst(x: string, parts: seq<string>, sep: string)
    requires |parts| >= 1
    ensures Join([x + parts[0]] + parts[1..], sep) == x + Join(parts, sep)
  {
    var q := [x + parts[0]] + parts[1..];
    assert q[1..] == parts[1..];
  }

  /** Splitting and joining again on the same separator gives back the string. */
  lemma {:induction false} JoinOfSplit(s: string, sep: char)
    ensures Join(Split(s, sep), [sep]) == s
    decreases |s|
  {
    if s != [] {
      var rest := Split(s[1..], sep);
      JoinOfSplit(s[1..], sep);
      if s[0] == sep {
        assert ([""] + rest)[1..] == rest;
      } else {
        JoinExtendFirst([s[0]], rest, [sep]);
      }
      assert s == [s[0]] + s[1..];
    }
  }

  /** Prepending text without the separator extends only the first piece. */
  lemma {:induction false} SplitPrefix(x: string, t: string, sep: char)
    requires sep !in x
    ensures Split(x + t, sep) == [x + Split(t, sep)[0]] + Split(t, sep)[1..]
    decreases |x|
  {
    if x != [] {
      var r := Split(t, sep);
      assert (x + t)[0] == x[0];
      assert (x + t)[1..] == x[1..] + t;
      SplitPrefix(x[1..], t, sep);
      var rest := Split(x[1..] + t, sep);
      assert rest[1..] == r[1..];
      assert [x[0]] + rest[0] == x + r[0] by {
        assert x == [x[0]] + x[1..];
      }
    } else {
      var r := Split(t, sep);
      assert x + t == t;
      assert x + r[0] == r[0];
      assert r == [r[0]] + r[1..];
    }
  }

  /** Joining pieces that do not contain the separator and splitting again gives
      back the pieces (a non-empty list is needed: [] joins to "", which splits to [""]). */
  lemma {:induction false} SplitOfJoin(parts: seq<string>, sep: char)
    requires |parts| >= 1
    requires NoneContains(parts, sep)
    ensures Split(Join(parts, [sep]), sep) == parts
    decreases |parts|
  {
    if |parts| == 1 {
      SplitPrefix(parts[0], "", sep);
      assert parts[0] + "" == parts[0];
    } else {
      var tail := Join(parts[1..], [sep]);
      SplitOfJoin(parts[1..], sep);
      assert Join(parts, [sep]) == parts[0] + ([sep] + tail);
      SplitPrefix(parts[0], [sep] + tail, sep);
      assert ([sep] + tail)[1..] == tail;
      assert Split([sep] + tail, sep) == [""] + parts[1..];
      assert parts[0] + "" == parts[0];
      assert parts == [parts[0]] + parts[1..];
    }
  }

  /** ECMAScript white space and line terminators, as `trim` removes them. */
  predicate IsSpace(c: char) {
    || c == ' ' || c == '\t' || c == '\n' || c == '\r' || c == '\U{B}' || c == '\U{C}'
    || c == '\U{A0}' || c == '\U{1680}' || ('\U{2000}' <= c <= '\U{200A}')
    || c == '\U{2028}' || c == '\U{2029}' || c == '\U{202F}' || c == '\U{205F}'
    || c == '\U{3000}' || c == '\U{FEFF}'
  }

  /** Leading white space removed. */
  function TrimStart(s: string): (r: string)
    ensures |r| <= |s| && r == s[|s| - |r|..]
    ensures r == [] || !IsSpace(r[0])
    ensures forall i :: 0 <= i < |s| - |r| ==> IsSpace(s[i])
    decreases |s|
  {
    if s != [] && IsSpace(s[0]) then TrimStart(s[1..]) else s
  }

  /** Trailing white space removed. */
  function TrimEnd(s: string): (r: string)
    ensures |r| <= |s| && r == s[..|r|]
    ensures r == [] || !IsSpace(r[|r| - 1])
    ensures forall i :: |r| <= i < |s| ==> IsSpace(s[i])
    decreases |s|
  {
    if s != [] && IsSpace(s[|s| - 1]) then TrimEnd(s[..|s| - 1]) else s
  }

  /** `s.trim()`. */
  function Trim(s: string): string {
    TrimEnd(TrimStart(s))
  }

  /** The trimmed string is empty exactly when every character is white space. */
  lemma TrimEmptyIff(s: string)
    ensures Trim(s) == "" <==> forall i :: 0 <= i < |s| ==> IsSpace(s[i])
  {
    var t := TrimStart(s);
    if Trim(s) == "" {
      assert t == [];
    }
    if forall i :: 0 <= i < |s| ==> IsSpace(s[i]) {
      assert t == [];
    }
  }

  function DigitChar(d: nat): (c: char)
    requires d < 10
    ensures '0' <= c <= '9'
  {
    ('0' as int + d) as char
  }

  function DigitValue(c: char): (d: nat)
    requires '0' <= c <= '9'
    ensures d < 10
  {
    (c as int - '0' as int) as nat
  }

  predicate IsDigits(s: string) {
    forall i :: 0 <= i < |s| ==> '0' <= s[i] <= '9'
  }

  /** Decimal text of a natural number, without leading zeros. */
  function NatToString(n: nat): (r: string)
    ensures |r| >= 1 && IsDigits(r)
    decreases n
  {
    if n < 10 then [DigitChar(n)] else NatToString(n / 10) + [DigitChar(n % 10)]
  }

  /** The text `${i}` of an integer number. */
  function IntToString(i: int): string {
    if i < 0 then "-" + NatToString(-i) else NatToString(i)
  }

  /** Value of a string of decimal digits. */
  function DigitsValue(s: string): nat
    requires IsDigits(s)
    decreases |s|
  {
    if s == [] then 0 else DigitsValue(s[..|s| - 1]) * 10 + DigitValue(s[|s| - 1])
  }

  /** Decimal integer parsing: an optional "-" followed by one or more digits;
      anything else is not a number. */
  function ParseInt(s: string): Option<int> {
    if |s| >= 2 && s[0] == '-' && IsDigits(s[1..]) then
      var v: int := DigitsValue(s[1..]); Some(-v)
    else if |s| >= 1 && IsDigits(s) then Some(DigitsValue(s))
    else None
  }

  lemma {:induction false} DigitsOfNat(n: nat)
    ensures DigitsValue(NatToString(n)) == n
    decreases n
  {
    if n >= 10 {
      DigitsOfNat(n / 10);
      var s := NatToString(n);
      assert s[..|s| - 1] == NatToString(n / 10);
      assert DigitValue(DigitChar(n % 10)) == n % 10;
    } else {
      assert DigitValue(DigitChar(n)) == n;
    }
  }

  /** Parsing the text of an integer gives the integer back. */
  lemma IntStringRoundTrip(i: int)
    ensures ParseInt(IntToString(i)) == Some(i)
  {
    if i < 0 {
      var d := NatToString(-i);
      DigitsOfNat(-i);
      var s := "-" + d;
      assert IntToString(i) == s;
      assert s[1..] == d;
      assert DigitsValue(s[1..]) == -i;
    } else {
      var d := NatToString(i);
      DigitsOfNat(i);
      assert IntToString(i) == d;
      assert '0' <= d[0] <= '9';
      assert DigitsValue(d) == i;
    }
  }

  /** `s.replace(from, to)` with one-character string pattern and replacement:
      only the first occurrence is replaced. */
  function ReplaceFirst(s: string, from: char, to: char): string
    decreases |s|
  {
    if s == [] then []
    else if s[0] == from then [to] + s[1..]
    else [s[0]] + ReplaceFirst(s[1..], from, to)
  }

  /** Index of the first occurrence of `c` in `s`. */
  function IndexOf(s: string, c: char): (k: nat)
    requires c in s
    ensures k < |s| && s[k] == c && c !in s[..k]
    decreases |s|
  {
    if s[0] == c then 0 else 1 + IndexOf(s[1..], c)
  }

  /** Replacing the first occurrence changes exactly that one character, and nothing when
      there is none. */
  lemma ReplaceFirstSpec(s: string, from: char, to: char)
    ensures |ReplaceFirst(s, from, to)| == |s|
    ensures from !in s ==> ReplaceFirst(s, from, to) == s
    ensures from in s ==> ReplaceFirst(s, from, to) == s[..IndexOf(s, from)] + [to] + s[IndexOf(s, from) + 1..]
  {
    if from in s {
      ReplaceFirstAt(s, from, to);
    } else {
      ReplaceFirstNone(s, from, to);
    }
  }

  lemma {:induction false} ReplaceFirstNone(s: string, from: char, to: char)
    requires from !in s
    ensures ReplaceFirst(s, from, to) == s
    decreases |s|
  {
    if s != [] {
      assert s == [s[0]] + s[1..];
      ReplaceFirstNone(s[1..], from, to);
    }
  }

  /** A character other than the replacement that the text lacks is not introduced. */
  lemma {:induction false} ReplaceFirstAbsent(s: string, from: char, to: char, c: char)
    requires c != to && c !in s
    ensures c !in ReplaceFirst(s, from, to)
    decreases |s|
  {
    if s != [] && s[0] != from {
      ReplaceFirstAbsent(s[1..], from, to, c);
    }
  }

  lemma {:induction false} ReplaceFirstAt(s: string, from: char, to: char)
    requires from in s
    ensures ReplaceFirst(s, from, to) == s[..IndexOf(s, from)] + [to] + s[IndexOf(s, from) + 1..]
    decreases |s|
  {
    if s[0] != from {
      var t := s[1..];
      assert s == [s[0]] + t;
      assert from in t;
      ReplaceFirstAt(t, from, to);
      var k := IndexOf(t, from);
      assert IndexOf(s, from) == k + 1;
      assert s[..k + 1] == [s[0]] + t[..k];
      assert s[k + 2..] == t[k + 1..];
    }
  }

  /** Number of occurrences of `c` in `s`. */
  function Count(s: string, c: char): (n: nat)
    ensures n > 0 <==> c in s
    decreases |s|
  {
    if s == [] then 0 else (if s[0] == c then 1 else 0) + Count(s[1..], c)
  }

  /** `split` gives one more piece than there are separators. */
  lemma {:induction false} SplitLength(s: string, sep: char)
    ensures |Split(s, sep)| == Count(s, sep) + 1
    decreases |s|
  {
    if s != [] {
      SplitLength(s[1..], sep);
    }
  }

  /** The first piece is the text before the first separator, the rest is the split of
      the text after it. */
  lemma {:induction false} SplitAtFirst(s: string, sep: char)
    requires sep in s
    ensures Split(s, sep) == [s[..IndexOf(s, sep)]] + Split(s[IndexOf(s, sep) + 1..], sep)
    decreases |s|
  {
    var k := IndexOf(s, sep);
    if s[0] != sep {
      SplitAtFirst(s[1..], sep);
      assert s[1..][..k - 1] == s[1..k];
      assert [s[0]] + s[1..k] == s[..k];
      assert s[1..][k..] == s[k + 1..];
    }
  }

  /** Without a separator, `split` gives the whole string. */
  lemma {:induction false} SplitWithout(s: string, sep: char)
    requires sep !in s
    ensures Split(s, sep) == [s]
  {
    SplitPrefix(s, "", sep);
    assert s + "" == s;
  }

  /** Every piece but the first with a space in front: what splitting a ", "-join on ","
      gives back. */
  function Spaced(ps: seq<string>): (r: seq<string>)
    ensures |r| == |ps|
  {
    seq(|ps|, i requires 0 <= i < |ps| => if i == 0 then ps[i] else " " + ps[i])
  }

  /** Joining with ", " is joining with "," after putting a space before each later piece. */
  lemma {:induction false} JoinCommaSpace(ps: seq<string>)
    requires |ps| >= 1
    ensures Join(ps, ", ") == Join(Spaced(ps), ",")
    decreases |ps|
  {
    if |ps| >= 2 {
      JoinCommaSpace(ps[1..]);
      JoinSpacedTail(ps);
    }
  }

  lemma JoinSpacedTail(ps: seq<string>)
    requires |ps| >= 2
    requires Join(ps[1..], ", ") == Join(Spaced(ps[1..]), ",")
    ensures Join(Spaced(ps), ",") == ps[0] + ", " + Join(ps[1..], ", ")
  {
    var sp := Spaced(ps);
    var tail := Spaced(ps[1..]);
    assert sp[1..] == [" " + tail[0]] + tail[1..];
    JoinExtendFirst(" ", tail, ",");
    assert Join(sp[1..], ",") == " " + Join(tail, ",");
  }

  /** With comma-free pieces, splitting their ", "-join on "," gives each piece back,
      every one after the first preceded by a space. */
  lemma SplitCommaSpaceJoin(ps: seq<string>)
    requires |ps| >= 1 && NoneContains(ps, ',')
    ensures Split(Join(ps, ", "), ',') == Spaced(ps)
  {
    JoinCommaSpace(ps);
    assert NoneContains(Spaced(ps), ',') by {
      forall i | 0 <= i < |ps|
        ensures ',' !in Spaced(ps)[i]
      {
        assert ',' !in ps[i];
      }
    }
    SplitOfJoin(Spaced(ps), ',');
  }

  /** The text of an integer has no comma. */
  lemma IntToStringNoComma(i: int)
    ensures ',' !in IntToString(i)
  {
    var s := IntToString(i);
    if i < 0 {
      assert s == "-" + NatToString(-i);
      assert forall k :: 1 <= k < |s| ==> '0' <= s[k] <= '9';
    }
  }

  /** Lexicographic order by character code, standing in for `localeCompare`. */
  predicate LexLe(a: string, b: string)
    decreases |a|
  {
    a == [] || (b != [] && (a[0] < b[0] || (a[0] == b[0] && LexLe(a[1..], b[1..]))))
  }

  /** Any two strings are ordered one way or the other. */
  lemma {:induction false} LexTotal(a: string, b: string)
    ensures LexLe(a, b) || LexLe(b, a)
    decreases |a|
  {
    if a != [] && b != [] && a[0] == b[0] {
      LexTotal(a[1..], b[1..]);
    }
  }

  /** Replacing the first occurrence removes exactly one occurrence. */
  lemma {:induction false} ReplaceFirstCount(s: string, from: char, to: char)
    requires from != to && from in s
    ensures Count(ReplaceFirst(s, from, to), from) == Count(s, from) - 1
    decreases |s|
  {
    var r := ReplaceFirst(s, from, to);
    if s[0] == from {
      assert r[1..] == s[1..];
    } else {
      ReplaceFirstCount(s[1..], from, to);
      assert r[1..] == ReplaceFirst(s[1..], from, to);
    }
  }

  /** Joining one more piece appends the separator and the piece. */
  lemma {:induction false} JoinSnoc(ps: seq<string>, x: string, sep: string)
    requires |ps| >= 1
    ensures Join(ps + [x], sep) == Join(ps, sep) + sep + x
    decreases |ps|
  {
    if |ps| > 1 {
      JoinSnoc(ps[1..], x, sep);
      assert (ps + [x])[1..] == ps[1..] + [x];
    }
  }

  /** Pieces of the same lengths join to strings of the same length. */
  lemma {:induction false} JoinSameLengths(a: seq<string>, b: seq<string>, sep: string)
    requires |a| == |b| && forall i :: 0 <= i < |a| ==> |a[i]| == |b[i]|
    ensures |Join(a, sep)| == |Join(b, sep)|
    decreases |a|
  {
    if |a| > 1 {
      JoinSameLengths(a[1..], b[1..], sep);
    }
  }
}
