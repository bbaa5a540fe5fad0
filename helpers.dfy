/**
  * The number-word tables of timenlp/helpers.py and the functions around them: the regular
  * expression for a spelled-out number above 20, the table of named numbers 1..59 it extends,
  * the alternation of named groups `make_rule_named_number` builds from a slice of it, and the
  * two readers that turn a regex match back into a number.
  *
  * Regular expressions are kept as their source strings; a match is modelled by what the
  * readers ask of it: for each group name, whether the group exists in the pattern and, if so,
  * whether it matched a non-empty text.
  */
module Helpers {
  import opened Wrappers

  // ---------------------------------------------------------------------------------------
  // Tables

  /** The first twenty entries of `_named_numbers`. */
  const BaseNamedNumbers: seq<(nat, string)> := [
    (1, "an?|one"), (2, "two"), (3, "three"), (4, "four"), (5, "five"),
    (6, "six"), (7, "seven"), (8, "eight"), (9, "nine"), (10, "ten"),
    (11, "eleven"), (12, "twelve"), (13, "thirteen"), (14, "fourteen"), (15, "fifteen"),
    (16, "sixteen"), (17, "seventeen"), (18, "eighteen"), (19, "nineteen"), (20, "twenty")]

  /** `_tens`. */
  const TensWords: seq<string> := ["ten", "twenty", "thirty", "forty", "fifty", "sixty", "seventy", "eighty", "ninety"]

  /** `_ones`. */
  const OnesWords: seq<string> := ["one", "two", "three", "four", "five", "six", "seven", "eight", "nine"]

  /** `_named_orders`: the ordinals 1..31 (only their numbers matter to the readers). */
  const NamedOrders: seq<(nat, string)> := [
    (1, "first"), (2, "second"), (3, "third"), (4, "fourth"), (5, "fifth"), (6, "sixth"),
    (7, "seventh"), (8, "eighth"), (9, "ninth"), (10, "tenth"), (11, "eleventh"), (12, "twelfth"),
    (13, "thirteenth"), (14, "fourteenth"), (15, "fifteenth"), (16, "sixteenth"),
    (17, "seventeenth"), (18, "eighteenth"), (19, "nineteenth"), (20, "twentieth"),
    (21, "twenty-?first"), (22, "twenty-?second"), (23, "twenty-?third"), (24, "twenty-?fourth"),
    (25, "twenty-?fifth"), (26, "twenty-?sixth"), (27, "twenty-?seventh"), (28, "twenty-?eighth"),
    (29, "twenty-?ninth"), (30, "thirtieth"), (31, "thirty-?first")]

  // ---------------------------------------------------------------------------------------
  // _get_human_readable_number_regex_larger_than_20

  /** The hundreds, tens and ones digits the function computes. */
  function Digits(n: nat): (d: (int, int, int))
    ensures 0 <= d.1 < 10 && 0 <= d.2 < 10 && d.0 * 100 + d.1 * 10 + d.2 == n && d.0 == n / 100
  {
    var hundreds := n / 100;
    var tens := (n - hundreds * 100) / 10;
    var ones := (n - hundreds * 100 - tens * 10) % 10;
    (hundreds, tens, ones)
  }

  /** The tens-and-ones part: "twenty", or "twentyone|twenty-one|(?:twenty one)", or "one". */
  function TensOnesRegex(tens: int, ones: int): string
    requires 0 <= tens < 10 && 0 <= ones < 10
  {
    if tens > 0 then
      var t := TensWords[tens - 1];
      if ones == 0 then t
      else
        var o := OnesWords[ones - 1];
        Alternation3(t + o, t + "-" + o, "(?:" + t + " " + o + ")")
    else if ones > 0 then OnesWords[ones - 1]
    else ""
  }

  /** `a|b|c`. */
  function Alternation3(a: string, b: string, c: string): string {
    a + "|" + b + "|" + c
  }

  /** `_get_human_readable_number_regex_larger_than_20`: `None` from a thousand on. */
  function NumberRegexAbove20(n: nat): (r: Option<string>)
    ensures r.None? <==> n >= 1000
  {
    var (hundreds, tens, ones) := Digits(n);
    if hundreds >= 10 then None
    else
      var h := if hundreds > 0 then BaseNamedNumbers[hundreds - 1].1 + "\\s+hundreds?\\s+(?:and\\s+)?" else "";
      Some(h + TensOnesRegex(tens, ones))
  }

  /** Python's `s.split("|")`. */
  function SplitBar(s: string): (parts: seq<string>)
    ensures |parts| >= 1
    decreases |s|
  {
    if |s| == 0 then [""]
    else if s[0] == '|' then [""] + SplitBar(s[1..])
    else var rest := SplitBar(s[1..]); [[s[0]] + rest[0]] + rest[1..]
  }

  lemma {:induction false} SplitBarConcat(a: string, b: string)
    requires '|' !in a
    ensures SplitBar(a + "|" + b) == [a] + SplitBar(b)
    decreases |a|
  {
    if |a| == 0 {
      assert a + "|" + b == "|" + b;
      assert ("|" + b)[1..] == b;
    } else {
      assert (a + "|" + b)[1..] == a[1..] + "|" + b;
      SplitBarConcat(a[1..], b);
      assert [a[0]] + a[1..] == a;
    }
  }

  lemma {:induction false} SplitBarPlain(a: string)
    requires '|' !in a
    ensures SplitBar(a) == [a]
    decreases |a|
  {
    if |a| > 0 {
      SplitBarPlain(a[1..]);
      assert [a[0]] + a[1..] == a;
    }
  }

  /** The usual English spelling of 21..99: "forty" or "forty-two". */
  function Spelled(n: nat): string
    requires 21 <= n < 100
  {
    if n % 10 == 0 then TensWords[n / 10 - 1] else TensWords[n / 10 - 1] + "-" + OnesWords[n % 10 - 1]
  }

  lemma WordsHaveNoBar()
    ensures forall i :: 0 <= i < |TensWords| ==> '|' !in TensWords[i]
    ensures forall i :: 0 <= i < |OnesWords| ==> '|' !in OnesWords[i]
  {
  }

  lemma {:induction false} ThreeAlternatives(a: string, b: string, c: string)
    requires '|' !in a && '|' !in b && '|' !in c
    ensures SplitBar(Alternation3(a, b, c)) == [a, b, c]
  {
    assert a + "|" + b + "|" + c == a + "|" + (b + "|" + c);
    SplitBarConcat(a, b + "|" + c);
    SplitBarConcat(b, c);
    SplitBarPlain(c);
  }

  /** Splitting the tens-and-ones pattern at its bars gives the written forms of the number. */
  lemma TensOnesAlternatives(tens: int, ones: int)
    requires 1 <= tens < 10 && 0 <= ones < 10
    ensures var t := TensWords[tens - 1];
      && (ones == 0 ==> SplitBar(TensOnesRegex(tens, ones)) == [t])
      && (ones != 0 ==> var o := OnesWords[ones - 1];
            SplitBar(TensOnesRegex(tens, ones)) == [t + o, t + "-" + o, "(?:" + t + " " + o + ")"])
  {
    WordsHaveNoBar();
    var t := TensWords[tens - 1];
    if ones == 0 {
      SplitBarPlain(t);
    } else {
      var o := OnesWords[ones - 1];
      var g := "(?:" + t + " " + o + ")";
      assert '|' !in "-" && '|' !in " " && '|' !in "(?:" && '|' !in ")";
      ThreeAlternatives(t + o, t + "-" + o, g);
    }
  }

  /**
    * For 21..99 the pattern's alternatives are exactly the spelled-out number and, when it has
    * ones, the same words run together and a grouped space-separated form.
    */
  lemma NumberRegexSpellsOut(n: nat)
    requires 21 <= n < 100
    ensures var alts := SplitBar(NumberRegexAbove20(n).value);
      && Spelled(n) in alts
      && (n % 10 == 0 ==> alts == [Spelled(n)])
      && (n % 10 != 0 ==>
            alts == [TensWords[n / 10 - 1] + OnesWords[n % 10 - 1], Spelled(n),
                     "(?:" + TensWords[n / 10 - 1] + " " + OnesWords[n % 10 - 1] + ")"])
  {
    var d := Digits(n);
    assert d == (0, n / 10, n % 10);
    assert NumberRegexAbove20(n).value == TensOnesRegex(n / 10, n % 10);
    TensOnesAlternatives(n / 10, n % 10);
  }

  // ---------------------------------------------------------------------------------------
  // The extended table and make_rule_named_number

  /** The entry the extension adds for 21 <= n < 60. */
  function ExtensionEntry(n: nat): (e: (nat, string))
    requires 21 <= n < 60
    ensures e.0 == n
  {
    (n, NumberRegexAbove20(n).value)
  }

  /** `_named_numbers` after the extension on line 55: the numbers 1..59 in order. */
  function NamedNumbers(): (table: seq<(nat, string)>)
    ensures |table| == 59
    ensures forall k :: 0 <= k < |table| ==> table[k].0 == k + 1
  {
    BaseNamedNumbers + seq(39, k requires 0 <= k < 39 => ExtensionEntry(k + 21))
  }

  /** Each added entry lists the spelled-out number among its alternatives. */
  lemma NamedNumbersSpellOut(n: nat)
    requires 21 <= n < 60
    ensures NamedNumbers()[n - 1].0 == n
    ensures Spelled(n) in SplitBar(NamedNumbers()[n - 1].1)
  {
    assert NamedNumbers()[n - 1] == ExtensionEntry(n);
    NumberRegexSpellsOut(n);
  }

  /**
    * From a hundred on, the hundreds word is glued to the first alternative of its table entry
    * only: for 100..199 the bare "an?" is an alternative of the whole pattern.
    */
  lemma HundredsBindLoosely(n: nat)
    requires 100 <= n < 200
    ensures SplitBar(NumberRegexAbove20(n).value)[0] == "an?"
  {
    var d := Digits(n);
    assert d.0 == 1;
    var rest := "one" + "\\s+hundreds?\\s+(?:and\\s+)?" + TensOnesRegex(d.1, d.2);
    assert NumberRegexAbove20(n).value == "an?" + "|" + rest;
    SplitBarConcat("an?", rest);
  }

  /** Python's `s[i:j]`: negative bounds count from the end, bounds are clamped, j <= i is empty. */
  function PySlice<T>(s: seq<T>, i: int, j: int): (r: seq<T>)
    ensures |r| <= |s|
  {
    var lo := Clamp(if i < 0 then i + |s| else i, |s|);
    var hi := Clamp(if j < 0 then j + |s| else j, |s|);
    if hi <= lo then [] else s[lo..hi]
  }

  function Clamp(i: int, n: nat): (r: nat)
    ensures r <= n
  {
    if i < 0 then 0 else if i > n then n else i
  }

  /** Python's `str(n)` for a natural number. */
  function NatToString(n: nat): (s: string)
    ensures |s| >= 1 && IsDecimal(s)
  {
    if n < 10 then [DigitChar(n)] else NatToString(n / 10) + [DigitChar(n % 10)]
  }

  function DigitChar(d: nat): (c: char)
    requires d < 10
    ensures '0' <= c <= '9' && c as int - '0' as int == d
  {
    ('0' as int + d) as char
  }

  predicate IsDecimal(s: string) {
    forall k :: 0 <= k < |s| ==> '0' <= s[k] <= '9'
  }

  /** The number a string of decimal digits denotes, as Python's `int(s)` reads it. */
  function DecimalValue(s: string): (v: nat)
    requires IsDecimal(s)
  {
    if |s| == 0 then 0 else DecimalValue(s[..|s| - 1]) * 10 + (s[|s| - 1] as int - '0' as int)
  }

  /** `int(str(n)) == n`. */
  lemma {:induction false} NatToStringRoundTrip(n: nat)
    ensures DecimalValue(NatToString(n)) == n
  {
    var s := NatToString(n);
    if n >= 10 {
      NatToStringRoundTrip(n / 10);
      assert s[..|s| - 1] == NatToString(n / 10);
    }
  }

  /** Different numbers give different group names under the same prefix. */
  lemma GroupKeyInjective(prefix: string, a: nat, b: nat)
    requires GroupKey(prefix, a) == GroupKey(prefix, b)
    ensures a == b
  {
    assert NatToString(a) == GroupKey(prefix, a)[|prefix|..];
    assert NatToString(b) == GroupKey(prefix, b)[|prefix|..];
    NatToStringRoundTrip(a);
    NatToStringRoundTrip(b);
  }

  /** The largest group number in the table is written with two digits, as in "n_59". */
  lemma GroupKeyOfLastEntry()
    ensures GroupKey("n_", 59) == "n_59"
  {
  }

  /** The text `(?P<{prefix}{n}>` that opens the group for n. */
  function GroupOpener(prefix: string, n: nat): string {
    "(?P<" + GroupKey(prefix, n) + ">"
  }

  /** `(?P<{prefix}{n}>{expr})`: a group named by `GroupKey` around the entry's pattern. */
  function NamedGroup(prefix: string, e: (nat, string)): (r: string)
    ensures var o := GroupOpener(prefix, e.0);
      |r| == |o| + |e.1| + 1 && r[..|o|] == o && r[|o|..|r| - 1] == e.1 && r[|r| - 1] == ')'
  {
    GroupOpener(prefix, e.0) + e.1 + ")"
  }

  /** Where part k of `sep.join(parts)` starts: after each earlier part and its separator. */
  function JoinOffset(sep: string, parts: seq<string>, k: nat): nat
    requires k <= |parts|
  {
    if k == 0 then 0 else |parts[0]| + |sep| + JoinOffset(sep, parts[1..], k - 1)
  }

  /** `sep.join(parts)`: the parts in order, with `sep` between each two. */
  function Join(sep: string, parts: seq<string>): (r: string)
    ensures |parts| == 0 ==> r == ""
    ensures |parts| > 0 ==> |parts[0]| <= |r| && r[..|parts[0]|] == parts[0]
  {
    if |parts| == 0 then "" else if |parts| == 1 then parts[0] else parts[0] + sep + Join(sep, parts[1..])
  }

  /** The joined text ends with the last part: its length is the last part's offset plus that part. */
  lemma {:induction false} JoinLength(sep: string, parts: seq<string>)
    requires |parts| > 0
    ensures |Join(sep, parts)| == JoinOffset(sep, parts, |parts| - 1) + |parts[|parts| - 1]|
  {
    if |parts| > 1 {
      var rest := parts[1..];
      JoinLength(sep, rest);
      assert Join(sep, parts) == parts[0] + sep + Join(sep, rest);
      assert JoinOffset(sep, parts, |parts| - 1) == |parts[0]| + |sep| + JoinOffset(sep, rest, |rest| - 1);
      assert parts[|parts| - 1] == rest[|rest| - 1];
    }
  }

  /** Part k of the joined text sits at its offset. */
  lemma {:induction false} JoinPartAt(sep: string, parts: seq<string>, k: nat)
    requires k < |parts|
    ensures var r, i := Join(sep, parts), JoinOffset(sep, parts, k);
      i + |parts[k]| <= |r| && r[i..i + |parts[k]|] == parts[k]
  {
    if k > 0 {
      JoinPartAt(sep, parts[1..], k - 1);
      var j := JoinOffset(sep, parts[1..], k - 1);
      assert Join(sep, parts) == (parts[0] + sep) + Join(sep, parts[1..]);
      SliceOfSuffix(parts[0] + sep, Join(sep, parts[1..]), j, j + |parts[k]|);
    }
  }

  /** A separator follows every part but the last; with the length of `Join` this fixes the text. */
  lemma {:induction false} JoinSepAfter(sep: string, parts: seq<string>, k: nat)
    requires k + 1 < |parts|
    ensures var r, e := Join(sep, parts), JoinOffset(sep, parts, k) + |parts[k]|;
      e + |sep| <= |r| && r[e..e + |sep|] == sep
  {
    var rest := Join(sep, parts[1..]);
    assert Join(sep, parts) == (parts[0] + sep) + rest;
    if k > 0 {
      JoinSepAfter(sep, parts[1..], k - 1);
      var f := JoinOffset(sep, parts[1..], k - 1) + |parts[k]|;
      SliceOfSuffix(parts[0] + sep, rest, f, f + |sep|);
    } else {
      SliceOfSuffix(parts[0], sep, 0, |sep|);
      SliceOfPrefix(parts[0] + sep, rest, |parts[0]|, |parts[0]| + |sep|);
    }
  }

  /** Part k and the separator after it, read together at the part's offset. */
  lemma JoinPartThenSep(sep: string, parts: seq<string>, k: nat)
    requires k + 1 < |parts|
    ensures var r, i := Join(sep, parts), JoinOffset(sep, parts, k);
      i + |parts[k]| + |sep| <= |r| && r[i..i + |parts[k]| + |sep|] == parts[k] + sep
  {
    var r, i := Join(sep, parts), JoinOffset(sep, parts, k);
    JoinPartAt(sep, parts, k);
    JoinSepAfter(sep, parts, k);
    SliceOfPieces(r, i, i + |parts[k]|, i + |parts[k]| + |sep|, parts[k], sep);
  }

  /** Two adjacent slices of known contents make up the slice across both. */
  lemma SliceOfPieces(r: string, i: nat, c: nat, d: nat, a: string, b: string)
    requires i <= c <= d <= |r| && r[i..c] == a && r[c..d] == b
    ensures r[i..d] == a + b
  {
    assert forall j :: 0 <= j < d - i ==> r[i..d][j] == (a + b)[j];
  }

  /** A slice inside the second of two joined texts is a slice of that text. */
  lemma SliceOfSuffix(a: string, b: string, i: nat, j: nat)
    requires i <= j <= |b|
    ensures (a + b)[|a| + i..|a| + j] == b[i..j]
  {
    assert forall t :: 0 <= t < j - i ==> (a + b)[|a| + i..|a| + j][t] == b[i..j][t];
  }

  /** A slice inside the first of two joined texts is a slice of that text. */
  lemma SliceOfPrefix(a: string, b: string, i: nat, j: nat)
    requires i <= j <= |a|
    ensures (a + b)[i..j] == a[i..j]
  {
    assert forall t :: 0 <= t < j - i ==> (a + b)[i..j][t] == a[i..j][t];
  }

  /** A slice of a table numbered from 1 is a run of consecutive entries of that table. */
  lemma SliceOfNumbered(table: seq<(nat, string)>, i: int, j: int)
    requires forall k :: 0 <= k < |table| ==> table[k].0 == k + 1
    ensures var r := PySlice(table, i, j);
      && (forall k :: 0 <= k < |r| ==> 1 <= r[k].0 <= |table| && r[k] == table[r[k].0 - 1])
      && (forall k :: 0 <= k < |r| ==> r[k].0 == r[0].0 + k)
  {
  }

  /** The entries `make_rule_named_number(start, end)` turns into groups: a run of consecutive table entries. */
  function RuleEntries(start: int, end: int): (r: seq<(nat, string)>)
    ensures |r| <= 59
    ensures forall k :: 0 <= k < |r| ==> 1 <= r[k].0 <= 59 && r[k] == NamedNumbers()[r[k].0 - 1]
    ensures forall k :: 0 <= k < |r| ==> r[k].0 == r[0].0 + k
  {
    var table := NamedNumbers();
    SliceOfNumbered(table, start - 1, end);
    PySlice(table, start - 1, end)
  }

  /** The groups, one per entry, in the order of the entries. */
  function GroupParts(prefix: string, es: seq<(nat, string)>): (parts: seq<string>)
    ensures |parts| == |es| && forall k :: 0 <= k < |es| ==> parts[k] == NamedGroup(prefix, es[k])
  {
    seq(|es|, k requires 0 <= k < |es| => NamedGroup(prefix, es[k]))
  }

  /** One group per entry, joined by "|". */
  function JoinGroups(prefix: string, es: seq<(nat, string)>): (r: string)
    ensures r == "" <==> |es| == 0
  {
    Join("|", GroupParts(prefix, es))
  }

  /** `make_rule_named_number`: one named group per entry, joined by "|". */
  function MakeRuleNamedNumber(start: int, end: int, prefix: string): (r: string)
    ensures r == "" <==> |RuleEntries(start, end)| == 0
  {
    JoinGroups(prefix, RuleEntries(start, end))
  }

  /** The numbers `make_rule_named_number(start, end)` makes groups for: start..end, in order. */
  lemma RuleEntriesAreRange(start: int, end: int)
    requires 1 <= start <= end <= 59
    ensures var es := RuleEntries(start, end);
      |es| == end - start + 1 && forall k :: 0 <= k < |es| ==> es[k].0 == start + k
  {
  }

  /** Group k of the joined groups sits at the returned offset, and "|" follows it unless it is the last. */
  lemma JoinGroupsPlaces(prefix: string, es: seq<(nat, string)>, k: nat, e: (nat, string)) returns (i: nat)
    requires k < |es| && es[k] == e
    ensures var r, g := JoinGroups(prefix, es), NamedGroup(prefix, e);
      && i + |g| <= |r| && r[i..i + |g|] == g
      && (k + 1 < |es| ==> i + |g| < |r| && r[i..i + |g| + 1] == g + "|")
  {
    var parts := GroupParts(prefix, es);
    assert parts[k] == NamedGroup(prefix, e);
    assert JoinGroups(prefix, es) == Join("|", parts);
    i := JoinPlaces("|", parts, k);
  }

  /** Part k sits at the returned offset, followed by the separator unless it is the last part. */
  lemma JoinPlaces(sep: string, parts: seq<string>, k: nat) returns (i: nat)
    requires k < |parts|
    ensures var r, p := Join(sep, parts), parts[k];
      && i + |p| <= |r| && r[i..i + |p|] == p
      && (k + 1 < |parts| ==> i + |p| + |sep| <= |r| && r[i..i + |p| + |sep|] == p + sep)
  {
    i := JoinOffset(sep, parts, k);
    JoinPartAt(sep, parts, k);
    if k + 1 < |parts| {
      JoinPartThenSep(sep, parts, k);
    }
  }

  /** In the groups of any table numbered 1..59, the group for n in start..end is there, and "|" follows it before `end`. */
  lemma TableGroupFor(table: seq<(nat, string)>, start: int, end: int, prefix: string, n: nat) returns (i: nat)
    requires |table| == 59 && forall k :: 0 <= k < |table| ==> table[k].0 == k + 1
    requires 1 <= start <= n <= end <= 59
    ensures var r, g := JoinGroups(prefix, PySlice(table, start - 1, end)), NamedGroup(prefix, table[n - 1]);
      && i + |g| <= |r| && r[i..i + |g|] == g
      && (n < end ==> i + |g| < |r| && r[i..i + |g| + 1] == g + "|")
  {
    var es := PySlice(table, start - 1, end);
    SliceAt(table, start, end, n);
    i := JoinGroupsPlaces(prefix, es, n - start, table[n - 1]);
  }

  /** Entry n of a 1-based slice start..end sits at position n - start. */
  lemma SliceAt<T>(table: seq<T>, start: int, end: int, n: int)
    requires 1 <= start <= n <= end <= |table|
    ensures |PySlice(table, start - 1, end)| == end - start + 1
    ensures PySlice(table, start - 1, end)[n - start] == table[n - 1]
  {
    assert PySlice(table, start - 1, end) == table[start - 1..end];
  }

  /**
    * For each n in start..end the rule holds the group named `GroupKey(prefix, n)` around the
    * table's pattern for n: the names `get_number_from_match` asks for.
    */
  lemma RuleHasGroupFor(start: int, end: int, prefix: string, n: nat) returns (i: nat)
    requires 1 <= start <= n <= end <= 59
    ensures var r, g := MakeRuleNamedNumber(start, end, prefix), NamedGroup(prefix, (n, NamedPattern(n)));
      i + |g| <= |r| && r[i..i + |g|] == g
  {
    var table := NamedNumbers();
    assert (n, NamedPattern(n)) == table[n - 1];
    i := TableGroupFor(table, start, end, prefix, n);
  }

  /** For each n in start..end - 1 the group for n is followed by the alternation bar "|". */
  lemma RuleBarAfterGroup(start: int, end: int, prefix: string, n: nat) returns (i: nat)
    requires 1 <= start <= n < end <= 59
    ensures var r, g := MakeRuleNamedNumber(start, end, prefix), NamedGroup(prefix, (n, NamedPattern(n)));
      i + |g| < |r| && r[i..i + |g| + 1] == g + "|"
  {
    var table := NamedNumbers();
    assert (n, NamedPattern(n)) == table[n - 1];
    i := TableGroupFor(table, start, end, prefix, n);
  }

  /** The entry for n sits at position n - start of the slice. */
  lemma RuleEntryFor(start: int, end: int, n: nat)
    requires 1 <= start <= n <= end <= 59
    ensures |RuleEntries(start, end)| == end - start + 1
    ensures RuleEntries(start, end)[n - start] == (n, NamedPattern(n))
  {
    RuleEntriesAreRange(start, end);
  }

  /** The pattern the table lists for n. */
  function NamedPattern(n: nat): string
    requires 1 <= n <= 59
  {
    NamedNumbers()[n - 1].1
  }

  /**
    * Python's slice edge: a start of 0 makes the slice begin at index -1, the last entry, so
    * `make_rule_named_number(0, 10)` is empty. The rules call it with (1, 10), the defaults and (1, 4).
    */
  lemma RuleFromZeroIsEmpty()
    ensures RuleEntries(0, 10) == []
    ensures MakeRuleNamedNumber(0, 10, "n_") == ""
  {
  }

  // ---------------------------------------------------------------------------------------
  // get_number_from_match, get_DOM_from_match

  /** Asking a match for a group its pattern does not have raises `IndexError`. */
  datatype GroupError = NoSuchGroup(name: string)

  /** Group name to "matched a non-empty text"; a name not in the map is not in the pattern. */
  type Groups = map<string, bool>

  /** The group name `f"{prefix}{n}"`. */
  function GroupKey(prefix: string, n: nat): string {
    prefix + NatToString(n)
  }

  /** The first number in `ns` whose group matched, stopping at a group that does not exist. */
  function FirstMatch(groups: Groups, prefix: string, ns: seq<nat>): Result<Option<nat>, GroupError> {
    if |ns| == 0 then Ok(None)
    else if GroupKey(prefix, ns[0]) !in groups then Err(NoSuchGroup(GroupKey(prefix, ns[0])))
    else if groups[GroupKey(prefix, ns[0])] then Ok(Some(ns[0]))
    else FirstMatch(groups, prefix, ns[1..])
  }

  /** The group of `n` exists and matched. */
  predicate Matched(groups: Groups, prefix: string, n: nat) {
    GroupKey(prefix, n) in groups && groups[GroupKey(prefix, n)]
  }

  /** The group of `n` exists and did not match. */
  predicate Unmatched(groups: Groups, prefix: string, n: nat) {
    GroupKey(prefix, n) in groups && !groups[GroupKey(prefix, n)]
  }

  /**
    * What `FirstMatch` promises: it stops at position i, everything before i having a group that
    * did not match; a number comes back when the group at i matched, an error naming the group
    * when it is missing; `None` means every group exists and none matched.
    */
  lemma {:induction false} FirstMatchMeaning(groups: Groups, prefix: string, ns: seq<nat>)
    ensures var r := FirstMatch(groups, prefix, ns);
      && (r.Ok? && r.value.Some? ==>
            exists i :: 0 <= i < |ns| && ns[i] == r.value.value && Matched(groups, prefix, ns[i])
              && forall j :: 0 <= j < i ==> Unmatched(groups, prefix, ns[j]))
      && (r.Err? ==>
            exists i :: 0 <= i < |ns| && r.error == NoSuchGroup(GroupKey(prefix, ns[i]))
              && GroupKey(prefix, ns[i]) !in groups
              && forall j :: 0 <= j < i ==> Unmatched(groups, prefix, ns[j]))
      && (r == Ok(None) <==> forall j :: 0 <= j < |ns| ==> Unmatched(groups, prefix, ns[j]))
    decreases |ns|
  {
    if |ns| > 0 {
      var rest := ns[1..];
      FirstMatchMeaning(groups, prefix, rest);
      assert forall j :: 0 <= j < |rest| ==> rest[j] == ns[j + 1];
      var r := FirstMatch(groups, prefix, ns);
      if Unmatched(groups, prefix, ns[0]) {
        assert r == FirstMatch(groups, prefix, rest);
        if r.Ok? && r.value.Some? {
          var i :| 0 <= i < |rest| && rest[i] == r.value.value && Matched(groups, prefix, rest[i])
            && forall j :: 0 <= j < i ==> Unmatched(groups, prefix, rest[j]);
          assert ns[i + 1] == r.value.value;
          assert forall j :: 0 < j < i + 1 ==> ns[j] == rest[j - 1];
        }
        if r.Err? {
          var i :| 0 <= i < |rest| && r.error == NoSuchGroup(GroupKey(prefix, rest[i]))
            && GroupKey(prefix, rest[i]) !in groups
            && forall j :: 0 <= j < i ==> Unmatched(groups, prefix, rest[j]);
          assert ns[i + 1] == rest[i];
          assert forall j :: 0 < j < i + 1 ==> ns[j] == rest[j - 1];
        }
        if forall j :: 0 <= j < |ns| ==> Unmatched(groups, prefix, ns[j]) {
          assert forall j :: 0 <= j < |rest| ==> Unmatched(groups, prefix, rest[j]);
        }
        if r == Ok(None) {
          assert forall j :: 0 < j < |ns| ==> ns[j] == rest[j - 1];
        }
      }
    }
  }

  /** The numbers of a table, in table order. */
  function Numbers(table: seq<(nat, string)>): (ns: seq<nat>)
    ensures |ns| == |table| && forall k :: 0 <= k < |table| ==> ns[k] == table[k].0
  {
    seq(|table|, k requires 0 <= k < |table| => table[k].0)
  }

  /** `get_number_from_match`: the smallest named number whose group matched. */
  method GetNumberFromMatch(groups: Groups, prefix: string) returns (r: Result<Option<nat>, GroupError>)
    ensures r == FirstMatch(groups, prefix, Numbers(NamedNumbers()))
  {
    var table := NamedNumbers();
    var ns := Numbers(table);
    var i := 0;
    while i < |table|
      invariant 0 <= i <= |table|
      invariant FirstMatch(groups, prefix, ns) == FirstMatch(groups, prefix, ns[i..])
    {
      var n := table[i].0;
      var key := GroupKey(prefix, n);
      assert ns[i..][0] == n && ns[i..][1..] == ns[i + 1..];
      if key !in groups {
        return Err(NoSuchGroup(key));
      }
      if groups[key] {
        return Ok(Some(n));
      }
      i := i + 1;
    }
    return Ok(None);
  }

  /** The last number in `ns` whose group matched; every group is looked up, so any missing one raises. */
  function LastMatch(groups: Groups, prefix: string, ns: seq<nat>, found: Option<nat>): Result<Option<nat>, GroupError> {
    if |ns| == 0 then Ok(found)
    else if GroupKey(prefix, ns[0]) !in groups then Err(NoSuchGroup(GroupKey(prefix, ns[0])))
    else LastMatch(groups, prefix, ns[1..], if groups[GroupKey(prefix, ns[0])] then Some(ns[0]) else found)
  }

  /**
    * What `LastMatch` promises: it fails exactly when some group is missing; otherwise, when no
    * group matched it returns what was found before, and when one did it returns a number whose
    * group matched and after which no group matched.
    */
  lemma {:induction false} LastMatchMeaning(groups: Groups, prefix: string, ns: seq<nat>, found: Option<nat>)
    ensures var r := LastMatch(groups, prefix, ns, found);
      && (r.Err? <==> exists j :: 0 <= j < |ns| && GroupKey(prefix, ns[j]) !in groups)
      && (r.Ok? && (forall j :: 0 <= j < |ns| ==> !Matched(groups, prefix, ns[j])) ==> r.value == found)
      && (r.Ok? && (exists j :: 0 <= j < |ns| && Matched(groups, prefix, ns[j])) ==>
            exists i :: 0 <= i < |ns| && r.value == Some(ns[i]) && Matched(groups, prefix, ns[i])
              && forall j :: i < j < |ns| ==> !Matched(groups, prefix, ns[j]))
    decreases |ns|
  {
    if |ns| > 0 && GroupKey(prefix, ns[0]) in groups {
      var rest := ns[1..];
      var found' := if groups[GroupKey(prefix, ns[0])] then Some(ns[0]) else found;
      LastMatchMeaning(groups, prefix, rest, found');
      var r := LastMatch(groups, prefix, ns, found);
      assert r == LastMatch(groups, prefix, rest, found');
      assert forall j :: 0 <= j < |rest| ==> rest[j] == ns[j + 1];
      if exists j :: 0 <= j < |ns| && GroupKey(prefix, ns[j]) !in groups {
        var j :| 0 <= j < |ns| && GroupKey(prefix, ns[j]) !in groups;
        assert GroupKey(prefix, rest[j - 1]) !in groups;
      }
      if r.Ok? && exists j :: 0 <= j < |ns| && Matched(groups, prefix, ns[j]) {
        if exists j :: 0 <= j < |rest| && Matched(groups, prefix, rest[j]) {
          var i :| 0 <= i < |rest| && r.value == Some(rest[i]) && Matched(groups, prefix, rest[i])
            && forall j :: i < j < |rest| ==> !Matched(groups, prefix, rest[j]);
          assert forall j :: i + 1 < j < |ns| ==> ns[j] == rest[j - 1];
          assert r.value == Some(ns[i + 1]);
        } else {
          assert forall k :: 0 < k < |ns| ==> ns[k] == rest[k - 1];
          assert forall k :: 0 < k < |ns| ==> !Matched(groups, prefix, ns[k]);
          assert r.value == Some(ns[0]);
        }
      }
    } else if |ns| > 0 {
      assert GroupKey(prefix, ns[0]) !in groups;
    }
  }

  /** `get_DOM_from_match`: the largest ordinal whose group matched (the loop keeps going). */
  method GetDomFromMatch(groups: Groups, prefix: string) returns (r: Result<Option<nat>, GroupError>)
    ensures r == LastMatch(groups, prefix, Numbers(NamedOrders), None)
  {
    var ns := Numbers(NamedOrders);
    var num: Option<nat> := None;
    var i := 0;
    while i < |NamedOrders|
      invariant 0 <= i <= |NamedOrders|
      invariant LastMatch(groups, prefix, ns, None) == LastMatch(groups, prefix, ns[i..], num)
    {
      var n := NamedOrders[i].0;
      var key := GroupKey(prefix, n);
      assert ns[i..][0] == n && ns[i..][1..] == ns[i + 1..];
      if key !in groups {
        return Err(NoSuchGroup(key));
      }
      if groups[key] {
        num := Some(n);
      }
      i := i + 1;
    }
    return Ok(num);
  }

  /** The two readers disagree when several groups match: "first" reader vs "last" reader. */
  lemma ReadersPickOppositeEnds()
    ensures var groups := map[GroupKey("n_", 1) := true, GroupKey("n_", 2) := true];
      FirstMatch(groups, "n_", [1, 2]) == Ok(Some(1)) && LastMatch(groups, "n_", [1, 2], None) == Ok(Some(2))
  {
    var groups := map[GroupKey("n_", 1) := true, GroupKey("n_", 2) := true];
    assert [1, 2][1..] == [2];
    assert [2][1..] == [];
  }
}
