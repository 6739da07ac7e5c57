/** `String.split` on a single separator character, as Java performs it. */
module Splitting {

  /** Glue fields back together with the separator between each pair. */
  function Join(fields: seq<string>, sep: char): string
    requires |fields| >= 1
  {
    if |fields| == 1 then fields[0] else fields[0] + [sep] + Join(fields[1..], sep)
  }

  predicate SeparatorFree(fields: seq<string>, sep: char) {
    forall i :: 0 <= i < |fields| ==> sep !in fields[i]
  }

  /** Every field between two separators, empty ones included: the inverse of `Join`. */
  function Split(s: string, sep: char): (fields: seq<string>)
    ensures |fields| >= 1
    ensures SeparatorFree(fields, sep)
    ensures Join(fields, sep) == s
    ensures |fields| == 1 <==> sep !in s
    decreases |s|
  {
    if |s| == 0 then [""]
    else
      var rest := Split(s[1..], sep);
      if s[0] == sep then
        assert s == [sep] + s[1..];
        [""] + rest
      else
        assert s == [s[0]] + s[1..];
        [[s[0]] + rest[0]] + rest[1..]
  }

  /** Splitting a text that starts with a separator-free field peels that field off. */
  lemma {:induction false} SplitFirstField(a: string, rest: string, sep: char)
    requires sep !in a
    ensures Split(a + [sep] + rest, sep) == [a] + Split(rest, sep)
    decreases |a|
  {
    var s := a + [sep] + rest;
    if |a| > 0 {
      assert s[1..] == a[1..] + [sep] + rest;
      SplitFirstField(a[1..], rest, sep);
      assert [a[0]] + a[1..] == a;
    } else {
      assert s[1..] == rest;
    }
  }

  /** Splitting joined separator-free fields gives the fields back. */
  lemma {:induction false} SplitOfJoin(fields: seq<string>, sep: char)
    requires |fields| >= 1 && SeparatorFree(fields, sep)
    ensures Split(Join(fields, sep), sep) == fields
    decreases |fields|
  {
    if |fields| > 1 {
      SplitOfJoin(fields[1..], sep);
      SplitFirstField(fields[0], Join(fields[1..], sep), sep);
      assert [fields[0]] + fields[1..] == fields;
    }
  }

  /** Drop the empty fields at the end, as `String.split` with a zero limit does. */
  function DropTrailingEmpty(fields: seq<string>): (kept: seq<string>)
    ensures |kept| <= |fields| && kept == fields[..|kept|]
    ensures forall i :: |kept| <= i < |fields| ==> fields[i] == ""
    ensures |kept| == 0 || kept[|kept| - 1] != ""
  {
    if |fields| == 0 || fields[|fields| - 1] != "" then fields
    else DropTrailingEmpty(fields[..|fields| - 1])
  }

  /** Java's `s.split(String.valueOf(sep))`: a text without the separator is
      returned whole (even when empty); otherwise all fields, less the
      trailing empty ones. So whatever it keeps is a prefix of the plain
      split, and what it drops is empty. */
  function JavaSplit(s: string, sep: char): (pieces: seq<string>)
    ensures var p := Split(s, sep);
      |pieces| <= |p| && pieces == p[..|pieces|] && forall i :: |pieces| <= i < |p| ==> p[i] == ""
    ensures sep !in s ==> pieces == [s]
    ensures sep in s ==> |pieces| == 0 || pieces[|pieces| - 1] != ""
  {
    if sep !in s then
      var p := Split(s, sep);
      assert |p| == 1 && Join(p, sep) == p[0];
      [s]
    else DropTrailingEmpty(Split(s, sep))
  }

  /** The Java split of a joined list of fields whose last field is not empty
      is that list. */
  lemma JavaSplitOfJoin(fields: seq<string>, sep: char)
    requires |fields| >= 1 && SeparatorFree(fields, sep)
    requires fields[|fields| - 1] != ""
    ensures JavaSplit(Join(fields, sep), sep) == fields
  {
    SplitOfJoin(fields, sep);
  }
}
