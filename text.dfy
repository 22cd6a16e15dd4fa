/** String helpers that stand for the Python built-ins the source relies on:
  * `int(s, 10)`, `str(n)`, `sep.join(parts)`, `s.split(c)` and reading a file line by line. */
module Text {

  predicate IsDigit(ch: char) { '0' <= ch <= '9' }

  predicate AllDigits(s: string) { forall i :: 0 <= i < |s| ==> IsDigit(s[i]) }

  function DigitValue(ch: char): nat
    requires IsDigit(ch)
  {
    ch as int - '0' as int
  }

  function DigitChar(d: nat): (ch: char)
    requires d < 10
    ensures IsDigit(ch) && DigitValue(ch) == d
  {
    ('0' as int + d) as char
  }

  /** `int(s, 10)` for a string of ASCII digits. */
  function DigitsValue(s: string): nat
    requires AllDigits(s)
    decreases |s|
  {
    if s == [] then 0 else DigitsValue(s[..|s| - 1]) * 10 + DigitValue(s[|s| - 1])
  }

  /** `str(n)` for a non-negative integer: decimal digits, no leading zero. */
  function NatToString(n: nat): (s: string)
    ensures |s| >= 1 && AllDigits(s)
    decreases n
  {
    if n < 10 then [DigitChar(n)] else NatToString(n / 10) + [DigitChar(n % 10)]
  }

  /** Reading `str(n)` back with `int(_, 10)` gives n, and only 0 starts with '0'. */
  lemma {:induction false} NatToStringRoundTrip(n: nat)
    ensures DigitsValue(NatToString(n)) == n
    ensures NatToString(n)[0] == '0' <==> n == 0
    decreases n
  {
    if n >= 10 {
      var s := NatToString(n);
      assert s[..|s| - 1] == NatToString(n / 10);
      NatToStringRoundTrip(n / 10);
      assert s[0] == NatToString(n / 10)[0];
    }
  }

  /** `sep.join(parts)`. */
  function Join(parts: seq<string>, sep: string): string
    decreases |parts|
  {
    if |parts| == 0 then ""
    else if |parts| == 1 then parts[0]
    else Join(parts[..|parts| - 1], sep) + sep + parts[|parts| - 1]
  }

  lemma {:induction false} JoinCons(a: string, rest: seq<string>, sep: string)
    requires |rest| >= 1
    ensures Join([a] + rest, sep) == a + sep + Join(rest, sep)
    decreases |rest|
  {
    var all := [a] + rest;
    if |rest| > 1 {
      var init := rest[..|rest| - 1];
      assert all[..|all| - 1] == [a] + init;
      JoinCons(a, init, sep);
    } else {
      assert all[..|all| - 1] == [a];
    }
  }

  /** A character that is in no part and not in the separator is not in the joined string. */
  lemma {:induction false} JoinAvoids(parts: seq<string>, sep: string, x: char)
    requires x !in sep
    requires forall j :: 0 <= j < |parts| ==> x !in parts[j]
    ensures x !in Join(parts, sep)
    decreases |parts|
  {
    if |parts| > 1 {
      JoinAvoids(parts[..|parts| - 1], sep, x);
    }
  }

  /** `s.index(c)`: the position of the first c in s. */
  function IndexOf(s: string, c: char): (i: nat)
    requires c in s
    ensures i < |s| && s[i] == c && c !in s[..i]
  {
    if s[0] == c then 0 else 1 + IndexOf(s[1..], c)
  }

  lemma IndexOfAfter(line: string, c: char, rest: string)
    requires c !in line
    ensures c in line + [c] + rest && IndexOf(line + [c] + rest, c) == |line|
  {
    var s := line + [c] + rest;
    assert s[|line|] == c;
  }

  /** `s.split(c)` for a one-character separator: never empty. */
  function Split(s: string, c: char): (parts: seq<string>)
    ensures |parts| >= 1
    decreases |s|
  {
    if c !in s then [s]
    else
      var i := IndexOf(s, c);
      [s[..i]] + Split(s[i + 1..], c)
  }

  /** No part of a split holds the separator. */
  lemma {:induction false} SplitAvoids(s: string, c: char)
    ensures forall j :: 0 <= j < |Split(s, c)| ==> c !in Split(s, c)[j]
    decreases |s|
  {
    if c in s {
      var i := IndexOf(s, c);
      SplitAvoids(s[i + 1..], c);
    }
  }

  /** Joining the parts of a split with the same separator gives back the string. */
  lemma {:induction false} SplitJoin(s: string, c: char)
    ensures Join(Split(s, c), [c]) == s
    decreases |s|
  {
    if c in s {
      var i := IndexOf(s, c);
      SplitJoin(s[i + 1..], c);
      JoinCons(s[..i], Split(s[i + 1..], c), [c]);
      assert s == s[..i] + [c] + s[i + 1..];
    }
  }

  lemma SplitAtFirst(head: string, c: char, rest: string)
    requires c !in head
    ensures Split(head + [c] + rest, c) == [head] + Split(rest, c)
  {
    var s := head + [c] + rest;
    IndexOfAfter(head, c, rest);
    assert s[..|head|] == head;
    assert s[|head| + 1..] == rest;
  }

  /** Splitting a join gives back the parts when none of them holds the separator. */
  lemma {:induction false} JoinSplit(parts: seq<string>, c: char)
    requires |parts| >= 1
    requires forall j :: 0 <= j < |parts| ==> c !in parts[j]
    ensures Split(Join(parts, [c]), c) == parts
    decreases |parts|
  {
    if |parts| == 1 {
      assert Split(parts[0], c) == [parts[0]];
    } else {
      var rest := parts[1..];
      assert parts == [parts[0]] + rest;
      JoinCons(parts[0], rest, [c]);
      JoinSplit(rest, c);
      SplitAtFirst(parts[0], c, Join(rest, [c]));
    }
  }

  /** The lines of a text whose every line ends in '\n', without their '\n'
    * (what iterating over the file and stripping the newline yields). */
  function ReadLines(s: string): seq<string>
    decreases |s|
  {
    if s == [] then []
    else if '\n' !in s then [s]
    else
      var i := IndexOf(s, '\n');
      [s[..i]] + ReadLines(s[i + 1..])
  }

  lemma ReadLinesCons(line: string, rest: string)
    requires '\n' !in line
    ensures ReadLines(line + "\n" + rest) == [line] + ReadLines(rest)
  {
    var s := line + "\n" + rest;
    IndexOfAfter(line, '\n', rest);
    assert s[..|line|] == line;
    assert s[|line| + 1..] == rest;
  }
}
