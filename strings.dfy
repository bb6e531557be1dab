/**
 * The JavaScript string operations the game relies on, over `seq<char>`.
 * Case mapping is ASCII-only: `toLowerCase`/`toUpperCase` of any other
 * character is taken to be the character itself.
 */
module Strings {

  function LowerChar(c: char): char {
    if 'A' <= c <= 'Z' then (c as int + 32) as char else c
  }

  function UpperChar(c: char): char {
    if 'a' <= c <= 'z' then (c as int - 32) as char else c
  }

  /** The text with every ASCII upper-case letter lowered. */
  function Lower(s: string): (r: string)
    ensures |r| == |s|
    ensures forall i :: 0 <= i < |s| ==> r[i] == LowerChar(s[i])
  {
    seq(|s|, i requires 0 <= i < |s| => LowerChar(s[i]))
  }

  lemma LowerAppend(a: string, b: string)
    ensures Lower(a + b) == Lower(a) + Lower(b)
  {
    assert forall i :: 0 <= i < |a + b| ==> Lower(a + b)[i] == (Lower(a) + Lower(b))[i];
  }

  /** Lower-casing commutes with taking a prefix. */
  lemma LowerPrefix(s: string, k: nat)
    requires k <= |s|
    ensures Lower(s[..k]) == Lower(s)[..k]
  {
  }

  predicate IsDigit(c: char) {
    '0' <= c <= '9'
  }

  /** Whitespace removed by `String.prototype.trim`, restricted to ASCII. */
  predicate IsSpace(c: char) {
    c == ' ' || c == '\t' || c == '\n' || c == '\r' || c == '\U{000B}' || c == '\U{000C}'
  }

  /** `t` is a prefix of `s`. */
  predicate StartsWith(s: string, t: string) {
    t <= s
  }

  /** `t` is a suffix of `s`. */
  predicate EndsWith(s: string, t: string) {
    |t| <= |s| && s[|s| - |t|..] == t
  }

  /** `s.includes(t)`, written without indices: `t` starts some suffix of `s`. */
  predicate Includes(s: string, t: string)
    decreases |s|
  {
    StartsWith(s, t) || (|s| > 0 && Includes(s[1..], t))
  }

  /** `t` occurs in `s` starting at index `i`. */
  predicate OccursAt(s: string, t: string, i: int) {
    0 <= i <= |s| - |t| && s[i..i + |t|] == t
  }

  /** `Includes` is the same as an occurrence of `t` at some index of `s`. */
  lemma {:induction false} IncludesAt(s: string, t: string)
    ensures Includes(s, t) <==> exists i :: OccursAt(s, t, i)
    decreases |s|
  {
    if StartsWith(s, t) {
      assert OccursAt(s, t, 0);
    } else if |s| > 0 {
      IncludesAt(s[1..], t);
      if Includes(s[1..], t) {
        var i :| OccursAt(s[1..], t, i);
        assert s[1..][i..i + |t|] == s[i + 1..i + 1 + |t|];
        assert OccursAt(s, t, i + 1);
      }
      if exists i :: OccursAt(s, t, i) {
        var i :| OccursAt(s, t, i);
        assert i > 0;
        assert s[1..][i - 1..i - 1 + |t|] == s[i..i + |t|];
        assert OccursAt(s[1..], t, i - 1);
      }
    } else {
      assert forall i :: !OccursAt(s, t, i);
    }
  }

  /** The text with every copy of the character `c` removed. */
  function RemoveChar(s: string, c: char): (r: string)
    ensures c !in r
    ensures |r| <= |s|
  {
    if s == [] then []
    else if s[0] == c then RemoveChar(s[1..], c)
    else [s[0]] + RemoveChar(s[1..], c)
  }

  /** How many times the character `c` occurs in the text. */
  function CountChar(s: string, c: char): (n: nat)
    ensures n <= |s|
    ensures n == 0 <==> c !in s
  {
    if s == [] then 0
    else (if s[0] == c then 1 else 0) + CountChar(s[1..], c)
  }

  lemma RemoveCharLength(s: string, c: char)
    ensures |RemoveChar(s, c)| + CountChar(s, c) == |s|
  {
  }

  /** The pieces written one after another. */
  function Concat(ss: seq<string>): string {
    if ss == [] then "" else ss[0] + Concat(ss[1..])
  }

  lemma {:induction false} ConcatAppend(a: seq<string>, b: seq<string>)
    ensures Concat(a + b) == Concat(a) + Concat(b)
    decreases |a|
  {
    if a == [] {
      assert a + b == b;
    } else {
      assert (a + b)[1..] == a[1..] + b;
      ConcatAppend(a[1..], b);
    }
  }

  /** Extending the last element extends the concatenation by the same text. */
  lemma {:induction false} ConcatExtendLast(ss: seq<string>, x: string)
    requires |ss| > 0
    ensures Concat(ss[..|ss| - 1] + [ss[|ss| - 1] + x]) == Concat(ss) + x
  {
    var init, last := ss[..|ss| - 1], ss[|ss| - 1];
    ConcatAppend(init, [last + x]);
    ConcatAppend(init, [last]);
    assert Concat([last + x]) == last + x + Concat([]);
    assert Concat([last]) == last + Concat([]);
    assert ss == init + [last];
  }

  /** Replacing the last element replaces its text at the end of the concatenation. */
  lemma ConcatWithLast(ss: seq<string>, x: string)
    requires |ss| > 0
    ensures Concat(ss) == Concat(ss[..|ss| - 1]) + ss[|ss| - 1]
    ensures Concat(ss[..|ss| - 1] + [x]) == Concat(ss[..|ss| - 1]) + x
  {
    var init := ss[..|ss| - 1];
    ConcatAppend(init, [x]);
    ConcatAppend(init, [ss[|ss| - 1]]);
    assert Concat([x]) == x + Concat([]);
    assert Concat([ss[|ss| - 1]]) == ss[|ss| - 1] + Concat([]);
    assert ss == init + [ss[|ss| - 1]];
  }

  /** The pieces written one after another with `sep` between neighbours. */
  function JoinWith(ss: seq<string>, sep: string): string {
    if ss == [] then ""
    else if |ss| == 1 then ss[0]
    else ss[0] + sep + JoinWith(ss[1..], sep)
  }

  /** Joining with a one-character separator adds one character per gap. */
  lemma {:induction false} JoinWithLength(ss: seq<string>, sep: char)
    requires |ss| > 0
    ensures |JoinWith(ss, [sep])| == |Concat(ss)| + |ss| - 1
    decreases |ss|
  {
    if |ss| > 1 {
      JoinWithLength(ss[1..], sep);
    }
  }

  /** The pieces between the copies of the one-character separator `d`, as `split` gives them. */
  function Split(s: string, d: char): (parts: seq<string>)
    ensures |parts| >= 1
    decreases |s|
  {
    if s == [] then [""]
    else
      var rest := Split(s[1..], d);
      if s[0] == d then [""] + rest else [[s[0]] + rest[0]] + rest[1..]
  }

  /** Splitting yields one more piece than there are separators. */
  lemma {:induction false} SplitCount(s: string, d: char)
    ensures |Split(s, d)| == CountChar(s, d) + 1
    decreases |s|
  {
    if s != [] {
      SplitCount(s[1..], d);
    }
  }

  /** Gluing the pieces back together gives the string without its separators. */
  lemma {:induction false} SplitConcat(s: string, d: char)
    ensures Concat(Split(s, d)) == RemoveChar(s, d)
    decreases |s|
  {
    if s != [] {
      SplitConcat(s[1..], d);
      var rest := Split(s[1..], d);
      if s[0] != d {
        assert Concat(rest) == rest[0] + Concat(rest[1..]);
        assert Concat([[s[0]] + rest[0]] + rest[1..]) == [s[0]] + rest[0] + Concat(rest[1..]);
      } else {
        assert Concat([""] + rest) == Concat(rest);
      }
    }
  }

  /** Splitting at a separator and joining with it gives the text back. */
  lemma {:induction false} SplitJoin(s: string, d: char)
    ensures JoinWith(Split(s, d), [d]) == s
    decreases |s|
  {
    if s != [] {
      SplitJoin(s[1..], d);
      var rest := Split(s[1..], d);
      if s[0] != d {
        var parts := [[s[0]] + rest[0]] + rest[1..];
        if |rest| > 1 {
          assert JoinWith(rest, [d]) == rest[0] + [d] + JoinWith(rest[1..], [d]);
          assert parts[1..] == rest[1..];
        } else {
          assert parts == [[s[0]] + rest[0]];
        }
      } else {
        assert ([""] + rest)[1..] == rest;
      }
    }
  }

  /** `s.trim()`: leading and trailing whitespace removed. */
  function Trim(s: string): (r: string)
    ensures |r| <= |s|
    ensures r != [] ==> !IsSpace(r[0]) && !IsSpace(r[|r| - 1])
  {
    TrimEnd(TrimStart(s))
  }

  function TrimStart(s: string): (r: string)
    ensures |r| <= |s|
    ensures r != [] ==> !IsSpace(r[0])
    ensures r == s[|s| - |r|..]
  {
    if s != [] && IsSpace(s[0]) then TrimStart(s[1..]) else s
  }

  function TrimEnd(s: string): (r: string)
    ensures |r| <= |s|
    ensures r != [] ==> !IsSpace(r[|r| - 1])
    ensures r == s[..|r|]
  {
    if s != [] && IsSpace(s[|s| - 1]) then TrimEnd(s[..|s| - 1]) else s
  }
}
