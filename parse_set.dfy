/**
 * `extractSyllableParses` (index.mjs:347-379) and the merge of the
 * authoritative syllable list into its result (index.mjs:305-318).
 */
module ParseSet {
  import opened Wrappers
  import opened Strings
  import opened Dictionary
  import opened EvenSplitting

  /** One way to read the word: a syllable count and the pieces. */
  datatype Parse = Parse(count: nat, syllables: seq<string>)

  /** `p.syllables.join("-")`, the key parses are told apart by. */
  function Key(p: Parse): string {
    JoinWith(p.syllables, "-")
  }

  /** Characters at which `.` in a JavaScript regular expression stops. */
  predicate IsLineTerminator(c: char) {
    c == '\n' || c == '\r' || c == '\U{2028}' || c == '\U{2029}'
  }

  /** The first `)` at or after `j`, provided no line terminator comes before it. */
  function CloseParen(s: string, j: nat): (k: Option<nat>)
    requires j <= |s|
    ensures k.Some? ==> j <= k.value < |s| && s[k.value] == ')'
    ensures k.Some? ==> forall i :: j <= i < k.value ==> s[i] != ')' && !IsLineTerminator(s[i])
    decreases |s| - j
  {
    if j == |s| then None
    else if s[j] == ')' then Some(j)
    else if IsLineTerminator(s[j]) then None
    else CloseParen(s, j + 1)
  }

  /**
   * `raw.replace(/\(.*?\)/g, "")`: from left to right, every `(` with a later
   * `)` on the same line is removed together with the shortest text up to
   * that `)`.
   */
  function StripParens(s: string): (r: string)
    ensures |r| <= |s|
    ensures '(' !in s ==> r == s
    decreases |s|
  {
    if s == [] then []
    else if s[0] == '(' && CloseParen(s, 1).Some? then StripParens(s[CloseParen(s, 1).value + 1..])
    else [s[0]] + StripParens(s[1..])
  }

  /** The parse one pronunciation gives (index.mjs:350-370); none when its `mw` is missing or empty. */
  function ParseOf(word: string, p: Pronunciation): (r: Option<Parse>)
    ensures r.Some? ==> r.value.count >= 1 && r.value.syllables == EvenSplit(word, r.value.count)
  {
    if p.mw.None? || p.mw.value == "" then None
    else
      var count := CountChar(StripParens(p.mw.value), '-') + 1;
      Some(Parse(count, EvenSplit(word, count)))
  }

  /** One candidate parse per pronunciation that has a transcription, in the order of the list. */
  function Candidates(word: string, prs: seq<Pronunciation>): (ps: seq<Parse>)
    ensures forall i :: 0 <= i < |ps| ==> ps[i].count >= 1 && ps[i].syllables == EvenSplit(word, ps[i].count)
    decreases |prs|
  {
    if prs == [] then []
    else
      var p := ParseOf(word, prs[0]);
      (if p.Some? then [p.value] else []) + Candidates(word, prs[1..])
  }

  /** The `seen`-set filter of index.mjs:372-378: keep a parse only if its key is new. */
  function Dedup(ps: seq<Parse>, seen: set<string>): seq<Parse>
    decreases |ps|
  {
    if ps == [] then []
    else if Key(ps[0]) in seen then Dedup(ps[1..], seen)
    else [ps[0]] + Dedup(ps[1..], seen + {Key(ps[0])})
  }

  /** What `extractSyllableParses(word, prs)` returns; `None` stands for a value that is not an array. */
  function Extract(word: string, prs: Option<seq<Pronunciation>>): seq<Parse> {
    if prs.None? then [] else Dedup(Candidates(word, prs.value), {})
  }

  /** No two elements share a key. */
  predicate DistinctKeys(ps: seq<Parse>) {
    forall i, j :: 0 <= i < j < |ps| ==> Key(ps[i]) != Key(ps[j])
  }

  lemma DedupCons(p: Parse, rest: seq<Parse>, seen: set<string>)
    ensures Dedup([p] + rest, seen) ==
      if Key(p) in seen then Dedup(rest, seen) else [p] + Dedup(rest, seen + {Key(p)})
  {
    assert ([p] + rest)[1..] == rest;
  }

  /** The filter keeps only parses of its input whose keys were not seen before. */
  lemma {:induction false} DedupSubset(ps: seq<Parse>, seen: set<string>)
    ensures forall i :: 0 <= i < |Dedup(ps, seen)| ==> Dedup(ps, seen)[i] in ps && Key(Dedup(ps, seen)[i]) !in seen
    decreases |ps|
  {
    if ps != [] {
      var k := Key(ps[0]);
      var seen' := if k in seen then seen else seen + {k};
      DedupSubset(ps[1..], seen');
      var rest := Dedup(ps[1..], seen');
      var r := Dedup(ps, seen);
      forall i | 0 <= i < |r| ensures r[i] in ps && Key(r[i]) !in seen {
        if k !in seen && i == 0 {
          assert r[0] == ps[0];
        } else {
          var q := if k in seen then rest[i] else rest[i - 1];
          assert r[i] == q && q in ps[1..];
        }
      }
    }
  }

  /** The filter never keeps a key twice. */
  lemma {:induction false} DedupDistinct(ps: seq<Parse>, seen: set<string>)
    ensures DistinctKeys(Dedup(ps, seen))
    decreases |ps|
  {
    if ps != [] {
      var k := Key(ps[0]);
      if k in seen {
        DedupDistinct(ps[1..], seen);
      } else {
        var rest := Dedup(ps[1..], seen + {k});
        DedupDistinct(ps[1..], seen + {k});
        DedupSubset(ps[1..], seen + {k});
        var r := [ps[0]] + rest;
        forall i, j | 0 <= i < j < |r| ensures Key(r[i]) != Key(r[j]) {
          assert r[j] == rest[j - 1];
          if i > 0 { assert r[i] == rest[i - 1]; }
        }
      }
    }
  }

  /** Every key of the input that was not seen before is kept. */
  lemma {:induction false} DedupComplete(ps: seq<Parse>, seen: set<string>, p: Parse)
    requires p in ps && Key(p) !in seen
    ensures exists i :: 0 <= i < |Dedup(ps, seen)| && Key(Dedup(ps, seen)[i]) == Key(p)
    decreases |ps|
  {
    var k := Key(ps[0]);
    if k in seen {
      assert p in ps[1..];
      DedupComplete(ps[1..], seen, p);
      assert Dedup(ps, seen) == Dedup(ps[1..], seen);
    } else if Key(p) == k {
      assert Key(Dedup(ps, seen)[0]) == Key(p);
    } else {
      assert p in ps[1..];
      DedupComplete(ps[1..], seen + {k}, p);
      var rest := Dedup(ps[1..], seen + {k});
      var i :| 0 <= i < |rest| && Key(rest[i]) == Key(p);
      assert Dedup(ps, seen)[i + 1] == rest[i];
    }
  }

  /** `p` is the first parse of `ps` with its key. */
  predicate FirstWithKey(ps: seq<Parse>, p: Parse) {
    exists j :: 0 <= j < |ps| && ps[j] == p && forall k :: 0 <= k < j ==> Key(ps[k]) != Key(p)
  }

  lemma FirstWithKeyTail(ps: seq<Parse>, q: Parse)
    requires |ps| > 0 && FirstWithKey(ps[1..], q) && Key(ps[0]) != Key(q)
    ensures FirstWithKey(ps, q)
  {
    var j :| 0 <= j < |ps[1..]| && ps[1..][j] == q && forall m :: 0 <= m < j ==> Key(ps[1..][m]) != Key(q);
    assert ps[j + 1] == q;
    forall m | 0 <= m < j + 1 ensures Key(ps[m]) != Key(q) {
      if m > 0 { assert ps[m] == ps[1..][m - 1]; }
    }
  }

  /** First-seen order: every parse the filter keeps is the earliest of its key. */
  lemma {:induction false} DedupFirstSeen(ps: seq<Parse>, seen: set<string>)
    ensures forall i :: 0 <= i < |Dedup(ps, seen)| ==> FirstWithKey(ps, Dedup(ps, seen)[i])
    decreases |ps|
  {
    if ps != [] {
      var k := Key(ps[0]);
      var seen' := if k in seen then seen else seen + {k};
      DedupFirstSeen(ps[1..], seen');
      DedupSubset(ps[1..], seen');
      var rest := Dedup(ps[1..], seen');
      var r := Dedup(ps, seen);
      forall i | 0 <= i < |r| ensures FirstWithKey(ps, r[i]) {
        if k !in seen && i == 0 {
          assert ps[0] == r[0];
        } else {
          var q := if k in seen then rest[i] else rest[i - 1];
          assert r[i] == q;
          assert Key(q) !in seen';
          FirstWithKeyTail(ps, q);
        }
      }
    }
  }

  /**
   * Every parse of the set reads the whole word: its count is its number of
   * pieces, at least one, and the pieces concatenate to the word.
   */
  lemma ExtractParsesSpellWord(word: string, prs: Option<seq<Pronunciation>>)
    ensures prs.None? ==> Extract(word, prs) == []
    ensures forall i :: 0 <= i < |Extract(word, prs)| ==>
      var p := Extract(word, prs)[i];
      p.count == |p.syllables| && p.count >= 1 && Concat(p.syllables) == word
  {
    if prs.Some? {
      var cs := Candidates(word, prs.value);
      DedupSubset(cs, {});
      forall i | 0 <= i < |Extract(word, prs)|
        ensures var p := Extract(word, prs)[i];
          p.count == |p.syllables| && p.count >= 1 && Concat(p.syllables) == word
      {
        var p := Extract(word, prs)[i];
        EvenSplitCount(word, p.count);
        EvenSplitConcat(word, p.count);
      }
    }
  }

  /** Parses that are even splits of one word and differ in key differ in count. */
  lemma DistinctKeysDistinctCounts(word: string, r: seq<Parse>)
    requires forall i :: 0 <= i < |r| ==> r[i].syllables == EvenSplit(word, r[i].count)
    requires DistinctKeys(r)
    ensures forall i, j :: 0 <= i < j < |r| ==> r[i].count != r[j].count
  {
  }

  /**
   * The set has no repeated key, keeps first-seen order, and holds a parse for
   * every syllable count some pronunciation shows; since a parse is the even
   * split for its count, no two parses share a count either.
   */
  lemma ExtractDistinct(word: string, prs: seq<Pronunciation>)
    ensures DistinctKeys(Extract(word, Some(prs)))
    ensures forall i :: 0 <= i < |Extract(word, Some(prs))| ==>
      FirstWithKey(Candidates(word, prs), Extract(word, Some(prs))[i])
    ensures forall i, j :: 0 <= i < j < |Extract(word, Some(prs))| ==>
      Extract(word, Some(prs))[i].count != Extract(word, Some(prs))[j].count
    ensures forall p :: p in Candidates(word, prs) ==>
      exists i :: 0 <= i < |Extract(word, Some(prs))| && Extract(word, Some(prs))[i].count == p.count
  {
    var cs := Candidates(word, prs);
    var r := Dedup(cs, {});
    DedupDistinct(cs, {});
    DedupSubset(cs, {});
    DedupFirstSeen(cs, {});
    DistinctKeysDistinctCounts(word, r);
    forall p | p in cs ensures exists i :: 0 <= i < |r| && r[i].count == p.count {
      DedupComplete(cs, {}, p);
      var i :| 0 <= i < |r| && Key(r[i]) == Key(p);
      EvenSplitKeyDetermines(word, r[i].count, p.count);
    }
  }

  /** The cursor-free restatement of one pronunciation's parse, computed with the shared chunking loop. */
  method ParseOfPronunciation(word: string, p: Pronunciation) returns (r: Option<Parse>)
    ensures r == ParseOf(word, p)
  {
    if p.mw.None? || p.mw.value == "" {
      return None;
    }
    var count := CountChar(StripParens(p.mw.value), '-') + 1;
    var chunks := SplitEvenly(word, count);
    return Some(Parse(count, chunks));
  }

  /** One pass of the loop: the parse at position `i` is kept exactly when its key is new. */
  lemma ExtractStep(word: string, ps: seq<Pronunciation>, i: nat, seen: set<string>)
    requires i < |ps|
    ensures var p := ParseOf(word, ps[i]);
      var rest := Candidates(word, ps[i + 1..]);
      Dedup(Candidates(word, ps[i..]), seen) ==
        if p.Some? && Key(p.value) !in seen then [p.value] + Dedup(rest, seen + {Key(p.value)})
        else Dedup(rest, seen)
  {
    assert ps[i..][0] == ps[i] && ps[i..][1..] == ps[i + 1..];
    var p := ParseOf(word, ps[i]);
    var rest := Candidates(word, ps[i + 1..]);
    if p.Some? {
      assert Candidates(word, ps[i..]) == [p.value] + rest;
      DedupCons(p.value, rest, seen);
    } else {
      assert Candidates(word, ps[i..]) == rest;
    }
  }

  /** The loop's invariant carried over one pass, with the parse appended when its key is new. */
  lemma ExtractLoopStep(word: string, ps: seq<Pronunciation>, i: nat, seen: set<string>, parses: seq<Parse>)
    requires i < |ps|
    ensures var p := ParseOf(word, ps[i]);
      var keep := p.Some? && Key(p.value) !in seen;
      var parses' := if keep then parses + [p.value] else parses;
      var seen' := if keep then seen + {Key(p.value)} else seen;
      parses' + Dedup(Candidates(word, ps[i + 1..]), seen') == parses + Dedup(Candidates(word, ps[i..]), seen)
  {
    ExtractStep(word, ps, i, seen);
    var p := ParseOf(word, ps[i]);
    if p.Some? && Key(p.value) !in seen {
      var d := Dedup(Candidates(word, ps[i + 1..]), seen + {Key(p.value)});
      assert parses + ([p.value] + d) == (parses + [p.value]) + d;
    }
  }

  /**
   * `extractSyllableParses(word, prs)`: one pass over the pronunciations,
   * keeping a parse when its key has not been seen.
   */
  method ExtractSyllableParses(word: string, prs: Option<seq<Pronunciation>>) returns (parses: seq<Parse>)
    ensures parses == Extract(word, prs)
  {
    parses := [];
    if prs.None? {
      return;
    }
    var ps := prs.value;
    var seen: set<string> := {};
    var i := 0;
    assert ps[0..] == ps;
    while i < |ps|
      invariant 0 <= i <= |ps|
      invariant parses + Dedup(Candidates(word, ps[i..]), seen) == Dedup(Candidates(word, ps), {})
    {
      ExtractLoopStep(word, ps, i, seen, parses);
      var p := ParseOfPronunciation(word, ps[i]);
      if p.Some? && Key(p.value) !in seen {
        seen := seen + {Key(p.value)};
        parses := parses + [p.value];
      }
      i := i + 1;
    }
  }

  /**
   * index.mjs:309-318: a non-empty authoritative list is put in front of the
   * parses, which keep their order, unless some parse already has its key.
   */
  function MergeAuthoritative(parses: seq<Parse>, list: seq<string>): (r: seq<Parse>)
    ensures |list| > 0 ==> exists i :: 0 <= i < |r| && Key(r[i]) == JoinWith(list, "-")
    ensures forall p :: p in parses ==> p in r
    ensures forall p :: p in r ==> p in parses || p == Parse(|list|, list)
    ensures DistinctKeys(parses) ==> DistinctKeys(r)
    ensures r == parses || r == [Parse(|list|, list)] + parses
    ensures r != parses <==> |list| > 0 && forall i :: 0 <= i < |parses| ==> Key(parses[i]) != JoinWith(list, "-")
  {
    if |list| == 0 then parses
    else
      var key := JoinWith(list, "-");
      if exists i :: 0 <= i < |parses| && Key(parses[i]) == key then parses
      else
        var r := [Parse(|list|, list)] + parses;
        assert Key(r[0]) == key;
        assert forall i :: 1 <= i < |r| ==> r[i] == parses[i - 1];
        r
  }
}
