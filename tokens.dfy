/** Python's `str.split()` (no separator: split on runs of whitespace, drop empty
    pieces) and `' '.join(...)`, on the ASCII model, with the facts the chat filter
    needs: split yields non-empty whitespace-free words, join followed by split gives
    the words back, and a join is single-spaced. */
module Tokens {
  import opened Ascii

  /** A token as `str.split()` produces it: non-empty, no whitespace. */
  predicate IsWord(t: string) {
    |t| > 0 && forall i :: 0 <= i < |t| ==> !IsSpace(t[i])
  }

  predicate AllWords(ts: seq<string>) {
    forall i :: 0 <= i < |ts| ==> IsWord(ts[i])
  }

  predicate AllSpace(s: string) {
    forall i :: 0 <= i < |s| ==> IsSpace(s[i])
  }

  /** The text has no leading, trailing or doubled separator, and every separator
      is a single space. */
  predicate SingleSpaced(s: string) {
    && (|s| > 0 ==> !IsSpace(s[0]) && !IsSpace(s[|s| - 1]))
    && (forall i :: 0 <= i < |s| - 1 && IsSpace(s[i]) ==> s[i] == ' ' && !IsSpace(s[i + 1]))
  }

  /** Length of the longest whitespace-free prefix of `s`. */
  function WordLength(s: string): (n: nat)
    ensures n <= |s|
    ensures forall i :: 0 <= i < n ==> !IsSpace(s[i])
    ensures n < |s| ==> IsSpace(s[n])
  {
    if |s| == 0 || IsSpace(s[0]) then 0 else 1 + WordLength(s[1..])
  }

  /** The three properties of WordLength determine it. */
  lemma WordLengthUnique(s: string, n: nat)
    requires n <= |s|
    requires forall i :: 0 <= i < n ==> !IsSpace(s[i])
    requires n < |s| ==> IsSpace(s[n])
    ensures WordLength(s) == n
  {
  }

  /** `s.split()`. */
  function Split(s: string): (r: seq<string>)
    decreases |s|
    ensures AllWords(r)
    ensures r == [] <==> AllSpace(s)
  {
    if |s| == 0 then []
    else if IsSpace(s[0]) then
      var r := Split(s[1..]);
      assert AllSpace(s[1..]) ==> AllSpace(s) by {
        if AllSpace(s[1..]) {
          forall i | 0 <= i < |s| ensures IsSpace(s[i]) {
            if i > 0 { assert s[i] == s[1..][i - 1]; }
          }
        }
      }
      r
    else
      var n := WordLength(s);
      [s[..n]] + Split(s[n..])
  }

  /** `' '.join(ts)`. */
  function Join(ts: seq<string>): string
    decreases |ts|
  {
    if |ts| == 0 then ""
    else if |ts| == 1 then ts[0]
    else ts[0] + " " + Join(ts[1..])
  }

  /** Splitting a string that starts with whitespace ignores that character. */
  lemma SplitSkipsSpace(c: char, s: string)
    requires IsSpace(c)
    ensures Split([c] + s) == Split(s)
  {
    assert ([c] + s)[1..] == s;
  }

  /** A word followed by the end of text or by whitespace is split off whole. */
  lemma SplitWordThen(w: string, rest: string)
    requires IsWord(w)
    requires rest == [] || IsSpace(rest[0])
    ensures Split(w + rest) == [w] + Split(rest)
  {
    var s := w + rest;
    WordLengthUnique(s, |w|);
    assert s[..|w|] == w;
    assert s[|w|..] == rest;
  }

  /** Join and split are inverse on word sequences: the round trip from words to
      text and back loses nothing. */
  lemma {:induction false} SplitJoin(ts: seq<string>)
    requires AllWords(ts)
    ensures Split(Join(ts)) == ts
  {
    if |ts| == 1 {
      SplitWordThen(ts[0], "");
      assert ts[0] + "" == ts[0];
    } else if |ts| > 1 {
      var rest := Join(ts[1..]);
      SplitJoin(ts[1..]);
      SplitSkipsSpace(' ', rest);
      JoinCons(ts);
      SplitWordThen(ts[0], [' '] + rest);
      assert ts == [ts[0]] + ts[1..];
    }
  }

  lemma JoinCons(ts: seq<string>)
    requires |ts| > 1
    ensures Join(ts) == ts[0] + ([' '] + Join(ts[1..]))
  {
  }

  /** Joining words gives the empty text exactly when there are no words. */
  lemma JoinEmpty(ts: seq<string>)
    requires AllWords(ts)
    ensures Join(ts) == "" <==> ts == []
  {
    if ts != [] {
      assert |ts[0]| > 0;
      if |ts| > 1 {
        assert |Join(ts)| >= |ts[0]|;
      }
    }
  }

  /** Joining words with single spaces yields single-spaced text. */
  lemma {:induction false} JoinSingleSpaced(ts: seq<string>)
    requires AllWords(ts)
    ensures SingleSpaced(Join(ts))
  {
    if |ts| == 0 {
    } else if |ts| == 1 {
    } else {
      var w, rest := ts[0], Join(ts[1..]);
      JoinSingleSpaced(ts[1..]);
      JoinEmpty(ts[1..]);
      var s := w + " " + rest;
      assert |rest| > 0;
      assert s[0] == w[0];
      assert s[|s| - 1] == rest[|rest| - 1];
      forall i | 0 <= i < |s| - 1 && IsSpace(s[i])
        ensures s[i] == ' ' && !IsSpace(s[i + 1])
      {
        if i == |w| {
          assert s[i + 1] == rest[0];
        } else if i > |w| {
          assert s[i] == rest[i - |w| - 1];
          assert s[i + 1] == rest[i - |w|];
        }
      }
    }
  }

  /** Conversely, single-spaced text is the join of its own split: splitting and
      rejoining changes exactly the texts that are not single-spaced. */
  lemma {:induction false} JoinSplit(s: string)
    requires SingleSpaced(s)
    decreases |s|
    ensures Join(Split(s)) == s
  {
    if |s| > 0 {
      var n := WordLength(s);
      if n == |s| {
        assert s[..n] == s && s[n..] == [];
      } else {
        SingleSpacedAfterWord(s, n);
        JoinSplit(s[n + 1..]);
        JoinSplitStep(s, n);
      }
    }
  }

  lemma JoinSplitStep(s: string, n: nat)
    requires 0 < n < |s| && n == WordLength(s)
    requires s[n..] == [' '] + s[n + 1..]
    requires Split(s[n + 1..]) != [] && Join(Split(s[n + 1..])) == s[n + 1..]
    ensures Join(Split(s)) == s
  {
    var w, rest := s[..n], s[n + 1..];
    var ts := Split(rest);
    SplitSkipsSpace(' ', rest);
    calc {
      Join(Split(s));
      Join([w] + Split([' '] + rest));
      Join([w] + ts);
      { JoinWordThen(w, ts); }
      w + ([' '] + Join(ts));
      { assert s == w + s[n..]; }
      s;
    }
  }

  /** In single-spaced text, the whitespace after a word is one space followed by
      single-spaced text. */
  lemma SingleSpacedAfterWord(s: string, n: nat)
    requires SingleSpaced(s) && n < |s| && IsSpace(s[n])
    ensures s[n] == ' ' && n + 1 < |s|
    ensures s[n..] == [' '] + s[n + 1..]
    ensures SingleSpaced(s[n + 1..]) && !AllSpace(s[n + 1..])
  {
    var rest := s[n + 1..];
    forall i | 0 <= i < |rest| - 1 && IsSpace(rest[i])
      ensures rest[i] == ' ' && !IsSpace(rest[i + 1])
    {
      assert rest[i] == s[n + 1 + i] && rest[i + 1] == s[n + 2 + i];
    }
    assert !IsSpace(rest[0]);
  }

  lemma JoinWordThen(w: string, ts: seq<string>)
    requires ts != []
    ensures Join([w] + ts) == w + ([' '] + Join(ts))
  {
    assert ([w] + ts)[1..] == ts;
  }

  /** Lower-casing every word of a sequence. */
  function LowerAll(ts: seq<string>): seq<string> {
    seq(|ts|, i requires 0 <= i < |ts| => Lower(ts[i]))
  }

  lemma LowerAllCons(t: string, ts: seq<string>)
    ensures LowerAll([t] + ts) == [Lower(t)] + LowerAll(ts)
  {
  }

  /** Lower-casing before splitting is the same as lower-casing every word after
      splitting, because lower-casing never turns whitespace into non-whitespace or
      back. */
  lemma {:induction false} SplitLower(s: string)
    decreases |s|
    ensures Split(Lower(s)) == LowerAll(Split(s))
  {
    var l := Lower(s);
    if |s| == 0 {
    } else if IsSpace(s[0]) {
      assert l[1..] == Lower(s[1..]);
      SplitLower(s[1..]);
    } else {
      var n := WordLength(s);
      WordLengthUnique(l, n);
      assert l[..n] == Lower(s[..n]);
      assert l[n..] == Lower(s[n..]);
      SplitLower(s[n..]);
      LowerAllCons(s[..n], Split(s[n..]));
    }
  }
}
