/** The word-masking step that both chat peers run before sending: every token that
    is a member of the blacklist is overwritten, in place, by a run of `*` of the
    same length; every other token is left as it is. The blacklist is the lower-cased,
    whitespace-split content of the word-list file. */
module WordFilter {
  import opened Ascii
  import opened Tokens

  /** `'*' * n` */
  function Stars(n: nat): (r: string)
    ensures |r| == n && forall i :: 0 <= i < n ==> r[i] == '*'
  {
    seq(n, _ => '*')
  }

  /** What one iteration of the masking loop leaves at a position: a blacklisted
      token becomes as many stars as it has characters, any other stays. */
  function MaskToken(blacklist: seq<string>, t: string): (r: string)
    ensures |r| == |t|
    ensures t in blacklist ==> forall i :: 0 <= i < |r| ==> r[i] == '*'
    ensures t !in blacklist ==> r == t
  {
    if t in blacklist then Stars(|t|) else t
  }

  /** The token list after the whole masking loop: one token per input token, the
      blacklisted ones starred and the others unchanged. */
  function MaskTokens(blacklist: seq<string>, ts: seq<string>): (r: seq<string>)
    ensures |r| == |ts|
    ensures forall i :: 0 <= i < |ts| && ts[i] in blacklist ==> r[i] == Stars(|ts[i]|)
    ensures forall i :: 0 <= i < |ts| && ts[i] !in blacklist ==> r[i] == ts[i]
  {
    seq(|ts|, i requires 0 <= i < |ts| => MaskToken(blacklist, ts[i]))
  }

  /** The blacklist as loaded at start-up: the file content, lower-cased and split
      on whitespace. */
  function LoadBlacklist(content: string): (x: seq<string>)
    ensures forall w :: w in x ==> IsWord(w) && NoUpper(w)
  {
    SplitLower(content);
    var ws := Split(content);
    assert forall i :: 0 <= i < |ws| ==> NoUpper(Lower(ws[i])) by {
      forall i | 0 <= i < |ws| ensures NoUpper(Lower(ws[i])) { LowerHasNoUpper(ws[i]); }
    }
    Split(Lower(content))
  }

  /** A token is blacklisted in the loaded list exactly when it is the lower-case
      form of a word of the file. */
  lemma LoadedBlacklistMembers(content: string, t: string)
    ensures t in LoadBlacklist(content) <==> exists w :: w in Split(content) && t == Lower(w)
  {
    SplitLower(content);
    var ws := Split(content);
    if t in LoadBlacklist(content) {
      var i :| 0 <= i < |ws| && LowerAll(ws)[i] == t;
      assert ws[i] in ws;
    }
    if exists w :: w in ws && t == Lower(w) {
      var w :| w in ws && t == Lower(w);
      var i :| 0 <= i < |ws| && ws[i] == w;
      assert LowerAll(ws)[i] == t;
    }
  }

  /** The masking loop: `for i in range(len(m)): if m[i] in x: m[i] = '*' * len(m[i])`.
      Each iteration rewrites position `i` only. */
  method MaskInPlace(m: array<string>, x: seq<string>)
    modifies m
    ensures m[..] == MaskTokens(x, old(m[..]))
  {
    for i := 0 to m.Length
      invariant forall k :: 0 <= k < i ==> m[k] == MaskToken(x, old(m[k]))
      invariant forall k :: i <= k < m.Length ==> m[k] == old(m[k])
    {
      if m[i] in x {
        m[i] := Stars(|m[i]|);
      }
    }
  }

  /** Masking keeps the token count, keeps every token's length, and so keeps a word
      sequence a word sequence. */
  lemma MaskTokensShape(x: seq<string>, ts: seq<string>)
    requires AllWords(ts)
    ensures |MaskTokens(x, ts)| == |ts|
    ensures forall i :: 0 <= i < |ts| ==> |MaskTokens(x, ts)[i]| == |ts[i]|
    ensures AllWords(MaskTokens(x, ts))
  {
    var ms := MaskTokens(x, ts);
    forall i | 0 <= i < |ts| ensures IsWord(ms[i]) {
      assert IsWord(ts[i]);
      if ts[i] in x {
        assert ms[i] == Stars(|ts[i]|);
        assert forall k :: 0 <= k < |ms[i]| ==> ms[i][k] == '*';
      }
    }
  }

  /** A masked token reads back unchanged: masking a second time does nothing, whatever
      the blacklist holds (a re-masked star run is the same star run). */
  lemma MaskTokensIdempotent(x: seq<string>, ts: seq<string>)
    ensures MaskTokens(x, MaskTokens(x, ts)) == MaskTokens(x, ts)
  {
    var ms := MaskTokens(x, ts);
    forall i | 0 <= i < |ts| ensures MaskToken(x, ms[i]) == ms[i] {
      if ts[i] in x {
        assert |ms[i]| == |ts[i]|;
      }
    }
  }

  /** The masked text, split again, gives back the masked tokens. */
  lemma MaskedText(x: seq<string>, ts: seq<string>)
    requires AllWords(ts)
    ensures Split(Join(MaskTokens(x, ts))) == MaskTokens(x, ts)
    ensures SingleSpaced(Join(MaskTokens(x, ts)))
    ensures Join(MaskTokens(x, ts)) == "" <==> ts == []
  {
    MaskTokensShape(x, ts);
    SplitJoin(MaskTokens(x, ts));
    JoinSingleSpaced(MaskTokens(x, ts));
    JoinEmpty(MaskTokens(x, ts));
  }
}
