/** Concrete lines run through both peers' filters with the blacklist ["damn"]. Each
    concrete fact is proved in a lemma of its own, which keeps the solver from
    unfolding the filters on literal strings. */
module ChatScenarios {
  import opened Ascii
  import opened Tokens
  import opened WordFilter
  import ChatServer
  import ChatClient

  const Damn: seq<string> := ["damn"]

  /** The client's output for a line known to be the join of the words `ws`. */
  lemma ClientMaskedVia(x: seq<string>, line: string, ws: seq<string>, ms: seq<string>, out: string)
    requires AllWords(ws) && line == Join(ws)
    requires MaskTokens(x, ws) == ms && Join(ms) == out
    ensures ChatClient.Masked(x, line) == out
  {
    SplitJoin(ws);
  }

  /** The server's output for a line whose lower-case form is the join of `ws`. */
  lemma ServerMaskedVia(x: seq<string>, line: string, lowered: string, ws: seq<string>, ms: seq<string>, out: string)
    requires Lower(line) == lowered
    requires AllWords(ws) && lowered == Join(ws)
    requires MaskTokens(x, ws) == ms && Join(ms) == out
    ensures ChatServer.Masked(x, line) == out
  {
    SplitJoin(ws);
  }

  // "that is a damn shame"

  lemma ShameWords()
    ensures AllWords(["that", "is", "a", "damn", "shame"])
    ensures Join(["that", "is", "a", "damn", "shame"]) == "that is a damn shame"
  {
  }

  lemma ShameLower()
    ensures Lower("that is a damn shame") == "that is a damn shame"
  {
    LowerFixedPoint("that is a damn shame");
  }

  lemma ShameMasked()
    ensures MaskTokens(Damn, ["that", "is", "a", "damn", "shame"]) == ["that", "is", "a", "****", "shame"]
    ensures Join(["that", "is", "a", "****", "shame"]) == "that is a **** shame"
  {
    assert MaskToken(Damn, "damn") == "****" by { assert Stars(4) == "****"; }
    assert MaskToken(Damn, "that") == "that";
    assert MaskToken(Damn, "is") == "is";
    assert MaskToken(Damn, "a") == "a";
    assert MaskToken(Damn, "shame") == "shame";
  }

  /** A blacklisted word in the middle of a sentence is starred, with as many stars
      as it has letters, by both peers. */
  lemma MidSentence()
    ensures ChatClient.Masked(Damn, "that is a damn shame") == "that is a **** shame"
    ensures ChatServer.Masked(Damn, "that is a damn shame") == "that is a **** shame"
  {
    ShameWords();
    ShameLower();
    ShameMasked();
    ClientMaskedVia(Damn, "that is a damn shame", ["that", "is", "a", "damn", "shame"],
      ["that", "is", "a", "****", "shame"], "that is a **** shame");
    ServerMaskedVia(Damn, "that is a damn shame", "that is a damn shame",
      ["that", "is", "a", "damn", "shame"], ["that", "is", "a", "****", "shame"], "that is a **** shame");
  }

  // "Damn it"

  lemma DamnItWords()
    ensures AllWords(["Damn", "it"]) && Join(["Damn", "it"]) == "Damn it"
    ensures AllWords(["damn", "it"]) && Join(["damn", "it"]) == "damn it"
    ensures Lower("Damn it") == "damn it"
  {
  }

  lemma DamnItMasked()
    ensures MaskTokens(Damn, ["damn", "it"]) == ["****", "it"]
    ensures MaskTokens(Damn, ["Damn", "it"]) == ["Damn", "it"]
    ensures Join(["****", "it"]) == "**** it"
  {
    assert MaskToken(Damn, "damn") == "****" by { assert Stars(4) == "****"; }
  }

  /** A capitalised blacklisted word: the server, which lower-cases the line first,
      stars it; the client, which compares the raw token, sends it unchanged. */
  lemma CapitalisedWord()
    ensures ChatServer.Masked(Damn, "Damn it") == "**** it"
    ensures ChatClient.Masked(Damn, "Damn it") == "Damn it"
  {
    DamnItWords();
    DamnItMasked();
    ServerMaskedVia(Damn, "Damn it", "damn it", ["damn", "it"], ["****", "it"], "**** it");
    ClientMaskedVia(Damn, "Damn it", ["Damn", "it"], ["Damn", "it"], "Damn it");
  }

  // "damn, that hurts"

  lemma HurtsWords()
    ensures AllWords(["damn,", "that", "hurts"])
    ensures Join(["damn,", "that", "hurts"]) == "damn, that hurts"
  {
  }

  lemma HurtsLower()
    ensures Lower("damn, that hurts") == "damn, that hurts"
  {
    LowerFixedPoint("damn, that hurts");
  }

  lemma HurtsMasked()
    ensures MaskTokens(Damn, ["damn,", "that", "hurts"]) == ["damn,", "that", "hurts"]
  {
  }

  /** Punctuation stays part of the token, so "damn," is not a blacklist entry and
      the line goes out unchanged from either peer. */
  lemma AttachedPunctuation()
    ensures ChatClient.Masked(Damn, "damn, that hurts") == "damn, that hurts"
    ensures ChatServer.Masked(Damn, "damn, that hurts") == "damn, that hurts"
  {
    HurtsWords();
    HurtsLower();
    HurtsMasked();
    ClientMaskedVia(Damn, "damn, that hurts", ["damn,", "that", "hurts"],
      ["damn,", "that", "hurts"], "damn, that hurts");
    ServerMaskedVia(Damn, "damn, that hurts", "damn, that hurts", ["damn,", "that", "hurts"],
      ["damn,", "that", "hurts"], "damn, that hurts");
  }
}
