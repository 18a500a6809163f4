# Chat4fun: verified model of the LAN chat filter, its turn-taking, and the profile checks

This project is a Dafny model of three pieces of the Chat4fun repository. It proves properties of each.

- **The LAN word filter.** Both chat peers mask the line the user types before sending it. Each token found in the blacklist becomes a run of `*` of the token's length. The tokens are then rejoined with single spaces. The blacklist is the word-list file's content, lower-cased and split on whitespace.
  - The listener (server) lower-cases the whole line before splitting, so its matching is case-insensitive and its output is lower-case.
  - The dialer (client) splits the raw line and compares each raw token with the lower-cased list, so its matching is case-sensitive.
  - In both, the masking loop rewrites a token array in place, one index at a time. It is modelled as a method on an `array<string>` (`WordFilter.MaskInPlace`). That method is proved against the specification function `WordFilter.MaskTokens`, and each peer's `MaskMessage` method is proved against that peer's `Masked` function.
- **The turn-taking loop.** The listener sends, then receives, forever. The dialer receives, then sends.
  - Sockets are not modelled. A peer's observable behaviour is a trace of `Sent`/`Received` events.
  - A receive returns at most 1024 characters of what the other side has written.
  - The `while 1` loop runs over a finite sequence of turns. Each turn gives the data pending on the connection and the line the user types.
  - A two-phase state machine (`Protocol.Accepts`) says which traces follow the protocol. Each peer's loop (`Run`) is proved to produce such a trace.
- **The profile-settings checks** (`Online/user/setting/js/script.js`). These are the pure guards inside the page's handlers:
  - the new-username length bounds and the space removal before storing;
  - the extension taken from the chosen file's path by `slice`/`lastIndexOf`, including the `0 || Infinity` case;
  - the format allow-list, checked before the size ceiling of 2102394 bytes;
  - the upload path `image/<uid>/profile.<ext>`.

Characters use an ASCII model. Whitespace is Python's ASCII whitespace: codes 9 to 13, 28 to 31, and the space. Lower-casing maps `A`–`Z` to `a`–`z` only.

Three consequences of the code are worth stating outright:
- The client's match is case-sensitive (`LAN/client.py:15-17` compares raw tokens), so `"Damn it"` goes out unchanged from the client and as `"**** it"` from the server (`ChatScenarios.CapitalisedWord`).
- A blacklisted word becomes as many stars as it has characters: `"damn"` becomes four stars (`ChatScenarios.MidSentence`).
- Masking is idempotent for every blacklist, including one that holds a run of `*`: a blacklisted star run is replaced by the star run of its own length, which is itself (`ChatServer.MaskedIdempotent`, `ChatClient.MaskedIdempotent`).

## Model

| member | source | states |
|---|---|---|
| Ascii.ToLower | LAN/server.py:18 | the result is never upper-case; letters `A`–`Z` map to `a`–`z`; every other character is kept; whitespace stays whitespace |
| Ascii.Lower | LAN/server.py:18 | `str.lower()` keeps the length, leaves no upper-case letter, keeps every character that is not upper-case, and keeps whitespace exactly where it was; `LowerFixedPoint` and `LowerIdempotent` state its fixed points |
| Ascii.LowerFixedPoint | LAN/server.py:18 | a string is its own lower-case form exactly when it has no upper-case letter |
| Ascii.LowerIdempotent | LAN/server.py:18 | lower-casing twice is lower-casing once |
| Tokens.Split | LAN/server.py:18 | every token of `str.split()` is non-empty and whitespace-free; the token list is empty exactly when the text is empty or only whitespace |
| Tokens.Join | LAN/server.py:24 | `' '.join`, specified by its partner `Split`: `SplitJoin` (split undoes join on words), `JoinSplit` (join undoes split on single-spaced text), `JoinSingleSpaced` and `JoinEmpty` |
| Tokens.SplitJoin | LAN/server.py:24 | for whitespace-free non-empty words, splitting their single-space join gives back the same words, in count and content |
| Tokens.JoinSplit | LAN/server.py:24 | single-spaced text is the join of its own split, so split-then-join changes exactly the texts that are not single-spaced |
| Tokens.JoinSingleSpaced | LAN/server.py:24 | a join of words has no leading, trailing or doubled whitespace, and each separator is one space |
| Tokens.JoinEmpty | LAN/server.py:24 | a join of words is `""` exactly when there are no words |
| Tokens.SplitLower | LAN/server.py:18 | lower-casing then splitting equals splitting then lower-casing each token |
| WordFilter.LoadBlacklist | LAN/server.py:3 | every loaded blacklist word is non-empty, whitespace-free and has no upper-case letter |
| WordFilter.LoadedBlacklistMembers | LAN/client.py:3 | a token is in the loaded list exactly when it is the lower-case form of some word of the file |
| WordFilter.Stars | LAN/server.py:21 | `'*' * n` has length `n` and holds only `*` |
| WordFilter.MaskToken | LAN/server.py:20-23 | one loop iteration keeps the token's length; a blacklisted token becomes all `*`; any other token is unchanged |
| WordFilter.MaskTokens | LAN/client.py:16-18 | the token list after the loop has one entry per token: the stars of its length when blacklisted, the token itself otherwise; `MaskTokensShape`, `MaskTokensIdempotent` and `MaskedText` state its other properties |
| WordFilter.MaskInPlace | LAN/server.py:19-23 | after the loop the array equals the masked token list of its old contents; each iteration rewrites only index `i`, and the later indices are untouched |
| WordFilter.MaskTokensShape | LAN/client.py:16-18 | masking keeps the token count and every token's length, and leaves only non-empty whitespace-free tokens |
| WordFilter.MaskTokensIdempotent | LAN/client.py:16-18 | masking an already masked token list changes nothing, for any blacklist |
| WordFilter.MaskedText | LAN/server.py:19-24 | the joined masked text splits back into the masked tokens; it is single-spaced; it is empty exactly when there were no tokens |
| ChatServer.MaskMessage | LAN/server.py:17-24 | the lower-case, split, in-place mask and join steps compute exactly the server's masked text |
| ChatServer.Masked | LAN/server.py:17-24 | the server's transmitted text, specified by `ChatServer.MaskedTokens` (token by token), `ChatServer.MaskedLayout`, `ChatServer.PassThrough` and `ChatServer.MaskedIdempotent` |
| ChatServer.MaskedTokens | LAN/server.py:18-24 | the output has as many tokens as the typed line; token `i` is `*` times the token's length when its lower-case form is blacklisted, and otherwise the lower-cased token |
| ChatServer.PassThrough | LAN/server.py:18-24 | a single-spaced, all-lower-case line with no blacklisted token is sent exactly as typed |
| ChatServer.MaskedLayout | LAN/server.py:18-24 | the output is single-spaced, and it is `""` exactly when the typed line is empty or only whitespace |
| ChatServer.MaskedIdempotent | LAN/server.py:18-24 | masking the server's output again gives the same text, with no condition on the blacklist |
| ChatServer.Trace | LAN/server.py:16-31 | the events of the server's loop, specified by `ChatServer.TraceFollowsProtocol` against the protocol machine |
| ChatServer.TraceFollowsProtocol | LAN/server.py:16-31 | the server's trace over `n` turns has `2n` events; it starts with a send and strictly alternates send and receive; each receive holds at most 1024 characters; turn `k` sends the masked `k`-th line and receives from the `k`-th pending data |
| ChatServer.Run | LAN/server.py:16-31 | the loop produces exactly the server trace, and the protocol machine started in the sending phase accepts it |
| ChatClient.MaskMessage | LAN/client.py:14-21 | the split, in-place mask and join steps compute exactly the client's masked text |
| ChatClient.Masked | LAN/client.py:14-21 | the client's transmitted text, specified by `ChatClient.MaskedTokens` (token by token), `ChatClient.MaskedLayout`, `ChatClient.PassThrough`, `ChatClient.MaskedIdempotent` and `ChatClient.AgreesWithServerWithoutUpperCase` |
| ChatClient.MaskedTokens | LAN/client.py:15-21 | the output has as many tokens as the typed line; a token that is exactly a blacklist entry becomes stars of its length; any other token passes with its casing and punctuation |
| ChatClient.UpperCaseTokensPass | LAN/client.py:15-18 | against the loaded (lower-case) blacklist, a token containing an upper-case letter is never masked |
| ChatClient.PassThrough | LAN/client.py:15-21 | a single-spaced line with no blacklisted token is sent exactly as typed |
| ChatClient.MaskedLayout | LAN/client.py:15-21 | the output is single-spaced, and it is `""` exactly when the typed line is empty or only whitespace |
| ChatClient.MaskedIdempotent | LAN/client.py:15-21 | masking the client's output again gives the same text, with no condition on the blacklist |
| ChatClient.AgreesWithServerWithoutUpperCase | LAN/client.py:15-21 | on a line without upper-case letters, the client's and the server's filters give the same text |
| ChatClient.Trace | LAN/client.py:9-23 | the events of the client's loop, specified by `ChatClient.TraceFollowsProtocol` against the protocol machine |
| ChatClient.TraceFollowsProtocol | LAN/client.py:9-23 | the client's trace over `n` turns has `2n` events; it starts with a receive and strictly alternates; each receive holds at most 1024 characters; turn `k` receives from the `k`-th pending data and sends the masked `k`-th line |
| ChatClient.Run | LAN/client.py:9-23 | the loop produces exactly the client trace, and the protocol machine started in the receiving phase accepts it |
| Protocol.Recv | LAN/client.py:10 | a receive returns a prefix of the pending data of at most 1024 characters; all of it when it fits; exactly 1024 characters when it does not |
| Protocol.Accepts | LAN/server.py:16-31 | the two-phase machine of the send/receive loop, specified by `Protocol.MachineMatchesAlternation` against positional alternation |
| Protocol.MachineMatchesAlternation | LAN/server.py:16-31 | the two-phase machine started in a role's first phase accepts a trace exactly when sends and receives alternate from that phase and every receive is bounded |
| Protocol.AlternatesExtend | LAN/client.py:9-23 | appending one full turn, in the role's order, to an alternating trace of whole turns keeps it alternating |
| ChatScenarios.MidSentence | LAN/client.py:15-21 | with blacklist `["damn"]`, `"that is a damn shame"` becomes `"that is a **** shame"` on both peers |
| ChatScenarios.CapitalisedWord | LAN/server.py:18-24 | with blacklist `["damn"]`, `"Damn it"` becomes `"**** it"` on the server and stays `"Damn it"` on the client |
| ChatScenarios.AttachedPunctuation | LAN/client.py:15-21 | with blacklist `["damn"]`, `"damn, that hurts"` is sent unchanged by both peers |
| ProfileSettings.RemoveSpaces | Online/user/setting/js/script.js:78 | the result has no space; it is shorter by the number of spaces; every other character keeps its number of occurrences; `RemoveSpacesChar` and `RemoveSpacesAppend` fix the order |
| ProfileSettings.RemoveSpacesChar | Online/user/setting/js/script.js:78 | a lone space is removed and any other lone character is kept |
| ProfileSettings.RemoveSpacesAppend | Online/user/setting/js/script.js:78 | removing spaces from a concatenation concatenates the two results in order, so together with `RemoveSpacesChar` the result is determined on every input |
| ProfileSettings.RemoveSpacesNoSpace | Online/user/setting/js/script.js:78 | text without spaces is unchanged |
| ProfileSettings.EditUsername | Online/user/setting/js/script.js:74-78 | raw length below 4 gives the too-short alert; above 20 gives the too-long alert; otherwise the page shows `@` plus the raw input and the record gets exactly `RemoveSpaces` of the input |
| ProfileSettings.StoredNameKeepsOtherCharacters | Online/user/setting/js/script.js:78 | the stored name keeps every non-space character of the input with its multiplicity |
| ProfileSettings.StoredNameJoinsParts | Online/user/setting/js/script.js:77-78 | an accepted name typed as `a + " " + b` is stored as the two parts in order, each without its spaces |
| ProfileSettings.StoredNameCanBeShort | Online/user/setting/js/script.js:74-78 | `"ab c"` passes the length check and is stored as `"abc"`, shorter than the minimum |
| ProfileSettings.LastIndexOf | Online/user/setting/js/script.js:92 | the result is -1 when the character is absent; otherwise it is a position holding the character with no later occurrence |
| ProfileSettings.Extension | Online/user/setting/js/script.js:92 | the extension has no dot and is a suffix of the path; when non-empty, it is preceded by a dot that is not the path's first character |
| ProfileSettings.ExtensionAfterDot | Online/user/setting/js/script.js:92 | for a non-empty base and a dot-free `e`, the extension of `base + "." + e` is `e` |
| ProfileSettings.ExtensionNoDot | Online/user/setting/js/script.js:92 | a path without a dot has extension `""` |
| ProfileSettings.ExtensionLeadingDot | Online/user/setting/js/script.js:92 | a path whose only dot is at index 0 has extension `""` |
| ProfileSettings.CheckPhoto | Online/user/setting/js/script.js:92-99 | the format alert fires exactly when the lower-cased extension is not jpg, jpeg, png or webp, whatever the size; the size alert fires exactly for an allowed format above 2102394 bytes; otherwise the photo is accepted with its extension in original casing |
| ProfileSettings.AcceptedPhoto | Online/user/setting/js/script.js:93-99 | an accepted photo has a 3- or 4-character allowed extension after a dot and a size of at most 2102394 bytes |
| ProfileSettings.UploadPath | Online/user/setting/js/script.js:118 | the storage path `image/<uid>/profile.<ext>`, specified by `UploadPathExtension` (the extension reads back) and `UploadPathInjective` (distinct uploads never share a path) |
| ProfileSettings.UploadPathExtension | Online/user/setting/js/script.js:118 | the extension read back from `image/<uid>/profile.<ext>` is `ext`, casing included |
| ProfileSettings.UploadPathInjective | Online/user/setting/js/script.js:118 | two uploads share a path only when they have the same uid and the same extension |
| ProfileSettings.PhotoBoundaries | Online/user/setting/js/script.js:92-118 | `me.PNG` of exactly 2102394 bytes is accepted with extension `PNG` and stored at `image/u1/profile.PNG`; one byte more is refused for size; `.png` is refused for format |

## Left out

- Socket setup and teardown are not modelled: `socket()`, `gethostname`, `bind`, `listen(1)`, `accept`, `connect` (`LAN/server.py:4-13`, `LAN/client.py:4-7`). They are I/O. Only the send and receive events appear, in the trace.
- Console and file I/O are not modelled: `open('badwords.txt')`, `input()`, `print()`. The word-list content, each typed line, and the data pending for each receive are parameters.
- `encode()` and `decode()` are not modelled. Messages are strings with one character per byte. Truncating a multi-byte UTF-8 character at 1024 bytes, and decode failures, are outside the ASCII model.
- Stream semantics are not modelled. `Protocol.Recv` returns the first at most 1024 characters of a turn's pending data. The remainder would stay in the socket buffer for the next receive; here the next turn's pending data is an independent parameter.
- A line that is empty or only whitespace is masked to `""` (`ChatServer.MaskedLayout`, `ChatClient.MaskedLayout`), and `send(b'')` (`LAN/server.py:26`, `LAN/client.py:23`) puts nothing on the connection. The other peer's `recv(1024)` then never returns, and since the sender goes on to its own receive, both peers block and the alternation ends there. The per-peer model does not capture this stall: it records `Sent("")` and lets the next `Received` take its data from the turn's independent pending parameter, so `TraceFollowsProtocol` also covers turns after an empty send that the two programs would never reach together.
- Python's Unicode `str.lower()` and `str.split()` are not modelled. Non-ASCII characters have no case and are not whitespace here.
- Termination of the `while 1` loops is not modelled. `Run` covers any finite number of turns, and `TraceFollowsProtocol` holds for every such prefix. A failing read or write, which ends the real process, is not modelled.
- The rest of `Online/user/setting/js/script.js` is not modelled. That covers DOM construction, Firebase `get`/`update`/`uploadBytesResumable`/`getDownloadURL`, `FileReader`, the popup library (including the prompt's own `max: 20` input option), the upload progress percentage (float division) and the size-in-MB display rounding (floats).
- In a browser, a file input's value starts with a fake directory (`C:\fakepath\`). The extension check is modelled on whatever path string it is given, so the index-0 dot case is proved even though a browser does not produce it.
- JavaScript string lengths count UTF-16 code units. The model counts characters; the two agree on ASCII.
- Other files are not part of this model: `Online/dashboard/js/script.js`, `Online/user/js/script.js`, `Online/loginOn.js`, `Online/signupOn.js`, `Online/password.js` and `Online/data/helper/audio/audio.js`. They hold DOM handling and Firebase calls. The audio helper's time formatting works on floats.
