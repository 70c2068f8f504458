# Live polls and circuit inputs, modelled in Dafny

This project models the core of a live-polling web application and proves properties of the model. The application has two parts.

**The poll-session server (`server/socket.ts`).** It keeps one process-wide table from a session code to a session. A session has:
- an ordered list of polls;
- a set of participant socket ids;
- `currentPollIndex`.

Each socket event handler changes that table in place. The handlers create and join sessions, create, update, delete, start and end polls, vote, list sessions and handle a disconnect. A `setTimeout` callback ends a started poll when its time limit elapses.

The model follows the same two-layer structure:
- Module `PollModel` gives one function per handler, from the session it addresses to the new session. Next to them are lemmas about sequences of events.
- Module `PollServer` gives class `PollStore`. It has the table as a `map` field and one method per handler. Each method states its new table in terms of those functions and keeps the table invariant `Valid()`.

In the model, the invariant holds for every session:
- `totalVotes` equals the sum of `votes`, and equals the number of `voters`;
- at most one poll is active;
- `-1 <= currentPollIndex < |polls|`;
- every stored time limit is truthy (not 0, -0 or NaN), so `startPoll` always arms a timer.

The first conjunct holds only because the model counts votes with the intended tally. As written, a vote for an option that names a member of `Object.prototype` breaks it; see "## Findings".

The table is a plain `{}` object, so a lookup `pollSessions[code]` also finds the members every object inherits from `Object.prototype`. A generated code never names one. A client that sends such a name as the code makes every handler that reads `session.polls` or `session.participants` throw a TypeError, and the model returns `Failure(TypeError)` for it. Time limits are JavaScript numbers (module `JsValues`), so `timeLimit || 30` keeps fractions, negative numbers and infinities, and replaces 0, -0 and NaN. `timeLimit * 1000` overflows to an infinity for a limit near `Number.MAX_VALUE`. Node's `setTimeout` waits 1 ms for any delay below 1 ms or above 2^31 - 1 ms (about 24.8 days), infinities included. So a negative, infinite or very long limit ends the poll almost at once.

A poll carries `inst`, which stands for the identity of the JavaScript object that holds it. The timer closes over that object, not the poll id. `updatePoll` replaces the object with a spread copy. So:
- a timer armed before an update no longer affects the edited poll;
- a timer armed before `endPoll` and a second `startPoll` ends the second run.

Both behaviours are stated as lemmas. A poll object that leaves the table still exists for its timer. This happens when it is replaced by `updatePoll`, filtered out by `deletePoll`, or dropped with a session that `createPollSession` overwrote. The store keeps each such object's active flag in the field `detached`. When the timer of such an object fires while the flag is set, it clears the flag and still broadcasts, and the table does not change.

**The zero-knowledge circuit helpers (`lib/`).**
- `lib/generateProof.ts`:
  - splits the RSA modulus into 120-bit limbs;
  - pads arrays and writes them in decimal;
  - zero-pads the domain into 64 bytes;
  - lays out the 18 + 64 + 1 public inputs as `0x`-prefixed 64-digit hex field strings;
  - takes the signed part of a JWT;
  - checks its inputs.
- `lib/testinput.ts` decodes the base64url modulus and exponent of a JSON Web Key. It rewrites the alphabet of section 5 of RFC 4648 to that of section 4, applies `atob`, writes the bytes as hex and parses them as a `bigint`.
- `lib/test-feedback-circuit/test.ts`:
  - pads feedback texts to 32-byte blocks;
  - pads the list to ten blocks;
  - folds the SHA-256 digests of the real blocks, `cur := H(cur ‖ h_i)`.

SHA-256 is a function parameter `H` that returns 32-byte digests.

The supporting modules model the JavaScript built-ins these helpers depend on:
- `Bytes`: `TextEncoder` as UTF-8 over Unicode scalar values, the UTF-16 `length`, and `Uint8Array.set`.
- `Numerals`: `toString(radix)`, `padStart` and `BigInt("0x…")`.
- `Base64`: `atob`, as the forgiving-base64 decode of the WHATWG Infra standard, and an encoder as its partner.
- `Wrappers`: `Option`, `Result`, and the JavaScript errors the code can throw.

Where the repository's own design description and the code disagree, the model follows the code:
- a new session silently replaces one with the same code, with no retry;
- questions and options are not validated;
- a vote for an option that is not in `options` is counted;
- a running poll can be updated;
- a timer is never cancelled, and it only checks that its poll object is still active;
- `deletePoll` does not shift `currentPollIndex` when an earlier poll is removed.

## Model

| member | source | states |
|---|---|---|
| JsValues.Scale | server/socket.ts:149 | multiplying a time limit by 1000 keeps whether it is truthy and whether it is NaN; a finite product at or above 2^1024 - 2^970 in magnitude becomes an infinity of the same sign, any other finite value is scaled |
| JsValues.ScaleOverflows | server/socket.ts:149 | a limit of 10^306 seconds is an infinite number of milliseconds |
| PollServer.EffectiveDelay | server/socket.ts:144-149 | Node waits the given delay when it lies between 1 ms and 2^31 - 1 ms, and 1 ms for any other delay, NaN and the infinities included |
| PollServer.TimerDelayOfLimit | server/socket.ts:143-149 | a poll's timer waits its limit in milliseconds when that is between 1 ms and 2^31 - 1 ms, and otherwise (negative, tiny, huge or infinite limits) 1 ms |
| JsValues.InheritedText | server/socket.ts:175 | every inherited member of `Object.prototype` reads as non-empty text, so `\|\| 0` keeps it |
| PollModel.TimeLimitOrDefault | server/socket.ts:92 | a missing limit, 0, -0 and NaN become 30; any other number is kept, fractions, negatives and infinities included; the result is always truthy |
| PollModel.FirstWhere | server/socket.ts:103 | the first position whose poll passes the test, or -1 exactly when no poll does |
| PollModel.FirstWhereAgrees | server/socket.ts:103 | two lists that answer the test alike at every position have the same first match |
| PollModel.SameIdsSameIndex | server/socket.ts:103 | lists with the same ids at every position find every id at the same position |
| PollModel.FindIndex | server/socket.ts:103 | the first position whose poll has the id, or -1 exactly when no poll has it |
| PollModel.FindInstance | server/socket.ts:142-145 | the position of the poll object a timer closes over, or -1 when that object is no longer in the session |
| PollModel.Bump | server/socket.ts:175 | `votes[option]` is created at 1 or incremented by one; every other count is unchanged |
| PollModel.SumBump | server/socket.ts:175-176 | one bump raises the sum of the tally by exactly one, matching `totalVotes++` |
| PollModel.AtMostOneActiveMeans | server/socket.ts:134-138 | at most one active poll, counted, holds iff any two active polls are the same poll |
| PollModel.NewSession | server/socket.ts:47-52 | a new session has the code, no polls, no participants, index -1, and is valid |
| PollModel.Join | server/socket.ts:71 | the participant is added; polls, code and index are unchanged; validity is kept |
| PollModel.JoinIdempotent | server/socket.ts:71 | joining twice is the same as joining once |
| PollModel.Leave | server/socket.ts:195-197 | the participant is removed from the set; polls and their voters are untouched |
| PollModel.NewPoll | server/socket.ts:84-93 | the created poll is inactive, with no votes, no voters, zero total and the defaulted time limit |
| PollModel.AddPoll | server/socket.ts:94 | exactly one poll is appended at the end; earlier polls, participants and index are unchanged; validity is kept |
| PollModel.UpdatePoll | server/socket.ts:103-110 | on a found id only question, options, time limit and object identity change; votes, voters, total and active flag are kept; an unknown id changes nothing |
| PollModel.WithoutMembers | server/socket.ts:120 | the filter keeps exactly the polls whose id differs |
| PollModel.Matching | server/socket.ts:120 | the polls the filter drops are no more than the list, and each carries the id |
| PollModel.MatchingMembers | server/socket.ts:120 | the filter drops exactly the polls with the id |
| PollModel.WithoutAppend | server/socket.ts:120 | filtering a concatenation filters each part, so relative order is kept |
| PollModel.WithoutSingle | server/socket.ts:120 | removing the only poll with the id splices out that one position |
| PollModel.DeletePoll | server/socket.ts:120-123 | the polls are the filtered list; the index is kept unless past the end, then clamped to the last poll or -1; validity is kept |
| PollModel.DeletePollIdempotent | server/socket.ts:120-123 | deleting the same id twice is the same as deleting it once |
| PollModel.DeleteEarlierPollShiftsCurrent | server/socket.ts:120-123 | deleting a poll before the current one leaves the index as it was, so it now names the poll after the started one |
| PollModel.StartPoll | server/socket.ts:132-139 | the found poll is the only active one and becomes current; nothing else about any poll changes; an unknown id changes nothing |
| PollModel.OnlyOneActive | server/socket.ts:135-138 | after the deactivate-all loop and one start, exactly one poll is active |
| PollModel.Deactivate | server/socket.ts:163 | only that poll's active flag is cleared; validity is kept |
| PollModel.EndPoll | server/socket.ts:161-163 | the first poll with the id is inactive and nothing else changes; an unknown id changes nothing |
| PollModel.EndPollIdempotent | server/socket.ts:161-163 | ending twice is the same as ending once |
| PollModel.EndInactiveIsNoop | server/socket.ts:161-163 | ending an inactive poll changes nothing |
| PollModel.FireTimer | server/socket.ts:144-148 | the timer ends its poll object only when that object is still present and active, and otherwise changes nothing |
| PollModel.TimerEndsRunningPoll | server/socket.ts:142-149 | with nothing in between, the timer of a started poll has exactly the effect of endPoll |
| PollModel.TimerAfterEndIsNoop | server/socket.ts:144-148 | the timer of a poll already ended by hand changes nothing |
| PollModel.TimerAfterUpdateIsNoop | server/socket.ts:142-146 | after updatePoll the old timer changes nothing, and an edited running poll stays running |
| PollModel.TimerAfterDeleteIsNoop | server/socket.ts:142-146 | the timer of a deleted poll changes nothing |
| PollModel.StaleTimerEndsRestartedPoll | server/socket.ts:142-149 | after start, end and start again, the first timer ends the second run |
| PollModel.Count | server/socket.ts:175-177 | an accepted vote bumps the option, increments the total and adds the voter, and keeps each poll's counts consistent |
| PollModel.Vote | server/socket.ts:173-177 | a vote is counted iff the poll exists, is active and the voter has not voted; otherwise nothing changes |
| PollModel.RepeatVoteIgnored | server/socket.ts:174 | a second vote by the same participant on the same poll, for any option, changes nothing |
| PollModel.ReadVote | server/socket.ts:175 | `votes[option]` is the own entry if there is one, else the inherited member as text, else undefined |
| PollModel.ProtoVoteIsLost | server/socket.ts:175-176 | as written, a vote for "__proto__" leaves the tally as it was while the total still grows |
| PollModel.ConstructorVoteIsText | server/socket.ts:175 | as written, a first vote for "constructor" stores the text "function Object() { [native code] }1" and no count |
| PollServer.SessionCodeNotInherited | server/socket.ts:44 | a generated code is never the name of an `Object.prototype` member |
| PollServer.Detach | server/socket.ts:105-120 | the objects that leave the table keep the active flag they had; objects that left earlier keep theirs; exactly the leaving identities are added |
| PollServer.ValuesOf | server/socket.ts:186 | `Object.values` lists every session exactly once, each under its own code |
| PollServer.PollStore.constructor | server/socket.ts:27 | the table starts empty and valid |
| PollServer.PollStore.Store | server/socket.ts:54 | storing a valid session under its code changes only that entry and keeps the table valid |
| PollServer.PollStore.CreatePollSession | server/socket.ts:41-54 | the code now maps to a new empty session, replacing any session that had it; the replaced session's polls leave the table with their active flags |
| PollServer.PollStore.JoinPollSession | server/socket.ts:66-77 | an unknown code changes nothing and replies "Invalid poll code"; a code naming an inherited member throws a TypeError; otherwise the participant joins and the reply carries the session |
| PollServer.PollStore.CreatePoll | server/socket.ts:81-97 | on a known code one fresh poll object is appended and broadcast; an inherited member's name throws a TypeError; on another unknown code nothing happens |
| PollServer.PollStore.UpdatePoll | server/socket.ts:100-114 | broadcast iff the code and poll exist; then the poll is replaced by a new object and the old one leaves the table; an inherited member's name throws a TypeError; otherwise nothing changes |
| PollServer.PollStore.DeletePoll | server/socket.ts:117-126 | on a known code the session becomes PollModel.DeletePoll, the filtered-out polls leave the table, and it is broadcast even when nothing was removed; an inherited member's name throws a TypeError |
| PollServer.PollStore.StartPoll | server/socket.ts:129-155 | on a found poll the session becomes PollModel.StartPoll and a timer is armed on that poll object with the `setTimeout` argument `timeLimit * 1000` (JsValues.Scale), which Node waits as PollServer.EffectiveDelay; an inherited member's name throws a TypeError; otherwise nothing happens |
| PollServer.PollStore.FireTimer | server/socket.ts:144-149 | while its object is in the session under the timer's code, that session becomes PollModel.FireTimer, broadcast iff the object was active; once the object has left the table, only its detached flag is cleared, broadcast iff it was set |
| PollServer.PollStore.EndPoll | server/socket.ts:158-167 | the session becomes PollModel.EndPoll, broadcast iff the poll exists; an inherited member's name throws a TypeError |
| PollServer.PollStore.Vote | server/socket.ts:170-181 | accepted iff the session exists and the vote checks pass; the session becomes PollModel.Vote; a rejected vote changes nothing; an inherited member's name as the code throws a TypeError |
| PollServer.PollStore.GetPollSessions | server/socket.ts:184-189 | every stored session is listed exactly once, each under its own code |
| PollServer.PollStore.Disconnect | server/socket.ts:192-198 | the participant leaves every session, the set of codes is unchanged, and no poll is touched |
| JwtCircuit.Limb | lib/generateProof.ts:69-70 | a limb, the truncated quotient masked with `2^w - 1`, is below `2^w` |
| JwtCircuit.SplitBigIntToLimbs | lib/generateProof.ts:60-75 | exactly `numLimbs` limbs; limb i is `(x / 2^(i·w)) & (2^w - 1)` and below `2^w`; for `0 <= x < 2^(w·n)` they recompose to x |
| JwtCircuit.LimbShift | lib/generateProof.ts:68-70 | limb i + 1 of x is limb i of x shifted down by w bits |
| JwtCircuit.LimbsRecompose | lib/generateProof.ts:68-71 | the limbs of a number below `2^(w·n)` recompose little-endian to the number |
| JwtCircuit.FieldRoundTrip | lib/generateProof.ts:208 | `"0x" + v.toString(16).padStart(64, "0")` of a value below 16^64 is exactly 66 characters, and reads back as v |
| JwtCircuit.FitsField | lib/generateProof.ts:206-218 | 120-bit limbs, bytes and a length below 256 all fit 64 hex digits |
| JwtCircuit.FieldsOfRoundTrip | lib/generateProof.ts:207-209 | mapping values below 16^64 to field strings keeps the length, and each reads back as its value |
| JwtCircuit.LimbFields | lib/generateProof.ts:206-209 | the 18 limb field strings read back as the limbs of the key |
| JwtCircuit.ByteFields | lib/generateProof.ts:213-217 | the byte field strings read back as the bytes |
| JwtCircuit.PublicInputs | lib/generateProof.ts:189-218 | it throws "invalid public inputs" for an empty domain or a zero key, and the rethrown RangeError for a domain over 64 UTF-8 bytes; otherwise it yields 83 field strings: the 18 key limbs, then the 64 zero-padded domain bytes, then the UTF-16 length |
| JwtCircuit.PadToLength | lib/generateProof.ts:112-118 | `max(|arr|, target)` decimal strings: the array's values, then "0" |
| JwtCircuit.DecimalAll | lib/generateProof.ts:126-139 | each entry is the decimal string of the corresponding value |
| JwtCircuit.IndexOf | lib/generateProof.ts:96 | the first position of the separator |
| JwtCircuit.Split | lib/generateProof.ts:96 | `split` gives at least one piece, and no piece contains the separator |
| JwtCircuit.JoinSplit | lib/generateProof.ts:96 | joining the pieces of a split with the same separator gives back the string |
| JwtCircuit.SignedDataOneDot | lib/generateProof.ts:96 | a token with a single '.' is its own signed data |
| JwtCircuit.SignedDataTwoDots | lib/generateProof.ts:96 | with a second '.', the signed data is the token up to (not including) that second '.' |
| JwtCircuit.SignedDataBeforeSecondDot | lib/generateProof.ts:96 | the signed data is the whole token when it has fewer than two '.', otherwise its prefix before the second '.' |
| JwtCircuit.PrepareProofInputs | lib/generateProof.ts:90-144 | it throws when the token or key is missing, and a RangeError for a domain over 64 UTF-8 bytes; otherwise storage is padded to 1024 decimal strings, absent fields default to empty or 0, and the domain is 64 zero-padded byte strings with its UTF-16 length |
| Numerals.ToBase | lib/generateProof.ts:208 | `toString(radix)` writes at least one lower-case digit, with no leading zero |
| Numerals.ToBaseRoundTrip | lib/generateProof.ts:208 | the digits `toString(radix)` writes read back as the number |
| Numerals.ToBaseLength | lib/generateProof.ts:208 | a number below base^k needs at most k digits |
| Numerals.PadStart | lib/generateProof.ts:208 | `padStart` left-fills to the length and never truncates |
| Numerals.PadStartValue | lib/generateProof.ts:208 | left-filling digits with zeros keeps their value |
| Numerals.ValueInAppend | lib/testinput.ts:89-91 | the value of concatenated digits shifts the left part by the length of the right |
| Numerals.DecimalRoundTrip | lib/generateProof.ts:117 | `BigInt(v).toString()` reads back as v, negative values included |
| Bytes.Zeros | lib/generateProof.ts:108 | a new `Uint8Array(n)` is n zero bytes |
| Bytes.Utf8Char | lib/generateProof.ts:109 | `TextEncoder` writes one to four bytes per character, one byte exactly for ASCII |
| Bytes.Utf8AtLeastOneBytePerChar | lib/generateProof.ts:109 | the encoding takes between one and four bytes per character |
| Bytes.Utf8OfAscii | lib/generateProof.ts:109 | ASCII text encodes to its own character codes |
| Bytes.Utf16LengthVersusUtf8 | lib/generateProof.ts:218 | `domain.length` is at most the UTF-8 byte count, and equals it exactly for ASCII |
| Bytes.SetAt | lib/generateProof.ts:109 | `set` succeeds iff the data fits at the offset, writes only that window, and otherwise changes nothing |
| Bytes.ZeroPad | lib/generateProof.ts:108-109 | a buffer of the size holds the data as a prefix and zeros after it; data longer than the buffer fails |
| Base64.SextetRoundTrip | lib/testinput.ts:84 | each base64 character of section 4 of RFC 4648 decodes to its sextet |
| Base64.StripWhitespace | lib/testinput.ts:84 | `atob` removes every ASCII whitespace character, and text without any is unchanged |
| Base64.DropPadding | lib/testinput.ts:84 | at most two trailing '=' are dropped, and only from a length divisible by four |
| Base64.DecodeSextets | lib/testinput.ts:84 | n sextets decode to `n·3/4` bytes |
| Base64.Atob | lib/testinput.ts:84 | a decoded binary string has only character codes below 256 |
| Base64.AtobFails | lib/testinput.ts:84 | `atob` fails iff, after whitespace and padding removal, the length is 1 mod 4 or a character is outside the alphabet; otherwise it has `n·3/4` characters |
| Base64.Encode | lib/testinput.ts:84 | the encoder writes alphabet characters only, with no whitespace or '=' |
| Base64.DecodeEncodeSextets | lib/testinput.ts:84 | decoding the sextets of an encoding gives back the bytes |
| Base64.AtobEncode | lib/testinput.ts:84 | `atob` of an unpadded encoding of bytes is the binary string of those bytes |
| JwkDecode.ReplaceAll | lib/testinput.ts:83 | a global one-character replace keeps the length and replaces exactly the matching characters |
| JwkDecode.UrlToStdMaps | lib/testinput.ts:83 | '-' becomes '+', '_' becomes '/', and every other character and the length are kept |
| JwkDecode.UrlToStdInverts | lib/testinput.ts:83 | the rewrite undoes the encoder's standard-to-url substitution |
| JwkDecode.ByteHex | lib/testinput.ts:90 | a byte is written as exactly two lower-case hex digits with its value |
| JwkDecode.HexOfBytes | lib/testinput.ts:89-91 | the joined hex string has two digits per byte |
| JwkDecode.HexOfBytesLower | lib/testinput.ts:89-91 | every digit of the joined hex string is lower-case |
| JwkDecode.HexOfBytesValue | lib/testinput.ts:89-92 | the hex digits spell the big-endian value of the bytes |
| JwkDecode.BigEndianLeadingZeros | lib/testinput.ts:85-92 | leading zero bytes do not change the value |
| JwkDecode.HexLiteral | lib/testinput.ts:92 | `BigInt("0x" + d)` trims trailing white space, then succeeds iff what is left is a non-empty string of hex digits, with their value; hex digits alone are never trimmed |
| JwkDecode.TrimEnd | lib/testinput.ts:92 | what is left is a prefix that does not end in white space, and only white space was cut |
| JwkDecode.TrimEndWhitespace | lib/testinput.ts:92 | trailing white space is trimmed whatever text precedes it |
| JwkDecode.HexDigitsNotTrimmed | lib/testinput.ts:92 | a string of hex digits loses nothing to the trim |
| JwkDecode.HexLiteralIgnoresTrailingSpace | lib/testinput.ts:92 | `BigInt("0xff ")` is `BigInt("0xff")`: trailing white space never changes the result |
| JwkDecode.HexLiteralOfBytes | lib/testinput.ts:89-92 | the literal built from bytes parses to their big-endian value, and is a SyntaxError for no bytes |
| JwkDecode.CharBytes | lib/testinput.ts:85-88 | one byte per character, `charCodeAt(i)` modulo 256 |
| JwkDecode.CharBytesOfLatin1 | lib/testinput.ts:84-88 | copying a binary string from `atob` into a `Uint8Array` gives back its bytes |
| JwkDecode.CopyToBytes | lib/testinput.ts:85-88 | the filled `Uint8Array` holds each character code modulo 256 |
| JwkDecode.Base64UrlToBigInt | lib/testinput.ts:82-93 | the result is the `atob` failure, the SyntaxError of an empty decoding, or the big-endian value of the decoded bytes |
| JwkDecode.DecodeEncodeUrl | lib/testinput.ts:82-93 | a number written as unpadded base64url decodes to its big-endian value, and an empty encoding is a SyntaxError |
| JwkDecode.JwkToRsaParams | lib/testinput.ts:77-99 | an absent or empty `n` or `e` throws "Invalid JWK"; otherwise modulus and exponent are decoded independently, and the modulus's error is raised first |
| FeedbackCircuit.PadTo32Bytes | lib/test-feedback-circuit/test.ts:6-10 | 32 bytes holding the UTF-8 text followed by zeros; a RangeError iff the text needs more than 32 bytes |
| FeedbackCircuit.PadToNumInputs | lib/test-feedback-circuit/test.ts:43-45 | `max(n, 10)` blocks: the given ones, then all-zero 32-byte blocks |
| FeedbackCircuit.Hashes | lib/test-feedback-circuit/test.ts:22 | one digest per block, in order |
| FeedbackCircuit.FoldFromSnoc | lib/test-feedback-circuit/test.ts:25-30 | one more loop step hashes the running digest followed by the next digest |
| FeedbackCircuit.FoldedIsLeftFold | lib/test-feedback-circuit/test.ts:24-31 | the folded digest is the left fold `cur := H(cur ‖ h_i)` starting from the first digest |
| FeedbackCircuit.FoldedHashOne | lib/test-feedback-circuit/test.ts:24 | with one block, the folded hash is that block's digest |
| FeedbackCircuit.FoldedHashAppend | lib/test-feedback-circuit/test.ts:25-30 | a further block hashes the previous folded hash followed by the new block's digest |
| FeedbackCircuit.ComputeFoldedHash | lib/test-feedback-circuit/test.ts:19-32 | the loop over 64-byte buffers, with the running digest at bytes 0-31 and the next digest at 32-63, computes the folded hash |
| FeedbackCircuit.GenerateHashCircuitInput | lib/test-feedback-circuit/test.ts:35-57 | a text over 32 bytes gives a RangeError and no texts give a TypeError; otherwise `max(n, 10)` rows of 32 bytes, the count n, and the folded hash of the first n rows only |

## Left out

- The socket.io transport is not modelled, nor is the HTTP server with its CORS settings and `listen`. The `emit` calls are reduced to returned values: a `broadcast` flag, the join reply, or the session list.
- Session codes, poll ids and socket ids are parameters. `Math.random` and `uuidv4` are outside the model. A session code is only required to look like the random code.
- JsValues.Scale: a `Finite` number is any real, and the product is exact. Rounding to the nearest double is not modelled; only the overflow to an infinity is.
- PollServer.EffectiveDelay: how Node treats a fractional delay within the accepted range is not modelled. The delay is kept as given.
- Real time is not modelled: the `setTimeout` delay is returned with the timer, and firing it is an explicit `FireTimer` call.
- There is no concurrency to model: each handler runs to completion on the Node event loop, so each method is atomic.
- PollServer.PollStore.FireTimer: after `createPollSession` overwrote a session, the old timer broadcasts the orphaned session object to the room. The model says that it broadcasts, not which session object is sent.
- A handler that throws the TypeError is modelled up to the throw: what socket.io and Node do with the uncaught exception is not modelled, and neither is the `socket.join` that `joinPollSession` performs before it throws.
- Payloads are modelled at their declared types. A `timeLimit` that is not a number (a string, say) and a code or option that is not a string are not modelled. -0 and +0 are one value, since no handler tells them apart.
- PollModel.Count: the tally is the intended one, `PollModel.Bump`. As written, an option that names an `Object.prototype` member is not counted as a number; see "## Findings".
- PollModel.Vote: counts with the intended tally; the as-written tally is `PollModel.BumpAsWritten`, see "## Findings".
- PollServer.PollStore.Vote: counts with the intended tally; the as-written tally is `PollModel.BumpAsWritten`, see "## Findings".
- PollServer.PollStore.GetPollSessions: the order `Object.values` gives is not stated, and neither is how a `Set` looks on the wire.
- The Noir prover, the Barretenberg backend and verifier, `generateInputs`, circuit-artifact loading, `fetch` of Google's public keys, the `JSON.parse` of the token parts, `performance.now` and logging are foreign or I/O code and are not modelled. `generateInputs`' result is a parameter of a record type.
- JwtCircuit.PrepareProofInputs: the circuit record takes `base64_decode_offset` and the three limb arrays of `generateInputs` as given integers, already converted with `BigInt`.
- JwtCircuit.PublicInputs: the error text of the rethrown RangeError is V8's "offset is out of bounds". Other engines word it differently.
- JwtCircuit.SplitBigIntToLimbs: recomposition is proved for `0 <= x < 2^(w·n)` only. For a negative or larger key, the contract gives each limb but not the sum.
- Strings are sequences of Unicode scalar values. Lone UTF-16 surrogates, which `TextEncoder` replaces with U+FFFD, are not represented.
- `atob` failures are a single error value, InvalidCharacter, standing for the DOMException.
- `sha256` (WebCrypto) is an uninterpreted function parameter that returns 32-byte digests. Its asynchrony is not modelled.

## Findings

| source | as written | input that shows it | evidently intended | confidence | as-written member | corrected member |
|---|---|---|---|---|---|---|
| server/socket.ts:175-176 | `votes` is created as `{}`, so `votes[option]` finds inherited members: `(votes[option] \|\| 0) + 1` turns one into text, and assigning to `__proto__` is ignored | a vote with option "__proto__" leaves the tally unchanged while `totalVotes` grows; a first vote for "constructor" stores "function Object() { [native code] }1" | every accepted vote adds one to its option's count, so `totalVotes` is always the sum of the counts | not executed | PollModel.BumpAsWritten, shown by PollModel.ProtoVoteIsLost and PollModel.ConstructorVoteIsText | PollModel.Bump, proved by PollModel.SumBump |
