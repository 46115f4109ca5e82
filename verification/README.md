# Verification of the go-away core

go-away is a reverse proxy that challenges its clients before it passes their requests on. This project
models the parts of it whose correctness is not visible from any single function, and proves what they
promise, for all inputs, all runs and all reachable states.

| module | models |
|---|---|
| `Bytes`, `Strings`, `Decimals`, `Threshold` | bytes, `strings.Cut`, decimal text, 256-bit numbers, targets and leading zero bits |
| `Hex` | the hexadecimal codec (section 8 of RFC 4648) |
| `PowServer`, `PowClient`, `PowProtocol` | the SHA-256 proof of work: the server's runtime, the browser's worker, and the two together |
| `Expiry`, `ChallengeKey`, `KeyVerifier` | rounded expiries, the key derived from a request, the verifier most challenges share |
| `Verify`, `Challenge` | results and states, the state cookie, one request's evaluation of its tokens |
| `Action`, `Safety`, `Gating`, `Rules` | rule actions with the challenge action in full, what they keep, what they let through, the rule forest and the request handler |
| `Runs` | posted tokens, and sequences of requests that hand cookies back and forth |
| `RawQuery` | the raw query parser, printer and internal-key filter |
| `DecayMap`, `Awaiter` | the two concurrent objects, as classes and as interleaved atomic steps |
| `Mime`, `Fingerprint` | header canonicalisation (section 3.2.6 of RFC 7230) and TLS fingerprints (section 2 of RFC 8701) |

Code that updates things in place is written as methods over arrays and as classes, each proved equal to a
specification function; the theorems are about those functions. A request's whole effect is a `ReqState`
with a trace of events (challenges issued, tokens stored, cookies sent, backend calls, panics), so that
statements about order and number are statements about the trace.

Everything the code does not decide is an arbitrary function: SHA-256, keys, verifiers, CEL conditions,
spot-check draws, every clock reading, and what an issuing function does to its request. A hash is never
assumed injective; where a statement needs it, it is assumed of the two inputs at hand only.

## What the code turned out to do

- The two proof-of-work tests differ on exactly one hash, the target itself, which the server accepts and
  the client passes over; from difficulty 256 on the worker never stops (`PowProtocol.UnsolvableFrom256`).
- The query segment `=` parses to an empty key with an empty value, which the printer writes as nothing
  (`RawQuery.LoneEqualsIsLost`), and a segment with a semicolon is dropped with the parser's error, which
  the filter discards (`RawQuery.SemicolonIsLost`). Of the text of a query the filter keeps all other pairs
  if and only if no segment is a lone `=` and no pair with an external key holds a semicolon
  (`RawQuery.PublicQueryKeepsTheRest`).
- A waiting call is not always woken by a `Solve` under its key. It is if and only if nobody has registered,
  solved or cleaned up under the key since it registered (`Awaiter.SolveTakesIff`): a second registration
  alone already loses the first waiter (`Awaiter.FirstWaiterIsReplaced`), and a waiter that gives up deletes
  the callback of another one (`Awaiter.SecondWaiterCanBeLost`). Callers whose calls under one key do not
  overlap are safe (`Awaiter.SolveWakes`).
- The verify handler records an OK result without a state. On that path the request headers would panic
  exactly in the case `Runs.HandlerMayLeaveNoState` describes; on the rule path they never do
  (`Rules.RequestIsSafe`). The handler itself does not write those headers.
- The GREASE mask matches every value whose bytes both have low nibble 10, not only the sixteen reserved
  ones: 0x0A1A is one more (`Fingerprint.MaskAgainstReserved`, `Fingerprint.MaskMatchesMore`).
- An unparsable client address gives the same prefix bytes as the network `::/64`
  (`ChallengeKey.PrefixBytesInjective`), and a header value with byte 1 inside would be ambiguous
  (`ChallengeKey.SeparatorInValueCollides`).

## Model

| member | source | states |
|---|---|---|
| `Hex.Encode` | utils/inline/hex.go:36-44 | fills exactly the first 2n bytes with the digits, high nibble first, and leaves the rest of the buffer alone |
| `Hex.Decode` | utils/inline/hex.go:69-95 | even in place: the count is the number of whole valid pairs before the first fault, the prefix written is their decoding, the rest is untouched, and the error names the first bad byte before a bad length |
| `Hex.DecodeEncode` | utils/inline/hex.go:36-95 | decoding an encoding succeeds and restores every byte sequence |
| `Hex.DecodeSucceedsIff` | utils/inline/hex.go:69-95 | success exactly on even-length strings of hex digits |
| `Hex.DigitIff` | utils/inline/hex.go:7-26 | a byte has the value n exactly when it is the n-th of 0123456789abcdef in either letter case, and none exactly when it is none of them |
| `Hex.OutcomeIs` | utils/inline/hex.go:77-92 | an odd length is reported exactly when there is no fault, a byte exactly when it is the first fault |
| `Hex.EncodeDecode` | utils/inline/hex.go:36-95 | re-encoding what was decoded gives the lower-cased input |
| `Hex.DecodedEqualIff` | utils/inline/hex.go:69-95 | two accepted strings decode alike exactly when they agree up to letter case |
| `Threshold.BuildTarget` | embed/challenge/js-pow-sha256/runtime/runtime.go:38-52 | the shifting loops build a target whose big-endian value is 2^(8n-d)-1, and 0 from d = 8n on |
| `Threshold.CountLeadingZeros` | embed/challenge/js-pow-sha256/runtime/runtime.go:88-95 | the loop with its early break counts the leading zero bits of the whole string |
| `Threshold.LeadingZerosMeans` | embed/challenge/js-pow-sha256/runtime/runtime.go:88-99 | at least d leading zero bits exactly when the value is below 2^(bits-d) |
| `Threshold.LexLessIsNumeric` | embed/challenge/js-pow-sha256/static/load.mjs:69-79 | comparing bytes from the left is comparing the numbers, for equal lengths |
| `PowServer.MakeChallenge` | embed/challenge/js-pow-sha256/runtime/runtime.go:34-63 | a puzzle exactly when the setting parses; its two strings decode to the key's digest and to a target of value 2^(256-d)-1 |
| `PowServer.VerifyChallenge` | embed/challenge/js-pow-sha256/runtime/runtime.go:66-103 | the loops and buffers compute the verdict function the other server lemmas are about |
| `PowServer.AcceptedIff` | embed/challenge/js-pow-sha256/runtime/runtime.go:66-103 | OK exactly for the spellings, in either letter case, of this key's digest followed by eight bytes whose hash is below the bound |
| `PowServer.BoundDecides` | embed/challenge/js-pow-sha256/runtime/runtime.go:88-99 | the leading-zero test is a numeric bound for every 64-bit difficulty, its narrowing to a 32-bit int included |
| `PowServer.BoundUpTo256` | embed/challenge/js-pow-sha256/runtime/runtime.go:97-99 | up to 256 the narrowing changes nothing and the bound is 2^(256-d) |
| `PowServer.VerdictOnEncoded` | embed/challenge/js-pow-sha256/runtime/runtime.go:68-101 | on the encoding of a well-formed result only the hash test decides |
| `PowServer.ErrorIff` | embed/challenge/js-pow-sha256/runtime/runtime.go:66-79 | Error, not Failed, exactly for a bad setting, bad hex, or less than eight bytes |
| `PowServer.DigestBinds` | embed/challenge/js-pow-sha256/runtime/runtime.go:27-30 | digests are equal exactly for the same key and difficulty, if the hash does not collide on the two inputs |
| `PowServer.SolutionBinds` | embed/challenge/js-pow-sha256/runtime/runtime.go:66-103 | one posted result is OK for one key and one difficulty only, under the same proviso |
| `PowServer.ParsesIff` | embed/challenge/js-pow-sha256/runtime/runtime.go:21-26 | a setting means n exactly when it is the decimal text of n, leading zeros aside, and n is below 2^64 |
| `PowServer.DifficultyIff` | embed/challenge/js-pow-sha256/runtime/runtime.go:18-26 | twenty unless configured, else the number the setting spells |
| `PowServer.NarrowIff` | embed/challenge/js-pow-sha256/runtime/runtime.go:97-97 | int(difficulty) is the one 32-bit signed number that differs from it by a multiple of 2^32 |
| `PowClient.DecodeHex` | embed/challenge/js-pow-sha256/static/load.mjs:56-63 | every byte is parseInt of its pair, wrapped, with stores past the end ignored |
| `PowClient.DecodeAgrees` | embed/challenge/js-pow-sha256/static/load.mjs:56-63 | on hex digits parseInt with its spaces, signs and prefixes reads what the server's decoder reads |
| `PowClient.PairReads` | embed/challenge/js-pow-sha256/static/load.mjs:57-60 | what any two code units are stored as, with spaces, signs, stray characters and wrap-around |
| `PowClient.EncodeAgrees` | embed/challenge/js-pow-sha256/static/load.mjs:65-67 | the browser's reduce writes exactly the server's encoding |
| `PowClient.LessThan` | embed/challenge/js-pow-sha256/static/load.mjs:69-79 | for equal lengths, true exactly when the number is smaller |
| `PowClient.Increment` | embed/challenge/js-pow-sha256/static/load.mjs:81-90 | the carry loop writes the incremented array in place |
| `PowClient.IncrementedAddsOne` | embed/challenge/js-pow-sha256/static/load.mjs:81-90 | that is one more, little-endian, and wraps to zero at the end |
| `PowClient.NonceAfterCounts` | embed/challenge/js-pow-sha256/static/load.mjs:96-112 | the k-th nonce is k in eight little-endian bytes, for all k below 2^64 |
| `PowClient.NoncesExhaustive` | embed/challenge/js-pow-sha256/static/load.mjs:96-112 | no nonce comes back before all 2^64 were tried, and each of them is tried |
| `PowClient.StopsIff` | embed/challenge/js-pow-sha256/static/load.mjs:100-113 | the endless loop stops at some turn exactly when one of the 2^64 nonces is accepted |
| `PowClient.Search` | embed/challenge/js-pow-sha256/static/load.mjs:92-113 | it stops at the least accepted nonce and posts the challenge followed by that nonce |
| `PowProtocol.TestsDifferOnlyOnTarget` | embed/challenge/js-pow-sha256/runtime/runtime.go:38-99 | for d up to 256 the server accepts the hashes up to 2^(256-d)-1 and the client those below it: they differ on the target alone |
| `PowProtocol.UnsolvableFrom256` | embed/challenge/js-pow-sha256/static/load.mjs:100-113 | from difficulty 256 on no turn of the loop stops |
| `PowProtocol.AcceptedNonceVerifies` | embed/challenge/js-pow-sha256/runtime/runtime.go:66-103 | what the client's test accepts the server accepts, for every 64-bit difficulty |
| `PowProtocol.AcceptedByServerIff` | embed/challenge/js-pow-sha256/runtime/runtime.go:66-103 | the server accepts those nonces and the ones that hash to the target, no others |
| `PowProtocol.Exchange` | embed/challenge/js-pow-sha256/static/load.mjs:92-113 | make, search, verify: whenever a nonce exists the least one is found and the verdict is OK |
| `Expiry.ExpirationIsNearest` | lib/challenge/data.go:386-388 | the expiry is the multiple of d nearest to t+d, ties going to the later one |
| `Expiry.ExpirationWindow` | lib/challenge/data.go:386-388 | t + d/2 < expiry <= t + 3d/2 |
| `Expiry.ExpirationMonotone` | lib/challenge/data.go:386-388 | later requests never get earlier expiries |
| `Expiry.SharedExpiryInterval` | lib/challenge/data.go:386-388 | for every duration, the times that share an expiry e are exactly [e - 3d/2, e - d/2) |
| `Expiry.ExpirySurvivesToken` | lib/challenge/data.go:211-243 | for whole-second durations storing the Unix second loses nothing |
| `Expiry.PassesIff` | lib/challenge/data.go:234-236 | a stored token passes the time check up to and including the instant of its expiry, and no longer |
| `Expiry.MatchingExpiryNotExpired` | lib/challenge/data.go:234-243 | a token with the request's expiry second passes the time check while the clock is within d/2 of the request |
| `Expiry.ExpiredRejected` | lib/challenge/data.go:234-236 | more than 3d/2 after it was stored every token fails the time check |
| `ChallengeKey.GetChallengeKey` | lib/challenge/key.go:47-83 | the hasher fed step by step receives the pre-hash bytes the lemmas are about; byte 0 of the key carries only the family flag |
| `ChallengeKey.Set` | lib/challenge/key.go:16-18 | for every flag set, adds its bits to byte 0 in place and leaves the other 31 bytes alone |
| `ChallengeKey.Get` | lib/challenge/key.go:19-21 | for every flag set, those of its bits that byte 0 has |
| `ChallengeKey.Unset` | lib/challenge/key.go:22-24 | for every flag set, clears its bits of byte 0 and leaves the other 31 bytes alone |
| `ChallengeKey.PreimageInjective` | lib/challenge/key.go:50-72 | equal pre-hash bytes mean equal name, prefix bytes, header names and value lists, expiry second and server fingerprint |
| `ChallengeKey.KeysEqualOnlyIf` | lib/challenge/key.go:47-83 | keys are equal exactly for the same name, network, headers with their values, expiry and server, if the hash does not collide on the two inputs |
| `ChallengeKey.PrefixBytesIff` | lib/challenge/data.go:151-162 | prefix bytes are equal exactly for IPv4 addresses, mapped ones included, with the same first three bytes, or other addresses with the same first eight |
| `ChallengeKey.PrefixBytesInjective` | lib/challenge/data.go:151-162 | prefix bytes determine the prefix, except that an unparsable address looks like ::/64 |
| `ChallengeKey.FamiliesNeverShareKeys` | lib/challenge/key.go:76-82 | byte 0 alone separates IPv4 from other requests, IPv4-mapped addresses included, whatever the hash |
| `ChallengeKey.SeparatorInValueCollides` | lib/challenge/key.go:62-65 | without the restriction on header values two different inputs share their bytes |
| `KeyVerifier.AcceptedIff` | lib/challenge/helper.go:20-43 | accepted without an error exactly when the token spells the key; the token issued for one key is accepted for no other |
| `KeyVerifier.OutcomeIs` | lib/challenge/helper.go:21-39 | when each error arises, and that the retry alone comes with an OK result next to its error |
| `KeyVerifier.MarkedIff` | lib/challenge/key.go:76-82 | the flag the verifier reads is set exactly in keys made for IPv4 clients, IPv4-mapped ones included |
| `KeyVerifier.HappyEyeballsIff` | lib/challenge/helper.go:33-37 | the retry error arises exactly for a token issued to an IPv4 client and presented by one that is not |
| `Challenge.OkIff` | lib/challenge/data.go:233-311 | OK exactly when the current key's attempt vouches for the token, or the legacy key's does after a key mismatch of a token in time |
| `Challenge.ResultIs` | lib/challenge/data.go:266-311 | the result is what the deciding attempt makes of the token, and Skip instead of anything but OK when the challenge was just issued or its condition fails |
| `Challenge.StateIs` | lib/challenge/data.go:233-264 | Full exactly when the verifier was asked about an admitted token, Brief when it was not, no state otherwise |
| `Challenge.KeptIff` | lib/challenge/data.go:284-302 | a token is kept exactly if it is in time, under the deciding key, and the verifier if asked answers OK or NotOK without an error; one cookie error is forgiven |
| `Challenge.CategoryMeans` | lib/challenge/data.go:351-370 | which cause stands behind the diagnostics missing, expired, key_mismatch and skipped, in both directions |
| `Challenge.OpensIff` | lib/challenge/data.go:483-513 | a cookie opens exactly when this server sealed it and the clock is between its two times, both included |
| `Challenge.CookieStatusMeans` | lib/challenge/data.go:313-349 | valid if some cookie opens, missing if none came, expired if none opens and the last one has expired, in both directions |
| `Challenge.EvaluatedIsSound` | lib/challenge/data.go:233-311 | a token survives only unexpired and under the current or legacy key; OK keeps its token and is Brief or Full; Pass never results |
| `Challenge.StaleDuplicatesAreHarmless` | lib/challenge/data.go:515-527 | the state comes from the first cookie that opens, and a cookie is found exactly when some cookie opens |
| `Challenge.RequestData.VerifyChallenge` | lib/challenge/data.go:266-311 | result, state, error and remaining token are the verdict's, and no other token is touched |
| `Challenge.RequestData.EvaluateChallenges` | lib/challenge/data.go:313-338 | for every order of walking the register the same state is reached: one defined without any order |
| `Challenge.OwnTokenUntouched` | lib/challenge/data.go:324-337 | evaluating other challenges leaves a challenge's own token as the cookie had it |
| `Challenge.PartialStep` | lib/challenge/data.go:324-337 | one more turn of the loop from the state of any set of evaluated challenges gives the state of the larger set |
| `Challenge.EvaluatedStateIsSound` | lib/challenge/data.go:313-338 | afterwards tokens left under registered names passed the checks, OK challenges keep theirs and are Brief or Full, nothing is Pass, and the diagnostic says valid exactly for OK |
| `Challenge.EvaluatedStateIs` | lib/challenge/data.go:324-337 | result, state, diagnostic and token of every registered challenge are its own evaluation's; tokens under other names stay as they came |
| `Challenge.CategoryValidIff` | lib/challenge/data.go:351-370 | the category is valid exactly for OK results |
| `Challenge.RequestData.ClearChallengeToken` | lib/challenge/data.go:207-209 | removes the token under this name only |
| `Challenge.RequestData.IssueChallengeToken` | lib/challenge/data.go:211-227 | only successes are stored, and only they mark the state as modified |
| `Challenge.RequestData.ResponseHeaders` | lib/challenge/data.go:408-428 | sends the current tokens exactly when one was added |
| `Challenge.RequestData.RequestHeaders` | lib/challenge/data.go:430-461 | in any order of walking the results, panics exactly when an OK result is unregistered or has no printable state |
| `Action.RunChallenges` | lib/action/challenge.go:117-193 | the two loops decide as the specification the gating lemmas are about |
| `Action.Issue` | lib/action/challenge.go:143-150 | whatever the issuing function did, its result and the Pass state are recorded last |
| `Action.Handle` | lib/action/challenge.go:117-193 | every action, with nested pass and fail actions, has the outcome the invariants are proved of |
| `Safety.PassSideIff` | lib/action/challenge.go:119-192 | the pass side, or continuing for CHECK, is taken exactly when some listed challenge is then OK; one OK on entry takes it with nothing issued |
| `Safety.LoopGates` | lib/action/challenge.go:134-188 | the same of any part of the issuing loop, for every list and issuing function |
| `Safety.OkTestIsRedundant` | lib/action/challenge.go:134-141 | removing the issuing loop's test for OK results changes nothing, repeated names included |
| `Safety.IssuedKeepsOnce` | lib/action/challenge.go:137-150 | issuing a challenge not in the Pass state keeps that none was issued twice |
| `Safety.HandledKeepsInv` | lib/action/challenge.go:117-193 | every action keeps: no panic, at most one issuance per challenge, every token in state and cookies a licensed success |
| `Safety.HandledAnswers` | lib/action/pass.go:19-23 | an action answers at most once, as the last thing, with every token it added sent in a cookie before, a backend only after the cleanup, and not at all if it goes on or fails |
| `Gating.PlainActions` | lib/action/proxy.go:62-80 | which of the other actions reach a backend, page, drop, go on or fail; a backend sees the rule named, the cleanup done and the headers sent; none changes a result, a state or a token |
| `Gating.BackendGated` | lib/action/challenge.go:117-193 | CHALLENGE whose fail side cannot serve reaches a backend only with a listed challenge OK; with pass side PASS exactly if the loops left one OK; with fail side DENY exactly if one is OK |
| `Gating.CheckGoesOnIff` | lib/action/challenge.go:124-156 | CHECK whose fail side ends the request goes on exactly if the loops left a listed challenge OK |
| `Gating.GuardedNeedsOk` | lib/action/challenge.go:117-193 | in every nesting, an action all of whose paths to a backend are guarded by a set of challenges reaches one only with a challenge of the set OK |
| `Gating.LoopStopsIff` | lib/action/challenge.go:151-187 | the request stops exactly when a blocking challenge was issued and left undecided; one that failed on issuance takes the fail side |
| `Gating.LoopInOrder` | lib/action/challenge.go:134-188 | challenges are tried in list order, none is left out, and those after the deciding one are untouched |
| `Gating.LoopFrame` | lib/action/challenge.go:137-141 | what is OK, skipped, just passed or not listed keeps its result and state |
| `Gating.InlineIssue` | lib/challenge/data.go:211-227 | an issuing function that passes inline stores its token under name, key and expiry and sends it; one that fails leaves the tokens alone |
| `Gating.OkStays` | lib/action/challenge.go:117-193 | a challenge that is OK stays OK through every action |
| `Gating.OkComesFrom` | lib/action/challenge.go:143-152 | a challenge becomes OK only by its issuing function saying so |
| `Rules.Evaluate` | lib/rule.go:88-144 | the recursive evaluation equals its specification, all four outcomes of a condition included |
| `Rules.EvaluateChildren` | lib/rule.go:123-133 | the loop over the children stops at the first that fails or does not go on |
| `Rules.HandleRequest` | lib/http.go:346-368 | the rule loop ends answered, errored or in the default pass, as specified |
| `Rules.ForestIsPreorder` | lib/rule.go:88-144 | for every finite forest, evaluation is a pre-order walk with a worklist: false conditions prune, the first action that stops or fails ends it |
| `Rules.HandlingEnds` | lib/http.go:346-368 | a request ends as the walk ends: an error page, an action's answer untouched, or the backend behind the default rule if every action went on |
| `Rules.FrontDoorHolds` | lib/rule.go:88-144 | behind a first rule that applies, ends every request and is guarded by a set, a backend is reached only with a challenge of the set OK, on arrival or by its issuing function |
| `Rules.IssuancesBounded` | lib/action/challenge.go:134-150 | a request issues at most as many challenges as are registered |
| `Rules.EvaluatedStateInv` | lib/challenge/data.go:313-338 | every request starts in the invariant |
| `Rules.RequestIsSafe` | lib/http.go:346-368 | from evaluation to answer, for every forest, cookie and environment: no panic behind the request headers, each challenge issued at most once, at most one backend call, last and after cleanup, every token backed |
| `Runs.VerifyHandler` | lib/challenge/helper.go:160-203 | each branch of the handler ends in the state that the lemmas about posted tokens speak of |
| `Runs.PostedStoresIff` | lib/challenge/helper.go:177-195 | a posted token is stored and counted as OK exactly if the verifier answered OK without an error, and is then sent before the page |
| `Runs.HandlerSendsCookie` | lib/challenge/helper.go:181-195 | a verified token goes into a cookie with the request's other tokens |
| `Runs.HandlerMayLeaveNoState` | lib/challenge/helper.go:190-191 | starting from a state that prints, the request headers would panic exactly if the token verified and its challenge had no state |
| `Runs.StoredProofIsHonoured` | lib/challenge/data.go:233-338 | a stored token is OK and kept in every later request with the same key and verifier answer, before expiry, whatever the spot check draws |
| `Runs.EqualKeysNotExpired` | lib/challenge/key.go:69-74 | equal keys carry equal expiries, so the token is not expired within d/2 of the request |
| `Runs.PostedKeepsTokensSound` | lib/challenge/helper.go:177-195 | the handler stores a token only after its result verified under its key |
| `Runs.NextKeepsWorldInv` | lib/challenge/data.go:483-554 | one more request, with any replayed cookies, keeps every cookie backed by its own client's record, and that record licensed and verified |
| `Runs.EveryTokenWasEarned` | lib/challenge/data.go:211-264 | in every sequence of requests, every token in every cookie is a success that some request of the same client stored, under the challenge's name, expiry and key, while issuing under that key or after the verifier answered OK under it |
| `Runs.EveryOkWasEarned` | lib/challenge/data.go:233-338 | in every run, whatever the next request presents, a challenge is OK on arrival only with a token that an earlier request of the same client stored, and that passes the time check under the request's current or legacy key |
| `Runs.BackendOnlyForTheChallenged` | lib/http.go:346-368 | behind a guarded front door, in every run, a backend is reached only if a challenge of the set let the request through, with a token its client earned or by its issuing function |
| `Runs.PostSendsOneCookie` | lib/challenge/helper.go:181-195 | answering a posted token that verified sends exactly one cookie, with that token among the request's others |
| `Runs.PostedProofComesBack` | lib/challenge/data.go:313-338 | after a verified post and any requests in between, the same client replaying that cookie finds the challenge OK with its token kept, given the same key and verifier answer and no expiry, spot check or not |
| `RawQuery.ParseRawQuery` | utils/http.go:184-200 | each key gets its values in order; an error exactly if a semicolon occurs anywhere |
| `RawQuery.EncodeRawQuery` | utils/http.go:202-221 | the text is the encoding for a sorted listing of the keys |
| `RawQuery.EncodingUnique` | utils/http.go:202-221 | a map has one encoding, however its keys are iterated |
| `RawQuery.BeforeIff` | utils/http.go:207-207 | keys are ordered by their first differing byte, a prefix first |
| `RawQuery.ValuesText` | utils/http.go:209-218 | the text of a key with a value and an empty one, byte for byte |
| `RawQuery.KeysText` | utils/http.go:207-218 | the text of two keys, in order, byte for byte |
| `RawQuery.ParseOfEncoding` | utils/http.go:184-221 | parsing an encoding loses only valueless keys and the empty values of the empty key |
| `RawQuery.RoundTripIff` | utils/http.go:184-221 | it restores the map without an error exactly when the map is free of separators, valueless keys and empty pairs |
| `RawQuery.PublicRawQuery` | lib/http.go:88-96 | the result encodes the other keys with their values, in any order of deletion |
| `RawQuery.InternalIff` | lib/http.go:90-94 | the keys dropped are exactly the prefix with anything behind it |
| `RawQuery.PublicQueryParses` | lib/http.go:88-96 | the filtered query parses without error to the external keys of the parse, less the empty values of the empty key, which are there exactly if some segment is a lone equals sign |
| `RawQuery.PublicQueryKeepsTheRest` | lib/http.go:107-121 | for every query text, all its external pairs are kept, each key's values in order, if and only if no segment is a lone equals sign and no external pair holds a semicolon |
| `RawQuery.FilterSettles` | lib/http.go:88-96 | filtering a filtered query loses nothing, and from the second pass on the text is a fixed point |
| `RawQuery.LoneEqualsIsLost` | utils/http.go:184-221 | the query of a lone equals sign has one pair, and none after filtering |
| `RawQuery.SemicolonIsLost` | lib/http.go:88-96 | a query of one external pair with a semicolon in its value is filtered to nothing |
| `DecayMap.DecayMap.Get` | utils/decaymap.go:29-51 | alone, a hit is the live value and only a dead entry goes |
| `DecayMap.DecayMap.Set` | utils/decaymap.go:53-61 | overwrites one entry with the new expiry |
| `DecayMap.DecayMap.Decay` | utils/decaymap.go:63-73 | in any order of walking, exactly the unexpired entries stay |
| `DecayMap.NextKeepsInv` | utils/decaymap.go:29-73 | every atomic step of any interleaving keeps the cache a live-equal part of a plain last-write map |
| `DecayMap.RefinesLastWriteMap` | utils/decaymap.go:29-73 | in every run the unexpired parts agree, every hit was live at its read, every miss was dead or died by the check |
| `DecayMap.LivesItsTime` | utils/decaymap.go:53-61 | through any interleaving that does not set its key again, a value is there up to and including the end of its time and not after |
| `DecayMap.OnlyExpiredEntriesGo` | utils/decaymap.go:38-46 | no step of any run removes or changes an unexpired entry, except a Set of its key |
| `Awaiter.Awaiter.GetAndDel` | lib/challenge/awaiter.go:35-39 | on the object, as its other methods for the other statements: exactly one atomic step of the interleaved model, at most one callback taken |
| `Awaiter.NextKeepsInv` | lib/challenge/awaiter.go:17-39 | every atomic step keeps each callback with its one waiter and each taker with its one callback |
| `Awaiter.AwaitAnswers` | lib/challenge/awaiter.go:17-39 | in every interleaving an answer is None or the result of the one Solve that took this waiter's callback, exactly that one if the callback woke it; callbacks fire at most once and a Solve fires at most one |
| `Awaiter.SolveTakesIff` | lib/challenge/awaiter.go:17-39 | in every interleaving, a Solve takes a waiter's callback if and only if no registration, Solve or cleanup under its key took effect since that waiter registered |
| `Awaiter.SolveWakes` | lib/challenge/awaiter.go:17-39 | if calls under one key do not overlap, a Solve takes the open one; it can return with that result at once, and whatever happens later it returns no other one before its own context ends |
| `Awaiter.FirstWaiterIsReplaced` | lib/challenge/awaiter.go:23-26 | after a second registration under the key no Solve, however the run goes on, takes the first waiter |
| `Awaiter.SecondWaiterCanBeLost` | lib/challenge/awaiter.go:27-28 | a waiter's cleanup can remove another's callback, which then is never called |
| `Mime.ValidHeaderFieldByte` | utils/inline/mime.go:95-121 | the two-word bitmap decides exactly the token characters, for all 256 bytes |
| `Mime.CanonicalInPlace` | utils/inline/mime.go:133-180 | the in-place rewrite yields the canonical form, and ok exactly for non-empty keys of token bytes and spaces |
| `Mime.CanonicalKey` | utils/inline/mime.go:64-83 | the early exits never change the answer |
| `Mime.CanonicalShape` | utils/inline/mime.go:56-83 | in a canonical token no lower-case letter starts a word and no upper-case letter stands elsewhere; only case changes; other strings come back unchanged |
| `Mime.CanonicalIdempotent` | utils/inline/mime.go:64-83 | canonical forms are canonical |
| `Mime.CanonicalEqualIff` | utils/inline/mime.go:56-83 | two tokens share a form exactly when they are equal up to ASCII case |
| `Mime.CaseInsensitiveAccess` | utils/inline/mime.go:19-54 | in every header map spellings of one token reach, set and delete the same values, and other tokens never do |
| `Mime.MIMEHeader.Add` | utils/inline/mime.go:11-14 | appends to the values under every spelling of the key and leaves other keys alone |
| `Mime.MIMEHeader.Get` | utils/inline/mime.go:28-37 | the first value, or nothing for a missing or valueless key |
| `Fingerprint.TlsFingerprintJa3Text` | utils/fingerprint.go:108-183 | appending and trimming builds the joined text, with nothing trimmed from empty lists |
| `Fingerprint.Ja3TextReads` | utils/fingerprint.go:108-183 | the text splits into five fields that read back as version, kept ciphers, kept extensions, kept curves and points |
| `Fingerprint.Ja3VersionIs` | utils/fingerprint.go:124-127 | the highest version, except TLS 1.2 for exactly the clients that offer more, send supported_versions and grease |
| `Fingerprint.Ja3TextEqualIff` | utils/fingerprint.go:108-187 | JA3N texts are equal exactly when version, kept ciphers, the multiset of kept extensions, kept curves and points are |
| `Fingerprint.Ja3nNormalForm` | utils/fingerprint.go:108-187 | JA3N ignores the order of extensions and masked values in ciphers, extensions and curves |
| `Fingerprint.MaxVersionIs` | utils/fingerprint.go:111-122 | the version loop finds the greatest unmasked version, or 0 |
| `Fingerprint.GreaseInsertion` | utils/fingerprint.go:133-141 | a masked value put anywhere into a list changes nothing of what is kept |
| `Fingerprint.MaskAgainstReserved` | utils/fingerprint.go:80-81 | the mask matches all sixteen reserved values, and exactly those among values whose high nibbles agree |
| `Fingerprint.MaskMatchesMore` | utils/fingerprint.go:80-81 | 0x0A1A is masked though not reserved |
| `Fingerprint.FilterSortCommute` | utils/fingerprint.go:147-159 | filtering the sorted list, as JA3 does, is sorting the filtered one, as JA4 does |
| `Fingerprint.TlsFingerprintJa4` | utils/fingerprint.go:189-299 | the three parts are computed as specified, the first cut to ten bytes |
| `Fingerprint.Ja4NormalForm` | utils/fingerprint.go:189-299 | JA4 ignores the order of ciphers and extensions and masked values in versions, ciphers, extensions and schemes |
| `Fingerprint.Ja4PartsMean` | utils/fingerprint.go:287-296 | the second part is equal exactly for the same kept ciphers in any order, the third for the same listed extensions in any order and schemes in theirs, if the hash does not collide |
| `Fingerprint.ListedIff` | utils/fingerprint.go:239-246 | the listed extensions are those kept, but for ALPN and server_name |
| `Fingerprint.HeadReads` | utils/fingerprint.go:190-285 | what stands where in the readable part: version, whether a name was sent, the counts up to 99, the ends of the first protocol |
| `Fingerprint.TlsVersionText` | utils/fingerprint.go:205-215 | TLS versions are named by their minor number, SSL 3 by s3 |
| `Fingerprint.OtherVersionText` | utils/fingerprint.go:216-219 | other versions by their two bytes less 2 and 1, in decimal |
| `Fingerprint.Hex4Is` | utils/fingerprint.go:307-310 | a word is written as the lower-case hexadecimal of its bytes, high byte first |
| `Fingerprint.HeadFitsIff` | utils/fingerprint.go:205-285 | the cut loses nothing exactly when the version prints as two characters |
| `Fingerprint.Uint16SliceToHex` | utils/fingerprint.go:301-314 | the appending loop with its trim gives the comma-joined words |
| `Fingerprint.HexJoinedInjective` | utils/fingerprint.go:301-314 | the text determines the list |

## Left out

- Cryptography: SHA-256, MD5 and the six-byte hash are parameters, and a cookie is an authenticated container that opens only for the host and network prefix it was sealed for.
- CEL, YAML, jq, regular expressions, `net/url`, CIDR sets and wazero are not part of this model; conditions, verifiers and issuing functions are arbitrary.
- WASM memory, allocation packing and the JSON around a puzzle; a panic inside the runtime is the error verdict its host turns it into.
- Templates, scripts, logging, metrics, TLS and ACME setup, DNS, the file cache, tag fetching and policy reloading.
- The response policy, handler selection, snippet merging and option lookup: list filters and single map reads with no state or invariant of their own.
- Percent-decoding in `VerifyUrl` and `GetVerifyInformation`; whether a posted form parses is an input of `Runs.VerifyHandler`.
- Restoring the Referer header and filtering cookies in the cleanup of a proxied request; the cleanup is one event, its query part is `RawQuery.PublicRawQuery`.
- The answer 503 when no backend is known for the host, backend selection by option, and the clear-state endpoint.
- The path rewrite of the proxy action and the page, status and delay of the other actions.
- Action.Handle: the deliberate panic that follows an error page is the ending `Errored`, not a panic in the trace; only panics behind the request headers are.
- Runs.VerifyHandler: the request id copied from the form is not part of the state, all its pages are one event, and the verifier it is given is the registered one.
- Challenge.RequestData.IssueChallengeToken: the issue time in a token is never read again and is not kept.
- Mime.CanonicalInPlace: the interning table of common headers returns an equal string and is not modelled.
- PowClient.Search: an endless loop has no state to describe, so a solution is required; `PowClient.StopsIff` says exactly when there is one. The informational nonce number is not posted on.
- ChallengeKey.PreimageInjective: challenge and header names must be free of NUL, header names not empty, and header values free of bytes 0 and 1; `ChallengeKey.SeparatorInValueCollides` shows the restriction is needed.
- Expiry.MatchingExpiryNotExpired: durations are whole seconds, as configured ones are, because a token keeps whole Unix seconds only.
- Expiry.ExpirationMonotone: times are unbounded, so the wrap-around of durations beyond 290 years does not occur.
- Fingerprint.TlsFingerprintJa4: sorting in place is a function on sequences, proved to yield the ascending permutation.
- DecayMap.NextKeepsInv: each locked section is one atomic step, and the clock never goes back.
- Awaiter.NextKeepsInv: the lock-free map's operations and the two statements of a callback are atomic steps; call numbers are not reused.
