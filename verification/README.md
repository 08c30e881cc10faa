# Splash: verified model of the money, stream and session core

A Dafny model of the parts of the Splash application that compute with money,
decode the assistant's event stream, limit logins, sign and read sessions, keep
credentials, collect approvals of proposals and hash audit batches, with proofs of
what those parts promise. Run `dafny verify dfyconfig.toml` with Dafny 4.11 to
check it.

## What is modelled

- **Money** (`Arith`, `Decimal`, `Rounding`, `Money`, `MoneyOrder`, `Rates`,
  `Sui`). `lib/money.ts` computes with unbounded integers, so its `bigint` is
  `int` here. Division with five rounding modes, the decimal parser and printer,
  scaled-integer rates, basis-point fees and sums are functions that follow the
  source branch by branch; `sumMinor` is a loop. The older helpers of
  `lib/sui.ts` are proved against the exact ones.
- **Event streams** (`JsText`, `EventStream`, `DeskThread`, `ApprovalWindow`).
  The reading loops keep a buffer, split it on blank lines and keep the tail.
  `DeskThread` is the desk's thread with its runs of assistant text,
  `ApprovalWindow` the two-minute approval windows as a state machine.
- **Login limiter** (`LoginLimiter`). The attempts table is a field of a class
  whose methods prune, insert, delete and count; whole runs of the login route
  are sequences of requests under a clock that does not run backwards.
- **Sessions** (`Base64`, `SessionToken`, `IdleTimeout`). Token text, signature,
  expiry and the field-by-field copy; the idle rule over runs of requests.
- **Credentials** (`Password`, `Accounts`, `Passkeys`). The `$`-delimited hash
  format, the users table with upgrade on login, and passkeys with tombstones.
- **Proposals** (`ProposalState`). The lifecycle with its approval gate, revisions
  and canonical hash over runs of one proposal, and the store with its idempotency
  keys as a class over runs of its operations.
- **Audit batches** (`AuditBatch`). The Merkle tree over a day's settlements, its
  inclusion proofs, and what a root and an accepted proof stand for.

Functions that the platform supplies (JSON, UTF-8, HMAC, scrypt, SHA-256,
`Number`, date parsing, address derivation) and everything random (salts, nonces,
ids) are parameters. What is assumed of them is written out in predicates
(`SessionToken.Sound`, `Password.Sound`, `Accounts.NoCollisions`,
`EventStream.Readable`, `DeskThread.DeskReadable`, `AuditBatch.NoCollisions`,
`AuditBatch.NoParents`). Each speaks only of the values at hand: `Password.Sound`
of numerals up to the largest cost (`Password.SoundWitness` is a platform that
meets it), the two `NoCollisions` of the passwords and salts of one run and of the
nodes of the trees and proofs in question. Nothing is assumed of the approval hash.

Every lemma is marked `{:induction false}`: its proof is the one that is written.

## Where the code and its documentation differ

The model follows the code. Each difference is a theorem with its exact condition,
and an input that shows it.

- `parseMinor` rounds the magnitude and puts the sign back, so floor and ceil
  change places behind a minus sign (`ParseRoundsSignedValue`; -0.005 in
  `NegativeFloorWitness`).
- `formatMinor` says its results compare as strings; they do exactly under the
  condition of `StringOrder`, always for non-negative amounts of equal length
  (`EqualLengthOrder`), and not for 9.00 and 10.00 (`StringOrderWitness`).
- `parseRate` admits scales up to 24, but text works only up to 18, and larger
  scales cannot be printed, whatever the rate (`TextRateScales`; the text 1 at
  scale 19 in `TextRateWitness`).
- `parseMinor` documents that only safe integers are taken as numbers; the code
  takes every integer, so the rule holds exactly up to 2^53 - 1
  (`SafeIntegerRule`; 2^53 in `UnsafeIntegerWitness`).
- Zeros appended to a fraction are refused without a rounding mode once they no
  longer fit (`AppendZeros`; 0.5 and 0.50 in `AppendZerosWitness`).
- `toBaseUnits` adds the fraction of a negative amount with the wrong sign
  (`ToBaseUnitsRefines`; -1.5 in `NegativeBaseUnitsWitness`).
- `formatSui` shows the minus sign of a negative remainder behind the point. Its text
  is the amount truncated to hundredths exactly for the other amounts
  (`FormatSuiIff`; -1.-5 for -1.5 in `NegativeSuiWitness`).
- `countRecentFailures` with an empty email counts by address, so the reported
  counts decide the verdict exactly for other emails (`CountsDecideIffEmail`, with
  its failing family in `EmptyEmailCountsByAddress`). The login route refuses
  empty emails before the limiter is asked (app/api/auth/login/route.ts:26-30).
- The session reader does not copy the activity stamp, so the idle rule never
  applies on the reading path (`IdleNeverApplies`, `IdleKeptIff`; a session idle
  for fifteen minutes in `StaleSessionWitness`).
- A proposal id that arrives twice restarts its window, decided or not, unless its
  entry already is the one the arrival writes (`ArrivalKeepsOrder`; an approved
  entry reopened in `RepeatedIdWitness`).
- Re-enrolling a passkey fails if it reuses a credential id, even a retired one
  (`EnrolAfterRevoke`; such a run in `RetiredIdWitness`).
- `reviseProposalCanon` says that a revised proposal re-enters the flow before the
  approval gate. One that is already signed keeps its status, so it can be
  submitted without an approval of what it now says. A submitted proposal holds its
  approvals exactly when it needs none or no revision came after signing
  (`SubmittedHoldsApprovals`; a run in `RevisedAfterSigningWitness`). No route shown
  calls `revise`.
- `hydrate` says that existing entries win. An existing proposal does, but not its
  idempotency key: replaying the key returns the first proposal exactly when no row
  with that key and a new id was loaded in between (`ReplayReturnsFirst`; a loaded
  row in `HydrationMovesKeyWitness`).

The root of an audit batch does not by itself name its leaf list: repeating the
last leaf of an odd list keeps the root (`RepeatedLastLeaf`). `SharedRootIff` says
exactly which lists share a root; two different lists of distinct settlements
never do (`RootNamesBatch`).

## Model

| member | source | states |
|---|---|---|
| Money.DivRoundCharacterised | lib/money.ts:47-88 | a quotient is delivered exactly for positive denominators, and it is the one integer that the mode's definition (bracketing, or nearest with its tie rule) describes |
| Rounding.RoundedMonotone | lib/money.ts:47-88 | in every mode a larger numerator never rounds to a smaller result |
| Rounding.RoundedScaleInvariant | lib/money.ts:47-88 | a common positive factor of numerator and denominator never changes the result |
| Rounding.RoundedNegate | lib/money.ts:51-87 | negating the numerator negates the result with floor and ceil exchanged |
| Money.DecimalIsGrammar | lib/money.ts:36-36 | the accepted texts are an optional sign with digits, or digits around a point with at least one digit |
| Money.ParseAccepts | lib/money.ts:103-147 | text is read exactly when the places are 0 to 18, the trimmed text is decimal, and a mode is given or the fraction fits |
| Money.ParseRefused | lib/money.ts:103-142 | text is refused for bad places, blankness, its grammar or too many digits, in this order and for no other reason; big integers are taken as they are |
| Money.ParseOfPrint | lib/money.ts:103-163 | for every amount, 0 to 18 places and any mode, parsing the printed amount gives it back |
| Money.PrintIsCanonical | lib/money.ts:152-163 | printed amounts have no superfluous zero or sign and exactly the given places |
| Money.PrintOfParse | lib/money.ts:124-163 | every canonical text is what its own parsed amount prints as, so canonical texts and amounts correspond one to one |
| Money.ParseIsExactRounding | lib/money.ts:128-147 | for every decimal text and mode the result is one rounding of the exact signed value, with floor and ceil exchanged behind a minus sign |
| Money.ParseRoundsSignedValue | lib/money.ts:128-147 | rounding in the stated mode itself, except exactly for floor or ceil of a negative text that loses non-zero digits |
| Money.NegativeFloorWitness | lib/money.ts:128-147 | -0.005 floored to two places parses as 0 although the floor of its value is -1 |
| Money.SafeIntegerRule | lib/money.ts:93-122 | a whole number of any size is taken exactly, other numbers never; so the documented rule, only safe integers, is kept exactly up to 2^53 - 1 |
| Money.UnsafeIntegerWitness | lib/money.ts:93-122 | 2^53 is taken although it is not a safe integer |
| Money.AppendZeros | lib/money.ts:132-145 | appended zeros keep the result exactly when a mode is given, they fit, or the text was refused before |
| Money.AppendZerosWitness | lib/money.ts:132-145 | at one place and without a mode 0.5 is read as 5 and 0.50 is refused |
| MoneyOrder.StringOrder | lib/money.ts:150-163 | the exact condition, for all pairs of amounts, under which printed strings sort like the amounts |
| MoneyOrder.EqualLengthOrder | lib/money.ts:150-163 | non-negative amounts printed at equal length sort as strings exactly as they do as numbers |
| MoneyOrder.StringOrderWitness | lib/money.ts:150-163 | 9.00 does not sort before 10.00 |
| Rates.ParseOfFormatRate | lib/money.ts:180-197 | rates of scale up to 18 print and read back |
| Rates.TextRateScales | lib/money.ts:180-197 | rate text is read exactly at scales 0 to 18; 19 to 24 pass the scale check and then fail, also in printing |
| Rates.TextRateWitness | lib/money.ts:180-197 | the text 1 is read at scale 18 and refused at scale 19 |
| Rates.ScaleRefused | lib/money.ts:180-184 | a scale is refused exactly outside 0 to 24, and within it an already scaled rate is taken as it is |
| Rates.RateIsRounded | lib/money.ts:180-193 | decimal rate text is read as its exact value rounded half to even at the scale |
| Rates.ZeroRateRefused | lib/money.ts:225-231 | dividing by a rate fails exactly when it is zero |
| Rates.ApplyRateIsReal | lib/money.ts:206-215 | with floor, applying a rate is the exact real product of amount and rate cut to minor units |
| Rates.RateGalois | lib/money.ts:206-231 | converting delivers at least y exactly from the ceiled inverse quote on, and at most y exactly up to the floored one |
| Rates.OutAndBack | lib/money.ts:206-231 | out and back with floor never gains and loses less than one unit plus one unit of the other side |
| Rates.RescaledRate | lib/money.ts:172-231 | writing a rate of any sign at a finer scale changes neither direction of conversion |
| Rates.NegativeRate | lib/money.ts:225-230 | dividing by a negated rate is dividing the negated amount, in every mode |
| Rates.ApplyBpsCharacterised | lib/money.ts:240-246 | only whole basis points are charged, and the fee is the one integer its mode describes |
| Rates.FeeConservation | lib/money.ts:240-246 | a floored fee and the ceiled remainder at the complementary rate make up the amount, negative ones included |
| Rates.BatchFees | lib/money.ts:240-253 | floored row fees sum to at most the floored fee on the total, and fall short by at most one unit less than the rows |
| Rates.SumMinor | lib/money.ts:249-253 | the loop computes the sum of its rows |
| Rates.SumPermutation | lib/money.ts:248-253 | the total does not depend on the order of the rows |
| Sui.ToBaseUnitsRefines | lib/sui.ts:35-40 | for every decimal text, signed or not, exactly when the string-slicing parser equals the truncating exact one |
| Sui.NegativeBaseUnitsWitness | lib/sui.ts:35-40 | -1.5 at six places gives -500000 where exact truncation gives -1500000 |
| Sui.UnsignedToBaseUnits | lib/sui.ts:35-40 | on unsigned decimal texts the two parsers always agree |
| Sui.FormatSuiIsTruncated | lib/sui.ts:26-33 | unsigned amounts of at least two places print as the amount truncated to hundredths and printed exactly |
| Sui.FormatSuiIff | lib/sui.ts:26-33 | for every amount, exactly when the shown text is the amount truncated to hundredths: unless it is negative with a remainder of at least a tenth of a hundredth |
| Sui.NegativeSuiWitness | lib/sui.ts:26-33 | -1.5 at six places is shown as -1.-5 |
| Sui.PrefixedReads | lib/sui.ts:35-40 | `BigInt` reads every number from its hexadecimal, octal or binary text with prefix, in either case of the prefix and with blanks around it |
| Sui.PrefixIs | lib/sui.ts:35-40 | the prefixes that `BigInt` knows |
| Sui.RadixRefuses | lib/sui.ts:35-40 | a prefixed text with a digit too large for its radix is refused |
| Sui.BigIntRefuses | lib/sui.ts:35-40 | blank text reads as zero, and without a prefix exactly signed digits are read |
| JsText.SplitAppend | lib/copilot-client.ts:47-48 | all pieces but the last are final whatever text follows, and only the last must be kept |
| JsText.SplitJoin | lib/copilot-client.ts:47-48 | splitting loses nothing, and no piece still holds the separator |
| JsText.TrimOf | lib/copilot-client.ts:50-52 | trimming removes the blanks on both sides of a text and nothing else |
| JsText.SpaceTable | lib/copilot-client.ts:50-52 | the blanks by their code points |
| EventStream.StreamCopilot | lib/copilot-client.ts:24-79 | the handler calls depend on the concatenated text alone; the answer is true exactly when the stream was read to its end and some text arrived |
| EventStream.CutAnywhere | lib/copilot-client.ts:42-75 | for every cut of a written event list the calls are, in order, one `onMeta` per meta event with its fields or their defaults, one `onDelta` per non-empty delta with its text, one `onDone` per done event, and no other |
| EventStream.CallsPassOn | lib/copilot-client.ts:61-72 | the calls correspond one to one to the events that a handler hears of |
| EventStream.PayloadIs | lib/copilot-client.ts:50-53 | the payload of a frame is the non-empty text behind `data:` without the blanks around either |
| EventStream.IgnoredFrame | lib/copilot-client.ts:49-60 | a frame without payload or with malformed JSON changes nothing wherever it stands |
| EventStream.NullFrame | lib/copilot-client.ts:61-78 | a payload `null` ends the reading there, with the calls so far |
| EventStream.WrittenEventsReadBack | lib/copilot-client.ts:47-73 | events written as data frames are decoded back in order with nothing left over |
| DeskThread.Desk.SubmitPrompt | app/dashboard/page.tsx:205-334 | the whole new thread for every answer, with the very texts of its notices, one approval window opened for each proposal in it and in its order, and nothing changed for a blank prompt or while sending |
| DeskThread.Desk.StreamAnswer | app/dashboard/page.tsx:252-320 | the loop adds what the event list shows, for every chunking, and says whether it reached the end |
| DeskThread.ThreadOfWrittenEvents | app/dashboard/page.tsx:252-330 | for every cut of a written event list the thread is a function of the list; a broken connection costs only the open run |
| DeskThread.RunIsOneItem | app/dashboard/page.tsx:256-316 | a maximal run of text is one trimmed item in its place, however many delta, meta and done events it came in |
| DeskThread.ShownBreak | app/dashboard/page.tsx:277-311 | a breaking event commits the text so far and then adds its own item |
| DeskThread.ItemsAreEvents | app/dashboard/page.tsx:277-311 | beside the assistant's text the thread holds one item per tool call, warning and proposal, in order, with what that event carried |
| DeskThread.SaidIs | app/dashboard/page.tsx:256-262 | an assistant item is the text of its run without the blanks around it, and a blank run has none |
| DeskThread.FrameIs | app/dashboard/page.tsx:271-275 | a frame is read by its first line with the data prefix, passed over without one, and stops the reading when that line does not parse |
| ApprovalWindow.ApprovalDesk.ClockTick | app/dashboard/page.tsx:117-137 | one tick makes expired exactly the waiting entries whose time has come and changes no other |
| ApprovalWindow.ApprovalDesk.ApproveInChat | app/dashboard/page.tsx:139-143 | a click marks the entry as approving, keeps its window and note, and changes no other |
| ApprovalWindow.ApprovalDesk.ServerReplies | app/dashboard/page.tsx:155-176 | the entry is approved exactly when the server accepted, and otherwise blocked with the error, the queue text or the lost-connection text |
| ApprovalWindow.ApprovalDesk.ProposalArrives | app/dashboard/page.tsx:300-311 | an arriving proposal waits for two minutes, and no other entry changes |
| ApprovalWindow.RunConsistent | app/dashboard/page.tsx:116-197 | in every run with distinct ids: one entry per proposal, exactly the approving entries are in flight, and the reminder is up to date |
| ApprovalWindow.RunMovesForward | app/dashboard/page.tsx:116-177 | over every such run no entry is lost; a waiting one stays as it is, expires or is submitted with its window and note kept, or is settled by an answer, a submitted one is at most settled, and all others never change |
| ApprovalWindow.DecidedIffAnswered | app/dashboard/page.tsx:116-177 | over every legal run an entry is approved exactly when some step was its acceptance, and blocked exactly when some step was another answer |
| ApprovalWindow.StepMoves | app/dashboard/page.tsx:116-177 | one step moves an entry only from waiting to expired or approving, or from approving to approved or blocked |
| ApprovalWindow.LaterIsMoves | app/dashboard/page.tsx:116-177 | the order over runs is the closure of the single moves |
| ApprovalWindow.ArrivalKeepsOrder | app/dashboard/page.tsx:300-306 | an arrival keeps that order exactly when its id is new or its entry already is the waiting one it writes |
| ApprovalWindow.RepeatedIdWitness | app/dashboard/page.tsx:300-306 | a run in which an approved entry waits again because its id arrived twice |
| ApprovalWindow.TickExpires | app/dashboard/page.tsx:119-133 | after a tick every waiting entry expires later, and nothing but run-out windows was touched |
| ApprovalWindow.PendingCount | app/dashboard/page.tsx:187-197 | the reminder count is always proposals minus approved ones, and nothing is recorded before the first proposal |
| LoginLimiter.LoginAttempts.CheckLoginRateLimit | lib/auth/login-rate-limit.ts:49-88 | exactly the rows older than an hour are pruned; an attempt is allowed exactly with fewer than 5 failures of the account in 15 minutes and fewer than 20 from the address in an hour; all spellings of an address get one verdict |
| LoginLimiter.LoginAttempts.RecordFailedLogin | lib/auth/login-rate-limit.ts:95-106 | every count of the row's email or address over a window that holds the time goes up by one and no other count changes; after an allowed check the table keeps all window limits |
| LoginLimiter.LoginAttempts.ClearLoginFailures | lib/auth/login-rate-limit.ts:109-111 | no row of the normalised email is left and every other row is kept as often as before; its counts are zero and its scope is open at every time, other emails' counts are unchanged, and the window limits are kept |
| LoginLimiter.LoginAttempts.CountRecentFailures | lib/auth/login-rate-limit.ts:130-157 | the number of the account's rows since 15 minutes ago, or without an email of the address's rows since an hour ago |
| LoginLimiter.LoginAttempts.Login | app/api/auth/login/route.ts:52-73 | one request is one step of the run model: check, then record or clear |
| LoginLimiter.OrderedPermutes | lib/auth/login-rate-limit.ts:60-87 | the ordered times are the selected ones, each as often, so the first of them is the oldest row and none is lost |
| LoginLimiter.WindowSafety | lib/auth/login-rate-limit.ts:30-33 | after every run, every closed window holds at most 5 stored failures per email and 20 per address |
| LoginLimiter.AnsweredFailures | lib/auth/login-rate-limit.ts:44-111 | in any closed 15 minutes without a success of an email, at most 5 wrong passwords were ever answered for it |
| LoginLimiter.AnsweredFailuresOf | lib/auth/login-rate-limit.ts:44-111 | in any closed hour at most 20 wrong passwords were ever answered from one address for emails without a success in that hour, and in any closed 15 minutes at most 5 for one such email |
| LoginLimiter.PruningInvisible | lib/auth/login-rate-limit.ts:56-87 | after every run the verdict on the pruned table is the verdict on the never-pruned log |
| LoginLimiter.AllowedIffCounts | lib/auth/login-rate-limit.ts:60-87 | an attempt is allowed exactly when both reported counts are below their limits, and denied on the email scope exactly when that count is not |
| LoginLimiter.EmptyEmailCountsByAddress | lib/auth/login-rate-limit.ts:135-157 | for an empty email the reported count can be zero while the email is denied |
| LoginLimiter.CountsDecideIffEmail | lib/auth/login-rate-limit.ts:60-157 | the two reported counts decide the verdict for all tables, addresses and times exactly when the email is not empty |
| LoginLimiter.DeletingOnlyAllows | lib/auth/login-rate-limit.ts:56-87 | deleting any rows never turns an allowed attempt into a denied one |
| LoginLimiter.DeniedUntilOldestLeaves | lib/auth/login-rate-limit.ts:67-85 | in every reachable state a denied scope stays denied up to and including oldest plus window and passes at every later time |
| LoginLimiter.RetryHint | lib/auth/login-rate-limit.ts:90-92 | the hint is at least a second, never ends early, and overshoots by less than a second unless it is the minimum |
| LoginLimiter.NormIdempotent | lib/auth/login-rate-limit.ts:42-42 | normalising twice is normalising once, so the cleared rows are the checked ones (ASCII letters, see below) |
| LoginLimiter.NormIff | lib/auth/login-rate-limit.ts:42-42 | two texts are stored as one address exactly when they agree up to blanks around them and the case of letters, and the stored form has neither (ASCII letters, see below) |
| Base64.AlphabetIs | lib/auth/customer-session.ts:67-79 | the standard and the url alphabet of RFC 4648 by their code points; no other character is read |
| Base64.StripThenRepad | lib/auth/customer-session.ts:67-78 | stripping and repadding recovers the standard base64 text for every number of bytes |
| Base64.DecodeOfEncodeUrl | lib/auth/customer-session.ts:67-79 | every byte string survives the url encoding |
| Base64.StandardVectors | lib/auth/customer-session.ts:67-73 | the standard text agrees with the vectors of section 10 of RFC 4648 for one to three bytes |
| SessionToken.TokenRoundTrip | lib/auth/customer-session.ts:115-172 | a created token reads back exactly when the required fields are filled, the domain is not denied and the time is before the expiry in whole seconds |
| SessionToken.RestoredIsSession | lib/auth/customer-session.ts:158-168 | what comes back is the session minus its activity stamp |
| SessionToken.PayloadIs | lib/auth/customer-session.ts:115-128 | every field of the payload that is written for a session, with its times in whole seconds rounded down |
| SessionToken.SessionIs | lib/auth/customer-session.ts:143-168 | exactly which payloads pass the checks behind the signature, and every field of the session they give |
| SessionToken.AcceptedIsSigned | lib/auth/customer-session.ts:130-152 | every accepted token carries the secret's hash over the text before its first dot, is unexpired and not denied |
| SessionToken.IdleNeverApplies | lib/server/customer-auth.ts:126-140 | the reading path's idle check never rejects, because the stamp is not restored |
| SessionToken.IdleIs | lib/server/customer-auth.ts:134-137 | a session is idle exactly with a readable stamp of at least fifteen minutes ago |
| SessionToken.IdleKeptIff | lib/server/customer-auth.ts:126-140 | exactly when a created token nevertheless meets the documented idle rule |
| SessionToken.StaleSessionWitness | lib/server/customer-auth.ts:126-140 | a session whose stamp is fifteen minutes old is still the current one |
| IdleTimeout.VerdictIs | lib/auth/idle-timeout.ts:39-51 | a session is idle exactly from fifteen minutes after its stamp, and otherwise stamped anew exactly when that is missing, in the future or a minute old |
| IdleTimeout.RequestIs | lib/auth/idle-timeout.ts:39-51 | what one request does to the stamp and to the session |
| IdleTimeout.StampLag | lib/auth/idle-timeout.ts:39-51 | after every accepted request the stamp lags by less than a minute |
| IdleTimeout.LongGapExpires | lib/auth/idle-timeout.ts:39-51 | a gap of fifteen minutes or more always expires the session |
| IdleTimeout.ShortGapsSurvive | lib/auth/idle-timeout.ts:21-51 | a run whose gaps are at most fourteen minutes never expires |
| IdleTimeout.BetweenBothHappen | lib/auth/idle-timeout.ts:21-51 | any gap strictly between is survived by one run and fatal to another |
| IdleTimeout.ExpiredForGood | lib/auth/idle-timeout.ts:39-51 | an expired session stays expired |
| Password.PowerOfTwoTest | lib/auth/password.ts:110-110 | the bit test accepts exactly the powers of two |
| Password.ParseOfPrinted | lib/auth/password.ts:95-117 | the printed format parses back to its parameters, salt and hash |
| Password.ParseIs | lib/auth/password.ts:100-117 | exactly which stored texts are taken, and what each part becomes |
| Password.UnreadableHash | lib/auth/password.ts:127-153 | a stored text that is not taken verifies no password and counts as outdated |
| Password.BoundsAre | lib/auth/password.ts:108-111 | the accepted costs are the powers of two from 2 to 2^22, with 1 to 32 blocks and 1 to 16 lanes |
| Password.FreshHash | lib/auth/password.ts:90-153 | a fresh hash verifies its password and needs no rehash |
| Password.ParametersTravel | lib/auth/password.ts:127-153 | verification uses the parameters stored with the hash, which is outdated exactly below the current N or r |
| Password.HashAccepts | lib/auth/password.ts:77-96 | a password is hashed exactly when it has 12 to 256 characters with a letter and a digit and scrypt succeeds |
| Password.HashRefused | lib/auth/password.ts:77-94 | which reason a password is refused for, in the order of the checks |
| Password.HashText | lib/auth/password.ts:90-96 | the stored text, with the current parameters written out |
| Password.SoundWitness | lib/auth/password.ts:77-117 | a platform that meets the assumptions and hashes a password |
| Accounts.AccountStore.CreateAccount | lib/auth/accounts.ts:45-60 | the new table and result of a creation, conflicts included |
| Accounts.AccountStore.VerifyAccountPassword | lib/auth/accounts.ts:70-103 | the new table and result of a login, upgrade included |
| Accounts.CreatedIff | lib/auth/accounts.ts:45-60 | an account is created exactly when the address is free and the password hashes; the identity, the row, and that a refusal changes nothing |
| Accounts.LoggedInIff | lib/auth/accounts.ts:70-103 | a login succeeds exactly for a stored account whose hash verifies, as that account, and rewrites nothing but an outdated hash |
| Accounts.NameShown | lib/auth/accounts.ts:45-60 | the name is the given one trimmed, or else the address up to its first at sign, or else a fixed word |
| Accounts.AnySpelling | lib/auth/accounts.ts:45-103 | creating and logging in do the same for all spellings of an address |
| Accounts.CreationStores | lib/auth/accounts.ts:45-60 | for any table, a reported account is stored with a verifying hash exactly when no other row has its id |
| Accounts.CreatedIsStored | lib/auth/accounts.ts:45-60 | after every run from the empty table that condition holds, so each reported account is stored with a verifying hash |
| Accounts.LoginUpgrades | lib/auth/accounts.ts:89-102 | after a login the password still verifies, and the hash is outdated exactly when it was and the upgrade failed |
| Accounts.RegisteredPasswordsVerify | lib/auth/accounts.ts:45-103 | over every run each registered password keeps verifying, before and after any rehash |
| Accounts.EmptyIsGood | lib/auth/accounts.ts:45-103 | the empty table meets what the run theorems ask of their start |
| Accounts.OnePassword | lib/auth/accounts.ts:45-103 | runs with one password meet the assumption on hashes on every platform |
| Accounts.RegistrationIsFinal | lib/auth/accounts.ts:49-51 | a later creation replaces neither password nor row |
| Accounts.RegisteredCanLogIn | lib/auth/accounts.ts:70-103 | after every run a registered account logs in with its password, as itself, however the address is written |
| Accounts.CreatedCanLogIn | lib/auth/accounts.ts:45-103 | from the empty table on, an account created under one spelling logs in with its password under every other, after any later operations |
| Passkeys.PasskeyStore.EnrolPasskey | lib/auth/passkey.ts:125-163 | the new table and result, each refusal included |
| Passkeys.EnrolledRow | lib/auth/passkey.ts:146-163 | every field of the new row, the address derived from the bytes of its key |
| Passkeys.EnrolRefused | lib/auth/passkey.ts:125-163 | each refusal exactly for its reason, in order: not 33 bytes after a 2 or 3, an active credential, an id or credential id in use |
| Passkeys.PasskeyStore.FindCredential | lib/auth/passkey.ts:166-192 | null exactly without an active row of the user and origin, otherwise such a row of the table, and on a valid table the only one |
| Passkeys.PasskeyStore.RevokePasskey | lib/auth/passkey.ts:195-197 | the row with the id gets the tombstone and no other row changes, so a user and origin have an active credential afterwards exactly when another row is active; a valid table stays valid |
| Passkeys.RunKeeps | lib/auth/passkey.ts:125-197 | over every run at most one active credential per user and origin, no row removed, no key field changed, no tombstone lifted |
| Passkeys.FindsTheActiveOne | lib/auth/passkey.ts:166-192 | the found credential is the one active row |
| Passkeys.FindsNullOtherwise | lib/auth/passkey.ts:166-192 | null is returned exactly when there is no active row |
| Passkeys.EnrolAfterRevoke | lib/auth/passkey.ts:146-163 | in every reachable state the exact condition under which re-enrolment after revocation succeeds |
| Passkeys.RetiredIdWitness | lib/auth/passkey.ts:146-163 | after a credential was enrolled and revoked, enrolling it again is refused as not unique |
| ProposalState.ApprovalsBind | lib/queue/proposal-state.ts:55-127 | in every run each approval held is by an approver who is not the maker, given for exactly what the proposal says now, no user holds two, and the stored hash is that of the row |
| ProposalState.SameCanonIff | lib/proposals/canonical-hash.ts:35-56 | what approvals bind to: two proposals have one canonical form exactly when all its parts agree |
| ProposalState.CanonParts | lib/proposals/canonical-hash.ts:35-56 | each part of the canonical form is the field it is named for |
| ProposalState.SubmittedHoldsApprovals | lib/queue/proposal-state.ts:106-216 | in every run a signed, submitted or settled proposal holds its required distinct approvals exactly when it needs none or no revision came after signing |
| ProposalState.SubmittedAsSigned | lib/queue/proposal-state.ts:106-216 | in every run what was signed is what the proposal says exactly when no revision came after signing |
| ProposalState.RevisedAfterSigningWitness | lib/queue/proposal-state.ts:109-127 | a run of accepted steps to a submitted proposal that needs one approval and holds none |
| ProposalState.TransitionsAreArrows | lib/queue/proposal-state.ts:135-216 | every event is accepted exactly along the arrows of the lifecycle and under its conditions, moves to the end of the arrow, and changes only what it carries |
| ProposalState.RefusedBecause | lib/queue/proposal-state.ts:32-98 | the reason a refused event gives, for every event, in the order of the checks |
| ProposalState.RejectedForGood | lib/queue/proposal-state.ts:196-206 | after an accepted rejection, failure or expiry no run of transitions and revisions leaves that status |
| ProposalState.ProposalStore.ApplyTransition | lib/queue/proposal-state.ts:310-318 | an unknown id is not found, a refusal changes nothing, and an accepted event moves that one proposal along an arrow |
| ProposalState.ProposalStore.ApplyRevision | lib/queue/proposal-state.ts:322-330 | the one proposal gets the given parts, the next version with its own hash, and no approvals |
| ProposalState.ChangedRowRefused | lib/queue/proposal-state.ts:87-98 | a pending row with a stored hash takes no approval for its hash exactly when the recomputed hash differs, and then no signature either |
| ProposalState.ProposalStore.Create | lib/queue/proposal-state.ts:283-300 | a proposal with a new key and id is stored with its version and hash, a used id is refused, a used key returns what is there; ids and keys stay consistent |
| ProposalState.ProposalStore.Hydrate | lib/queue/proposal-state.ts:272-281 | entries already there are unchanged; a loaded row with a hash stays word for word and any other gets its version and hash; ids and keys stay consistent |
| ProposalState.EntryRuns | lib/queue/proposal-state.ts:272-330 | in every run of the store a stored proposal is never lost and goes through exactly the steps that name it |
| ProposalState.StoredHoldsApprovals | lib/queue/proposal-state.ts:106-330 | the approval theorem for every proposal created in a store, over every run of the store |
| ProposalState.ReplayReturnsFirst | lib/queue/proposal-state.ts:269-300 | over every run of the store, replaying a key returns the first proposal and changes nothing exactly when no row with that key and a new id was loaded in between |
| ProposalState.HydrationMovesKeyWitness | lib/queue/proposal-state.ts:269-300 | a loaded row takes over the key of a proposal created before |
| AuditBatch.BuildMerkleTree | lib/server/audit-batches.ts:57-73 | an empty batch is refused; otherwise the first level is the leaves, each further value is the hash of the two below it in their order, the last of an odd level counting twice, and the last level has one value |
| AuditBatch.ProofForIndex | lib/server/audit-batches.ts:75-89 | the loop collects one step for every level but the last |
| AuditBatch.ProofNames | lib/server/audit-batches.ts:75-89 | each step names the sibling on its side, or the value itself at the end of an odd level |
| AuditBatch.VerifiedStep | lib/server/audit-batches.ts:91-97 | a step hashes the named value in front of or behind the one reached |
| AuditBatch.ProofVerifies | lib/server/audit-batches.ts:75-97 | for every number of leaves and every index, the leaf's own proof is accepted against the root |
| AuditBatch.SameDepthRoots | lib/server/audit-batches.ts:57-73 | two lists whose trees are equally deep share a root exactly when the full binary trees they are completed to hold the same leaves |
| AuditBatch.SharedRootIff | lib/server/audit-batches.ts:57-73 | for all pairs of lists, exactly when they share a root: the shallower list, completed, is the completed level of the deeper tree as many levels up |
| AuditBatch.RepeatedLastLeaf | lib/server/audit-batches.ts:67-69 | an odd list and the same list with its last leaf repeated have one root, whatever the hash |
| AuditBatch.RootNamesBatch | lib/server/audit-batches.ts:113-119 | the root names exactly one list of distinct leaves that are no inner nodes, in its order |
| AuditBatch.AcceptedProofIsLeaf | lib/server/audit-batches.ts:91-97 | an accepted proof of the tree's depth starts at the leaf at the position its sides spell out |
| AuditBatch.AcceptedProofIsNode | lib/server/audit-batches.ts:91-97 | a shorter accepted proof starts at an inner node of as many levels up |
| AuditBatch.ProvableIffMember | lib/server/audit-batches.ts:61-97 | a value that is no inner node has an accepted proof, of any length, exactly when it is a leaf of the batch |

## Left out

- Rendering, landing pages, admin consoles, the agent's chat routing and all network, cookie and storage access.
- `parseRate` of a JavaScript number: it goes through `toFixed`, which is floating-point behaviour.
- Arguments that are not integers where the source counts places (`decimals`, `scale`), and negative places where it raises ten to them: the places are integers here, natural numbers in rates.
- `toBaseUnits` and `formatSui` of JavaScript numbers, and more than 22 places, where `10 ** decimals` is no longer exact.
- `formatSui` with fewer than two places: modelled, but nothing is proved about it.
- LoginLimiter.NormIdempotent: case folding covers the ASCII letters only, because folding all of Unicode depends on the context of a character and is a table of the platform.
- Strings are sequences of Unicode characters, not of UTF-16 units.
- Base64 text with characters after its padding: the decoder skips every character outside the alphabet, as for all texts that the encoder produces.
- Random item ids of the thread, the live preview while text streams, and the interleaving of ticks and clicks with one running stream: the thread records which windows it opens, and the windows are then modelled as arbitrary runs of their own.
- Required token fields of another JSON type than text, and dates that cannot be printed.
- The dummy hash that keeps login timing uniform, and timing-safe comparison, which is equality here.
- Foreign keys and concurrent requests on the tables: one statement or request at a time.
- `verifyApprovalSignature`, `relyingPartyId` and the denylist's own domain matching, which is a parameter.
- Proposals beyond their lifecycle: the policy engine, queue lanes, persistence and the route that walks the chain. Evidence enters as the sorted list of counterparties, simulations as their outcome, and a revision that sets a figure to `undefined` is not told apart from one that leaves it out.
- Audit batches beyond their tree: the selection of settlements by state and business date, sealing, storage and anchoring. A leaf is any text, and an index outside the tree is not looked up.
- `createCustomerSessionFromIdentity` and `clientIp`: they only assemble fields.
