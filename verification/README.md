# HomeShare core, modelled in Dafny

HomeShare is a self-hosted file-sharing service: a Go file server plus a
React web client. This project models the server's request-independent
logic and the client's chunker as pure functions and small sequential
methods, and it proves properties of that model. Everything is sequential
and takes the current instant `now` explicitly. The model covers:

- **the job registry** (`Jobs`, jobs.dfy): the key to last-access map behind
  `JobManager`, with acquire, release, the stale-job sweep and close;
- **the chunked transfer pipeline**:
  - the client's slicing and batched upload (`Slicing`, `ClientChunks`);
  - the server's form validation, staging, completion trigger and ordered
    reassembly with the MD5 check (`Upload`);
  - the sequential server-side splitter (`Splitter`);
  - the end-to-end statement that slicing a file and posting every chunk
    stores exactly that file (`Pipeline`);
- **shared-folder names and the expiry sweep** (`SharedFolders`):
  - `<yyyyMMddHHmmss>_<duration>_<id>` names;
  - Go's civil-time layout (`Clock`) and `Duration` text format and parser
    (`Durations`);
  - a format/parse round trip;
- **claims, tokens and access** (`Access`, `Tokens`, `AuthHandlers`):
  - the folder/level rule;
  - token generation with its int64 expiry arithmetic;
  - lenient decoding;
  - the Bearer header;
  - the login, refresh, logout and sharing-gateway handlers;
- **the credential stores** (`Stores`, with `Digests` and `Hex`): the
  `sharing_users` and `users` tables as finite maps, with their `ON CONFLICT`
  upserts and the expiry purge, and salted SHA-256 password hashing in
  lowercase hex;
- **the request gates** (`Sharing`, `Download`): the order of checks of the
  share, add-files, list, download and download-available handlers, each as
  a function returning a status and message before any effect.

Some things become parameters, and their results are inputs to the model:

- MD5 (RFC 1321) and SHA-256 (FIPS 180-4) are uninterpreted functions.
- The random source, `uuid.Parse` and the RFC 3339 time parser are supplied
  by the caller.
- The file system's answers are supplied by the caller: a listing, whether
  a create fails, and a file's probe.
- JWT signing (RFC 7519 with HS256, RFC 7518 section 3.2) is abstract. A
  token is its algorithm, its claims and whether its signature verifies.
  The wire decoding of a token string is a caller-supplied function.

Bytes are modelled as integers in 0..255, and strings as `seq<char>`.
Instants are Unix nanoseconds. Go's int64 wrap-around is written out where
the source relies on it (`Text.Wrap64`).

## Model

| member | source | states |
|---|---|---|
| Jobs.New | file-server/internal/job/job_handler.go:21-29 | a new registry holds no key, keeps the timeout it was given and is not closed |
| Jobs.Acquire | file-server/internal/job/job_handler.go:31-47 | succeeds exactly when the key is free; either way the key is held afterwards stamped with now; every other key keeps whether it is held and its stamp |
| Jobs.Release | file-server/internal/job/job_handler.go:49-57 | the key is free afterwards; releasing a free key changes nothing; every other key keeps whether it is held and its stamp |
| Jobs.AcquireReleaseRestores | file-server/internal/job/job_handler.go:31-57 | acquiring a free key and releasing it gives back exactly the registry started from |
| Jobs.Sweep | file-server/internal/job/job_handler.go:59-77 | the loop that deletes while ranging over the map leaves exactly the jobs whose age is at most the timeout, with their stamps, and does nothing once closed |
| Jobs.Close | file-server/internal/job/job_handler.go:79-86 | a second Close panics; otherwise no key is held and the sweeper stops |
| Jobs.AcquireEach | file-server/internal/job/job_test.go:32-58 | one outcome per attempt, in order |
| Jobs.OnlyFirstAcquireSucceeds | file-server/internal/job/job_test.go:32-58 | among repeated acquisitions of one key with no release between, the i-th succeeds if and only if it is the first one and the key was free |
| Jobs.AcquireReleaseAcquire | file-server/internal/job/job_test.go:10-30 | after a release the next acquisition succeeds, and the first succeeded exactly when the key was free |
| Jobs.StaleJobFreedBySweep | file-server/internal/job/job_handler.go:66-72 | a job older than the timeout is gone after a sweep of an open registry, and acquiring it succeeds without a release |
| Jobs.FreshJobSurvivesSweep | file-server/internal/job/job_handler.go:66-72 | a job whose age is at most the timeout (the comparison is strict) survives with its stamp |
| Jobs.SweepIdempotent | file-server/internal/job/job_handler.go:59-77 | a second sweep at the same instant removes nothing more |
| Jobs.AfterClose | file-server/internal/job/job_test.go:86-101 | after Close every key is free and acquirable, no sweep evicts it, and a second Close panics |
| Digests.HashPassword | file-server/internal/helpers/token_helpers.go:10-13 | 64 lowercase hex digits that decode to the SHA-256 of password followed by salt |
| Digests.HashPasswordMatches | file-server/internal/helpers/token_helpers.go:10-13 | two hashes are equal exactly when the digests of the concatenations are; equal concatenations hash alike whatever the split |
| Digests.GenerateRandomSalt | file-server/internal/helpers/token_helpers.go:15-22 | the random source's error, or 32 lowercase hex digits that decode to the 16 bytes read |
| Hex.Encode | file-server/internal/helpers/token_helpers.go:12 | two lowercase hex digits per byte |
| Hex.DecodeEncode | file-server/internal/helpers/token_helpers.go:12 | decoding the hex text of bytes gives the bytes back |
| Hex.EncodeInjective | file-server/internal/helpers/token_helpers.go:12 | different byte strings have different hex texts |
| Stores.CreateSharingUser | file-server/internal/repositories/sharing_repository.go:39-63 | fails exactly when the access level breaks the table's CHECK, leaving the table; otherwise returns the new record with the OTP stored only as HashPassword(otp, salt), adds the link, and on a conflict keeps the old row; every other row is untouched |
| Stores.GetSharingUser | file-server/internal/repositories/sharing_repository.go:65-82 | the row under the link if there is one, else "user not found"; in a well-formed table that row carries the link itself and an admitted access level |
| Stores.DeleteSharingUser | file-server/internal/repositories/sharing_repository.go:84-100 | fails with "user not found" exactly when no row matched; removes that key only and keeps every other row |
| Stores.DeleteExpiredUsers | file-server/internal/repositories/sharing_repository.go:102-108 | keeps exactly the rows whose expiration is not before now, unchanged |
| Stores.CreateAdminUser | file-server/internal/repositories/user_repository.go:39-66 | fails exactly when the salt cannot be read; otherwise returns a record with folder "/", access rw and the hash of the password with the fresh salt; on a conflict only the stored email changes |
| Stores.GetUserByUsername | file-server/internal/repositories/user_repository.go:68-85 | the row under the name if there is one, else "user not found"; in a well-formed table that row carries the name itself and an admitted access level |
| Stores.SharingTableInvariant | file-server/internal/repositories/sharing_repository.go:12-23 | create, delete and purge keep every row under its own key with access r, w or rw |
| Stores.UserTableInvariant | file-server/internal/repositories/user_repository.go:20-31 | creating an admin keeps every row under its own key with access r, w or rw |
| Stores.CreateThenGet | file-server/internal/repositories/sharing_repository.go:39-82 | a share created under a fresh link is found again exactly as returned |
| Stores.ConflictKeepsOldShare | file-server/internal/repositories/sharing_repository.go:45-47 | on a taken link the table is unchanged and still serves the old share |
| Stores.DeleteThenGet | file-server/internal/repositories/sharing_repository.go:65-100 | after a delete the link is unknown and every other link reads as before |
| Stores.PurgeIdempotent | file-server/internal/repositories/sharing_repository.go:102-108 | purging twice at one instant removes nothing more |
| Stores.AdminRecreateKeepsPassword | file-server/internal/repositories/user_repository.go:42-49 | re-creating an existing admin keeps its stored salt and hash and changes only the email |
| Access.ClaimString | file-server/internal/auth/auth_helpers.go:284-287 | a claim reads as a string exactly when it is present and holds a JSON string, and then it is that string |
| Access.HasAccess | file-server/internal/uploader/upload_test.go:441-562 | fails exactly when folder_id or access is missing or not a string; grants exactly when the claimed folder is "/" or the requested one and the claimed level covers the required one |
| Access.RootReachesEveryFolder | file-server/internal/sharing/sharing_test.go:247-259 | a root claim reaches any folder, and the answer is decided by the level alone |
| Access.OtherFolderRefused | file-server/internal/downloader/download_test.go:138-168 | a non-root claim on a different folder is refused whatever level it holds |
| Access.LevelLattice | file-server/internal/uploader/upload_test.go:467-492 | r does not satisfy w and w does not satisfy r; rw satisfies both; a level satisfies rw exactly when it satisfies r and w; only r, w and rw satisfy anything |
| Access.SplitAtSpace | file-server/internal/auth/auth_helpers.go:218-219 | no split exactly when the header has no space; otherwise the head has no space and head, one space and the rest rebuild the header |
| Access.BearerToken | file-server/internal/auth/auth_helpers.go:218-223 | a token is found only in a header of the form scheme, space, token with a case-insensitive Bearer scheme |
| Access.BearerTokenOf | file-server/internal/auth/auth_helpers.go:218-223 | any case-insensitive spelling of Bearer followed by a space and a token yields exactly that token |
| Tokens.ValidateClaims | file-server/internal/auth/auth_helpers.go:225-234 | the claims pass exactly when a present exp is a number that is 0 or later than now, and a present nbf is a number that is 0 or not after now |
| Tokens.ZeroDateIsAbsent | file-server/internal/auth/auth_helpers.go:225-234 | an exp or nbf of 0 is checked exactly as if the claim were missing, as jwt v5 reads a zero numeric date |
| Tokens.Parse | file-server/internal/auth/auth_helpers.go:225-234 | a token parses exactly when it decodes, is HMAC-signed with a valid signature and its time claims pass; the claims are returned unchanged |
| Tokens.MethodCheckRedundant | file-server/internal/auth/auth_helpers.go:250-252 | parsing with and without the HMAC method check accepts the same tokens with the same claims, since the key is a byte string |
| Tokens.ClaimsFor | file-server/internal/auth/token_helpers.go:16-22 | the claims carry user_id, folder_id and access as strings from the parameters, exp as given, and no nbf |
| Tokens.ExpiryAsWritten | file-server/internal/auth/token_helpers.go:20 | exp is the whole second of now plus ExpiryDuration times an hour, the product wrapped to int64 |
| Tokens.Expiry | file-server/internal/auth/token_helpers.go:20 | exp is the whole second of now plus the duration |
| Tokens.Signed | file-server/internal/auth/token_helpers.go:22-26 | the token is HMAC-signed, verifies, and carries the claims unchanged |
| Tokens.GenerateTokensAsWritten | file-server/internal/auth/token_helpers.go:15-41 | each token carries its own parameters' folder_id and access, and parses at now exactly when its exp second, from the wrapped hour-scaled expiry, is 0 or after now |
| Tokens.GenerateTokens | file-server/internal/auth/token_helpers.go:15-41 | each token carries its own parameters' folder_id and access, and parses at now exactly when its exp second, now plus the duration rounded down, is 0 or after now |
| Tokens.IssuedTokenLifetime | file-server/internal/auth/token_helpers.go:15-41 | an access token issued by the corrected GenerateTokens parses at a later instant exactly when that instant is before its expiry second, or at every instant when that second is 0 |
| Tokens.ZeroExpiryRefused | file-server/internal/auth/auth_test.go:301-339 | a zero ExpiryDuration gives a token that is refused at the instant it is issued, except within the first second after the epoch, where its exp is 0 |
| Tokens.HourScalingRange | file-server/internal/auth/token_helpers.go:20 | ExpiryDuration times an hour fits int64 exactly when ExpiryDuration is at most 2,562,047 |
| Tokens.DefaultAccessExpiryWraps | file-server/internal/auth/auth_handler.go:56 | the default 15-minute access duration times an hour wraps to a negative int64, so the issued token is refused from the moment it is issued, except when issued in the one second of 2115 at which its exp is 0, and then it is accepted for ever |
| Tokens.ShareAccessExpiryWraps | file-server/internal/auth/auth_handler.go:188-193 | the 5-minute share access duration times an hour wraps negative, so the share's access token is refused when issued, except in the one second of May 2018 at which its exp is 0, and then it is accepted for ever |
| Tokens.WrappedLifetime | file-server/internal/auth/token_helpers.go:20 | when the hour-scaled expiry wraps to a negative w, a token is accepted at its issue exactly when issued in the second starting at -w, and such a token is accepted at every later instant |
| Tokens.Saturate64 | file-server/internal/auth/token_helpers.go:75 | time.Until's duration is the difference clamped to the int64 range |
| Tokens.StringOrEmpty | file-server/internal/auth/token_helpers.go:61-71 | a string claim is read as itself; a missing or non-string claim reads as "" |
| Tokens.DecodeToken | file-server/internal/auth/token_helpers.go:43-79 | succeeds exactly when the token parses with the HMAC check, else gives the parse error; user_id, folder_id and access are copied leniently; the expiry is the clamped exp minus now, positive when exp is not 0, and 0 without exp |
| Tokens.DecodeIssued | file-server/internal/auth/token_helpers.go:15-79 | decoding an access token issued by the corrected GenerateTokens before its expiry gives back its user_id, folder_id and access and a positive remaining lifetime |
| AuthHandlers.Authenticate | file-server/internal/auth/token_helpers.go:92-111 | succeeds with the stored user exactly when the user exists and the hash of the password with its salt equals the stored hash; otherwise "user not found" or "invalid credentials" |
| AuthHandlers.AuthenticateSharing | file-server/internal/auth/auth_handler.go:167-171 | (reconstructed; its body is not part of this model) succeeds with the stored share exactly when the link exists and the hash of the OTP with its salt equals the stored hash; otherwise "user not found" or "invalid credentials" |
| AuthHandlers.AuthMiddleware | file-server/internal/auth/auth_helpers.go:209-239 | 401 "Missing token" for an empty header, 401 "Invalid authorization header" for a non-Bearer one; passes exactly when the bearer token parses with the HMAC check, handing on its claims; every refusal is a 401 |
| AuthHandlers.RefreshAuthMiddleware | file-server/internal/auth/auth_helpers.go:241-262 | 401 "Unauthorized: No refresh token provided" without the cookie; passes exactly when the cookie's token parses, handing on its claims; every refusal is a 401 |
| AuthHandlers.CookieHasAccessAsWritten | file-server/internal/auth/auth_helpers.go:264-297 | true exactly when the cookie parses, carries string user_id, folder_id and access, and those claims grant their own folder and level |
| AuthHandlers.CookieHasAccess | file-server/internal/auth/auth_helpers.go:264-297 | true exactly when the cookie parses, carries string user_id, folder_id and access, and grants the folder and level asked for |
| AuthHandlers.CookieArgumentsIgnored | file-server/internal/auth/auth_helpers.go:285-291 | the answer as written is the same for any folder and level the caller passes |
| AuthHandlers.CookieForOtherFolderCounted | file-server/internal/auth/auth_helpers.go:285-291 | a read-only cookie for folder A counts as covering rw on folder B as written, and not when the arguments are used |
| AuthHandlers.Login | file-server/internal/auth/auth_handler.go:40-89 | 400 on an undecodable body; 403 "Forbidden: " and the authentication error; tokens exactly when authentication succeeds, both for the user with folder "/" and rw, the cookie expiring after the refresh duration; the tokens come from the corrected GenerateTokens |
| AuthHandlers.Refresh | file-server/internal/auth/auth_handler.go:91-140 | 401 without the cookie, "Invalid refresh token" when it does not parse, "Malformed token" without string claims; a new access token exactly otherwise, copying user_id, folder_id and access from the refresh token and setting no cookie; the new token comes from the corrected GenerateTokens |
| AuthHandlers.Logout | file-server/internal/auth/auth_handler.go:142-158 | an empty access token and an empty refresh cookie that has already expired |
| AuthHandlers.SharingGateway | file-server/internal/auth/auth_handler.go:160-227 | 400 on an undecodable body; 403 with the authentication error; 403 "Token has expired" for a share that expired before now; otherwise tokens for the share's folder and access, and a refresh cookie exactly when the presented cookie does not already cover them; built on the corrected GenerateTokens and CookieHasAccess |
| AuthHandlers.Resend | file-server/internal/auth/auth_handler.go:73-81 | the browser sends a cookie back until it expires and not after |
| AuthHandlers.AdminCanAuthenticate | file-server/internal/repositories/user_repository.go:39-66 | an admin created under a new name authenticates with its password and yields the created record |
| AuthHandlers.ShareCanAuthenticate | file-server/internal/repositories/sharing_repository.go:39-63 | a share created under a new link authenticates with its OTP and yields the created record |
| AuthHandlers.LoginThenAuthorize | file-server/internal/auth/auth_test.go:209-229 | with the corrected GenerateTokens, the access token a login issues passes the middleware before its expiry and grants every folder at every level |
| AuthHandlers.LoginThenRefresh | file-server/internal/auth/auth_test.go:340-382 | with the corrected GenerateTokens, the refresh cookie a login sets, sent back before it expires, gives a new access token for the same user with folder "/" and rw |
| AuthHandlers.LogoutEndsRefresh | file-server/internal/auth/auth_handler.go:142-158 | after logout no refresh is issued at any later instant |
| AuthHandlers.RefreshKeepsScope | file-server/internal/auth/auth_handler.go:122-127 | the refreshed access token grants exactly what the refresh token grants, folder by folder and level by level |
| AuthHandlers.GatewayLeavesCoveringCookie | file-server/internal/auth/auth_handler.go:207-218 | with the corrected CookieHasAccess, after a gateway login the browser holds a refresh cookie that grants the share's folder and access, either the new one or the one it already had |
| Clock.DaysIn | file-server/internal/helpers/sharing_helpers.go:41 | months have 28 to 31 days, and February has 29 exactly in Gregorian leap years |
| Clock.ToUnix | file-server/internal/helpers/sharing_helpers.go:41 | the Unix second of a valid civil UTC instant falls at exactly its hour, minute and second of the day |
| Clock.EpochIsZero | file-server/internal/helpers/sharing_helpers.go:41 | 1970-01-01 00:00:00 is Unix second 0 |
| Clock.NextDayInMonth | file-server/internal/helpers/sharing_helpers.go:41 | consecutive days of a month are one day apart |
| Clock.NextMonth | file-server/internal/helpers/sharing_helpers.go:41 | the first of a month follows the last day of the month before |
| Clock.NextYear | file-server/internal/helpers/sharing_helpers.go:41 | 1 January follows 31 December of the year before |
| Clock.YearStartStep | file-server/internal/helpers/sharing_helpers.go:41 | consecutive years start 366 days apart across a leap February and 365 otherwise |
| Clock.FormatTimestamp | file-server/internal/helpers/sharing_helpers.go:14 | the 20060102150405 layout of a year in 0..9999 is 14 decimal digits |
| Clock.ParseTimestamp | file-server/internal/helpers/sharing_helpers.go:41 | an accepted text starts with 14 digits and names a valid instant of a year in 0..9999, with a sub-second part below a second |
| Clock.ParseFormatTimestamp | file-server/internal/helpers/sharing_helpers.go:14-41 | parsing the formatted instant gives back that instant with no fraction |
| Clock.ExtraTextRejected | file-server/internal/helpers/sharing_helpers.go:41 | a formatted instant followed by text that does not start a fraction is refused |
| Clock.FractionSuffix | file-server/internal/helpers/sharing_helpers.go:41 | the fraction after the seconds is below one second, is read from the front of the rest, and is absent unless a '.' or ',' is followed by a digit |
| Durations.DurationString | file-server/internal/helpers/sharing_helpers.go:17 | Duration.String ends in "s", starts with '-' exactly for negative durations, and holds no '_' |
| Durations.SecondsString | file-server/internal/helpers/sharing_helpers.go:17 | the h/m/s text of a whole number of seconds starts with a digit and ends in "s" |
| Durations.ParseDuration | file-server/internal/helpers/sharing_helpers.go:47 | an accepted text gives an int64 duration, and a negative one only from text starting with '-' |
| Durations.LeadingInt | file-server/internal/helpers/sharing_helpers.go:47 | reads the longest run of leading digits, leaving a rest that does not start with a digit, and refuses a value above 2^63 |
| Durations.LeadingIntNumber | file-server/internal/helpers/sharing_helpers.go:47 | the decimal text of a number followed by a non-digit reads back as that number and that rest |
| Durations.UnitLength | file-server/internal/helpers/sharing_helpers.go:47 | the unit is the longest prefix without a digit or '.' |
| Durations.UnitValueTable | file-server/internal/helpers/sharing_helpers.go:47 | a unit is known exactly when it is one of ns, us, µs, μs, ms, s, m, h, and then it has that unit's length in nanoseconds |
| Durations.Component | file-server/internal/helpers/sharing_helpers.go:47 | one number-and-unit component consumes input and adds at most 2^63 nanoseconds |
| Durations.Components | file-server/internal/helpers/sharing_helpers.go:47 | the running total of the components, a uint64 checked after each addition, never passes 2^63 |
| Durations.ReadStepWrapped | file-server/internal/helpers/sharing_helpers.go:47 | each component is added to the total modulo 2^64; a sum above 2^63 fails the parse, otherwise the loop goes on from the sum |
| Durations.ComponentsWrapToZero | file-server/internal/helpers/sharing_helpers.go:47 | two components of 2^63 ns each bring the uint64 total to 2^64, which wraps to 0 |
| Durations.TotalWrapsToZero | file-server/internal/helpers/sharing_helpers.go:47 | that wrapped total passes the check, so the text of two 2^63 ns components parses as a zero duration |
| Durations.ComponentNumber | file-server/internal/helpers/sharing_helpers.go:47 | a number followed by a known unit reads as the number times the unit |
| Durations.Signed | file-server/internal/helpers/sharing_helpers.go:47 | the sign applies to a magnitude of at most 2^63; a positive one above the int64 maximum is refused |
| Durations.SecondsStringParses | file-server/internal/helpers/sharing_helpers.go:17-47 | the h/m/s text of any whole number of seconds in range parses back to that many seconds |
| Durations.WholeSecondsString | file-server/internal/helpers/sharing_helpers.go:17 | a non-zero whole-second duration prints as its sign and the h/m/s text of its seconds |
| Durations.ZeroString | file-server/internal/helpers/sharing_helpers.go:17-47 | the zero duration prints as "0s", which parses back to zero |
| Durations.ParseDurationString | file-server/internal/helpers/sharing_helpers.go:17-47 | every whole-second int64 duration printed by String parses back to itself |
| SharedFolders.GenerateFolderName | file-server/internal/helpers/sharing_helpers.go:13-18 | split on '_', the name is the 14-digit timestamp, the duration text, and then the id's own fields |
| SharedFolders.GeneratedNameParses | file-server/internal/helpers/sharing_helpers.go:13-51 | a generated name has at least three fields, whose first two parse back to the creation instant and the duration |
| SharedFolders.Decide | file-server/internal/helpers/sharing_helpers.go:27-62 | a non-directory is skipped, a name with fewer than three fields is skipped; a folder is expired only when now is strictly after its expiry and active only when it is not |
| SharedFolders.DecideFields | file-server/internal/helpers/sharing_helpers.go:38-62 | an unparsable timestamp or duration is skipped; otherwise expiry is creation plus duration, expired exactly when now is strictly after it |
| SharedFolders.DecideParsed | file-server/internal/helpers/sharing_helpers.go:32-62 | a directory whose first two fields parse is decided by those two values alone |
| SharedFolders.DecideFieldsOf | file-server/internal/helpers/sharing_helpers.go:53-54 | with both fields parsed, the folder is expired exactly when now is strictly after creation plus duration |
| SharedFolders.DecideGenerated | file-server/internal/helpers/sharing_helpers.go:13-54 | a generated folder is decided by the instant and duration it was generated with |
| SharedFolders.FieldsDecide | file-server/internal/helpers/sharing_helpers.go:32-54 | any directory name whose first two fields are a formatted instant and a duration text is decided by those values |
| SharedFolders.ZeroDurationRemoved | file-server/internal/helpers/helpers_test.go:161-176 | a folder generated with zero duration is expired at every instant after its creation second |
| SharedFolders.DecideFirstTwoFields | file-server/internal/helpers/sharing_helpers.go:38-39 | two directory names that agree on their first two fields get the same verdict, whatever follows |
| SharedFolders.ExpiredStaysExpired | file-server/internal/helpers/sharing_helpers.go:53-54 | an entry expired at some instant is expired, with the same expiry, at every later instant |
| SharedFolders.ExpiredNames | file-server/internal/helpers/sharing_helpers.go:27-62 | the sweep's removal list is no longer than the listing |
| SharedFolders.ExpiredNamesMembers | file-server/internal/helpers/sharing_helpers.go:27-62 | a name is removed exactly when some listed entry with that name is decided expired |
| SharedFolders.FilesNeverRemoved | file-server/internal/helpers/sharing_helpers.go:28-30 | a name that only non-directory entries carry is never removed |
| SharedFolders.Failing | file-server/internal/helpers/sharing_helpers.go:57-59 | the failed removals are some of the removed names, each one whose removal fails |
| SharedFolders.CleanupExpiredFolders | file-server/internal/helpers/sharing_helpers.go:20-66 | fails exactly when the root cannot be listed, with that error; otherwise removes exactly the expired names in listing order, and a failed removal neither stops the sweep nor changes the result |
| Slicing.ChunkCount | web-interface/src/services/chunkFile.ts:43 | the least count of chunks of the given width that covers the size, zero exactly for an empty file |
| Slicing.Slice | web-interface/src/services/chunkFile.ts:45-47 | chunk i holds at most width bytes, is non-empty below the count, is full below the last chunk, and is empty from the count on |
| Slicing.SliceLength | web-interface/src/services/chunkFile.ts:45-47 | the clamped bounds of chunk i are ordered, at most width apart, apart below the count, width apart below the last, and equal from the count on |
| Slicing.Slices | web-interface/src/services/chunkFile.ts:79-80 | the first k chunks, each equal to its own slice |
| Slicing.SlicesPrefix | web-interface/src/services/chunkFile.ts:45-47 | the first k chunks concatenated are the file's first min(k*width, size) bytes |
| Slicing.SlicesTile | web-interface/src/services/chunkFile.ts:43-47 | all chunks concatenated in order are the whole file |
| Splitter.ChunkName | file-server/internal/downloader/chunk_handler.go:35 | the chunk's file name extends the file path with ".chunk." and an index |
| Splitter.ChunkNameInjective | file-server/internal/downloader/chunk_handler.go:35 | different indices give different chunk file names |
| Splitter.Records | file-server/internal/downloader/chunk_handler.go:46-50 | k records, record i naming chunk i, its index and the hex MD5 of its bytes |
| Splitter.Written | file-server/internal/downloader/chunk_handler.go:35-43 | every chunk file written so far is named for an index below k |
| Splitter.WrittenHolds | file-server/internal/downloader/chunk_handler.go:35-43 | chunk file i is present after k writes with exactly chunk i's bytes |
| Splitter.FirstErrorNone | file-server/internal/downloader/chunk_handler.go:23-43 | no failure is reported exactly when no read up to the end and no write before it fails |
| Splitter.ChunkFile | file-server/internal/downloader/chunk_handler.go:11-54 | the open error, or no chunks for chunk size 0 or an empty file; otherwise it succeeds exactly when no step fails, returning one record per chunk in order with chunk i written to its own file, and on a failure the files written before it stay |
| Splitter.SplitTiles | file-server/internal/downloader/chunk_handler.go:20-50 | the chunk files of a successful split, read in record order, spell the file; each record carries the hex MD5 of exactly its file's bytes; none is empty and all but the last are full |
| ClientChunks.CreateChunk | web-interface/src/services/chunkFile.ts:37-59 | "Invalid file" without a file, "Invalid chunk number" for a negative index; otherwise a form with the file's metadata, its index and chunk count read back as numbers, and the single chunk of bytes i*S to min(i*S+S, size) |
| ClientChunks.ChunkFormReadBack | web-interface/src/services/chunkFile.ts:54-55 | the chunk index and chunk count of a form read back as themselves through the server's integer parser |
| ClientChunks.UploadChunk | web-interface/src/services/chunkFile.ts:15-35 | at least one and at most MAX_CHUNK_RETRIES + 1 attempts, every attempt but the last failed, success exactly when the last succeeded, the progress callback called once on success and never otherwise, and failure carrying "Max retries exceeded: " and the last error |
| ClientChunks.UploadChunkSucceeds | web-interface/src/services/chunkFile.ts:15-35 | a chunk is delivered exactly when one of its allowed attempts succeeds |
| ClientChunks.BatchStart | web-interface/src/services/chunkFile.ts:86-91 | the start of the batch holding chunk n is a multiple of MAX_CONCURRENT_CHUNKS at most n and within one batch of it |
| ClientChunks.Checked | web-interface/src/services/chunkFile.ts:87 | the chunks whose results are awaited: with the test as written only whole batches, with the last index all of them |
| ClientChunks.PostBatches | web-interface/src/services/chunkFile.ts:79-94 | success exactly when every awaited chunk was delivered, having posted them all; a failure reports "Chunk upload failed" right after a batch in which some chunk was not delivered, every earlier batch delivered |
| ClientChunks.Forms | web-interface/src/services/chunkFile.ts:79-80 | the forms of chunks 0..n-1, in order |
| ClientChunks.ChunkAndUploadAsWritten | web-interface/src/services/chunkFile.ts:61-98 | "No file provided" without a file, success sending nothing for an empty file; otherwise success exactly when every chunk of the whole batches was delivered, the forms sent being the chunk forms in order |
| ClientChunks.ChunkAndUpload | web-interface/src/services/chunkFile.ts:61-98 | as written, except that success holds exactly when every chunk was delivered, and a failure says "Chunk upload failed" |
| ClientChunks.OneChunk | web-interface/src/configs/config.ts:6 | a non-empty file of at most 5 MiB is one chunk |
| ClientChunks.ServerDownDelivers | web-interface/src/services/chunkFile.ts:15-35 | a chunk whose every attempt fails is not delivered |
| ClientChunks.TrailingBatchUnchecked | web-interface/src/services/chunkFile.ts:87 | for a one-chunk file, the loop as written awaits no result while testing the last index awaits it, so an undelivered chunk goes unnoticed |
| Upload.CandidateInjective | file-server/internal/uploader/upload_handler.go:49-51 | different counters give different "base (N)ext" candidates |
| Upload.CandidatesCount | file-server/internal/uploader/upload_handler.go:49-54 | when the first n candidates are all taken they are n distinct taken names, so the counter never passes the number of taken names |
| Upload.GetUniqueFileName | file-server/internal/uploader/upload_handler.go:40-55 | the result is never taken; a free name is kept; otherwise it is the first "base (N)ext" with N = 1, 2, … that is free, ext being the final-dot suffix |
| Upload.FirstEmpty | file-server/internal/uploader/upload_handler.go:81-100 | none exactly when every field is non-empty; otherwise the earliest empty field in the given order |
| Upload.ParseForm | file-server/internal/uploader/upload_handler.go:72-157 | the parse error, else the first empty field in the order fileId, fileName, fileExtension, md5Hash, chunkIndex, totalChunks; accepts exactly the forms that have every field, a non-empty first chunk, numeric index and count with 0 <= index < count (the corrected index guard), a valid name, an allowed extension and a UUID, returning their values; name is checked before extension before UUID |
| Upload.CheckOrder | file-server/internal/uploader/upload_handler.go:138-150 | a form that passes the field and number checks but has a bad file name is refused for the name, whatever its extension and id |
| Upload.IndexInRangeAsWritten | file-server/internal/uploader/upload_handler.go:120-122 | with the int64 subtraction, the guard accepts exactly 0 <= index < total, except for the least int64 total, where every non-negative index passes |
| Upload.IndexInRange | file-server/internal/uploader/upload_handler.go:120-122 | the guard accepts exactly 0 <= index < total |
| Upload.IndexGuardWraps | file-server/tests/uploader/form_test.go:158-173 | no index passes the intended guard when total <= 0, while the guard as written lets every non-negative int64 index through for the least int64 total |
| Upload.ParseFormFileId | file-server/internal/uploader/upload_handler.go:57-70 | the parse error, or "fileId is required" for an empty fileId, or the fileId itself |
| Upload.FileIdAgrees | file-server/internal/uploader/upload_handler.go:57-157 | a form that ParseForm accepts gives the same file id through ParseFormFileId |
| Upload.FirstAbsent | file-server/internal/uploader/upload_handler.go:189-195 | none exactly when chunks 0..total-1 are all staged; otherwise the lowest missing index, everything below it staged |
| Upload.CopyChunks | file-server/internal/uploader/upload_handler.go:189-204 | reports the first missing chunk, having copied the chunks before it in order; with none missing the output is all chunks in index order |
| Upload.ChunkAssemble | file-server/internal/uploader/upload_handler.go:159-221 | always releases the file id; without a staging directory nothing is created; otherwise the staging directory is removed and a fresh unique name chosen; a missing chunk leaves the partial output; a complete set is kept exactly when its hex MD5 equals the trimmed lower-cased declared hash, and a mismatch or a failed create adds no file |
| Upload.HashOfContentMatches | file-server/internal/uploader/upload_handler.go:206-218 | the hex MD5 of the content is accepted as the declared hash of that content |
| Upload.HashMatchesExactly | file-server/internal/uploader/upload_handler.go:206-209 | a declared hash is accepted exactly when, trimmed, it spells the content's hex MD5 with any letter in either case |
| Upload.Staged | file-server/internal/uploader/upload_handler.go:251-269 | the staged chunks after writing this one: the earlier ones plus this index, holding this chunk's bytes |
| Upload.FullStagingComplete | file-server/internal/uploader/upload_handler.go:271-276 | as many staged chunks as the count, all in range, means every index 0..count-1 is staged |
| Upload.UploadHandler | file-server/internal/uploader/upload_handler.go:223-285 | 405, 401, 403 without write access, 400 with ParseForm's message (so with the corrected index guard), in that order and with no effect; otherwise the chunk is staged, and assembly runs exactly when the staged count reaches totalChunks and the file id is free, leaving the id released, the staging removed and, for a complete set with a matching hash, the joined bytes under a fresh unique name |
| Upload.StageChunk | file-server/internal/uploader/upload_handler.go:251-281 | stages the chunk; assembles exactly when the count is reached and the id is free; a complete set whose id is held only refreshes the id's stamp |
| Upload.AssembleStaged | file-server/internal/uploader/upload_handler.go:276-281 | acquiring a free id and assembling removes the staging and releases the id, and a complete set with a matching hash lands under a fresh unique name |
| Pipeline.ClientFormAccepted | web-interface/src/services/chunkFile.ts:37-59 | the form the client builds for chunk i is accepted by the server's ParseForm, with the client's metadata, index i, the chunk count and exactly chunk i's bytes |
| Pipeline.StagedSlices | file-server/internal/uploader/upload_handler.go:251-269 | the staging after the first k chunks: indices 0..k-1, each holding its own slice |
| Pipeline.JoinedConcat | file-server/internal/uploader/upload_handler.go:189-204 | joining staged chunks that agree with a list of pieces gives the pieces' concatenation |
| Pipeline.StagedSlicesJoin | file-server/internal/uploader/upload_handler.go:189-204 | joining all of a file's staged slices gives back the file |
| Pipeline.DeclaredDigestMatches | file-server/internal/uploader/upload_handler.go:206-218 | the reassembled bytes match the hex MD5 the client declared for the whole file |
| Pipeline.AllStaged | file-server/internal/uploader/upload_handler.go:189-195 | when all of a file's slices are staged no chunk is missing |
| Pipeline.StageNext | file-server/internal/uploader/upload_handler.go:251-269 | posting chunk i after chunks 0..i-1 leaves chunks 0..i staged |
| Pipeline.PostChunk | file-server/internal/uploader/upload_handler.go:223-285 | an accepted chunk below the count only stages; the last one assembles when the id is free, and a complete set with a matching hash lands under a fresh name |
| Pipeline.PostStaging | file-server/internal/uploader/upload_handler.go:223-285 | posting a chunk that is not the last one stages it and changes nothing else |
| Pipeline.StageChunks | web-interface/src/services/chunkFile.ts:79-84 | posting the first n chunks of a file stages exactly them and changes no file and no job |
| Pipeline.PostLastChunk | file-server/internal/uploader/upload_handler.go:271-281 | posting the last chunk after all the others stores exactly the original file under a fresh name, removes the staging and frees the id |
| Pipeline.PostLast | file-server/internal/uploader/upload_handler.go:271-281 | after the last chunk the folder holds the original file under a fresh name, the staging is as before the upload began, and the registry is unchanged |
| Pipeline.UploadFile | web-interface/src/services/chunkFile.ts:61-98 | uploading a non-empty file chunk by chunk with its declared MD5 stores exactly that file under a fresh name, leaving the staging and the registry as they were |
| Sharing.TruncateToSecond | file-server/internal/sharing/sharing_handler.go:84 | the whole second at or before now |
| Sharing.SharingHandler | file-server/internal/sharing/sharing_handler.go:50-113 | 405, 401, 403 without rw on "/", 400 on an unreadable body, 500 "Error parsing time: …", 403 "Token has expired" for an expiration before the truncated now, in that order; otherwise the share is created; a failure never changes the table |
| Sharing.CreateShare | file-server/internal/sharing/sharing_handler.go:91-108 | the folder id is GenerateFolderName of expiration minus now and the link; a failed mkdir changes nothing; a failed insert leaves the new folder and reports the store error; success returns the link and that id and stores the share |
| Sharing.HandlerCreates | file-server/internal/sharing/sharing_handler.go:53-108 | once every check before the folder passes, the handler is exactly the creation step |
| Sharing.ShareOnlyWhenEveryCheckPasses | file-server/internal/sharing/sharing_handler.go:50-113 | a share is made exactly when every check passes, the folder is created and the access level is allowed; it returns the link and the generated folder id, which is added to the folders |
| Sharing.FailedInsertKeepsFolder | file-server/internal/sharing/sharing_handler.go:93-104 | an access level the table refuses gives a 500 after the folder was made, so the folder stays and the table does not change |
| Sharing.FolderOutlivesFailedInsert | file-server/internal/sharing/sharing_handler.go:93-104 | through the handler, a refused access level leaves a new folder and an unchanged table |
| Sharing.ExpiryThisSecondAccepted | file-server/internal/sharing/sharing_handler.go:84-91 | an expiration equal to the truncated now is accepted, with a zero-duration folder name |
| Sharing.ShareThenGateway | file-server/internal/auth/auth_handler.go:160-227 | a share just created lets its OTP through the gateway until its expiration, with tokens for the returned folder id and the chosen access, and is refused as expired after it |
| Sharing.AddSharingFilesGate | file-server/internal/sharing/sharing_handler.go:115-152 | 405, 400 for a missing Folder-Id, 401, 403 without write access, in that order; 404 "Folder not found" exactly when the caller may write and the folder is absent; passes exactly when it may write and the folder exists |
| Sharing.ForbiddenBeforeExistence | file-server/internal/sharing/sharing_handler.go:139-152 | a caller without write access gets the same refusal whether or not the folder exists |
| Sharing.AddSharingFilesHandler | file-server/internal/sharing/sharing_handler.go:115-156 | a refusal of the gate changes nothing; it succeeds exactly when the gate passes and the form parses; only the named folder can change and no folder appears or disappears |
| Sharing.Item | file-server/internal/sharing/sharing_handler.go:196-210 | an item's name and extension rebuild the entry's name, the extension being the entry's final-dot suffix |
| Sharing.Listing | file-server/internal/sharing/sharing_handler.go:193-212 | exactly the items of the non-directory entries whose info could be read, no more than the entries |
| Sharing.ItemSplitsName | file-server/internal/sharing/sharing_handler.go:196-210 | the extension is empty exactly when the name has no dot, and otherwise starts at the last dot; the size text reads back as the size |
| Sharing.GetSharingFilesHandler | file-server/internal/sharing/sharing_handler.go:158-215 | 405, 400 "Missing folder_id parameter", 401, 403 without read access, 400 "Folder does not exist", in that order; otherwise the listing of the folder |
| Download.Gate | file-server/internal/downloader/download_handler.go:17-49 | 405, 400 "Missing file parameter", 400 "Missing folder_id parameter", 401, 403, in that order; passes exactly with GET, both parameters, claims and read access |
| Download.DownloadHandlerAsWritten | file-server/internal/downloader/download_handler.go:17-69 | after the gate, 404 "File not found" for a file that does not open, a panic after the 500 for one that cannot be stat-ed, and the file's bytes otherwise |
| Download.DownloadHandler | file-server/internal/downloader/download_handler.go:17-69 | never panics; the file is served, with its size, exactly when the gate passes and the file is present; 404 and 500 otherwise |
| Download.StatFailurePanics | file-server/internal/downloader/download_handler.go:59-62 | the handler as written panics exactly when the gate passes and Stat fails, and agrees with the corrected one everywhere else |
| Download.AccessBeforeOpen | file-server/internal/downloader/download_handler.go:45-56 | without read access the reply is 403 whatever is on disk |
| Download.DownloadAvailableHandler | file-server/internal/downloader/download_handler.go:71-123 | the gate's refusal with no change; a held key gives 503 "File currently processing" and only refreshes its stamp; a free key leaves the registry as it was and the reply depends on opening and stat-ing the file |
| Download.ProbeKeepsKeys | file-server/internal/downloader/download_handler.go:105-109 | the set of held keys is the same before and after the probe |
| Text.Wrap64 | file-server/internal/uploader/upload_handler.go:120 | int64 arithmetic: a value in range is itself, any other is brought into range by a multiple of 2^64 |
| Text.NatToStringValue | file-server/internal/sharing/sharing_handler.go:209 | the decimal text of a number reads back as that number |
| Text.NatToStringInjective | file-server/internal/downloader/chunk_handler.go:35 | different numbers have different decimal texts |
| Text.PadRoundTrip | file-server/internal/helpers/sharing_helpers.go:14 | a number below 10^w zero-padded to w digits is exactly w digits long and reads back as the number |
| Text.Atoi | file-server/internal/uploader/upload_handler.go:110-118 | strconv.Atoi accepts only values in the int64 range |
| Text.AtoiNatToString | file-server/internal/uploader/upload_handler.go:110-118 | the decimal text of any int64-sized natural number parses back to it |
| Text.AtoiNegated | file-server/internal/uploader/upload_handler.go:110-118 | a minus sign and the text of a number up to 2^63 parse back to its negation |
| Text.AtoiIntToString | file-server/internal/uploader/upload_handler.go:110-121 | the decimal text that %d prints for any int64 reads back through Atoi as that number |
| Text.ToLowerIdempotent | file-server/internal/uploader/upload_handler.go:144 | lowering twice is lowering once, and the result holds no ASCII capital |
| Text.ToLowerMatches | file-server/internal/uploader/upload_handler.go:207-209 | a text lowers to an already lower-case text exactly when it has its length and each character is that one or one that lowers to it |
| Text.TrimLeft | file-server/internal/uploader/upload_handler.go:207 | the result is a suffix of the text that does not start with white space |
| Text.TrimRight | file-server/internal/uploader/upload_handler.go:207 | the result is a prefix of the text that does not end with white space |
| Text.SplitCons | file-server/internal/helpers/sharing_helpers.go:32 | splitting text that starts with a separator-free field and a separator gives that field and then the split of the rest |
| Text.TrimSuffix | file-server/internal/sharing/sharing_handler.go:204 | with the suffix present the result and the suffix rebuild the text; otherwise the text is unchanged |
| Text.ExtShape | file-server/internal/sharing/sharing_handler.go:197 | filepath.Ext is a suffix of the path, empty or a dot followed by no dot and no slash, and empty for a slash-free path only when it has no dot |

## Left out

- Access.HasAccess: the function's body is not part of this model. The rule here is reconstructed from the handlers' tests: the claimed folder must be "/" or the requested one, and the claimed level must cover the required one. An unknown required level grants nothing. A missing or non-string folder_id or access is an error.
- AuthHandlers.AuthenticateSharing: the gateway calls AuthenticateSharing at auth_handler.go:167, whose body is not part of this model. The check is reconstructed like Authenticate: look up the link, then compare the salted hash of the OTP.
- HTTP plumbing is not modelled: multipart parsing, the 5 MB body limit of ParseForm and ParseFormFileId, JSON encoding and decoding, cookie attributes, headers and `http.ServeContent`. Handlers return a status and message or a result value, and a body that does not decode is an input.
- Cryptography and identifiers are parameters: MD5, SHA-256, the random source, JWT signing and verification, and `uuid.Parse`, which is an arbitrary predicate. Signing keys are not modelled.
- Tokens.Signed: GenerateTokens signs with `jwtKey` (token_helpers.go:23, :35), whose definition is not part of this model, while the parsers verify with the configured JWT secret (auth_helpers.go:229, :251, :272; auth_handler.go:100). Signed marks every issued token as verifying, which assumes the two keys are equal. AuthHandlers.LoginThenAuthorize, AuthHandlers.LoginThenRefresh, Tokens.IssuedTokenLifetime, Tokens.DecodeIssued and Sharing.ShareThenGateway rest on that assumption.
- Token strings are abstract. A caller-supplied decoder maps a token string to the decoded token, or to nothing.
- SQL and connection setup are not modelled. The tables are finite maps, and the CHECK constraint on access is the only constraint modelled.
- Concurrency is run inline. The JobManager mutexes and ticker, the goroutine that runs ChunkAssemble, `logAsync` and the JavaScript promises all happen at once. Only sequential interleavings are modelled.
- `ChunklargeFile` (chunk_handler.go:56-154) is a worker pool and is not modelled. Only the sequential `ChunkFile` is.
- Splitter.ChunkFile: each read returns min(chunkSize, remaining) bytes. The chunk size is a natural number. A partial write of a chunk is not modelled; a failing write fails the whole step.
- Upload.UploadHandler: the I/O errors after ParseForm are not modelled. Those are creating the staging directory, creating and writing the chunk file, and reading the staging directory back. The staged chunk count is the number of distinct indices staged. It also inherits ParseForm's corrected index guard, so it does not stage a chunk of a form whose totalChunks is -2^63.
- Upload.ChunkAssemble: a failing RemoveAll of the staging directory and a failing copy of a chunk are not modelled. A chunk that fails to open is the model's missing chunk.
- Paths are single names. `filepath.Join`, `Dir` and `Base` are not modelled: a folder id, a file name and a staged chunk index each name one entry of a map.
- AuthHandlers.Login: issues its tokens with the corrected Tokens.GenerateTokens, not the wrapping one at token_helpers.go:20 that the handler calls. With the default configuration the source's access token is refused from the moment it is issued, except in one second of 2115, as Tokens.DefaultAccessExpiryWraps shows; the model's Login promises a token that parses until its expiry.
- AuthHandlers.Refresh: the new access token likewise comes from the corrected Tokens.GenerateTokens.
- AuthHandlers.SharingGateway: uses the corrected Tokens.GenerateTokens and the corrected AuthHandlers.CookieHasAccess. The source's cookie check ignores its arguments, so with a cookie for another folder it sets no new cookie where the model sets one, as AuthHandlers.CookieForOtherFolderCounted shows.
- AuthHandlers.LoginThenAuthorize: holds of the corrected token generator only. With the source's default configuration the login token does not pass the middleware, except when issued in one second of 2115.
- AuthHandlers.LoginThenRefresh: the refreshed access token is the corrected generator's, so the same gap applies.
- AuthHandlers.GatewayLeavesCoveringCookie: holds of the corrected cookie check only. The source's gateway keeps a read-only cookie for folder A after a read-write login for folder B.
- Upload.ParseForm: uses the corrected Upload.IndexInRange. With totalChunks = -2^63 the source's int64 guard accepts every non-negative chunkIndex, which the model refuses with a bad-index error, as Upload.IndexGuardWraps shows.
- Upload.Message: the texts that wrap a library error (`invalid chunk number: %w`, `invalid number of chunks: %w`, `invalid UUID format: %w`, `unable to parse form: %w` at upload_handler.go:63-149) are modelled without the wrapped strconv, uuid or multipart error text.
- SharedFolders.GenerateFolderName: the source defines it with one parameter and takes the id from `uuid.New()`, while sharing_handler.go:93 and the auth tests call it with the link as a second argument. The model takes the id as a parameter, which covers both readings.
- Durations.ParseDuration: Go parses a fractional component with floating point. The model takes the rounding of the fraction as a caller-supplied function, and the round trip is proved for whole-second durations only.
- Clock: only UTC and the `20060102150405` layout are modelled. Time zones and other layouts are not.
- The sharing handler's RFC 3339 expiration is parsed by a caller-supplied function into Unix nanoseconds. The share table stores that instant instead of the text.
- Download.DownloadAvailableHandler: the probe uses the requested file name as the job key, while an upload in progress holds its file id. The model keeps both keys as written, so a probe does not see an assembly in progress.
- ClientChunks.UploadChunk: the progress callback is counted, not run, and the percentage it computes in floating point is not modelled.
- ClientChunks.CreateChunk: a JavaScript chunk index that is not an integer is not modelled.
- The duplicate helpers of the auth package (auth_helpers.go:43-207) are not modelled separately. getUserByUsername, getSharingUser, deleteSharingUser, CreateAdminUser, HashPassword and GenerateRandomSalt there do what their counterparts in repositories/ and helpers/ do, which Stores and Digests model.
- auth.CreateSharingUser (auth_helpers.go:122-154) differs from Stores.CreateSharingUser and is not modelled: it takes no link or salt, draws its own salt with GenerateRandomSalt, which can fail, and its own link with `uuid.New()`, and the table it declares stores expiration as TEXT (auth_helpers.go:83), not TIMESTAMPTZ.
- file-server/internal/helpers/zip_helpers.go, configuration loading, routing, startup and logging are not part of this model.

## Findings

| source | as written | input that shows it | evidently intended | confidence | as-written member | corrected member |
|---|---|---|---|---|---|---|
| file-server/internal/auth/token_helpers.go:20 | the expiry is `now + ExpiryDuration * time.Hour`, with int64 wrap-around, while callers pass durations already in nanoseconds | Login with the default 15-minute access duration: 9×10^11 × 3.6×10^12 wraps to about −4.6×10^18 ns, so the token is refused the moment it is issued, except in the one second at which its exp wraps to 0 | exp = now + ExpiryDuration | not executed | Tokens.GenerateTokensAsWritten, Tokens.DefaultAccessExpiryWraps | Tokens.GenerateTokens |
| file-server/internal/uploader/upload_handler.go:120 | `chunkIndex > totalChunks-1` is computed in int64 | totalChunks = −2^63 and chunkIndex = 0: totalChunks−1 wraps to 2^63−1 and the index passes | 0 <= chunkIndex < totalChunks | not executed | Upload.IndexInRangeAsWritten, Upload.IndexGuardWraps | Upload.IndexInRange |
| file-server/internal/auth/auth_helpers.go:285-291 | CookieHasAccess overwrites its folderId and access arguments with the cookie's own claims | a read-only refresh cookie for folder A, asked about rw on folder B, answers true, so SharingGateway sets no new cookie for B | check the cookie's claims against the arguments | not executed | AuthHandlers.CookieHasAccessAsWritten, AuthHandlers.CookieForOtherFolderCounted | AuthHandlers.CookieHasAccess |
| web-interface/src/services/chunkFile.ts:87 | a batch is awaited only when it is full, because `chunkIndex === totalChunks` never holds inside the loop | a one-chunk file whose every upload attempt fails: no result is awaited and chunkAndUpload reports success | also await the last, partial batch (`chunkIndex === totalChunks - 1`) | not executed | ClientChunks.ChunkAndUploadAsWritten, ClientChunks.TrailingBatchUnchecked | ClientChunks.ChunkAndUpload |
| file-server/internal/downloader/download_handler.go:59-62 | after a failed Stat the handler writes the 500 but does not return, then reads the size of a nil FileInfo | a file that opens but cannot be stat-ed, requested by a caller with read access | return after the 500 | not executed | Download.DownloadHandlerAsWritten, Download.StatFailurePanics | Download.DownloadHandler |
