# mailSitter, modelled in Dafny

mailSitter logs a user into the DuckDuckGo e-mail protection service by
one-time passphrase: it asks the provider to mail a passphrase, polls the
user's mailbox over IMAP until the mail arrives, reads the passphrase out of
the mail body, redeems it for a session token, fetches the account dashboard
for the access token, and then mints new aliases. Settings live in YAML files
that are merged on save.

This project models the sequential logic between those I/O steps:

- `Ddep` (src/ddep/mod.rs): the passphrase extractor, a hand-written scanner
  specified by the match the regex engine reports for
  `one-time passphrase.*?\r\n\r\n([\w\s-]+)\r\n\r\n` (leftmost start, then
  the shortest gap after the marker, then the longest capture), and the
  account configuration with its conversions to and from the client.
- `DdepApi` (src/ddep/api.rs): the API client as a class whose fields are
  updated by `Login` and `FullLogin`, with every HTTP reply given as an input
  (a transport failure, or a status with a body that decoded or did not), and
  the passphrase normalisation `login` applies.
- `Email` (src/email.rs): the text of a parsed MIME message, the
  `host:port` parser for the mail server setting, the fold that keeps the
  fetched messages that are UTF-8, and the polling loop, with its search
  outcomes and clock readings as inputs.
- `Config` (src/lib.rs): the recursive merge of configuration trees.
- `Text` and `Wrappers`: string helpers (occurrence, first index, prefix
  before a separator, character replacement) and `Option`/`Result`.

Behaviour of the code that is easy to misread:

- The passphrase is returned verbatim as captured, and the capture is
  greedy: `\s` includes CR and LF, so it runs on over blank lines to the last
  blank line it can reach (`UntrimmedCapture`, `GreedyCaptureSpansBlocks`).
- The message text collects plain-text parts among the direct subparts only;
  a plain-text part nested inside a `multipart/alternative` inside a
  `multipart/mixed` message is not found (`NestedPlainTextIgnored`).
- reqwest's `error_for_status` fails on 4xx and 5xx statuses only, so a 1xx
  or 3xx reply counts as success (`IsErrorStatus`, `ErrorStatusClasses`).
- The polling loop stops at the first check whose reading is at or beyond the
  timeout, and its error always carries the fixed message "Timeout, cannot
  find new email", whatever the searches reported.
- `\w` and `\s` are their ASCII members: letters, digits and `_`; space, tab,
  LF, VT, FF and CR.

## Model

| member | source | states |
|---|---|---|
| Ddep.GetOtpViaMail | src/ddep/mod.rs:52-63 | total on every string; a result is the capture of the match the regex engine reports (leftmost start, shortest gap, longest capture), taken verbatim from the mail; no result exactly when no start, gap and capture match at all |
| Ddep.Scan | src/ddep/mod.rs:53-54 | the first match at or after a position: no match starts between that position and it; none when no match starts there or later |
| Ddep.TryGap | src/ddep/mod.rs:53 | the lazy `.*?`: the shortest gap on the marker's line after which a blank line and a capture follow, or none at any length |
| Ddep.Capture | src/ddep/mod.rs:53 | the greedy `([\w\s-]+)\r\n\r\n`: the longest capture a blank line follows, or none of any length |
| Ddep.OtpNeedsMarker | src/ddep/mod.rs:53-62 | a mail without "one-time passphrase" yields nothing |
| Ddep.OtpCharacters | src/ddep/mod.rs:53 | a passphrase found is non-empty and made of word characters, white space and '-' |
| Ddep.OtpLayout | src/ddep/mod.rs:53 | a passphrase found stands after the marker, a gap without line feed and a blank line, and before another blank line |
| Ddep.MatchLayout | src/ddep/mod.rs:53 | every match lays the mail out as marker, gap, blank line, capture, blank line |
| Ddep.LeftmostFirstUnique | src/ddep/mod.rs:53-54 | two matches that are both leftmost-first are the same match |
| Ddep.ScanFindsLeftmostFirst | src/ddep/mod.rs:53-54 | the scanner finds exactly the match the regex engine reports |
| Ddep.AssembledLeftmostFirst | src/ddep/mod.rs:53 | a mail laid out as marker line, blank line, passphrase block, blank line holds the reported match at its marker, capturing the block |
| Ddep.LeftmostFirstDetermines | src/ddep/mod.rs:54-56 | the reported match is unique, so it alone decides the result |
| Ddep.DelimitedBlockExtracted | src/ddep/mod.rs:53-56 | a mail laid out as marker line, blank line, passphrase block, blank line, with no earlier marker and a next line that stops being passphrase text, yields exactly the block |
| Ddep.UntrimmedCapture | src/ddep/mod.rs:55-56 | white space around the block is kept in the result |
| Ddep.GreedyCaptureSpansBlocks | src/ddep/mod.rs:53 | two passphrase blocks separated by a blank line are captured as one |
| Ddep.TestMailPassphrase | src/tests.rs:7-11 | the repository's test mail yields "unstamped matching onboard proofs", although its login link with `otp=` comes first |
| Ddep.TypedTestPassphrase | src/ddep/api.rs:83 | the test passphrase typed into login is sent as "unstamped-matching-onboard-proofs" |
| Ddep.TestMailLoginOtp | src/ddep/api.rs:80-84 | extracting from the test mail and normalising gives the dashed passphrase that the mail's login link carries |
| Ddep.NewDdConfig | src/ddep/mod.rs:42-49 | the given user name and tokens, no other entries |
| Ddep.FromClient | src/ddep/mod.rs:28-32 | a client's user name and both tokens copied unchanged, no other entries |
| Ddep.IntoClient | src/ddep/mod.rs:34-38 | a new client with the configuration's user name and tokens, logged in exactly when both tokens are present; converted back it is the same configuration without other entries |
| Ddep.ReloadClient | src/ddep/mod.rs:28-38 | client to configuration to client keeps user name and both tokens |
| DdepApi.IsErrorStatus | src/ddep/api.rs:73 | the statuses `error_for_status` turns into errors: 400 to 599 |
| DdepApi.ErrorStatusClasses | src/ddep/api.rs:73 | those are exactly the 4xx and 5xx classes |
| DdepApi.IsHeaderValue | src/ddep/api.rs:98 | the text `HeaderValue::from_str` accepts: tab and every character from space up except DEL |
| DdepApi.IsHeaderChar | src/ddep/api.rs:98 | one accepted character of a header value |
| DdepApi.HeaderValueOneLine | src/ddep/api.rs:98 | an accepted header value holds no CR and no LF |
| DdepApi.BearerHeader | src/ddep/api.rs:98 | "Bearer " followed by a token is accepted exactly when the token is |
| DdepApi.CheckStatus | src/ddep/api.rs:72-73 | success exactly for a reply whose status is not 4xx or 5xx; a transport failure and an error status are reported as such |
| DdepApi.Decoded | src/ddep/api.rs:87-88 | a body only for a non-error status whose body decoded; a decode failure otherwise |
| DdepApi.NormalizeOtp | src/ddep/api.rs:79-84 | a "https://" input gives the value after its first "otp=", cut at '&' and at the next "otp=", and fails without "otp="; any other input is the same text with every ' ' as '-'; the link test comes first |
| DdepApi.OtpValueUnique | src/ddep/api.rs:81 | the characterisation of the link's value admits one value only |
| DdepApi.NormalizedLink | src/ddep/api.rs:80-81 | a link with its first "otp=" at a known place yields the value that fits the text after it |
| DdepApi.LoginLinkOtp | src/ddep/api.rs:80-81 | "https://a.b/c?otp=x-y-z&user=u" gives "x-y-z" |
| DdepApi.LoginLinkWithoutOtp | src/ddep/api.rs:81 | a link without "otp=" fails (a panic in the source) |
| DdepApi.TypedOtp | src/ddep/api.rs:82-84 | anything not starting with "https://" is treated as a typed passphrase |
| DdepApi.TypedPassphraseOtp | src/ddep/api.rs:83 | "x y z" gives "x-y-z" |
| DdepApi.Client.constructor | src/ddep/api.rs:51-67 | logged in exactly when both tokens are given; no e-mail address and no address count yet; the login invariant holds |
| DdepApi.Client.UserFor | src/ddep/api.rs:78 | the given user name, else the client's own |
| DdepApi.Client.Otp | src/ddep/api.rs:69-75 | one request to the login-link endpoint with the user; `true` exactly for a non-error status; changes no field |
| DdepApi.Client.Login | src/ddep/api.rs:77-91 | sends user and normalised passphrase; on success stores and returns the new token; on a bad link, a transport failure, an error status or a decode failure the token is unchanged and nothing else is touched |
| DdepApi.LoginStep | src/ddep/api.rs:77-91 | the outcome of login: a token exactly when the passphrase normalises and the reply decodes |
| DdepApi.Client.Dashboard | src/ddep/api.rs:93-104 | the session token as bearer, an invalid header value failing before sending; the decoded record otherwise; changes no field |
| DdepApi.DashboardStep | src/ddep/api.rs:93-104 | the outcome of the dashboard call for a token |
| DdepApi.Client.FullLogin | src/ddep/api.rs:106-115 | a failing login changes nothing; a failing dashboard call leaves only the new token, after the login request alone for an invalid header value and after both requests otherwise; success sets the token, the access token and e-mail of the dashboard's user, its address count and `loggedIn`, with the dashboard request carrying the new token; the login invariant is kept |
| DdepApi.Client.GenerateAlias | src/ddep/api.rs:117-128 | the access token as bearer; the reply's `address` string exactly when the reply decodes and holds one; changes no field |
| Config.Merged | src/lib.rs:19-30 | the tree `merge_configs` leaves in `a`: two objects merged key by key, recursively, a missing entry starting as `Null`; otherwise `b` |
| Config.Entry | src/lib.rs:23 | the existing entry, or `Null` for a missing key |
| Config.MergeConfigs | src/lib.rs:19-30 | the loop over `b`'s entries with recursive merges computes the merge |
| Config.MergedKeys | src/lib.rs:21-24 | merging two objects gives an object with the keys of both |
| Config.UntouchedKept | src/lib.rs:21-24 | keys of `a` that `b` lacks keep their values |
| Config.NonObjectReplaced | src/lib.rs:26-28 | unless both are objects, `a` becomes exactly `b` |
| Config.NewKeyCopied | src/lib.rs:23 | a key new to `a` ends holding `b`'s value, through the inserted `Null` |
| Config.LeafEntryCopied | src/lib.rs:23-28 | an entry where either side is not an object ends holding `b`'s value |
| Config.LeavesWin | src/lib.rs:19-29 | every non-object value at a path through `b` is at the same path after the merge |
| Config.SelfMerge | src/lib.rs:19-29 | a tree merged into itself is unchanged |
| Config.MergeIdempotent | src/lib.rs:19-29 | merging the same tree twice equals merging it once |
| Config.EmptyObjectIdentity | src/lib.rs:21-24 | merging an empty object into an object changes nothing |
| Email.FoldBodies | src/email.rs:50-61 | the fold appends the plain-text bodies, in order, to what it started with |
| Email.BodyOf | src/email.rs:47-62 | a plain-text message's own body, else the plain-text bodies of its direct subparts in order |
| Email.ToEmail | src/email.rs:42-69 | sender and subject kept, text as above |
| Email.PlainBodiesSingle | src/email.rs:53-60 | with one plain-text part the text is its body |
| Email.NoPlainBodies | src/email.rs:53-60 | with no plain-text part the text is empty |
| Email.PlainBodiesConcat | src/email.rs:53-60 | the text of consecutive runs of parts is their texts in order |
| Email.AlternativeBody | src/email.rs:47-61 | a multipart message of plain text and HTML has the plain text as text |
| Email.NestedPlainTextIgnored | src/email.rs:50-61 | plain text nested below a non-plain subpart is not found |
| Email.UsualContentTypes | src/email.rs:55 | "text/plain; charset=utf-8" is plain text; the multipart and HTML types are not |
| Email.SplitOn | src/email.rs:151 | at least one piece, none holding the separator |
| Email.JoinSplit | src/email.rs:151 | joining the pieces gives the string back |
| Email.SplitCount | src/email.rs:151-152 | one piece more than there are separators |
| Email.SplitJoin | src/email.rs:151 | splitting undoes joining pieces free of the separator |
| Email.SplitFree | src/email.rs:151 | a string without the separator is one piece |
| Email.ParseU16 | src/email.rs:156 | a value exactly for an optional '+' and at least one digit denoting at most 65535, and then the value those digits denote, with or without the '+' |
| Email.PortOutOfRange | src/email.rs:156 | "65536" is not a port |
| Email.SplitSmtp | src/email.rs:150-158 | a format error unless there is exactly one ':'; then the host before it and the port after it, or a port error |
| Email.SmtpRoundTrip | src/email.rs:150-158 | a host without ':' and a port up to 65535, written as "host:port", read back unchanged |
| Email.SmtpWithoutPort | src/email.rs:152-153 | a setting without ':' is a format error |
| Email.SmtpWithTwoPorts | src/email.rs:152-153 | a setting with two ':' is a format error |
| Email.SmtpPortOutOfRange | src/email.rs:156 | a port of 65536 is a port error |
| Email.SmtpErrorText | src/email.rs:152-156 | the message of a format error; a port error stands for the `ParseIntError` |
| Email.SmtpErrorTextsDiffer | src/email.rs:152-156 | the two errors have different texts |
| Email.IsUtf8 | src/email.rs:107 | `str::from_utf8` succeeds: the bytes are a run of well-formed sequences |
| Email.SequenceLengthPrefix | src/email.rs:107 | the length of the first sequence depends on its own bytes only |
| Email.Utf8Concat | src/email.rs:107 | UTF-8 followed by UTF-8 is UTF-8 |
| Email.Utf8SequenceLength | src/email.rs:107 | the well-formed UTF-8 sequence at the front, per RFC 3629 section 4, never longer than the input |
| Email.AsciiIsUtf8 | src/email.rs:107 | ASCII bytes are UTF-8 |
| Email.NotUtf8 | src/email.rs:107 | overlong and lone continuation bytes are refused; a three-byte sequence is accepted |
| Email.KeptConcat | src/email.rs:103-113 | what the fold keeps of two runs of messages is what it keeps of each, in order |
| Email.KeptLength | src/email.rs:103-113 | never more messages than ids; as many exactly when all are UTF-8 |
| Email.KeepUtf8 | src/email.rs:103-113 | the loop keeps, parsed and in order, exactly the UTF-8 messages |
| Email.FetchEmail | src/email.rs:93-116 | a bad server setting or a failed session is reported; otherwise the kept messages |
| Email.FetchUntil | src/email.rs:118-147 | at least one attempt; success exactly with the first non-empty result, which is returned; failed or empty attempts before it came while the clock was below the timeout; a timeout only after an attempt that found nothing with a reading at or beyond the timeout; one log line per failed attempt, then "Timeout reached"; all attempts but the last came less than the timeout after the first, at least one period apart |
| Email.ElapsedGrows | src/email.rs:139-145 | a strictly advancing clock has read at least `k` by the `k`-th check |
| Email.AttemptsSpaced | src/email.rs:145 | with readings at least one sleep period apart, the `k`-th comes at least `k` periods after the first |
| Email.AttemptsBounded | src/email.rs:127-146 | the attempts made before the timeout span less than the timeout, so a positive period bounds their number |

## Left out

- Network and HTTP: reqwest, the header maps, the User-Agent, Origin and Referer constants and the URLs are not modelled; each reply is an input, and each request is returned as endpoint, query and bearer.
- JSON decoding by serde is an input: a reply body either decoded to the record or did not.
- DdepApi.Client.GenerateAlias: a reply whose `address` is not a string is an error here; the source panics in `unwrap`.
- DdepApi.NormalizeOtp: a link without "otp=" is an error here; the source panics in `unwrap`.
- IMAP, TLS, logging in, selecting the inbox and searching are one abstract session outcome; the `unwrap`s on fetching each message, which panic, are not modelled.
- The message ids come from a set in the IMAP crate, so their order is unspecified; the fold keeps the order in which the fetched messages are given.
- mailparse is not modelled: a message is given as its From and Subject values and its MIME tree with decoded bodies; a missing header or a body that fails to decode, which panic, are not modelled.
- Printing (each fetched message, errors) is not modelled, except the lines the polling loop prints, which it returns.
- Email.SmtpErrorText: the text of a port error is not the exact `ParseIntError` message, which depends on the kind of failure.
- Email.FetchUntil: time is abstract naturals; `Instant`, the f64 period and `tokio::sleep` are replaced by clock readings that advance by at least the period and strictly, which also makes the loop end; cancellation is not modelled.
- Config.MergeConfigs: returns the merged tree instead of updating `a` through `&mut`; the two agree because nothing else refers to `a`.
- Config.Value: JSON numbers are integers; floating point is not modelled.
- Reading and saving configuration files (`Config::read`, `Config::save`) and YAML are not modelled.
- The command line (src/main.rs) and opening the browser (src/utils.rs) are not part of this model.
- Unicode in the regex classes: `\w` and `\s` stand for their ASCII members only.
