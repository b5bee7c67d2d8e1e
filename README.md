# bindhole in Dafny

bindhole turns public domain blacklists into a DNS Response Policy Zone
(RPZ), written as an `nsupdate` script. Each blacklist source is read
through a parser:

- `simple`: one domain per line, with `#` comments.
- `ip_skipper`: hosts-file lines of the form `0.0.0.0 <domain>`, where
  reserved names such as `localhost` are skipped.

A parser delivers normalized domains one `Read` call at a time. The zone
writer removes duplicates and writes one `update add <domain>.bindholerpz
CNAME .` line per new domain. After the preamble (server, TTL, zone) it
also writes a `send` line every ten records.

This project models that core and proves properties of it. The modules
follow the Go package `blacklist`:

- `Wrappers`: `Option` and `Result`.
- `Text`: the ASCII behaviour of the `strings`/`bytes` functions the core
  calls, such as `TrimSpace`, `ToLower`, `TrimRight`, `Cut` and `%d`.
- `Domain`: `domain.go`. The validity regular expression is written as a
  grammar and proved equal to a label-by-label description, and
  `normalizeDomain` is proved to produce canonical domains.
- `Config`: `config.go`. Covers the parser names,
  `filterMapInvalidBlacklists` (a loop proved against a filter-map
  specification) and the config path.
- `Reader`: `reader.go`. The two readers are classes over a byte stream.
  Each `Read` is proved against `NextRecord`, a pure description of "the
  next record line". Reading to the end yields exactly the tokens of the
  processed lines, in order, as long as every domain fits the caller's
  buffer. A longer domain is consumed and reported with ErrBufferTooSmall. The stream-level definitions take the
  per-line function as a parameter (`SimpleToken` or `IPSkipperToken`,
  chosen by `Parser`), so they hold for both readers at once.
- `Rpz`: `rpz.go`. An `RPZFile` class holding the written text, the dedup
  set, the counter and bufio's sticky error. A ghost log of accepted hosts
  ties them together.
- `Pipeline`: a reader feeding a fresh zone file, when every domain fits
  the caller's buffer and no write fails. Each source domain then gets
  exactly one record line, and only valid, lower-case domains appear. A
  longer domain makes Read return ErrBufferTooSmall and a failed write
  makes BlacklistHost return ErrWritingToFile; both stop the run.

The stream is `Stream(data, end)`. `end` is either end of file or a read
failure, and every read past the data returns it again. Whether the
operating system fails to open, write, flush or close the file is a
parameter of the operation it affects. Like `bufio.Writer`, the model
stays failed after its first write failure.

Three points of the Go writer are easy to get wrong, and the model follows
the code:

- `send\n` is written right after the record line of the 11th, 21st, …
  host, in the same write (blacklist/rpz.go:52-58).
- `Close` writes no text. It only flushes and closes the file
  (blacklist/rpz.go:71-86).
- The counter goes up only after a successful write. A host whose write
  failed stays in the set, so later submissions of it are skipped
  (blacklist/rpz.go:50, 58-67).

## Model

| member | source | states |
|---|---|---|
| Domain.IsValidDomain | blacklist/domain.go:13-21 | isValidDomain's regular expression as a grammar. A matching name is at least three characters long and starts with a label character; ValidIffLabels gives its exact label-by-label meaning |
| Domain.DottedIffAllLabels | blacklist/domain.go:13 | The grammar's dotted part holds exactly when every piece of the text split at dots is a non-empty run of letters, digits and hyphens |
| Domain.ValidIffLabels | blacklist/domain.go:13-21 | A name is valid exactly when, after removing at most one final dot, it splits at dots into two or more labels |
| Domain.JoinSplit | blacklist/domain.go:13 | Splitting at dots and joining with dots gives the text back, so the label view loses nothing |
| Domain.SplitManyIffDot | blacklist/domain.go:13 | There is more than one piece exactly when the text contains a dot |
| Domain.ValidStartsAndEndsWithLabelChar | blacklist/domain.go:13 | A valid name starts with a label character; without its final dot it is still valid and ends in a label character |
| Domain.SameShapeValid | blacklist/domain.go:13 | Validity depends only on which positions are label characters and which are dots, which is why the `(?i)` flag makes the check case-blind |
| Domain.ToLowerValid | blacklist/domain.go:51 | Lower-casing keeps a name valid or invalid |
| Domain.LocalhostInvalid | blacklist/domain.go:13 | `localhost` is rejected (a single label without dots) |
| Domain.DottedQuadsValid | blacklist/domain.go:13 | `0.0.0.0` and `127.0.0.1` match the expression |
| Domain.TrailingDotValid | blacklist/domain.go:13 | One final dot is accepted (`example.com.`) |
| Domain.DoubleTrailingDotInvalid | blacklist/domain.go:13 | Two final dots are rejected (`example.com..`) |
| Domain.NormalizeDomain | blacklist/domain.go:41-53 | normalizeDomain: trim, validate, strip the final dot and lower-case, with "" for an invalid name. Its meaning is stated by the lemmas below (NormalizeEmptyIffInvalid, NormalizeValid, NormalizeIsDomain, NormalizeLength) |
| Domain.NormalizeEmptyIffInvalid | blacklist/domain.go:41-53 | normalizeDomain returns "" exactly when the trimmed input is not valid |
| Domain.NormalizeValid | blacklist/domain.go:41-53 | For a valid trimmed input, the result is that input without its final dot, lower-cased |
| Domain.NormalizeIsDomain | blacklist/domain.go:41-53 | A non-empty result is valid, has no final dot and has no upper-case letter |
| Domain.NormalizeOfTrimSpace | blacklist/domain.go:43 | Normalizing trims first, so trimming a line before normalizing it gives the same result |
| Domain.NormalizeLength | blacklist/domain.go:41-53 | A non-empty result is the trimmed input lower-cased: one character shorter, without the dot, when that input ends in a dot, and of the same length otherwise |
| Domain.NormalizeOfDomain | blacklist/domain.go:41-53 | A name that is already canonical is returned unchanged |
| Domain.NormalizeIdempotent | blacklist/domain.go:41-53 | Normalizing twice is normalizing once |
| Domain.NormalizeExample | blacklist/domain.go:41-53 | `"  Example.COM.  "` normalizes to `example.com` |
| Domain.NormalizeProseExample | blacklist/domain.go:41-53 | `"not a domain"` normalizes to "" |
| Text.TrimSpace | blacklist/domain.go:43 | strings.TrimSpace / bytes.TrimSpace (also used at reader.go lines 47 and 98): never longer than the input, and the result neither starts nor ends with white space; TrimLeftSpace, TrimRightSpace and TrimSpaceIsInfix give exactly what is removed |
| Text.HasPrefix | blacklist/reader.go:53 | strings/bytes.HasPrefix (also the `0.0.0.0 ` test at reader.go line 101): the text is at least as long as the prefix and starts with it; TrimPrefix's contract uses it for both cases |
| Text.HasSuffix | blacklist/config.go:93 | strings.HasSuffix: the text is at least as long as the suffix and ends with it; TrimSuffix's contract uses it for both cases |
| Text.TrimLeftSpace | blacklist/domain.go:43 | Drops exactly the leading ASCII white space: the result is a suffix, what was dropped is white space, and the result does not start with white space |
| Text.TrimRightSpace | blacklist/domain.go:43 | Drops exactly the trailing ASCII white space (the mirror image) |
| Text.TrimSpaceIsInfix | blacklist/domain.go:43 | The trimmed text is a contiguous slice of the input |
| Text.TrimSpaceIdempotent | blacklist/domain.go:43 | Trimming twice is trimming once, so normalizing an already trimmed line does not change it |
| Text.TrimLeftSpaceOfSpaces | blacklist/domain.go:43 | White space in front of a non-space character is exactly what is dropped on the left |
| Text.TrimRightSpaceOfSpaces | blacklist/domain.go:43 | White space after a non-space character is exactly what is dropped on the right |
| Text.TrimSpaceAppendSpace | blacklist/reader.go:47 | Appending a white-space character (such as the line's newline) does not change the trimmed text |
| Text.ToLower | blacklist/domain.go:51 | Same length; every character is lower-cased and nothing else changes |
| Text.ToLowerOfLower | blacklist/domain.go:51 | Text without upper-case letters is unchanged |
| Text.TrimRight | blacklist/domain.go:49 | Removes the longest run of the given character at the end: the result is a prefix, everything removed is that character, and the result does not end in it |
| Text.TrimPrefix | blacklist/reader.go:105 | With the prefix present, prefix + result is the input; otherwise the input is unchanged |
| Text.TrimSuffix | blacklist/config.go:93-95 | With the suffix present, result + suffix is the input; otherwise the input is unchanged |
| Text.CutBefore | blacklist/reader.go:111 | The part before the first separator: a prefix of the input without the separator, followed in the input by the separator when it is shorter |
| Text.IndexOf | blacklist/reader.go:36 | The index of the first occurrence, or the length when there is none |
| Text.ConcatAppend | blacklist/rpz.go:58 | Joining two sequences of written chunks is joining each and appending |
| Text.IntToDecimal | blacklist/rpz.go:31 | The `%d` of the port: a minus sign for a negative number, then the decimal digits; never empty, and NatToDecimalRoundTrip shows the digits read back as the number |
| Text.NatToDecimalRoundTrip | blacklist/rpz.go:31 | The `%d` digits of a number read back as that number, with no leading zero |
| Config.Admit | blacklist/config.go:60-77 | An entry is kept exactly when its URL parses and its parser is `simple` or `ip_skipper`; the kept entry has the parsed URL and the same reason, source and parser |
| Config.ValidBlacklists | blacklist/config.go:57-81 | The specification of filterMapInvalidBlacklists: the admitted entries, in input order. Every entry it keeps has a supported parser; ValidBlacklistsMembers and ValidBlacklistsLength state the rest |
| Config.FilterMapInvalidBlacklists | blacklist/config.go:57-81 | The loop returns exactly ValidBlacklists of its input: the admitted entries, in input order |
| Config.ValidBlacklistsAppend | blacklist/config.go:57-81 | Filtering a concatenation is concatenating the filtered parts, so each entry is judged on its own |
| Config.ValidBlacklistsLength | blacklist/config.go:57-81 | Never more entries than the input; when every entry is admissible, each output entry is its input entry with the parsed URL |
| Config.ValidBlacklistsMembers | blacklist/config.go:57-81 | An entry is in the output exactly when it is the admitted form of some input entry |
| Config.ConfigHome | blacklist/config.go:84-87 | The config home: XDG_CONFIG_HOME when it is set, even to "", and $HOME otherwise; GetBlacklistConfigPath's contract is stated in terms of it |
| Config.GetBlacklistConfigPath | blacklist/config.go:83-101 | Fails exactly when the config home (XDG_CONFIG_HOME when set, even to "", otherwise HOME) is empty; otherwise the path ends in `/bindhole/blacklists.toml`, and what precedes it is the config home with one final `/` removed |
| Config.EmptyXdgIsError | blacklist/config.go:84-91 | XDG_CONFIG_HOME set to "" is an error, whatever HOME is |
| Config.SlashedHomePath | blacklist/config.go:93-97 | A config home that ends in `/` loses exactly that one `/` before `/bindhole/blacklists.toml` is appended |
| Config.TrailingSlashExamples | blacklist/config.go:93-97 | `a//` gives `a/` followed by `/bindhole/blacklists.toml` (one slash removed), `/x/` gives `/x/bindhole/blacklists.toml`, and `/` gives `/bindhole/blacklists.toml` |
| Reader.ReadBytes | blacklist/reader.go:36 | bufio's ReadBytes('\n'): the next slice of the data, ending in its only newline; or the rest of the data together with the stream's end |
| Reader.Lines | blacklist/reader.go:36 | The lines that successive ReadBytes('\n') calls return. There are no more lines than characters, and there are none exactly when the text is empty; LinesPartition and LinesOfConcat give the exact split |
| Reader.Processed | blacklist/reader.go:38-45 | The lines whose text a Read goes on to examine: every line at end of file, and only the complete lines before a read failure. Never more lines than were read, and all of them at end of file |
| Reader.LinesPartition | blacklist/reader.go:36 | The lines joined are the data, and every line except the last ends in a newline |
| Reader.LinesOfConcat | blacklist/reader.go:36 | Splitting complete lines that were joined gives them back (the inverse of LinesPartition) |
| Reader.ProcessedComplete | blacklist/reader.go:38-45 | Complete lines are all processed, whether or not the stream fails after them |
| Reader.SimpleToken | blacklist/reader.go:47-61 | What one line yields in the simple Read. A yielded domain is non-empty and no longer than the trimmed line; SimpleTokenMeaning gives the exact cases |
| Reader.IPSkipperToken | blacklist/reader.go:98-123 | What one line yields in the hosts Read. A yielded domain is non-empty, and the trimmed line is longer by at least the eight characters of `0.0.0.0 `; IPSkipperTokenMeaning gives the exact cases |
| Reader.SimpleTokenMeaning | blacklist/reader.go:47-61 | A simple line yields nothing when its trimmed text starts with `#` or does not normalize, and yields its normalized domain otherwise |
| Reader.IPSkipperTokenMeaning | blacklist/reader.go:98-123 | A hosts line yields `d` exactly when its trimmed text starts with `0.0.0.0 `, the word after that is not one of the five reserved names, and that word normalizes to the non-empty `d` |
| Reader.FinalNewlineIrrelevant | blacklist/reader.go:36-47 | A line yields the same token with or without its newline |
| Reader.ReservedNeverYielded | blacklist/reader.go:113-117 | A line whose word is a reserved name yields nothing |
| Reader.UnprefixedYieldsNothing | blacklist/reader.go:100-103 | A line that does not start with `0.0.0.0 ` yields nothing |
| Reader.ReservedWithDotIsYielded | blacklist/reader.go:113-119 | `0.0.0.0 127.0.0.1.` yields `127.0.0.1`: the reserved list is compared before normalization removes the final dot |
| Reader.TokenNormalized | blacklist/reader.go:57-61 | Every yielded token is a canonical domain |
| Reader.NextRecord | blacklist/reader.go:35-69 | The next record found from a position ends strictly after it and within the data; when there is none, the result is the stream's end |
| Reader.NextRecordYieldsFirstToken | blacklist/reader.go:35-69 | The tokens of the processed lines from a position are the next record's domain, followed by the tokens after it; when there is no next record, there are none |
| Reader.Drain | blacklist/reader.go:34-70 | The domains that successive Reads return until the end is reported, when every domain fits the buffer. There is at most one domain per remaining byte |
| Reader.ReadAdvancesDrain | blacklist/reader.go:34-70 | For any buffer, one Read consumes the first domain left to drain, and what remains to drain afterwards is the rest. It hands that domain over when it fits and returns ErrBufferTooSmall when it does not. When nothing is left, the Read reports the stream's end |
| Reader.DrainIsFilterMap | blacklist/reader.go:34-131 | Draining yields exactly the tokens of the processed lines, in order. By ReadAdvancesDrain this is what calling Read until it reports the end returns when every domain fits the buffer. The processed lines are all lines at end of file, and only the complete ones before a read failure |
| Reader.DrainYieldsDomains | blacklist/reader.go:57-123 | Every domain a reader delivers is canonical |
| Reader.TokenIsDomain | blacklist/reader.go:57-61 | The next record's domain is canonical |
| Reader.Copy | blacklist/reader.go:63 | Go's copy: min(len(dst), len(src)) characters copied, and the rest of dst unchanged |
| Reader.IsLocalhost | blacklist/reader.go:113-117 | The scan over the reserved names finds the word exactly when it is one of them |
| Reader.ParseSimpleLine | blacklist/reader.go:47-61 | The per-line branches of the simple Read (blank line, `#` comment, invalid domain, normalized domain) compute exactly SimpleToken of the line |
| Reader.ParseHostsLine | blacklist/reader.go:98-123 | The per-line branches of the hosts Read (missing `0.0.0.0 ` prefix, empty rest, reserved word, invalid domain, normalized domain) compute exactly IPSkipperToken of the line |
| Reader.Hands | blacklist/reader.go:63-68 | What a Read leaves for a scan outcome. At the end: n = 0, the end's error, the buffer unchanged, the cursor at the end. For a domain that fits: n is its length, no error, the buffer starts with it and the rest is unchanged. For a longer domain: n = 0, ErrBufferTooSmall, the buffer holds the domain's first characters. In every case the record is consumed |
| Reader.Delivers | blacklist/reader.go:34-70 | One Read from a cursor: Hands applied to NextRecord from that cursor. Both Read contracts are stated with it, and ReadAdvancesDrain relates it to Drain |
| Reader.SimpleParsedReader.Read | blacklist/reader.go:34-70 | One Read delivers NextRecord from the current position. At the end it returns 0 and EOF or the read error. If the domain fits, it returns its length and the buffer starts with the domain (the rest unchanged). If not, it returns 0 and ErrBufferTooSmall, the buffer holds the domain's first characters, and the record is consumed |
| Reader.SimpleParsedReader.constructor | blacklist/reader.go:28-32 | A reader at the start of the stream |
| Reader.IPSkipperReader.Read | blacklist/reader.go:84-131 | The same contract for the hosts-file parser |
| Reader.IPSkipperReader.constructor | blacklist/reader.go:78-82 | A reader at the start of the stream |
| Reader.NewParsedReader | blacklist/reader.go:134-143 | `simple` and `ip_skipper` give a fresh reader of that kind at the start of the stream; any other name fails with `parser '<name>' not implemented` |
| Rpz.Header | blacklist/rpz.go:31 | The preamble: `server <server> <port>`, `ttl 600` and `zone bindholerpz`, each on its own line. NewRPZFile's contract states that a new writer holds exactly this text |
| Rpz.UpdateLine | blacklist/rpz.go:52 | The record line `update add <host>.bindholerpz CNAME .` with its newline; UpdateLineInjective shows distinct hosts get distinct lines, none of them a send line |
| Rpz.EntryText | blacklist/rpz.go:52-56 | The text written for a new host: its update line, followed by `send\n` when a positive multiple of 10 records precede it. RecordTextIsConcat, OneUpdateLinePerHost and SendLineCount state what the entries add up to |
| Rpz.RPZFile.Valid | blacklist/rpz.go:44-69 | The writer's invariant. The output is the header followed by the entries of the accepted hosts. The counter is their number, no host is accepted twice, and every accepted host is in the set. While no write has failed, the set holds exactly the accepted hosts. Every operation keeps it |
| Rpz.CounterIsSetSize | blacklist/rpz.go:44-69 | While no write has failed, the record counter equals the size of the dedup set |
| Rpz.RPZFile.constructor | blacklist/rpz.go:29-41 | The writer holds just the header, with an empty set and a zero counter |
| Rpz.NewRPZFile | blacklist/rpz.go:23-42 | On an open error, fails with the path and reason. On a header write error, fails. Otherwise a fresh, valid writer holding `server <server> <port>\nttl 600\nzone bindholerpz\n` |
| Rpz.RPZFile.WriteString | blacklist/rpz.go:58 | bufio's WriteString: appends the text unless this or an earlier write failed, and then stays failed |
| Rpz.RPZFile.Flush | blacklist/rpz.go:73-78 | bufio's Flush: succeeds unless this or an earlier operation failed; writes no text |
| Rpz.RPZFile.BlacklistHost | blacklist/rpz.go:44-69 | A known host: no change, no error. A new host joins the set. If the write fails, the text and counter stay unchanged and ErrWritingToFile is returned. Otherwise the update line is appended, followed by `send\n` when a positive multiple of 10 records precede it, and the counter grows by one. Keeps the output equal to header plus record lines of the duplicate-free accepted hosts, and while no write has failed the counter equals the size of the set |
| Rpz.RPZFile.AddHost | blacklist/rpz.go:50-68 | The new-host part of BlacklistHost: the host joins the set; a failed write leaves text, counter and log alone and returns ErrWritingToFile; a successful one appends the host's entry and advances counter and log |
| Rpz.ConsistentAfterAccept | blacklist/rpz.go:50-68 | Appending a new host's entry after a successful write keeps the writer's invariant: output is header plus record text, counter is the log's length, the log is duplicate-free and matches the set |
| Rpz.ConsistentAfterFailure | blacklist/rpz.go:50-60 | A failed write only adds the host to the set, and the invariant still holds with the writer now failed |
| Rpz.RPZFile.Close | blacklist/rpz.go:71-87 | Writes no text. A flush error is reported as the last-send error when the counter is a positive multiple of 10, and as the flush error otherwise; with no flush error, a close error is reported |
| Rpz.SendLineCount | blacklist/rpz.go:54-56 | After n ≥ 1 accepted hosts, the record lines hold (n - 1) div 10 send lines |
| Rpz.TwentyFiveRecordsTwoSends | blacklist/rpz.go:54-56 | 25 accepted hosts give exactly two send lines |
| Rpz.OneUpdateLinePerHost | blacklist/rpz.go:45-52 | For duplicate-free accepted hosts, each has exactly one update line and no other host has one |
| Rpz.RecordTextIsConcat | blacklist/rpz.go:52-58 | The record text the writer keeps is the concatenation of the record lines, one update line per host plus the send lines |
| Rpz.DistinctPairwise | blacklist/rpz.go:45-50 | The set-based dedup leaves a log in which no two positions hold the same host |
| Rpz.UpdateLineInjective | blacklist/rpz.go:52 | Distinct hosts have distinct update lines, and no update line is a send line |
| Rpz.Accept | blacklist/rpz.go:45-50 | The dedup check as a log: a host already accepted leaves the log alone, a new one is appended; AcceptSpec states what it keeps |
| Rpz.AcceptAll | blacklist/rpz.go:45-50 | Submitting hosts one after another, as a run does across its sources; AcceptAllSpec, AcceptAllRepeat and AcceptAllAppend state its properties |
| Rpz.AcceptSpec | blacklist/rpz.go:45-50 | One submission keeps the log duplicate-free, keeps its earlier entries, and adds exactly the submitted host |
| Rpz.AcceptAllSpec | blacklist/rpz.go:45-50 | Submitting hosts keeps the log duplicate-free, leaves earlier entries where they were, and the log holds exactly the hosts seen |
| Rpz.AcceptAllRepeat | blacklist/rpz.go:45-48 | Submitting a host that was already accepted changes nothing |
| Rpz.AcceptAllAppend | blacklist/rpz.go:45-50 | Submitting one source and then another is submitting their concatenation, so the set persists across sources |
| Pipeline.OneRecordPerSourceDomain | blacklist/rpz.go:44-69 | After draining a source into a fresh zone file, each domain of its processed lines has exactly one record line, and no other name has one |
| Pipeline.WrittenHostsAreDomains | blacklist/rpz.go:52 | Every host written to the zone is a canonical domain |
| Pipeline.RepeatedLineWrittenOnce | blacklist/rpz.go:45-48 | A source made of one blacklisted line twice gives one accepted host and one record line (the general case is OneRecordPerSourceDomain and AcceptAllRepeat) |

## Left out

- main.go is not part of this model. It covers argument parsing, fetching each source over HTTP and the driving loop over sources. `Rpz.AcceptAllAppend` and `Pipeline` state what that loop does with the readers and the writer when every domain fits its buffer and no write fails; the loop stops the run at the first Read or write error, and that stop is not modelled.
- `validateDomainByResolvingIt` (blacklist/domain.go:25-37): it queries DNS, which is outside the model.
- `loadConfigFile` and `GetBlacklistsFromConfig` (blacklist/config.go:42-55, 103-112): they read and decode TOML. `FilterMapInvalidBlacklists` takes the decoded entries as its input.
- Config.Admit: `url.ParseRequestURI` is a parameter (`parse`). The model does not capture which URLs Go accepts.
- Config.GetBlacklistConfigPath: the environment lookups are its inputs: XDG_CONFIG_HOME as an `Option` (set or not), and HOME as a string that is "" when unset.
- Logging (the `log.Printf` calls): the messages have no effect on results.
- The commented-out wildcard record (blacklist/rpz.go:62-65) is not code.
- Unicode: the model works on ASCII text. White space is the six ASCII space characters, and case folding covers only A-Z. This gives two differences on non-ASCII input:
  - Go's `(?i)[a-z0-9-]` also matches U+212A KELVIN SIGN and U+017F LONG S, which fold to `k` and `s`. So Go accepts `"\u212A.com"` and writes it as `k.com`, and it writes `"\u017F.com"` into the zone as non-ASCII text. The model's `IsLabelChar` rejects both.
  - Go's `TrimSpace` also strips Unicode white space such as U+0085, U+00A0, U+1680, U+2000 to U+200A, U+2028, U+2029, U+202F, U+205F and U+3000. So Go yields `example.com` from the line `"\u00A0example.com"`, while the model keeps the U+00A0 and rejects the line.
- bufio internals: buffer sizes, and the point at which buffered text reaches the file. The model's `output` is everything handed to the writer, in order.
- Rpz.RPZFile.WriteString: a failed write appends nothing. In Go, a failing bufio write can leave part of the text in the file.
- Reader.ReadBytes: a read failure is an `end` that every later read returns again. This is assumed of the inner reader; a real reader could succeed again after failing.
- Rpz.NewRPZFile: the port is an unbounded integer, printed in decimal with a minus sign when negative. Go's `int` is 64 bits wide.
- Reader.IPSkipperReader.Read: the per-line branches sit in the method `ParseHostsLine` (and, for the simple reader, `ParseSimpleLine`), whose `None` result is each of the Go code's `continue`s. The labelled `continue readloop` over the reserved names is the method `IsLocalhost` there. The branches are the same.
- Rpz.RPZFile.BlacklistHost: the part after the dedup check is the method `AddHost`, which the Go code writes inline.
- The error values are constructors of `ReadError`, `RpzError` and `ConfigError`. They are not Go's wrapped error strings, except the `NewParsedReader` message, which is kept verbatim.
