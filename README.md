# url_rew: a verified model of the redirector's rule engine

`url_rew.c` is a URL redirector helper for the Squid proxy. It reads a configuration
file of allow rules (`~ pattern`) and block rules (`pattern redirect`) into two
singly linked lists, `allow` and `block`. Then, for every request line Squid writes
to its standard input, it answers with either an empty line (pass) or the line
`redirect src_address ident method` (rewrite). Allow rules are searched first,
then block rules, each list in file order, and the first rule whose regular
expression matches the URL decides. A URL that no rule matches passes. With a log
file, every decision taken by a rule also writes one record, `pass <line> <url>` or
`deny <line> <url>`, naming the configuration line of that rule.

The model is split into modules that follow the program's structure:

- `Scanf` (scan.dfy): the C string a line buffer holds, which is its characters
  up to the first NUL (all that `strlen` and `sscanf` see), and the
  `%<width>s` conversions of C's `sscanf`. A `char` stands for one byte. Each conversion
  skips C-locale whitespace and stores at most `width` non-blank characters. A
  word longer than the width is cut, and its remainder is what the next conversion
  reads. Scanning stops at the first conversion that meets the end of the input.
- `Rules` (rules.dfy): the rule records, `regcomp`/`regexec`/`malloc` as the
  `Libc` value, the first-match search `Decide`, and the `%d` rendering of line
  numbers.
- `Matcher` (matcher.dfy): one request as `matchurl` handles it. This covers the four
  global field buffers, the `sscanf` of the request line, the reply and the log
  records.
- `Config` (config.dfy): how `readfile` classifies each configuration line, and
  the result of loading a whole file, as a fold over its lines.
- `Session` (session.dfy): the request loop of `main` as a map from input lines
  to output lines and log records.
- `UrlRew` (url_rew.dfy): the process state as the class `Redirector`. Its fields
  are the two lists, the four field buffers and the log. The functions of url_rew.c
  that change that state are its methods, and each is proved against the
  functions above.

`regcomp`, `regexec` and `malloc` are not modelled. They are the fields
`compiles`, `matches` and `allocates` of a `Libc` value that every operation takes.
The configuration file and the standard input are sequences of the lines `fgets`
returns. The log file is a sequence of records held in the `log` field.

Behaviours of the code worth knowing, all of which the model keeps:
- A request line with fewer than four words does not clear the fields it leaves
  unassigned. `sscanf` does not write them, so they keep the previous request's
  values, and a reply can echo an earlier request's address, ident and method
  (`Session.FullFirstLineForgets` shows when this cannot happen).
- A rule line needs two words, and any words after the second
  are ignored.
- A configuration line is skipped only when its length as a C string, terminator
  included, is at most one, or its very first character is `#`. A line made only
  of blanks and a newline is therefore a malformed deny rule and stops the load.
  A line that starts with a blank and then `#` is a deny rule whose pattern
  starts with `#`.
- A NUL byte ends a line for `strlen` and for `sscanf`. A configuration line
  that starts with NUL is skipped, and whatever follows a NUL in a rule or
  request line is never read.
- `~pattern`, with no blank after the marker, is a valid pass rule, because `%1s`
  takes the marker alone (`Config.ClassifyPassLine` with no blanks).
- `readfile` empties both lists before it reads the first line (url_rew.c:223),
  so a successful load holds only the new file's rules. Every error path frees
  the lists again before exiting (url_rew.c:242, 249, 260, 267), so a load that
  fails part-way leaves no rules.

## Model

| member | source | states |
|---|---|---|
| Scanf.CStringSpec | url_rew.c:227 | the C string of a buffer is its longest NUL-free start: what `strlen` measures and `sscanf` reads |
| Scanf.CStringAppend | url_rew.c:227 | a NUL-free start of a buffer is kept whole in its C string |
| Scanf.ScanWord | url_rew.c:132 | one `%<width>s` conversion: None on blank input, otherwise the stored word (at most `width` characters) and the input left for the next conversion |
| Scanf.Scan | url_rew.c:132 | the words a format of `%s` conversions assigns, one per conversion at most, in format order |
| Scanf.SkipSpaces | url_rew.c:132 | whitespace in front of the input changes nothing that the scan stores |
| Scanf.SpaceLengthSpec | url_rew.c:132 | a `%s` conversion skips exactly the leading run of C-locale whitespace, and the input after it starts with a non-blank |
| Scanf.WordLengthSpec | url_rew.c:132 | the characters a conversion stores hold no whitespace, and it stops before its width only at whitespace or the end of the input |
| Scanf.ScanWordBlank | url_rew.c:132 | a conversion fails exactly when only whitespace is left |
| Scanf.ScanWordStores | url_rew.c:132 | a conversion that succeeds stores a non-empty, blank-free word of at most `width` characters, and a word shorter than the width is followed by whitespace or the end of the input |
| Scanf.ScanWordSplits | url_rew.c:132 | the input of a conversion is the skipped blanks, then the stored word, then the rest left for the next conversion, so nothing is lost or reordered |
| Scanf.ScanBlank | url_rew.c:132 | `sscanf` assigns no field exactly when the line is blank |
| Scanf.ScanFits | url_rew.c:132 | every word `sscanf` stores is non-empty, blank-free and at most the width of its own conversion (255/255/255/31 for a request, 1/255 for a pass rule, 255/255 for a deny rule) |
| Scanf.ScanUnwords | url_rew.c:132 | round trip: words that fit their widths, joined by single blanks and followed by nothing or whitespace, are scanned back as exactly those words |
| Rules.FirstMatch | url_rew.c:134-141 | the index found is the first element the test accepts, and none is found only when no element is accepted |
| Rules.Decide | url_rew.c:134-153 | a URL is allowed exactly when some allow rule matches, and then by the first such rule; it is denied by the first matching block rule only when no allow rule matches; it is unmatched exactly when no rule of either list matches |
| Rules.Decimal | url_rew.c:167 | the `%d` text of a line number is a non-empty string of decimal digits with no leading zero |
| Rules.DecimalRoundTrip | url_rew.c:167 | the `%d` text of a line number reads back as that number |
| Matcher.Sscanf | url_rew.c:132 | the buffers after the request line's `sscanf` are `Parse` of the line and the previous buffers, and they stay within their sizes |
| Matcher.Parse | url_rew.c:132 | defines the fields after the request line's `sscanf`: the words scanned from its C string replace the first fields, and the fields not reached keep the previous request's values |
| Matcher.Store | url_rew.c:132 | the words converted are stored buffer by buffer in format order, and the buffers stay within their sizes |
| Matcher.Reply | url_rew.c:134-153 | the string `matchurl` returns; it is non-empty exactly when a block rule decided the URL |
| Matcher.Audit | url_rew.c:167-179 | the records `matchurl_log` writes: at most one, and none exactly when no rule matched |
| Matcher.ParseBounded | url_rew.c:132 | whatever line is read, url, src_address and ident stay within 255 characters and method within 31 |
| Matcher.ParseWellFormed | url_rew.c:132 | a request `url src ident method`, with NUL-free words that fit their buffers and nothing or whitespace after them, fills the four fields with exactly those words |
| Matcher.ParseFullLine | url_rew.c:132 | a line with four words leaves nothing of the previous request in the fields |
| Matcher.ParseBlankLine | url_rew.c:132 | a blank line assigns nothing, so the previous request's fields are matched again |
| Matcher.AllowWins | url_rew.c:134-141 | if any allow rule matches the URL, the reply is empty whatever the block rules say, and the one record logged is `pass <line> <url>` for the first matching allow rule, which is no later than the given one |
| Matcher.FirstBlockDecides | url_rew.c:143-152 | with no allow rule matching, the first matching block rule k gives the reply `redirect_k src_address ident method` and the one record `deny <line_k> <url>` |
| Matcher.ImplicitPass | url_rew.c:153 | a URL that no rule matches gets the empty reply and no log record |
| Matcher.EarlierRuleWins | url_rew.c:134-152 | of two rules of the same list that both match, the later one never decides |
| Matcher.AuditAgreesWithReply | url_rew.c:159-185 | exactly one log record is written when some rule matched and none otherwise; the reply is non-empty exactly when a block rule decided; a pass record names the deciding allow rule's line |
| Matcher.ReplyFits | url_rew.c:147-148 | a redirect reply is at most 799 characters, so with its NUL it fits the 800-byte `line` buffer that `sprintf` writes |
| Config.ClassifyLine | url_rew.c:226-262 | judged on the line's C string: it is skipped exactly when that is at most one character long or starts with `#`; a `~` line gives a pass rule whose pattern is the second word of `%1s%255s`; any other line gives a deny rule whose pattern and redirect are exactly the two words of `%255s %255s`; each word is blank-free and at most 255 characters; the line is malformed exactly when its `sscanf` yields fewer than two words |
| Config.PassKind | url_rew.c:237-253 | a `~` line is a pass rule exactly when `%1s%255s` yields two words, and the pattern is the second |
| Config.DenyKind | url_rew.c:255-262 | any other line is a deny rule exactly when `%255s %255s` yields two words, which are its pattern and redirect |
| Config.ClassifyPassLine | url_rew.c:237-253 | round trip: `~`, optional blanks, a NUL-free pattern of at most 255 characters and the line's end load as a pass rule with exactly that pattern |
| Config.ClassifyDenyLine | url_rew.c:255-269 | round trip: a NUL-free pattern not starting with `#` or `~`, blanks, a NUL-free redirect, each at most 255 characters, and the line's end load as a deny rule with exactly that pattern and redirect |
| Config.AddLine | url_rew.c:49-124 | what `add_allowurl` or `add_blockurl` does for one classified line, called at lines 247 and 265: a skipped line changes nothing; an accepted pass line appends `AllowRule(pattern, line)` to the allow list and an accepted deny line appends `BlockRule(pattern, redirect, line)` to the block list, leaving the other list as it was; it succeeds exactly when the line is accepted; an error names that line |
| Config.Kinds | url_rew.c:224-234 | the classification of every line of the file, one per line, in order |
| Config.Load | url_rew.c:223-269 | defines the rules after the first n lines, starting from the emptied lists: each line is added in turn, and the first error stops the load |
| Config.LoadSucceedsIff | url_rew.c:224-269 | a file loads exactly when every line is skipped or has its node allocated and its pattern compiled |
| Config.LoadCollectsRules | url_rew.c:224-269 | after a successful load, the allow list is exactly the pass lines and the block list exactly the deny lines, each in file order and numbered with its 1-based physical line, skipped lines counted |
| Config.LoadErrorSticks | url_rew.c:238-268 | once a line has failed, reading further lines changes neither the outcome nor the error |
| Config.LoadFailsAtFirstBadLine | url_rew.c:238-268 | a failed load reports the error of the first line that is not accepted, after all lines before it loaded |
| Config.PassLinesOrdered | url_rew.c:224-253 | allow rules carry line numbers among the lines read, in strictly increasing order |
| Config.DenyLinesOrdered | url_rew.c:255-269 | block rules carry line numbers among the lines read, in strictly increasing order |
| Config.KindsFit | url_rew.c:256 | every redirect read from a deny line fits the 256-byte `nurl` buffer and the node's `redir` |
| Config.LoadWellFormed | url_rew.c:236-269 | every rule a successful load keeps has a pattern that compiled and a redirect that fits its node |
| Session.Carried | url_rew.c:343-360 | defines the field buffers after a run of request lines, each line's `sscanf` applied to the fields the previous one left |
| Session.AuditTrail | url_rew.c:343-345 | defines the records the logging loop writes: each line's `Audit` in input order |
| Session.Responses | url_rew.c:358-360 | the request loop writes exactly one output line per input line |
| Session.NextLine | url_rew.c:358-360 | one more input line moves the fields on by that line's `sscanf`, and adds its reply to the output and its records to the log |
| Session.NextLoggedLine | url_rew.c:343-345 | after one `matchurl_log` call the fields are those carried through that line, the output has gained its reply and the log its records |
| Session.ResponseAt | url_rew.c:358-360 | the k-th output line is the reply to the fields as they stand after the k-th input line |
| Session.AuditTrailLength | url_rew.c:343-345 | the log gains at most one record per input line |
| Session.CarriedBounded | url_rew.c:15-18 | over a whole session the fields never outgrow their buffers |
| Session.FullFirstLineForgets | url_rew.c:132 | when the first request line has all four words, the fields of the session do not depend on anything before it |
| Session.FullFirstLineSameSession | url_rew.c:343-360 | hence such a session's whole output and log do not depend on the state before it either |
| UrlRew.Redirector.constructor | url_rew.c:15-24 | the process starts with both lists empty, all four field buffers empty and nothing logged |
| UrlRew.Redirector.AddBlockUrl | url_rew.c:49-86 | success exactly when the node is allocated and the pattern compiles; out of memory is reported before a bad pattern; on success the block list is the old list with the new rule, carrying its line and redirect, at the tail; nothing else changes |
| UrlRew.Redirector.AddAllowUrl | url_rew.c:89-124 | the same for the allow list: success exactly when allocation and compilation succeed, and then one new rule is appended at the tail with its line number |
| UrlRew.Redirector.FreeUrls | url_rew.c:188-202 | both lists are empty afterwards, and the field buffers and the log are untouched |
| UrlRew.Redirector.ReadLine | url_rew.c:226-269 | one pass of the `readfile` loop: the lists become those of `AddLine` applied to the classified line, or stay as they were with the same error |
| UrlRew.Redirector.ReadFile | url_rew.c:209-273 | a file that cannot be opened changes nothing; otherwise the lists become exactly the rules of the file as `Load` defines them, or are left empty with the error of the first bad line |
| UrlRew.Redirector.ScanRequest | url_rew.c:132 | the field buffers become `Parse` of the request line and their old values; the lists and the log are untouched |
| UrlRew.Redirector.Search | url_rew.c:134-153 | the two list walks find exactly the rule `Decide` names, changing nothing |
| UrlRew.Redirector.MatchUrl | url_rew.c:130-154 | the reply is `Reply` of the rules and of the fields as scanned, it fits the `line` buffer, and the lists and the log are unchanged |
| UrlRew.Redirector.MatchUrlLog | url_rew.c:159-185 | the same fields and the same reply as `MatchUrl`, and the log grows by exactly `Audit` of the URL |
| UrlRew.Redirector.Serve | url_rew.c:358-360 | the output is `Responses` of the input lines, the fields end as `Carried` through them, and the rules and the log are unchanged |
| UrlRew.Redirector.ServeLog | url_rew.c:343-345 | the same output and fields, and the log grows by exactly `AuditTrail` of the input lines |
| UrlRew.Redirector.Run | url_rew.c:313-365 | a load failure exits with failure before any input is answered, with nothing logged and the field buffers untouched; otherwise every input line is answered as `Responses` over the loaded rules, the fields end as `Carried` through the input, the log grows by their records when logging, the lists are freed and the exit status is success |

## Left out

- Argument handling and `helpmsg` (url_rew.c:276-311) are left out. `Run` takes the file's lines, or `None` when it cannot be opened, and a flag for whether a log file was given.
- `setvbuf`, `chdir`, and the opening and closing of the log file, with their failure exits (url_rew.c:316-341, 347-356), are left out. They are process setup and I/O.
- Writes to stdout and stderr are left out. The replies are returned as a sequence of lines, and the error messages are reduced to the `LoadError` value.
- `exit` is left out. A failure is a `Status` or exit code returned to the caller.
- `fgets` is left out. Its input is the sequence of chunks it returns, so a physical line of 800 bytes or more appears as several chunks, each counted as a line, as in the source.
- The internals of `regcomp` and `regexec` (POSIX extended, case-insensitive, no submatches) are left out. They are the `compiles` and `matches` fields of `Libc`.
- The globals `cur` and `ruc`, which the C code reuses as loop cursors, are replaced by a local index.
- The walk to the tail in `add_allowurl` and `add_blockurl` is a sequence append in the model. Sequences have no aliasing, so no node but the new one can change.
- `readfile` reads its lines through the global `line` buffer. The model does not share that buffer with the request loop, because `main` overwrites it before each request anyway.
- The `int` line counter of `readfile` is an unbounded `nat`, so its overflow after 2^31 - 1 lines is not modelled.
- `sscanf` returns EOF (-1) rather than 0 on a blank line. The model gives no words in both cases, and the callers only compare the count with 2.
- UrlRew.Redirector.AddAllowUrl: on a compile failure the C code has already linked a half-built node whose `next` is never set. The model leaves the list unchanged instead. Afterwards `readfile` only frees the list and exits, and the model does not follow the uninitialised `next` pointer that `freeurls` would walk.
- UrlRew.Redirector.AddBlockUrl: the same half-built node on a compile failure is not modelled, for the same reason.
