# Suricata event triage: a Dafny model

The analyzer follows Suricata's `eve.json` log. When the watched file changes, a
`LogHandler` reads it from its stored offset (`last_position`) to the end, one line
at a time. Each line is stripped and decoded as JSON. Lines that do not decode are
skipped. Each decoded event is qualified: it goes on only if one of its endpoints
(`src_ip`, `dest_ip`) is a *public* address. A qualifying event is projected onto a
fixed nine-field record and sent for analysis, and each answer is saved. When the
loop ends, the offset becomes the end of the file.

An address is public according to `is_public_ip`. Four rule layers are tried in a
fixed order, and the first that matches decides:

1. the organisation's own blocks (20.20.20.0/24, 192.168.0.0/16);
2. an exact-text list of fifteen well-known public DNS resolvers;
3. the reserved classification of CPython's `ipaddress` (`is_private or is_loopback or is_link_local`);
4. public by default.

Anything that is not an address is not public.

The address library modelled is CPython's from 3.9.5, which rejects octets with leading zeros, up to 3.12.3, the last release of that branch with the older private-network table. Security releases of older branches that took over the newer table are not covered.

The model has seven modules, one file each:

- `wrappers.dfy`: `Option`.
- `text.dfy`: Python's `str.split` on a character and `str.strip()`.
- `json.dfy`: the values `json.loads` produces and `dict.get`.
- `ipv4.dfy`: IPv4 addresses as the `ipaddress` module handles them.
  - A strict dotted-quad parser and the canonical printer, with their round trip.
  - CIDR membership (section 3.1 of RFC 4632).
  - The library's table of private networks (the IANA IPv4 Special-Purpose Address Registry, section 2.2.2 of RFC 6890), each entry proved equal to an explicit address range.
- `classifier.dfy`: `is_public_ip` (`Classifier.IsPublicIp`).
  - A value is first turned into an address as `ipaddress.ip_address` does it.
  - `Classifier.Decide` then names the rule layer that decides it.
- `qualifier.dfy`: the qualification and projection at the start of `analyze_event` (`Qualifier.Qualify`), and `analyze_event` itself (`Qualifier.AnalyzeEvent`). The analysis request is an abstract dispatcher that may fail.
- `tail.dfy`: the log cursor.
  - `Tail.Lines` splits a text into the lines Python's file iterator yields.
  - `Tail.Run` is the reference definition of the `for` loop: which results a pass saves and whether it reaches the end.
  - `Tail.LogHandler` is a class with the `lastPosition` offset and the sequence of saved results as fields. Its `ProcessNewEvents` runs `Consume`, a `while` loop over the lines proved against `Run`; the loop takes what becomes of each line as a parameter, and `ProcessNewEvents` passes `HandleLine` with the call's collaborators.

Where the code and the project's documented intent disagree, the model follows the code:

- The code does not hold back an unterminated last line. `last_position` becomes `tell()`, the end of the file, so a line caught mid-write is consumed as two fragments (`Tail.PartialLineSplit`).
- 203.0.113.9 is a documentation address, and the library counts it as private. So it is not public, and an event between it and 10.0.0.5 does not qualify (`Qualifier.DocumentationExampleEvent`).
- A line that decodes to a JSON value that is not an object makes `event.get` raise. Only `JSONDecodeError` is caught, so the exception leaves the loop and the offset stays at the call's starting offset. Results saved earlier in the same call stay saved (`Tail.RaiseStops`, `Tail.LogHandler.ProcessNewEvents`). Each later call, if one comes, reads again from that offset: each qualifying event before the bad line is dispatched and saved once more, and the call raises again (`Tail.StalledCallRepeats`).

## Model

| member | source | states |
|---|---|---|
| Classifier.IpAddress | suricata_analyzer.py:31 | `ipaddress.ip_address` on an event value; its properties are stated by `NonAddressesNeverPublic`, `BooleanExample` and `PublicExample` |
| Classifier.Decide | suricata_analyzer.py:32-36 | the rule layer that decides an address, first match wins; stated by `CustomBlocksNeverPublic`, `CustomBeforeReserved`, `ListedNeverPublic`, `ResolversNeverPublic` and `PublicAsRanges` |
| Classifier.IsPublicIp | suricata_analyzer.py:29-38 | `is_public_ip`; stated by `PublicDottedQuad`, `PublicAsRanges`, `NonAddressesNeverPublic` and the custom and resolver lemmas |
| Classifier.CustomRangesAsBlocks | suricata_analyzer.py:18-21 | an address is in one of the two custom networks exactly when it lies in 20.20.20.0–20.20.20.255 or 192.168.0.0–192.168.255.255 |
| Classifier.CustomBlocksNeverPublic | suricata_analyzer.py:32-33 | any value that parses to an address in a custom block is decided by the custom layer and is not public |
| Classifier.CustomBeforeReserved | suricata_analyzer.py:32-36 | 192.168.0.0/16 is also reserved, yet the custom layer, tried first, decides it |
| Classifier.CustomOnlyGuard | suricata_analyzer.py:32-36 | 20.20.20.0/24 is neither reserved nor a listed resolver, so only the custom layer keeps it from being public |
| Classifier.ResolverMembership | suricata_analyzer.py:23-27 | the canonical text of an address is in the resolver list exactly when the address is one of the fifteen listed addresses |
| Classifier.ResolversNeverPublic | suricata_analyzer.py:34-35 | every listed resolver text parses to its address, which is outside the custom blocks and every reserved range, and it is the resolver layer that makes it not public |
| Classifier.ListedNeverPublic | suricata_analyzer.py:34-35 | a listed text that parses to an address outside the custom blocks is decided by the resolver layer and is not public |
| Classifier.PublicDottedQuad | suricata_analyzer.py:31-36 | for a text that parses as IPv4, public exactly when it is outside the custom blocks, not in the resolver list, and not private, loopback or link-local |
| Classifier.NonAddressesNeverPublic | suricata_analyzer.py:30-38 | texts that are no IPv4 address and hold no colon, integers outside [0, 2^128), null, floats, arrays and objects parse to no address and are not public (fail closed, no exception) |
| Classifier.EmptyTextNeverPublic | suricata_analyzer.py:37-38 | the empty text, the default of a missing endpoint, is not public |
| Classifier.ReservedNeverPublic | suricata_analyzer.py:36 | a reserved IPv4 address is never public, whichever layer decides it |
| Classifier.PublicAsRanges | suricata_analyzer.py:29-38 | reference definition on ranges: an IPv4 address is public exactly when it is outside 20.20.20.0/24, not a listed resolver, and outside each of the thirteen ranges the fourteen reserved table entries cover (255.255.255.255/32 lies inside 240.0.0.0/4), 192.168.0.0/16 among them |
| Classifier.ResolverExample | suricata_analyzer.py:34-35 | "8.8.8.8" is not public |
| Classifier.CustomExamples | suricata_analyzer.py:32-33 | "192.168.1.5" and "20.20.20.7" are not public |
| Classifier.PrivateUseExample | suricata_analyzer.py:36 | "10.0.0.5" is not public |
| Classifier.DocumentationExample | suricata_analyzer.py:36 | "203.0.113.9" is not public |
| Classifier.BooleanExample | suricata_analyzer.py:31 | the JSON value `true` is the integer 1, the address 0.0.0.1, which is reserved and so not public |
| Classifier.PublicExample | suricata_analyzer.py:36 | "93.184.216.34", as text and as the integer it stands for, is public |
| Ipv4.Parse | suricata_analyzer.py:31 | `IPv4Address` on a text: exactly four strict decimal octets; stated by `OctetCanonical`, `Canonical` and `RoundTrip` |
| Ipv4.Format | suricata_analyzer.py:34 | `str(ip)`; stated by `RoundTrip`, `Canonical` and `FormatInjective` |
| Ipv4.Contains | suricata_analyzer.py:32 | `ip in network`; stated by `ContainsRange` |
| Ipv4.IsPrivate | suricata_analyzer.py:36 | `ip.is_private` over the library's table; stated by `PrivateAsRanges` |
| Ipv4.OctetRoundTrip | suricata_analyzer.py:31 | every octet printed in decimal parses back to itself |
| Ipv4.OctetCanonical | suricata_analyzer.py:31 | an octet text that parses is the canonical decimal form of its value (no leading zero, at most 255) |
| Ipv4.RoundTrip | suricata_analyzer.py:34 | `str(ip)` parses back to `ip` |
| Ipv4.Canonical | suricata_analyzer.py:34 | a text that parses is exactly `str` of its address, so the resolver list is compared against the event's own text |
| Ipv4.FormatInjective | suricata_analyzer.py:34 | two addresses print the same exactly when they are equal |
| Ipv4.ContainsRange | suricata_analyzer.py:32 | `ip in network` holds exactly when the address lies between the network base and base plus 2^(32 - prefix length) |
| Ipv4.PrivateAsRanges | suricata_analyzer.py:36 | `is_private` holds exactly when the address lies in one of the thirteen explicit ranges the fourteen table entries cover |
| Ipv4.LoopbackAndLinkLocalArePrivate | suricata_analyzer.py:36 | loopback (127/8) and link-local (169.254/16) addresses are private too |
| Text.Split | suricata_analyzer.py:31 | `str.split('.')` as the address parser uses it: never empty, no piece holds the separator; `JoinSplit` and `SplitJoin` make it the inverse of joining |
| Text.Strip | suricata_analyzer.py:100 | `str.strip()`, used on each line and (line 80) on each answer; stated by `StripEnds`, `TrimStart`, `TrimEnd` and `BlankStrips` |
| Text.StripEnds | suricata_analyzer.py:80 | the stripped text is a slice of the input with no whitespace at either end |
| Text.TrimStart | suricata_analyzer.py:100 | the result is the longest suffix that does not start with whitespace: only whitespace was removed |
| Text.TrimEnd | suricata_analyzer.py:100 | the result is the longest prefix that does not end with whitespace: only whitespace was removed |
| Text.BlankStrips | suricata_analyzer.py:100 | a line of whitespace strips to the empty text |
| Qualifier.Project | suricata_analyzer.py:47-57 | the nine-field record; stated by `ProjectionFields` and `ProjectToMap` |
| Qualifier.Qualify | suricata_analyzer.py:41-57 | `None` unless an endpoint is public, else the record; stated by `QualifiesIffPublicEndpoint` and `ProjectionKeepsEndpoints` |
| Qualifier.AnalyzeEvent | suricata_analyzer.py:40-84 | `analyze_event` with the request as a dispatcher; stated by `NoDispatchUnlessQualified` and `ResultOfQualified` |
| Qualifier.QualifiesIffPublicEndpoint | suricata_analyzer.py:41-45 | an event qualifies exactly when it has a `src_ip` or a `dest_ip` whose value is public; a missing endpoint never makes it qualify |
| Qualifier.NoDispatchUnlessQualified | suricata_analyzer.py:41-45 | with no public endpoint the answer is `None` whatever the dispatcher would do |
| Qualifier.ResultOfQualified | suricata_analyzer.py:41-81 | every result carries the event's projection (so `ProjectionFields` gives all nine fields), whose endpoints are the values read from the event and at least one of them public; it exists only when the request answered, and its analysis is a slice of that answer with no whitespace at either end |
| Qualifier.FailedRequestGivesNone | suricata_analyzer.py:69-84 | a failed analysis request gives `None`, even for a qualifying event |
| Qualifier.ProjectionFields | suricata_analyzer.py:47-57 | the record has exactly the nine keys, each holding the event's value when present, `{}` for a missing `alert` and `""` for any other missing key |
| Qualifier.ProjectionKeepsEndpoints | suricata_analyzer.py:41-57 | the record's endpoints are the very values classified, and at least one of them is public |
| Qualifier.ProjectToMap | suricata_analyzer.py:47-57 | projecting a record's own dictionary gives the record back |
| Qualifier.ResolverToCustomExample | suricata_analyzer.py:41-45 | `{"src_ip": "8.8.8.8", "dest_ip": "192.168.1.5"}` does not qualify |
| Qualifier.DocumentationExampleEvent | suricata_analyzer.py:41-45 | `{"src_ip": "203.0.113.9", "dest_ip": "10.0.0.5"}` does not qualify |
| Qualifier.PublicExampleEvent | suricata_analyzer.py:41-57 | `{"src_ip": "93.184.216.34", "dest_ip": "10.0.0.5"}` qualifies, keeps its source address and takes the defaults for `alert` and `timestamp` |
| Qualifier.NoEndpointsExample | suricata_analyzer.py:41-45 | an event without `src_ip` and `dest_ip` never qualifies |
| Tail.Lines | suricata_analyzer.py:98 | the lines `for line in log_file` yields; stated by `LinesCover`, `LinesShape` and `LinesAppend` |
| Tail.HandleLine | suricata_analyzer.py:99-105 | strip, decode, analyze and save one line, or raise at `event.get` for a non-object; stated by `HandleLineOutcomes`, `BlankLineSkipped` and, through `Run`, by the loop lemmas |
| Tail.HandleLineOutcomes | suricata_analyzer.py:99-105 | a line is skipped exactly when it does not decode, raises exactly when it decodes to something other than an object, and is saved exactly when it decodes to an object that `analyze_event` answers |
| Tail.Run | suricata_analyzer.py:98-105 | reference definition of the loop; stated by `RunAppend`, `CompletedIffNoRaise`, `SkippedLineInvisible`, `RaiseStops` and `SavedFromLines` |
| Tail.LineEnd | suricata_analyzer.py:98 | the first line ends at the first newline, inclusive, or at the end of the text |
| Tail.LineEndUnique | suricata_analyzer.py:98 | those bounds determine the end of the first line |
| Tail.LinesCover | suricata_analyzer.py:96-98 | the lines put together give back the text read, an unterminated last line included |
| Tail.LinesShape | suricata_analyzer.py:98 | each line is non-empty, holds a newline only at its end, and every line but the last ends in one |
| Tail.LinesAppend | suricata_analyzer.py:98 | text that ends at a line boundary splits into lines independently of what is appended after it |
| Tail.SingleLine | suricata_analyzer.py:98 | a text with no newline before its end is one line |
| Tail.PartialLineSplit | suricata_analyzer.py:96-106 | a line read in two parts comes out as two fragments, not one line |
| Tail.BlankLineSkipped | suricata_analyzer.py:99-105 | a blank line strips to `""`, which does not decode, so it is skipped |
| Tail.RunAppend | suricata_analyzer.py:98-105 | the pass over two stretches of lines is the pass over the first, continued over the second only if the first completed |
| Tail.CompletedIffNoRaise | suricata_analyzer.py:98-106 | a pass reaches the end exactly when no line raises |
| Tail.CompletesIffObjectsOnly | suricata_analyzer.py:98-106 | a pass reaches the end exactly when none of its lines decodes to a JSON value other than an object |
| Tail.SkippedLineInvisible | suricata_analyzer.py:104-105 | an undecodable line changes nothing: the lines after it are processed and saved as if it were absent |
| Tail.RaiseStops | suricata_analyzer.py:98-106 | the first line that raises ends the pass, keeping what the lines before it saved and looking at nothing after it |
| Tail.SavedFromLines | suricata_analyzer.py:98-103 | results are saved in file order, one per line that produced one: the k-th saved result comes from the line at position `SavedAt(..)[k]`, whose outcome was that very result; those positions strictly increase (so no line gives two results); and a pass that completed saved a result for every line that produced one |
| Tail.CallAdvances | suricata_analyzer.py:96-106 | a call never moves the offset back and never loses a saved result; a completed call ends at the end of the file, and one that raised leaves the offset where it was |
| Tail.ChainedCalls | suricata_analyzer.py:96-106 | when a file only grew and the first call stopped on a line boundary, the two calls read exactly the lines one call would have: nothing read twice, nothing missed |
| Tail.FindLineEnd | suricata_analyzer.py:98 | the scan stops after the first newline from the offset, or at the end of the file, which is where `LineEnd` puts it |
| Tail.LogHandler.constructor | suricata_analyzer.py:87-88 | a new handler follows the given path from offset 0 with nothing saved |
| Tail.LogHandler.ProcessNewEvents | suricata_analyzer.py:95-106 | the new offset and saved results are those of `Run` over the lines from the old offset: the end of the file and everything saved, or on a raise the old offset with the earlier results of the call kept; an offset past the end reads nothing |
| Tail.LogHandler.Consume | suricata_analyzer.py:96-106 | the loop from the stored offset: the new offset and saved results are those `Run` gives for the lines from the old offset, for any per-line outcome |
| Tail.LogHandler.OnModified | suricata_analyzer.py:91-93 | a change to any other path leaves the offset and the saved results unchanged; a change to the followed file is one `process_new_events` call |
| Tail.TwoCalls | suricata_analyzer.py:96-106 | over two calls on a growing file, each with its own collaborators, the offset never decreases and two completed calls end at the end of the file; after a completed first call the second saves what the appended text gives, after a raising one it reads again from the old offset; with the same collaborators and a line boundary, the two save what one call over both would have |
| Tail.StalledCallRepeats | suricata_analyzer.py:41-106 | after a call that raised, a second call on the same text raises again at the same offset and saves once more every result the lines before the bad one gave |
| Tail.FollowGrowth | suricata_analyzer.py:91-106 | the same for two successive calls on one handler, each with its own collaborators |

## Left out

- IPv6 is not modelled. `Classifier.Ipv6Oracle` stands for the library's IPv6 parser and its IPv6 reserved ranges. The custom blocks and the resolver list only ever match IPv4.
- The Groq client, the prompt text and the chat-completion call (suricata_analyzer.py:15, 59-84) are a foreign network call. They are the `dispatch` parameter: `None` for the catch-all `except` (the error is printed and nothing is saved), otherwise the text of the first answer.
- `json.loads` is the abstract `decode` collaborator: `None` stands for `JSONDecodeError`. Decoding is assumed deterministic.
- The analysis request is sampled (`temperature=0.5`) and may fail transiently. Each call of `process_new_events` gets collaborators of its own (`Tail.TwoCalls`, `Tail.FollowGrowth`), so a record can be answered differently, or fail, on another call. Within one call, though, `dispatch` is a function: two identical lines in the same call get the same answer.
- `save_result`'s formatting with `json.dumps`, and the timestamped output-file name (suricata_analyzer.py:89, 108-111), are file I/O. Each save is modelled as appending the result to the handler's `saved` sequence. A write failure is not modelled.
- The watchdog observer, the sleep loop and the KeyboardInterrupt handling (suricata_analyzer.py:122-132) are thread and event plumbing. Notifications are taken one at a time, as method calls.
- Reading the environment and the missing-configuration check in `main` (suricata_analyzer.py:11-13, 113-120) are process wiring. The followed path is the handler's `logPath`.
- The log file is the text it holds when a call runs. An offset counts characters.
  - Text-mode `tell()` cookies, decoding errors and universal-newline translation of `\r` and `\r\n` are not modelled. A line ends only at `\n`.
  - A file that changes during one call is not modelled.
- The model does not follow the `AttributeError` past `on_modified`. It escapes into the file watcher's dispatch thread, and whether any later notification arrives is up to that library. Monitoring may stop silently there; the model only says what a later call would do.
- Exceptions other than `JSONDecodeError` and the `AttributeError` of `.get` on a non-object are not modelled. That covers I/O errors when opening the file, a missing file, and memory errors.
- Ipv4.PrivateNetworks: follows the private-network table of CPython before 3.12.4. Later versions widen 192.0.0.0/29 to 192.0.0.0/24, with 192.0.0.9 and 192.0.0.10 as exceptions, so the addresses 192.0.0.8–192.0.0.255 other than those two and 192.0.0.170/171 are classified differently there.
