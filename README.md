# UDP requests processor — a verified model

This project models the request handling of the UDP counter daemon
`python/udp_requests_processor/udp_requests_processor.py`. Clients send ASCII
datagrams of the form `id=[<digits>];name=[<text>]`; the daemon keeps a table
`ids_dict` from id to a record `{name, count}` and answers
`id=[<id>];name=[<name>];count=[<count>]`, or the fixed string
`Error occurred on message processing` when the request cannot be answered.
The main loop queues every datagram for the worker threads until the datagram
`Dear server please die` arrives.

Modules (one file each):

- `Wrappers` (`wrappers.dfy`): `Option` and `Result`.
- `Decimal` (`decimal.dfy`): `int()` on a string of ASCII digits and the `%i`
  conversion, with Python's unbounded integers as `nat`.
- `Message` (`message.dfy`): the request pattern
  `id=\[([\d]*)\];name=\[(.*)\]` as `re.match` applies it (anchored at the
  start only, `.` never matching a newline, the greedy `.*` taking the longest
  name), the parse into `(id, name)`, the reply format and a decoder for it.
  `Matches` and `GreedyMatch` are a reference definition of what the pattern
  matches; the matcher `Match` is proved to report exactly the greedy match.
- `Counter` (`counter.dfy`): the effect of one request on the table (`Step`) and
  of a sequence of requests handled one after another (`Run`), with the
  per-request rules and the counting property as lemmas.
- `Daemon` (`daemon.dfy`): the class `RequestsProcessor` holding the table as a
  `map` field that `Process` updates in place, `Serve` draining the queue, the
  main `ReceiveLoop` that stops at the die message, and `RunDaemon` composing
  them.

Two behaviours of the code are followed where its docstring says otherwise:

- A request whose id is known but whose name differs from the stored one is
  answered with the error, although the docstring example (lines 34-35) shows
  it answered with the new name. The count is incremented before the names are
  compared, so the failed request is still counted and the stored name stays.
- The 10-character limit on names is not enforced: the pattern that would
  enforce it (line 100) is commented out, so names of any length without a
  newline are accepted.

The repository also holds a series-parallel reduction engine for cable
networks; it is not part of this model (see "## Left out").

## Model

| member | source | states |
|---|---|---|
| `Decimal.Value` | python/udp_requests_processor/udp_requests_processor.py:106 | the number `int()` reads from a string of digits; `FormatValue` and `ZeroPrefix` state its contract: it inverts `%i` on canonical numerals and ignores leading zeros |
| `Decimal.ParseInt` | python/udp_requests_processor/udp_requests_processor.py:106 | `int()` of the id digits fails exactly on the empty string; otherwise it gives their decimal value, which `%i` writes back as the digits without leading zeros |
| `Decimal.Format` | python/udp_requests_processor/udp_requests_processor.py:124-126 | `%i` writes a canonical numeral (digits only, no leading zero) that reads back as the same number |
| `Decimal.StripZeros` | python/udp_requests_processor/udp_requests_processor.py:106 | removing leading zeros from a numeral leaves a canonical numeral |
| `Decimal.LeadingDigitPositive` | python/udp_requests_processor/udp_requests_processor.py:106 | a numeral whose first digit is not zero denotes at least 1 |
| `Decimal.FormatValue` | python/udp_requests_processor/udp_requests_processor.py:124 | formatting the value of a canonical numeral gives that numeral back |
| `Decimal.ZeroPrefix` | python/udp_requests_processor/udp_requests_processor.py:106 | a leading zero does not change the value `int()` reads |
| `Decimal.FormatStripsZeros` | python/udp_requests_processor/udp_requests_processor.py:106-124 | the id echoed in a reply is the request's digits without leading zeros, so `id=[007]` and `id=[7]` are one id, answered as `id=[7]` |
| `Message.LeadingDigits` | python/udp_requests_processor/udp_requests_processor.py:98 | `[\d]*` takes the whole run of ASCII digits and stops before a non-digit |
| `Message.LineLength` | python/udp_requests_processor/udp_requests_processor.py:98 | `.` covers exactly the characters before the first newline |
| `Message.LastClose` | python/udp_requests_processor/udp_requests_processor.py:98 | the position found is a `]` with no `]` after it, and none is found only when there is no `]` |
| `Message.LeadingDigitsOf` | python/udp_requests_processor/udp_requests_processor.py:98 | digits followed by a non-digit are read as exactly those digits |
| `Message.TrailingDigitsOf` | python/udp_requests_processor/udp_requests_processor.py:124-126 | digits preceded by a non-digit at the end of a reply are exactly the count |
| `Message.MatchNameSound` | python/udp_requests_processor/udp_requests_processor.py:98 | the name group contains no newline and is followed by `]` |
| `Message.MatchNameComplete` | python/udp_requests_processor/udp_requests_processor.py:98 | any newline-free text followed by `]` is a prefix of the name group, which is at least as long (greedy `.*`) |
| `Message.MatchComplete` | python/udp_requests_processor/udp_requests_processor.py:98-102 | whenever the pattern matches a prefix, a match is reported, with the same digits and a name at least as long |
| `Message.Match` | python/udp_requests_processor/udp_requests_processor.py:98-102 | `re.match` of the request pattern: every match it reports is a prefix of the datagram of the form `id=[<digits>];name=[<name>]` with digits and a newline-free name; `MatchCorrect` states that it is exactly the greedy match |
| `Message.MatchCorrect` | python/udp_requests_processor/udp_requests_processor.py:98-104 | the match fails exactly when no prefix fits the pattern, and reports groups `(d, name)` exactly when they form the greedy match |
| `Message.Parse` | python/udp_requests_processor/udp_requests_processor.py:98-107 | a request is rejected as malformed exactly when the pattern does not match and as having an empty id exactly when the id group is empty; an accepted request keeps the name group, and its id is written back as the id digits without leading zeros |
| `Message.ParseCorrect` | python/udp_requests_processor/udp_requests_processor.py:98-107 | a datagram is rejected as malformed exactly when the pattern matches no prefix; with the greedy match, an empty id fails in `int('')` and otherwise the request is `(value of digits, name)` |
| `Message.Reply` | python/udp_requests_processor/udp_requests_processor.py:124-126 | the reply `id=[%i];name=[%s];count=[%i]`; `DecodeReplyInverse` states its contract: the reply determines its id, name and count |
| `Message.DecodeTailInverse` | python/udp_requests_processor/udp_requests_processor.py:124-126 | the name and count of a reply are recovered from its end, whatever characters the name holds |
| `Message.DecodeReplyInverse` | python/udp_requests_processor/udp_requests_processor.py:124-126 | a reply `id=[%i];name=[%s];count=[%i]` determines its id, name and count |
| `Message.ReplyText` | python/udp_requests_processor/udp_requests_processor.py:124-136 | the datagram sent decodes to the reply fields on success and decodes to nothing for the fixed error string |
| `Counter.Step` | python/udp_requests_processor/udp_requests_processor.py:102-126 | one request keeps every count at least 1, succeeds only if it parses, and a success reports the stored name and count of its id |
| `Counter.Apply` | python/udp_requests_processor/udp_requests_processor.py:110-126 | a failed parse leaves the table and reports its error; otherwise only the request's id gains a record (with the request's name) or one more count, no stored name changes, and the reply succeeds exactly when the stored name equals the request's, carrying the stored name and new count |
| `Counter.RejectedChangesNothing` | python/udp_requests_processor/udp_requests_processor.py:102-136 | a datagram the pattern does not match gets the error string and leaves the table unchanged |
| `Counter.EmptyIdChangesNothing` | python/udp_requests_processor/udp_requests_processor.py:106-136 | `id=[]` gets the error string and leaves the table unchanged |
| `Counter.ParseGreedy` | python/udp_requests_processor/udp_requests_processor.py:102-107 | the greedy match with a non-empty id parses to the value of its digits and its name group |
| `Counter.ReplyEchoesId` | python/udp_requests_processor/udp_requests_processor.py:124-126 | a success reply begins `id=[` followed by the request's id digits stripped of leading zeros |
| `Counter.NewId` | python/udp_requests_processor/udp_requests_processor.py:120-126 | an unseen id is recorded with its name and count 1, and the reply is `id=[<canonical id>];name=[<name>];count=[1]` |
| `Counter.KnownId` | python/udp_requests_processor/udp_requests_processor.py:110-126 | a known id's count goes up by exactly 1 and its name stays; the reply carries the new count when the names agree and is the error string when they differ |
| `Counter.StepFrame` | python/udp_requests_processor/udp_requests_processor.py:110-121 | a request never removes a record, renames one or lowers a count, and leaves every record but its own id's untouched |
| `Counter.Run` | python/udp_requests_processor/udp_requests_processor.py:86-136 | requests handled one after another, one outcome per request; `RunCounts` states its contract: each id's count grows by exactly its number of well-formed requests |
| `Counter.RequestsFirstName` | python/udp_requests_processor/udp_requests_processor.py:110-121 | some request carries id `i` exactly when there is a first such request |
| `Counter.RunCounts` | python/udp_requests_processor/udp_requests_processor.py:110-121 | over any sequence of requests an id's count grows by exactly the number of well-formed requests with that id, and its name is the stored one or else that of its first request |
| `Counter.CountsTrackRequests` | python/udp_requests_processor/udp_requests_processor.py:28-31 | from an empty table, each id's count is the total number of well-formed requests sent with that id |
| `Daemon.DiePosition` | python/udp_requests_processor/udp_requests_processor.py:175-182 | the position of the first die message, with no die message before it |
| `Daemon.RequestsProcessor.constructor` | python/udp_requests_processor/udp_requests_processor.py:156 | the table starts empty |
| `Daemon.RequestsProcessor.Process` | python/udp_requests_processor/udp_requests_processor.py:95-136 | the in-place update of `ids_dict` and the outcome are those of `Counter.Step`, and every count stays at least 1 |
| `Daemon.RequestsProcessor.Serve` | python/udp_requests_processor/udp_requests_processor.py:86-136 | draining the queue leaves the table and the outcomes of `Counter.Run` |
| `Daemon.ReceiveLoop` | python/udp_requests_processor/udp_requests_processor.py:175-185 | exactly the datagrams before the first die message are queued, once each and in arrival order; the die message is never queued and stops the loop |
| `Daemon.RunDaemon` | python/udp_requests_processor/udp_requests_processor.py:155-185 | with every queued request handled before shutdown, one at a time in queue order, the server answers the queued datagrams as `Counter.Run` does from an empty table, every recorded count is at least 1, and each id's final count is the number of well-formed queued requests with that id |

## Left out

- The five worker threads, the `Queue`, and their unlocked sharing of `ids_dict`: requests are handled one at a time in queue order, so races between workers are not modelled.
- Sockets, client addresses, `print`, and reading the port from `sys.argv`: the model works on the datagram text and returns the outcome; the text sent is `Message.ReplyText`.
- The 1024-byte limit of `recvfrom`: datagrams are taken as received, of any length.
- Datagrams are sequences of characters rather than bytes; the only character the pattern's `.` refuses is the newline, as for Python 2 byte strings.
- The `request is None` check (line 92): the main loop never queues `None`.
- The `old_name is None` test (line 113): the name group always takes part in a match, so the stored name is never `None` and the test is plain inequality.
- An exception raised by `sendto` or `print` after a successful update, which would make the worker send the error string as well: that is transport behaviour.
- `Daemon.RunDaemon`: the model handles every queued request before the die message is acted on, while in the source the workers are daemon threads (line 166), so requests still in `requests_pool` or being handled when the main loop breaks (line 182) and the socket closes (line 187) may never be answered.
- `Daemon.ReceiveLoop`: the source loops forever; the model receives a finite sequence of datagrams and also stops when it is exhausted.
- `python/cable optimizer/cable_optimizer.py` and its test `python/cable optimizer/cable_optimizer_test.py` are not part of this model: the series-parallel reduction engine shares no code or data with the daemon.
- `python/dircleaner.py`, `python/dircleanertest.py`, `c++/sensors_and_messages.cpp` and the socket load client `udp_requests_processor_test.py` are not part of this model: they are filesystem I/O, a thread simulation and a test client without assertions.
