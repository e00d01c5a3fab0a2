# Auction monitor: a verified model

The program watches one lot on vakantieveilingen.nl until its auction has a
winner, then records that winner in `output/<name>.csv`. It works in three
steps:

- `get_lot_details(url)` fetches the lot's page. It takes the lot id from the
  first `"activeLotId":"<digits>"` marker. It takes the expiry from the first
  `"tsExpires":"<stamp>"` marker, removes the colons, parses it with
  `strptime("%Y-%m-%dT%H%M%S%z")` and converts it to epoch seconds.
- `update_lot(lot_id, url)` posts one status request to the bidding API. A
  status other than 200, or a non-empty `errors` list, is logged and nothing is
  returned. Otherwise it returns the winner flag, the number of bids and a
  `lastbid` dict. That dict holds the newest bid's names and price, or `None`,
  `None`, `0` when there is no bid.
- The inner polling loop builds a status URL that holds a millisecond stamp.
  It calls `update_lot` and then does one of two things. With a winner, it
  appends `msts,first,last,bid,bidcount` to the CSV file, after a header line
  when the file is new, and stops. Nothing in the row is quoted or escaped, so
  a comma in a name adds a column and a newline in a name adds a line. Otherwise it sleeps for `endts - nowts`
  seconds and polls again. `nowts` is read once at startup, so every sleep
  has that same length.

`update_lot` never returns `None` for the top bid itself. On an empty bid
history it returns the placeholder dict `{first_name: None, last_name: None,
bid: 0}` (main.py:75-86). When `update_lot` itself returns `None`, unpacking
it at main.py:126 raises `TypeError`. The `except` at main.py:159-161 logs it
and raises it again, so the process ends; the model gives this as
`Crashed(NoStatus)`.

The Dafny modules follow that structure:

- `Text`: decimal text, `str`/`int` round trips, `",".join` and `split`, `re.sub` deletions.
- `Calendar`: proleptic Gregorian ordinals and epoch seconds, as `datetime` computes them.
- `Expiry`: `strptime` with this one format, including the backtracking order
  in which `re.match` tries each directive's alternatives. Also the form in
  which the page writes a stamp.
- `LotDetails`: `get_lot_details` on a fetched page. The leftmost-match
  searches, the digit extraction and the expiry conversion are modelled, and
  every way the function raises becomes a `LotError`.
- `BidStatus`: `update_lot` on a decoded reply, with the logging calls it makes.
- `ResultLog`: the CSV row and the result file. The file is a class whose
  lines the append method updates in place. Written text becomes lines by
  splitting at its newlines.
- `Monitor`: the polling loop, as an imperative method proved against a
  function that gives its outcome and its trace of polls and sleeps.

## Model

| member | source | states |
|---|---|---|
| LotDetails.GetLotDetails | main.py:12-33 | A non-200 page status is reported as that status, and only then |
| LotDetails.MissingMarkers | main.py:15-28 | With status 200, the lot id error happens exactly when no lot id marker exists anywhere. The expiry marker error happens exactly when a lot id marker exists and no expiry marker does |
| LotDetails.LotIdIsFirstRun | main.py:19-22 | On success, a lot id marker exists, and the id is the decimal value of the digits inside the leftmost one |
| LotDetails.StripMarker | main.py:22 | Deleting every non-digit from a lot id match leaves exactly the digits between the quotes |
| LotDetails.Search | main.py:19 | `re.search` gives the leftmost position where the marker matches, and None only when no position matches |
| LotDetails.SearchFindsFirst | main.py:19 | A marker at `i` with none before it is what the search returns |
| LotDetails.RunLength | main.py:19 | `[0-9]+` and `[0-9\-T:\+]+` take the longest run of their class: every character in the run belongs to it, and the next one does not |
| LotDetails.MarkerAtMeans | main.py:19 | A marker matches at `i` if and only if its run, taken greedily, is closed by a quote. Any run length that closes the match is the greedy one |
| LotDetails.RunLengthIs | main.py:19 | A class run that ends the text or a non-class character is the longest run |
| LotDetails.MatchText | main.py:19 | `.group()` is the marker's opening, its run and its closing quote |
| LotDetails.LotIdRun | main.py:19-22 | The lot id run is at least one digit, and the match text is the opening, that run and the quote |
| LotDetails.SearchToken | main.py:28 | `[0-9]+[0-9\-T:\+]+` is searched leftmost-first: no earlier position can start it, and None means none can |
| LotDetails.TokenSearchSkips | main.py:28 | The token search passes over positions without a digit and stops at the first one that can start a token |
| LotDetails.TokenText | main.py:28 | The token is the text of `m` from `j`, at least two stamp characters starting with a digit, and it ends where the stamp characters from `j` end |
| LotDetails.TokenGroups | main.py:28 | `[0-9]+` takes the longest digit run, or one digit less when that run is the whole token, and `[0-9\-T:\+]+` takes the rest, at least one character |
| LotDetails.ExpiryOf | main.py:28-31 | The token error happens exactly when no position can start a token. Any other failure is a parse failure |
| LotDetails.LotIdAt | main.py:22 | `int(re.sub(...))` of the match is the decimal value of the digits between the marker's quotes |
| LotDetails.ExpiryIn | main.py:24-31 | Reading the expiry never reports a page status error or a missing lot id |
| LotDetails.ExpiryNeverMissing | main.py:28-31 | Converting an expiry match fails only with a token or stamp error, never with a missing marker or a page status |
| LotDetails.CompactAfterColons | main.py:31 | Deleting the colons from stamp characters leaves text on the parser's alphabet |
| LotDetails.FormattedExpiry | main.py:25-31 | For a valid stamp, the expiry match the page writes converts to that stamp's epoch seconds |
| LotDetails.ExpiryExample | main.py:25-31 | `2022-06-01T10:00:00+0200` converts to 1654070400 |
| LotDetails.PageWithMarkers | main.py:12-33 | A 200 page whose leftmost markers are a digit run and a formatted valid stamp yields that run's value and that stamp's epoch seconds |
| LotDetails.BodyRun | main.py:25 | Stamp characters closed by a quote are exactly the run the marker takes |
| Expiry.FirstMatch | main.py:31 | A match from directive `i` has one text per remaining directive, plus the offset |
| Expiry.TryAlternatives | main.py:31 | Trying directive `i`'s alternatives in order gives a match with one text per remaining directive, plus the offset |
| Expiry.TryAlternativesComplete | main.py:31 | When alternative `b` of a directive matches and the rest of the pattern matches after it, trying the alternatives in order from any earlier one finds a match |
| Expiry.FirstMatchComplete | main.py:31 | When some alternative of directive `i` matches and the rest of the pattern matches after it, `re.match` from directive `i` finds a match |
| Expiry.OffsetSeconds | main.py:31 | A positive offset is written with `+`, and a negative one with `-` |
| Expiry.TimestampMonotonic | main.py:31 | At the same offset, a later local date and time gives a larger `.timestamp()` |
| Expiry.Strptime | main.py:31 | A parse that does not raise gives a date `datetime` accepts, a time within range and an offset within one day |
| Expiry.StrptimeSound | main.py:31 | Any text that parses is spelled out completely by the directives' fields and a `%z` offset, and the stamp holds the fields' decimal values and the offset's seconds |
| Expiry.OffsetAt | main.py:31 | `%z` captures only a sign followed by four or six digits, taken from the text at the match position |
| Expiry.FirstMatchSound | main.py:31 | Every match `re.match` finds spells the matched text field by field. Each field is a legal text for its directive and the last is an offset |
| Expiry.MatchCompactForm | main.py:31 | On a formatted valid stamp without colons, the first match in backtracking order takes each field at its place and consumes the whole text |
| Expiry.StampRoundTrip | main.py:31 | Removing the colons from a valid stamp's page form and parsing it with strptime gives that stamp back |
| Expiry.FormatWithoutColons | main.py:31 | Removing the colons from the page form gives the compact form, field by field |
| Expiry.OffsetText | main.py:31 | The written offset is a `%z` text that denotes the same number of seconds |
| Expiry.ExampleStamp | main.py:31 | 2022-06-01 10:00 at +02:00 is valid, is written `2022-06-01T10:00:00+0200`, and has timestamp 1654070400 |
| Expiry.Pad2 | main.py:31 | Two digits whose decimal value is the number |
| Expiry.Pad4 | main.py:31 | Four digits whose decimal value is the number |
| Calendar.DaysBeforeYearCounts | main.py:31 | The closed-form count of days before a year equals the sum of the lengths of the years before it |
| Calendar.DaysBeforeMonthCounts | main.py:31 | The month table equals the sum of the lengths of the months before it |
| Calendar.NextDayOrdinal | main.py:31 | Consecutive calendar days have consecutive ordinals |
| Calendar.OrdinalMonotonic | main.py:31 | A later valid date has a larger ordinal |
| Calendar.DayOfYearBounds | main.py:31 | A valid date's day of the year lies between 1 and the length of its year |
| Calendar.OrdinalInYear | main.py:31 | A valid date's ordinal lies after every day of the earlier years and within its own year |
| Calendar.EpochSecondsNextDay | main.py:31 | The same local time on the next calendar day is 86400 seconds later |
| Calendar.UnixEpochIsZero | main.py:31 | 1970-01-01T00:00:00+00:00 is second 0, and the next day is second 86400 |
| BidStatus.UpdateLot | main.py:61-89 | Nothing is returned exactly when the status is not 200 or there are errors, and exactly then at least two logging calls are made. A returned snapshot logs nothing, and its top bid has exactly the keys `lastbid` is created with |
| BidStatus.ErrorsAreLogged | main.py:64-68 | With errors, nothing is returned. `"Got errors:"` is logged first, then `logging.info(code, description)` is called for each error in order: one call more than there are errors |
| BidStatus.BadStatusIsLogged | main.py:87-89 | A bad status logs that status and then the text, and nothing is returned |
| BidStatus.ErrorEntries | main.py:67-68 | One `logging.info(code, description)` call per error, in order |
| BidStatus.SnapshotFromHistory | main.py:70-86 | The winner flag is copied, the count is the length of the history, and the top bid's names and price come from its first entry |
| BidStatus.EmptyHistoryPlaceholder | main.py:75-80 | An empty history gives count 0 and the placeholder top bid, with or without a winner |
| BidStatus.TopBid | main.py:75-84 | The top bid always has exactly the keys `first_name`, `last_name` and `bid` |
| BidStatus.NamesIffBids | main.py:80-84 | The top bid holds names if and only if the history is not empty |
| BidStatus.BidKeysTruthy | main.py:151 | A dict with those three keys has three entries, so `elif topbid` always holds |
| ResultLog.ResultFile.AppendRow | main.py:134-148 | The file's new lines are the old lines, or the header when the file did not exist, followed by the lines of the row |
| ResultLog.WithRow | main.py:134-148 | The lines before the row are kept. The row adds one line more than it has newlines, and those lines join back into the row. A row without a newline becomes the last line |
| ResultLog.HeaderOnlyOnCreate | main.py:134-148 | When no name and no bid holds a newline, recording a row adds a header line only to a file that did not exist |
| ResultLog.RowIsOneLine | main.py:142-148 | When no name and no bid holds a newline, neither does the row |
| ResultLog.NamesCanForgeHeader | main.py:141-148 | With the header split at a comma into `t` and `f`, a first name `"\n" + t` and a last name `f + "\n"` (such as `"\nTimestamp"` and `"firstName,lastName,bid,bidcount\n"`) make the row three lines. The middle line is the header, so an existing file gains a second header |
| ResultLog.RowRoundTrip | main.py:142-148 | When the names and the bid contain no comma, splitting the row at commas gives back the five fields. The first and last read back as the stamp and the count |
| ResultLog.CommaInNameSplitsRow | main.py:142-148 | A first name with one comma splits into two columns, so the row reads back as six fields |
| ResultLog.RowIsNotHeader | main.py:138-148 | A row is never the header line |
| ResultLog.IntTextPlain | main.py:142 | The text of an integer holds no comma and no newline |
| ResultLog.RowFields | main.py:142-148 | A row has five fields |
| Text.IntTextRoundTrip | main.py:142 | Reading back `str(i)` gives `i` |
| Text.NatTextValue | main.py:142 | The decimal value of `str(n)` is `n` |
| Text.SplitJoin | main.py:142 | Splitting a join of comma-free fields at the separator gives the fields back |
| Text.JoinSplit | main.py:148 | Joining the pieces of a split at the separator gives the text back |
| Text.SplitCount | main.py:148 | A split has one piece more than the text has separators |
| Text.KeepDigits | main.py:22 | `re.sub(r"[^0-9]", "", s)` leaves only digits |
| Text.Without | main.py:31 | `re.sub(":", "", s)` leaves no colon, adds no character and makes nothing longer |
| Text.IntText | main.py:142 | `str(i)` is not empty and starts with a digit or a minus sign |
| ResultLog.PyText | main.py:142-148 | Of the `str()` texts in a row, only a string can hold a comma, and an integer reads back as itself |
| Text.KeepDigitsOf | main.py:22 | Deleting the non-digits leaves an all-digit text unchanged and empties a text without digits |
| Monitor.PollingShape | main.py:121-158 | Each reply is polled at most once, with at most one sleep after it. Every poll asks about the same lot at the same URL, and every sleep has the same length. Running out of replies means every reply was polled and slept on. A win comes from a reply that has a winner |
| Monitor.Cycle | main.py:116-158 | Failing to read the lot is the only way a cycle ends with `LotUnavailable`, and then nothing is polled. Otherwise every poll uses the lot's id and the URL of the startup stamp, and every sleep lasts from startup to the expiry |
| Monitor.StatusUrlInjective | main.py:125 | Different millisecond stamps give different status URLs |
| Monitor.LogAfter | main.py:128-150 | After a win the file exists and has one line more than the winner's row has newlines, plus the header when it is new. Without a win the file is exactly as it was |
| Monitor.PollUntilWinner | main.py:121-158 | The loop's outcome and its polls and sleeps are those of the polling function. A winner's top bid has its three keys, and the file afterwards has the winner's row appended only on a win |
| Monitor.RunCycle | main.py:116-158 | One auction cycle: read the lot from the page, then poll. The log changes only on a win |
| Monitor.PollLot | main.py:116-117 | A lot that cannot be read ends the cycle with that error and no polls. Otherwise the loop polls with the lot's id and expiry |
| Monitor.PollingTrace | main.py:121-158 | Each leading reply without a winner gives one poll and one sleep, all with the same URL and duration, and one more poll follows if a reply is left. That reply's winner, or a crash on None, is the outcome |
| Monitor.NeverGivesUp | main.py:151-158 | The `else` branch at line 156 is never reached |
| Monitor.NegativeSleepCrashes | main.py:155 | When the expiry precedes the startup time `nowts`, the sleep length is negative, and the first reply without a winner ends the loop with a crash in `time.sleep` |
| Monitor.WinAppendsOneRow | main.py:128-150 | A win keeps the earlier lines, or starts a new file with the header, and the lines it adds join back into the winner's row. When no name and no bid holds a newline, the row is the one added line |
| Monitor.Millis | main.py:124 | `int(nowts*1000)` truncates toward zero: it is within one millisecond of the time, on the zero side |
| Monitor.Fetched | main.py:61-86 | One result per reply. A result is None exactly when its reply has a bad status or errors. Every snapshot has the three keys, the reply's winner flag and its history's length |
| Monitor.FetchedHaveBidKeys | main.py:126 | Every snapshot that `update_lot` returns has its three keys |
| Monitor.Leading | main.py:123-155 | The count of leading replies without a winner: all before it wait, and the one at it does not |

## Left out

- HTTP requests, response decoding and request headers are not modelled. The
  page and the API replies are parameters, and the reply's JSON arrives
  already decoded into datatypes.
- Missing JSON keys (`errors`, `data`, `customer`, ...) raising `KeyError` are
  not modelled: every decoded reply has all its fields.
- Logging is modelled only as the entries `update_lot` emits. The `logging`
  calls of the main loop, the log file name and `basicConfig` (main.py:104-107)
  are left out.
- Time is integer microseconds. Float rounding in `nowts`, `int(nowts*1000)`
  and `timediff*60` is not modelled; `Millis` gives the truncation exactly on
  integers. `datetime.now()` becomes a parameter.
- `time.sleep` is an event in the trace. Its waiting is not modelled.
- Monitor.Polling: a sleep longer than about 292 years (the range of
  CPython's internal time type, about 9.2e9 seconds) raises `OverflowError`
  in `time.sleep`, and the model does not give it. The model gives such a
  sleep as an ordinary `Sleep` event. Its `NegativeSleep` crash also covers
  very negative lengths, for which Python raises `OverflowError` rather than
  `ValueError`.
- Only one cycle of the outer `while True` (main.py:112) is modelled, and
  `update_lot` results come as a finite sequence: running out of them ends the
  model with `OutOfReplies`.
- `sys.argv`, and deriving the name and output path from the URL
  (main.py:98-99), are left out. The result file is a class holding its lines,
  or nothing when it does not exist. Other files and directories are left
  out, and so are I/O errors.
- The `except`/`raise` of main.py:159-161 becomes the `Crashed` outcomes. The
  exception types are named, not modelled.
- Only the regular expressions this program uses are modelled, not a general
  engine. The `%z` alternatives with colons, fractions or `Z`, the `%d`
  alternative with a leading space, and the lower-case `t` cannot occur on the
  colon-free alphabet `[0-9\-T+]`, so they are left out.
- BidStatus.TopBid: prices are integers and customer names are strings. A
  float price, which `str()` writes as `120.5` or `120.0`, and a `null` name,
  which `str()` writes as `None`, are not modelled.
- BidStatus.ErrorEntries: the model records the call
  `logging.info(code, description)`, not the text it produces. Logging
  formats that text as `code % (description,)` only when a handler emits the
  record. Unless `code % (description,)` succeeds (for example, when the code
  holds exactly one `%s`), that formatting raises inside the handler, which
  reports the error on standard error. The entry then never reaches the log
  file.
- Python's limit on the number of digits `int()` converts is not modelled.
- LotDetails.GetLotDetails: its contract states only the page status case.
  Its other results are stated by LotDetails.MissingMarkers,
  LotDetails.LotIdIsFirstRun and LotDetails.PageWithMarkers.
- Expiry.Strptime: its own contract states only that the result is in range.
  Expiry.StrptimeSound states that any accepted text is read field by field,
  and Expiry.StampRoundTrip gives the value for the zero-padded form the page
  writes. No lemma gives the value for a particular text outside that form.
- ResultLog.HeaderOnlyOnCreate: stated only for names and a bid without a
  newline. With a newline, the row can write a line equal to the header into
  an existing file, as ResultLog.NamesCanForgeHeader shows.
