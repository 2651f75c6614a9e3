# FakeMailWatcher in Dafny

FakeMailWatcher polls a disposable inbox on fakemailgenerator.com. A
`MailWatcher` is created for a domain and a name, which fixes the inbox page it
polls. It is given a callback with `OnMailReceived`, and after `Start` a timer
fires every `Interval` milliseconds. On each tick the watcher loads the inbox
listing and reads each entry's sender and subject. Optionally it skips entries
whose sender address is not `SpecificFromEmail`. It extracts the message id from
the entry's link and skips ids it has already received. Otherwise it downloads
the body, builds an immutable `Mail`, appends it to `ReceivedMails` and hands it
to the callback. `Stop` disarms the timer, and `Dispose` releases everything.

The model has five modules.

- `Wrappers` (`wrappers.dfy`): `Option`. `None` stands for a C# `null`.
- `Mails` (`mail.dfy`): the `Mail` record, as a datatype. A datatype value cannot
  be updated, just as every property of the source record is get-only.
- `MailPatterns` (`patterns.dfy`): the two regular-expression extractions,
  modelled as scanners.
  - For the id pattern `\/inbox\/[^\/]+\/[^\/]+\/message-([^ \/]+)\/` and the
    sender pattern `[^<]+ &lt;([^>]+)&gt;`, a predicate says what a match is.
  - Lemmas prove that each scanner returns the capture group of the match the
    .NET engine selects: the leftmost start, then greedy quantifiers with
    backtracking.
  - Without a match the scanner returns "", which is what `Groups[1].Value` gives.
- `TickProcessing` (`processing.dfy`): the pass over the listing, as the function
  `Process`.
  - The mails received so far and the listing entries go in.
  - The new received list, the mails handed to the callback, the ids whose body was
    downloaded, and whether an exception ended the pass come out.
  - Lemmas state what a pass promises.
- `Watcher` (`watcher.dfy`): the `MailWatcher` class, with the source's fields.
  - Its methods `Start`, `Stop`, `SetInterval`, `OnMailReceived`,
    `SetSpecificFromEmail` and `Dispose` update them in place.
  - `Tick` is the timer callback. Its entry loop is proved to compute `Process`
    and to keep the invariant `Valid()`: the received list never holds two mails
    with the same id, as long as only the watcher changes it.

Behaviour of the code worth noting:

- A sender text that does not match the sender pattern does not abort the tick.
  The extracted address is "", so the entry is skipped only when a filter is set.
  Without a filter, it is delivered with an empty `From`.
- The `Interval` setter calls `_timer.Change(0, value)`. That arms the timer to fire
  at once, even when the watcher is not watching. It does not wait for the next tick.
- An href that does not match the id pattern gives the id "". Such an entry is
  still downloaded and delivered, once: a later entry with id "" is then a duplicate.

Exceptions that the source lets escape to the caller become `ok := false` results.
Whatever the source assigned before throwing stays assigned.

- After `Dispose`, `_timer` is null, so `Start` and the `Interval` setter throw a
  NullReferenceException. `Start` has already set `IsWatching` by then.
- `Timer.Change` with an argument below -1 throws ArgumentOutOfRangeException.

Exceptions inside a tick are swallowed by its `catch`. They become the end of the
pass, with the mails appended before it kept.

## Model

| member | source | states |
|---|---|---|
| Mails.ConstructionStoresFields | FakeMailWatcher/Mail.cs:14-20 | a constructed mail has exactly the given id, sender, subject and body |
| Mails.Mail | FakeMailWatcher/Mail.cs:3-20 | the mail record: four get-only strings, a value that cannot change after construction; what construction stores is stated by Mails.ConstructionStoresFields |
| MailPatterns.IdMatchIsPatternText | FakeMailWatcher/MailWatcher.cs:31 | a match of the id pattern at a position is exactly an occurrence there of "/inbox/" seg1 "/" seg2 "/message-" id "/", with segments free of '/' and the id free of '/' and ' ' |
| MailPatterns.ScanCapture | FakeMailWatcher/MailWatcher.cs:31 | whatever the scan of `([^ \/]+)\/` returns is a match of that piece |
| MailPatterns.ScanSecondSegment | FakeMailWatcher/MailWatcher.cs:31 | whatever the scan of `[^\/]+\/message-([^ \/]+)\/` returns is a match of that piece |
| MailPatterns.ScanFirstSegment | FakeMailWatcher/MailWatcher.cs:31 | whatever the scan of the two segments and the rest returns is a match of that piece |
| MailPatterns.IdMatchAt | FakeMailWatcher/MailWatcher.cs:31 | whatever the attempt at a fixed start returns is a match of the whole id pattern there |
| MailPatterns.ScanCaptureComplete | FakeMailWatcher/MailWatcher.cs:31 | every match of the capture piece is the one the scan returns |
| MailPatterns.ScanSecondSegmentComplete | FakeMailWatcher/MailWatcher.cs:31 | every match of the second-segment piece is the one the scan returns |
| MailPatterns.ScanFirstSegmentComplete | FakeMailWatcher/MailWatcher.cs:31 | every match of the first-segment piece is the one the scan returns |
| MailPatterns.IdMatchAtComplete | FakeMailWatcher/MailWatcher.cs:31 | every match of the id pattern at a start is the one the attempt there returns |
| MailPatterns.IdMatchDeterministic | FakeMailWatcher/MailWatcher.cs:31 | at a fixed start the id pattern has at most one match, so backtracking never changes the capture |
| MailPatterns.FirstIdMatch | FakeMailWatcher/MailWatcher.cs:123 | a found match is a real match of the id pattern at or after the search start |
| MailPatterns.FirstIdMatchIsLeftmost | FakeMailWatcher/MailWatcher.cs:123 | no match of the id pattern starts before the found one, and none at all when nothing is found |
| MailPatterns.ExtractIdIsLeftmostCapture | FakeMailWatcher/MailWatcher.cs:123 | the extracted id is "" exactly when the id pattern occurs nowhere in the href; otherwise it is the capture of the leftmost match |
| MailPatterns.ExtractIdShape | FakeMailWatcher/MailWatcher.cs:123 | the extracted id is "" or a non-empty token without '/' or ' ' such that "message-" + id + "/" occurs in the href |
| MailPatterns.ExtractId | FakeMailWatcher/MailWatcher.cs:123 | `Regex.Match(mailUrl, MailIdPattern).Groups[1].Value`; its contract is stated by MailPatterns.ExtractIdIsLeftmostCapture (the leftmost capture, or "" exactly without a match) and MailPatterns.ExtractIdShape |
| MailPatterns.LastCloseAt | FakeMailWatcher/MailWatcher.cs:32 | greedy `([^>]+)&gt;` backtracking: a found capture end is followed by "&gt;", and no later end within the run is |
| MailPatterns.CloseAfter | FakeMailWatcher/MailWatcher.cs:32 | a found capture after " &lt;" is non-empty, free of '>' and followed by "&gt;" |
| MailPatterns.LastOpenAt | FakeMailWatcher/MailWatcher.cs:32 | greedy `[^<]+` backtracking: whatever it returns is a match of the whole sender pattern from the given start |
| MailPatterns.FromMatchAt | FakeMailWatcher/MailWatcher.cs:32 | whatever the attempt at a fixed start returns is a match of the sender pattern there |
| MailPatterns.LastCloseAtIsLargest | FakeMailWatcher/MailWatcher.cs:32 | the backtracking capture end is at least that of any capture followed by "&gt;" |
| MailPatterns.CloseAfterComplete | FakeMailWatcher/MailWatcher.cs:32 | for a name end that admits a match, the capture found is the longest one |
| MailPatterns.LastOpenAtIsLargest | FakeMailWatcher/MailWatcher.cs:32 | the name end found is the largest that admits a match, and for it the capture is the longest |
| MailPatterns.FromMatchAtComplete | FakeMailWatcher/MailWatcher.cs:32 | at a start where the sender pattern matches, the attempt succeeds with the longest name part and then the longest capture |
| MailPatterns.FirstFromMatchFrom | FakeMailWatcher/MailWatcher.cs:113 | a found match is a real match of the sender pattern |
| MailPatterns.FirstFromMatchFromSpec | FakeMailWatcher/MailWatcher.cs:113 | the search finds nothing exactly when the sender pattern occurs nowhere; otherwise it finds the match the engine prefers |
| MailPatterns.ExtractFromIsPreferredCapture | FakeMailWatcher/MailWatcher.cs:113 | the extracted sender is "" exactly when the sender pattern does not occur; otherwise it is the capture of the preferred match (leftmost, longest name, longest capture) |
| MailPatterns.ExtractFromShape | FakeMailWatcher/MailWatcher.cs:113 | the extracted sender is "" or free of '>' and occurs in the text between " &lt;" and "&gt;" |
| MailPatterns.ExtractFrom | FakeMailWatcher/MailWatcher.cs:113 | `Regex.Match(senderText, MailFromPattern).Groups[1].Value`; its contract is stated by MailPatterns.ExtractFromIsPreferredCapture (the preferred capture, or "" exactly without a match) and MailPatterns.ExtractFromShape |
| TickProcessing.ContainsId | FakeMailWatcher/MailWatcher.cs:126 | the scan for an id answers true exactly when some received mail has that id |
| TickProcessing.Accepts | FakeMailWatcher/MailWatcher.cs:116-117 | an entry passes the sender filter when the filter is empty or the sender equals it; its effect on a pass is stated by TickProcessing.RejectedEntryIsSkipped (a rejected entry is skipped and the pass goes on) and TickProcessing.ProcessHonoursFilter (every delivered mail passed the filter) |
| TickProcessing.Process | FakeMailWatcher/MailWatcher.cs:110-139 | the foreach over the listing; what it promises is stated by the TickProcessing lemmas below (appends only, delivery of new accepted entries, skipping of received ids, filter, downloads, order, abort on a missing link) |
| TickProcessing.ProcessAppendsNotified | FakeMailWatcher/MailWatcher.cs:134-138 | a pass only appends to the received list, and exactly the appended mails are handed to the callback, each once, in append order |
| TickProcessing.ProcessKeepsIdsDistinct | FakeMailWatcher/MailWatcher.cs:126-135 | if the received ids are distinct before a pass, they are after it, also when the listing repeats an id |
| TickProcessing.ProcessHonoursFilter | FakeMailWatcher/MailWatcher.cs:116-117 | with a non-empty sender filter, every mail delivered has exactly that sender address |
| TickProcessing.ProcessFetchesOnlyNewIds | FakeMailWatcher/MailWatcher.cs:126-131 | bodies are downloaded only for ids not received before, never twice in a pass, and the delivered mails are those downloads in order, except a last one that failed |
| TickProcessing.ProcessKeepsListingOrder | FakeMailWatcher/MailWatcher.cs:110-139 | the delivered mails appear in the same relative order as their entries in the listing |
| TickProcessing.ProcessConcat | FakeMailWatcher/MailWatcher.cs:110-139 | a pass over a split listing is the pass over the first part followed, unless that aborted, by the pass over the rest from the state the first part left |
| TickProcessing.MissingLinkAbortsRest | FakeMailWatcher/MailWatcher.cs:122-123 | an accepted entry without an href ends the pass: what came before is kept, and nothing after it is looked at |
| TickProcessing.ReceivedIdIsSkipped | FakeMailWatcher/MailWatcher.cs:126-127 | an accepted entry whose id is already received when it is reached changes nothing: no download, no append, no callback |
| TickProcessing.RejectedEntryIsSkipped | FakeMailWatcher/MailWatcher.cs:116-117 | an entry whose sender the filter rejects changes nothing and does not end the pass: the pass over the listing equals the pass over the listing without it |
| TickProcessing.NewEntryIsDelivered | FakeMailWatcher/MailWatcher.cs:126-138 | an accepted entry with a link, whose id is not received when it is reached and whose body downloads, is the next download and the next mail appended and handed to the callback after those of the entries before it, built from its sender, subject and body |
| Watcher.FilterOf | FakeMailWatcher/MailWatcher.cs:116 | the filter is "no filter" exactly when SpecificFromEmail is null or empty |
| Watcher.InboxUriDeterminesInbox | FakeMailWatcher/MailWatcher.cs:52 | the interpolated inbox address built from a domain (without '/') and a name determines both; `new Uri` normalisation, which can map different strings to one page, is left out (see "## Left out") |
| Watcher.MailWatcher.constructor | FakeMailWatcher/MailWatcher.cs:46-55 | a new watcher is valid, not watching, with no callback, an empty received list, the given filter and interval, and a disarmed timer |
| Watcher.MailWatcher.OnMailReceived | FakeMailWatcher/MailWatcher.cs:62-66 | the callback is replaced and the watcher itself is returned; nothing else changes |
| Watcher.MailWatcher.SetSpecificFromEmail | FakeMailWatcher/MailWatcher.cs:17 | the filter is replaced; nothing else changes |
| Watcher.MailWatcher.SetInterval | FakeMailWatcher/MailWatcher.cs:21-25 | the interval is stored; the timer is re-armed to fire at once with that period, whether watching or not, and the call fails after Dispose or for a period below -1 |
| Watcher.MailWatcher.Start | FakeMailWatcher/MailWatcher.cs:71-78 | when already watching nothing changes; otherwise IsWatching becomes true and the timer is armed with due time 0 and the interval, failing after Dispose or for an interval below -1 |
| Watcher.MailWatcher.Stop | FakeMailWatcher/MailWatcher.cs:83-90 | when not watching nothing changes; otherwise IsWatching becomes false and the timer is disarmed (both times infinite) |
| Watcher.MailWatcher.ChangeTimer | FakeMailWatcher/MailWatcher.cs:24 | the timer takes the new due time and period, unless it is null or an argument is below -1 |
| Watcher.MailWatcher.Tick | FakeMailWatcher/MailWatcher.cs:92-145 | when not watching, without a callback, after Dispose or when the listing cannot be read, nothing changes and nobody is called; otherwise ReceivedMails, the callback calls and the downloads are those of `Process`; the filter is honoured and the ids stay distinct |
| Watcher.MailWatcher.ReceiveEntries | FakeMailWatcher/MailWatcher.cs:110-139 | the loop over the entries appends to ReceivedMails in place and ends with the received list, callback calls and downloads `Process` computes |
| Watcher.MailWatcher.Dispose | FakeMailWatcher/MailWatcher.cs:150-164 | every reference becomes null, IsWatching false and the interval 0; the watcher is still valid |

## Left out

- HTTP (MailWatcher.cs:99-102, 130-131) is not modelled.
  - The listing page arrives as an optional sequence of entries. `None` means the
    request, the status check or the page lookup threw.
  - A body download is a function of the message id. `None` means the download threw.
  - A body download does not check the status code, so an error page is stored as
    the body. The model covers that case as just another string.
- The body URL hard-codes the `gustr.com/ghactr` inbox (MailWatcher.cs:130),
  whatever the watcher's domain and name. The model's download depends on the id
  alone, which is what the code does.
- HtmlAgilityPack parsing and node navigation (MailWatcher.cs:103-113, 119, 122)
  are not modelled. Each listing child becomes an entry of sender text, subject
  text and an optional href.
  - Children without the expected `<a>` structure, such as whitespace text nodes,
    make the source throw at line 112-113.
  - The model assumes every child is a well-formed entry.
- `System.Threading.Timer` is reduced to its last due time and period. Real firing
  and scheduling are left out: a tick is a call to `Tick`.
- Ticks are treated as atomic and sequential. `Time_Callback` is `async void`, so
  overlapping ticks can race on `ReceivedMails`. The invariant that ids are
  distinct holds only under the sequential reading.
- `new Uri(...)` parsing and normalisation, and its exceptions, are left out. The
  inbox address is kept as the interpolated string. `new Uri` removes dot segments
  and turns '\' into '/', so two different domain and name pairs ("." with "x/y",
  "x" with "y") can poll the same page; Watcher.InboxUriDeterminesInbox is about the
  string only.
- Watcher.MailWatcher.constructor: takes the domain and name as strings. A null
  domain or name interpolates as "" in the source, so "" stands for null there.
- `HttpClient` is reduced to whether it is still open.
- Watcher.MailWatcher.Tick: the callback is modelled as returning normally and not
  touching the watcher. If it throws, the source ends the tick there. If it
  re-enters the watcher (Stop, Dispose, a new callback), the rest of the tick sees
  that. The model records the calls instead.
- Watcher.MailWatcher.Dispose: `ReceivedMails?.Clear()` also empties the list a
  caller may still hold from the getter. The model's received list is a value and
  becomes null, so that aliasing is not captured.
- `Mail` is a C# class, compared by reference. The datatype compares by value.
  Nothing in the watcher compares mails, only ids.
- The `Interval` getter and the `Uri` and `IsWatching` getters are plain reads of
  the model's fields.
- Watcher.MailWatcher.Valid: the `ReceivedMails` getter hands out the live list, so
  any holder, the callback included, can add a mail with an existing id or remove
  one so that it is delivered again. The model assumes nobody but the watcher
  changes that list; the invariant that ids are distinct holds only then.
