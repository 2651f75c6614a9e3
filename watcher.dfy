/**
 * The MailWatcher object: an inbox address, the mails received from it so
 * far, an optional sender filter, the polling interval, and the timer that
 * drives the polling.  A null reference in the source is `None` here; after
 * Dispose every reference field is `None`.
 *
 * Exceptions the source lets escape (a NullReferenceException after Dispose,
 * an ArgumentOutOfRangeException from the timer for a period below -1) are
 * the `ok := false` results; whatever the source assigned before throwing
 * stays assigned.
 */
module Watcher {

  import opened Wrappers
  import opened Mails
  import opened MailPatterns
  import opened TickProcessing

  /** The source's `int`. */
  newtype int32 = x: int | -0x8000_0000 <= x < 0x8000_0000

  /** `Timeout.Infinite`: as a due time, never fire; as a period, fire once. */
  const Infinite: int32 := -1

  /** `Timer.Change` accepts a due time and a period of -1 or more. */
  predicate ValidTimerArg(x: int32)
  {
    x >= Infinite
  }

  /** The last due time and period the timer was given. */
  datatype TimerSetting = TimerSetting(dueTime: int32, period: int32)
  {
    /** The timer will fire: its due time is not infinite. */
    predicate Armed()
    {
      dueTime != Infinite
    }
  }

  /** The registered callback, identified by the delegate it stands for. */
  type Handler = nat

  /** The host and path every inbox address starts with. */
  const InboxPrefix := "http://www.fakemailgenerator.com/inbox/"

  /** The inbox page the watcher polls: the prefix, then the domain, a slash and the name. */
  function InboxUri(domain: string, name: string): (uri: string)
    ensures |uri| == |InboxPrefix| + |domain| + 1 + |name|
    ensures uri[..|InboxPrefix|] == InboxPrefix
    ensures uri[|InboxPrefix|..|InboxPrefix| + |domain|] == domain
    ensures uri[|InboxPrefix| + |domain|] == '/'
    ensures uri[|uri| - |name|..] == name
  {
    InboxPrefix + domain + "/" + name
  }

  /**
   * For domains without '/', the interpolated address determines the domain
   * and the name it was built from.  This is about the string alone: the
   * normalisation `new Uri` applies to it is not part of this model.
   */
  lemma InboxUriDeterminesInbox(domain: string, name: string, domain': string, name': string)
    requires forall k :: 0 <= k < |domain| ==> domain[k] != '/'
    requires forall k :: 0 <= k < |domain'| ==> domain'[k] != '/'
    requires InboxUri(domain, name) == InboxUri(domain', name')
    ensures domain == domain' && name == name'
  {
    var u := InboxUri(domain, name);
    var n := |InboxPrefix|;
    if |domain| != |domain'| {
      assert false;
    }
    assert domain == u[n..n + |domain|];
  }

  /** `string.IsNullOrEmpty(SpecificFromEmail)` means "no filter", which `Accepts` reads as "". */
  function FilterOf(specificFromEmail: Option<string>): (filter: string)
    ensures filter == "" <==> specificFromEmail.None? || specificFromEmail.value == ""
  {
    match specificFromEmail
    case None => ""
    case Some(f) => f
  }

  class MailWatcher {
    var uri: Option<string>
    var receivedMails: Option<seq<Mail>>
    var specificFromEmail: Option<string>
    var interval: int32
    var isWatching: bool
    var httpClientOpen: bool
    var timer: Option<TimerSetting>
    var mailReceivedAction: Option<Handler>

    /**
     * The watcher is either live (every reference set) or disposed (every
     * reference null), and the received list never holds two mails with
     * the same id (the list the getter hands out is taken to be changed by
     * the watcher alone).
     */
    ghost predicate Valid()
      reads this
    {
      (receivedMails.Some? <==> uri.Some?) &&
      (receivedMails.Some? <==> timer.Some?) &&
      (receivedMails.Some? <==> httpClientOpen) &&
      (receivedMails.Some? ==> NoDuplicateIds(receivedMails.value))
    }

    /** A watcher whose resources have been released. */
    predicate Disposed()
      reads this
    {
      timer.None?
    }

    /** A new watcher: not watching, timer disarmed, nothing received. */
    constructor(domain: string, name: string, fromEmail: Option<string> := Some(""), interval: int32 := 5000)
      ensures Valid() && !Disposed()
      ensures this.interval == interval
      ensures timer == Some(TimerSetting(Infinite, Infinite)) && !timer.value.Armed()
      ensures uri == Some(InboxUri(domain, name))
      ensures receivedMails == Some([])
      ensures specificFromEmail == fromEmail
      ensures !isWatching && mailReceivedAction.None?
    {
      httpClientOpen := true;
      this.interval := interval;
      timer := Some(TimerSetting(Infinite, Infinite));
      uri := Some(InboxUri(domain, name));
      receivedMails := Some([]);
      specificFromEmail := fromEmail;
      isWatching := false;
      mailReceivedAction := None;
    }

    /** Registers (or, with None, clears) the callback; returns the watcher itself for chaining. */
    method OnMailReceived(action: Option<Handler>) returns (w: MailWatcher)
      modifies this
      ensures w == this
      ensures mailReceivedAction == action
      ensures uri == old(uri) && receivedMails == old(receivedMails) && specificFromEmail == old(specificFromEmail)
      ensures interval == old(interval) && isWatching == old(isWatching) && timer == old(timer)
      ensures httpClientOpen == old(httpClientOpen)
    {
      mailReceivedAction := action;
      w := this;
    }

    /** The public setter of SpecificFromEmail. */
    method SetSpecificFromEmail(value: Option<string>)
      modifies this
      ensures specificFromEmail == value
      ensures uri == old(uri) && receivedMails == old(receivedMails) && mailReceivedAction == old(mailReceivedAction)
      ensures interval == old(interval) && isWatching == old(isWatching) && timer == old(timer)
      ensures httpClientOpen == old(httpClientOpen)
    {
      specificFromEmail := value;
    }

    /**
     * The Interval setter: stores the value, then re-arms the timer to fire
     * at once and every `value` milliseconds after, whether or not the
     * watcher is watching.  Fails (after storing the value) when disposed or
     * when `value` is below -1.
     */
    method SetInterval(value: int32) returns (ok: bool)
      requires Valid()
      modifies this
      ensures Valid()
      ensures interval == value
      ensures ok <==> !Disposed() && ValidTimerArg(value)
      ensures timer == if ok then Some(TimerSetting(0, value)) else old(timer)
      ensures ok ==> timer.value.Armed()
      ensures uri == old(uri) && receivedMails == old(receivedMails) && specificFromEmail == old(specificFromEmail)
      ensures isWatching == old(isWatching) && mailReceivedAction == old(mailReceivedAction)
      ensures httpClientOpen == old(httpClientOpen)
    {
      interval := value;
      ok := ChangeTimer(0, value);
    }

    /**
     * Starts watching: a no-op when already watching; otherwise sets
     * IsWatching and arms the timer to fire at once and then every
     * Interval milliseconds.  After Dispose, or with an Interval below -1,
     * the timer call fails with IsWatching already set.
     */
    method Start() returns (ok: bool)
      requires Valid()
      modifies this
      ensures Valid()
      ensures isWatching
      ensures old(isWatching) ==> ok && timer == old(timer)
      ensures !old(isWatching) ==> (ok <==> !Disposed() && ValidTimerArg(interval))
      ensures timer == if !old(isWatching) && ok then Some(TimerSetting(0, interval)) else old(timer)
      ensures !old(isWatching) && ok ==> timer.value.Armed()
      ensures uri == old(uri) && receivedMails == old(receivedMails) && specificFromEmail == old(specificFromEmail)
      ensures interval == old(interval) && mailReceivedAction == old(mailReceivedAction)
      ensures httpClientOpen == old(httpClientOpen)
    {
      if isWatching {
        return true;
      }
      isWatching := true;
      ok := ChangeTimer(0, interval);
    }

    /**
     * Stops watching: a no-op when not watching; otherwise clears IsWatching
     * and disarms the timer.  Fails only after Dispose (reachable through a
     * Start that failed after Dispose).
     */
    method Stop() returns (ok: bool)
      requires Valid()
      modifies this
      ensures Valid()
      ensures !isWatching
      ensures !old(isWatching) ==> ok && timer == old(timer)
      ensures old(isWatching) ==> (ok <==> !Disposed())
      ensures timer == if old(isWatching) && ok then Some(TimerSetting(Infinite, Infinite)) else old(timer)
      ensures timer.Some? ==> (old(isWatching) ==> !timer.value.Armed())
      ensures uri == old(uri) && receivedMails == old(receivedMails) && specificFromEmail == old(specificFromEmail)
      ensures interval == old(interval) && mailReceivedAction == old(mailReceivedAction)
      ensures httpClientOpen == old(httpClientOpen)
    {
      if !isWatching {
        return true;
      }
      isWatching := false;
      ok := ChangeTimer(Infinite, Infinite);
    }

    /** `_timer.Change(dueTime, period)`: fails on a null timer or an argument below -1. */
    method ChangeTimer(dueTime: int32, period: int32) returns (ok: bool)
      requires Valid()
      modifies this`timer
      ensures Valid()
      ensures ok <==> old(timer).Some? && ValidTimerArg(dueTime) && ValidTimerArg(period)
      ensures timer == if ok then Some(TimerSetting(dueTime, period)) else old(timer)
    {
      if timer.None? || !ValidTimerArg(dueTime) || !ValidTimerArg(period) {
        return false;
      }
      timer := Some(TimerSetting(dueTime, period));
      return true;
    }

    /**
     * One timer tick.  Nothing happens unless the watcher is watching and
     * has a callback.  `listing` is the inbox page's entries in page order,
     * or None when the request, the status check or the page lookup threw;
     * `fetch` downloads a message body by id.  The tick appends each new,
     * accepted mail to ReceivedMails and hands it to the callback (returned
     * here as `notified`); an exception ends the tick and is swallowed, with
     * what was appended before it kept.
     */
    method Tick(listing: Option<seq<Entry>>, fetch: string -> Option<string>)
      returns (notified: seq<Mail>, fetched: seq<string>)
      requires Valid()
      modifies this`receivedMails
      ensures Valid()
      ensures !old(isWatching) || old(mailReceivedAction).None? || Disposed() || listing.None? ==>
        receivedMails == old(receivedMails) && notified == [] && fetched == []
      ensures isWatching && mailReceivedAction.Some? && !Disposed() && listing.Some? ==>
        var r := Process(old(receivedMails).value, listing.value, FilterOf(specificFromEmail), fetch);
        receivedMails == Some(r.received) && notified == r.notified && fetched == r.fetched
      ensures FilterOf(specificFromEmail) != "" ==> forall m :: m in notified ==> m.From == FilterOf(specificFromEmail)
      ensures receivedMails.Some? ==> receivedMails.value == old(receivedMails).value + notified
    {
      notified, fetched := [], [];
      if !isWatching || mailReceivedAction.None? || uri.None? || listing.None? {
        return;
      }
      var filter := FilterOf(specificFromEmail);
      ghost var start := receivedMails.value;
      ProcessAppendsNotified(start, listing.value, filter, fetch);
      ProcessKeepsIdsDistinct(start, listing.value, filter, fetch);
      if filter != "" {
        ProcessHonoursFilter(start, listing.value, filter, fetch);
      }
      notified, fetched := ReceiveEntries(listing.value, filter, fetch);
    }

    /**
     * The `foreach` over the listing: each accepted entry with a new id has
     * its body downloaded, is appended to ReceivedMails and is handed to
     * the callback; a missing link or a failed download ends the loop.
     */
    method ReceiveEntries(entries: seq<Entry>, filter: string, fetch: string -> Option<string>)
      returns (notified: seq<Mail>, fetched: seq<string>)
      requires receivedMails.Some?
      modifies this`receivedMails
      ensures var r := Process(old(receivedMails).value, entries, filter, fetch);
        receivedMails == Some(r.received) && notified == r.notified && fetched == r.fetched
    {
      notified, fetched := [], [];
      ghost var goal := Process(receivedMails.value, entries, filter, fetch);
      assert entries[0..] == entries;
      var i := 0;
      while i < |entries|
        invariant 0 <= i <= |entries|
        invariant receivedMails.Some?
        invariant Then(Outcome(receivedMails.value, notified, fetched, false),
                       Process(receivedMails.value, entries[i..], filter, fetch)) == goal
        decreases |entries| - i
      {
        var e := entries[i];
        var from := ExtractFrom(e.senderText);
        if !Accepts(filter, from) {
          SkipStep(receivedMails.value, entries, i, filter, fetch);
          i := i + 1;
          continue;
        }
        if e.href.None? {
          AbortStep(receivedMails.value, notified, fetched, entries, i, filter, fetch);
          return;
        }
        var id := ExtractId(e.href.value);
        if ContainsId(receivedMails.value, id) {
          SkipStep(receivedMails.value, entries, i, filter, fetch);
          i := i + 1;
          continue;
        }
        var body := fetch(id);
        if body.None? {
          AbortStep(receivedMails.value, notified, fetched, entries, i, filter, fetch);
          fetched := fetched + [id];
          return;
        }
        var mail := Mail(id, from, e.subjectText, body.value);
        DeliverStep(receivedMails.value, notified, fetched, entries, i, filter, fetch);
        receivedMails := Some(receivedMails.value + [mail]);
        notified := notified + [mail];
        fetched := fetched + [id];
        i := i + 1;
      }
    }

    /**
     * Releases everything: every reference becomes null, IsWatching false,
     * Interval 0.  Calling it again is harmless.
     */
    method Dispose()
      modifies this
      ensures Valid() && Disposed()
      ensures uri.None? && receivedMails.None? && specificFromEmail.None? && mailReceivedAction.None?
      ensures !httpClientOpen && !isWatching && interval == 0
    {
      httpClientOpen := false;
      timer := None;
      receivedMails := None;
      uri := None;
      specificFromEmail := None;
      isWatching := false;
      mailReceivedAction := None;
      interval := 0;
    }
  }
}
