/**
 * One pass of the watcher's tick over the inbox listing, as a function of the
 * mails received so far.  The listing page is abstracted to its entries, in
 * page order, and the body download to a function of the message id (None
 * stands for a download that throws).  The watcher's imperative tick loop is
 * proved to compute exactly this function.
 */
module TickProcessing {

  import opened Wrappers
  import opened Mails
  import opened MailPatterns

  /**
   * One item of the listing: the text holding "name &lt;address&gt;", the
   * subject text, and the link's href attribute (None when it is missing).
   */
  datatype Entry = Entry(senderText: string, subjectText: string, href: Option<string>)

  /**
   * What a pass produces: the new received list, the mails handed to the
   * callback (in call order), the ids whose body was downloaded (in download
   * order), and whether an exception cut the pass short.
   */
  datatype Outcome = Outcome(received: seq<Mail>, notified: seq<Mail>, fetched: seq<string>, aborted: bool)

  /** `ReceivedMails.FirstOrDefault(m => m.Id == id) != null`: a front-to-back scan. */
  function ContainsId(mails: seq<Mail>, id: string): (found: bool)
    ensures found <==> exists k :: 0 <= k < |mails| && mails[k].Id == id
  {
    if mails == [] then false
    else mails[0].Id == id || ContainsId(mails[1..], id)
  }

  /** No two mails in the list share an id. */
  ghost predicate NoDuplicateIds(mails: seq<Mail>)
  {
    forall i, j :: 0 <= i < j < |mails| ==> mails[i].Id != mails[j].Id
  }

  /** The ids of a list of mails, in order. */
  function Ids(mails: seq<Mail>): (ids: seq<string>)
    ensures |ids| == |mails| && forall k :: 0 <= k < |mails| ==> ids[k] == mails[k].Id
  {
    if mails == [] then [] else [mails[0].Id] + Ids(mails[1..])
  }

  /**
   * `string.IsNullOrEmpty(filter) || from == filter`: an empty filter
   * accepts every sender, a non-empty one only exactly that address.
   */
  predicate Accepts(filter: string, from: string)
  {
    filter == "" || from == filter
  }

  /**
   * The `foreach` over the listing: extract the sender, skip entries the
   * filter rejects, abort on a missing link, skip ids already received,
   * download the body (abort if that throws), then append the mail and hand
   * it to the callback.
   */
  function Process(received: seq<Mail>, entries: seq<Entry>, filter: string,
                   fetch: string -> Option<string>): Outcome
    decreases |entries|
  {
    if entries == [] then Outcome(received, [], [], false)
    else
      var e := entries[0];
      var from := ExtractFrom(e.senderText);
      if !Accepts(filter, from) then Process(received, entries[1..], filter, fetch)
      else match e.href
        case None => Outcome(received, [], [], true)
        case Some(url) =>
          var id := ExtractId(url);
          if ContainsId(received, id) then Process(received, entries[1..], filter, fetch)
          else match fetch(id)
            case None => Outcome(received, [], [id], true)
            case Some(body) =>
              var mail := Mail(id, from, e.subjectText, body);
              Then(Outcome(received + [mail], [mail], [id], false),
                   Process(received + [mail], entries[1..], filter, fetch))
  }

  /** Running `rest` after `first`, when `first` did not abort. */
  function Then(first: Outcome, rest: Outcome): Outcome
  {
    Outcome(rest.received, first.notified + rest.notified, first.fetched + rest.fetched, rest.aborted)
  }

  // ---------------------------------------------------------------------------
  // What a pass promises
  // ---------------------------------------------------------------------------

  /**
   * Mails are only appended at the end, and exactly the appended mails are
   * handed to the callback, once each and in append order.
   */
  lemma {:induction false} ProcessAppendsNotified(received: seq<Mail>, entries: seq<Entry>, filter: string,
                                                  fetch: string -> Option<string>)
    ensures var r := Process(received, entries, filter, fetch);
      r.received == received + r.notified
    decreases |entries|
  {
    if entries != [] {
      var e := entries[0];
      if Accepts(filter, ExtractFrom(e.senderText)) && e.href.Some? {
        var id := ExtractId(e.href.value);
        if ContainsId(received, id) {
          ProcessAppendsNotified(received, entries[1..], filter, fetch);
        } else if fetch(id).Some? {
          var mail := Mail(id, ExtractFrom(e.senderText), e.subjectText, fetch(id).value);
          ProcessAppendsNotified(received + [mail], entries[1..], filter, fetch);
        }
      } else if !Accepts(filter, ExtractFrom(e.senderText)) {
        ProcessAppendsNotified(received, entries[1..], filter, fetch);
      }
    }
  }

  /** Appending a mail whose id is new keeps the ids of the list distinct. */
  lemma AppendNewIdKeepsDistinct(mails: seq<Mail>, mail: Mail)
    requires NoDuplicateIds(mails) && !ContainsId(mails, mail.Id)
    ensures NoDuplicateIds(mails + [mail])
  {
  }

  /**
   * A pass keeps the received ids distinct, also when the listing repeats an
   * id: the second occurrence finds the first one already received.
   */
  lemma {:induction false} ProcessKeepsIdsDistinct(received: seq<Mail>, entries: seq<Entry>, filter: string,
                                                   fetch: string -> Option<string>)
    requires NoDuplicateIds(received)
    ensures NoDuplicateIds(Process(received, entries, filter, fetch).received)
    decreases |entries|
  {
    if entries != [] {
      var e := entries[0];
      if Accepts(filter, ExtractFrom(e.senderText)) && e.href.Some? {
        var id := ExtractId(e.href.value);
        if ContainsId(received, id) {
          ProcessKeepsIdsDistinct(received, entries[1..], filter, fetch);
        } else if fetch(id).Some? {
          var mail := Mail(id, ExtractFrom(e.senderText), e.subjectText, fetch(id).value);
          AppendNewIdKeepsDistinct(received, mail);
          ProcessKeepsIdsDistinct(received + [mail], entries[1..], filter, fetch);
        }
      } else if !Accepts(filter, ExtractFrom(e.senderText)) {
        ProcessKeepsIdsDistinct(received, entries[1..], filter, fetch);
      }
    }
  }

  /** With a non-empty filter, every mail a pass delivers is from exactly that address. */
  lemma {:induction false} ProcessHonoursFilter(received: seq<Mail>, entries: seq<Entry>, filter: string,
                                                fetch: string -> Option<string>)
    requires filter != ""
    ensures forall m :: m in Process(received, entries, filter, fetch).notified ==> m.From == filter
    decreases |entries|
  {
    if entries != [] {
      var e := entries[0];
      if Accepts(filter, ExtractFrom(e.senderText)) && e.href.Some? {
        var id := ExtractId(e.href.value);
        if ContainsId(received, id) {
          ProcessHonoursFilter(received, entries[1..], filter, fetch);
        } else if fetch(id).Some? {
          var mail := Mail(id, ExtractFrom(e.senderText), e.subjectText, fetch(id).value);
          ProcessHonoursFilter(received + [mail], entries[1..], filter, fetch);
        }
      } else if !Accepts(filter, ExtractFrom(e.senderText)) {
        ProcessHonoursFilter(received, entries[1..], filter, fetch);
      }
    }
  }

  /**
   * Bodies are downloaded only for ids not received before the pass, never
   * twice for one id, and the delivered mails are those downloads in order
   * (at most the last download, the one that threw, delivers nothing).
   */
  lemma {:induction false} ProcessFetchesOnlyNewIds(received: seq<Mail>, entries: seq<Entry>, filter: string,
                                                    fetch: string -> Option<string>)
    ensures var r := Process(received, entries, filter, fetch);
      (forall k :: 0 <= k < |r.fetched| ==> !ContainsId(received, r.fetched[k])) &&
      (forall i, j :: 0 <= i < j < |r.fetched| ==> r.fetched[i] != r.fetched[j]) &&
      Ids(r.notified) <= r.fetched && |r.fetched| <= |r.notified| + 1
    decreases |entries|
  {
    if entries != [] {
      var e := entries[0];
      if Accepts(filter, ExtractFrom(e.senderText)) && e.href.Some? {
        var id := ExtractId(e.href.value);
        if ContainsId(received, id) {
          ProcessFetchesOnlyNewIds(received, entries[1..], filter, fetch);
        } else if fetch(id).Some? {
          var mail := Mail(id, ExtractFrom(e.senderText), e.subjectText, fetch(id).value);
          ProcessFetchesOnlyNewIds(received + [mail], entries[1..], filter, fetch);
          FetchStep(received, mail, Process(received + [mail], entries[1..], filter, fetch));
        }
      } else if !Accepts(filter, ExtractFrom(e.senderText)) {
        ProcessFetchesOnlyNewIds(received, entries[1..], filter, fetch);
      }
    }
  }

  /** An id is in a list with one mail appended iff it is in the list or is that mail's id. */
  lemma ContainsIdAppend(mails: seq<Mail>, mail: Mail, id: string)
    ensures ContainsId(mails + [mail], id) <==> ContainsId(mails, id) || mail.Id == id
  {
    assert (mails + [mail])[|mails|] == mail;
    if ContainsId(mails, id) {
      var j :| 0 <= j < |mails| && mails[j].Id == id;
      assert (mails + [mail])[j] == mails[j];
    }
  }

  /** The download step of ProcessFetchesOnlyNewIds: one new id in front of a pass that already has the property. */
  lemma FetchStep(received: seq<Mail>, mail: Mail, rest: Outcome)
    requires !ContainsId(received, mail.Id)
    requires (forall k :: 0 <= k < |rest.fetched| ==> !ContainsId(received + [mail], rest.fetched[k])) &&
      (forall i, j :: 0 <= i < j < |rest.fetched| ==> rest.fetched[i] != rest.fetched[j]) &&
      Ids(rest.notified) <= rest.fetched && |rest.fetched| <= |rest.notified| + 1
    ensures var r := Then(Outcome(received + [mail], [mail], [mail.Id], false), rest);
      (forall k :: 0 <= k < |r.fetched| ==> !ContainsId(received, r.fetched[k])) &&
      (forall i, j :: 0 <= i < j < |r.fetched| ==> r.fetched[i] != r.fetched[j]) &&
      Ids(r.notified) <= r.fetched && |r.fetched| <= |r.notified| + 1
  {
    forall k | 0 <= k < |rest.fetched| ensures rest.fetched[k] != mail.Id && !ContainsId(received, rest.fetched[k]) {
      ContainsIdAppend(received, mail, rest.fetched[k]);
    }
    assert Ids([mail] + rest.notified) == [mail.Id] + Ids(rest.notified);
  }

  // ---------------------------------------------------------------------------
  // Listing order
  // ---------------------------------------------------------------------------

  /** `xs` is `ys` with some elements left out, the rest kept in order. */
  predicate IsSubsequence<T(==)>(xs: seq<T>, ys: seq<T>)
    decreases |ys|
  {
    if xs == [] then true
    else if ys == [] then false
    else if xs[0] == ys[0] then IsSubsequence(xs[1..], ys[1..])
    else IsSubsequence(xs, ys[1..])
  }

  /** The mail an entry turns into if it is accepted and its body downloads. */
  function EntryMail(e: Entry, fetch: string -> Option<string>): Option<Mail>
  {
    match e.href
    case None => None
    case Some(url) =>
      var id := ExtractId(url);
      match fetch(id)
      case None => None
      case Some(body) => Some(Mail(id, ExtractFrom(e.senderText), e.subjectText, body))
  }

  /** The mails the listing's entries can turn into, in listing order. */
  function CandidateMails(entries: seq<Entry>, fetch: string -> Option<string>): seq<Mail>
    decreases |entries|
  {
    if entries == [] then []
    else
      var rest := CandidateMails(entries[1..], fetch);
      match EntryMail(entries[0], fetch)
      case None => rest
      case Some(m) => [m] + rest
  }

  lemma {:induction false} SubsequenceOfLonger<T>(xs: seq<T>, y: T, ys: seq<T>)
    requires IsSubsequence(xs, ys)
    ensures IsSubsequence(xs, [y] + ys)
    decreases |ys|, 1
  {
    assert ([y] + ys)[0] == y && ([y] + ys)[1..] == ys;
    if xs != [] && xs[0] == y {
      SubsequenceDropHead(xs, ys);
    }
  }

  lemma {:induction false} SubsequenceDropHead<T>(xs: seq<T>, ys: seq<T>)
    requires xs != [] && IsSubsequence(xs, ys)
    ensures IsSubsequence(xs[1..], ys)
    decreases |ys|, 0
  {
    assert [ys[0]] + ys[1..] == ys;
    if xs[0] == ys[0] {
      SubsequenceOfLonger(xs[1..], ys[0], ys[1..]);
    } else {
      SubsequenceDropHead(xs, ys[1..]);
      SubsequenceOfLonger(xs[1..], ys[0], ys[1..]);
    }
  }

  /**
   * The mails a pass delivers appear in the same relative order as their
   * entries in the listing.
   */
  lemma {:induction false} ProcessKeepsListingOrder(received: seq<Mail>, entries: seq<Entry>, filter: string,
                                                    fetch: string -> Option<string>)
    ensures IsSubsequence(Process(received, entries, filter, fetch).notified, CandidateMails(entries, fetch))
    decreases |entries|
  {
    if entries != [] {
      var e := entries[0];
      var rest := CandidateMails(entries[1..], fetch);
      if Accepts(filter, ExtractFrom(e.senderText)) && e.href.Some? {
        var id := ExtractId(e.href.value);
        if ContainsId(received, id) {
          ProcessKeepsListingOrder(received, entries[1..], filter, fetch);
          if EntryMail(e, fetch).Some? {
            SubsequenceOfLonger(Process(received, entries[1..], filter, fetch).notified, EntryMail(e, fetch).value, rest);
          }
        } else if fetch(id).Some? {
          var mail := Mail(id, ExtractFrom(e.senderText), e.subjectText, fetch(id).value);
          ProcessKeepsListingOrder(received + [mail], entries[1..], filter, fetch);
          var r := Process(received, entries, filter, fetch);
          assert r.notified == [mail] + Process(received + [mail], entries[1..], filter, fetch).notified;
          assert CandidateMails(entries, fetch) == [mail] + rest;
        }
      } else if !Accepts(filter, ExtractFrom(e.senderText)) {
        ProcessKeepsListingOrder(received, entries[1..], filter, fetch);
        if EntryMail(e, fetch).Some? {
          SubsequenceOfLonger(Process(received, entries[1..], filter, fetch).notified, EntryMail(e, fetch).value, rest);
        }
      }
    }
  }

  // ---------------------------------------------------------------------------
  // Splitting the listing
  // ---------------------------------------------------------------------------

  /**
   * A pass over `pre + post` is the pass over `pre` followed, unless that
   * aborted, by a pass over `post` starting from what `pre` left.
   */
  lemma {:induction false} ProcessConcat(received: seq<Mail>, pre: seq<Entry>, post: seq<Entry>, filter: string,
                                         fetch: string -> Option<string>)
    ensures var p := Process(received, pre, filter, fetch);
      Process(received, pre + post, filter, fetch) ==
        if p.aborted then p else Then(p, Process(p.received, post, filter, fetch))
    decreases |pre|
  {
    if pre == [] {
      assert pre + post == post;
    } else {
      var e := pre[0];
      assert (pre + post)[0] == e && (pre + post)[1..] == pre[1..] + post;
      if Accepts(filter, ExtractFrom(e.senderText)) && e.href.Some? {
        var id := ExtractId(e.href.value);
        if ContainsId(received, id) {
          ProcessConcat(received, pre[1..], post, filter, fetch);
        } else if fetch(id).Some? {
          var mail := Mail(id, ExtractFrom(e.senderText), e.subjectText, fetch(id).value);
          ProcessConcat(received + [mail], pre[1..], post, filter, fetch);
          var p' := Process(received + [mail], pre[1..], filter, fetch);
          if !p'.aborted {
            var q := Process(p'.received, post, filter, fetch);
            assert [mail] + (p'.notified + q.notified) == ([mail] + p'.notified) + q.notified;
            assert [id] + (p'.fetched + q.fetched) == ([id] + p'.fetched) + q.fetched;
          }
        }
      } else if !Accepts(filter, ExtractFrom(e.senderText)) {
        ProcessConcat(received, pre[1..], post, filter, fetch);
      }
    }
  }

  /**
   * An accepted entry without a link aborts the pass there: what the entries
   * before it produced is kept, and nothing after it is looked at.
   */
  lemma MissingLinkAbortsRest(received: seq<Mail>, pre: seq<Entry>, e: Entry, post: seq<Entry>,
                              filter: string, fetch: string -> Option<string>)
    requires Accepts(filter, ExtractFrom(e.senderText)) && e.href.None?
    ensures var p := Process(received, pre, filter, fetch);
      Process(received, pre + [e] + post, filter, fetch) == p.(aborted := true)
  {
    var p := Process(received, pre, filter, fetch);
    assert pre + [e] + post == pre + ([e] + post);
    ProcessConcat(received, pre, [e] + post, filter, fetch);
    if !p.aborted {
      assert Process(p.received, [e] + post, filter, fetch) == Outcome(p.received, [], [], true);
      ProcessAppendsNotified(received, pre, filter, fetch);
      assert p.notified + [] == p.notified && p.fetched + [] == p.fetched;
    }
  }

  /**
   * An accepted entry whose id is already received when the pass reaches it,
   * whether from an earlier tick or earlier in this listing, changes nothing:
   * no download, no append, no callback.
   */
  lemma ReceivedIdIsSkipped(received: seq<Mail>, pre: seq<Entry>, e: Entry, post: seq<Entry>,
                            filter: string, fetch: string -> Option<string>)
    requires Accepts(filter, ExtractFrom(e.senderText)) && e.href.Some?
    requires ContainsId(Process(received, pre, filter, fetch).received, ExtractId(e.href.value))
    ensures Process(received, pre + [e] + post, filter, fetch) == Process(received, pre + post, filter, fetch)
  {
    assert pre + [e] + post == pre + ([e] + post);
    ProcessConcat(received, pre, [e] + post, filter, fetch);
    ProcessConcat(received, pre, post, filter, fetch);
    var p := Process(received, pre, filter, fetch);
    assert ([e] + post)[0] == e && ([e] + post)[1..] == post;
  }

  /**
   * An entry whose sender the filter rejects changes nothing and does not
   * end the pass: the entries after it are processed as if it were absent.
   */
  lemma RejectedEntryIsSkipped(received: seq<Mail>, pre: seq<Entry>, e: Entry, post: seq<Entry>,
                               filter: string, fetch: string -> Option<string>)
    requires !Accepts(filter, ExtractFrom(e.senderText))
    ensures Process(received, pre + [e] + post, filter, fetch) == Process(received, pre + post, filter, fetch)
  {
    assert pre + [e] + post == pre + ([e] + post);
    ProcessConcat(received, pre, [e] + post, filter, fetch);
    ProcessConcat(received, pre, post, filter, fetch);
    assert ([e] + post)[0] == e && ([e] + post)[1..] == post;
  }

  /**
   * An accepted entry with a link, whose id is not yet received when the
   * pass reaches it and whose body downloads, is delivered right after what
   * the entries before it delivered: its body is downloaded next, and the
   * mail built from its sender, subject and body is appended and handed to
   * the callback next.
   */
  lemma NewEntryIsDelivered(received: seq<Mail>, pre: seq<Entry>, e: Entry, post: seq<Entry>,
                            filter: string, fetch: string -> Option<string>)
    requires !Process(received, pre, filter, fetch).aborted
    requires Accepts(filter, ExtractFrom(e.senderText)) && e.href.Some?
    requires !ContainsId(Process(received, pre, filter, fetch).received, ExtractId(e.href.value))
    requires fetch(ExtractId(e.href.value)).Some?
    ensures var p := Process(received, pre, filter, fetch);
      var r := Process(received, pre + [e] + post, filter, fetch);
      var id := ExtractId(e.href.value);
      var mail := Mail(id, ExtractFrom(e.senderText), e.subjectText, fetch(id).value);
      |r.notified| > |p.notified| && r.notified[..|p.notified| + 1] == p.notified + [mail] &&
      |r.fetched| > |p.fetched| && r.fetched[..|p.fetched| + 1] == p.fetched + [id] &&
      mail in r.received
  {
    var p := Process(received, pre, filter, fetch);
    var id := ExtractId(e.href.value);
    var mail := Mail(id, ExtractFrom(e.senderText), e.subjectText, fetch(id).value);
    assert pre + [e] + post == pre + ([e] + post);
    ProcessConcat(received, pre, [e] + post, filter, fetch);
    assert ([e] + post)[0] == e && ([e] + post)[1..] == post;
    var rest := Process(p.received + [mail], post, filter, fetch);
    var r := Process(received, pre + [e] + post, filter, fetch);
    assert r.notified == p.notified + ([mail] + rest.notified);
    assert r.notified[..|p.notified| + 1] == p.notified + [mail];
    assert r.fetched == p.fetched + ([id] + rest.fetched);
    assert r.fetched[..|p.fetched| + 1] == p.fetched + [id];
    ProcessAppendsNotified(received, pre + [e] + post, filter, fetch);
    assert r.received[|received| + |p.notified|] == mail;
  }

  // ---------------------------------------------------------------------------
  // One entry at a time (the steps of the watcher's tick loop)
  // ---------------------------------------------------------------------------

  /** An entry the filter rejects, or whose id is already received, is passed over. */
  lemma SkipStep(received: seq<Mail>, entries: seq<Entry>, i: nat, filter: string,
                 fetch: string -> Option<string>)
    requires i < |entries|
    requires var e := entries[i];
      !Accepts(filter, ExtractFrom(e.senderText)) ||
      (e.href.Some? && ContainsId(received, ExtractId(e.href.value)))
    ensures Process(received, entries[i..], filter, fetch) == Process(received, entries[i + 1..], filter, fetch)
  {
    assert entries[i..][0] == entries[i] && entries[i..][1..] == entries[i + 1..];
  }

  /**
   * An accepted entry without a link, or whose body download throws, ends
   * the pass: what came before is the whole result, plus the failed download.
   */
  lemma AbortStep(received: seq<Mail>, notified: seq<Mail>, fetched: seq<string>, entries: seq<Entry>, i: nat,
                  filter: string, fetch: string -> Option<string>)
    requires i < |entries|
    requires var e := entries[i];
      Accepts(filter, ExtractFrom(e.senderText)) &&
      (e.href.Some? ==> !ContainsId(received, ExtractId(e.href.value)) && fetch(ExtractId(e.href.value)).None?)
    ensures var e := entries[i];
      var r := Then(Outcome(received, notified, fetched, false), Process(received, entries[i..], filter, fetch));
      r.received == received && r.notified == notified && r.aborted &&
      r.fetched == fetched + (if e.href.Some? then [ExtractId(e.href.value)] else [])
  {
    assert entries[i..][0] == entries[i];
    assert notified + [] == notified && fetched + [] == fetched;
  }

  /** An accepted entry with a new id and a body is delivered, and the pass goes on after it. */
  lemma DeliverStep(received: seq<Mail>, notified: seq<Mail>, fetched: seq<string>, entries: seq<Entry>, i: nat,
                    filter: string, fetch: string -> Option<string>)
    requires i < |entries|
    requires var e := entries[i];
      Accepts(filter, ExtractFrom(e.senderText)) && e.href.Some? &&
      !ContainsId(received, ExtractId(e.href.value)) && fetch(ExtractId(e.href.value)).Some?
    ensures var e := entries[i];
      var id := ExtractId(e.href.value);
      var mail := Mail(id, ExtractFrom(e.senderText), e.subjectText, fetch(id).value);
      Then(Outcome(received, notified, fetched, false), Process(received, entries[i..], filter, fetch)) ==
      Then(Outcome(received + [mail], notified + [mail], fetched + [id], false),
           Process(received + [mail], entries[i + 1..], filter, fetch))
  {
    var e := entries[i];
    var id := ExtractId(e.href.value);
    var mail := Mail(id, ExtractFrom(e.senderText), e.subjectText, fetch(id).value);
    var rest := Process(received + [mail], entries[i + 1..], filter, fetch);
    assert entries[i..][0] == e && entries[i..][1..] == entries[i + 1..];
    assert notified + ([mail] + rest.notified) == (notified + [mail]) + rest.notified;
    assert fetched + ([id] + rest.fetched) == (fetched + [id]) + rest.fetched;
  }
}
