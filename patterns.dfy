/**
 * The two regular-expression extractions the watcher applies to each listing
 * entry, modelled as leftmost-match scanners.  For each pattern there is a
 * declarative predicate saying what a match of the pattern is, and lemmas
 * proving that the scanner returns exactly the capture group of the match the
 * .NET engine selects (leftmost start, greedy quantifiers with backtracking),
 * and the empty string when the pattern does not occur, as
 * `Regex.Match(...).Groups[1].Value` does.
 */
module MailPatterns {

  import opened Wrappers

  /** `lit` occurs in `s` starting at position `p`. */
  predicate HasAt(s: string, p: nat, lit: string)
  {
    p + |lit| <= |s| && forall k :: 0 <= k < |lit| ==> s[p + k] == lit[k]
  }

  /**
   * End of the maximal run of characters outside `stops` that starts at `i`:
   * what a greedy `[^...]+`/`[^...]*` reaches before backtracking.
   */
  function RunEnd(s: string, i: nat, stop1: char, stop2: char): (j: nat)
    requires i <= |s|
    ensures i <= j <= |s|
    ensures forall k :: i <= k < j ==> s[k] != stop1 && s[k] != stop2
    ensures j < |s| ==> s[j] == stop1 || s[j] == stop2
    decreases |s| - i
  {
    if i == |s| || s[i] == stop1 || s[i] == stop2 then i else RunEnd(s, i + 1, stop1, stop2)
  }

  /** A maximal run is unique: any run that ends at a stop (or the end) is RunEnd's. */
  lemma RunEndUnique(s: string, i: nat, j: nat, stop1: char, stop2: char)
    requires i <= j <= |s|
    requires forall k :: i <= k < j ==> s[k] != stop1 && s[k] != stop2
    requires j < |s| ==> s[j] == stop1 || s[j] == stop2
    ensures RunEnd(s, i, stop1, stop2) == j
  {
  }

  /** A concatenation occurs at `p` exactly when its halves occur one after the other. */
  lemma HasAtConcat(s: string, p: nat, x: string, y: string)
    ensures HasAt(s, p, x + y) <==> HasAt(s, p, x) && HasAt(s, p + |x|, y)
  {
    if HasAt(s, p, x + y) {
      forall k | 0 <= k < |x| ensures s[p + k] == x[k] {
        assert s[p + k] == (x + y)[k];
      }
      forall k | 0 <= k < |y| ensures s[p + |x| + k] == y[k] {
        assert s[p + (|x| + k)] == (x + y)[|x| + k];
      }
    }
    if HasAt(s, p, x) && HasAt(s, p + |x|, y) {
      forall k | 0 <= k < |x + y| ensures s[p + k] == (x + y)[k] {
        if k >= |x| {
          assert s[p + |x| + (k - |x|)] == y[k - |x|];
        }
      }
    }
  }

  /** A one-character literal occurs at `p` exactly when `s[p]` is that character. */
  lemma HasAtChar(s: string, p: nat, c: char)
    ensures HasAt(s, p, [c]) <==> p < |s| && s[p] == c
  {
    if HasAt(s, p, [c]) {
      assert s[p + 0] == [c][0];
    }
    if p < |s| && s[p] == c {
      forall k | 0 <= k < 1 ensures s[p + k] == [c][k] {
        assert k == 0;
      }
    }
  }

  /** A text free of two stop characters, occurring at `p`, puts no stop in its span. */
  lemma HasAtAvoids(s: string, p: nat, x: string, stop1: char, stop2: char)
    requires HasAt(s, p, x)
    requires forall k :: 0 <= k < |x| ==> x[k] != stop1 && x[k] != stop2
    ensures forall n :: p <= n < p + |x| ==> s[n] != stop1 && s[n] != stop2
  {
    forall n | p <= n < p + |x| ensures s[n] != stop1 && s[n] != stop2 {
      assert s[p + (n - p)] == x[n - p];
    }
  }

  // ---------------------------------------------------------------------------
  // Message id:  \/inbox\/[^\/]+\/[^\/]+\/message-([^ \/]+)\/
  // ---------------------------------------------------------------------------

  const InboxLit: string := "/inbox/"
  const MessageLit: string := "/message-"

  /** Text a `[^\/]+` can match. */
  predicate Segment(x: string)
  {
    |x| > 0 && forall k :: 0 <= k < |x| ==> x[k] != '/'
  }

  /** Text the capture group `[^ \/]+` can match. */
  predicate IdToken(x: string)
  {
    |x| > 0 && forall k :: 0 <= k < |x| ==> x[k] != '/' && x[k] != ' '
  }

  /** The text matched by the id pattern for the given segments and captured id. */
  function IdPatternText(seg1: string, seg2: string, id: string): string
  {
    InboxLit + seg1 + "/" + seg2 + MessageLit + id + "/"
  }

  /** `([^ \/]+)\/` matches at `b`, capturing `id`. */
  predicate CaptureAt(s: string, b: nat, id: string)
  {
    IdToken(id) && HasAt(s, b, id) && b + |id| < |s| && s[b + |id|] == '/'
  }

  /** `[^\/]+\/message-([^ \/]+)\/` matches at `c`. */
  predicate SecondSegmentAt(s: string, c: nat, seg2: string, id: string)
  {
    Segment(seg2) && HasAt(s, c, seg2) && HasAt(s, c + |seg2|, MessageLit) &&
    CaptureAt(s, c + |seg2| + |MessageLit|, id)
  }

  /** `[^\/]+\/[^\/]+\/message-([^ \/]+)\/` matches at `a`. */
  predicate FirstSegmentAt(s: string, a: nat, seg1: string, seg2: string, id: string)
  {
    Segment(seg1) && HasAt(s, a, seg1) && a + |seg1| < |s| && s[a + |seg1|] == '/' &&
    SecondSegmentAt(s, a + |seg1| + 1, seg2, id)
  }

  /**
   * The whole id pattern matches `s` at `p`, with these segments and this
   * capture (IdMatchIsPatternText restates it as one occurrence of the text).
   */
  predicate IdMatch(s: string, p: nat, seg1: string, seg2: string, id: string)
  {
    HasAt(s, p, InboxLit) && FirstSegmentAt(s, p + |InboxLit|, seg1, seg2, id)
  }

  /** The id pattern occurs nowhere in `s`. */
  ghost predicate NoIdMatch(s: string)
  {
    forall p: nat, seg1, seg2, id :: !IdMatch(s, p, seg1, seg2, id)
  }

  /** The id pattern's leftmost match starts at `p` and captures `id`. */
  ghost predicate LeftmostIdMatch(s: string, p: nat, id: string)
  {
    (exists seg1, seg2 :: IdMatch(s, p, seg1, seg2, id)) &&
    forall q: nat, seg1, seg2, x :: q < p ==> !IdMatch(s, q, seg1, seg2, x)
  }

  /** A match is exactly an occurrence of the whole text the pattern describes. */
  lemma IdMatchIsPatternText(s: string, p: nat, seg1: string, seg2: string, id: string)
    ensures IdMatch(s, p, seg1, seg2, id) <==>
      Segment(seg1) && Segment(seg2) && IdToken(id) && HasAt(s, p, IdPatternText(seg1, seg2, id))
  {
    var t1 := InboxLit + seg1;
    var t2 := t1 + "/";
    var t3 := t2 + seg2;
    var t4 := t3 + MessageLit;
    var t5 := t4 + id;
    assert IdPatternText(seg1, seg2, id) == t5 + "/";
    HasAtConcat(s, p, t5, "/");
    HasAtChar(s, p + |t5|, '/');
    HasAtConcat(s, p, t4, id);
    HasAtConcat(s, p, t3, MessageLit);
    HasAtConcat(s, p, t2, seg2);
    HasAtConcat(s, p, t1, "/");
    HasAtChar(s, p + |t1|, '/');
    HasAtConcat(s, p, InboxLit, seg1);
  }

  // Every quantifier of the id pattern is followed by a character it cannot
  // match, so backtracking never helps: each takes its maximal run, and the
  // scan below is staged like the pattern, one piece per function.

  /** Match `([^ \/]+)\/` at `b`. */
  function ScanCapture(s: string, b: nat): (r: Option<string>)
    requires b <= |s|
    ensures r.Some? ==> CaptureAt(s, b, r.value)
  {
    var k := RunEnd(s, b, '/', ' ');
    if k == b || k == |s| || s[k] != '/' then None
    else Some(s[b..k])
  }

  /** Match `[^\/]+\/message-([^ \/]+)\/` at `c`, giving the segment and the capture. */
  function ScanSecondSegment(s: string, c: nat): (r: Option<(string, string)>)
    requires c <= |s|
    ensures r.Some? ==> SecondSegmentAt(s, c, r.value.0, r.value.1)
  {
    var j := RunEnd(s, c, '/', '/');
    if j == c || !HasAt(s, j, MessageLit) then None
    else
      match ScanCapture(s, j + |MessageLit|)
      case None => None
      case Some(id) => Some((s[c..j], id))
  }

  /** Match `[^\/]+\/[^\/]+\/message-([^ \/]+)\/` at `a`, giving both segments and the capture. */
  function ScanFirstSegment(s: string, a: nat): (r: Option<(string, string, string)>)
    requires a <= |s|
    ensures r.Some? ==> FirstSegmentAt(s, a, r.value.0, r.value.1, r.value.2)
  {
    var i := RunEnd(s, a, '/', '/');
    if i == a || i == |s| then None
    else
      match ScanSecondSegment(s, i + 1)
      case None => None
      case Some((seg2, id)) =>
        FirstSegmentAtIntro(s, a, i, seg2, id);
        Some((s[a..i], seg2, id))
  }

  /** A maximal non-empty run of non-'/' characters, a '/', and the rest of the pattern. */
  lemma FirstSegmentAtIntro(s: string, a: nat, i: nat, seg2: string, id: string)
    requires a < i < |s| && i == RunEnd(s, a, '/', '/')
    requires SecondSegmentAt(s, i + 1, seg2, id)
    ensures FirstSegmentAt(s, a, s[a..i], seg2, id)
  {
  }

  /** Attempt the whole id pattern at the fixed start `p`. */
  function IdMatchAt(s: string, p: nat): (r: Option<(string, string, string)>)
    requires p <= |s|
    ensures r.Some? ==> IdMatch(s, p, r.value.0, r.value.1, r.value.2)
  {
    if !HasAt(s, p, InboxLit) then None
    else ScanFirstSegment(s, p + |InboxLit|)
  }

  lemma ScanCaptureComplete(s: string, b: nat, id: string)
    requires CaptureAt(s, b, id)
    ensures b <= |s| && ScanCapture(s, b) == Some(id)
  {
    var k := b + |id|;
    HasAtAvoids(s, b, id, '/', ' ');
    RunEndUnique(s, b, k, '/', ' ');
    assert s[b..k] == id;
  }

  lemma ScanSecondSegmentComplete(s: string, c: nat, seg2: string, id: string)
    requires SecondSegmentAt(s, c, seg2, id)
    ensures c <= |s| && ScanSecondSegment(s, c) == Some((seg2, id))
  {
    var j := c + |seg2|;
    assert s[j] == '/' by { assert s[j + 0] == MessageLit[0]; }
    HasAtAvoids(s, c, seg2, '/', '/');
    RunEndUnique(s, c, j, '/', '/');
    ScanCaptureComplete(s, j + |MessageLit|, id);
    assert s[c..j] == seg2;
  }

  lemma ScanFirstSegmentComplete(s: string, a: nat, seg1: string, seg2: string, id: string)
    requires FirstSegmentAt(s, a, seg1, seg2, id)
    ensures a <= |s| && ScanFirstSegment(s, a) == Some((seg1, seg2, id))
  {
    var i := a + |seg1|;
    FirstSegmentAtParts(s, a, seg1, seg2, id);
    ScanSecondSegmentComplete(s, i + 1, seg2, id);
    ScanFirstSegmentFound(s, a, i, seg2, id);
  }

  /** The scan's result once its first run and the rest of the pattern are known. */
  lemma ScanFirstSegmentFound(s: string, a: nat, i: nat, seg2: string, id: string)
    requires a < i < |s| && RunEnd(s, a, '/', '/') == i && ScanSecondSegment(s, i + 1) == Some((seg2, id))
    ensures ScanFirstSegment(s, a) == Some((s[a..i], seg2, id))
  {
  }

  /** What a match of the first segment says about the scan's first run. */
  lemma FirstSegmentAtParts(s: string, a: nat, seg1: string, seg2: string, id: string)
    requires FirstSegmentAt(s, a, seg1, seg2, id)
    ensures a < a + |seg1| < |s| && RunEnd(s, a, '/', '/') == a + |seg1| && s[a..a + |seg1|] == seg1
    ensures SecondSegmentAt(s, a + |seg1| + 1, seg2, id)
  {
    var i := a + |seg1|;
    HasAtAvoids(s, a, seg1, '/', '/');
    RunEndUnique(s, a, i, '/', '/');
    assert s[a..i] == seg1;
  }

  /** Every match of the id pattern at `p` is the one the scan finds there. */
  lemma IdMatchAtComplete(s: string, p: nat, seg1: string, seg2: string, id: string)
    requires IdMatch(s, p, seg1, seg2, id)
    ensures p <= |s| && IdMatchAt(s, p) == Some((seg1, seg2, id))
  {
    ScanFirstSegmentComplete(s, p + |InboxLit|, seg1, seg2, id);
  }

  /** The id pattern is deterministic once its start position is fixed. */
  lemma IdMatchDeterministic(s: string, p: nat, seg1: string, seg2: string, id: string,
                             seg1': string, seg2': string, id': string)
    requires IdMatch(s, p, seg1, seg2, id) && IdMatch(s, p, seg1', seg2', id')
    ensures seg1 == seg1' && seg2 == seg2' && id == id'
  {
    IdMatchAtComplete(s, p, seg1, seg2, id);
    IdMatchAtComplete(s, p, seg1', seg2', id');
  }

  /** Leftmost search for the id pattern from position `p` on: the start, both segments and the capture. */
  function FirstIdMatch(s: string, p: nat): (r: Option<(nat, string, string, string)>)
    requires p <= |s|
    ensures r.Some? ==> p <= r.value.0 <= |s| && IdMatch(s, r.value.0, r.value.1, r.value.2, r.value.3)
    decreases |s| - p
  {
    match IdMatchAt(s, p)
    case Some((seg1, seg2, id)) => Some((p, seg1, seg2, id))
    case None => if p == |s| then None else FirstIdMatch(s, p + 1)
  }

  /** `Regex.Match(href, MailIdPattern).Groups[1].Value`: the capture, or "" without a match. */
  function ExtractId(href: string): string
  {
    match FirstIdMatch(href, 0)
    case Some((_, _, _, id)) => id
    case None => ""
  }

  /** No match of the id pattern starts at `p`. */
  lemma NoIdMatchAt(s: string, p: nat)
    requires p <= |s| && IdMatchAt(s, p).None?
    ensures forall seg1, seg2, x :: !IdMatch(s, p, seg1, seg2, x)
  {
    forall seg1, seg2, x ensures !IdMatch(s, p, seg1, seg2, x) {
      if IdMatch(s, p, seg1, seg2, x) { IdMatchAtComplete(s, p, seg1, seg2, x); }
    }
  }

  /** The search finds no match, or the first one, at or after `p`. */
  lemma {:induction false} FirstIdMatchIsLeftmost(s: string, p: nat)
    requires p <= |s|
    ensures var r := FirstIdMatch(s, p);
      forall q: nat, seg1, seg2, x :: p <= q && (r.Some? ==> q < r.value.0) ==> !IdMatch(s, q, seg1, seg2, x)
    decreases |s| - p
  {
    if IdMatchAt(s, p).None? {
      NoIdMatchAt(s, p);
      if p < |s| {
        FirstIdMatchIsLeftmost(s, p + 1);
      }
    }
  }

  /**
   * The extracted id is the capture of the leftmost match of the id pattern,
   * and it is empty exactly when the pattern does not occur.
   */
  lemma ExtractIdIsLeftmostCapture(href: string)
    ensures ExtractId(href) == "" <==> NoIdMatch(href)
    ensures ExtractId(href) != "" ==> exists p: nat :: p <= |href| && LeftmostIdMatch(href, p, ExtractId(href))
  {
    FirstIdMatchIsLeftmost(href, 0);
    match FirstIdMatch(href, 0)
    case Some((p, seg1, seg2, id)) =>
      assert LeftmostIdMatch(href, p, id);
    case None =>
  }

  /**
   * The extracted id is either empty or a non-empty token with no '/' or ' '
   * such that "message-" + id + "/" occurs in the link.
   */
  lemma ExtractIdShape(href: string)
    ensures var id := ExtractId(href);
      id == "" || (IdToken(id) && exists k: nat :: HasAt(href, k, "message-" + id + "/"))
  {
    var id := ExtractId(href);
    ExtractIdIsLeftmostCapture(href);
    if id != "" {
      var p: nat :| p <= |href| && LeftmostIdMatch(href, p, id);
      var seg1, seg2 :| IdMatch(href, p, seg1, seg2, id);
      MessageTextInMatch(href, p, seg1, seg2, id);
    }
  }

  /** A match contains "message-", its capture and "/" one after the other. */
  lemma MessageTextInMatch(s: string, p: nat, seg1: string, seg2: string, id: string)
    requires IdMatch(s, p, seg1, seg2, id)
    ensures IdToken(id) && HasAt(s, p + |InboxLit| + |seg1| + 2 + |seg2|, "message-" + id + "/")
  {
    var j := p + |InboxLit| + |seg1| + 1 + |seg2|;
    assert MessageLit == "/" + "message-";
    HasAtConcat(s, j, "/", "message-");
    HasAtConcat(s, j + 1, "message-", id);
    HasAtConcat(s, j + 1, "message-" + id, "/");
    HasAtChar(s, j + 1 + |"message-" + id|, '/');
  }

  // ---------------------------------------------------------------------------
  // Sender address:  [^<]+ &lt;([^>]+)&gt;
  // ---------------------------------------------------------------------------

  const OpenLit: string := " &lt;"
  const CloseLit: string := "&gt;"

  /**
   * The sender pattern matches `s` with its name part `s[p..e]`, then the
   * literal " &lt;", the capture `s[e+5..g]`, then the literal "&gt;".
   */
  ghost predicate FromMatch(s: string, p: nat, e: nat, g: nat)
  {
    p < e && e + |OpenLit| < g && g <= |s| &&
    (forall k :: p <= k < e ==> s[k] != '<') &&
    HasAt(s, e, OpenLit) &&
    (forall k :: e + |OpenLit| <= k < g ==> s[k] != '>') &&
    HasAt(s, g, CloseLit)
  }

  /**
   * The match a backtracking engine selects: leftmost start, then the longest
   * name part that admits a match, then the longest capture.
   */
  ghost predicate PreferredFromMatch(s: string, p: nat, e: nat, g: nat)
  {
    FromMatch(s, p, e, g) &&
    forall p': nat, e': nat, g': nat :: FromMatch(s, p', e', g') ==>
      p <= p' && (p' == p ==> e' <= e && (e' == e ==> g' <= g))
  }

  /** The sender pattern occurs nowhere in `s`. */
  ghost predicate NoFromMatch(s: string)
  {
    forall p: nat, e: nat, g: nat :: !FromMatch(s, p, e, g)
  }

  /** Greedy `([^>]+)&gt;` backtracking from `g` down: the largest capture end. */
  function LastCloseAt(s: string, c: nat, g: nat): (r: Option<nat>)
    requires c <= |s| && c <= g <= RunEnd(s, c, '>', '>')
    ensures r.Some? ==> c < r.value <= g && HasAt(s, r.value, CloseLit)
    ensures forall h :: (if r.Some? then r.value else c) < h <= g ==> !HasAt(s, h, CloseLit)
    decreases g
  {
    if g == c then None
    else if HasAt(s, g, CloseLit) then Some(g)
    else LastCloseAt(s, c, g - 1)
  }

  /** The capture end after the opening literal at `e`, if any. */
  function CloseAfter(s: string, e: nat): (r: Option<nat>)
    requires e + |OpenLit| <= |s|
    ensures r.Some? ==>
      e + |OpenLit| < r.value <= |s| && (forall k :: e + |OpenLit| <= k < r.value ==> s[k] != '>') &&
      HasAt(s, r.value, CloseLit)
  {
    var c := e + |OpenLit|;
    LastCloseAt(s, c, RunEnd(s, c, '>', '>'))
  }

  /** Greedy `[^<]+` backtracking from `e` down: the largest name end admitting a match. */
  function LastOpenAt(s: string, p: nat, e: nat): (r: Option<(nat, nat)>)
    requires p <= |s| && p <= e <= RunEnd(s, p, '<', '<')
    ensures r.Some? ==> p < r.value.0 <= e && FromMatch(s, p, r.value.0, r.value.1)
    decreases e
  {
    if e == p then None
    else if HasAt(s, e, OpenLit) && CloseAfter(s, e).Some? then Some((e, CloseAfter(s, e).value))
    else LastOpenAt(s, p, e - 1)
  }

  /** Attempt the sender pattern at the fixed start `p`, giving the name end and the capture end. */
  function FromMatchAt(s: string, p: nat): (r: Option<(nat, nat)>)
    requires p <= |s|
    ensures r.Some? ==> FromMatch(s, p, r.value.0, r.value.1)
  {
    LastOpenAt(s, p, RunEnd(s, p, '<', '<'))
  }

  lemma {:induction false} LastCloseAtIsLargest(s: string, e: nat, g: nat, top: nat)
    requires e + |OpenLit| <= |s| && e + |OpenLit| <= top <= RunEnd(s, e + |OpenLit|, '>', '>')
    requires g <= top && HasAt(s, g, CloseLit) && e + |OpenLit| < g
    ensures LastCloseAt(s, e + |OpenLit|, top).Some?
    ensures g <= LastCloseAt(s, e + |OpenLit|, top).value
    decreases top
  {
    if top != g && !HasAt(s, top, CloseLit) {
      LastCloseAtIsLargest(s, e, g, top - 1);
    }
  }

  /** For a fixed start and name end, CloseAfter finds the longest capture. */
  lemma CloseAfterComplete(s: string, p: nat, e: nat, g: nat)
    requires FromMatch(s, p, e, g)
    ensures CloseAfter(s, e).Some? && g <= CloseAfter(s, e).value
  {
    var c := e + |OpenLit|;
    var top := RunEnd(s, c, '>', '>');
    assert top < |s| ==> s[top] == '>';
    LastCloseAtIsLargest(s, e, g, top);
  }

  lemma {:induction false} LastOpenAtIsLargest(s: string, p: nat, e: nat, g: nat, top: nat)
    requires FromMatch(s, p, e, g)
    requires p <= top <= RunEnd(s, p, '<', '<') && e <= top
    ensures LastOpenAt(s, p, top).Some?
    ensures e <= LastOpenAt(s, p, top).value.0
    ensures e == LastOpenAt(s, p, top).value.0 ==> g <= LastOpenAt(s, p, top).value.1
    decreases top
  {
    CloseAfterComplete(s, p, e, g);
    if top != e && !(HasAt(s, top, OpenLit) && CloseAfter(s, top).Some?) {
      LastOpenAtIsLargest(s, p, e, g, top - 1);
      LastOpenAtSkips(s, p, top);
    }
  }

  /** A name end that admits no match is passed over by the backtracking. */
  lemma LastOpenAtSkips(s: string, p: nat, top: nat)
    requires p < top <= |s| && top <= RunEnd(s, p, '<', '<')
    requires !(HasAt(s, top, OpenLit) && CloseAfter(s, top).Some?)
    ensures LastOpenAt(s, p, top) == LastOpenAt(s, p, top - 1)
  {
  }

  /** At a fixed start, the scanner returns the preferred match, or None when there is none. */
  lemma FromMatchAtComplete(s: string, p: nat, e: nat, g: nat)
    requires FromMatch(s, p, e, g)
    ensures FromMatchAt(s, p).Some?
    ensures e <= FromMatchAt(s, p).value.0
    ensures e == FromMatchAt(s, p).value.0 ==> g <= FromMatchAt(s, p).value.1
  {
    var top := RunEnd(s, p, '<', '<');
    assert top < |s| ==> s[top] == '<';
    LastOpenAtIsLargest(s, p, e, g, top);
  }

  /** Leftmost search for the sender pattern from position `p` on. */
  function FirstFromMatchFrom(s: string, p: nat): (r: Option<(nat, nat, nat)>)
    requires p <= |s|
    ensures r.Some? ==> FromMatch(s, r.value.0, r.value.1, r.value.2)
    decreases |s| - p
  {
    match FromMatchAt(s, p)
    case Some((e, g)) => Some((p, e, g))
    case None => if p == |s| then None else FirstFromMatchFrom(s, p + 1)
  }

  /** `Regex.Match(senderText, MailFromPattern).Groups[1].Value`. */
  function ExtractFrom(senderText: string): string
  {
    match FirstFromMatchFrom(senderText, 0)
    case Some((_, e, g)) => senderText[e + |OpenLit|..g]
    case None => ""
  }

  lemma {:induction false} FirstFromMatchFromSpec(s: string, p: nat)
    requires p <= |s|
    requires forall q: nat, e: nat, g: nat :: q < p ==> !FromMatch(s, q, e, g)
    ensures FirstFromMatchFrom(s, p).None? <==> NoFromMatch(s)
    ensures FirstFromMatchFrom(s, p).Some? ==>
      var (q, e, g) := FirstFromMatchFrom(s, p).value;
      PreferredFromMatch(s, q, e, g)
    decreases |s| - p
  {
    match FromMatchAt(s, p)
    case Some((e, g)) =>
      forall p': nat, e': nat, g': nat | FromMatch(s, p', e', g')
        ensures p <= p' && (p' == p ==> e' <= e && (e' == e ==> g' <= g))
      {
        if p' == p { FromMatchAtComplete(s, p, e', g'); }
      }
      assert PreferredFromMatch(s, p, e, g);
    case None =>
      forall e: nat, g: nat ensures !FromMatch(s, p, e, g) {
        if FromMatch(s, p, e, g) { FromMatchAtComplete(s, p, e, g); }
      }
      if p < |s| {
        FirstFromMatchFromSpec(s, p + 1);
      }
  }

  /**
   * The extracted sender is the capture of the match the regex engine
   * selects, and it is empty exactly when the pattern does not occur.
   */
  lemma ExtractFromIsPreferredCapture(senderText: string)
    ensures ExtractFrom(senderText) == "" <==> NoFromMatch(senderText)
    ensures ExtractFrom(senderText) != "" ==>
      exists p: nat, e: nat, g: nat :: PreferredFromMatch(senderText, p, e, g) &&
        ExtractFrom(senderText) == senderText[e + |OpenLit|..g]
  {
    FirstFromMatchFromSpec(senderText, 0);
  }

  /** A match contains " &lt;", its capture and "&gt;" one after the other. */
  lemma CaptureTextInFromMatch(s: string, p: nat, e: nat, g: nat)
    requires FromMatch(s, p, e, g)
    ensures var from := s[e + |OpenLit|..g];
      (forall k :: 0 <= k < |from| ==> from[k] != '>') && HasAt(s, e, OpenLit + from + CloseLit)
  {
    var from := s[e + |OpenLit|..g];
    assert HasAt(s, e + |OpenLit|, from);
    HasAtConcat(s, e, OpenLit, from);
    HasAtConcat(s, e, OpenLit + from, CloseLit);
  }

  /**
   * A non-empty extracted sender contains no '>' and occurs in the text
   * between " &lt;" and "&gt;".
   */
  lemma ExtractFromShape(senderText: string)
    ensures var from := ExtractFrom(senderText);
      from == "" ||
      ((forall k :: 0 <= k < |from| ==> from[k] != '>') &&
       exists k: nat :: HasAt(senderText, k, OpenLit + from + CloseLit))
  {
    ExtractFromIsPreferredCapture(senderText);
    if ExtractFrom(senderText) != "" {
      var p: nat, e: nat, g: nat :| PreferredFromMatch(senderText, p, e, g) &&
        ExtractFrom(senderText) == senderText[e + |OpenLit|..g];
      CaptureTextInFromMatch(senderText, p, e, g);
    }
  }
}
