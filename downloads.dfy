/** The background worker's download orchestration (background.js:1-32,
    66-96): one primary attempt on the upgraded URL, one fallback attempt on
    a URL derived from the original one, each made of a call to the download
    service and the tracking of that download's change events.

    The browser's download service is given as data: for each attempt, what
    `chrome.downloads.download` answers (an id or `runtime.lastError`) and
    the sequence of `chrome.downloads.onChanged` events that follow. */
module Downloads {
  import opened Text
  import UrlRewrite
  import Filename

  /** An `onChanged` event: the download's id, the new `state.current`
      if the state changed, the new `error.current` if an error was set. */
  datatype Delta = Delta(id: int, state: Option<string>, error: Option<string>)

  /** What `chrome.downloads.download` reports to its callback. */
  datatype Answer = Started(downloadId: int) | Rejected(message: string)

  /** The service's behaviour during one attempt. */
  datatype Service = Service(answer: Answer, deltas: seq<Delta>)

  /** Where a tracked download stands: no terminal event yet, resolved, or
      rejected with an error message. */
  datatype Settlement = Pending | Completed | Errored(message: string)

  /** `chrome.downloads.download({url, filename, saveAs: false})` */
  datatype Call = Call(url: string, filename: string)

  /** A `{action: 'download', url, title, index}` message. */
  datatype Request = Request(action: string, url: string, title: Option<string>, index: Option<int>)

  /** What `sendResponse` is called with. */
  datatype Response =
    | Saved(filename: string)                         // {success: true, filename}
    | NotSaved(error: string, attemptedUrl: string)   // {success: false, error, attempted_url}

  // ---------------------------------------------------------------------------
  // trackDownload (background.js:82-96)

  /** `delta` settles the tracking of download `id` (background.js:85-92). */
  predicate Terminal(delta: Delta, id: int)
  {
    delta.id == id && (delta.state == Some("complete") || delta.error.Some?)
  }

  /** How a terminal delta settles: `complete` is checked before `error`. */
  function SettlementOf(delta: Delta): Settlement
    requires delta.state == Some("complete") || delta.error.Some?
  {
    if delta.state == Some("complete") then Completed else Errored(delta.error.value)
  }

  /** The settlement reached by a listener for `id` after `deltas`. */
  ghost function Settle(id: int, deltas: seq<Delta>): Settlement
  {
    if deltas == [] then Pending
    else if Terminal(deltas[0], id) then SettlementOf(deltas[0])
    else Settle(id, deltas[1..])
  }

  /** The first terminal delta decides; deltas for other downloads and
      non-terminal deltas are ignored. */
  lemma {:induction false} SettleIsFirstTerminal(id: int, deltas: seq<Delta>, k: int)
    requires 0 <= k < |deltas| && Terminal(deltas[k], id)
    requires forall j | 0 <= j < k :: !Terminal(deltas[j], id)
    ensures Settle(id, deltas) == SettlementOf(deltas[k])
  {
    if k > 0 {
      SettleIsFirstTerminal(id, deltas[1..], k - 1);
    }
  }

  /** Without a terminal delta the listener stays pending. */
  lemma {:induction false} SettlePendingIffNoTerminal(id: int, deltas: seq<Delta>)
    ensures Settle(id, deltas) == Pending <==> forall j | 0 <= j < |deltas| :: !Terminal(deltas[j], id)
  {
    if deltas != [] {
      SettlePendingIffNoTerminal(id, deltas[1..]);
      assert forall j | 1 <= j < |deltas| :: deltas[j] == deltas[1..][j - 1];
    }
  }

  lemma {:induction false} SettleAppend(id: int, seen: seq<Delta>, d: Delta)
    requires Settle(id, seen) == Pending
    ensures Settle(id, seen + [d]) == Settle(id, [d])
  {
    if seen != [] {
      assert (seen + [d])[1..] == seen[1..] + [d];
      SettleAppend(id, seen[1..], d);
    }
  }

  /** The listener registered on `downloads.onChanged` for one download. */
  class Tracker {
    const downloadId: int
    var listening: bool          // still registered on downloads.onChanged
    var outcome: Settlement
    ghost var seen: seq<Delta>   // the events delivered to it so far

    ghost predicate Valid()
      reads this
    {
      (listening <==> outcome.Pending?) && outcome == Settle(downloadId, seen)
    }

    /** `addListener` (background.js:84) */
    constructor (id: int)
      ensures Valid() && downloadId == id && listening && seen == []
    {
      downloadId := id;
      listening := true;
      outcome := Pending;
      seen := [];
    }

    /** One call of the listener (background.js:84-93): a terminal event for
        this download settles it and removes the listener. */
    method OnChanged(delta: Delta)
      requires Valid() && listening
      modifies this
      ensures Valid() && seen == old(seen) + [delta]
      ensures outcome == (if Terminal(delta, downloadId) then SettlementOf(delta) else Pending)
    {
      SettleAppend(downloadId, seen, delta);
      seen := seen + [delta];
      if delta.id == downloadId {
        if delta.state == Some("complete") {
          listening := false;
          outcome := Completed;
        } else if delta.error.Some? {
          listening := false;
          outcome := Errored(delta.error.value);
        }
      }
    }
  }

  /** `trackDownload(id)` fed the events `deltas` in order. It settles on the
      first terminal event for `id`, which is the last event its listener
      receives; without one it stays pending and the listener stays
      registered. */
  method TrackDownload(id: int, deltas: seq<Delta>) returns (s: Settlement, delivered: nat, registered: bool)
    ensures delivered <= |deltas|
    ensures registered <==> s.Pending?
    ensures s.Pending? <==> forall j | 0 <= j < |deltas| :: !Terminal(deltas[j], id)
    ensures !s.Pending? ==>
      && 0 < delivered && Terminal(deltas[delivered - 1], id)
      && s == SettlementOf(deltas[delivered - 1])
      && forall j | 0 <= j < delivered - 1 :: !Terminal(deltas[j], id)
  {
    var tracker := new Tracker(id);
    var i := 0;
    while i < |deltas| && tracker.listening
      invariant 0 <= i <= |deltas|
      invariant tracker.Valid() && tracker.downloadId == id && tracker.seen == deltas[..i]
      invariant tracker.listening ==> forall j | 0 <= j < i :: !Terminal(deltas[j], id)
      invariant !tracker.listening ==>
        && 0 < i && Terminal(deltas[i - 1], id)
        && tracker.outcome == SettlementOf(deltas[i - 1])
        && forall j | 0 <= j < i - 1 :: !Terminal(deltas[j], id)
    {
      tracker.OnChanged(deltas[i]);
      i := i + 1;
    }
    s, delivered, registered := tracker.outcome, i, tracker.listening;
  }

  // ---------------------------------------------------------------------------
  // initiateDownload + trackDownload, and handleDownload (background.js:8-32)

  /** How one attempt ends, as a function of the service's behaviour. */
  ghost function AttemptOutcome(service: Service): Settlement
  {
    match service.answer
    case Rejected(message) => Errored(message)
    case Started(id) => Settle(id, service.deltas)
  }

  /** `await initiateDownload(url, filename)` then `await trackDownload(id)`
      (background.js:15-16 and 21-22). */
  method Attempt(url: string, filename: string, service: Service) returns (r: Settlement, call: Call)
    ensures call == Call(url, filename)
    ensures service.answer.Rejected? ==> r == Errored(service.answer.message)
    ensures service.answer.Started? ==>
      (r.Pending? <==> forall j | 0 <= j < |service.deltas| :: !Terminal(service.deltas[j], service.answer.downloadId))
    ensures r == AttemptOutcome(service)
  {
    call := Call(url, filename);
    match service.answer
    case Rejected(message) =>
      r := Errored(message);
    case Started(id) =>
      var delivered, registered;
      r, delivered, registered := TrackDownload(id, service.deltas);
      if !r.Pending? {
        SettleIsFirstTerminal(id, service.deltas, delivered - 1);
      } else {
        SettlePendingIffNoTerminal(id, service.deltas);
      }
  }

  /** What `handleDownload` does with `request`, given the clock and the two
      attempts' services: the download calls it makes and the responses it
      sends. */
  ghost predicate Handled(request: Request, clock: string, primary: Service, fallback: Service,
                          responses: seq<Response>, calls: seq<Call>)
  {
    var filename := Filename.GenerateFilename(request.title, request.index, clock);
    && 1 <= |calls| <= 2
    && calls[0] == Call(UrlRewrite.HighestQualityUrl(request.url), filename)
    && (|calls| == 2 <==> AttemptOutcome(primary).Errored?)
    && (|calls| == 2 ==> calls[1] == Call(UrlRewrite.FallbackUrl(request.url), filename))
    && (responses == [Saved(filename)] <==>
          AttemptOutcome(primary).Completed?
          || (AttemptOutcome(primary).Errored? && AttemptOutcome(fallback).Completed?))
    && (AttemptOutcome(primary).Errored? && AttemptOutcome(fallback).Errored? ==>
          responses == [NotSaved(AttemptOutcome(fallback).message, request.url)])
    && (responses == [] <==>
          AttemptOutcome(primary).Pending?
          || (AttemptOutcome(primary).Errored? && AttemptOutcome(fallback).Pending?))
    && |responses| <= 1
  }

  /** `handleDownload(request, sendResponse)`. `calls` lists the download
      service calls made, `responses` the calls of `sendResponse`; an attempt
      that never settles leaves the handler waiting with no response. */
  method HandleDownload(request: Request, clock: string, primary: Service, fallback: Service)
    returns (responses: seq<Response>, calls: seq<Call>)
    ensures Handled(request, clock, primary, fallback, responses, calls)
  {
    var highQualityUrl := UrlRewrite.HighestQualityUrl(request.url);
    var filename := Filename.GenerateFilename(request.title, request.index, clock);
    var first, call := Attempt(highQualityUrl, filename, primary);
    calls := [call];
    responses := [];
    match first
    case Completed =>
      responses := [Saved(filename)];
    case Pending =>
    case Errored(_) =>
      var fallbackUrl := UrlRewrite.FallbackUrl(request.url);
      var second, call2 := Attempt(fallbackUrl, filename, fallback);
      calls := calls + [call2];
      match second
      case Completed =>
        responses := [Saved(filename)];
      case Pending =>
      case Errored(message) =>
        responses := [NotSaved(message, request.url)];
  }

  /** The `runtime.onMessage` listener (background.js:1-6): only
      `download` requests are handled. */
  method OnMessage(request: Request, clock: string, primary: Service, fallback: Service)
    returns (responses: seq<Response>, calls: seq<Call>)
    ensures request.action != "download" ==> responses == [] && calls == []
    ensures request.action == "download" ==> Handled(request, clock, primary, fallback, responses, calls)
  {
    if request.action == "download" {
      responses, calls := HandleDownload(request, clock, primary, fallback);
    } else {
      responses, calls := [], [];
    }
  }
}
