/** The popup's controller (popup.js:1-15, 69-109): the two buttons, the
    status line, and `downloadImages`, which finds the listing's images and
    asks the background worker to save them one at a time.

    The controller keeps the state the user and the background worker can
    observe: whether the buttons are disabled, the status line, and the
    download requests sent so far. The background worker's answers are
    given as an oracle: `reply(j)` answers the `j`-th request of a batch, or
    is absent when no answer ever arrives. */
module Popup {
  import opened Text
  import Extraction
  import Downloads
  import Filename

  const FindingImages := "Finding images..."
  const NoImages := "No images found on this page"
  const DownloadFailed := "Download failed"

  function DownloadingText(n: nat): string
  {
    "Downloading " + Decimal(n) + " image(s)..."
  }

  function SucceededText(n: nat): string
  {
    "Successfully downloaded " + Decimal(n) + " image(s)!"
  }

  /** `response.error || 'Download failed'` */
  function ErrorText(error: string): (text: string)
    ensures text != ""
    ensures error != "" ==> text == error
    ensures error == "" ==> text == DownloadFailed
  {
    if error == "" then DownloadFailed else error
  }

  /** The request sent for the `i`-th image of a batch: numbered from 1 in
      "all" mode, unnumbered otherwise. */
  function RequestFor(url: string, title: Option<string>, all: bool, i: nat): Downloads.Request
  {
    Downloads.Request("download", url, title, if all then Some(i + 1) else None)
  }

  /** The requests of a batch (popup.js:81-91): every image in "all" mode,
      only the first one otherwise. */
  function Requests(images: seq<string>, title: Option<string>, all: bool): (rs: seq<Downloads.Request>)
    requires |images| > 0
    ensures |rs| == (if all then |images| else 1)
    ensures forall i | 0 <= i < |rs| :: rs[i] == RequestFor(images[i], title, all, i)
  {
    if all then seq(|images|, i requires 0 <= i < |images| => RequestFor(images[i], title, all, i))
    else [RequestFor(images[0], title, all, 0)]
  }

  /** In "all" mode the background worker names every image of a batch
      differently, even when all of them are saved within the same second. */
  lemma RequestsNamedApart(images: seq<string>, title: Option<string>, clock: string, i: int, j: int)
    requires |images| > 0
    requires 0 <= i < j < |Requests(images, title, true)|
    ensures var rs := Requests(images, title, true);
      Filename.GenerateFilename(rs[i].title, rs[i].index, clock)
        != Filename.GenerateFilename(rs[j].title, rs[j].index, clock)
  {
    var rs := Requests(images, title, true);
    if Filename.GenerateFilename(title, rs[i].index, clock) == Filename.GenerateFilename(title, rs[j].index, clock) {
      Filename.IndexDisambiguates(title, rs[i].index, rs[j].index, clock);
    }
  }

  /** The reply to a request reports a saved image. */
  predicate Succeeded(reply: Option<Downloads.Response>)
  {
    reply.Some? && reply.value.Saved?
  }

  /** What `findImages` resolves to once the gate is passed and the script
      ran. */
  ghost function Found(page: Extraction.Page): Extraction.Listing
  {
    if page.answered then Extraction.Listing(Extraction.FirstSeen(Extraction.Chosen(page.groups)), page.title)
    else Extraction.Listing([], Some(""))
  }

  /** How a batch `rs` ended, given the requests actually `sent`, the final
      status line and whether the buttons are still disabled: requests go
      out in order and stop at the first one not reported saved; the status
      says why; the buttons stay disabled only while an answer is awaited. */
  ghost predicate Reported(rs: seq<Downloads.Request>, sent: seq<Downloads.Request>,
                           reply: nat -> Option<Downloads.Response>,
                           text: string, kind: string, disabled: bool)
  {
    var m := |sent|;
    && 0 < m <= |rs| && sent == rs[..m]
    && (forall j | 0 <= j < m - 1 :: Succeeded(reply(j)))
    && (m < |rs| ==> !Succeeded(reply(m - 1)))
    && (kind == "success" <==> m == |rs| && Succeeded(reply(m - 1)))
    && (kind == "success" ==> text == SucceededText(|rs|) && !disabled)
    && (reply(m - 1).None? ==> text == DownloadingText(|rs|) && kind == "progress" && disabled)
    && (reply(m - 1).Some? && reply(m - 1).value.NotSaved? ==>
          text == ErrorText(reply(m - 1).value.error) && kind == "error" && !disabled)
  }

  lemma ReportedFrom(rs: seq<Downloads.Request>, count: nat, reply: nat -> Option<Downloads.Response>,
                     text: string, kind: string, disabled: bool)
    requires 0 < count <= |rs|
    requires forall j | 0 <= j < count - 1 :: Succeeded(reply(j))
    requires count < |rs| ==> !Succeeded(reply(count - 1))
    requires Succeeded(reply(count - 1)) ==> text == SucceededText(|rs|) && kind == "success" && !disabled
    requires reply(count - 1).None? ==> text == DownloadingText(|rs|) && kind == "progress" && disabled
    requires reply(count - 1).Some? && reply(count - 1).value.NotSaved? ==>
      text == ErrorText(reply(count - 1).value.error) && kind == "error" && !disabled
    ensures Reported(rs, rs[..count], reply, text, kind, disabled)
  {
  }

  class Controller {
    var mainDisabled: bool
    var allDisabled: bool
    var statusText: string
    var statusClass: string
    var sent: seq<Downloads.Request>   // requests sent to the background worker

    constructor ()
      ensures !mainDisabled && !allDisabled && statusText == "" && statusClass == "" && sent == []
    {
      mainDisabled, allDisabled := false, false;
      statusText, statusClass := "", "";
      sent := [];
    }

    /** `showStatus(message, type)` (popup.js:6-15) */
    method ShowStatus(message: string, kind: string)
      modifies this
      ensures statusText == message && statusClass == kind
      ensures mainDisabled == old(mainDisabled) && allDisabled == old(allDisabled) && sent == old(sent)
    {
      statusText, statusClass := message, kind;
    }

    /** Both buttons' `disabled` (popup.js:71-72, 103-104) */
    method SetButtons(disabled: bool)
      modifies this
      ensures mainDisabled == disabled && allDisabled == disabled
      ensures statusText == old(statusText) && statusClass == old(statusClass) && sent == old(sent)
    {
      mainDisabled, allDisabled := disabled, disabled;
    }

    /** `runtime.sendMessage(request, resolve)`; the popup only ever sends
        while both buttons are disabled. */
    method Send(request: Downloads.Request)
      requires mainDisabled && allDisabled
      modifies this
      ensures sent == old(sent) + [request]
      ensures mainDisabled == old(mainDisabled) && allDisabled == old(allDisabled)
      ensures statusText == old(statusText) && statusClass == old(statusClass)
    {
      sent := sent + [request];
    }

    /** The batch loop (popup.js:84-97), with the `catch` that reports the
        first failed request. `count` requests go out, one at a time; the
        loop stops after the first one that fails or gets no answer. */
    method SendBatch(rs: seq<Downloads.Request>, reply: nat -> Option<Downloads.Response>) returns (count: nat)
      requires |rs| > 0 && mainDisabled && allDisabled
      modifies this
      ensures 0 < count <= |rs| && sent == old(sent) + rs[..count]
      ensures mainDisabled && allDisabled
      ensures forall j | 0 <= j < count - 1 :: Succeeded(reply(j))
      ensures count < |rs| ==> !Succeeded(reply(count - 1))
      ensures if reply(count - 1).Some? && reply(count - 1).value.NotSaved?
        then statusText == ErrorText(reply(count - 1).value.error) && statusClass == "error"
        else statusText == old(statusText) && statusClass == old(statusClass)
    {
      count := 0;
      var stop := false;
      while count < |rs| && !stop
        invariant 0 <= count <= |rs| && sent == old(sent) + rs[..count]
        invariant mainDisabled && allDisabled
        invariant forall j | 0 <= j < count - 1 :: Succeeded(reply(j))
        invariant count == 0 ==> !stop
        invariant 0 < count ==> (stop <==> !Succeeded(reply(count - 1)))
        invariant if 0 < count && reply(count - 1).Some? && reply(count - 1).value.NotSaved?
          then statusText == ErrorText(reply(count - 1).value.error) && statusClass == "error"
          else statusText == old(statusText) && statusClass == old(statusClass)
      {
        Send(rs[count]);
        assert rs[..count + 1] == rs[..count] + [rs[count]];
        var response := reply(count);
        if response.None? {
          stop := true;                  // the promise never resolves
        } else if response.value.NotSaved? {
          stop := true;
          ShowStatus(ErrorText(response.value.error), "error");
        }
        count := count + 1;
      }
    }

    /** The part of `downloadImages` after a non-empty list is found
        (popup.js:81-105): announce the batch, send it, report the outcome
        and, unless a request is never answered, enable the buttons. */
    method Transfer(rs: seq<Downloads.Request>, reply: nat -> Option<Downloads.Response>) returns (count: nat)
      requires |rs| > 0 && mainDisabled && allDisabled
      modifies this
      ensures 0 < count <= |rs| && sent == old(sent) + rs[..count]
      ensures mainDisabled == allDisabled
      ensures Reported(rs, rs[..count], reply, statusText, statusClass, mainDisabled)
    {
      ShowStatus(DownloadingText(|rs|), "progress");
      count := SendBatch(rs, reply);
      if reply(count - 1).Some? {
        if reply(count - 1).value.Saved? {
          ShowStatus(SucceededText(|rs|), "success");
        }
        SetButtons(false);
      }
      // otherwise the popup is still awaiting the background worker
      ReportedFrom(rs, count, reply, statusText, statusClass, mainDisabled);
    }

    /** `downloadImages(all)` (popup.js:69-106). */
    method DownloadImages(all: bool, tab: Option<Extraction.Tab>, page: Extraction.Page,
                          reply: nat -> Option<Downloads.Response>)
      modifies this
      ensures |old(sent)| <= |sent| && sent[..|old(sent)|] == old(sent)
      ensures mainDisabled == allDisabled
      ensures !Extraction.OnEtsy(tab) ==>
        sent == old(sent) && statusText == Extraction.WrongSite && statusClass == "error" && !mainDisabled
      ensures Extraction.OnEtsy(tab) && page.scriptError.Some? ==>
        sent == old(sent) && statusText == page.scriptError.value && statusClass == "error" && !mainDisabled
      ensures Extraction.OnEtsy(tab) && page.scriptError.None? && Found(page).images == [] ==>
        sent == old(sent) && statusText == NoImages && statusClass == "error" && !mainDisabled
      ensures Extraction.OnEtsy(tab) && page.scriptError.None? && Found(page).images != [] ==>
        Reported(Requests(Found(page).images, Found(page).title, all), sent[|old(sent)|..],
                 reply, statusText, statusClass, mainDisabled)
    {
      SetButtons(true);
      ShowStatus(FindingImages, "progress");
      var found, injected := Extraction.FindImages(tab, page);
      if found.Success? && |found.value.images| > 0 {
        assert found.value == Found(page);
        var rs := Requests(found.value.images, found.value.title, all);
        var count := Transfer(rs, reply);
        assert sent[|old(sent)|..] == rs[..count];
      } else {
        // the `catch` and `finally` blocks
        assert found.Success? ==> found.value == Found(page);
        var message := if found.Failure? then found.message else NoImages;
        ShowStatus(message, "error");
        SetButtons(false);
      }
    }
  }
}
