/**
 * The browser script. Its login drives a browser and is given as its outcome;
 * the session token it leaves in the page's storage is an input. Every API call
 * reads that token first and gives up, requesting nothing, when it is missing.
 */
module EdScraper {
  import opened Wrappers
  import opened ThreadLinks
  import opened Paging
  import opened ThreadExtract

  /** `not token` is false. */
  predicate HasToken(token: Option<string>)
  {
    token.Some? && token.value != ""
  }

  /** `get_all_thread_links(page)`: `None` without a token, else the listing loop. */
  method GetAllThreadLinksWithToken(token: Option<string>, server: Server, course: string)
    returns (links: Option<seq<string>>, offsets: seq<nat>)
    ensures !HasToken(token) ==> links == None && offsets == []
    ensures HasToken(token) ==> links == Some(Collected(server, course))
    ensures HasToken(token) ==> |offsets| == RequestCount(server)
    ensures forall k :: 0 <= k < |offsets| ==> offsets[k] == Limit * k
  {
    if !HasToken(token) {
      return None, [];
    }
    var found;
    found, offsets := GetAllThreadLinks(server, course);
    links := Some(found);
  }

  /** What a gated detail call yields: the fetch with the session token, or `None` when there is none. */
  function Gated(token: Option<string>, fetch: (string, string) -> Option<RawThread>): string -> Option<RawThread>
  {
    threadId => if HasToken(token) then fetch(token.value, threadId) else None
  }

  /**
   * `get_thread_data(page, thread_id)`: reads the token first; without one it
   * gives `None` and sends no request, with one it sends exactly one detail
   * request, for `threadId`. `requested` lists the detail requests sent.
   */
  method GetThreadData(token: Option<string>, threadId: string, fetch: (string, string) -> Option<RawThread>)
    returns (r: Option<RawThread>, requested: seq<string>)
    ensures r == Gated(token, fetch)(threadId)
    ensures !HasToken(token) ==> r == None && requested == []
    ensures HasToken(token) ==> requested == [threadId] && r == WithToken(fetch, token.value)(threadId)
  {
    if !HasToken(token) {
      return None, [];
    }
    r := fetch(token.value, threadId);
    requested := [threadId];
  }

  /** With a token the gate drops no thread; without one no thread is kept. */
  lemma {:induction false} GatedFetched(links: seq<string>, token: Option<string>, fetch: (string, string) -> Option<RawThread>)
    ensures HasToken(token) ==> Fetched(links, Gated(token, fetch)) == Fetched(links, WithToken(fetch, token.value))
    ensures !HasToken(token) ==> Fetched(links, Gated(token, fetch)) == []
    decreases |links|
  {
    if links != [] {
      GatedFetched(links[..|links| - 1], token, fetch);
    }
  }

  /**
   * The collecting loop of the browser script's `main`: each link's id goes to
   * `get_thread_data`, and the records are the extractions of the calls that
   * returned data. `detailRequests` lists the detail requests actually sent:
   * one per link, in order, with a token; none without.
   */
  method CollectWithSession(links: seq<string>, token: Option<string>, fetch: (string, string) -> Option<RawThread>)
    returns (processed: seq<ThreadRecord>, detailRequests: seq<string>)
    ensures |processed| == |Fetched(links, Gated(token, fetch))|
    ensures forall k :: 0 <= k < |processed| ==> IsExtractionOf(processed[k], Fetched(links, Gated(token, fetch))[k])
    ensures HasToken(token) ==>
      |detailRequests| == |links| && forall i :: 0 <= i < |links| ==> detailRequests[i] == LastSegment(links[i])
    ensures !HasToken(token) ==> detailRequests == [] && processed == []
  {
    processed, detailRequests := [], [];
    ghost var done: seq<RawThread> := [];
    var i := 0;
    while i < |links|
      invariant i <= |links|
      invariant HasToken(token) ==>
        |detailRequests| == i && forall j :: 0 <= j < i ==> detailRequests[j] == LastSegment(links[j])
      invariant !HasToken(token) ==> detailRequests == []
      invariant done == Fetched(links[..i], Gated(token, fetch))
      invariant |processed| == |done|
      invariant forall k :: 0 <= k < |processed| ==> IsExtractionOf(processed[k], done[k])
    {
      FetchedStep(links, i, Gated(token, fetch));
      var threadId := LastSegment(links[i]);
      var data, sent := GetThreadData(token, threadId, fetch);
      detailRequests := detailRequests + sent;
      if data.Some? {
        var structured := ExtractThreadData(data.value);
        processed := processed + [structured];
        done := done + [data.value];
      }
      i := i + 1;
    }
    assert links[..|links|] == links;
    GatedFetched(links, token, fetch);
  }

  /**
   * `login_to_ed` followed by `main`: when the browser login went through and
   * the listing found links, every link is fetched in order and the successful
   * fetches are extracted; otherwise nothing is processed. No request of any
   * kind is sent without a token.
   */
  method RunScraper(loggedIn: bool, token: Option<string>, server: Server, fetch: (string, string) -> Option<RawThread>)
    returns (processed: Option<seq<ThreadRecord>>, pageOffsets: seq<nat>, detailRequests: seq<string>)
    ensures !loggedIn || !HasToken(token) ==> processed == None && pageOffsets == [] && detailRequests == []
    ensures loggedIn && HasToken(token) ==> |pageOffsets| == RequestCount(server)
    ensures processed.Some? <==> loggedIn && HasToken(token) && Collected(server, DefaultCourse) != []
    ensures processed.None? ==> detailRequests == []
    ensures processed.Some? ==>
      var links := Collected(server, DefaultCourse);
      |detailRequests| == |links| && forall i :: 0 <= i < |links| ==> detailRequests[i] == LastSegment(links[i])
    ensures processed.Some? ==>
      var ok := Fetched(Collected(server, DefaultCourse), WithToken(fetch, token.value));
      |processed.value| == |ok| && forall k :: 0 <= k < |ok| ==> IsExtractionOf(processed.value[k], ok[k])
  {
    processed, pageOffsets, detailRequests := None, [], [];
    if !loggedIn {
      return;
    }
    var threadLinks;
    threadLinks, pageOffsets := GetAllThreadLinksWithToken(token, server, DefaultCourse);
    if threadLinks == None || threadLinks.value == [] {
      return;
    }
    var records;
    records, detailRequests := CollectWithSession(threadLinks.value, token, fetch);
    GatedFetched(threadLinks.value, token, fetch);
    processed := Some(records);
  }
}
