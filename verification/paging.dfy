/**
 * The offset/limit listing loop of `get_all_thread_links`, shared by the
 * direct-API script and the browser script. The upstream service is a finite
 * list of thread ids, newest first, served in slices of `Limit`; the request
 * numbered `failAt`, if any, raises (a transport error, a non-success status
 * or a body that does not decode).
 */
module Paging {
  import opened Wrappers
  import opened ThreadLinks

  /** Every page request asks for `limit=30`. */
  const Limit: nat := 30

  /** What one page request yields: an exception, or the page's `threads` list
      (a missing or null `threads` key reads as an empty list, as both stop the loop). */
  datatype Reply = Failed | Page(threads: seq<nat>)

  datatype Server = Server(threads: seq<nat>, failAt: Option<nat>)

  function Min(a: nat, b: nat): nat
  {
    if a <= b then a else b
  }

  /** The reply to request number `request`, which asks for `[offset, offset + Limit)`. */
  function Respond(s: Server, request: nat, offset: nat): Reply
  {
    if s.failAt == Some(request) then Failed
    else Page(s.threads[Min(offset, |s.threads|)..Min(offset + Limit, |s.threads|)])
  }

  /** Requests made when nothing fails: one per full page, plus the final short (possibly empty) one. */
  function FullRequests(total: nat): nat
  {
    total / Limit + 1
  }

  /** The failing request is one the loop actually makes. */
  predicate FailsEarly(s: Server)
  {
    s.failAt.Some? && s.failAt.value < FullRequests(|s.threads|)
  }

  /** How many page requests the loop makes against `s`. */
  function RequestCount(s: Server): nat
  {
    if FailsEarly(s) then s.failAt.value + 1 else FullRequests(|s.threads|)
  }

  /** How many thread ids the loop has collected when it stops. */
  function CollectedCount(s: Server): nat
  {
    if FailsEarly(s) then Limit * s.failAt.value else |s.threads|
  }

  /** The page number of the last, short page: `t` lies in the `k`-th block of `Limit`. */
  lemma PageOfTotal(t: nat, k: nat)
    requires Limit * k <= t < Limit * k + Limit
    ensures t / Limit == k
  {
  }

  /** Request `k` raises: `k + 1` requests were made and `k` full pages collected. */
  lemma FailureEnds(s: Server, k: nat)
    requires s.failAt == Some(k) && Limit * k <= |s.threads|
    ensures RequestCount(s) == k + 1 && CollectedCount(s) == Limit * k
  {
    var q := |s.threads| / Limit;
    assert Limit * k < Limit * q + Limit;
  }

  /** Request `k` returns a short (possibly empty) page and did not raise: it was the last request. */
  lemma ShortPageEnds(s: Server, k: nat)
    requires s.failAt.Some? ==> k < s.failAt.value
    requires Limit * k <= |s.threads| < Limit * k + Limit
    ensures RequestCount(s) == k + 1 && CollectedCount(s) == |s.threads|
  {
    PageOfTotal(|s.threads|, k);
  }

  /** The links of two runs of ids, one after the other. */
  lemma LinksAppend(course: string, a: seq<nat>, b: seq<nat>)
    ensures Links(course, a + b) == Links(course, a) + Links(course, b)
  {
  }

  /**
   * `get_all_thread_links`: request pages at offsets 0, 30, 60, ... until a
   * page is empty, shorter than 30, or raises; return the links gathered so
   * far. `offsets` lists the offset of every request, in order.
   */
  method GetAllThreadLinks(s: Server, course: string) returns (links: seq<string>, offsets: seq<nat>)
    ensures |offsets| == RequestCount(s)
    ensures forall k :: 0 <= k < |offsets| ==> offsets[k] == Limit * k
    ensures CollectedCount(s) <= |s.threads|
    ensures links == Links(course, s.threads[..CollectedCount(s)])
    ensures s.failAt == None ==> |offsets| == |s.threads| / Limit + 1 && links == Links(course, s.threads)
  {
    links, offsets := [], [];
    var offset := 0;
    while true
      invariant offset == Limit * |offsets| <= |s.threads|
      invariant forall k :: 0 <= k < |offsets| ==> offsets[k] == Limit * k
      invariant s.failAt.Some? ==> |offsets| <= s.failAt.value
      invariant links == Links(course, s.threads[..offset])
      decreases |s.threads| - offset
    {
      var request := |offsets|;
      var reply := Respond(s, request, offset);
      offsets := offsets + [offset];
      if reply.Failed? {
        FailureEnds(s, request);
        break;
      }
      if reply.threads == [] {
        ShortPageEnds(s, request);
        break;
      }
      var page := reply.threads;
      assert s.threads[..offset + |page|] == s.threads[..offset] + page;
      LinksAppend(course, s.threads[..offset], page);
      links := links + Links(course, page);
      if |page| < Limit {
        ShortPageEnds(s, request);
        break;
      }
      offset := offset + Limit;
    }
    assert s.threads[..|s.threads|] == s.threads;
  }

  /** What the loop returns against `s`. */
  function Collected(s: Server, course: string): seq<string>
  {
    Links(course, s.threads[..Min(CollectedCount(s), |s.threads|)])
  }

  /** A failure only cuts the result short: it is a prefix of what the same service yields when nothing fails. */
  lemma PartialResultIsPrefix(s: Server, course: string)
    ensures Collected(s, course) <= Collected(s.(failAt := None), course)
    ensures Collected(s.(failAt := None), course) == Links(course, s.threads)
  {
    var all := Links(course, s.threads);
    var part := Collected(s, course);
    assert s.threads[..|s.threads|] == s.threads;
    assert |part| <= |all|;
    forall i | 0 <= i < |part| ensures part[i] == all[i] { }
  }

  /** Request counts against non-failing services: 35 threads take two requests, 60 take three, none takes one. */
  lemma RequestCountExamples(s: Server)
    requires s.failAt == None
    ensures |s.threads| == 35 ==> RequestCount(s) == 2 && CollectedCount(s) == 35
    ensures |s.threads| == 60 ==> RequestCount(s) == 3
    ensures |s.threads| == 0 ==> RequestCount(s) == 1
  {
  }
}
