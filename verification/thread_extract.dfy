/**
 * `extract_thread_data` and the collecting loop of both `main` functions:
 * a thread detail response is flattened into a record whose answers copy the
 * thread-level staff flag, and every listed link is fetched once, in order,
 * keeping only the fetches that returned data.
 */
module ThreadExtract {
  import opened Wrappers
  import opened ThreadLinks

  /** An answer as the thread detail endpoint returns it (only the keys that are read). */
  datatype RawAnswer = RawAnswer(id: nat, document: string, isEndorsed: bool, createdAt: string)

  /** The `thread` object of a detail response; `answers` is `None` when the key is absent. */
  datatype RawThread = RawThread(
    id: nat, title: string, document: string, kind: string, category: string,
    createdAt: string, isAnswered: bool, isStaffAnswered: bool,
    answers: Option<seq<RawAnswer>>)

  datatype Answer = Answer(id: nat, content: string, isEndorsed: bool, createdAt: string, isStaffAnswered: bool)

  datatype ThreadRecord = ThreadRecord(
    id: nat, title: string, content: string, kind: string, category: string,
    createdAt: string, isAnswered: bool, isStaffAnswered: bool,
    answers: seq<Answer>)

  /** `thread.get('answers', [])`. */
  function AnswersOf(t: RawThread): seq<RawAnswer>
  {
    t.answers.GetOr([])
  }

  /** `a` is `src` with `document` renamed to `content` and the thread's staff flag added. */
  predicate CopiesAnswer(a: Answer, src: RawAnswer, staffAnswered: bool)
  {
    a.id == src.id && a.content == src.document && a.isEndorsed == src.isEndorsed
    && a.createdAt == src.createdAt && a.isStaffAnswered == staffAnswered
  }

  /** `r` is what extracting `t` must give: top-level fields copied, answers copied one for one in order. */
  predicate IsExtractionOf(r: ThreadRecord, t: RawThread)
  {
    && r.id == t.id && r.title == t.title && r.content == t.document && r.kind == t.kind
    && r.category == t.category && r.createdAt == t.createdAt
    && r.isAnswered == t.isAnswered && r.isStaffAnswered == t.isStaffAnswered
    && |r.answers| == |AnswersOf(t)|
    && forall j :: 0 <= j < |r.answers| ==> CopiesAnswer(r.answers[j], AnswersOf(t)[j], t.isStaffAnswered)
  }

  method ExtractThreadData(t: RawThread) returns (r: ThreadRecord)
    ensures IsExtractionOf(r, t)
  {
    var source := AnswersOf(t);
    var answers: seq<Answer> := [];
    for i := 0 to |source|
      invariant |answers| == i
      invariant forall j :: 0 <= j < i ==> CopiesAnswer(answers[j], source[j], t.isStaffAnswered)
    {
      var a := source[i];
      answers := answers + [Answer(a.id, a.document, a.isEndorsed, a.createdAt, t.isStaffAnswered)];
    }
    r := ThreadRecord(t.id, t.title, t.document, t.kind, t.category, t.createdAt,
                      t.isAnswered, t.isStaffAnswered, answers);
  }

  /** Extraction is a function of the response: two extractions of one thread are equal. */
  lemma ExtractionIsUnique(r1: ThreadRecord, r2: ThreadRecord, t: RawThread)
    requires IsExtractionOf(r1, t) && IsExtractionOf(r2, t)
    ensures r1 == r2
  {
    assert r1.answers == r2.answers by {
      forall j | 0 <= j < |r1.answers| ensures r1.answers[j] == r2.answers[j] {
        assert CopiesAnswer(r1.answers[j], AnswersOf(t)[j], t.isStaffAnswered);
        assert CopiesAnswer(r2.answers[j], AnswersOf(t)[j], t.isStaffAnswered);
      }
    }
  }

  /** The thread detail endpoint with the session token fixed. */
  function WithToken(fetch: (string, string) -> Option<RawThread>, token: string): string -> Option<RawThread>
  {
    threadId => fetch(token, threadId)
  }

  /** The detail fetch of the link's id (`None` when the fetch failed). */
  function FetchOf(link: string, fetch: string -> Option<RawThread>): Option<RawThread>
  {
    fetch(LastSegment(link))
  }

  /** The responses of the successful fetches, in link order. */
  function Fetched(links: seq<string>, fetch: string -> Option<RawThread>): seq<RawThread>
    decreases |links|
  {
    if links == [] then []
    else
      var last := FetchOf(links[|links| - 1], fetch);
      Fetched(links[..|links| - 1], fetch) + (if last.Some? then [last.value] else [])
  }

  /**
   * The collecting loop of `main`: for each link, fetch the thread by the last
   * path segment, and append its extraction when the fetch returned data.
   * `requested` lists the ids fetched, in order.
   */
  method CollectThreadData(links: seq<string>, fetch: string -> Option<RawThread>)
    returns (processed: seq<ThreadRecord>, requested: seq<string>)
    ensures |requested| == |links|
    ensures forall i :: 0 <= i < |links| ==> requested[i] == LastSegment(links[i])
    ensures |processed| == |Fetched(links, fetch)|
    ensures forall k :: 0 <= k < |processed| ==> IsExtractionOf(processed[k], Fetched(links, fetch)[k])
  {
    processed, requested := [], [];
    ghost var done: seq<RawThread> := [];
    var i := 0;
    while i < |links|
      invariant i <= |links| && |requested| == i
      invariant forall j :: 0 <= j < i ==> requested[j] == LastSegment(links[j])
      invariant done == Fetched(links[..i], fetch)
      invariant |processed| == |done|
      invariant forall k :: 0 <= k < |processed| ==> IsExtractionOf(processed[k], done[k])
    {
      FetchedStep(links, i, fetch);
      var threadId := LastSegment(links[i]);
      requested := requested + [threadId];
      var data := fetch(threadId);
      if data.Some? {
        var structured := ExtractThreadData(data.value);
        processed := processed + [structured];
        done := done + [data.value];
      }
      i := i + 1;
    }
    assert links[..|links|] == links;
  }

  /** Unfolds `Fetched` on the first `i + 1` links. */
  lemma FetchedStep(links: seq<string>, i: nat, fetch: string -> Option<RawThread>)
    requires i < |links|
    ensures Fetched(links[..i + 1], fetch)
         == Fetched(links[..i], fetch) + (if FetchOf(links[i], fetch).Some? then [FetchOf(links[i], fetch).value] else [])
  {
    assert links[..i + 1][..i] == links[..i];
  }

  /** At most one record per link. */
  lemma {:induction false} FetchedAtMostLinks(links: seq<string>, fetch: string -> Option<RawThread>)
    ensures |Fetched(links, fetch)| <= |links|
    decreases |links|
  {
    if links != [] {
      FetchedAtMostLinks(links[..|links| - 1], fetch);
    }
  }

  /**
   * The records are exactly the successful fetches, in link order: `idx` picks,
   * strictly increasing, the links whose fetch succeeded, and every successful
   * link is picked.
   */
  lemma {:induction false} FetchedIsOrderedSelection(links: seq<string>, fetch: string -> Option<RawThread>)
    returns (idx: seq<nat>)
    ensures |idx| == |Fetched(links, fetch)|
    ensures forall k :: 0 <= k < |idx| ==> idx[k] < |links| && FetchOf(links[idx[k]], fetch) == Some(Fetched(links, fetch)[k])
    ensures forall k, l :: 0 <= k < l < |idx| ==> idx[k] < idx[l]
    ensures forall j :: 0 <= j < |links| && FetchOf(links[j], fetch).Some? ==> j in idx
    decreases |links|
  {
    if links == [] {
      idx := [];
    } else {
      var n := |links| - 1;
      var front := links[..n];
      var prev := FetchedIsOrderedSelection(front, fetch);
      var last := FetchOf(links[n], fetch);
      var before := Fetched(front, fetch);
      assert Fetched(links, fetch) == before + (if last.Some? then [last.value] else []);
      assert forall j :: 0 <= j < n ==> front[j] == links[j];
      if last.Some? {
        idx := prev + [n];
        assert forall k :: 0 <= k < |prev| ==> Fetched(links, fetch)[k] == before[k];
      } else {
        idx := prev;
        assert Fetched(links, fetch) == before;
      }
    }
  }

  /** When every fetch succeeds, one record per link in link order. */
  lemma {:induction false} FetchedAllSucceed(links: seq<string>, fetch: string -> Option<RawThread>)
    requires forall j :: 0 <= j < |links| ==> FetchOf(links[j], fetch).Some?
    ensures |Fetched(links, fetch)| == |links|
    ensures forall j :: 0 <= j < |links| ==> Fetched(links, fetch)[j] == FetchOf(links[j], fetch).value
    decreases |links|
  {
    if links != [] {
      var n := |links| - 1;
      var front := links[..n];
      assert forall j :: 0 <= j < n ==> front[j] == links[j];
      FetchedAllSucceed(front, fetch);
      var before := Fetched(front, fetch);
      assert Fetched(links, fetch) == before + [FetchOf(links[n], fetch).value];
    }
  }
}
