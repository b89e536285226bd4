/**
 The buffer of deep links received before the frontend listens
 (src-tauri/src/commands/external.rs): a bounded, duplicate-free FIFO of
 valid links with an enqueue transition and a draining take.
 */
module PendingLinks {
  import opened Text
  import opened Sequences
  import opened ExternalLinks

  /** Most links the buffer holds; older ones are dropped first. */
  const MaxPendingExternalLinks: nat := 100

  /** The buffer contents, oldest first. */
  datatype Pending = Pending(links: seq<string>)

  /** The empty buffer the application starts with. */
  const Empty: Pending := Pending([])

  /** What every reachable buffer satisfies: only valid links, none twice,
      at most `MaxPendingExternalLinks` of them. */
  predicate Wellformed(p: Pending)
  {
    && NoDuplicates(p.links)
    && |p.links| <= MaxPendingExternalLinks
    && forall l :: l in p.links ==> IsValidExternalLink(l)
  }

  /** One round of the loop in `enqueue_external_links`: an invalid or
      already pending link is ignored; otherwise it is appended verbatim
      and, if the buffer is then over capacity, the oldest links are
      dropped so that exactly the newest `MaxPendingExternalLinks` remain. */
  function Push(p: Pending, url: string): (r: Pending)
    ensures !IsValidExternalLink(url) ==> r == p
    ensures url in p.links ==> r == p
    ensures IsValidExternalLink(url) && url !in p.links ==>
      && |r.links| == (if |p.links| < MaxPendingExternalLinks then |p.links| + 1 else MaxPendingExternalLinks)
      && r.links == (p.links + [url])[|p.links| + 1 - |r.links|..]
      && r.links[|r.links| - 1] == url
  {
    if !IsValidExternalLink(url) then p
    else if url in p.links then p
    else
      var grown := p.links + [url];
      if |grown| > MaxPendingExternalLinks then
        var overflow := |grown| - MaxPendingExternalLinks;
        Pending(grown[overflow..])
      else
        Pending(grown)
  }

  /** The loop of `enqueue_external_links` over `urls`, in order. */
  function PushAll(p: Pending, urls: seq<string>): (r: Pending)
  {
    if urls == [] then p
    else Push(PushAll(p, urls[..|urls| - 1]), urls[|urls| - 1])
  }

  /** `enqueue_external_links`: an empty batch returns at once, otherwise
      each link of the batch is pushed in turn. */
  function EnqueueLinks(p: Pending, urls: seq<string>): (r: Pending)
  {
    if |urls| == 0 then p else PushAll(p, urls)
  }

  /** The result of `take_pending_external_links`: the links handed out and
      the buffer left behind. */
  datatype Taken = Taken(links: seq<string>, rest: Pending)

  /** `take_pending_external_links`: hands out the whole buffer, oldest
      first, and leaves it empty. */
  function TakePending(p: Pending): (t: Taken)
    ensures t.links == p.links
    ensures t.rest.links == []
  {
    Taken(p.links, Empty)
  }

  /** `consume_pending_external_links`: the command the frontend calls;
      it is the same take. */
  function ConsumePending(p: Pending): (t: Taken)
    ensures t.links == p.links
    ensures t.rest.links == []
  {
    TakePending(p)
  }

  /** The empty buffer is well formed. */
  lemma EmptyWellformed()
    ensures Wellformed(Empty)
  {
  }

  /** Pushing keeps the buffer well formed. */
  lemma PushPreservesWellformed(p: Pending, url: string)
    requires Wellformed(p)
    ensures Wellformed(Push(p, url))
  {
    if IsValidExternalLink(url) && url !in p.links {
      var grown := p.links + [url];
      AppendFreshNoDuplicates(p.links, url);
      var r := Push(p, url);
      SuffixNoDuplicates(grown, |grown| - |r.links|);
    }
  }

  /** Enqueueing keeps the buffer well formed. */
  lemma {:induction false} EnqueuePreservesWellformed(p: Pending, urls: seq<string>)
    requires Wellformed(p)
    ensures Wellformed(EnqueueLinks(p, urls))
  {
    if urls != [] {
      EnqueuePreservesWellformed(p, urls[..|urls| - 1]);
      PushAllFold(p, urls);
      PushPreservesWellformed(EnqueueLinks(p, urls[..|urls| - 1]), urls[|urls| - 1]);
    }
  }

  /** A non-empty batch is the fold of `Push` over it. */
  lemma PushAllFold(p: Pending, urls: seq<string>)
    requires urls != []
    ensures EnqueueLinks(p, urls) == Push(EnqueueLinks(p, urls[..|urls| - 1]), urls[|urls| - 1])
  {
    if |urls| == 1 {
      assert urls[..0] == [];
      assert PushAll(p, []) == p;
    }
  }

  /** A batch with no valid link, the empty batch included, changes
      nothing. */
  lemma {:induction false} EnqueueInvalidIsNoOp(p: Pending, urls: seq<string>)
    requires forall k :: 0 <= k < |urls| ==> !IsValidExternalLink(urls[k])
    ensures EnqueueLinks(p, urls) == p
  {
    if urls != [] {
      var init := urls[..|urls| - 1];
      EnqueueInvalidIsNoOp(p, init);
      PushAllFold(p, urls);
    }
  }

  /** Every buffered link was buffered before or is a valid link of the
      batch, stored exactly as given. */
  lemma {:induction false} EnqueueStoresOnlyGivenLinks(p: Pending, urls: seq<string>)
    ensures forall l :: l in EnqueueLinks(p, urls).links ==>
      l in p.links || (l in urls && IsValidExternalLink(l))
  {
    if urls != [] {
      var init := urls[..|urls| - 1];
      EnqueueStoresOnlyGivenLinks(p, init);
      PushAllFold(p, urls);
      var q := EnqueueLinks(p, init);
      var last := urls[|urls| - 1];
      PushStoresOnlyGiven(q, last);
      forall l | l in EnqueueLinks(p, urls).links
        ensures l in p.links || (l in urls && IsValidExternalLink(l))
      {
        if l != last {
          assert l in q.links;
          if l in init {
            assert l in urls;
          }
        }
      }
    }
  }

  /** One push only adds the pushed link, and only when it is valid. */
  lemma PushStoresOnlyGiven(q: Pending, url: string)
    ensures forall l :: l in Push(q, url).links ==>
      l in q.links || (l == url && IsValidExternalLink(url))
  {
    var r := Push(q, url);
    if r != q {
      var grown := q.links + [url];
      SuffixElements(grown, |grown| - |r.links|);
    }
  }

  /** The last link of a batch, when valid, is always buffered afterwards. */
  lemma LastLinkIsBuffered(p: Pending, urls: seq<string>)
    requires urls != [] && IsValidExternalLink(urls[|urls| - 1])
    ensures urls[|urls| - 1] in EnqueueLinks(p, urls).links
  {
    PushAllFold(p, urls);
  }

  /** A push into a buffer with room either changes nothing or appends. */
  lemma PushWithRoom(q: Pending, url: string)
    requires |q.links| < MaxPendingExternalLinks
    ensures Push(q, url) == q || Push(q, url).links == q.links + [url]
  {
  }

  /** While there is room, nothing is dropped: the old contents stay in
      front and the buffer grows by at most one link per link given. */
  lemma {:induction false} EnqueueWithinCapacityKeepsOld(p: Pending, urls: seq<string>)
    requires |p.links| + |urls| <= MaxPendingExternalLinks
    ensures var r := EnqueueLinks(p, urls);
      && |p.links| <= |r.links| <= |p.links| + |urls|
      && r.links[..|p.links|] == p.links
  {
    if urls != [] {
      var init := urls[..|urls| - 1];
      var last := urls[|urls| - 1];
      EnqueueWithinCapacityKeepsOld(p, init);
      var q := EnqueueLinks(p, init);
      var r := EnqueueLinks(p, urls);
      assert |p.links| <= |q.links| <= |p.links| + |init|;
      assert q.links[..|p.links|] == p.links;
      PushAllFold(p, urls);
      PushWithRoom(q, last);
      assert r.links == q.links || r.links == q.links + [last];
      PrefixOfExtension(q.links, r.links, |p.links|);
    }
  }

  /** Extending a sequence keeps its prefixes. */
  lemma PrefixOfExtension(s: seq<string>, t: seq<string>, n: nat)
    requires n <= |s| && |s| <= |t| && t[..|s|] == s
    ensures t[..n] == s[..n]
  {
  }

  /** While there is room, every valid link of the batch ends up buffered. */
  lemma {:induction false} EnqueueWithinCapacityKeepsNew(p: Pending, urls: seq<string>)
    requires |p.links| + |urls| <= MaxPendingExternalLinks
    ensures forall k :: 0 <= k < |urls| && IsValidExternalLink(urls[k]) ==>
      urls[k] in EnqueueLinks(p, urls).links
  {
    if urls != [] {
      var init := urls[..|urls| - 1];
      EnqueueWithinCapacityKeepsNew(p, init);
      EnqueueWithinCapacityKeepsOld(p, init);
      PushAllFold(p, urls);
      var q := EnqueueLinks(p, init);
      var r := EnqueueLinks(p, urls);
      assert r == Push(q, urls[|urls| - 1]);
      assert r != q ==> r.links == q.links + [urls[|urls| - 1]];
      forall k | 0 <= k < |urls| && IsValidExternalLink(urls[k]) ensures urls[k] in r.links {
        if k < |urls| - 1 {
          assert urls[k] == init[k];
          assert urls[k] in q.links;
        }
      }
    }
  }

  /** A full buffer drops exactly its oldest link to make room. */
  lemma PushIntoFullBuffer(p: Pending, url: string)
    requires |p.links| == MaxPendingExternalLinks
    requires IsValidExternalLink(url) && url !in p.links
    ensures Push(p, url).links == p.links[1..] + [url]
  {
  }

  /** Links are stored as given: a valid link with leading whitespace keeps
      it, although validation looked at the trimmed text. */
  lemma EnqueueKeepsWhitespace(p: Pending, link: string)
    requires IsValidExternalLink(link)
    requires " " + link !in p.links && |p.links| < MaxPendingExternalLinks
    ensures EnqueueLinks(p, [" " + link]).links == p.links + [" " + link]
  {
    assert AllSelected(" ", IsWhitespace) && AllSelected("", IsWhitespace);
    ValidIgnoresWhitespace(" ", link, "");
    assert " " + link + "" == " " + link;
    PushAllFold(p, [" " + link]);
  }

  /** Taking empties the buffer: a second take hands out nothing. */
  lemma TakeTwiceIsEmpty(p: Pending)
    ensures TakePending(TakePending(p).rest).links == []
  {
  }

  /** Taking hands out a well-formed buffer's links as a duplicate-free
      list of valid links, and leaves a well-formed buffer. */
  lemma TakePreservesWellformed(p: Pending)
    requires Wellformed(p)
    ensures Wellformed(TakePending(p).rest)
    ensures NoDuplicates(TakePending(p).links)
    ensures forall l :: l in TakePending(p).links ==> IsValidExternalLink(l)
  {
  }
}
