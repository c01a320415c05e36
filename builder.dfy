/**
 * `make_index` and `store_sorted_indices` (main.py): the single pass over the
 * crawl that numbers documents by normalised URL and writes bounded partial
 * indices. Enumerating and reading the files is not modelled: each file
 * arrives as a `Document` value, in the order the directory walk yields it.
 */
module Builder {
  import opened Urls
  import opened Postings
  import opened Annotation

  /** One crawled file as the indexer experiences it. */
  datatype Document =
    /** The file cannot be loaded or has no usable `url`: only the file counter moves. */
    | Unreadable
    /** The `url` is read and numbered, then reading the `content` raises. */
    | Broken(url: string)
    /** A readable page with the elements of its HTML. */
    | Page(url: string, elements: seq<TagText>)

  predicate Distinct(s: seq<string>)
  {
    forall i, j :: 0 <= i < j < |s| ==> s[i] != s[j]
  }

  predicate Injective(m: map<string, nat>)
  {
    forall u, v :: u in m && v in m && u != v ==> m[u] != m[v]
  }

  /** `doc_id_map` for URLs numbered in the order given. */
  function IdMap(urls: seq<string>): map<string, nat>
  {
    if |urls| == 0 then map[] else IdMap(urls[..|urls| - 1])[urls[|urls| - 1] := |urls| - 1]
  }

  /** The keys of the id map are the URLs numbered. */
  lemma {:induction false} IdMapKeys(urls: seq<string>)
    ensures IdMap(urls).Keys == set u | u in urls
  {
    if |urls| > 0 {
      var n := |urls| - 1;
      IdMapKeys(urls[..n]);
      assert urls == urls[..n] + [urls[n]];
      assert (set u | u in urls) == (set u | u in urls[..n]) + {urls[n]};
    }
  }

  /** With distinct URLs, the URL numbered i-th keeps the id i. */
  lemma {:induction false} IdMapAt(urls: seq<string>, i: nat)
    requires Distinct(urls) && i < |urls|
    ensures urls[i] in IdMap(urls) && IdMap(urls)[urls[i]] == i
  {
    var n := |urls| - 1;
    if i < n {
      var front := urls[..n];
      assert front[i] == urls[i];
      assert Distinct(front);
      IdMapAt(front, i);
    }
  }

  /** Distinct URLs get the dense ids 0, 1, 2, ... in order, and no two share one. */
  lemma IdMapDense(urls: seq<string>)
    requires Distinct(urls)
    ensures IdMap(urls).Keys == set u | u in urls
    ensures forall i :: 0 <= i < |urls| ==> IdMap(urls)[urls[i]] == i
    ensures forall u :: u in IdMap(urls) ==> IdMap(urls)[u] < |urls|
    ensures |IdMap(urls)| == |urls|
    ensures Injective(IdMap(urls))
  {
    var m := IdMap(urls);
    IdMapKeys(urls);
    forall i | 0 <= i < |urls|
      ensures m[urls[i]] == i
    {
      IdMapAt(urls, i);
    }
    forall u | u in m
      ensures m[u] < |urls| && urls[m[u]] == u
    {
      var i :| 0 <= i < |urls| && urls[i] == u;
      IdMapAt(urls, i);
    }
    forall u, v | u in m && v in m && u != v
      ensures m[u] != m[v]
    {
      assert urls[m[u]] == u && urls[m[v]] == v;
    }
    DistinctCard(urls);
  }

  /** Distinct elements: as many URLs in the set as in the sequence. */
  lemma {:induction false} DistinctCard(urls: seq<string>)
    requires Distinct(urls)
    ensures |IdMap(urls)| == |urls|
  {
    if |urls| > 0 {
      var n := |urls| - 1;
      var front := urls[..n];
      assert Distinct(front);
      DistinctCard(front);
      IdMapKeys(front);
      assert urls[n] !in front by {
        forall k | 0 <= k < n
          ensures front[k] != urls[n]
        {
          assert front[k] == urls[k];
        }
      }
      assert urls[n] !in IdMap(front);
    }
  }

  /** The postings one document contributes for a token: its occurrences under its id. */
  function PostingsOf(id: nat, os: seq<Occurrence>): (ps: seq<Posting>)
    ensures |ps| == |os|
  {
    if |os| == 0 then []
    else PostingsOf(id, os[..|os| - 1]) + [Posting(id, os[|os| - 1].position, os[|os| - 1].flags)]
  }

  /** Every posting appended for a document carries its id and its occurrence's position and flags. */
  lemma {:induction false} PostingsOfCarries(id: nat, os: seq<Occurrence>)
    ensures forall k :: 0 <= k < |os| ==> PostingsOf(id, os)[k] == Posting(id, os[k].position, os[k].flags)
  {
    if |os| > 0 {
      var n := |os| - 1;
      PostingsOfCarries(id, os[..n]);
      assert forall k :: 0 <= k < n ==> os[..n][k] == os[k];
    }
  }

  /**
   * The partial index after appending a document's postings: a token gains a
   * key only when it has at least one occurrence.
   */
  function AddDocument(pi: PartialIndex, id: nat, te: TextElements): (r: PartialIndex)
    ensures pi.Keys <= r.Keys
    ensures forall t :: t in pi ==> pi[t] <= r[t]
  {
    map t | t in pi.Keys + te.Keys && (t in pi || |te[t]| > 0) :: Get(pi, t) + PostingsOf(id, Occurrences(te, t))
  }

  /** What the builder has done so far, with the partial-index files as loaded maps. */
  datatype BuildState = BuildState(
    urls: seq<string>,          // normalised URLs in id order: `doc_id_map`, `seen_urls`, `doc_id`
    fileCount: nat,             // `file_count`
    pending: PartialIndex,      // `partial_index`
    flushed: seq<PartialIndex>) // the partial-index files written so far, in order

  const Start: BuildState := BuildState([], 0, map[], [])

  predicate IsDuplicate(st: BuildState, doc: Document)
  {
    !doc.Unreadable? && Normalize(doc.url) in st.urls
  }

  /** `doc_id % doc_threshold == 0 and doc_id != 0`: the partial index is stored now. */
  predicate FlushDue(docId: nat, threshold: nat)
    requires threshold > 0
  {
    docId % threshold == 0 && docId != 0
  }

  /** One iteration of the loop over files, including the flush check. */
  function Step(st: BuildState, doc: Document, threshold: nat): (r: BuildState)
    requires threshold > 0
    ensures IsDuplicate(st, doc) ==> r == st
    ensures !IsDuplicate(st, doc) ==> r.fileCount == st.fileCount + 1
    ensures r.urls == if IsDuplicate(st, doc) || doc.Unreadable? then st.urls else st.urls + [Normalize(doc.url)]
    ensures st.flushed <= r.flushed && |r.flushed| <= |st.flushed| + 1
    ensures |r.flushed| > |st.flushed| <==> !IsDuplicate(st, doc) && FlushDue(|r.urls|, threshold)
    ensures |r.flushed| > |st.flushed| ==> r.pending == map[]
  {
    if IsDuplicate(st, doc) then st
    else
      var urls := if doc.Unreadable? then st.urls else st.urls + [Normalize(doc.url)];
      var pending :=
        if doc.Page? then AddDocument(st.pending, |st.urls|, Annotated(Stream(doc.elements)))
        else st.pending;
      if FlushDue(|urls|, threshold) then
        BuildState(urls, st.fileCount + 1, map[], st.flushed + [pending])
      else
        BuildState(urls, st.fileCount + 1, pending, st.flushed)
  }

  function Run(docs: seq<Document>, threshold: nat): (r: BuildState)
    requires threshold > 0
  {
    if |docs| == 0 then Start else Step(Run(docs[..|docs| - 1], threshold), docs[|docs| - 1], threshold)
  }

  /** The partial indices on disk after the final `if partial_index:` flush. */
  function Written(st: BuildState): seq<PartialIndex>
  {
    if |st.pending| > 0 then st.flushed + [st.pending] else st.flushed
  }

  // ---------------------------------------------------------------------
  // Reference definitions, independent of the flush threshold.

  /** Normalised URLs in first-seen order, each once. */
  function FirstSeen(docs: seq<Document>): seq<string>
  {
    if |docs| == 0 then []
    else
      var seen := FirstSeen(docs[..|docs| - 1]);
      var doc := docs[|docs| - 1];
      if doc.Unreadable? || Normalize(doc.url) in seen then seen else seen + [Normalize(doc.url)]
  }

  /** The normalised URL of every readable document. */
  function ReadableUrls(docs: seq<Document>): set<string>
  {
    set i | 0 <= i < |docs| && !docs[i].Unreadable? :: Normalize(docs[i].url)
  }

  /** The one partial index that indexing all documents without flushing would build. */
  function Unflushed(docs: seq<Document>): PartialIndex
  {
    if |docs| == 0 then map[]
    else
      var front := docs[..|docs| - 1];
      var doc := docs[|docs| - 1];
      var seen := FirstSeen(front);
      if doc.Page? && Normalize(doc.url) !in seen then
        AddDocument(Unflushed(front), |seen|, Annotated(Stream(doc.elements)))
      else Unflushed(front)
  }

  lemma ReadableUrlsSnoc(docs: seq<Document>)
    requires |docs| > 0
    ensures var last := docs[|docs| - 1];
      ReadableUrls(docs) == ReadableUrls(docs[..|docs| - 1]) + (if last.Unreadable? then {} else {Normalize(last.url)})
  {
    var n := |docs| - 1;
    var front := docs[..n];
    forall u | u in ReadableUrls(docs)
      ensures u in ReadableUrls(front) || (!docs[n].Unreadable? && u == Normalize(docs[n].url))
    {
      var i :| 0 <= i < |docs| && !docs[i].Unreadable? && u == Normalize(docs[i].url);
      if i < n { assert front[i] == docs[i]; }
    }
    forall u | u in ReadableUrls(front)
      ensures u in ReadableUrls(docs)
    {
      var i :| 0 <= i < n && !front[i].Unreadable? && u == Normalize(front[i].url);
      assert front[i] == docs[i];
    }
  }

  /** Every normalised URL is numbered exactly once, whatever its multiplicity. */
  lemma {:induction false} FirstSeenExact(docs: seq<Document>)
    ensures Distinct(FirstSeen(docs))
    ensures (set u | u in FirstSeen(docs)) == ReadableUrls(docs)
  {
    if |docs| > 0 {
      var n := |docs| - 1;
      var front := docs[..n];
      var doc := docs[n];
      var seen := FirstSeen(front);
      FirstSeenExact(front);
      ReadableUrlsSnoc(docs);
      if doc.Unreadable? {
        assert FirstSeen(docs) == seen;
      } else {
        var url := Normalize(doc.url);
        if url in seen {
          assert FirstSeen(docs) == seen;
          assert url in (set u | u in seen);
        } else {
          assert FirstSeen(docs) == seen + [url];
          DistinctSnoc(seen, url);
        }
      }
    }
  }

  /** A URL not yet in a distinct sequence extends it, and adds itself to its elements. */
  lemma DistinctSnoc(seen: seq<string>, url: string)
    requires Distinct(seen) && url !in seen
    ensures Distinct(seen + [url])
    ensures (set u | u in seen + [url]) == (set u | u in seen) + {url}
  {
    var after := seen + [url];
    forall i, j | 0 <= i < j < |after|
      ensures after[i] != after[j]
    {
      assert after[i] == seen[i];
      if j < |seen| { assert after[j] == seen[j]; }
    }
  }

  /** Postings ordered by document, then by position inside a document. */
  predicate InDocumentOrder(ps: seq<Posting>)
  {
    forall i, j :: 0 <= i < j < |ps| ==>
      ps[i].docId < ps[j].docId || (ps[i].docId == ps[j].docId && ps[i].position < ps[j].position)
  }

  predicate IdsBelow(ps: seq<Posting>, bound: nat)
  {
    forall i :: 0 <= i < |ps| ==> ps[i].docId < bound
  }

  /** One document's postings for a token, from occurrences with increasing positions. */
  lemma PostingsOfOrdered(id: nat, os: seq<Occurrence>)
    requires forall k, l :: 0 <= k < l < |os| ==> os[k].position < os[l].position
    ensures InDocumentOrder(PostingsOf(id, os))
    ensures forall i :: 0 <= i < |os| ==> PostingsOf(id, os)[i].docId == id
  {
    PostingsOfCarries(id, os);
  }

  /** Earlier documents' postings followed by a later document's stay in document order. */
  lemma AppendOrdered(a: seq<Posting>, b: seq<Posting>, id: nat)
    requires InDocumentOrder(a) && IdsBelow(a, id)
    requires InDocumentOrder(b) && forall i :: 0 <= i < |b| ==> b[i].docId == id
    ensures InDocumentOrder(a + b) && IdsBelow(a + b, id + 1)
  {
    var ab := a + b;
    forall i, j | 0 <= i < j < |ab|
      ensures ab[i].docId < ab[j].docId || (ab[i].docId == ab[j].docId && ab[i].position < ab[j].position)
    {
      if j < |a| {
        assert ab[i] == a[i] && ab[j] == a[j];
      } else if i >= |a| {
        assert ab[i] == b[i - |a|] && ab[j] == b[j - |a|];
      } else {
        assert ab[i] == a[i] && ab[j] == b[j - |a|];
      }
    }
    forall i | 0 <= i < |ab|
      ensures ab[i].docId < id + 1
    {
      if i < |a| { assert ab[i] == a[i]; } else { assert ab[i] == b[i - |a|]; }
    }
  }

  /**
   * In the index built without flushing, every posting list is in document
   * order and names only numbered documents: ids follow processing order.
   */
  lemma {:induction false} UnflushedOrdered(docs: seq<Document>)
    ensures forall t :: t in Unflushed(docs) ==>
      InDocumentOrder(Unflushed(docs)[t]) && IdsBelow(Unflushed(docs)[t], |FirstSeen(docs)|)
  {
    if |docs| > 0 {
      var n := |docs| - 1;
      var front := docs[..n];
      var doc := docs[n];
      UnflushedOrdered(front);
      var seen := FirstSeen(front);
      var prev := Unflushed(front);
      if doc.Page? && Normalize(doc.url) !in seen {
        var s := Stream(doc.elements);
        var te := Annotated(s);
        assert FirstSeen(docs) == seen + [Normalize(doc.url)];
        assert Unflushed(docs) == AddDocument(prev, |seen|, te);
        AnnotatedSound(s);
        forall t | t in Unflushed(docs)
          ensures InDocumentOrder(Unflushed(docs)[t]) && IdsBelow(Unflushed(docs)[t], |seen| + 1)
        {
          AddDocumentOrdered(prev, |seen|, s, t);
        }
      } else {
        assert Unflushed(docs) == prev;
        assert |seen| <= |FirstSeen(docs)|;
        forall t | t in prev
          ensures IdsBelow(prev[t], |FirstSeen(docs)|)
        {
        }
      }
    }
  }

  /** Adding a document under the next id keeps one token's postings in document order. */
  lemma AddDocumentOrdered(prev: PartialIndex, id: nat, s: seq<TaggedToken>, t: string)
    requires Sound(Annotated(s), s)
    requires forall u :: u in prev ==> InDocumentOrder(prev[u]) && IdsBelow(prev[u], id)
    requires t in AddDocument(prev, id, Annotated(s))
    ensures InDocumentOrder(AddDocument(prev, id, Annotated(s))[t])
    ensures IdsBelow(AddDocument(prev, id, Annotated(s))[t], id + 1)
  {
    var te := Annotated(s);
    AddDocumentAt(prev, id, te, t);
    var os := Occurrences(te, t);
    assert forall k, l :: 0 <= k < l < |os| ==> os[k].position < os[l].position;
    PostingsOfOrdered(id, os);
    AppendOrdered(Get(prev, t), PostingsOf(id, os), id);
  }

  /** Readable documents whose normalised URLs are pairwise different. */
  ghost predicate FreshDocuments(docs: seq<Document>)
  {
    && (forall i :: 0 <= i < |docs| ==> !docs[i].Unreadable?)
    && (forall i, j :: 0 <= i < j < |docs| ==> Normalize(docs[i].url) != Normalize(docs[j].url))
  }

  lemma {:induction false} MulLe(a: int, b: int, t: int)
    requires 0 <= a <= b && 0 <= t
    ensures a * t <= b * t
    decreases b - a
  {
    if a < b {
      MulLe(a, b - 1, t);
      assert b * t == (b - 1) * t + t;
    }
  }
  lemma MulSub(x: int, y: int, t: int)
    ensures (x - y) * t == x * t - y * t
  {
  }
  lemma DivUnique(a: nat, t: nat, q: nat, r: nat)
    requires t > 0 && a == q * t + r && r < t
    ensures a / t == q
  {
    var q', r' := a / t, a % t;
    assert a == q' * t + r';
    MulSub(q', q, t);
    MulSub(q, q', t);
    if q' > q {
      MulLe(1, q' - q, t);
    } else if q' < q {
      MulLe(1, q - q', t);
    }
  }
  lemma DivStep(n: nat, t: nat)
    requires t > 0
    ensures (n + 1) / t == n / t + (if (n + 1) % t == 0 then 1 else 0)
  {
    var q, r := n / t, n % t;
    assert n == q * t + r;
    if r + 1 == t {
      assert n + 1 == (q + 1) * t + 0;
      DivUnique(n + 1, t, q + 1, 0);
      assert (n + 1) % t == 0;
    } else {
      DivUnique(n + 1, t, q, r + 1);
      assert (n + 1) % t == r + 1;
    }
  }

  /**
   * With no duplicates and no unreadable files, every file gets an id and a
   * part is flushed after each `threshold`-th one: `n` files give `n / threshold`
   * flushed parts, the rest stays pending.
   */
  lemma FlushCount(docs: seq<Document>, threshold: nat)
    requires threshold > 0 && FreshDocuments(docs)
    ensures |Run(docs, threshold).urls| == |docs| == Run(docs, threshold).fileCount
    ensures forall i :: 0 <= i < |docs| ==> Run(docs, threshold).urls[i] == Normalize(docs[i].url)
    ensures |Run(docs, threshold).flushed| == |docs| / threshold
  {
    var urls := seq(|docs|, i requires 0 <= i < |docs| => if docs[i].Unreadable? then "" else Normalize(docs[i].url));
    FlushCountOf(docs, |docs|, threshold, urls);
    assert docs[..|docs|] == docs;
    MultiplesDiv(|docs|, threshold);
  }

  /** How many of 1, 2, ..., k are multiples of t. */
  function Multiples(k: nat, t: nat): nat
    requires t > 0
  {
    if k == 0 then 0 else Multiples(k - 1, t) + (if FlushDue(k, t) then 1 else 0)
  }

  lemma {:induction false} MultiplesDiv(k: nat, t: nat)
    requires t > 0
    ensures Multiples(k, t) == k / t
  {
    if k > 0 {
      MultiplesDiv(k - 1, t);
      DivStep(k - 1, t);
    }
  }

  /** `FlushCount` for the first `k` documents, with the URLs they are numbered under given by name. */
  lemma {:induction false} FlushCountOf(docs: seq<Document>, k: nat, threshold: nat, urls: seq<string>)
    requires threshold > 0 && k <= |docs| == |urls| && Distinct(urls)
    requires forall i :: 0 <= i < |docs| ==> !docs[i].Unreadable? && Normalize(docs[i].url) == urls[i]
    ensures Run(docs[..k], threshold).urls == urls[..k]
    ensures Run(docs[..k], threshold).fileCount == k
    ensures |Run(docs[..k], threshold).flushed| == Multiples(k, threshold)
  {
    if k > 0 {
      FlushCountOf(docs, k - 1, threshold, urls);
      FlushCountStep(docs, k - 1, threshold, urls);
    }
  }

  /** One more fresh readable document: its URL is numbered next, and a flush happens when due. */
  lemma FlushCountStep(docs: seq<Document>, n: nat, threshold: nat, urls: seq<string>)
    requires threshold > 0 && n < |docs| && n < |urls| && Distinct(urls)
    requires !docs[n].Unreadable? && Normalize(docs[n].url) == urls[n]
    requires Run(docs[..n], threshold).urls == urls[..n]
    ensures var st, after := Run(docs[..n], threshold), Run(docs[..n + 1], threshold);
      && after.urls == urls[..n + 1]
      && after.fileCount == st.fileCount + 1
      && |after.flushed| == |st.flushed| + (if FlushDue(n + 1, threshold) then 1 else 0)
  {
    var st := Run(docs[..n], threshold);
    DistinctLast(urls, n);
    RunPrefix(docs, n, threshold);
    FreshStep(st, docs[n], threshold);
    TakeSnoc(urls, n);
  }

  lemma TakeSnoc(urls: seq<string>, n: nat)
    requires n < |urls|
    ensures urls[..n + 1] == urls[..n] + [urls[n]]
  {
  }

  /** In distinct URLs, none is repeated in front of it. */
  lemma DistinctLast(urls: seq<string>, n: nat)
    requires Distinct(urls) && n < |urls|
    ensures urls[n] !in urls[..n]
  {
    forall i | 0 <= i < n
      ensures urls[..n][i] != urls[n]
    {
      assert urls[..n][i] == urls[i];
    }
  }

  /** A readable document whose URL is new gets the next id and moves the file counter. */
  lemma FreshStep(st: BuildState, doc: Document, threshold: nat)
    requires threshold > 0 && !IsDuplicate(st, doc) && !doc.Unreadable?
    ensures var after := Step(st, doc, threshold);
      && after.urls == st.urls + [Normalize(doc.url)]
      && after.fileCount == st.fileCount + 1
      && |after.flushed| == |st.flushed| + (if FlushDue(|st.urls| + 1, threshold) then 1 else 0)
  {
  }

  /** Appending a document to the last part is appending it to the merged index. */
  lemma MergedAddDocument(parts: seq<PartialIndex>, pi: PartialIndex, id: nat, te: TextElements)
    ensures Merged(parts + [AddDocument(pi, id, te)]) == AddDocument(Merged(parts + [pi]), id, te)
  {
    var a, b := Merged(parts + [AddDocument(pi, id, te)]), AddDocument(Merged(parts + [pi]), id, te);
    forall u
      ensures u in a <==> u in b
      ensures u in a ==> a[u] == b[u]
    {
      MergedAddDocumentAt(parts, pi, id, te, u);
    }
    SameIndex(a, b);
  }

  lemma MergedAddDocumentAt(parts: seq<PartialIndex>, pi: PartialIndex, id: nat, te: TextElements, u: string)
    ensures var a, b := Merged(parts + [AddDocument(pi, id, te)]), AddDocument(Merged(parts + [pi]), id, te);
      (u in a <==> u in b) && (u in a ==> a[u] == b[u])
  {
    var added := AddDocument(pi, id, te);
    var whole := Merged(parts + [pi]);
    var a, b := Merged(parts + [added]), AddDocument(whole, id, te);
    var tail := PostingsOf(id, Occurrences(te, u));
    var prefix := Concatenated(parts, u);
    var nonEmpty := u in te && |te[u]| > 0;
    assert u in added <==> u in pi || nonEmpty by { AddDocumentAt(pi, id, te, u); }
    assert Get(added, u) == Get(pi, u) + tail by { AddDocumentAt(pi, id, te, u); }
    assert u in b <==> u in whole || nonEmpty by { AddDocumentAt(whole, id, te, u); }
    assert u in b ==> b[u] == Get(whole, u) + tail by { AddDocumentAt(whole, id, te, u); }
    assert u in a <==> u in AllTokens(parts) || u in added by { MergedSnoc(parts, added, u); }
    assert u in a ==> a[u] == prefix + Get(added, u) by { MergedSnoc(parts, added, u); }
    assert u in whole <==> u in AllTokens(parts) || u in pi by { MergedSnoc(parts, pi, u); }
    assert Get(whole, u) == prefix + Get(pi, u) by {
      MergedSnoc(parts, pi, u);
      if u !in AllTokens(parts) { ConcatenatedAbsent(parts, u); }
    }
    assert u in a <==> u in b;
    if u in a {
      Regroup(prefix, Get(pi, u), tail);
    }
  }

  lemma Regroup(x: seq<Posting>, y: seq<Posting>, z: seq<Posting>)
    ensures x + (y + z) == (x + y) + z
  {
  }

  /** Whatever the threshold, the builder numbers URLs in first-seen order and its parts add up to the unflushed index. */
  lemma {:induction false} RunMerged(docs: seq<Document>, threshold: nat)
    requires threshold > 0
    ensures Run(docs, threshold).urls == FirstSeen(docs)
    ensures Merged(Run(docs, threshold).flushed + [Run(docs, threshold).pending]) == Unflushed(docs)
  {
    if |docs| == 0 {
      MergedEmptyPart([]);
    } else {
      var n := |docs| - 1;
      var front := docs[..n];
      var doc := docs[n];
      RunMerged(front, threshold);
      var st := Run(front, threshold);
      if !IsDuplicate(st, doc) {
        var pending :=
          if doc.Page? then AddDocument(st.pending, |st.urls|, Annotated(Stream(doc.elements)))
          else st.pending;
        if doc.Page? {
          MergedAddDocument(st.flushed, st.pending, |st.urls|, Annotated(Stream(doc.elements)));
        }
        assert Merged(st.flushed + [pending]) == Unflushed(docs);
        MergedEmptyPart(st.flushed + [pending]);
      }
    }
  }

  /** Merging the written partial indices gives the index built in one piece. */
  lemma WrittenMerged(docs: seq<Document>, threshold: nat)
    requires threshold > 0
    ensures Merged(Written(Run(docs, threshold))) == Unflushed(docs)
  {
    RunMerged(docs, threshold);
    var st := Run(docs, threshold);
    if |st.pending| == 0 {
      assert st.pending == map[];
      MergedEmptyPart(st.flushed);
    }
  }

  // ---------------------------------------------------------------------
  // The builder object.

  /** The partial-index files as `json.loads` reads them back. */
  function Loaded(written: seq<seq<Record>>): (parts: seq<PartialIndex>)
    ensures |parts| == |written|
    ensures forall k :: 0 <= k < |written| ==> parts[k] == ToMap(written[k])
  {
    seq(|written|, k requires 0 <= k < |written| => ToMap(written[k]))
  }

  /** Writing one more listing loads back as one more partial index. */
  lemma LoadedSnoc(written: seq<seq<Record>>, listing: seq<Record>)
    ensures Loaded(written + [listing]) == Loaded(written) + [ToMap(listing)]
  {
  }

  lemma SortedSnoc(written: seq<seq<Record>>, listing: seq<Record>)
    requires forall k :: 0 <= k < |written| ==> StrictlySorted(written[k])
    requires StrictlySorted(listing)
    ensures forall k :: 0 <= k < |written| + 1 ==> StrictlySorted((written + [listing])[k])
  {
  }

  class IndexBuilder {
    const threshold: nat                 // `doc_threshold`
    var seenUrls: set<string>            // `seen_urls`
    var docIdMap: map<string, nat>       // `doc_id_map`
    var docId: nat                       // `doc_id`: the next id to assign
    var fileCount: nat                   // `file_count`
    var indexCount: nat                  // `index_count`: number of the next partial-index file
    var partialIndex: PartialIndex       // `partial_index`
    var written: seq<seq<Record>>        // `partial_index1.json`, `partial_index2.json`, ...
    ghost var urls: seq<string>          // the numbered URLs, in id order

    ghost predicate Valid()
      reads this
    {
      && threshold > 0
      && Distinct(urls)
      && docId == |urls|
      && seenUrls == (set u | u in urls)
      && docIdMap == IdMap(urls)
      && indexCount == |written| + 1
      && forall k :: 0 <= k < |written| ==> StrictlySorted(written[k])
    }

    ghost function State(): BuildState
      reads this
    {
      BuildState(urls, fileCount, partialIndex, Loaded(written))
    }

    constructor (threshold: nat)
      requires threshold > 0
      ensures Valid() && this.threshold == threshold && State() == Start
    {
      this.threshold := threshold;
      seenUrls, docIdMap, docId, fileCount, indexCount := {}, map[], 0, 0, 1;
      partialIndex, written := map[], [];
      urls := [];
      new;
      assert Loaded([]) == [];
    }

    /** The body of the loop over files in `make_index`. */
    method Process(doc: Document)
      requires Valid()
      modifies this
      ensures Valid()
      ensures State() == Step(old(State()), doc, threshold)
    {
      ghost var st := State();
      if !doc.Unreadable? {
        var url := Normalize(doc.url);
        if url in seenUrls {
          assert IsDuplicate(st, doc);
          return;
        }
        Admit(doc, url);
      }
      assert !IsDuplicate(st, doc);
      EndOfFile(st, doc);
    }

    /** A readable file with a new URL: it is numbered and its postings are appended. */
    method Admit(doc: Document, url: string)
      requires Valid() && !doc.Unreadable? && url == Normalize(doc.url) && url !in seenUrls
      modifies this`seenUrls, this`docIdMap, this`docId, this`urls, this`partialIndex
      ensures Valid()
      ensures urls == old(urls) + [url]
      ensures partialIndex ==
        if doc.Page? then AddDocument(old(partialIndex), |old(urls)|, Annotated(Stream(doc.elements)))
        else old(partialIndex)
    {
      var currentDocId := Register(url);
      if doc.Page? {
        var tokens, _ := Annotate(doc.elements);
        AddPostings(currentDocId, tokens);
      }
    }

    /** `file_count += 1` and the flush check that end every file that is not a duplicate. */
    method EndOfFile(ghost st: BuildState, ghost doc: Document)
      requires Valid() && !IsDuplicate(st, doc)
      requires urls == if doc.Unreadable? then st.urls else st.urls + [Normalize(doc.url)]
      requires partialIndex ==
        if doc.Page? then AddDocument(st.pending, |st.urls|, Annotated(Stream(doc.elements))) else st.pending
      requires fileCount == st.fileCount && Loaded(written) == st.flushed
      modifies this`fileCount, this`partialIndex, this`written, this`indexCount
      ensures Valid()
      ensures State() == Step(st, doc, threshold)
    {
      ghost var pending := partialIndex;
      fileCount := fileCount + 1;
      FlushIfDue();
      ghost var flushNow := FlushDue(docId, threshold);
      StepFresh(st, doc, threshold, urls, pending, flushNow);
    }

    /**
     * `seen_urls.add(url)` and the numbering under `url not in doc_id_map`,
     * which always holds here since the map's keys are `seen_urls`.
     */
    method Register(url: string) returns (id: nat)
      requires Valid() && url !in seenUrls
      modifies this`seenUrls, this`docIdMap, this`docId, this`urls
      ensures Valid()
      ensures id == old(docId) && urls == old(urls) + [url]
    {
      seenUrls := seenUrls + {url};
      docIdMap := docIdMap[url := docId];
      id := docId;
      docId := docId + 1;
      urls := urls + [url];
      assert (set u | u in urls) == old(seenUrls) + {url};
    }

    /** The loops that append one document's postings to `partial_index`. */
    method AddPostings(id: nat, tokens: TextElements)
      modifies this`partialIndex
      ensures partialIndex == AddDocument(old(partialIndex), id, tokens)
    {
      ghost var start := partialIndex;
      var rest := tokens.Keys;
      assert tokens - rest == map[];
      AddDocumentNothing(start, id);
      while rest != {}
        invariant rest <= tokens.Keys
        invariant partialIndex == AddDocument(start, id, tokens - rest)
        decreases rest
      {
        var token :| token in rest;
        AppendOccurrences(id, token, tokens[token]);
        AddDocumentStep(start, id, tokens, rest, token);
        rest := rest - {token};
      }
      assert tokens - {} == tokens;
    }

    /** `for occurrence in occurrences: partial_index[token].append(...)`. */
    method AppendOccurrences(id: nat, token: string, occurrences: seq<Occurrence>)
      modifies this`partialIndex
      ensures partialIndex ==
        if |occurrences| == 0 then old(partialIndex)
        else old(partialIndex)[token := Get(old(partialIndex), token) + PostingsOf(id, occurrences)]
    {
      ghost var before := partialIndex;
      var k := 0;
      while k < |occurrences|
        invariant 0 <= k <= |occurrences|
        invariant partialIndex == if k == 0 then before else before[token := Get(before, token) + PostingsOf(id, occurrences[..k])]
      {
        var occurrence := occurrences[k];
        ghost var posting := Posting(id, occurrence.position, occurrence.flags);
        assert occurrences[..k + 1][..k] == occurrences[..k];
        assert PostingsOf(id, occurrences[..k + 1]) == PostingsOf(id, occurrences[..k]) + [posting];
        assert Get(partialIndex, token) == Get(before, token) + PostingsOf(id, occurrences[..k]);
        assert (Get(before, token) + PostingsOf(id, occurrences[..k])) + [posting]
            == Get(before, token) + PostingsOf(id, occurrences[..k + 1]);
        partialIndex := partialIndex[token := Get(partialIndex, token) + [Posting(id, occurrence.position, occurrence.flags)]];
        k := k + 1;
      }
      assert occurrences[..|occurrences|] == occurrences;
    }

    /** `if doc_id % doc_threshold == 0 and doc_id != 0`: store, clear, count. */
    method FlushIfDue()
      requires Valid()
      modifies this`partialIndex, this`written, this`indexCount
      ensures Valid()
      ensures FlushDue(docId, threshold) ==>
        && partialIndex == map[]
        && Loaded(written) == Loaded(old(written)) + [old(partialIndex)]
      ensures !FlushDue(docId, threshold) ==>
        partialIndex == old(partialIndex) && written == old(written) && indexCount == old(indexCount)
    {
      if FlushDue(docId, threshold) {
        var listing := SortedListing(partialIndex);
        LoadedSnoc(written, listing);
        SortedSnoc(written, listing);
        written := written + [listing];
        partialIndex := map[];
        indexCount := indexCount + 1;
      }
    }

    /** The final `if partial_index: store_sorted_indices(...)`. */
    method Finish()
      requires Valid()
      modifies this`written
      ensures Loaded(written) == Written(old(State()))
      ensures forall k :: 0 <= k < |written| ==> StrictlySorted(written[k])
    {
      if |partialIndex| > 0 {
        var listing := SortedListing(partialIndex);
        LoadedSnoc(written, listing);
        SortedSnoc(written, listing);
        written := written + [listing];
      }
    }
  }

  /** `Step` on a document that is not a duplicate, with its parts named. */
  lemma StepFresh(st: BuildState, doc: Document, threshold: nat, urls: seq<string>, pending: PartialIndex, flushNow: bool)
    requires threshold > 0 && !IsDuplicate(st, doc)
    requires urls == if doc.Unreadable? then st.urls else st.urls + [Normalize(doc.url)]
    requires pending ==
      if doc.Page? then AddDocument(st.pending, |st.urls|, Annotated(Stream(doc.elements))) else st.pending
    requires flushNow == FlushDue(|urls|, threshold)
    ensures Step(st, doc, threshold) ==
      if flushNow then BuildState(urls, st.fileCount + 1, map[], st.flushed + [pending])
      else BuildState(urls, st.fileCount + 1, pending, st.flushed)
  {
  }

  /** One more token of a document's text elements has been appended. */
  lemma AddDocumentStep(pi: PartialIndex, id: nat, te: TextElements, rest: set<string>, t: string)
    requires t in rest && rest <= te.Keys
    ensures var before := AddDocument(pi, id, te - rest);
      (if |te[t]| == 0 then before else before[t := Get(before, t) + PostingsOf(id, te[t])])
        == AddDocument(pi, id, te - (rest - {t}))
  {
    var a, b := te - rest, te - (rest - {t});
    assert t !in a && t in b && b[t] == te[t];
    assert Get(AddDocument(pi, id, a), t) == Get(pi, t) by {
      assert Occurrences(a, t) == [];
      assert PostingsOf(id, []) == [];
    }
    forall u | u != t
      ensures (u in a <==> u in b) && Occurrences(a, u) == Occurrences(b, u)
    {
    }
    if |te[t]| == 0 {
      AddDocumentEmpty(pi, id, a, b, t);
    } else {
      AddDocumentExtend(pi, id, a, b, t);
    }
  }

  lemma AddDocumentNothing(pi: PartialIndex, id: nat)
    ensures AddDocument(pi, id, map[]) == pi
  {
    var after := AddDocument(pi, id, map[]);
    forall u | u in after
      ensures after[u] == pi[u]
    {
      assert PostingsOf(id, Occurrences(map[], u)) == [];
    }
  }

  lemma AddDocumentAt(pi: PartialIndex, id: nat, te: TextElements, u: string)
    ensures u in AddDocument(pi, id, te) <==> u in pi || (u in te && |te[u]| > 0)
    ensures u in AddDocument(pi, id, te) ==> AddDocument(pi, id, te)[u] == Get(pi, u) + PostingsOf(id, Occurrences(te, u))
  {
  }

  lemma AddDocumentExtend(pi: PartialIndex, id: nat, a: TextElements, b: TextElements, t: string)
    requires t !in a && t in b && |b[t]| > 0
    requires forall u :: u != t ==> Occurrences(a, u) == Occurrences(b, u) && (u in a <==> u in b)
    ensures var before := AddDocument(pi, id, a);
      before[t := Get(pi, t) + PostingsOf(id, b[t])] == AddDocument(pi, id, b)
  {
    var before, after := AddDocument(pi, id, a), AddDocument(pi, id, b);
    var stepped := before[t := Get(pi, t) + PostingsOf(id, b[t])];
    forall u
      ensures (u in stepped <==> u in after) && (u in after ==> stepped[u] == after[u])
    {
      AddDocumentAt(pi, id, b, u);
      if u != t {
        AddDocumentAt(pi, id, a, u);
      }
    }
    SameIndex(stepped, after);
  }

  lemma AddDocumentEmpty(pi: PartialIndex, id: nat, a: TextElements, b: TextElements, t: string)
    requires t !in a && t in b && |b[t]| == 0
    requires forall u :: u != t ==> Occurrences(a, u) == Occurrences(b, u) && (u in a <==> u in b)
    ensures AddDocument(pi, id, a) == AddDocument(pi, id, b)
  {
    var before, after := AddDocument(pi, id, a), AddDocument(pi, id, b);
    forall u
      ensures (u in before <==> u in after) && (u in after ==> before[u] == after[u])
    {
      AddDocumentAt(pi, id, a, u);
      AddDocumentAt(pi, id, b, u);
      if u == t {
        assert Occurrences(a, t) == [] == Occurrences(b, t);
      }
    }
    SameIndex(before, after);
  }

  lemma RunPrefix(docs: seq<Document>, i: nat, threshold: nat)
    requires threshold > 0 && i < |docs|
    ensures Run(docs[..i + 1], threshold) == Step(Run(docs[..i], threshold), docs[i], threshold)
  {
    assert docs[..i + 1][..i] == docs[..i];
  }

  /** The file counter never goes down. */
  lemma {:induction false} FileCountGrows(docs: seq<Document>, m: nat, n: nat, threshold: nat)
    requires threshold > 0 && m <= n <= |docs|
    ensures Run(docs[..m], threshold).fileCount <= Run(docs[..n], threshold).fileCount
    decreases n - m
  {
    if m < n {
      var k := n - 1;
      var st := Run(docs[..k], threshold);
      FileCountGrows(docs, m, k, threshold);
      RunPrefix(docs, k, threshold);
      assert Run(docs[..n], threshold).fileCount >= st.fileCount;
    }
  }

  /**
   * Over the whole loop: the numbered URLs are distinct, each numbered file
   * was counted, and no more files were counted than were looked at.
   */
  lemma {:induction false} RunCounts(docs: seq<Document>, threshold: nat)
    requires threshold > 0
    ensures Distinct(Run(docs, threshold).urls)
    ensures |Run(docs, threshold).urls| <= Run(docs, threshold).fileCount <= |docs|
  {
    if |docs| > 0 {
      var n := |docs| - 1;
      RunCounts(docs[..n], threshold);
      var st := Run(docs[..n], threshold);
      if !IsDuplicate(st, docs[n]) && !docs[n].Unreadable? {
        DistinctSnoc(st.urls, Normalize(docs[n].url));
      }
    }
  }

  /** Below the limit after `n - 1` files means below it after every earlier prefix too. */
  lemma BelowLimit(docs: seq<Document>, n: nat, testLimit: int, threshold: nat)
    requires threshold > 0 && n <= |docs|
    requires n == 0 || Run(docs[..n - 1], threshold).fileCount < testLimit
    ensures forall m :: 0 <= m < n ==> Run(docs[..m], threshold).fileCount < testLimit
  {
    if n > 0 {
      var limit := Run(docs[..n - 1], threshold).fileCount;
      forall m | 0 <= m < n
        ensures Run(docs[..m], threshold).fileCount < testLimit
      {
        FileCountGrows(docs, m, n - 1, threshold);
        assert Run(docs[..m], threshold).fileCount <= limit;
      }
    }
  }

  /** The number of files looked at before `file_count >= test_limit` stops the walk. */
  ghost predicate StopsAt(docs: seq<Document>, n: nat, testLimit: int, threshold: nat)
    requires threshold > 0 && n <= |docs|
  {
    && (n == |docs| || Run(docs[..n], threshold).fileCount >= testLimit)
    && forall m :: 0 <= m < n ==> Run(docs[..m], threshold).fileCount < testLimit
  }

  /**
   * `make_index`: returns `doc_id_map` and the contents of the partial-index
   * files in the order they were written.
   */
  method MakeIndex(docs: seq<Document>, testLimit: int, threshold: nat)
    returns (docIdMap: map<string, nat>, partials: seq<seq<Record>>)
    requires threshold > 0
    ensures exists n :: (0 <= n <= |docs| && StopsAt(docs, n, testLimit, threshold)
      && docIdMap == IdMap(Run(docs[..n], threshold).urls)
      && Loaded(partials) == Written(Run(docs[..n], threshold)))
    ensures forall k :: 0 <= k < |partials| ==> StrictlySorted(partials[k])
  {
    var builder := new IndexBuilder(threshold);
    var n := Walk(builder, docs, testLimit);
    ghost var st := builder.State();
    builder.Finish();
    docIdMap := builder.docIdMap;
    partials := builder.written;
    IdMapDense(builder.urls);
    assert Loaded(partials) == Written(Run(docs[..n], threshold));
  }

  /** The loop over files, up to the end of the walk or `file_count >= test_limit`. */
  method Walk(builder: IndexBuilder, docs: seq<Document>, testLimit: int) returns (n: nat)
    requires builder.Valid() && builder.State() == Start
    modifies builder
    ensures n <= |docs| && StopsAt(docs, n, testLimit, builder.threshold)
    ensures builder.Valid() && builder.State() == Run(docs[..n], builder.threshold)
  {
    ghost var threshold := builder.threshold;
    n := 0;
    assert builder.State() == Run(docs[..0], threshold);
    while n < |docs| && builder.fileCount < testLimit
      invariant 0 <= n <= |docs|
      invariant builder.Valid() && builder.threshold == threshold
      invariant builder.State() == Run(docs[..n], threshold)
      invariant n == 0 || Run(docs[..n - 1], threshold).fileCount < testLimit
    {
      ghost var before := builder.State();
      assert Run(docs[..n], threshold).fileCount < testLimit;
      builder.Process(docs[n]);
      assert builder.State() == Step(before, docs[n], threshold);
      RunPrefix(docs, n, threshold);
      n := n + 1;
    }
    BelowLimit(docs, n, testLimit, threshold);
  }
}
