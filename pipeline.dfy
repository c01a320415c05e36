/**
 * The stages put together: the partial indices `make_index` writes, the
 * bucket files `create_intermediate_files` makes of them, the final index
 * `merge_and_sort_token_data` assembles, and the queries search.py answers
 * over it with the document id map `make_index` returned.
 */
module Pipeline {
  import opened Text
  import opened Postings
  import opened Builder
  import opened Merge
  import opened Search

  /** `doc_id_map.items()` as dumped: URLs in the order their ids were assigned. */
  function IdItems(urls: seq<string>): (items: seq<(string, nat)>)
    ensures |items| == |urls|
    ensures forall i :: 0 <= i < |urls| ==> items[i] == (urls[i], i)
  {
    seq(|urls|, i requires 0 <= i < |urls| => (urls[i], i))
  }

  /**
   * The final index built from the partial indices, read in any order (the
   * order `glob` lists their files), holds exactly the tokens of the
   * unflushed index that start with a letter `a`-`z` or a digit, each once,
   * with the postings one unflushed pass would have built, possibly
   * reordered, and only ids of numbered documents.
   */
  lemma FinalEqualsUnflushed(docs: seq<Document>, threshold: nat, parts: seq<PartialIndex>, files: map<string, seq<Record>>)
    requires threshold > 0 && multiset(parts) == multiset(Written(Run(docs, threshold)))
    requires IntermediateOf(files, parts)
    ensures var final, whole := Assembled(files, |FinalOrder|), Unflushed(docs);
      && Tokens(final) == Reaching(whole, |FinalOrder|)
      && FinalOrdered(final)
      && forall k :: 0 <= k < |final| ==>
           && final[k].token in whole
           && multiset(final[k].entries) == multiset(whole[final[k].token])
           && IdsBelow(final[k].entries, |FirstSeen(docs)|)
  {
    var written := Written(Run(docs, threshold));
    var final, whole := Assembled(files, |FinalOrder|), Unflushed(docs);
    FinalOrderRanks();
    FinalIndex(parts, files, |FinalOrder|);
    WrittenMerged(docs, threshold);
    MergedPermuted(parts, written);
    UnflushedOrdered(docs);
    assert Reaching(Merged(parts), |FinalOrder|) == Reaching(whole, |FinalOrder|);
    forall k | 0 <= k < |final|
      ensures final[k].token in whole && multiset(final[k].entries) == multiset(whole[final[k].token])
      ensures IdsBelow(final[k].entries, |FirstSeen(docs)|)
    {
      var t := final[k].token;
      TokensHas(final, k);
      assert final[k].entries == Merged(parts)[t];
      IdsBelowPermuted(final[k].entries, whole[t], |FirstSeen(docs)|);
    }
  }

  /**
   * When the partial indices are read in the order they were written, each
   * token's posting list in the final index is exactly the unflushed one and
   * so in document order: by document id, then by position.
   */
  lemma FinalInCreationOrder(docs: seq<Document>, threshold: nat, files: map<string, seq<Record>>)
    requires threshold > 0 && IntermediateOf(files, Written(Run(docs, threshold)))
    ensures var final, whole := Assembled(files, |FinalOrder|), Unflushed(docs);
      forall k :: 0 <= k < |final| ==>
        && final[k].token in whole
        && final[k].entries == whole[final[k].token]
        && InDocumentOrder(final[k].entries)
  {
    var parts := Written(Run(docs, threshold));
    var final, whole := Assembled(files, |FinalOrder|), Unflushed(docs);
    FinalOrderRanks();
    FinalIndex(parts, files, |FinalOrder|);
    WrittenMerged(docs, threshold);
    UnflushedOrdered(docs);
    forall k | 0 <= k < |final|
      ensures final[k].token in whole && final[k].entries == whole[final[k].token]
    {
      TokensHas(final, k);
    }
  }

  /**
   * Read in another order, the partial indices give a posting list out of
   * document order: `partial_index10.json` listed before
   * `partial_index2.json` puts a later document's posting first.
   */
  lemma ListingOrderMatters()
    ensures var p1, p2 := map["x" := [Posting(0, 0, {"b"})]], map["x" := [Posting(1, 0, {"b"})]];
      && InDocumentOrder(Merged([p1, p2])["x"])
      && !InDocumentOrder(Merged([p2, p1])["x"])
  {
    var p1, p2 := map["x" := [Posting(0, 0, {"b"})]], map["x" := [Posting(1, 0, {"b"})]];
    MergedPair(p1, p2, "x");
    MergedPair(p2, p1, "x");
    var late := Merged([p2, p1])["x"];
    assert late[0].docId > late[1].docId;
  }

  /** Two partial indices that both hold `t`: its list is the first one's followed by the second one's. */
  lemma MergedPair(p: PartialIndex, q: PartialIndex, t: string)
    requires t in p && t in q
    ensures t in Merged([p, q]) && Merged([p, q])[t] == p[t] + q[t]
  {
    MergedSnoc([p], q, t);
    assert [p] + [q] == [p, q];
    assert Concatenated([p], t) == p[t] by {
      assert [p][..0] == [];
    }
  }

  /** Reordering a posting list keeps its ids below a bound. */
  lemma IdsBelowPermuted(a: seq<Posting>, b: seq<Posting>, bound: nat)
    requires multiset(a) == multiset(b) && IdsBelow(b, bound)
    ensures IdsBelow(a, bound)
  {
    forall i | 0 <= i < |a|
      ensures a[i].docId < bound
    {
      assert a[i] in multiset(b);
    }
  }

  /** Reordering a posting list keeps its set of ids. */
  lemma DocIdsPermuted(a: seq<Posting>, b: seq<Posting>)
    requires multiset(a) == multiset(b)
    ensures DocIds(a) == DocIds(b)
  {
    forall d | d in DocIds(a)
      ensures d in DocIds(b)
    {
      var k :| 0 <= k < |a| && a[k].docId == d;
      assert a[k] in multiset(b);
      var j :| 0 <= j < |b| && b[j] == a[k];
    }
    forall d | d in DocIds(b)
      ensures d in DocIds(a)
    {
      var k :| 0 <= k < |b| && b[k].docId == d;
      assert b[k] in multiset(a);
      var j :| 0 <= j < |a| && a[j] == b[k];
    }
  }

  /** The inverted index of the final index: each reaching token with the documents it occurs in. */
  lemma InvertedFinal(docs: seq<Document>, threshold: nat, parts: seq<PartialIndex>, files: map<string, seq<Record>>, t: string, d: nat)
    requires threshold > 0 && multiset(parts) == multiset(Written(Run(docs, threshold)))
    requires IntermediateOf(files, parts)
    ensures var inv := Inverted(Assembled(files, |FinalOrder|));
      d in Lookup(inv, t) <==> t in Reaching(Unflushed(docs), |FinalOrder|) && d in DocIds(Unflushed(docs)[t])
    ensures d in Lookup(Inverted(Assembled(files, |FinalOrder|)), t) ==> d < |FirstSeen(docs)|
  {
    var final, whole := Assembled(files, |FinalOrder|), Unflushed(docs);
    var inv := Inverted(final);
    FinalEqualsUnflushed(docs, threshold, parts, files);
    InvertedContents(final, t, d);
    if d in Lookup(inv, t) {
      var i, k :| 0 <= i < |final| && final[i].token == t && 0 <= k < |final[i].entries| && final[i].entries[k].docId == d;
      TokensHas(final, i);
      DocIdsPermuted(final[i].entries, whole[t]);
      assert t in Reaching(whole, |FinalOrder|) && d in DocIds(whole[t]);
    }
    if t in Reaching(whole, |FinalOrder|) && d in DocIds(whole[t]) {
      TokensIndex(final, t);
      var i :| 0 <= i < |final| && final[i].token == t;
      DocIdsPermuted(final[i].entries, whole[t]);
      var k :| 0 <= k < |final[i].entries| && final[i].entries[k].docId == d;
      assert d in Lookup(inv, t);
    }
  }

  /**
   * Over the final index, whatever order the partial indices were read in,
   * and the inverted id map of the ids `make_index` assigned, `search` never
   * raises: every matching id is a numbered document and the URL listed for
   * it is the one it was numbered under.
   */
  lemma SearchNeverFails(docs: seq<Document>, threshold: nat, parts: seq<PartialIndex>, files: map<string, seq<Record>>, terms: seq<string>)
    requires threshold > 0 && multiset(parts) == multiset(Written(Run(docs, threshold)))
    requires IntermediateOf(files, parts)
    ensures var inv, docIdToUrl := Inverted(Assembled(files, |FinalOrder|)), LoadDocIdMap(IdItems(FirstSeen(docs)));
      && Search.Search(inv, docIdToUrl, terms).Success?
      && forall d :: d in BooleanAndQuery(inv, terms) ==>
           d < |FirstSeen(docs)| && Str(d) in docIdToUrl && docIdToUrl[Str(d)] == FirstSeen(docs)[d]
  {
    var urls := FirstSeen(docs);
    var inv, docIdToUrl := Inverted(Assembled(files, |FinalOrder|)), LoadDocIdMap(IdItems(urls));
    var items := IdItems(urls);
    LoadDocIdMapInverts(items);
    forall d | d in BooleanAndQuery(inv, terms)
      ensures d < |urls| && Str(d) in docIdToUrl && docIdToUrl[Str(d)] == urls[d]
    {
      AndMembers(inv, terms, d);
      InvertedFinal(docs, threshold, parts, files, terms[0], d);
      assert items[d] == (urls[d], d);
    }
    SearchFound(inv, docIdToUrl, terms);
  }
}
