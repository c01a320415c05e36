/**
 * The query side (search.py): the in-memory inverted index built from the
 * lines of the final index, the boolean AND over already-stemmed query
 * terms, the inverted document id map, and the rendering of a result as
 * newline-separated URLs.
 */
module Search {
  import opened Wrappers
  import opened Text
  import opened Postings

  /** `inverted_index`: token to the set of documents it occurs in. */
  type InvertedIndex = map<string, set<nat>>

  /** `[doc_entry['doc_id'] for doc_entry in entry['entries']]`, as a set. */
  function DocIds(entries: seq<Posting>): (ids: set<nat>)
    ensures forall d :: d in ids <==> exists k :: 0 <= k < |entries| && entries[k].docId == d
  {
    set k | 0 <= k < |entries| :: entries[k].docId
  }

  function Lookup(inv: InvertedIndex, t: string): set<nat>
  {
    if t in inv then inv[t] else {}
  }

  /** The inverted index of the first lines: each line adds its ids to its token's set. */
  function Inverted(lines: seq<Record>): InvertedIndex
  {
    if |lines| == 0 then map[]
    else
      var prev := Inverted(lines[..|lines| - 1]);
      var line := lines[|lines| - 1];
      prev[line.token := Lookup(prev, line.token) + DocIds(line.entries)]
  }

  /**
   * `create_inverted_index`: the keys are exactly the tokens of the lines,
   * and a document is under a token exactly when some line of that token
   * has a posting for it.
   */
  lemma {:induction false} InvertedContents(lines: seq<Record>, t: string, d: nat)
    ensures t in Inverted(lines) <==> exists i :: 0 <= i < |lines| && lines[i].token == t
    ensures d in Lookup(Inverted(lines), t) <==>
      exists i, k :: 0 <= i < |lines| && lines[i].token == t && 0 <= k < |lines[i].entries| && lines[i].entries[k].docId == d
  {
    if |lines| > 0 {
      var n := |lines| - 1;
      var front := lines[..n];
      InvertedContents(front, t, d);
      assert forall i :: 0 <= i < n ==> front[i] == lines[i];
      if lines[n].token == t && d in DocIds(lines[n].entries) {
        var k :| 0 <= k < |lines[n].entries| && lines[n].entries[k].docId == d;
        assert lines[n].token == t && lines[n].entries[k].docId == d;
      }
    }
  }

  lemma InvertedPrefix(lines: seq<Record>, i: nat)
    requires i < |lines|
    ensures Inverted(lines[..i + 1]) ==
      Inverted(lines[..i])[lines[i].token := Lookup(Inverted(lines[..i]), lines[i].token) + DocIds(lines[i].entries)]
  {
    assert lines[..i + 1][..i] == lines[..i];
  }

  /** `create_inverted_index` over the lines of the final index, in file order. */
  method CreateInvertedIndex(lines: seq<Record>) returns (inv: InvertedIndex)
    ensures inv == Inverted(lines)
  {
    inv := map[];
    var i := 0;
    while i < |lines|
      invariant 0 <= i <= |lines|
      invariant inv == Inverted(lines[..i])
    {
      var entry := lines[i];
      var token := entry.token;
      var docIds := DocIds(entry.entries);
      InvertedPrefix(lines, i);
      if token in inv {
        inv := inv[token := inv[token] + docIds];
      } else {
        assert Lookup(inv, token) + docIds == docIds;
        inv := inv[token := docIds];
      }
      i := i + 1;
    }
    assert lines[..|lines|] == lines;
  }

  // ---------------------------------------------------------------------
  // `boolean_and_query`

  /** `set.intersection(*sets)` for a non-empty list of sets. */
  function Intersection(sets: seq<set<nat>>): set<nat>
    requires |sets| > 0
  {
    if |sets| == 1 then sets[0] else Intersection(sets[..|sets| - 1]) * sets[|sets| - 1]
  }

  lemma {:induction false} IntersectionMembers(sets: seq<set<nat>>, d: nat)
    requires |sets| > 0
    ensures d in Intersection(sets) <==> forall i :: 0 <= i < |sets| ==> d in sets[i]
  {
    if |sets| > 1 {
      var n := |sets| - 1;
      IntersectionMembers(sets[..n], d);
      assert forall i :: 0 <= i < n ==> sets[..n][i] == sets[i];
    }
  }

  /** `result_sets`: the documents of each term, none for a term the index lacks. */
  function ResultSets(inv: InvertedIndex, terms: seq<string>): (sets: seq<set<nat>>)
    ensures |sets| == |terms|
    ensures forall i :: 0 <= i < |terms| ==> sets[i] == Lookup(inv, terms[i])
  {
    seq(|terms|, i requires 0 <= i < |terms| => Lookup(inv, terms[i]))
  }

  /** `boolean_and_query` over an already-stemmed list of terms. */
  function BooleanAndQuery(inv: InvertedIndex, terms: seq<string>): (r: set<nat>)
    ensures |terms| == 0 ==> r == {}
  {
    if |terms| == 0 then {} else Intersection(ResultSets(inv, terms))
  }

  /** A document matches exactly when every term of a non-empty query has it. */
  lemma AndMembers(inv: InvertedIndex, terms: seq<string>, d: nat)
    ensures d in BooleanAndQuery(inv, terms) <==>
      |terms| > 0 && forall i :: 0 <= i < |terms| ==> d in Lookup(inv, terms[i])
  {
    if |terms| > 0 {
      IntersectionMembers(ResultSets(inv, terms), d);
    }
  }

  /** A term the index does not hold makes the answer empty, without an error. */
  lemma AndAbsentTerm(inv: InvertedIndex, terms: seq<string>, i: nat)
    requires i < |terms| && terms[i] !in inv
    ensures BooleanAndQuery(inv, terms) == {}
  {
    forall d | d in BooleanAndQuery(inv, terms)
      ensures false
    {
      AndMembers(inv, terms, d);
    }
  }

  /** The answer lies inside every term's set. */
  lemma AndSubset(inv: InvertedIndex, terms: seq<string>, i: nat)
    requires i < |terms|
    ensures BooleanAndQuery(inv, terms) <= Lookup(inv, terms[i])
  {
    forall d | d in BooleanAndQuery(inv, terms)
      ensures d in Lookup(inv, terms[i])
    {
      AndMembers(inv, terms, d);
    }
  }

  /** Only the set of terms matters: reordering or repeating terms changes nothing. */
  lemma AndTermSet(inv: InvertedIndex, a: seq<string>, b: seq<string>)
    requires forall t :: t in a <==> t in b
    ensures BooleanAndQuery(inv, a) == BooleanAndQuery(inv, b)
  {
    forall d
      ensures d in BooleanAndQuery(inv, a) <==> d in BooleanAndQuery(inv, b)
    {
      AndMembers(inv, a, d);
      AndMembers(inv, b, d);
      if |a| > 0 { assert a[0] in b; }
      if |b| > 0 { assert b[0] in a; }
      if forall i :: 0 <= i < |a| ==> d in Lookup(inv, a[i]) {
        forall j | 0 <= j < |b|
          ensures d in Lookup(inv, b[j])
        {
          assert b[j] in a;
        }
      }
      if forall j :: 0 <= j < |b| ==> d in Lookup(inv, b[j]) {
        forall i | 0 <= i < |a|
          ensures d in Lookup(inv, a[i])
        {
          assert a[i] in b;
        }
      }
    }
  }

  // ---------------------------------------------------------------------
  // `load_doc_id_map`

  /** `{str(doc_id): url for url, doc_id in url_to_doc_id.items()}`, items in file order. */
  function LoadDocIdMap(items: seq<(string, nat)>): (inv: map<string, string>)
    ensures EveryIdKeyed(items, inv)
    ensures LastItemWins(items, inv)
  {
    if |items| == 0 then map[]
    else
      var last := items[|items| - 1];
      LoadDocIdMap(items[..|items| - 1])[Str(last.1) := last.0]
  }

  /** The last item's id spelling maps to its URL, whatever earlier items share that id. */
  predicate LastItemWins(items: seq<(string, nat)>, inv: map<string, string>)
  {
    |items| > 0 ==> Str(items[|items| - 1].1) in inv && inv[Str(items[|items| - 1].1)] == items[|items| - 1].0
  }

  /** Every id of the items has its spelling as a key. */
  predicate EveryIdKeyed(items: seq<(string, nat)>, inv: map<string, string>)
  {
    forall k :: 0 <= k < |items| ==> Str(items[k].1) in inv
  }

  /** The keys are exactly the spellings of the ids. */
  lemma {:induction false} LoadDocIdMapKeys(items: seq<(string, nat)>)
    ensures LoadDocIdMap(items).Keys == Spellings(items)
  {
    if |items| > 0 {
      var n := |items| - 1;
      LoadDocIdMapKeys(items[..n]);
      SpellingsSnoc(items);
    }
  }

  /** The spellings of the items' ids. */
  function Spellings(items: seq<(string, nat)>): set<string>
  {
    set k | 0 <= k < |items| :: Str(items[k].1)
  }

  lemma SpellingsSnoc(items: seq<(string, nat)>)
    requires |items| > 0
    ensures Spellings(items) == Spellings(items[..|items| - 1]) + {Str(items[|items| - 1].1)}
  {
    var n := |items| - 1;
    var front := items[..n];
    forall x
      ensures x in Spellings(items) <==> x in Spellings(front) || x == Str(items[n].1)
    {
      if x in Spellings(items) {
        var k :| 0 <= k < |items| && x == Str(items[k].1);
        if k < n { assert front[k] == items[k]; }
      }
      if x in Spellings(front) {
        var k :| 0 <= k < n && x == Str(front[k].1);
        assert front[k] == items[k];
      }
    }
  }

  /** For distinct ids every id's spelling leads back to its URL, one entry per item. */
  lemma {:induction false} LoadDocIdMapInverts(items: seq<(string, nat)>)
    requires forall i, j :: 0 <= i < j < |items| ==> items[i].1 != items[j].1
    ensures forall k :: 0 <= k < |items| ==>
      Str(items[k].1) in LoadDocIdMap(items) && LoadDocIdMap(items)[Str(items[k].1)] == items[k].0
    ensures |LoadDocIdMap(items)| == |items|
  {
    if |items| > 0 {
      var n := |items| - 1;
      var front := items[..n];
      LoadDocIdMapInverts(front);
      var prev := LoadDocIdMap(front);
      assert Str(items[n].1) !in prev by {
        LoadDocIdMapKeys(front);
        if Str(items[n].1) in prev {
          var k :| 0 <= k < n && Str(front[k].1) == Str(items[n].1);
          StrInjective(front[k].1, items[n].1);
        }
      }
      forall k | 0 <= k < n
        ensures Str(items[k].1) != Str(items[n].1)
      {
        if Str(items[k].1) == Str(items[n].1) { StrInjective(items[k].1, items[n].1); }
      }
      assert forall k :: 0 <= k < n ==> front[k] == items[k];
    }
  }

  // ---------------------------------------------------------------------
  // `search`

  /** `m` is the smallest id of `s`. */
  predicate IsLeast(m: nat, s: set<nat>)
  {
    m in s && forall x :: x in s ==> m <= x
  }

  /** A non-empty set of ids has exactly one smallest element. */
  lemma MinExists(s: set<nat>)
    requires s != {}
    ensures exists m :: IsLeast(m, s)
    ensures forall m, m' :: IsLeast(m, s) && IsLeast(m', s) ==> m == m'
  {
    var y :| y in s;
    MinBelow(s, y);
  }

  lemma {:induction false} MinBelow(s: set<nat>, y: nat)
    requires y in s
    ensures exists m :: IsLeast(m, s)
    decreases y
  {
    if z :| z in s && z < y {
      MinBelow(s, z);
    } else {
      assert IsLeast(y, s);
    }
  }

  /** The documents of a result in the order the URLs are listed: ascending ids. */
  function Ascending(s: set<nat>): seq<nat>
    decreases |s|
  {
    if s == {} then []
    else
      MinExists(s);
      var m :| IsLeast(m, s);
      [m] + Ascending(s - {m})
  }

  /** Each matching document once, smallest id first. */
  lemma {:induction false} AscendingFacts(s: set<nat>)
    ensures forall i, j :: 0 <= i < j < |Ascending(s)| ==> Ascending(s)[i] < Ascending(s)[j]
    ensures forall d :: d in s <==> d in Ascending(s)
    decreases |s|
  {
    if s != {} {
      MinExists(s);
      var m :| IsLeast(m, s);
      var rest := Ascending(s - {m});
      AscendingFacts(s - {m});
      var a := Ascending(s);
      assert a == [m] + rest;
      forall i, j | 0 <= i < j < |a|
        ensures a[i] < a[j]
      {
        assert a[j] == rest[j - 1] && rest[j - 1] in s - {m};
        if i > 0 { assert a[i] == rest[i - 1]; }
      }
    }
  }

  /** `[doc_id_to_url[str(doc_id)] for doc_id in matching_docs]`: the first id without a URL raises. */
  function UrlsOf(ids: seq<nat>, docIdToUrl: map<string, string>): (r: Result<seq<string>, nat>)
    ensures r.Success? ==> |r.value| == |ids|
    ensures r.Failure? ==> r.error in ids && Str(r.error) !in docIdToUrl
  {
    if |ids| == 0 then Success([])
    else if Str(ids[0]) !in docIdToUrl then Failure(ids[0])
    else
      match UrlsOf(ids[1..], docIdToUrl)
      case Success(rest) => Success([docIdToUrl[Str(ids[0])]] + rest)
      case Failure(missing) => Failure(missing)
  }

  /** The URLs are looked up one per id, in order, or the first missing id is reported. */
  lemma {:induction false} UrlsOfContents(ids: seq<nat>, docIdToUrl: map<string, string>)
    ensures UrlsOf(ids, docIdToUrl).Success? <==> forall k :: 0 <= k < |ids| ==> Str(ids[k]) in docIdToUrl
    ensures UrlsOf(ids, docIdToUrl).Success? ==>
      var urls := UrlsOf(ids, docIdToUrl).value;
      |urls| == |ids| && forall k :: 0 <= k < |ids| ==> urls[k] == docIdToUrl[Str(ids[k])]
    ensures UrlsOf(ids, docIdToUrl).Failure? ==>
      exists k :: 0 <= k < |ids| && ids[k] == UrlsOf(ids, docIdToUrl).error && Str(ids[k]) !in docIdToUrl
        && forall j :: 0 <= j < k ==> Str(ids[j]) in docIdToUrl
  {
    if |ids| > 0 {
      var rest := ids[1..];
      UrlsOfContents(rest, docIdToUrl);
      assert forall k :: 1 <= k < |ids| ==> ids[k] == rest[k - 1];
      if Str(ids[0]) in docIdToUrl && UrlsOf(rest, docIdToUrl).Failure? {
        var k :| 0 <= k < |rest| && rest[k] == UrlsOf(rest, docIdToUrl).error && Str(rest[k]) !in docIdToUrl
          && forall j :: 0 <= j < k ==> Str(rest[j]) in docIdToUrl;
        assert ids[k + 1] == rest[k];
      }
    }
  }

  /** `search` on an already-stemmed query: the matching URLs joined by newlines, or the id that raised. */
  function Search(inv: InvertedIndex, docIdToUrl: map<string, string>, terms: seq<string>): (r: Result<string, nat>)
    ensures |terms| == 0 ==> r == Success([])
    ensures r.Failure? ==> r.error in BooleanAndQuery(inv, terms) && Str(r.error) !in docIdToUrl
  {
    AscendingFacts(BooleanAndQuery(inv, terms));
    match UrlsOf(Ascending(BooleanAndQuery(inv, terms)), docIdToUrl)
    case Success(urls) => Success(Join(urls, '\n'))
    case Failure(missing) => Failure(missing)
  }

  /**
   * When every matching id has a URL, the answer lists one URL per matching
   * document, in ascending id order, and splitting it at newlines gives them
   * back when none holds a newline.
   */
  lemma SearchFound(inv: InvertedIndex, docIdToUrl: map<string, string>, terms: seq<string>)
    requires forall d :: d in BooleanAndQuery(inv, terms) ==> Str(d) in docIdToUrl
    ensures Search(inv, docIdToUrl, terms).Success?
    ensures var ids := Ascending(BooleanAndQuery(inv, terms));
      UrlsOf(ids, docIdToUrl).Success? &&
      var urls := UrlsOf(ids, docIdToUrl).value;
      && |urls| == |ids|
      && (forall k :: 0 <= k < |ids| ==> Str(ids[k]) in docIdToUrl && urls[k] == docIdToUrl[Str(ids[k])])
      && Search(inv, docIdToUrl, terms).value == Join(urls, '\n')
      && (|urls| > 0 && (forall k :: 0 <= k < |urls| ==> '\n' !in urls[k]) ==>
            Split(Search(inv, docIdToUrl, terms).value, '\n') == urls)
  {
    var ids := Ascending(BooleanAndQuery(inv, terms));
    AscendingFacts(BooleanAndQuery(inv, terms));
    UrlsOfContents(ids, docIdToUrl);
    var urls := UrlsOf(ids, docIdToUrl).value;
    if |urls| > 0 && (forall k :: 0 <= k < |urls| ==> '\n' !in urls[k]) {
      SplitJoin(urls, '\n');
    }
  }

  /** A matching id without a URL makes `search` raise, naming the smallest such id. */
  lemma SearchMissing(inv: InvertedIndex, docIdToUrl: map<string, string>, terms: seq<string>, d: nat)
    requires d in BooleanAndQuery(inv, terms) && Str(d) !in docIdToUrl
    ensures Search(inv, docIdToUrl, terms).Failure?
    ensures var e := Search(inv, docIdToUrl, terms).error;
      e in BooleanAndQuery(inv, terms) && Str(e) !in docIdToUrl && e <= d
  {
    var s := BooleanAndQuery(inv, terms);
    var ids := Ascending(s);
    AscendingFacts(s);
    var i :| 0 <= i < |ids| && ids[i] == d;
    var u := UrlsOf(ids, docIdToUrl);
    UrlsOfContents(ids, docIdToUrl);
    assert u.Failure? by {
      assert Str(ids[i]) !in docIdToUrl;
    }
    var k :| 0 <= k < |ids| && ids[k] == u.error && Str(ids[k]) !in docIdToUrl
      && forall j :: 0 <= j < k ==> Str(ids[j]) in docIdToUrl;
    assert k <= i;
    assert Search(inv, docIdToUrl, terms) == Failure(u.error);
  }
}
