/**
 * The values the indexer passes between its stages: postings, partial
 * indices (token to posting list), and the sorted `{token, entries}`
 * records in which a partial index or a bucket is written out.
 */
module Postings {
  import opened Text

  /** One occurrence of a token: the document, the token position and the tags it was under. */
  datatype Posting = Posting(docId: nat, position: nat, flags: set<string>)

  /** An in-memory index: token to the list of its postings, in append order. */
  type PartialIndex = map<string, seq<Posting>>

  /** One key of a dumped partial index, or one line of a bucket file. */
  datatype Record = Record(token: string, entries: seq<Posting>)

  function Get(m: PartialIndex, t: string): (ps: seq<Posting>)
    ensures t !in m ==> ps == []
    ensures t in m ==> ps == m[t]
  {
    if t in m then m[t] else []
  }

  /** The tokens of a listing, as a set. */
  function Tokens(rs: seq<Record>): set<string>
  {
    if |rs| == 0 then {} else Tokens(rs[..|rs| - 1]) + {rs[|rs| - 1].token}
  }

  lemma {:induction false} TokensIndex(rs: seq<Record>, t: string)
    requires t in Tokens(rs)
    ensures exists i :: 0 <= i < |rs| && rs[i].token == t
  {
    var n := |rs| - 1;
    if rs[n].token != t {
      TokensIndex(rs[..n], t);
      var i :| 0 <= i < n && rs[..n][i].token == t;
      assert rs[i].token == t;
    }
  }

  lemma {:induction false} TokensHas(rs: seq<Record>, i: nat)
    requires i < |rs|
    ensures rs[i].token in Tokens(rs)
  {
    var n := |rs| - 1;
    if i < n {
      TokensHas(rs[..n], i);
    }
  }

  predicate StrictlySorted(rs: seq<Record>)
  {
    forall i, j :: 0 <= i < j < |rs| ==> Less(rs[i].token, rs[j].token)
  }

  /** `json.loads` of a dumped object: each key maps to its value, a later duplicate wins. */
  function ToMap(rs: seq<Record>): (m: PartialIndex)
    ensures m.Keys == Tokens(rs)
  {
    if |rs| == 0 then map[] else ToMap(rs[..|rs| - 1])[rs[|rs| - 1].token := rs[|rs| - 1].entries]
  }

  /** `rs` is what dumping `m` with sorted keys writes: it loads back to `m`, keys ascending. */
  predicate IsListingOf(rs: seq<Record>, m: PartialIndex)
  {
    StrictlySorted(rs) && ToMap(rs) == m
  }

  /** In a sorted listing every record carries exactly its token's postings. */
  lemma {:induction false} ListingEntries(rs: seq<Record>, m: PartialIndex)
    requires IsListingOf(rs, m)
    ensures forall i :: 0 <= i < |rs| ==> rs[i].token in m && rs[i].entries == m[rs[i].token]
  {
    if |rs| > 0 {
      var n := |rs| - 1;
      var front := rs[..n];
      ListingLast(rs, m);
      ListingEntries(front, m - {rs[n].token});
      forall i | 0 <= i < n
        ensures rs[i].token in m && rs[i].entries == m[rs[i].token]
      {
        assert front[i] == rs[i];
      }
    }
  }

  /** Above every token of a sorted listing, the last one is absent from the front. */
  lemma LastNotInFront(rs: seq<Record>)
    requires StrictlySorted(rs) && |rs| > 0
    ensures rs[|rs| - 1].token !in Tokens(rs[..|rs| - 1])
  {
    var n := |rs| - 1;
    if rs[n].token in Tokens(rs[..n]) {
      TokensIndex(rs[..n], rs[n].token);
      LessIrreflexive(rs[n].token);
    }
  }

  lemma SortedFront(rs: seq<Record>, n: nat)
    requires StrictlySorted(rs) && n <= |rs|
    ensures StrictlySorted(rs[..n])
    ensures 0 < n < |rs| ==> Less(rs[n - 1].token, rs[n].token)
  {
    var front := rs[..n];
    forall i, j | 0 <= i < j < n
      ensures Less(front[i].token, front[j].token)
    {
      assert front[i] == rs[i] && front[j] == rs[j];
    }
  }

  /** The last record of a listing holds the greatest token; the rest list the other tokens. */
  lemma ListingLast(rs: seq<Record>, m: PartialIndex)
    requires IsListingOf(rs, m) && |rs| > 0
    ensures var n := |rs| - 1; var x := rs[n].token;
      && x in m && rs[n].entries == m[x]
      && IsListingOf(rs[..n], m - {x})
      && forall t :: t in m && t != x ==> Less(t, x)
  {
    var n := |rs| - 1;
    var front, x := rs[..n], rs[n].token;
    SortedFront(rs, n);
    LastNotInFront(rs);
    assert ToMap(front) == m - {x};
    forall t | t in m && t != x
      ensures Less(t, x)
    {
      TokensIndex(front, t);
      var j :| 0 <= j < n && front[j].token == t;
      assert rs[j] == front[j];
    }
  }

  /** Two sorted listings of the same index are the same sequence. */
  lemma {:induction false} ListingUnique(a: seq<Record>, b: seq<Record>, m: PartialIndex)
    requires IsListingOf(a, m) && IsListingOf(b, m)
    ensures a == b
  {
    if |a| == 0 {
      if |b| > 0 { ListingLast(b, m); }
    } else if |b| == 0 {
      ListingLast(a, m);
    } else {
      var na, nb := |a| - 1, |b| - 1;
      var x, y := a[na].token, b[nb].token;
      ListingLast(a, m);
      ListingLast(b, m);
      if x != y {
        LessAsymmetric(y, x);
      }
      ListingUnique(a[..na], b[..nb], m - {x});
      assert a[na] == b[nb];
      assert a == a[..na] + [a[na]] && b == b[..nb] + [b[nb]];
    }
  }

  /**
   * The items of `m` in ascending key order: `{k: m[k] for k in sorted(m)}`
   * when a partial index is flushed, `sorted(tokens_data.items())` when a
   * bucket is written.
   */
  function SortedListing(m: PartialIndex): (rs: seq<Record>)
    ensures IsListingOf(rs, m)
    decreases m.Keys
  {
    if |m| == 0 then []
    else
      GreatestExists(m.Keys);
      var last :| IsGreatest(last, m.Keys);
      var front := SortedListing(m - {last});
      ListingAppend(m, last, front);
      front + [Record(last, m[last])]
  }

  /** The greatest token after a listing of the others completes the listing. */
  lemma ListingAppend(m: PartialIndex, last: string, front: seq<Record>)
    requires IsGreatest(last, m.Keys) && IsListingOf(front, m - {last})
    ensures IsListingOf(front + [Record(last, m[last])], m)
  {
    forall i | 0 <= i < |front|
      ensures Less(front[i].token, last)
    {
      TokensHas(front, i);
    }
    ListingSnoc(front, Record(last, m[last]));
    assert (m - {last})[last := m[last]] == m;
  }

  /** A record above every token of a sorted listing extends it. */
  lemma ListingSnoc(rs: seq<Record>, r: Record)
    requires StrictlySorted(rs)
    requires forall i :: 0 <= i < |rs| ==> Less(rs[i].token, r.token)
    ensures StrictlySorted(rs + [r])
    ensures ToMap(rs + [r]) == ToMap(rs)[r.token := r.entries]
  {
    var next := rs + [r];
    assert next[..|rs|] == rs;
    forall i, j | 0 <= i < j < |next|
      ensures Less(next[i].token, next[j].token)
    {
      assert next[i] == rs[i];
      if j < |rs| { assert next[j] == rs[j]; }
    }
  }

  /** Two indices with the same tokens and the same postings are equal. */
  lemma SameIndex(a: PartialIndex, b: PartialIndex)
    requires forall u :: (u in a <==> u in b) && (u in a ==> a[u] == b[u])
    ensures a == b
  {
    assert a.Keys == b.Keys;
  }

  /** The postings of `t` over `parts`, part after part, in order. */
  function Concatenated(parts: seq<PartialIndex>, t: string): seq<Posting>
  {
    if |parts| == 0 then [] else Concatenated(parts[..|parts| - 1], t) + Get(parts[|parts| - 1], t)
  }

  /** Every token that some part holds. */
  function AllTokens(parts: seq<PartialIndex>): set<string>
  {
    if |parts| == 0 then {} else AllTokens(parts[..|parts| - 1]) + parts[|parts| - 1].Keys
  }

  lemma {:induction false} AllTokensHas(parts: seq<PartialIndex>, t: string)
    ensures t in AllTokens(parts) <==> exists k :: 0 <= k < |parts| && t in parts[k]
  {
    if |parts| > 0 {
      var n := |parts| - 1;
      AllTokensHas(parts[..n], t);
      assert forall k :: 0 <= k < n ==> parts[..n][k] == parts[k];
    }
  }

  /** A part without the token contributes nothing to its concatenation. */
  lemma {:induction false} ConcatenatedAbsent(parts: seq<PartialIndex>, t: string)
    requires t !in AllTokens(parts)
    ensures Concatenated(parts, t) == []
  {
    if |parts| > 0 {
      ConcatenatedAbsent(parts[..|parts| - 1], t);
    }
  }

  /** The single index the parts add up to: each token with its concatenated postings. */
  function Merged(parts: seq<PartialIndex>): (m: PartialIndex)
    ensures m.Keys == AllTokens(parts)
  {
    map t | t in AllTokens(parts) :: Concatenated(parts, t)
  }

  lemma MergedSnoc(parts: seq<PartialIndex>, last: PartialIndex, t: string)
    ensures AllTokens(parts + [last]) == AllTokens(parts) + last.Keys
    ensures Concatenated(parts + [last], t) == Concatenated(parts, t) + Get(last, t)
    ensures t in Merged(parts + [last]) ==> Merged(parts + [last])[t] == Concatenated(parts, t) + Get(last, t)
  {
    assert (parts + [last])[..|parts|] == parts;
  }

  /** An empty part changes nothing. */
  lemma MergedEmptyPart(parts: seq<PartialIndex>)
    ensures Merged(parts + [map[]]) == Merged(parts)
  {
    var a, b := Merged(parts + [map[]]), Merged(parts);
    forall t
      ensures t in a <==> t in b
      ensures t in a ==> a[t] == b[t]
    {
      MergedSnoc(parts, map[], t);
      assert Get(map[], t) == [];
    }
  }

  // ---------------------------------------------------------------------
  // The parts in another order.

  /** Concatenating over two runs of parts is concatenating the two results. */
  lemma {:induction false} ConcatenatedAppend(p: seq<PartialIndex>, q: seq<PartialIndex>, t: string)
    ensures Concatenated(p + q, t) == Concatenated(p, t) + Concatenated(q, t)
  {
    if |q| == 0 {
      assert p + q == p;
    } else {
      var n := |q| - 1;
      assert (p + q)[..|p| + n] == p + q[..n];
      ConcatenatedAppend(p, q[..n], t);
    }
  }

  /** Reading the parts in another order only reorders each token's postings. */
  lemma {:induction false} ConcatenatedPermuted(a: seq<PartialIndex>, b: seq<PartialIndex>, t: string)
    requires multiset(a) == multiset(b)
    ensures multiset(Concatenated(a, t)) == multiset(Concatenated(b, t))
    decreases |b|
  {
    if |b| > 0 {
      var n := |b| - 1;
      var x := b[n];
      assert x in multiset(a) by {
        assert b == b[..n] + [x];
      }
      var i :| 0 <= i < |a| && a[i] == x;
      var rest := RemovedAt(a, b, i);
      ConcatenatedPermuted(rest, b[..n], t);
      ConcatenatedSplit(a, i, t);
    }
  }

  /** Taking the last part of `b` out of `a` at `i` leaves the same parts as the front of `b`. */
  lemma RemovedAt(a: seq<PartialIndex>, b: seq<PartialIndex>, i: nat) returns (rest: seq<PartialIndex>)
    requires multiset(a) == multiset(b) && |b| > 0 && i < |a| && a[i] == b[|b| - 1]
    ensures rest == a[..i] + a[i + 1..]
    ensures multiset(rest) == multiset(b[..|b| - 1])
  {
    var n := |b| - 1;
    var front, back := a[..i], a[i + 1..];
    rest := front + back;
    assert multiset(a) == multiset(front) + multiset{a[i]} + multiset(back) by {
      assert a == front + [a[i]] + back;
    }
    assert multiset(b) == multiset(b[..n]) + multiset{b[n]} by {
      assert b == b[..n] + [b[n]];
    }
    assert multiset(rest) == multiset(front) + multiset(back);
    forall p
      ensures multiset(rest)[p] == multiset(b[..n])[p]
    {
      assert multiset(a)[p] == multiset(b)[p];
    }
  }

  /** The postings of the part at `i` sit between those of the parts around it. */
  lemma ConcatenatedSplit(a: seq<PartialIndex>, i: nat, t: string)
    requires i < |a|
    ensures Concatenated(a, t) == Concatenated(a[..i], t) + Get(a[i], t) + Concatenated(a[i + 1..], t)
    ensures Concatenated(a[..i] + a[i + 1..], t) == Concatenated(a[..i], t) + Concatenated(a[i + 1..], t)
  {
    var front, back := a[..i], a[i + 1..];
    assert a == (front + [a[i]]) + back;
    ConcatenatedAppend(front + [a[i]], back, t);
    assert (front + [a[i]])[..i] == front;
    ConcatenatedAppend(front, back, t);
  }

  lemma AllTokensPermuted(a: seq<PartialIndex>, b: seq<PartialIndex>)
    requires multiset(a) == multiset(b)
    ensures AllTokens(a) == AllTokens(b)
  {
    forall t
      ensures t in AllTokens(a) <==> t in AllTokens(b)
    {
      AllTokensHas(a, t);
      AllTokensHas(b, t);
      if t in AllTokens(a) {
        var k :| 0 <= k < |a| && t in a[k];
        assert a[k] in multiset(b);
        var j :| 0 <= j < |b| && b[j] == a[k];
      }
      if t in AllTokens(b) {
        var k :| 0 <= k < |b| && t in b[k];
        assert b[k] in multiset(a);
        var j :| 0 <= j < |a| && a[j] == b[k];
      }
    }
  }

  /**
   * Merging the same parts in any order gives the same tokens, each with the
   * same postings, possibly in another order.
   */
  lemma MergedPermuted(a: seq<PartialIndex>, b: seq<PartialIndex>)
    requires multiset(a) == multiset(b)
    ensures Merged(a).Keys == Merged(b).Keys
    ensures forall t :: t in Merged(a) ==> multiset(Merged(a)[t]) == multiset(Merged(b)[t])
  {
    AllTokensPermuted(a, b);
    forall t | t in Merged(a)
      ensures multiset(Merged(a)[t]) == multiset(Merged(b)[t])
    {
      ConcatenatedPermuted(a, b, t);
    }
  }
}
