/**
 * `create_intermediate_files` and `merge_and_sort_token_data` (main.py):
 * the partial indices are folded into one map per first character, each
 * bucket is written sorted by token, and the buckets `a`..`z`, `0`..`9` are
 * appended one after the other to form the final index.
 */
module Merge {
  import opened Text
  import opened Postings

  /** `alphanumeric_char`: the bucket of a token. */
  function Bucket(t: string): (b: string)
    ensures |t| > 0 && IsAlnum(t[0]) ==> b == [t[0]]
    ensures !(|t| > 0 && IsAlnum(t[0])) ==> b == "other"
  {
    if |t| > 0 && IsAlnum(t[0]) then [t[0]] else "other"
  }

  /** `merged_data`: bucket name to the tokens of that bucket with their postings. */
  type Buckets = map<string, PartialIndex>

  function BucketOf(g: Buckets, b: string): PartialIndex
  {
    if b in g then g[b] else map[]
  }

  /** An index split by bucket: a bucket exists exactly when some token falls in it. */
  function Grouped(m: PartialIndex): Buckets
  {
    map b | b in BucketNames(m) :: BucketPart(m, b)
  }

  function BucketNames(m: PartialIndex): set<string>
  {
    set t | t in m :: Bucket(t)
  }

  function BucketPart(m: PartialIndex, b: string): PartialIndex
  {
    map t | t in m && Bucket(t) == b :: m[t]
  }

  /** A token sits in exactly one bucket, its own, with all its postings. */
  lemma GroupedAt(m: PartialIndex, b: string, t: string)
    ensures t in BucketOf(Grouped(m), b) <==> t in m && Bucket(t) == b
    ensures t in BucketOf(Grouped(m), b) ==> BucketOf(Grouped(m), b)[t] == m[t]
    ensures b in Grouped(m) <==> exists u :: u in m && Bucket(u) == b
  {
  }

  lemma GroupedEmpty()
    ensures Grouped(map[]) == map[]
  {
  }

  /** Setting one token of the index touches only that token's bucket. */
  lemma GroupedUpdate(m: PartialIndex, t: string, v: seq<Posting>)
    ensures Grouped(m[t := v]) == Grouped(m)[Bucket(t) := BucketOf(Grouped(m), Bucket(t))[t := v]]
  {
    var a := Grouped(m[t := v]);
    var b := Grouped(m)[Bucket(t) := BucketOf(Grouped(m), Bucket(t))[t := v]];
    BucketNamesUpdate(m, t, v);
    assert a.Keys == b.Keys;
    forall c | c in a
      ensures a[c] == b[c]
    {
      BucketPartUpdate(m, t, v, c);
      BucketOfPart(m, c);
    }
  }

  lemma BucketNamesUpdate(m: PartialIndex, t: string, v: seq<Posting>)
    ensures BucketNames(m[t := v]) == BucketNames(m) + {Bucket(t)}
  {
    forall c | c in BucketNames(m)
      ensures c in BucketNames(m[t := v])
    {
      var u :| u in m && Bucket(u) == c;
      assert u in m[t := v];
    }
  }

  lemma BucketPartUpdate(m: PartialIndex, t: string, v: seq<Posting>, c: string)
    ensures BucketPart(m[t := v], c) == if c == Bucket(t) then BucketPart(m, c)[t := v] else BucketPart(m, c)
  {
  }

  lemma BucketOfPart(m: PartialIndex, c: string)
    ensures BucketOf(Grouped(m), c) == BucketPart(m, c)
  {
    if c !in BucketNames(m) {
      forall u | u in m
        ensures Bucket(u) != c
      {
      }
      assert BucketPart(m, c) == map[];
    }
  }

  /** Adding a token the current part lacks: the merged index changes at that token only. */
  lemma MergedInsert(done: seq<PartialIndex>, q: PartialIndex, t: string, v: seq<Posting>)
    requires t !in q
    ensures Get(Merged(done + [q]), t) == Concatenated(done, t)
    ensures Merged(done + [q[t := v]]) == Merged(done + [q])[t := Concatenated(done, t) + v]
  {
    var a, b := Merged(done + [q[t := v]]), Merged(done + [q])[t := Concatenated(done, t) + v];
    assert Get(Merged(done + [q]), t) == Concatenated(done, t) by {
      MergedSnoc(done, q, t);
      if t !in AllTokens(done) { ConcatenatedAbsent(done, t); }
    }
    forall u
      ensures u in a <==> u in b
      ensures u in a ==> a[u] == b[u]
    {
      MergedSnoc(done, q[t := v], u);
      MergedSnoc(done, q, u);
    }
  }

  lemma RestoreKey(m: PartialIndex, rest: set<string>, t: string)
    requires t in rest && rest <= m.Keys
    ensures (m - rest)[t := m[t]] == m - (rest - {t})
  {
    var a, b := (m - rest)[t := m[t]], m - (rest - {t});
    assert a.Keys == b.Keys;
  }

  /**
   * `create_intermediate_files`: the partial indices are read in the order
   * given; each token's entries are appended to its bucket, and every bucket
   * is then written as its records in ascending token order.
   */
  method CreateIntermediateFiles(parts: seq<PartialIndex>) returns (files: map<string, seq<Record>>)
    ensures files.Keys == Grouped(Merged(parts)).Keys
    ensures forall b :: b in files ==> IsListingOf(files[b], Grouped(Merged(parts))[b])
  {
    var mergedData: Buckets := map[];
    var i := 0;
    assert Merged([]) == map[];
    GroupedEmpty();
    while i < |parts|
      invariant 0 <= i <= |parts|
      invariant mergedData == Grouped(Merged(parts[..i]))
    {
      mergedData := MergePart(mergedData, parts[..i], parts[i]);
      assert parts[..i + 1] == parts[..i] + [parts[i]];
      i := i + 1;
    }
    assert parts[..|parts|] == parts;
    files := WriteBuckets(mergedData);
  }

  /** The loop over the items of one loaded partial index. */
  method MergePart(mergedData: Buckets, ghost done: seq<PartialIndex>, partial: PartialIndex) returns (after: Buckets)
    requires mergedData == Grouped(Merged(done))
    ensures after == Grouped(Merged(done + [partial]))
  {
    after := mergedData;
    var rest := partial.Keys;
    assert partial - rest == map[];
    MergedEmptyPart(done);
    while rest != {}
      invariant rest <= partial.Keys
      invariant after == Grouped(Merged(done + [partial - rest]))
      decreases rest
    {
      var token :| token in rest;
      var entries := partial[token];
      ghost var q := partial - rest;
      var b := Bucket(token);
      // The three statements `if ... not in`, `if ... not in`, `extend`, at once.
      var bucket := if b in after then after[b] else map[];
      var current := if token in bucket then bucket[token] else [];
      MergedInsert(done, q, token, entries);
      GroupedAt(Merged(done + [q]), b, token);
      assert current == Concatenated(done, token);
      GroupedUpdate(Merged(done + [q]), token, current + entries);
      after := after[b := bucket[token := current + entries]];
      RestoreKey(partial, rest, token);
      rest := rest - {token};
    }
    assert partial - {} == partial;
  }

  /** The loop writing each bucket's tokens in sorted order to its own file. */
  method WriteBuckets(mergedData: Buckets) returns (files: map<string, seq<Record>>)
    ensures files.Keys == mergedData.Keys
    ensures forall b :: b in files ==> IsListingOf(files[b], mergedData[b])
  {
    files := map[];
    var keys := mergedData.Keys;
    while keys != {}
      invariant keys <= mergedData.Keys
      invariant files.Keys == mergedData.Keys - keys
      invariant forall b :: b in files ==> IsListingOf(files[b], mergedData[b])
      decreases keys
    {
      var b :| b in keys;
      var listing := SortedListing(mergedData[b]);
      files := files[b := listing];
      keys := keys - {b};
    }
  }

  /** What `create_intermediate_files` leaves behind for `parts`: one sorted listing per bucket. */
  ghost predicate IntermediateOf(files: map<string, seq<Record>>, parts: seq<PartialIndex>)
  {
    && files.Keys == Grouped(Merged(parts)).Keys
    && forall b :: b in files ==> IsListingOf(files[b], Grouped(Merged(parts))[b])
  }

  // ---------------------------------------------------------------------
  // `sorted(data, key=lambda x: x["token"])`

  predicate NonDecreasing(rs: seq<Record>)
  {
    forall i, j :: 0 <= i < j < |rs| ==> !Less(rs[j].token, rs[i].token)
  }

  /** Places `x` after every record whose token is not above its own. */
  function Insert(s: seq<Record>, x: Record): (r: seq<Record>)
    ensures multiset(r) == multiset(s) + multiset{x}
  {
    if |s| == 0 then [x]
    else
      var n := |s| - 1;
      assert s == s[..n] + [s[n]];
      if Less(x.token, s[n].token) then Insert(s[..n], x) + [s[n]] else s + [x]
  }

  /** A stable insertion sort on the token key. */
  function SortByToken(rs: seq<Record>): (r: seq<Record>)
    ensures multiset(r) == multiset(rs)
  {
    if |rs| == 0 then []
    else
      var n := |rs| - 1;
      assert rs == rs[..n] + [rs[n]];
      Insert(SortByToken(rs[..n]), rs[n])
  }

  lemma {:induction false} InsertSorted(s: seq<Record>, x: Record)
    requires NonDecreasing(s)
    ensures NonDecreasing(Insert(s, x))
  {
    if |s| > 0 {
      var n := |s| - 1;
      if Less(x.token, s[n].token) {
        var front := Insert(s[..n], x);
        InsertSorted(s[..n], x);
        forall i | 0 <= i < |front|
          ensures !Less(s[n].token, front[i].token)
        {
          assert front[i] in multiset(s[..n]) + multiset{x};
          if front[i] == x {
            LessAsymmetric(x.token, s[n].token);
          } else {
            assert front[i] in s[..n];
          }
        }
        NonDecreasingSnoc(front, s[n]);
      } else {
        forall i | 0 <= i < |s|
          ensures !Less(x.token, s[i].token)
        {
          if i < n && Less(x.token, s[i].token) {
            if s[i].token != s[n].token {
              LessTotal(s[i].token, s[n].token);
              LessTransitive(x.token, s[i].token, s[n].token);
            }
          }
        }
        NonDecreasingSnoc(s, x);
      }
    }
  }

  lemma NonDecreasingSnoc(front: seq<Record>, last: Record)
    requires NonDecreasing(front)
    requires forall i :: 0 <= i < |front| ==> !Less(last.token, front[i].token)
    ensures NonDecreasing(front + [last])
  {
    var r := front + [last];
    forall i, j | 0 <= i < j < |r|
      ensures !Less(r[j].token, r[i].token)
    {
      assert r[i] == front[i];
      if j < |front| { assert r[j] == front[j]; }
    }
  }

  /** What `sorted` promises: ascending tokens, the same records. */
  lemma {:induction false} SortSorted(rs: seq<Record>)
    ensures NonDecreasing(SortByToken(rs))
  {
    if |rs| > 0 {
      var n := |rs| - 1;
      var front := SortByToken(rs[..n]);
      SortSorted(rs[..n]);
      InsertSorted(front, rs[n]);
      assert SortByToken(rs) == Insert(front, rs[n]);
    }
  }

  /** A bucket file is already in token order, so sorting it again changes nothing. */
  lemma {:induction false} SortOfSorted(rs: seq<Record>)
    requires StrictlySorted(rs)
    ensures SortByToken(rs) == rs
  {
    if |rs| > 0 {
      var n := |rs| - 1;
      var front := rs[..n];
      SortedFront(rs, n);
      SortOfSorted(front);
      if n > 0 {
        LessAsymmetric(rs[n - 1].token, rs[n].token);
      }
      InsertAtEnd(front, rs[n]);
      assert rs == front + [rs[n]];
    }
  }

  /** A record whose token is not below the last one's goes at the end. */
  lemma InsertAtEnd(s: seq<Record>, x: Record)
    requires |s| == 0 || !Less(x.token, s[|s| - 1].token)
    ensures Insert(s, x) == s + [x]
  {
  }

  // ---------------------------------------------------------------------
  // `merge_and_sort_token_data`

  /** `string.ascii_lowercase + string.digits`, the order the bucket files are appended in. */
  const FinalOrder: string := "abcdefghijklmnopqrstuvwxyz0123456789"

  /** The position of a character in `FinalOrder`, 36 for any other character. */
  function Rank(c: char): nat
  {
    if IsLowerLetter(c) then c as int - 'a' as int
    else if IsDigit(c) then 26 + (c as int - '0' as int)
    else 36
  }

  lemma FinalOrderRanks()
    ensures |FinalOrder| == 36
    ensures forall k :: 0 <= k < 36 ==> Rank(FinalOrder[k]) == k
  {
  }

  lemma RankInjective(x: char, y: char)
    requires Rank(y) < 36
    ensures Rank(x) == Rank(y) <==> x == y
  {
  }

  /** What the loop appends for the bucket of `c`: its records sorted, nothing if there is no such file. */
  function Part(files: map<string, seq<Record>>, c: char): seq<Record>
  {
    if [c] in files then SortByToken(files[[c]]) else []
  }

  /** The final index after the first `n` characters of `FinalOrder`. */
  function Assembled(files: map<string, seq<Record>>, n: nat): seq<Record>
    requires n <= |FinalOrder|
  {
    if n == 0 then [] else Assembled(files, n - 1) + Part(files, FinalOrder[n - 1])
  }

  /** `merge_and_sort_token_data`, with the final file starting out empty. */
  method MergeAndSort(files: map<string, seq<Record>>) returns (final: seq<Record>)
    ensures final == Assembled(files, |FinalOrder|)
  {
    final := [];
    var k := 0;
    while k < |FinalOrder|
      invariant 0 <= k <= |FinalOrder|
      invariant final == Assembled(files, k)
    {
      var c := FinalOrder[k];
      if [c] in files {
        var sortedData := SortByToken(files[[c]]);
        final := final + sortedData;
      }
      k := k + 1;
    }
  }

  // ---------------------------------------------------------------------
  // What the final index holds.

  /** Buckets in `FinalOrder`, tokens ascending inside a bucket. */
  predicate Before(a: string, b: string)
  {
    && |a| > 0 && |b| > 0
    && (Rank(a[0]) < Rank(b[0]) || (a[0] == b[0] && Less(a, b)))
  }

  predicate FinalOrdered(rs: seq<Record>)
  {
    forall i, j :: 0 <= i < j < |rs| ==> Before(rs[i].token, rs[j].token)
  }

  /** The tokens that reach the final index: those whose first character is in `FinalOrder`. */
  function Reaching(m: PartialIndex, n: nat): set<string>
  {
    set t | t in m && |t| > 0 && Rank(t[0]) < n
  }

  lemma {:induction false} TokensAppend(a: seq<Record>, b: seq<Record>)
    ensures Tokens(a + b) == Tokens(a) + Tokens(b)
  {
    if |b| == 0 {
      assert a + b == a;
    } else {
      var n := |b| - 1;
      assert (a + b)[..|a| + n] == a + b[..n];
      TokensAppend(a, b[..n]);
    }
  }

  /** The tokens of the bucket of an alphanumeric `c`: those starting with `c`. */
  function Starting(m: PartialIndex, c: char): set<string>
  {
    set t | t in m && |t| > 0 && t[0] == c
  }

  lemma BucketPartKeys(m: PartialIndex, c: char)
    requires IsAlnum(c)
    ensures BucketPart(m, [c]).Keys == Starting(m, c)
  {
  }

  /** The records appended for an alphanumeric character `c`. */
  lemma PartFacts(parts: seq<PartialIndex>, files: map<string, seq<Record>>, c: char)
    requires IntermediateOf(files, parts) && IsAlnum(c)
    ensures Tokens(Part(files, c)) == Starting(Merged(parts), c)
    ensures StrictlySorted(Part(files, c))
    ensures forall i :: 0 <= i < |Part(files, c)| ==>
      var r := Part(files, c)[i];
      |r.token| > 0 && r.token[0] == c && r.entries == Concatenated(parts, r.token)
  {
    var p := Part(files, c);
    var m := Merged(parts);
    BucketOfPart(m, [c]);
    BucketPartKeys(m, c);
    if [c] in files {
      var listing := files[[c]];
      SortOfSorted(listing);
      assert p == listing;
      assert IsListingOf(p, BucketPart(m, [c]));
      ListingEntries(p, BucketPart(m, [c]));
    } else {
      assert [c] !in BucketNames(m);
      assert BucketPart(m, [c]) == map[];
    }
  }

  /**
   * The final index after `n` buckets: exactly the merged tokens whose first
   * character is among the first `n` of `FinalOrder`, each once with its
   * postings concatenated over all partial indices, in bucket order and in
   * token order within a bucket.
   */
  lemma {:induction false} FinalIndex(parts: seq<PartialIndex>, files: map<string, seq<Record>>, n: nat)
    requires IntermediateOf(files, parts) && n <= |FinalOrder|
    ensures Tokens(Assembled(files, n)) == Reaching(Merged(parts), n)
    ensures forall k :: 0 <= k < |Assembled(files, n)| ==>
      Assembled(files, n)[k].entries == Concatenated(parts, Assembled(files, n)[k].token)
    ensures FinalOrdered(Assembled(files, n))
  {
    FinalOrderRanks();
    if n > 0 {
      var front := Assembled(files, n - 1);
      var c := FinalOrder[n - 1];
      var p := Part(files, c);
      var a := Assembled(files, n);
      FinalIndex(parts, files, n - 1);
      assert IsAlnum(c) by { assert Rank(c) == n - 1; }
      PartFacts(parts, files, c);
      assert a == front + p;
      TokensAppend(front, p);
      ReachingStep(Merged(parts), n, c);
      forall k | 0 <= k < |a|
        ensures a[k].entries == Concatenated(parts, a[k].token)
      {
        if k >= |front| { assert a[k] == p[k - |front|]; }
      }
      forall i | 0 <= i < |front|
        ensures |front[i].token| > 0 && Rank(front[i].token[0]) < Rank(c)
      {
        TokensHas(front, i);
      }
      OrderedAppend(front, p, c);
    }
  }

  lemma ReachingStep(m: PartialIndex, n: nat, c: char)
    requires 0 < n <= 36 && Rank(c) == n - 1
    ensures Reaching(m, n) == Reaching(m, n - 1) + Starting(m, c)
  {
    forall t | t in Reaching(m, n)
      ensures t in Reaching(m, n - 1) || t in Starting(m, c)
    {
      RankInjective(t[0], c);
    }
  }

  /** A bucket whose character ranks above every token so far keeps the index in final order. */
  lemma OrderedAppend(front: seq<Record>, p: seq<Record>, c: char)
    requires FinalOrdered(front) && StrictlySorted(p)
    requires forall i :: 0 <= i < |front| ==> |front[i].token| > 0 && Rank(front[i].token[0]) < Rank(c)
    requires forall i :: 0 <= i < |p| ==> |p[i].token| > 0 && p[i].token[0] == c
    ensures FinalOrdered(front + p)
  {
    var a := front + p;
    forall i, j | 0 <= i < j < |a|
      ensures Before(a[i].token, a[j].token)
    {
      if j < |front| {
        assert a[i] == front[i] && a[j] == front[j];
      } else if i >= |front| {
        assert a[i] == p[i - |front|] && a[j] == p[j - |front|];
      } else {
        assert a[i] == front[i] && a[j] == p[j - |front|];
      }
    }
  }

  /** No token appears twice in a final index. */
  lemma FinalDistinct(rs: seq<Record>)
    requires FinalOrdered(rs)
    ensures forall i, j :: 0 <= i < j < |rs| ==> rs[i].token != rs[j].token
  {
    forall i, j | 0 <= i < j < |rs|
      ensures rs[i].token != rs[j].token
    {
      LessIrreflexive(rs[i].token);
    }
  }

  /**
   * The final index is not sorted by token as a whole: a token starting
   * with a letter precedes one starting with a digit, although the digit
   * sorts first.
   */
  lemma LettersBeforeDigits(rs: seq<Record>, i: nat, j: nat)
    requires FinalOrdered(rs) && i < |rs| && j < |rs|
    requires rs[i].token == "a" && rs[j].token == "0"
    ensures i < j && Less(rs[j].token, rs[i].token)
  {
  }
}
