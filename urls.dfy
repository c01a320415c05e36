/**
 * The URL normaliser of the indexer (`normalize` in main.py): it is the
 * key under which documents are deduplicated and numbered.
 */
module Urls {
  import opened Text

  const Scheme: string := "https://"
  const WwwPrefix: string := "www."

  predicate StartsWith(s: string, prefix: string)
  {
    |prefix| <= |s| && s[..|prefix|] == prefix
  }

  /** `urldefrag(url)[0]`, modelled as the text before the first `#`. */
  function Defrag(url: string): (r: string)
    ensures '#' !in r
    ensures r <= url
    ensures |r| < |url| ==> url[|r|] == '#'
    ensures '#' !in url ==> r == url
  {
    if '#' in url then url[..IndexOf(url, '#')] else url
  }

  /** How many word characters `s` ends with. */
  function TrailingWordRun(s: string): (n: nat)
    ensures n <= |s|
    ensures forall i :: |s| - n <= i < |s| ==> IsWord(s[i])
    ensures n < |s| ==> !IsWord(s[|s| - n - 1])
  {
    if |s| == 0 || !IsWord(s[|s| - 1]) then 0 else 1 + TrailingWordRun(s[..|s| - 1])
  }

  /** `\.\w+/` anchored at the very end of `s`, decided by one backward scan. */
  predicate EndsWithExtensionSlash(s: string)
  {
    && |s| >= 3
    && s[|s| - 1] == '/'
    && var n := TrailingWordRun(s[..|s| - 1]);
       1 <= n < |s| - 1 && s[|s| - 2 - n] == '.'
  }

  /** The same pattern stated as what it means: a dot, word characters, a final slash. */
  ghost predicate ExtensionSlashAt(s: string, k: int)
  {
    && 0 <= k && k + 2 < |s|
    && s[k] == '.'
    && s[|s| - 1] == '/'
    && forall i :: k < i < |s| - 1 ==> IsWord(s[i])
  }

  lemma ExtensionSlashScan(s: string)
    ensures EndsWithExtensionSlash(s) <==> exists k :: ExtensionSlashAt(s, k)
  {
    if EndsWithExtensionSlash(s) {
      var n := TrailingWordRun(s[..|s| - 1]);
      assert ExtensionSlashAt(s, |s| - 2 - n);
    }
    if k :| ExtensionSlashAt(s, k) {
      var t := s[..|s| - 1];
      var n := TrailingWordRun(t);
      assert forall i :: k < i < |t| ==> IsWord(t[i]);
      assert !IsWord(t[k]);
      assert n == |s| - 2 - k;
    }
  }

  /**
   * `re.search(r'\.\w+/$', s)`: Python's `$` also matches just before a
   * newline that ends the string.
   */
  predicate MatchesSlashPattern(s: string)
  {
    || EndsWithExtensionSlash(s)
    || (|s| > 0 && s[|s| - 1] == '\n' && EndsWithExtensionSlash(s[..|s| - 1]))
  }

  /** A string the pattern matches ends in a slash or in a newline. */
  lemma SlashPatternEnd(s: string)
    requires MatchesSlashPattern(s)
    ensures |s| >= 3 && (s[|s| - 1] == '/' || s[|s| - 1] == '\n')
  {
  }

  /** The URL after defragmenting, lower-casing and adding a missing scheme. */
  function Schemed(url: string): (s: string)
    ensures forall i :: 0 <= i < |s| ==> !IsUpper(s[i]) && s[i] != '#'
  {
    var lowered := Lower(Defrag(url));
    assert forall i :: 0 <= i < |lowered| ==> lowered[i] != '#';
    if StartsWith(lowered, WwwPrefix) then
      assert forall i :: 0 <= i < |Scheme| ==> !IsUpper(Scheme[i]) && Scheme[i] != '#';
      Scheme + lowered
    else lowered
  }

  function Normalize(url: string): (r: string)
    ensures forall i :: 0 <= i < |r| ==> !IsUpper(r[i])
    ensures '#' !in r
  {
    var s := Schemed(url);
    if MatchesSlashPattern(s) then
      assert forall i :: 0 <= i < |s| - 1 ==> s[..|s| - 1][i] == s[i];
      s[..|s| - 1]
    else s
  }

  /** The scheme rule: a `www.` URL gains `https://`, any other keeps its start. */
  lemma NormalizeScheme(url: string)
    ensures var lowered := Lower(Defrag(url));
      && (StartsWith(lowered, WwwPrefix) ==> Schemed(url) == Scheme + lowered && StartsWith(Normalize(url), Scheme + WwwPrefix))
      && (!StartsWith(lowered, WwwPrefix) ==> Normalize(url) <= lowered)
  {
    var lowered := Lower(Defrag(url));
    var s, r := Schemed(url), Normalize(url);
    NormalizeDropsLast(url);
    if StartsWith(lowered, WwwPrefix) {
      assert s == Scheme + lowered;
      assert s[..12] == Scheme + WwwPrefix by {
        assert lowered[..4] == WwwPrefix;
      }
      assert |r| >= 12 by {
        if |r| < |s| {
          SlashPatternEnd(s);
          assert s[..12][11] == '.';
        }
      }
      assert r[..12] == s[..12];
    }
  }

  /** At most the last character is dropped, and only when the pattern matches. */
  lemma NormalizeDropsLast(url: string)
    ensures var s := Schemed(url);
      && (MatchesSlashPattern(s) <==> |Normalize(url)| == |s| - 1)
      && (!MatchesSlashPattern(s) <==> Normalize(url) == s)
      && Normalize(url) <= s
  {
  }

  /** When the URL holds no newline, the character dropped is a `/` after `.ext`. */
  lemma NormalizeDropsSlash(url: string)
    requires '\n' !in url
    ensures var s := Schemed(url);
      && (|Normalize(url)| < |s| <==> exists k :: ExtensionSlashAt(s, k))
      && (|Normalize(url)| < |s| ==> s[|s| - 1] == '/')
  {
    var s := Schemed(url);
    NoNewlineSchemed(url);
    ExtensionSlashScan(s);
  }

  lemma NoNewlineSchemed(url: string)
    requires '\n' !in url
    ensures '\n' !in Schemed(url)
  {
    var d := Defrag(url);
    var lowered := Lower(d);
    assert forall i :: 0 <= i < |d| ==> d[i] == url[i];
    assert forall i :: 0 <= i < |lowered| ==> lowered[i] != '\n';
    assert '\n' !in Scheme;
  }

  /** A normalised URL is its own defragmented, lower-cased, schemed form. */
  lemma SchemedOfNormal(url: string)
    ensures Schemed(Normalize(url)) == Normalize(url)
  {
    var r := Normalize(url);
    assert Defrag(r) == r;
    LowerOfLower(r);
    var lowered := Lower(Defrag(url));
    NormalizeScheme(url);
    if StartsWith(lowered, WwwPrefix) {
      assert r[..12] == Scheme + WwwPrefix;
      assert r[..4] == r[..12][..4] == "http";
    }
    assert !StartsWith(r, WwwPrefix);
  }

  /** A normalised newline-free URL never matches the trailing-slash pattern. */
  lemma NormalNoSlashMatch(url: string)
    requires '\n' !in url
    ensures !MatchesSlashPattern(Normalize(url))
  {
    var s := Schemed(url);
    var r := Normalize(url);
    NoNewlineSchemed(url);
    if MatchesSlashPattern(s) {
      assert EndsWithExtensionSlash(s);
      var n := TrailingWordRun(s[..|s| - 1]);
      assert r == s[..|s| - 1];
      assert IsWord(r[|r| - 1]);
    } else {
      assert r == s;
    }
  }

  /** Normalising twice gives the same URL as normalising once (for newline-free URLs). */
  lemma NormalizeIdempotent(url: string)
    requires '\n' !in url
    ensures Normalize(Normalize(url)) == Normalize(url)
  {
    SchemedOfNormal(url);
    NormalNoSlashMatch(url);
  }

  /** A URL ending in `.ext/` and a newline loses the newline, so a second pass also drops the slash. */
  lemma NormalizeNewlineCase()
    ensures Normalize("a.b/\n") == "a.b/"
    ensures Normalize("a.b/") == "a.b"
  {
    var u, v := "a.b/\n", "a.b/";
    assert Defrag(u) == u && Defrag(v) == v;
    assert Lower(u) == u && Lower(v) == v;
    assert !StartsWith(u, WwwPrefix) by { assert u[..4][0] == 'a'; }
    assert !StartsWith(v, WwwPrefix) by { assert v[..4][0] == 'a'; }
    assert Schemed(u) == u && Schemed(v) == v;
    assert u[..|u| - 1] == v;
    assert TrailingWordRun(v[..|v| - 1]) == 1 by {
      var w := v[..|v| - 1];
      assert |w| == 3 && w[1] == '.' && w[2] == 'b';
      assert w[..2][1] == '.';
      assert TrailingWordRun(w[..2]) == 0;
    }
    assert !EndsWithExtensionSlash(u);
    assert EndsWithExtensionSlash(v);
  }
}
