/**
 * Character classes, string ordering and the few string operations the
 * indexer and the query side share. Everything is ASCII: the Unicode
 * behaviour of Python's `lower`, `isalnum` and `\w` is not modelled.
 */
module Text {

  predicate IsUpper(c: char) { 'A' <= c <= 'Z' }

  predicate IsLowerLetter(c: char) { 'a' <= c <= 'z' }

  predicate IsDigit(c: char) { '0' <= c <= '9' }

  /** Python's `str.isalnum` on one ASCII character. */
  predicate IsAlnum(c: char) { IsUpper(c) || IsLowerLetter(c) || IsDigit(c) }

  /** The regular-expression class `\w` on ASCII: letters, digits and `_`. */
  predicate IsWord(c: char) { IsAlnum(c) || c == '_' }

  function LowerChar(c: char): (d: char)
    ensures !IsUpper(d)
    ensures IsUpper(c) ==> IsLowerLetter(d) && d as int == c as int + 32
    ensures !IsUpper(c) ==> d == c
  {
    if IsUpper(c) then (c as int + 32) as char else c
  }

  /** Python's `str.lower` restricted to ASCII. */
  function Lower(s: string): (r: string)
    ensures |r| == |s|
    ensures forall i :: 0 <= i < |r| ==> !IsUpper(r[i])
    ensures forall i :: 0 <= i < |s| && !IsUpper(s[i]) ==> r[i] == s[i]
    ensures forall i :: 0 <= i < |s| && IsUpper(s[i]) ==> r[i] as int == s[i] as int + 32
  {
    seq(|s|, i requires 0 <= i < |s| => LowerChar(s[i]))
  }

  lemma LowerOfLower(s: string)
    requires forall i :: 0 <= i < |s| ==> !IsUpper(s[i])
    ensures Lower(s) == s
  {
  }

  // ---------------------------------------------------------------------
  // Python's ordering of `str` values: code point by code point, a proper
  // prefix first.

  predicate Less(a: string, b: string)
  {
    if |a| == 0 then |b| > 0
    else if |b| == 0 then false
    else if a[0] == b[0] then Less(a[1..], b[1..])
    else a[0] < b[0]
  }

  lemma {:induction false} LessIrreflexive(a: string)
    ensures !Less(a, a)
  {
    if |a| > 0 {
      LessIrreflexive(a[1..]);
    }
  }

  lemma {:induction false} LessAsymmetric(a: string, b: string)
    requires Less(a, b)
    ensures !Less(b, a)
  {
    if |a| > 0 && |b| > 0 && a[0] == b[0] {
      LessAsymmetric(a[1..], b[1..]);
    }
  }

  lemma {:induction false} LessTransitive(a: string, b: string, c: string)
    requires Less(a, b) && Less(b, c)
    ensures Less(a, c)
  {
    if |a| > 0 && a[0] == b[0] && b[0] == c[0] {
      LessTransitive(a[1..], b[1..], c[1..]);
    }
  }

  lemma {:induction false} LessTotal(a: string, b: string)
    requires a != b
    ensures Less(a, b) || Less(b, a)
  {
    if |a| > 0 && |b| > 0 && a[0] == b[0] {
      assert a == [a[0]] + a[1..] && b == [b[0]] + b[1..];
      LessTotal(a[1..], b[1..]);
    }
  }

  /** `g` is the largest string of `keys` in `Less` order. */
  predicate IsGreatest(g: string, keys: set<string>)
  {
    g in keys && forall k :: k in keys && k != g ==> Less(k, g)
  }

  /** Every non-empty set of strings has exactly one greatest element. */
  lemma {:induction false} GreatestExists(keys: set<string>)
    requires keys != {}
    ensures exists g :: IsGreatest(g, keys)
    ensures forall g, h :: IsGreatest(g, keys) && IsGreatest(h, keys) ==> g == h
  {
    var x :| x in keys;
    var rest := keys - {x};
    if rest == {} {
      assert keys == {x};
      assert IsGreatest(x, keys);
    } else {
      GreatestExists(rest);
      var y :| IsGreatest(y, rest);
      if Less(y, x) {
        forall k | k in keys && k != x
          ensures Less(k, x)
        {
          if k != y { LessTransitive(k, y, x); }
        }
        assert IsGreatest(x, keys);
      } else {
        LessTotal(x, y);
        assert IsGreatest(y, keys);
      }
    }
    forall g, h | IsGreatest(g, keys) && IsGreatest(h, keys)
      ensures g == h
    {
      LessNotBoth(g, h);
    }
  }

  lemma LessNotBoth(a: string, b: string)
    ensures !(Less(a, b) && Less(b, a))
  {
    if Less(a, b) { LessAsymmetric(a, b); }
  }

  // ---------------------------------------------------------------------
  // Python's `str(n)` for a non-negative integer.

  function DigitChar(d: nat): (c: char)
    requires d < 10
    ensures IsDigit(c) && c as int - '0' as int == d
  {
    ('0' as int + d) as char
  }

  function Str(n: nat): (r: string)
    ensures |r| >= 1
    ensures forall i :: 0 <= i < |r| ==> IsDigit(r[i])
    ensures n >= 10 <==> |r| >= 2
    ensures r[0] == '0' ==> n == 0
  {
    if n < 10 then [DigitChar(n)] else Str(n / 10) + [DigitChar(n % 10)]
  }

  /** Distinct numbers have distinct decimal spellings. */
  lemma {:induction false} StrInjective(a: nat, b: nat)
    requires Str(a) == Str(b)
    ensures a == b
  {
    if a >= 10 && b >= 10 {
      var sa, sb := Str(a), Str(b);
      assert sa[|sa| - 1] == DigitChar(a % 10) && sb[|sb| - 1] == DigitChar(b % 10);
      assert Str(a / 10) == sa[..|sa| - 1] == sb[..|sb| - 1] == Str(b / 10);
      StrInjective(a / 10, b / 10);
    }
  }

  // ---------------------------------------------------------------------
  // `sep.join(parts)` and `s.split(sep)` for a one-character separator.

  function Join(parts: seq<string>, sep: char): (r: string)
    ensures |parts| == 0 ==> r == []
    ensures |parts| > 0 ==> parts[0] <= r
    ensures |parts| > 1 ==> |r| > |parts[0]| && r[|parts[0]|] == sep
  {
    if |parts| == 0 then []
    else if |parts| == 1 then parts[0]
    else parts[0] + [sep] + Join(parts[1..], sep)
  }

  function IndexOf(s: string, c: char): (k: nat)
    requires c in s
    ensures k < |s| && s[k] == c && c !in s[..k]
  {
    if s[0] == c then 0 else 1 + IndexOf(s[1..], c)
  }

  /** No part holds the separator. */
  predicate SepFree(parts: seq<string>, sep: char)
  {
    forall i :: 0 <= i < |parts| ==> sep !in parts[i]
  }

  function Split(s: string, sep: char): (parts: seq<string>)
    ensures |parts| >= 1
    ensures SepFree(parts, sep)
    decreases |s|
  {
    if sep !in s then [s]
    else
      var k := IndexOf(s, sep);
      [s[..k]] + Split(s[k + 1..], sep)
  }

  /** Splitting a join gives the parts back when no part holds the separator. */
  lemma {:induction false} SplitJoin(parts: seq<string>, sep: char)
    requires |parts| >= 1 && SepFree(parts, sep)
    ensures Split(Join(parts, sep), sep) == parts
  {
    if |parts| > 1 {
      var tail := parts[1..];
      JoinFirst(parts, sep);
      SplitFirst(parts[0], sep, Join(tail, sep));
      FreeTail(parts, sep);
      SplitJoin(tail, sep);
      assert parts == [parts[0]] + tail;
    }
  }

  lemma JoinFirst(parts: seq<string>, sep: char)
    requires |parts| > 1
    ensures Join(parts, sep) == parts[0] + [sep] + Join(parts[1..], sep)
  {
  }

  lemma FreeTail(parts: seq<string>, sep: char)
    requires |parts| > 0 && SepFree(parts, sep)
    ensures sep !in parts[0] && SepFree(parts[1..], sep)
  {
    forall i | 0 <= i < |parts[1..]|
      ensures sep !in parts[1..][i]
    {
      assert parts[1..][i] == parts[i + 1];
    }
  }

  /** A first part free of the separator is split off whole. */
  lemma SplitFirst(x: string, sep: char, rest: string)
    requires sep !in x
    ensures Split(x + [sep] + rest, sep) == [x] + Split(rest, sep)
  {
    var s := x + [sep] + rest;
    FirstSeparator(x, sep, rest);
    assert s[..|x|] == x;
    assert s[|x| + 1..] == rest;
  }

  /** The first separator of `x + [sep] + rest` is the one after `x` when `x` holds none. */
  lemma {:induction false} FirstSeparator(x: string, sep: char, rest: string)
    requires sep !in x
    ensures sep in x + [sep] + rest && IndexOf(x + [sep] + rest, sep) == |x|
  {
    var s := x + [sep] + rest;
    assert s[|x|] == sep;
    if |x| > 0 {
      assert s[0] == x[0];
      assert s[1..] == x[1..] + [sep] + rest;
      FirstSeparator(x[1..], sep, rest);
    }
  }
}
