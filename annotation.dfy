/**
 * The token-numbering loop of `parse_html` (main.py). Parsing the HTML,
 * tokenising and stemming are collaborators: the input is the sequence of
 * elements `soup.find_all(True)` yields, each with its tag name and its
 * stemmed alphanumeric tokens.
 */
module Annotation {

  /** One HTML element: its tag name and the stemmed tokens of its text. */
  datatype TagText = TagText(name: string, tokens: seq<string>)

  /** A stored occurrence: the token's running position and the flags set for it. */
  datatype Occurrence = Occurrence(position: nat, flags: set<string>)

  /** `text_elements`: token to its recorded occurrences, in position order. */
  type TextElements = map<string, seq<Occurrence>>

  /** The tags whose occurrences are flagged (`tags` in main.py). */
  const Tags: set<string> := {"title", "h1", "h2", "h3", "b", "strong", "em", "i", "a"}

  /** The keys of `flag_data` for a token under a tag called `name`. */
  function FlagsOf(name: string): (f: set<string>)
    ensures f == {} <==> name !in Tags
    ensures name in Tags ==> f == {name}
  {
    (if name == "title" then {"title"} else {}) + (if name in Tags then {name} else {})
  }

  /** One token with the name of the element it came from. */
  datatype TaggedToken = TaggedToken(token: string, tag: string)

  function Tagged(e: TagText): (ts: seq<TaggedToken>)
    ensures |ts| == |e.tokens|
    ensures forall k :: 0 <= k < |ts| ==> ts[k] == TaggedToken(e.tokens[k], e.name)
  {
    seq(|e.tokens|, k requires 0 <= k < |e.tokens| => TaggedToken(e.tokens[k], e.name))
  }

  /** All tokens of a document in element order: token number k gets position k. */
  function Stream(es: seq<TagText>): seq<TaggedToken>
  {
    if |es| == 0 then [] else Stream(es[..|es| - 1]) + Tagged(es[|es| - 1])
  }

  function Occurrences(m: TextElements, t: string): seq<Occurrence>
  {
    if t in m then m[t] else []
  }

  /** What the loop records for a token stream: an occurrence per flagged token. */
  function Annotated(s: seq<TaggedToken>): TextElements
  {
    if |s| == 0 then map[]
    else
      var prev := Annotated(s[..|s| - 1]);
      var last := s[|s| - 1];
      var flags := FlagsOf(last.tag);
      if flags == {} then prev
      else prev[last.token := Occurrences(prev, last.token) + [Occurrence(|s| - 1, flags)]]
  }

  /**
   * Every occurrence in `os` describes a flagged token `t` of the stream, below
   * the token count, and the positions strictly increase.
   */
  ghost predicate SoundList(os: seq<Occurrence>, t: string, s: seq<TaggedToken>)
  {
    && (forall k :: 0 <= k < |os| ==>
          && os[k].position < |s|
          && s[os[k].position].token == t
          && os[k].flags == FlagsOf(s[os[k].position].tag)
          && os[k].flags != {})
    && (forall k, l :: 0 <= k < l < |os| ==> os[k].position < os[l].position)
  }

  /** Every key holds a non-empty, sound list. */
  ghost predicate Sound(m: TextElements, s: seq<TaggedToken>)
  {
    forall t :: t in m ==> |m[t]| > 0 && SoundList(m[t], t, s)
  }

  lemma SoundListExtend(os: seq<Occurrence>, t: string, s: seq<TaggedToken>, x: TaggedToken)
    requires SoundList(os, t, s)
    ensures SoundList(os, t, s + [x])
  {
    assert forall p :: 0 <= p < |s| ==> (s + [x])[p] == s[p];
  }

  lemma SoundListAppend(os: seq<Occurrence>, s: seq<TaggedToken>)
    requires |s| > 0 && FlagsOf(s[|s| - 1].tag) != {}
    requires SoundList(os, s[|s| - 1].token, s[..|s| - 1])
    ensures SoundList(os + [Occurrence(|s| - 1, FlagsOf(s[|s| - 1].tag))], s[|s| - 1].token, s)
  {
    var n := |s| - 1;
    assert s == s[..n] + [s[n]];
    SoundListExtend(os, s[n].token, s[..n], s[n]);
  }

  lemma {:induction false} AnnotatedSound(s: seq<TaggedToken>)
    ensures Sound(Annotated(s), s)
  {
    if |s| > 0 {
      var n := |s| - 1;
      var front := s[..n];
      assert s == front + [s[n]];
      AnnotatedSound(front);
      var prev := Annotated(front);
      var m := Annotated(s);
      forall t | t in m
        ensures |m[t]| > 0 && SoundList(m[t], t, s)
      {
        if t in prev {
          SoundListExtend(prev[t], t, front, s[n]);
        }
        if FlagsOf(s[n].tag) != {} && t == s[n].token {
          SoundListAppend(Occurrences(prev, t), s);
        }
      }
    }
  }

  /** Conversely, every flagged token of the stream is stored at its position. */
  lemma {:induction false} AnnotatedComplete(s: seq<TaggedToken>, p: nat)
    requires p < |s| && FlagsOf(s[p].tag) != {}
    ensures s[p].token in Annotated(s)
    ensures Occurrence(p, FlagsOf(s[p].tag)) in Annotated(s)[s[p].token]
  {
    var n := |s| - 1;
    if p < n {
      var front := s[..n];
      assert front[p] == s[p];
      AnnotatedComplete(front, p);
    }
  }

  /** The position counter counts every token, flagged or not. */
  lemma {:induction false} StreamLength(es: seq<TagText>)
    ensures |Stream(es)| == TokenCount(es)
  {
    if |es| > 0 {
      StreamLength(es[..|es| - 1]);
    }
  }

  function TokenCount(es: seq<TagText>): nat
  {
    if |es| == 0 then 0 else TokenCount(es[..|es| - 1]) + |es[|es| - 1].tokens|
  }

  lemma StreamPrefix(es: seq<TagText>, i: nat)
    requires i < |es|
    ensures Stream(es[..i + 1]) == Stream(es[..i]) + Tagged(es[i])
  {
    assert es[..i + 1][..i] == es[..i];
  }

  /** Annotating one more token: stored at position `|front|` when flagged. */
  lemma AnnotatedSnoc(front: seq<TaggedToken>, x: TaggedToken)
    ensures Annotated(front + [x]) ==
      var before := Annotated(front);
      if FlagsOf(x.tag) == {} then before
      else before[x.token := Occurrences(before, x.token) + [Occurrence(|front|, FlagsOf(x.tag))]]
  {
    var s := front + [x];
    assert s[..|s| - 1] == front;
  }

  lemma TaggedPrefix(done: seq<TaggedToken>, tag: TagText, j: nat)
    requires j < |tag.tokens|
    ensures done + Tagged(tag)[..j + 1] == (done + Tagged(tag)[..j]) + [TaggedToken(tag.tokens[j], tag.name)]
  {
    assert Tagged(tag)[..j + 1] == Tagged(tag)[..j] + [Tagged(tag)[j]];
  }

  /**
   * The loop of `parse_html`: one running position over all elements, an
   * occurrence stored only when its flag dictionary is not empty. The final
   * value of the position counter is returned beside `text_elements`.
   */
  method Annotate(elements: seq<TagText>) returns (textElements: TextElements, position: nat)
    ensures position == TokenCount(elements)
    ensures textElements == Annotated(Stream(elements))
  {
    textElements := map[];
    position := 0;
    var i := 0;
    while i < |elements|
      invariant 0 <= i <= |elements|
      invariant position == |Stream(elements[..i])|
      invariant textElements == Annotated(Stream(elements[..i]))
    {
      textElements, position := AnnotateElement(textElements, position, elements[i], Stream(elements[..i]));
      StreamPrefix(elements, i);
      i := i + 1;
    }
    assert elements[..|elements|] == elements;
    StreamLength(elements);
  }

  /** The inner loop of `parse_html`, over the stemmed tokens of one element. */
  method AnnotateElement(textElements: TextElements, position: nat, tag: TagText, ghost done: seq<TaggedToken>)
    returns (after: TextElements, next: nat)
    requires position == |done| && textElements == Annotated(done)
    ensures next == |done + Tagged(tag)| && after == Annotated(done + Tagged(tag))
  {
    after, next := textElements, position;
    var isTitle := tag.name == "title";
    var j := 0;
    assert done + Tagged(tag)[..0] == done;
    while j < |tag.tokens|
      invariant 0 <= j <= |tag.tokens|
      invariant next == |done| + j
      invariant after == Annotated(done + Tagged(tag)[..j])
    {
      var token := tag.tokens[j];
      var flagData: set<string> := {};
      if isTitle {
        flagData := flagData + {"title"};
      }
      if tag.name in Tags {
        flagData := flagData + {tag.name};
      }
      assert flagData == FlagsOf(tag.name);
      ghost var current := done + Tagged(tag)[..j];
      ghost var x := TaggedToken(token, tag.name);
      TaggedPrefix(done, tag, j);
      AnnotatedSnoc(current, x);
      assert |current| == next;
      if flagData != {} {
        after := after[token := Occurrences(after, token) + [Occurrence(next, flagData)]];
      }
      assert after == Annotated(current + [x]);
      next := next + 1;
      j := j + 1;
    }
    assert Tagged(tag)[..|tag.tokens|] == Tagged(tag);
  }
}
