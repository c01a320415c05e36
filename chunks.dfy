/**
 * `read_json_chunk` of main.py: cut a block of text after the `}` that
 * closes its first top-level JSON object. Reading the block from the file
 * is not part of the model; the block is the input.
 */
module Chunks {

  function Count(s: string, c: char): nat
  {
    if |s| == 0 then 0 else Count(s[..|s| - 1], c) + (if s[|s| - 1] == c then 1 else 0)
  }

  /** The brace level after scanning `s`: opened minus closed braces (it may go negative). */
  function Depth(s: string): int
  {
    Count(s, '{') - Count(s, '}')
  }

  /** The `}` at index `i` brings the brace level back to zero. */
  predicate ClosesAt(s: string, i: int)
  {
    0 <= i < |s| && s[i] == '}' && Depth(s[..i + 1]) == 0
  }

  method ReadJsonChunk(chunk: string) returns (r: string)
    ensures r <= chunk
    ensures chunk == [] ==> r == []
    ensures (exists i :: ClosesAt(chunk, i)) ==>
      && |r| > 0
      && ClosesAt(chunk, |r| - 1)
      && Count(r, '{') == Count(r, '}')
      && forall j :: 0 <= j < |r| - 1 ==> !ClosesAt(chunk, j)
    ensures (forall i :: 0 <= i < |chunk| ==> !ClosesAt(chunk, i)) ==> r == chunk
  {
    var braceLevel := 0;
    var i := 0;
    var k := 0;
    while k < |chunk|
      invariant 0 <= k <= |chunk|
      invariant braceLevel == Depth(chunk[..k])
      invariant i == if k == 0 then 0 else k - 1
      invariant forall j :: 0 <= j < k ==> !ClosesAt(chunk, j)
    {
      i := k;
      assert chunk[..k + 1][..k] == chunk[..k];
      if chunk[k] == '{' {
        braceLevel := braceLevel + 1;
      } else if chunk[k] == '}' {
        braceLevel := braceLevel - 1;
        if braceLevel == 0 {
          assert ClosesAt(chunk, k);
          break;
        }
      }
      k := k + 1;
    }
    assert chunk[..|chunk|] == chunk;
    r := if i + 1 <= |chunk| then chunk[..i + 1] else chunk;
  }
}
