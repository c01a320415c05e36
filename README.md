# A verified model of a small inverted-index search engine

The system crawls a directory of JSON files, each holding a page's `url` and
HTML `content`, and builds a positional inverted index in three stages. Its
query side answers boolean AND queries over that index.

1. `make_index` (main.py) does these things:
   - It normalises each URL.
   - It skips URLs it has already seen and numbers the new ones 0, 1, 2, ….
   - It records every token occurrence under a tag of interest as a posting
     (document id, position, flags).
   - Every `doc_threshold` documents it writes the in-memory index, keys
     sorted, to a numbered partial-index file.
2. `create_intermediate_files` folds the partial indices into one bucket per
   first character of the token (or `"other"`) and writes each bucket sorted
   by token. `merge_and_sort_token_data` then appends the buckets `a`..`z`
   and `0`..`9` to the final index.
3. search.py reads the final index into a token → set-of-ids map. It
   intersects the sets of the query terms, and lists the URL of each matching
   document through the inverted id map.

The model follows the code module by module:
- `Urls` covers `normalize`, and `Chunks` covers `read_json_chunk`.
- `Annotation` covers the token loop of `parse_html`.
- `Builder` covers `make_index`. The class `IndexBuilder` keeps the
  function's local state as fields; its specification is the state machine
  `Step`/`Run`.
- `Merge` covers the two merge stages, and `Search` covers search.py.
- `Pipeline` connects the stages end to end.
- `Postings`, `Text` and `Wrappers` hold the shared values: postings,
  partial indices, sorted records, Python's string order, `str(n)`, and
  `join`/`split`.

Files, JSON text, HTML parsing, tokenising and stemming are replaced by
values:
- A document is `Unreadable`, `Broken(url)` (the id is assigned, then reading
  `content` raises) or `Page(url, elements)`.
- Each element is its tag name with its stemmed alphanumeric tokens.
- A partial-index file is the sorted list of its records.

The model follows the code, including where it departs from what an
inverted-index builder of this kind would be expected to do:
- The flush check runs after every file that is not a duplicate, readable or
  not. An unreadable file right after a flush therefore writes an empty
  partial index again.
- The final flush happens only when the in-memory index is non-empty, not
  unconditionally.
- The partial indices are merged by first-character buckets held in memory,
  not by a streaming k-way merge, and no term-offset dictionary is built.
- The final index is sorted within each bucket but not as a whole: `a`..`z`
  come before `0`..`9` (`Merge.LettersBeforeDigits`). Tokens whose first
  character is not a lower-case letter or a digit never reach it.
- `normalize` is not idempotent on a URL without `#` that ends in `.`, one or
  more word characters, `/` and then a single newline. Python's `$` matches before that
  final `\n`, so the `\n` and not the `/` is dropped, and a second call drops
  the `/` (`Urls.NormalizeNewlineCase`).
- The partial-index files are merged in the order `glob` lists them, which
  need not be the order they were written in (`partial_index10.json` can come
  before `partial_index2.json`). The final index then holds each token's
  postings, but not necessarily in document order (`Pipeline.ListingOrderMatters`).

## Model

| member | source | states |
|---|---|---|
| Urls.Defrag | main.py:25 | `urldefrag(url)[0]`: the prefix before the first `#`, the whole URL when there is none |
| Text.Lower | main.py:25 | `.lower()` on ASCII: same length, no upper-case letter left, each upper-case letter replaced by its lower-case partner (32 code points up), every other character unchanged |
| Urls.ExtensionSlashScan | main.py:32 | the right-to-left scan accepts exactly the strings that end in `.`, one or more word characters and `/` |
| Urls.Normalize | main.py:24-35 | the result holds no upper-case letter and no `#` |
| Urls.NormalizeScheme | main.py:25-29 | a lowered, defragmented URL starting `www.` becomes `https://` + it and the result starts `https://www.`; any other URL is returned as a prefix of its lowered form |
| Urls.NormalizeDropsSlash | main.py:32-33 | for a URL without newline, a character is dropped exactly when the string ends in `.` word-characters `/`, and that character is the `/` |
| Urls.NormalizeIdempotent | main.py:24-35 | normalising a newline-free URL twice equals normalising it once |
| Urls.NormalizeNewlineCase | main.py:32-33 | `a.b/\n` normalises to `a.b/`, which a second call turns into `a.b`: the function is not idempotent for a trailing newline |
| Chunks.ReadJsonChunk | main.py:37-50 | the result is a prefix of the chunk; an empty chunk gives an empty result; if the brace level ever returns to zero at a `}`, the result ends at the first such `}` and has as many `{` as `}`; otherwise the whole chunk is returned |
| Annotation.FlagsOf | main.py:144-148 | the flag set is empty exactly when the tag is not one of the nine tags, and is `{name}` otherwise (`title` included) |
| Annotation.Annotate | main.py:138-155 | the final position is the number of tokens over all elements, and the stored occurrences are `Annotated` of the token stream, the per-token reference definition |
| Annotation.AnnotateElement | main.py:143-153 | one element's tokens advance the position by one each and store exactly the flagged ones after the earlier tokens |
| Annotation.AnnotatedSound | main.py:150-153 | every stored list is non-empty; each occurrence names a flagged token of the stream at its position, below the token count, with that tag's flags; positions strictly increase |
| Annotation.AnnotatedComplete | main.py:150-152 | every token under a flagged tag is stored with its position and flags |
| Annotation.StreamLength | main.py:153 | the position counter counts every stemmed token, stored or not |
| Postings.SortedListing | main.py:217-221 | `{k: m[k] for k in sorted(m)}`: the records are in strictly ascending key order and load back to exactly `m` |
| Postings.ListingUnique | main.py:218 | two sorted listings of the same index are identical, so the dump of an index is determined by its contents |
| Postings.ListingEntries | main.py:218 | each record of a listing carries the index's full posting list for its token |
| Builder.IdMapDense | main.py:183-189 | for distinct URLs the id map has exactly those keys, gives the i-th URL id i, is below the URL count, has as many entries as URLs and is injective |
| Builder.FirstSeenExact | main.py:178-183 | the numbered URLs are pairwise distinct and are exactly the normalised URLs of the readable files |
| Builder.Step | main.py:174-210 | one iteration of the file loop: a duplicate changes nothing; any other file adds one to `file_count`; a readable URL is numbered next; the partial indices written only grow, by one exactly when `doc_id` is then a positive multiple of the threshold, and that flush leaves the in-memory index empty |
| Builder.RunCounts | main.py:168-210 | over the whole loop the numbered URLs are distinct and no more than the files counted, which are no more than the files looked at |
| Builder.AddDocument | main.py:194-200 | adding a document only appends: every old token stays a key and its old list is a prefix of its new one |
| Builder.PostingsOfCarries | main.py:194-200 | every posting appended for a document carries its id and the occurrence's position and flags |
| Builder.UnflushedOrdered | main.py:186-200 | every posting list is ordered by document id and by position inside a document, with ids below the number of URLs numbered |
| Builder.FlushCount | main.py:205-210 | over fresh readable files, the URLs are numbered in order, `file_count` equals the number of files and `n / doc_threshold` partial indices have been flushed |
| Builder.RunMerged | main.py:178-210 | for any threshold, URLs are numbered in first-seen order and the flushed parts plus the pending index concatenate to the index of an unflushed run |
| Builder.WrittenMerged | main.py:207-213 | the written partial indices, including the final flush, concatenate token by token to the unflushed index |
| Builder.IndexBuilder.constructor | main.py:159-164 | the state starts empty: no URLs, counters at 0, `index_count` 1 |
| Builder.IndexBuilder.Process | main.py:174-210 | one iteration of the file loop moves the object's state by exactly `Step` and keeps the id map dense, the seen set equal to its keys and every written file sorted |
| Builder.IndexBuilder.Admit | main.py:183-200 | a readable file with a new URL: the URL is numbered next and, for a page, its postings are appended to the partial index as `AddDocument` describes |
| Builder.IndexBuilder.EndOfFile | main.py:205-210 | after a file that is not a duplicate, `file_count` grows by one and the flush check runs, leaving exactly the state `Step` gives |
| Builder.IndexBuilder.Register | main.py:183-191 | a new URL gets id `doc_id`, which then increases by one; `seen_urls` and `doc_id_map` gain that URL |
| Builder.IndexBuilder.AddPostings | main.py:194-200 | the partial index afterwards is the old one with the document's postings appended per token |
| Builder.IndexBuilder.AppendOccurrences | main.py:195-200 | one token's list grows by one posting per occurrence, in occurrence order; nothing else changes |
| Builder.IndexBuilder.FlushIfDue | main.py:207-210 | when `doc_id` is a positive multiple of the threshold, a sorted listing of the index is written, the index is cleared and `index_count` increases; otherwise nothing changes |
| Builder.IndexBuilder.Finish | main.py:212-213 | a sorted listing is written only when the index is non-empty |
| Builder.Walk | main.py:168-210 | the loop stops at the end of the files or at the first point where `file_count >= test_limit`, and the state is `Run` of the files looked at |
| Builder.MakeIndex | main.py:158-215 | returns the dense id map of the URLs numbered and the partial-index files, each sorted, which load back to `Written(Run(...))` for the files looked at |
| Merge.GroupedAt | main.py:69-77 | a token lies in exactly one bucket, its own, with its full posting list; a bucket exists iff some token falls in it |
| Merge.MergePart | main.py:68-77 | folding one more partial index gives the buckets of the concatenation of all partial indices read so far |
| Merge.WriteBuckets | main.py:79-88 | one file per bucket, each the sorted listing of that bucket's tokens |
| Merge.CreateIntermediateFiles | main.py:52-88 | the bucket files are exactly the buckets of the concatenated partial indices, each written as its sorted listing |
| Merge.SortByToken | main.py:106 | the sort returns a permutation of its input |
| Merge.SortSorted | main.py:106 | the sorted data is in non-decreasing token order |
| Merge.SortOfSorted | main.py:106 | sorting an already strictly sorted bucket file leaves it unchanged |
| Merge.FinalOrderRanks | main.py:98 | `ascii_lowercase + digits` has 36 characters and `Rank` gives each its position |
| Merge.MergeAndSort | main.py:90-112 | the final index is the sorted contents of the bucket files `a`..`z`, `0`..`9`, appended in that order, skipping missing ones |
| Merge.PartFacts | main.py:99-106 | the records appended for `c` are exactly the merged tokens starting with `c`, strictly sorted, each with its concatenated postings |
| Merge.FinalIndex | main.py:98-112 | the final index holds exactly the merged tokens starting with `a`..`z` or `0`..`9`, each with its postings concatenated over all partial indices, in bucket order and token order within a bucket |
| Merge.FinalDistinct | main.py:98-112 | no token appears twice in the final index |
| Merge.LettersBeforeDigits | main.py:98 | token `a` precedes token `0`, although `0` sorts first: the final index is not globally sorted |
| Search.InvertedContents | search.py:28-37 | the keys are exactly the tokens of the lines, and a document is under a token iff some line of that token has an entry for it |
| Search.CreateInvertedIndex | search.py:28-37 | the loop builds `Inverted` of all lines, the line-by-line reference definition |
| Search.BooleanAndQuery | search.py:46 | an empty query gives the empty set |
| Search.IntersectionMembers | search.py:46 | a document is in `set.intersection` iff it is in every set |
| Search.AndMembers | search.py:43-46 | a document matches iff the query is non-empty and every term's set holds it |
| Search.AndAbsentTerm | search.py:45-46 | a term missing from the index makes the answer empty, without an error |
| Search.AndSubset | search.py:45-46 | the answer is a subset of every term's set |
| Search.AndTermSet | search.py:45-46 | queries with the same set of terms get the same answer, whatever the order or repetition |
| Text.Str | search.py:65 | `str(n)`: at least one character, all digits, two or more exactly from 10 upwards, no leading zero except for 0 |
| Text.StrInjective | search.py:65 | different ids have different spellings |
| Search.LoadDocIdMap | search.py:61-65 | every item's id spelling is a key, and the last item's id spelling maps to that item's URL, so it overrides any earlier item with the same id |
| Search.LoadDocIdMapKeys | search.py:61-65 | the keys are the spellings of the ids |
| Search.LoadDocIdMapInverts | search.py:61-65 | for an injective url→id map, each id's spelling maps back to its URL and there are as many entries as pairs |
| Search.AscendingFacts | search.py:72-73 | the matching ids are listed once each, strictly ascending, exactly the members of the set |
| Search.UrlsOf | search.py:73 | on success one URL per id; on failure the id reported is one of the ids and has no URL |
| Search.UrlsOfContents | search.py:73 | the lookup succeeds iff every id has a URL, then gives one URL per id in order; otherwise it fails on the first id without one |
| Text.Join | search.py:74 | `'\n'.join`: empty for no parts, starts with the first part, followed by the separator when there are more |
| Text.SplitJoin | search.py:74 | splitting a `'\n'.join` at newlines gives back the parts when none contains a newline |
| Search.Search | search.py:71-74 | an empty query gives the empty string; a failure names a matching id that has no URL |
| Search.SearchFound | search.py:71-74 | when every matching id has a URL, the answer is the join of one URL per matching id, in ascending id order, and splitting it gives them back |
| Search.SearchMissing | search.py:71-74 | a matching id without a URL makes `search` raise, naming a missing matching id no larger than it |
| Pipeline.FinalEqualsUnflushed | main.py:52-112 | whatever order the partial-index files are listed in, the final index holds each reaching token once, in final order, with the postings of an unflushed run up to their order, ids below the URL count |
| Pipeline.FinalInCreationOrder | main.py:52-112 | when the partial-index files are read in the order they were written, each token's list is exactly that of an unflushed run, in document order |
| Pipeline.ListingOrderMatters | main.py:58 | two partial indices read in the reverse of their creation order give a posting list out of document order |
| Pipeline.InvertedFinal | search.py:28-37 | whatever order the partial-index files are listed in, a document is under a token of the inverted final index iff the token reaches the final index and the document has a posting for it, and such ids are all numbered |
| Pipeline.SearchNeverFails | search.py:71-74 | whatever order the partial-index files are listed in, over the final index and the inverted id map from `make_index`, `search` never raises and every matching id is a numbered document whose URL comes back |

## Left out

- File and directory I/O: `open`, `glob`, `iterdir`, `mkdir`, `json.load`/`json.dump`, the append-mode write of the final index and `storeIndices`. Partial indices, bucket files and the final index are values of the model.
- Filesystem enumeration order: the files of `make_index` and the partial-index files are taken in the order given; the end-to-end lemmas in `Pipeline` accept the partial indices in any order. The break on `test_limit` leaves only the inner loop, but every later directory breaks at once, so the walk is modelled as one flat sequence of files.
- `read_json_chunk` inside `create_intermediate_files`: each partial index is taken as the map it loads to, so the model assumes every partial-index file fits in one chunk of `20*1024*1024` characters. A longer file has no level-zero `}` in its first chunk, `read_json_chunk` returns the whole truncated chunk, and `json.loads` raises; that failure is not modelled. `read_json_chunk` itself is modelled on the chunk already read.
- BeautifulSoup, `get_text`, MosesTokenizer and PorterStemmer, including the `isalnum` filter and `tokenize_and_stem` in search.py: the inputs are elements with stemmed tokens, and queries are lists of stemmed terms.
- Unicode: `lower`, `isalnum` and `\w` are modelled on ASCII only.
- `urldefrag` is modelled as cutting at the first `#`; its reconstruction of the URL is not modelled.
- `print` logging, exception texts, pickle caching, module-level loading in search.py, the Gradio interface, `store_doc_id_map` and the `__main__` driver.
- Search.Search: lists the matching URLs in ascending id order, because the iteration order of a Python set is not modelled.
- Merge.MergeAndSort: the final index file is taken to start empty; appending to an existing file is not modelled.
- Builder.MakeIndex: requires `doc_threshold > 0`, because 0 raises `ZeroDivisionError` in the source; a negative threshold, which Python's `%` accepts and which then flushes like its absolute value, is not modelled either.
- Pipeline.FinalEqualsUnflushed: states each token's postings only up to their order (as multisets), because `glob` may list the partial-index files in any order; document order is proved only for creation order (`Pipeline.FinalInCreationOrder`), and `Pipeline.ListingOrderMatters` shows another order breaks it.
- Urls.NormalizeIdempotent: requires the URL to hold no newline, because idempotence fails for some URLs that hold one (`Urls.NormalizeNewlineCase`).
- Flags are modelled as the set of tags whose flag is `True`, not as a dictionary.
