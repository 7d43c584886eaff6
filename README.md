# Semantic chunker — a Dafny model

`SemanticChunker.process_file` turns an essay into topic-coherent chunks:

1. it splits the text into sentences with `re.split(r'(?<=[.?!])\s+|\n+', essay)`;
2. it gives every sentence a context window: the sentences up to `buffer_size` (60) places before and after it, joined with spaces and stripped;
3. it embeds the windows in one batch;
4. it scores each adjacent pair of sentences by cosine distance;
5. it takes the 95th percentile of those distances as a threshold, in numpy's linear method;
6. it marks every index whose distance is strictly above the threshold as a breakpoint;
7. it cuts the sentence list at the breakpoints and joins each piece with single spaces;
8. it writes the chunks as a Markdown file of `## Chunk k` sections.

This project models steps 1-2 and 4-8 in Dafny and proves what each step promises. The embedding call in step 3 and the cosine distance in step 4 are parameters.

The modules follow the pipeline:

| file | module | models |
|---|---|---|
| `wrappers.dfy` | `Wrappers` | `Option` and `Result` |
| `text.dfy` | `Text` | Python's `str.isspace`, `str.strip`, `" ".join` and the decimal form of a header number |
| `sentences.dfy` | `Sentences` | the per-sentence dictionary, as a record with optional later fields |
| `segmenter.dfy` | `Segmenter` | the `re.split` call, as a left-to-right scan |
| `context_window.dfy` | `ContextWindow` | `combine_sentences`, as a method on an array of records |
| `distances.dfy` | `Distances` | `calculate_cosine_distances`, as a method on the array, with the distance as a parameter |
| `percentile.dfy` | `Percentiles` | `np.percentile` with linear interpolation, over exact reals |
| `chunking.dfy` | `Chunking` | `create_chunks` |
| `markdown.dfy` | `Markdown` | the text `save_markdown` writes |
| `pipeline.dfy` | `SemanticChunker` | `process_file` without its file and console I/O |

Each stage that Python writes as a loop over mutable state is a Dafny method with loop invariants, proved against a specification function:

- `CombineSentences` and `CombineWindow` against `Window`;
- `CalculateCosineDistances` against `AdjacentDistances`;
- `CreateChunks` and its loop `AssembleChunks` against `Breakpoints` and `Chunks`;
- `WriteMarkdown` against `Render`.

The lemmas state the properties of those functions.

How the model reads the code where it is easy to misread:

- **Chunk boundaries.** A breakpoint `i` means the distance between sentences `i` and `i+1` is large. Yet `create_chunks` uses `i` as the exclusive END of a chunk (`range(start_index, end_index)`), so the cut falls before sentence `i`, not after it. A breakpoint at 0 therefore yields an empty first chunk. Read as "cut after sentence `i`", a large first gap would give `["A.", "B. C. D. E."]`. The code, and so this model, gives `["", "A. B. C. D. E."]`: lemma `Chunking.FirstGapOutlier` proves that the first chunk is empty and the second is the join of all five sentences. The model follows the code.
- **Empty fragments.** `re.split` keeps empty fragments. A text that starts or ends with a newline, or an empty text, yields empty sentences. These take part in windows, distances and chunks like any other sentence.
- **Error paths.** `np.percentile([] , 95)` raises `IndexError` when the text is a single sentence. An embedding batch shorter than the sentence list raises `IndexError` in the attach loop. Both are `Failure` results.

## Model

| member | source | states |
|---|---|---|
| Text.Trim | semantic_chunker.py:51 | `str.strip()`: the leading, then the trailing whitespace removed; the result is never longer than the text (the rows below pin down exactly what it keeps) |
| Text.TrimStartShape | semantic_chunker.py:51 | the leading strip keeps a suffix, removes only whitespace, and stops at the first non-whitespace character |
| Text.TrimEndShape | semantic_chunker.py:51 | the trailing strip keeps a prefix, removes only whitespace, and stops at the last non-whitespace character |
| Text.TrimEnds | semantic_chunker.py:51 | `strip()` gives the empty string exactly when the text is all whitespace; otherwise neither end of the result is whitespace |
| Text.TrimInfix | semantic_chunker.py:51 | `strip()` returns a contiguous piece of the text, and everything removed on either side is whitespace |
| Text.TrimTrailingSpace | semantic_chunker.py:50-51 | the trailing `" "` the accumulation loop adds does not change the stripped result |
| Text.AccumulatedTrim | semantic_chunker.py:48-51 | appending each sentence plus `" "` and stripping equals stripping the `" ".join` of the window |
| Text.JoinSpace | semantic_chunker.py:73 | `" ".join`: as long as all the items together plus one space between each neighbouring pair |
| Text.JoinSpaceAppend | semantic_chunker.py:73 | `" ".join` of two non-empty lists is the two joins with one space between |
| Text.Decimal | semantic_chunker.py:116 | the `{i+1}` in the header: a non-empty string of decimal digits, starting with `0` only for the number 0 |
| Text.DecimalRoundTrip | semantic_chunker.py:116 | the decimal digits written for a chunk number read back as that number |
| Segmenter.MatchFacts | semantic_chunker.py:22 | the pattern matches at `p` exactly when `p` holds a newline, or holds whitespace right after `.`, `?` or `!`; the match is all whitespace |
| Segmenter.SpaceRunFacts | semantic_chunker.py:22 | the greedy `\s+` run is all whitespace and the character after it is not whitespace |
| Segmenter.NewlineRunFacts | semantic_chunker.py:22 | the greedy `\n+` run is all newlines and the character after it is not a newline |
| Segmenter.SplitFacts | semantic_chunker.py:22 | the fragments and separators put back together give the text; every separator is the pattern's whole (greedy) match at the offset where it stands, so non-empty whitespace; no fragment holds a newline or a sentence end followed by whitespace |
| Segmenter.SplitUnique | semantic_chunker.py:22 | any split of the text with the properties of `SplitFacts` is the one `re.split` returns: the fragments and separators are determined by the text |
| Segmenter.Fragments | semantic_chunker.py:22 | the list `re.split` returns, which is never empty; `SplitFacts` and `SplitUnique` characterise it completely |
| Sentences.CombinedTexts | semantic_chunker.py:27 | the batch sent for embedding: one text per record, the `k`-th being record `k`'s combined sentence |
| Segmenter.Segment | semantic_chunker.py:22-23 | there is at least one sentence; the records hold the fragments in order with `index` equal to their position; no sentence holds a newline; no later field is set yet |
| Segmenter.RejoinEndsWithLast | semantic_chunker.py:22 | the last fragment is a suffix of the text |
| Segmenter.TrailingNewlineGivesEmptyLast | semantic_chunker.py:22 | a text ending in a newline has an empty last sentence |
| Segmenter.LeadingNewlineGivesEmptyFirst | semantic_chunker.py:22 | a text starting with a newline has an empty first sentence |
| Segmenter.EmptyTextIsOneEmptySentence | semantic_chunker.py:22 | the empty text is one empty sentence |
| ContextWindow.Window | semantic_chunker.py:48-51 | defines sentence `i`'s combined sentence: the strip of the space-join over `range(max(0, i-b), min(n, i+b+1))`, and the empty string when that range is empty |
| ContextWindow.CombineWindow | semantic_chunker.py:48-51 | the inner loop's stripped accumulation is the window of sentence `i`, from `max(0, i-b)` to `min(N, i+b+1)`, and it reads the array without changing it |
| ContextWindow.CombineSentences | semantic_chunker.py:46-52 | after the loop every record carries its window as `combined`; nothing else in the array changes |
| ContextWindow.CombinedKeepsSentences | semantic_chunker.py:46-52 | combining keeps the number of records and every `sentence` and `index`, and sets `combined` to the window |
| ContextWindow.WindowOfZeroBuffer | semantic_chunker.py:49-51 | with buffer 0 a sentence's window is its own stripped text |
| ContextWindow.WindowOfLargeBuffer | semantic_chunker.py:49-51 | with a buffer of at least N every window is the whole stripped document |
| ContextWindow.WindowHoldsOwnSentence | semantic_chunker.py:49-50 | a window contains its own sentence, between the joined sentences before it and after it |
| Distances.AdjacentDistances | semantic_chunker.py:56-61 | there are `N-1` distances (none for N ≤ 1), and distance `k` is between vectors `k` and `k+1` |
| Distances.CalculateCosineDistances | semantic_chunker.py:54-63 | returns the adjacent distances of the embeddings; record `k < N-1` gains `distance_to_next`; the last record is unchanged |
| Percentiles.Percentile | semantic_chunker.py:67 | the percentile is defined exactly when the input is non-empty |
| Percentiles.SortSorts | semantic_chunker.py:67 | the sorted copy is ascending and a permutation of the input |
| Percentiles.PercentileInRange | semantic_chunker.py:67 | the percentile lies between the smallest and the largest value |
| Percentiles.PercentileSelectsTop | semantic_chunker.py:67-68 | at most `N-1-floor((N-1)q/100)` values lie strictly above the q-th percentile |
| Percentiles.PercentileMap | semantic_chunker.py:67 | an order-preserving map that commutes with interpolation commutes with the percentile |
| Percentiles.PercentileScale | semantic_chunker.py:67 | scaling every value by `c > 0` scales the percentile by `c` |
| Chunking.Threshold | semantic_chunker.py:66-67 | `np.percentile(distances, 95)`: it lies between the smallest and the largest distance |
| Chunking.Breakpoints | semantic_chunker.py:68 | breakpoints are strictly ascending indices into the distances, and `i` is one exactly when distance `i` is strictly above the threshold |
| Chunking.BreakpointsAreFew | semantic_chunker.py:66-68 | at most `N-1-floor(0.95(N-1))` indices are breakpoints |
| Chunking.BreakpointsScaleInvariant | semantic_chunker.py:66-68 | scaling all distances by a positive constant leaves the breakpoint set unchanged |
| Chunking.Chunks | semantic_chunker.py:70-75 | there is one more chunk than there are breakpoints |
| Chunking.SpansTile | semantic_chunker.py:71-75 | the spans start at 0, each starts where the previous ended, the last ends at N, and all but the first are non-empty |
| Chunking.SpansPartition | semantic_chunker.py:70-75 | the spans, concatenated in order, are exactly the sentence list |
| Chunking.ChunksRejoin | semantic_chunker.py:70-75 | without a breakpoint at 0, joining the chunks with spaces gives the join of all sentences |
| Chunking.NoBreakpointsOneChunk | semantic_chunker.py:72-74 | with no breakpoint the document is one chunk, the join of all sentences |
| Chunking.BreakpointAtZeroGivesEmptyFirstChunk | semantic_chunker.py:72-74 | a breakpoint at index 0 makes the first chunk empty |
| Chunking.FirstGapOutlier | semantic_chunker.py:65-77 | distances `[1, 0, 0, 0]` give threshold 0.85 and breakpoint 0; five sentences then give an empty first chunk and a second chunk joining all five |
| Chunking.AssembleChunks | semantic_chunker.py:70-75 | the loop over `breakpoints + [N]` returns exactly the chunk list: one join per span, in order |
| Chunking.CreateChunks | semantic_chunker.py:65-77 | fails exactly when there are no distances (the percentile's `IndexError`); otherwise returns the chunks cut at the breakpoints above the 95th percentile |
| Markdown.Section | semantic_chunker.py:116-117 | defines the text one chunk adds: the header line `## Chunk {k}`, then the chunk and a blank line |
| Markdown.Render | semantic_chunker.py:114-117 | the whole Markdown body: the sections numbered from 1, empty exactly when there are no chunks |
| Markdown.SectionsAppend | semantic_chunker.py:115-117 | the sections of two chunk lists are the sections of each, the second numbered on from the first |
| Markdown.RenderAt | semantic_chunker.py:115-117 | chunk `k` appears under the header `## Chunk k+1`, between the sections before it and after it |
| Markdown.HeaderNumber | semantic_chunker.py:116 | every header number is a digit string that reads back as the chunk's 1-based position |
| Markdown.WriteMarkdown | semantic_chunker.py:115-117 | the loop writes exactly the rendered document |
| SemanticChunker.ContextTexts | semantic_chunker.py:24-27 | the texts `combine_sentences` leaves for the embedding batch: one per sentence, the `k`-th being sentence `k`'s window |
| SemanticChunker.AttachEmbeddings | semantic_chunker.py:30-31 | record `k` gains embedding `k`; nothing else changes |
| SemanticChunker.ProcessText | semantic_chunker.py:22-40 | fails exactly when there are fewer vectors than sentences or fewer than two sentences, with the matching error; otherwise returns the provider's vectors, the adjacent distances, the 95th-percentile threshold, valid breakpoints, the chunks of the segmented text, and their Markdown |

## Left out

- The embedding provider (`OpenAIEmbeddings` over `httpx` with credentials) is the parameter `embed` of `ProcessText`. The model assumes it is a function of the batch: no network, retries or batching limits.
- `cosine_similarity` and `1 - similarity` are the parameter `dist`. The model proves nothing about cosine numerics.
- Distances are exact `real`s, not IEEE doubles. Rounding in the percentile interpolation and in comparisons with the threshold is not modelled.
- Percentiles.Percentile: numpy selects with a partial sort. The model sorts fully by insertion, which gives the same value.
- `save_graph` (matplotlib plotting) is not modelled: it is output only and changes no result.
- `save_markdown` and `save_embeddings`: directory creation, paths and file writes are not modelled, only the Markdown text. `.npy` serialisation is not modelled.
- Reading the input file and `print` progress messages are not modelled.
- `process_directory` is not modelled: it loops over files with I/O.
- `__init__` is not modelled: it stores credentials and an HTTP client.
- `storage_connectors.py` and `main.py` are not part of this model: the first wraps local files, sqlite3, S3, SharePoint and Confluence behind `connect`/`read`/`write`; the second loads credentials from environment variables, walks a fixed input directory, extracts PDF metadata, runs the chunker on each PDF and uploads the metadata to S3.
- Percentiles.Percentile: older numpy versions return NaN with a warning for an empty array instead of raising. The model follows the raising behaviour.
- SemanticChunker.ProcessText: Python raises `IndexError` partway through the attach loop. The model checks the batch length first, which leaves no observable difference.
- `Text.IsSpace`: this is Python's `str.isspace` for the code points that `\s` and `strip()` treat as whitespace. No Unicode database lookup beyond that fixed set is modelled.
