# Q&A dataset generator: chunker, reply parser and carry-over loop

`qa-generator.py` turns a PDF manual into a JSONL file of question/answer
training records. It reads the PDF page by page, groups the page texts into
chunks of five pages, has a language model restructure each chunk into
sentences, and asks the model for "Q: … A: …" pairs about the restructured
text. It parses the model's reply into records. A last line that looks like
an unfinished sentence is cut off and carried into the next chunk.

This project models the three pieces of plain sequence and string logic
between the PDF reader and the language model, and proves what they
guarantee:

- `text.dfy` (module `Text`): the Python `str` operations the script relies
  on, written out. These are `split` with an explicit separator,
  `sep.join`, `strip()` with Python's full `str.isspace()` whitespace set,
  and the `in` test. `find` is written out too, because `split` is defined
  through it.
- `chunker.dfy` (module `PageChunker`): the page-chunking loop of
  `extract_text_from_pdf`, as an imperative method over the page texts.
- `qa_parser.dfy` (module `QaParser`): the parsing loop of
  `generate_qa_pairs`, as an imperative method over the reply text.
- `pipeline.dfy` (module `Pipeline`): the script's main loop. It covers the
  prepend rule, the incomplete-last-line decision and the accumulation of
  records. The two model calls are function parameters.

Each imperative method is proved equal to a functional definition. The
properties the script relies on are proved about those definitions. The
definitions below carry no contract of their own. They are the reference
that the contracts in the "## Model" table are stated against:

- `Text.IsSpace` (qa-generator.py:63-64, 98): the `str.isspace()` set that `strip()` removes.
- `Text.Contains` (qa-generator.py:61): `sub in s`, as an occurrence at some position.
- `Text.Join` (qa-generator.py:18, 107): `sep.join(parts)`.
- `QaParser.ParseSection` (qa-generator.py:61-64): one section's optional record.
- `QaParser.ParseReply` (qa-generator.py:59-70): the records of a whole reply.
- `Pipeline.LastLine` (qa-generator.py:97-98): the stripped last line.
- `Pipeline.EndsWithTerminator` and `Pipeline.IsIncomplete` (qa-generator.py:101): the test on that line.
- `Pipeline.SplitOffIncomplete` (qa-generator.py:97-107): the final text and the carry.
- `Pipeline.Run` (qa-generator.py:88-110): the records the main loop collects from a list of chunks, given the incoming carry.

A page is the text the PDF reader extracted from it, and `""` when it
extracted nothing.

A record's question and answer may be empty. The code does not require a
non-empty question, and a section `Q:A:` yields a record whose question and
answer are both `""`. `QaParser.WellFormed` therefore allows empty fields.

## Model

| member | source | states |
|---|---|---|
| PageChunker.ExtractChunks | qa-generator.py:8-22 | There are ⌈n/k⌉ chunks. Chunk j is the "\n"-join, in page order, of the non-empty texts of pages j·k up to min((j+1)·k, n)−1. |
| PageChunker.ChunkCountIsCeiling | qa-generator.py:11-19 | The chunk count c is the ceiling of n/k: n ≤ c·k, and (c−1)·k < n when c > 0. It is zero exactly when there are no pages. |
| PageChunker.WindowBoundary | qa-generator.py:17 | For a window starting at c·k with m pages read (0 < m ≤ k), the test `(i + 1) % k == 0` fires exactly when m == k. |
| PageChunker.WindowSizes | qa-generator.py:11-19 | Every chunk's window starts inside the document and is non-empty. Every window but the last has exactly k pages. The last has between 1 and k. |
| PageChunker.ChunkEmptyIff | qa-generator.py:13-18 | A chunk is "" exactly when every page of its window is empty. A window of empty pages still yields a chunk. |
| PageChunker.NonEmptyKeeps | qa-generator.py:13-14 | The `if page_text:` filter keeps a text exactly when it is in the input and non-empty. It never lengthens the list. |
| PageChunker.NonEmptyNil | qa-generator.py:13-14 | The page filter removes everything exactly when every page text is empty. |
| PageChunker.KeptPagesPrefix | qa-generator.py:13-19 | The first m chunks together hold exactly the non-empty texts among the first min(m·k, n) pages, in order. |
| PageChunker.ChunksLoseNothing | qa-generator.py:13-19 | No loss and no reordering. All chunks together hold every non-empty page text, in page order, each once. |
| PageChunker.NonEmptyAppend | qa-generator.py:13-14 | Filtering out empty pages distributes over concatenation. |
| QaParser.ParseQaPairs | qa-generator.py:58-70 | The loop's records equal `ParseReply(reply)`: one record per "Q:" section that contains "A:", in section order, skipping the text before the first "Q:". |
| QaParser.SectionFields | qa-generator.py:61-64 | A section yields a record exactly when it contains "A:". The question is the stripped text before the first "A:". The answer is the stripped text between the first and the second "A:". Anything after a second "A:" is dropped, and the input is "". |
| QaParser.PieceWellFormed | qa-generator.py:62-64 | A stripped piece of a "Q:"-free section split on "A:" is stripped and contains neither marker. |
| QaParser.SectionWellFormed | qa-generator.py:61-69 | A section's record, if any, has input "". Its question and answer are stripped and contain neither "Q:" nor "A:". |
| QaParser.RecordsWellFormed | qa-generator.py:60-70 | Sections free of "Q:" yield at most one record each, and every record is well-formed. |
| QaParser.ReplyRecordsBounded | qa-generator.py:59-70 | For any reply, there are at most as many records as occurrences of "Q:", and every record is well-formed. |
| QaParser.PreambleIgnored | qa-generator.py:59-60 | Text before the first "Q:" never becomes a record. |
| QaParser.ReplyAppend | qa-generator.py:59-66 | Records come out in marker order. When the second part of a reply starts at a "Q:", the reply's records are those of the first part followed by those of the second. |
| QaParser.CollectAppend | qa-generator.py:60-70 | Accumulating per-section records over two runs of sections gives the concatenation of the two results. |
| Pipeline.Prepend | qa-generator.py:90-91 | An empty carry leaves the chunk as it is. Otherwise the result is the carry, one space, then the chunk. The chunk always ends the result. |
| Pipeline.CarryOverIncomplete | qa-generator.py:97-107 | The loop body's carry-over decision. When the stripped last line is complete, the final text is the structured text unchanged and nothing is carried. When it is incomplete (shorter than 20 characters or not ending in ".", "?" or "!"), it is the carry, and the structured text is the final text, then "\n" if other lines remain, then the raw last line. When that line is the only one, the final text is "". The result agrees with `SplitOffIncomplete`. |
| Pipeline.CompleteTextUnchanged | qa-generator.py:97-107 | When the stripped last line is complete (at least 20 characters, ending in ".", "?" or "!"), the final text is the structured text unchanged and the carry is "". |
| Pipeline.IncompleteLineCarried | qa-generator.py:97-107 | When the stripped last line is incomplete, it becomes the carry. The structured text is the final text, then "\n" if other lines remain, then the raw last line, which strips to the carry. When that line is the only one, the final text is "" (the join of no lines). |
| Pipeline.LastLineIsLine | qa-generator.py:97-98 | The stripped last line is stripped and contains no newline. |
| Pipeline.CarryIsIncompleteLine | qa-generator.py:97-105 | The carry is always a stripped single line. A non-empty carry is an incomplete line. |
| Pipeline.RunStep | qa-generator.py:88-110 | Helper for the loop invariant of `GenerateDataset`: the definition of `Run` unfolded at `chunks[i..]`. The run from chunk i on is the records of chunk i (with the carry prepended), then the run from chunk i+1 on with the new carry. |
| Pipeline.RunWellFormed | qa-generator.py:88-110 | Every record the loop collects is well-formed, whatever the language model returns. |
| Pipeline.GenerateDataset | qa-generator.py:84-110 | The collected records are `Run` over the chunks of the default five-page window, starting with no carry. |
| Pipeline.ChunksOf | qa-generator.py:84 | The script's chunks with the default window: ⌈n/5⌉ of them. |
| Text.Strip | qa-generator.py:63-64 | `strip()` returns a slice of its argument that neither starts nor ends with whitespace. |
| Text.StripRemovesOnlySpace | qa-generator.py:63-64 | Everything `strip()` removes, before and after the result, is whitespace. |
| Text.StripLeftSpace | qa-generator.py:63-64 | Helper of `StripRemovesOnlySpace`: the left half of `strip()` removes only whitespace. |
| Text.StripRightSpace | qa-generator.py:63-64 | Helper of `StripRemovesOnlySpace`: the right half of `strip()` removes only whitespace. |
| Text.StripStripped | qa-generator.py:98 | `strip()` leaves a stripped string unchanged, so it is idempotent. |
| Text.StripKeepsFree | qa-generator.py:63-64 | Stripping never brings in a substring the text did not contain. |
| Text.ContainsInStrip | qa-generator.py:63-64 | Whatever the stripped text contains, the text contains. |
| Text.FindFromIsLeftmost | qa-generator.py:59 | The search from a position stops at the first occurrence at or after it, or at the end when there is none. |
| Text.FindIsLeftmost | qa-generator.py:61-62 | `Find` returns the leftmost occurrence. It returns the end of the string exactly when `sub in s` is false. |
| Text.FindUnique | qa-generator.py:59 | Any position with an occurrence there and none before it is the position `Find` returns. |
| Text.Split | qa-generator.py:59 | `split` always returns at least one piece. |
| Text.JoinSplit | qa-generator.py:97-107 | Joining the pieces of a split with the same separator gives back the original string. |
| Text.JoinSnoc | qa-generator.py:103-107 | Joining a non-empty list with one more piece adds the separator and that piece at the end. |
| Text.ContainsIffSplits | qa-generator.py:61-62 | `sep in s` holds exactly when `s.split(sep)` has at least two pieces. |
| Text.SplitAtFind | qa-generator.py:62-64 | The first piece is the text before the leftmost separator. The remaining pieces are the split of what follows it. |
| Text.PrefixBeforeFindFree | qa-generator.py:62-63 | The text before the leftmost separator contains no separator. |
| Text.SplitPieceFree | qa-generator.py:59-62 | No piece of a split contains the separator. |
| Text.SplitPiecesFree | qa-generator.py:59-62 | No piece of a split contains the separator (all pieces at once). |
| Text.SplitPieceKeepsFree | qa-generator.py:59-62 | The pieces of a split contain no substring the whole string did not. |
| Text.SliceKeepsFree | qa-generator.py:59-62 | A slice of a string contains no substring the string did not. |
| Text.ContainsInSlice | qa-generator.py:59-62 | Whatever a slice of a string contains, the string contains. |
| Text.SplitCount | qa-generator.py:59 | Splitting on a two-character marker whose characters differ ("Q:", "A:") gives one more piece than the marker has occurrences. |
| Text.OccurrencesSkip | qa-generator.py:59 | Positions before the first occurrence add nothing to the occurrence count. |
| Text.FindBeforeMarker | qa-generator.py:59 | With no marker in `a`, the leftmost marker of `a + b` is the one `b` starts with. |
| Text.FindInPrefix | qa-generator.py:59 | A marker found in `a` is found at the same place in `a + b`. |
| Text.SplitAppendAtMarker | qa-generator.py:59 | When `b` starts with the marker, the split of `a + b` is the split of `a` followed by the pieces of `b` after its leading, empty one. |

## Left out

- The PDF reader (`PdfReader`, `page.extract_text()`, lines 7 and 12) is left out. Its result, one text per page, is the input `pages: seq<string>`, with `""` for a page that yields no text.
- The language-model calls `structure_text_using_llama` and the chat call in `generate_qa_pairs` (lines 24-39, 44-56) are left out, prompts included. They are the function parameters `restructure` and `ask`. As parameters they are deterministic, so a service that answers the same text differently on two calls is not captured.
- `save_to_jsonl` and `json.dumps` (lines 75-79, 114) are left out. They are file output and library encoding; the model stops at the list of records.
- The `print` calls and the hard-coded `pdf_path` (lines 20, 38, 72, 82, 111, 115) are left out. They are console output and configuration.
- PageChunker.ExtractChunks: requires `pagesPerChunk > 0`. With a window of 0 the source raises `ZeroDivisionError` at the first page. With a window of 0 and no pages the source returns `[]` without raising; the requires excludes that case too. Negative window sizes, where Python's `%` floors, are not modelled. The script itself always uses 5.
- Python strings may contain lone surrogate code points; `string` here holds Unicode scalar values only.
- The text carried out of the last chunk is dropped by the script. The model does the same: `Run` ends without using the final carry.
