/** The script's main loop: every chunk, with the sentence left incomplete by
    the previous chunk prepended, is restructured by the language model; a
    last line that looks incomplete is cut off and carried into the next
    chunk; the remaining text is turned into Q&A records by a second model
    call whose reply is parsed.  Both model calls are parameters: `restructure`
    stands for `structure_text_using_llama` and `ask` for the chat call inside
    `generate_qa_pairs`. */
module Pipeline {
  import opened Text
  import opened PageChunker
  import opened QaParser

  /** The default `pages_per_chunk` the script uses. */
  const PagesPerChunk := 5

  /** A last line shorter than this counts as incomplete. */
  const MinSentenceLength := 20

  /** `line.endswith((".", "?", "!"))` */
  predicate EndsWithTerminator(line: string) {
    |line| > 0 && line[|line| - 1] in {'.', '?', '!'}
  }

  /** The test on the stripped last line. */
  predicate IsIncomplete(line: string) {
    |line| < MinSentenceLength || !EndsWithTerminator(line)
  }

  /** The outcome of the carry-over decision for one structured text: the
      text handed to Q&A generation and the sentence carried forward. */
  datatype CarryOver = CarryOver(finalText: string, carry: string)

  /** The stripped last line of a text. */
  function LastLine(text: string): (r: string) {
    var lines := Split(text, "\n");
    Strip(lines[|lines| - 1])
  }

  /** Lines 97-107: split into lines, test the stripped last line, drop it
      and carry it if it looks incomplete, join the remaining lines. */
  function SplitOffIncomplete(structuredText: string): (r: CarryOver) {
    var lines := Split(structuredText, "\n");
    if IsIncomplete(LastLine(structuredText)) then
      CarryOver(Join("\n", lines[..|lines| - 1]), LastLine(structuredText))
    else
      CarryOver(Join("\n", lines), "")
  }

  /** Lines 90-91: the carried sentence and a single space go in front of the
      chunk, but only when something is carried. */
  function Prepend(carry: string, chunk: string): (r: string)
    ensures carry == "" ==> r == chunk
    ensures carry != "" ==> |r| == |carry| + 1 + |chunk| && r[..|carry|] == carry && r[|carry|] == ' '
    ensures r[|r| - |chunk|..] == chunk
  {
    if carry != "" then carry + " " + chunk else chunk
  }

  /** A complete last line is kept: the text goes on unchanged and nothing
      is carried. */
  lemma CompleteTextUnchanged(structuredText: string)
    requires !IsIncomplete(LastLine(structuredText))
    ensures SplitOffIncomplete(structuredText) == CarryOver(structuredText, "")
  {
    JoinSplit(structuredText, "\n");
  }

  /** An incomplete last line is carried, and only whitespace around it is
      lost: the structured text is the final text, a newline if other lines
      remain, and the raw last line, which strips to the carry.  When the
      incomplete line is the only line, the final text is empty. */
  lemma IncompleteLineCarried(structuredText: string)
    requires IsIncomplete(LastLine(structuredText))
    ensures SplitOffIncomplete(structuredText).carry == LastLine(structuredText)
    ensures var r := SplitOffIncomplete(structuredText);
            var lines := Split(structuredText, "\n");
            var raw := lines[|lines| - 1];
            && Strip(raw) == r.carry
            && structuredText == (if |lines| > 1 then r.finalText + "\n" else "") + raw
            && (|lines| == 1 ==> r.finalText == "")
  {
    var lines := Split(structuredText, "\n");
    var init, raw := lines[..|lines| - 1], lines[|lines| - 1];
    var r := SplitOffIncomplete(structuredText);
    assert r == CarryOver(Join("\n", init), Strip(raw));
    JoinSplit(structuredText, "\n");
    InitLast(lines);
    if |lines| > 1 {
      JoinSnoc("\n", init, raw);
    }
  }

  /** The last line is stripped and holds no newline. */
  lemma LastLineIsLine(text: string)
    ensures IsStripped(LastLine(text)) && !Contains(LastLine(text), "\n")
  {
    var lines := Split(text, "\n");
    var raw := lines[|lines| - 1];
    SplitPieceFree(text, "\n", |lines| - 1);
    StripKeepsFree(raw, "\n");
    assert LastLine(text) == Strip(raw);
  }

  /** The carry is always a single stripped line, and a non-empty carry is
      an incomplete line. */
  lemma CarryIsIncompleteLine(structuredText: string)
    ensures var c := SplitOffIncomplete(structuredText).carry;
            && IsStripped(c) && !Contains(c, "\n")
            && (c != "" ==> IsIncomplete(c))
  {
    LastLineIsLine(structuredText);
    if IsIncomplete(LastLine(structuredText)) {
      assert SplitOffIncomplete(structuredText).carry == LastLine(structuredText);
    } else {
      assert SplitOffIncomplete(structuredText).carry == "";
    }
  }

  /** What the loop of lines 88-111 accumulates from `chunks` onward, given
      the sentence carried into the first of them. */
  function Run(chunks: seq<string>, carry: string,
               restructure: string -> string, ask: string -> string): (r: seq<QaPair>)
    decreases |chunks|
  {
    if chunks == [] then []
    else
      var step := SplitOffIncomplete(restructure(Prepend(carry, chunks[0])));
      ParseReply(ask(step.finalText)) + Run(chunks[1..], step.carry, restructure, ask)
  }

  /** Every record the loop produces is well-formed, whatever the model
      returns. */
  lemma {:induction false} RunWellFormed(chunks: seq<string>, carry: string,
                                         restructure: string -> string, ask: string -> string)
    ensures forall p :: p in Run(chunks, carry, restructure, ask) ==> WellFormed(p)
    decreases |chunks|
  {
    if chunks != [] {
      var step := SplitOffIncomplete(restructure(Prepend(carry, chunks[0])));
      ReplyRecordsBounded(ask(step.finalText));
      RunWellFormed(chunks[1..], step.carry, restructure, ask);
    }
  }

  /** Lines 97-107 as the script runs them: the carry-over decision for one
      structured text. */
  method CarryOverIncomplete(structuredText: string) returns (finalText: string, incompleteSentence: string)
    ensures CarryOver(finalText, incompleteSentence) == SplitOffIncomplete(structuredText)
    ensures !IsIncomplete(LastLine(structuredText)) ==> finalText == structuredText && incompleteSentence == ""
    ensures var lines := Split(structuredText, "\n");
            IsIncomplete(LastLine(structuredText)) ==>
              && incompleteSentence == LastLine(structuredText)
              && structuredText == (if |lines| > 1 then finalText + "\n" else "") + lines[|lines| - 1]
              && (|lines| == 1 ==> finalText == "")
  {
    var structuredSentences := Split(structuredText, "\n");
    var lastSentence := Strip(structuredSentences[|structuredSentences| - 1]);
    assert lastSentence == LastLine(structuredText);
    if |lastSentence| < MinSentenceLength || !EndsWithTerminator(lastSentence) {
      IncompleteLineCarried(structuredText);
      incompleteSentence := lastSentence;
      finalText := Join("\n", structuredSentences[..|structuredSentences| - 1]);
    } else {
      CompleteTextUnchanged(structuredText);
      incompleteSentence := "";
      finalText := Join("\n", structuredSentences);
    }
  }

  /** One iteration of the loop: the run from chunk `i` on is the records
      of chunk `i`, then the run from chunk `i + 1` on with the sentence
      chunk `i` left incomplete. */
  lemma RunStep(chunks: seq<string>, i: nat, carry: string,
                restructure: string -> string, ask: string -> string)
    requires i < |chunks|
    ensures var step := SplitOffIncomplete(restructure(Prepend(carry, chunks[i])));
            Run(chunks[i..], carry, restructure, ask)
            == ParseReply(ask(step.finalText)) + Run(chunks[i + 1..], step.carry, restructure, ask)
  {
    assert chunks[i..][0] == chunks[i] && chunks[i..][1..] == chunks[i + 1..];
  }

  /** The script from line 84 to line 112: chunk the pages, then run the
      carry-over loop over the chunks, collecting the parsed records. */
  method GenerateDataset(pages: seq<string>, restructure: string -> string, ask: string -> string)
    returns (qaData: seq<QaPair>)
    ensures qaData == Run(ChunksOf(pages), "", restructure, ask)
  {
    var chunks := ExtractChunks(pages, PagesPerChunk);
    assert chunks == ChunksOf(pages);
    qaData := [];
    var incompleteSentence := "";
    var i := 0;
    while i < |chunks|
      invariant 0 <= i <= |chunks|
      invariant qaData + Run(chunks[i..], incompleteSentence, restructure, ask)
                == Run(chunks, "", restructure, ask)
    {
      ghost var carried := incompleteSentence;
      var chunk := chunks[i];
      if incompleteSentence != "" {
        chunk := incompleteSentence + " " + chunk;
      }
      assert chunk == Prepend(carried, chunks[i]);
      var structuredText := restructure(chunk);
      var finalText;
      finalText, incompleteSentence := CarryOverIncomplete(structuredText);
      var pairs := ParseQaPairs(ask(finalText));
      RunStep(chunks, i, carried, restructure, ask);
      AppendAssoc(qaData, pairs, Run(chunks[i + 1..], incompleteSentence, restructure, ask));
      qaData := qaData + pairs;
      i := i + 1;
    }
    assert chunks[i..] == [];
  }

  /** The chunks `extract_text_from_pdf` produces with the default window. */
  function ChunksOf(pages: seq<string>): (r: seq<string>)
    ensures |r| == ChunkCount(|pages|, PagesPerChunk)
  {
    seq(ChunkCount(|pages|, PagesPerChunk), j requires 0 <= j => Chunk(pages, PagesPerChunk, j))
  }
}
