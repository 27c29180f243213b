/** The parsing half of `generate_qa_pairs`: the language model's reply is
    split on "Q:", the text before the first marker is dropped, and every
    section that contains "A:" becomes one record whose instruction is the
    stripped text before its first "A:" and whose output is the stripped text
    between its first and second "A:". */
module QaParser {
  import opened Text

  /** One training record: the dictionary built at lines 66-70. */
  datatype QaPair = QaPair(instruction: string, input: string, output: string)

  datatype Option<T> = None | Some(value: T)

  const QuestionMarker := "Q:"
  const AnswerMarker := "A:"

  /** What one "Q:" section contributes: a record when splitting it on "A:"
      gives at least two parts, that is, when it contains "A:"
      (`SectionFields`). */
  function ParseSection(section: string): (r: Option<QaPair>) {
    var parts := Split(section, AnswerMarker);
    if |parts| >= 2 then Some(QaPair(Strip(parts[0]), "", Strip(parts[1])))
    else None
  }

  /** The concatenation of `f` over `xs`, in order. */
  function Collect<T, U>(xs: seq<T>, f: T -> seq<U>): (r: seq<U>) {
    if xs == [] then [] else Collect(xs[..|xs| - 1], f) + f(xs[|xs| - 1])
  }

  /** Collecting over concatenated runs gives the concatenated results. */
  lemma {:induction false} CollectAppend<T, U>(a: seq<T>, b: seq<T>, f: T -> seq<U>)
    ensures Collect(a + b, f) == Collect(a, f) + Collect(b, f)
    decreases |b|
  {
    if b == [] {
      assert a + b == a;
    } else {
      CollectAppend(a, b[..|b| - 1], f);
      assert (a + b)[..|a + b| - 1] == a + b[..|b| - 1];
    }
  }

  /** Collecting over elements 1 .. i, one element more. */
  lemma CollectStep<T, U>(xs: seq<T>, i: nat, f: T -> seq<U>)
    requires 1 <= i < |xs|
    ensures Collect(xs[1..i + 1], f) == Collect(xs[1..i], f) + f(xs[i])
  {
    assert xs[1..i + 1][..i - 1] == xs[1..i];
  }

  /** The record one section contributes, if any. */
  function SectionRecords(section: string): (r: seq<QaPair>) {
    match ParseSection(section)
    case Some(p) => [p]
    case None => []
  }

  /** The records of a run of sections, in section order. */
  function Records(sections: seq<string>): (r: seq<QaPair>) {
    Collect(sections, SectionRecords)
  }

  /** The records of a whole reply: every section after the first "Q:". */
  function ParseReply(reply: string): (r: seq<QaPair>) {
    Records(Split(reply, QuestionMarker)[1..])
  }

  /** The loop of `generate_qa_pairs` over the sections of the reply. */
  method ParseQaPairs(responseText: string) returns (qaPairs: seq<QaPair>)
    ensures qaPairs == ParseReply(responseText)
  {
    qaPairs := [];
    var qaSections := Split(responseText, QuestionMarker);
    var i := 1;
    while i < |qaSections|
      invariant 1 <= i <= |qaSections|
      invariant qaPairs == Records(qaSections[1..i])
    {
      var section := qaSections[i];
      CollectStep(qaSections, i, SectionRecords);
      ContainsIffSplits(section, AnswerMarker);
      if Contains(section, AnswerMarker) {
        var parts := Split(section, AnswerMarker);
        var question := Strip(parts[0]);
        var answer := Strip(parts[1]);
        qaPairs := qaPairs + [QaPair(question, "", answer)];
      }
      i := i + 1;
    }
    assert qaSections[1..i] == qaSections[1..];
  }

  /** A section yields a record exactly when it contains "A:"; the question
      is the stripped text before the first "A:", the answer the stripped
      text between the first "A:" and the second one (or the end), and
      anything after a second "A:" is dropped. */
  lemma SectionFields(section: string)
    ensures ParseSection(section).Some? <==> Contains(section, AnswerMarker)
    ensures ParseSection(section).Some? ==>
              var i := Find(section, AnswerMarker);
              var rest := section[i + 2..];
              && i + 2 <= |section|
              && ParseSection(section).value
                 == QaPair(Strip(section[..i]), "", Strip(rest[..Find(rest, AnswerMarker)]))
  {
    ContainsIffSplits(section, AnswerMarker);
    FindIsLeftmost(section, AnswerMarker);
    if Contains(section, AnswerMarker) {
      var i := Find(section, AnswerMarker);
      var rest := section[i + 2..];
      SplitAtFind(section, AnswerMarker);
      SplitAtFind(rest, AnswerMarker);
      assert Split(section, AnswerMarker)[1] == Split(rest, AnswerMarker)[0];
    }
  }

  /** Well-formed record: empty input, question and answer stripped and free
      of both markers (either may be empty). */
  predicate WellFormed(p: QaPair) {
    && p.input == ""
    && IsStripped(p.instruction) && IsStripped(p.output)
    && !Contains(p.instruction, QuestionMarker) && !Contains(p.instruction, AnswerMarker)
    && !Contains(p.output, QuestionMarker) && !Contains(p.output, AnswerMarker)
  }

  /** A section without "Q:" yields, if anything, a well-formed record. */
  lemma SectionWellFormed(section: string)
    requires !Contains(section, QuestionMarker)
    ensures ParseSection(section).Some? ==> WellFormed(ParseSection(section).value)
  {
    var parts := Split(section, AnswerMarker);
    if |parts| >= 2 {
      PieceWellFormed(section, 0);
      PieceWellFormed(section, 1);
    }
  }

  /** Piece `k` of a section split on "A:", once stripped, is stripped and
      free of both markers. */
  lemma PieceWellFormed(section: string, k: nat)
    requires !Contains(section, QuestionMarker) && k < |Split(section, AnswerMarker)|
    ensures var piece := Strip(Split(section, AnswerMarker)[k]);
            IsStripped(piece) && !Contains(piece, QuestionMarker) && !Contains(piece, AnswerMarker)
  {
    var raw := Split(section, AnswerMarker)[k];
    SplitPieceFree(section, AnswerMarker, k);
    SplitPieceKeepsFree(section, AnswerMarker, QuestionMarker, k);
    StripKeepsFree(raw, QuestionMarker);
    StripKeepsFree(raw, AnswerMarker);
  }

  /** Records of sections that hold no "Q:" are well-formed, and there are at
      most as many records as sections. */
  lemma {:induction false} RecordsWellFormed(sections: seq<string>)
    requires forall k :: 0 <= k < |sections| ==> !Contains(sections[k], QuestionMarker)
    ensures |Records(sections)| <= |sections|
    ensures forall p :: p in Records(sections) ==> WellFormed(p)
    decreases |sections|
  {
    if sections != [] {
      RecordsWellFormed(sections[..|sections| - 1]);
      SectionWellFormed(sections[|sections| - 1]);
    }
  }

  /** Every record of any reply is well-formed, and there are at most as
      many records as "Q:" markers in the reply. */
  lemma ReplyRecordsBounded(reply: string)
    ensures |ParseReply(reply)| <= Occurrences(reply, QuestionMarker)
    ensures forall p :: p in ParseReply(reply) ==> WellFormed(p)
  {
    var sections := Split(reply, QuestionMarker);
    SplitCount(reply, QuestionMarker);
    SplitPiecesFree(reply, QuestionMarker);
    RecordsWellFormed(sections[1..]);
  }

  /** Order: when the second part of a reply starts at a "Q:" marker, the
      records of the whole reply are those of the first part followed by
      those of the second. */
  lemma ReplyAppend(a: string, b: string)
    requires |b| >= 2 && b[..2] == QuestionMarker
    ensures ParseReply(a + b) == ParseReply(a) + ParseReply(b)
  {
    SplitAppendAtMarker(a, b, QuestionMarker);
    var sa, sb := Split(a, QuestionMarker), Split(b, QuestionMarker);
    assert (sa + sb[1..])[1..] == sa[1..] + sb[1..];
    CollectAppend(sa[1..], sb[1..], SectionRecords);
  }

  /** Text before the first "Q:" never becomes a record. */
  lemma PreambleIgnored(preamble: string, b: string)
    requires !Contains(preamble, QuestionMarker)
    requires |b| >= 2 && b[..2] == QuestionMarker
    ensures ParseReply(preamble + b) == ParseReply(b)
  {
    ReplyAppend(preamble, b);
    ContainsIffSplits(preamble, QuestionMarker);
    assert Split(preamble, QuestionMarker)[1..] == [];
  }
}
