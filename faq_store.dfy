/** The FAQ store: `load_faqs` turns the flat FAQ text file into an ordered
    list of `{q, k, a}` records.  A file is a block per FAQ, blocks separated by
    a blank line; in a block the first line is the question, a `K:` line gives
    the keywords and every other line belongs to the answer. */
module FaqStore {
  import opened Wrappers
  import opened PyStr

  /** One record `{'q': question, 'k': keywords, 'a': answer}`. */
  datatype Faq = Faq(q: string, k: seq<string>, a: string)

  const BlockSeparator: string := "\n\n"

  /** `[b.strip() for b in text.split('\n\n') if b.strip()]`: the blank-line
      separated blocks of `text`, trimmed, without the empty ones, in order. */
  function SplitBlocks(text: string): (r: seq<string>)
    ensures forall i :: 0 <= i < |r| ==> r[i] != [] && IsStripped(r[i])
  {
    StrippedNonEmptyElements(Split(text, BlockSeparator));
    StrippedNonEmpty(Split(text, BlockSeparator))
  }

  // ------------------------------------------------------------- question

  /** The question taken from the first line of a block: every `Q:` removed
      when the line starts with `Q:`, then trimmed. */
  function Question(first: string): (r: string)
    ensures IsStripped(r)
  {
    if StartsWith(first, "Q:") then Strip(Replace(first, "Q:", "")) else Strip(first)
  }

  /** A first line that does not start with `Q:` is only trimmed, even when
      it holds `Q:` further on, and is not empty when it starts with a
      non-space character. */
  lemma QuestionWithoutMarker(first: string)
    requires !StartsWith(first, "Q:")
    ensures Question(first) == Strip(first)
    ensures first != [] && !IsSpace(first[0]) ==> Question(first) != []
  {
    StripEmptyIffAllSpace(first);
    assert first != [] ==> first[..1][0] == first[0];
  }

  /** A first line starting with `Q:` loses that marker and every later one. */
  lemma QuestionDropsPrefix(rest: string)
    ensures Question("Q:" + rest) == Strip(Replace(rest, "Q:", ""))
  {
    StartsWithPrefix("Q:", rest);
    RemoveLeading("Q:", rest);
  }

  /** So `Q: a Q: b` asks `a  b`, trimmed: the second `Q:` goes too. */
  lemma QuestionDropsEveryMarker(a: string, b: string)
    requires !Contains(a + "Q", "Q:") && !Contains(b, "Q:")
    ensures Question("Q:" + (a + "Q:" + b)) == Strip(a + b)
  {
    var front := "Q:"[..|"Q:"| - 1];
    assert front == "Q";
    assert a + front == a + "Q";
    RemoveOnly(a, "Q:", b);
    var rest := a + "Q:" + b;
    assert Replace(rest, "Q:", "") == a + b;
    QuestionDropsPrefix(rest);
  }

  // ------------------------------------------------------------- keywords

  /** `ln.strip().startswith('K:')`. */
  predicate IsKeywordLine(ln: string) {
    StartsWith(Strip(ln), "K:")
  }

  /** `ln.strip().startswith('A:')`. */
  predicate IsAnswerLine(ln: string) {
    StartsWith(Strip(ln), "A:")
  }

  /** A `K:` marker after any indent makes a keyword line. */
  lemma KeywordMarkerAfterSpace(lead: string, rest: string)
    requires AllSpace(lead)
    ensures IsKeywordLine(lead + ("K:" + rest))
  {
    StripOfSpacePrefix(lead, "K:" + rest);
    StripKeepsSolidPrefix("K:", rest);
  }

  /** No line is both a keyword line and an answer line, so the order of the
      two tests in the loop does not matter. */
  lemma MarkersExclusive(ln: string)
    ensures IsKeywordLine(ln) ==> !IsAnswerLine(ln)
  {
    var t := Strip(ln);
    if IsKeywordLine(ln) {
      assert t[0] == t[..2][0] == 'K';
    }
  }

  /** `[kw.strip().lower() for kw in ln.replace('K:','').split(',')]`: one
      keyword per comma-separated piece (at least one, possibly empty), each
      trimmed and lowercased. */
  function KeywordList(ln: string): (r: seq<string>)
    ensures |r| == |Split(Replace(ln, "K:", ""), ",")| >= 1
    ensures forall i :: 0 <= i < |r| ==> IsStripped(r[i]) && Lower(r[i]) == r[i]
  {
    var parts := Split(Replace(ln, "K:", ""), ",");
    var r := seq(|parts|, i requires 0 <= i < |parts| => Lower(Strip(parts[i])));
    assert forall i :: 0 <= i < |r| ==> IsStripped(r[i]) && Lower(r[i]) == r[i] by {
      forall i | 0 <= i < |r| ensures IsStripped(r[i]) && Lower(r[i]) == r[i] {
        LowerKeepsStripped(Strip(parts[i]));
        LowerIdempotent(Strip(parts[i]));
      }
    }
    r
  }

  /** Keyword `i` is comma-separated piece `i` of the line without its
      `K:` markers, trimmed and lowercased. */
  lemma KeywordListAt(ln: string, i: nat)
    requires i < |Split(Replace(ln, "K:", ""), ",")|
    ensures KeywordList(ln)[i] == Lower(Strip(Split(Replace(ln, "K:", ""), ",")[i]))
  {
  }

  /** A keyword line with two pieces gives their trimmed, lowercased forms. */
  lemma KeywordListOfTwo(ln: string, a: string, b: string)
    requires Split(Replace(ln, "K:", ""), ",") == [a, b]
    ensures KeywordList(ln) == [Lower(Strip(a)), Lower(Strip(b))]
  {
    var r := KeywordList(ln);
    assert |r| == 2;
    assert r[0] == Lower(Strip(a)) && r[1] == Lower(Strip(b));
  }

  /** The keywords of a block, given its lines after the first: those of the
      last keyword line; none when there is no keyword line. */
  function KeywordsOf(lines: seq<string>): (r: seq<string>)
    ensures forall i :: 0 <= i < |r| ==> IsStripped(r[i]) && Lower(r[i]) == r[i]
  {
    if lines == [] then []
    else if IsKeywordLine(lines[|lines| - 1]) then KeywordList(lines[|lines| - 1])
    else KeywordsOf(lines[..|lines| - 1])
  }

  /** The last keyword line decides the keywords: lines after it do not. */
  lemma {:induction false} LastKeywordLineWins(lines: seq<string>, j: nat)
    requires j < |lines| && IsKeywordLine(lines[j])
    requires forall i :: j < i < |lines| ==> !IsKeywordLine(lines[i])
    ensures KeywordsOf(lines) == KeywordList(lines[j])
    decreases |lines|
  {
    if j < |lines| - 1 {
      var front := lines[..|lines| - 1];
      forall i | j < i < |front| ensures !IsKeywordLine(front[i]) {
        assert front[i] == lines[i];
      }
      assert front[j] == lines[j];
      LastKeywordLineWins(front, j);
    }
  }

  /** Without a keyword line a block has no keywords. */
  lemma {:induction false} NoKeywordLineNoKeywords(lines: seq<string>)
    requires forall i :: 0 <= i < |lines| ==> !IsKeywordLine(lines[i])
    ensures KeywordsOf(lines) == []
    decreases |lines|
  {
    if lines != [] {
      var front := lines[..|lines| - 1];
      assert forall i :: 0 <= i < |front| ==> front[i] == lines[i];
      NoKeywordLineNoKeywords(front);
    }
  }

  // --------------------------------------------------------------- answer

  /** An answer line: every `A:` removed if its trimmed form starts with
      `A:`, then trimmed. */
  function AnswerLine(ln: string): (r: string)
    ensures IsStripped(r)
  {
    if IsAnswerLine(ln) then Strip(Replace(ln, "A:", "")) else Strip(ln)
  }

  /** A line whose trimmed form does not start with `A:` is only trimmed,
      even when it holds `A:` further on. */
  lemma AnswerLineWithoutMarker(ln: string)
    requires !IsAnswerLine(ln)
    ensures AnswerLine(ln) == Strip(ln)
  {
  }

  /** A line of leading whitespace, `A:` and a rest is an answer line, and
      every `A:` in it is removed: the first and each one in the rest. */
  lemma AnswerLineDropsPrefix(lead: string, rest: string)
    requires AllSpace(lead)
    ensures IsAnswerLine(lead + ("A:" + rest))
    ensures AnswerLine(lead + ("A:" + rest)) == Strip(Replace(rest, "A:", ""))
  {
    AnswerMarkerAfterSpace(lead, rest);
    AnswerMarkerRemoved(lead, rest);
    StripOfSpacePrefix(lead, Replace(rest, "A:", ""));
  }

  lemma AnswerMarkerAfterSpace(lead: string, rest: string)
    requires AllSpace(lead)
    ensures IsAnswerLine(lead + ("A:" + rest))
  {
    StripOfSpacePrefix(lead, "A:" + rest);
    StripKeepsSolidPrefix("A:", rest);
  }

  lemma AnswerMarkerRemoved(lead: string, rest: string)
    requires AllSpace(lead)
    ensures Replace(lead + ("A:" + rest), "A:", "") == lead + Replace(rest, "A:", "")
  {
    var front := lead + "A:"[..|"A:"| - 1];
    assert ':' !in front;
    NotContainsByChar(front, "A:", 1);
    assert lead + ("A:" + rest) == lead + "A:" + rest;
    ReplaceAtFirst(lead, "A:", rest, "");
    assert lead + "" + Replace(rest, "A:", "") == lead + Replace(rest, "A:", "");
  }

  /** The answer lines of a block, given its lines after the first. */
  function AnswerLines(lines: seq<string>): (r: seq<string>)
    ensures |r| <= |lines|
    ensures forall i :: 0 <= i < |r| ==> IsStripped(r[i])
  {
    if lines == [] then []
    else
      var front := AnswerLines(lines[..|lines| - 1]);
      var ln := lines[|lines| - 1];
      if IsKeywordLine(ln) then front else front + [AnswerLine(ln)]
  }

  /** The answer is built line by line: each part of a block contributes its
      own answer lines, in order. */
  lemma {:induction false} AnswerLinesConcat(a: seq<string>, b: seq<string>)
    ensures AnswerLines(a + b) == AnswerLines(a) + AnswerLines(b)
    decreases |b|
  {
    if b == [] {
      assert a + b == a;
    } else {
      var b' := b[..|b| - 1];
      assert (a + b)[..|a + b| - 1] == a + b';
      assert (a + b)[|a + b| - 1] == b[|b| - 1];
      AnswerLinesConcat(a, b');
    }
  }

  /** A keyword line contributes nothing to the answer; every other line
      contributes exactly its cleaned form. */
  lemma AnswerLinesOfOne(ln: string)
    ensures AnswerLines([ln]) == if IsKeywordLine(ln) then [] else [AnswerLine(ln)]
  {
    assert [ln][..0] == [];
  }

  /** `'\n'.join(a_lines).strip()`. */
  function Answer(lines: seq<string>): (r: string)
    ensures IsStripped(r)
  {
    Strip(Join(AnswerLines(lines), "\n"))
  }

  // ---------------------------------------------------------------- parse

  /** The record parsed from one block: a trimmed question and answer, and
      trimmed lowercase keywords. */
  function ParseBlock(b: string): (r: Faq)
    ensures IsStripped(r.q) && IsStripped(r.a)
    ensures forall i :: 0 <= i < |r.k| ==> IsStripped(r.k[i]) && Lower(r.k[i]) == r.k[i]
  {
    var lines := Split(b, "\n");
    Faq(Question(lines[0]), KeywordsOf(lines[1..]), Answer(lines[1..]))
  }

  /** A first line that is only `Q:` gives an empty question, whatever the
      rest of the block holds. */
  lemma BareMarkerEmptyQuestion(rest: string)
    ensures ParseBlock("Q:" + "\n" + rest).q == []
  {
    assert "\n"[..|"\n"| - 1] == [] && "Q:" + [] == "Q:";
    NotContainsByChar("Q:", "\n", 0);
    SplitAtFirst("Q:", "\n", rest);
    QuestionDropsPrefix([]);
    ReplaceAbsent([], "Q:", "");
    assert "Q:" + [] == "Q:";
  }

  /** A block from `SplitBlocks` starts with a non-space character, so a
      question that does not start with `Q:` is never empty. */
  lemma BlockQuestionNonEmpty(b: string)
    requires b != [] && IsStripped(b)
    requires !StartsWith(Split(b, "\n")[0], "Q:")
    ensures ParseBlock(b).q != []
  {
    NewlineIsSpace();
    SplitFirstPiece(b, "\n");
    var first := Split(b, "\n")[0];
    StripEmptyIffAllSpace(first);
    ParseBlockParts(b);
  }

  lemma NewlineIsSpace()
    ensures IsSpace('\n') && "\n"[0] == '\n'
  {
  }

  /** The fields of a parsed block, by line. */
  lemma ParseBlockParts(b: string)
    ensures var lines := Split(b, "\n");
      ParseBlock(b) == Faq(Question(lines[0]), KeywordsOf(lines[1..]), Answer(lines[1..]))
  {
  }

  /** The records parsed from a list of blocks, one per block, in order. */
  function ParseAll(blocks: seq<string>): (r: seq<Faq>)
    ensures |r| == |blocks|
  {
    if blocks == [] then []
    else ParseAll(blocks[..|blocks| - 1]) + [ParseBlock(blocks[|blocks| - 1])]
  }

  /** Record `i` is parsed from block `i`. */
  lemma {:induction false} ParseAllAt(blocks: seq<string>, i: nat)
    requires i < |blocks|
    ensures ParseAll(blocks)[i] == ParseBlock(blocks[i])
    decreases |blocks|
  {
    var front := blocks[..|blocks| - 1];
    assert ParseAll(blocks) == ParseAll(front) + [ParseBlock(blocks[|blocks| - 1])];
    if i < |blocks| - 1 {
      assert front[i] == blocks[i];
      ParseAllAt(front, i);
    }
  }

  /** The records of a whole file: one per block of the trimmed text; none
      when the file is missing. */
  function Faqs(file: Option<string>): (r: seq<Faq>)
    ensures file.None? ==> r == []
    ensures file.Some? ==> |r| == |SplitBlocks(Strip(file.value))|
  {
    match file
    case None => []
    case Some(text) => ParseAll(SplitBlocks(Strip(text)))
  }

  /** `load_faqs`: parse the FAQ file, or return no records when it is missing. */
  method LoadFaqs(file: Option<string>) returns (items: seq<Faq>)
    ensures items == Faqs(file)
    ensures file.None? ==> items == []
  {
    if file.None? {
      return [];
    }
    var raw := Strip(file.value);
    var blocks := SplitBlocks(raw);
    items := [];
    for n := 0 to |blocks|
      invariant items == ParseAll(blocks[..n])
    {
      var item := LoadBlock(blocks[n]);
      ParseAllSnoc(blocks, n);
      items := items + [item];
    }
    WholePrefix(blocks);
  }

  lemma ParseAllSnoc(blocks: seq<string>, n: nat)
    requires n < |blocks|
    ensures ParseAll(blocks[..n + 1]) == ParseAll(blocks[..n]) + [ParseBlock(blocks[n])]
  {
    assert blocks[..n + 1][..n] == blocks[..n];
  }

  lemma WholePrefix<T>(s: seq<T>)
    ensures s[..|s|] == s
  {
  }

  /** The body of the loop of `load_faqs` for one block. */
  method LoadBlock(b: string) returns (item: Faq)
    ensures item == ParseBlock(b)
  {
    var lines := Split(b, "\n");
    var q: string;
    if StartsWith(lines[0], "Q:") {
      q := Strip(Replace(lines[0], "Q:", ""));
    } else {
      q := Strip(lines[0]);
    }
    var k: seq<string> := [];
    var aLines: seq<string> := [];
    for j := 1 to |lines|
      invariant k == KeywordsOf(lines[1..j])
      invariant aLines == AnswerLines(lines[1..j])
    {
      var ln := lines[j];
      LineStep(lines, j);
      if StartsWith(Strip(ln), "K:") {
        k := KeywordList(ln);
      } else if StartsWith(Strip(ln), "A:") {
        aLines := aLines + [Strip(Replace(ln, "A:", ""))];
      } else {
        aLines := aLines + [Strip(ln)];
      }
    }
    WholeSuffix(lines);
    var a := Strip(Join(aLines, "\n"));
    item := Faq(q, k, a);
    ParseBlockParts(b);
  }

  /** One more line of a block: a keyword line replaces the keywords, any
      other line adds its cleaned form to the answer. */
  lemma LineStep(lines: seq<string>, j: nat)
    requires 1 <= j < |lines|
    ensures KeywordsOf(lines[1..j + 1])
      == if IsKeywordLine(lines[j]) then KeywordList(lines[j]) else KeywordsOf(lines[1..j])
    ensures AnswerLines(lines[1..j + 1])
      == if IsKeywordLine(lines[j]) then AnswerLines(lines[1..j])
         else AnswerLines(lines[1..j]) + [AnswerLine(lines[j])]
  {
    var seen := lines[1..j + 1];
    assert seen[..|seen| - 1] == lines[1..j] && seen[|seen| - 1] == lines[j];
  }

  lemma WholeSuffix<T>(s: seq<T>)
    requires s != []
    ensures s[1..|s|] == s[1..]
  {
  }
}
