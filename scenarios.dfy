/** Worked examples: the scoring of a password-reset record, the order of two
    records scoring 4 and 2, and a one-record FAQ file answering a question
    about office hours from its keywords. */
module Scenarios {
  import opened Wrappers
  import opened PyStr
  import opened FaqStore
  import opened KeywordMatcher
  import opened AnswerResolver
  import opened ChatSession

  lemma LowerForgotPassword()
    ensures Lower("I forgot my password") == "i forgot my password"
  {
    LowerFirstCapital("I forgot my password");
    LowerI();
  }

  lemma LowerI()
    ensures [LowerChar('I')] + "I forgot my password"[1..] == "i forgot my password"
  {
  }

  /** The score of a two-keyword record is 2 per keyword that hits. */
  lemma ScoreOfPair(k1: string, k2: string, ui: string)
    ensures Score([k1, k2], ui) == (if Hits(k1, ui) then 2 else 0) + (if Hits(k2, ui) then 2 else 0)
  {
    assert [k1, k2][..1] == [k1] && [k1][..0] == [];
  }

  lemma ForgotPasswordHits()
    ensures Hits("password", "i forgot my password") && !Hits("reset", "i forgot my password")
  {
    ContainsMiddle("i forgot my ", "password", []);
    assert "i forgot my " + "password" + [] == "i forgot my password";
    assert "reset"[1] == 'e' && 'e' !in "i forgot my password";
    NotContainsByChar("i forgot my password", "reset", 1);
  }

  /** `K: password, reset` scores 2 against "I forgot my password" (one hit)... */
  lemma PasswordRecordHits()
    ensures Score(["password", "reset"], Lower("I forgot my password")) == 2
  {
    LowerForgotPassword();
    ForgotPasswordHits();
    ScoreOfPair("password", "reset", "i forgot my password");
  }

  /** ... and 0 against "billing question", so that query does not match it
      at the default minimum score. */
  lemma PasswordRecordMisses()
    ensures Score(["password", "reset"], Lower("billing question")) == 0
  {
    LowerOfLowercase("billing question");
    var bi := "billing question";
    assert "password"[0] == 'p' && 'p' !in bi;
    assert "reset"[0] == 'r' && 'r' !in bi;
    NotContainsByChar(bi, "password", 0);
    NotContainsByChar(bi, "reset", 0);
  }

  /** Of two matches scoring 2 and 4, the one scoring 4 comes first. */
  lemma HigherScoreFirst(x: Faq, y: Faq)
    ensures SortByScoreDesc([Match(2, x), Match(4, y)]) == [Match(4, y), Match(2, x)]
  {
    var ms := [Match(2, x), Match(4, y)];
    assert ms[..1] == [Match(2, x)];
    assert [Match(2, x)][..0] == [];
  }

  // ------------------------------------------------------------ office hours

  /** Two pieces without a blank line in them, joined by one newline, hold no
      blank line. */
  lemma NoBlankLineBetween(x: string, y: string)
    requires x != [] && x[|x| - 1] != '\n' && y != [] && y[0] != '\n'
    requires !Contains(x, BlockSeparator) && !Contains(y, BlockSeparator)
    ensures !Contains(x + "\n" + y, BlockSeparator)
  {
    var p := BlockSeparator;
    assert p[..|p| - 1] == "\n" && p[1..] == "\n";
    NotContainsShort("\n", p);
    NotContainsJoinAfter(x, "\n", p);
    NotContainsJoinBefore(x + "\n", y, p);
  }

  /** A file of three non-empty lines with no blank line is one block. */
  lemma ThreeLineFileIsOneBlock(x: string, y: string, z: string)
    requires x != [] && y != [] && z != []
    requires '\n' !in x && '\n' !in y && '\n' !in z
    requires !IsSpace(x[0]) && !IsSpace(z[|z| - 1])
    ensures var f := x + "\n" + y + "\n" + z; SplitBlocks(Strip(f)) == [f]
  {
    var f := x + "\n" + y + "\n" + z;
    assert BlockSeparator[0] == '\n';
    NotContainsByChar(x, BlockSeparator, 0);
    NotContainsByChar(y, BlockSeparator, 0);
    NotContainsByChar(z, BlockSeparator, 0);
    NoBlankLineBetween(x, y);
    NoBlankLineBetween(x + "\n" + y, z);
    assert f[0] == x[0] && f[|f| - 1] == z[|z| - 1];
    StripOfStripped(f);
    SplitAbsent(f, BlockSeparator);
    StrippedNonEmptySingle(f);
  }

  /** Such a block is three lines. */
  lemma ThreeLines(x: string, y: string, z: string)
    requires '\n' !in x && '\n' !in y && '\n' !in z
    ensures Split(x + "\n" + y + "\n" + z, "\n") == [x, y, z]
  {
    var nl := "\n";
    assert nl[..0] == [] && x + [] == x && y + [] == y;
    NotContainsByChar(x, nl, 0);
    NotContainsByChar(y, nl, 0);
    NotContainsByChar(z, nl, 0);
    assert x + nl + y + nl + z == x + nl + (y + nl + z);
    SplitAtFirst(x, nl, y + nl + z);
    SplitAtFirst(y, nl, z);
    SplitAbsent(z, nl);
  }

  lemma KeywordsOfKeywordLine(y: string)
    requires IsKeywordLine(y)
    ensures KeywordsOf([y]) == KeywordList(y)
  {
    assert [y][0] == y;
  }

  lemma AnswerLinesOfKeywordLine(y: string)
    requires IsKeywordLine(y)
    ensures AnswerLines([y]) == []
  {
    AnswerLinesOfOne(y);
  }

  /** A last line that is no keyword line leaves the keywords alone and adds
      one answer line. */
  lemma PlainLastLine(y: string, z: string)
    requires !IsKeywordLine(z)
    ensures KeywordsOf([y, z]) == KeywordsOf([y])
    ensures AnswerLines([y, z]) == AnswerLines([y]) + [AnswerLine(z)]
  {
    var ls := [y, z];
    assert ls[|ls| - 1] == z && ls[..|ls| - 1] == [y];
  }

  /** A question line, a keyword line and an answer line make one record. */
  lemma ParseThreeLines(x: string, y: string, z: string)
    requires '\n' !in x && '\n' !in y && '\n' !in z
    requires IsKeywordLine(y) && !IsKeywordLine(z)
    ensures ParseBlock(x + "\n" + y + "\n" + z) == Faq(Question(x), KeywordList(y), AnswerLine(z))
  {
    ThreeLines(x, y, z);
    assert [x, y, z][1..] == [y, z];
    PlainLastLine(y, z);
    KeywordsOfKeywordLine(y);
    AnswerLinesOfKeywordLine(y);
    assert [] + [AnswerLine(z)] == [AnswerLine(z)];
    StripOfStripped(AnswerLine(z));
  }

  /** A marker character not in `w` is not in `" " + w`. */
  lemma SpacedWithout(c: char, w: string)
    requires c != ' ' && c !in w
    ensures c !in " " + w
  {
  }

  /** One leading space is stripped from a trimmed `w`. */
  lemma SpacedStrip(w: string)
    requires IsStripped(w)
    ensures Strip(" " + w) == w
  {
    assert AllSpace(" ");
    StripOfSpacePrefix(" ", w);
    StripOfStripped(w);
  }

  /** A two-character marker whose first character is not in `w` does not
      occur in `" " + w`. */
  lemma SpacedKeepsOut(c: char, d: char, w: string)
    requires c != ' ' && c !in w
    ensures !Contains(" " + w, [c, d])
  {
    SpacedWithout(c, w);
    NotContainsByChar(" " + w, [c, d], 0);
  }

  /** `Q: w` asks `w`. */
  lemma QuestionLine(w: string)
    requires 'Q' !in w && IsStripped(w)
    ensures Question("Q:" + (" " + w)) == w
  {
    SpacedKeepsOut('Q', ':', w);
    QuestionDropsPrefix(" " + w);
    ReplaceAbsent(" " + w, "Q:", "");
    SpacedStrip(w);
  }

  /** A line made of a marker and a rest that ends in a non-space character is
      trimmed and starts with its marker. */
  lemma MarkedLine(m: string, rest: string)
    requires m != [] && !IsSpace(m[0]) && rest != [] && !IsSpace(rest[|rest| - 1])
    ensures Strip(m + rest) == m + rest && StartsWith(m + rest, m)
  {
    var ln := m + rest;
    assert ln[0] == m[0] && ln[|ln| - 1] == rest[|rest| - 1];
    StripOfStripped(ln);
    StartsWithPrefix(m, rest);
  }

  /** `A: w` is an answer line and no keyword line. */
  lemma AnswerLineMarked(w: string)
    requires w != [] && IsStripped(w)
    ensures IsAnswerLine("A:" + (" " + w)) && !IsKeywordLine("A:" + (" " + w))
  {
    assert (" " + w)[|w|] == w[|w| - 1];
    MarkedLine("A:", " " + w);
  }

  /** `A: w` answers `w`, and is no keyword line. */
  lemma AnswerLineOf(w: string)
    requires 'A' !in w && w != [] && IsStripped(w)
    ensures AnswerLine("A:" + (" " + w)) == w && !IsKeywordLine("A:" + (" " + w))
  {
    SpacedKeepsOut('A', ':', w);
    AnswerLineMarked(w);
    AnswerLineDropsPrefix([], " " + w);
    ReplaceAbsent(" " + w, "A:", "");
    SpacedStrip(w);
  }

  /** A keyword piece with one leading space. */
  lemma KeywordPiece(w: string)
    requires w != [] && forall i :: 0 <= i < |w| ==> !IsSpace(w[i]) && !IsAsciiUpper(w[i])
    ensures Lower(Strip(" " + w)) == w
  {
    SpacedStrip(w);
    LowerOfLowercase(w);
  }

  /** `" u, v".split(',')` is `[" u", " v"]` when neither holds a comma. */
  lemma TwoPieces(u: string, v: string)
    requires ',' !in u && ',' !in v
    ensures Split(" " + u + ("," + " " + v), ",") == [" " + u, " " + v]
  {
    var comma := ",";
    var pu, pv := " " + u, " " + v;
    SpacedWithout(',', u);
    SpacedWithout(',', v);
    NotContainsByChar(pu, comma, 0);
    NotContainsByChar(pv, comma, 0);
    assert comma[..0] == [] && pu + [] == pu;
    assert " " + u + ("," + " " + v) == pu + comma + pv;
    SplitAtFirst(pu, comma, pv);
    SplitAbsent(pv, comma);
  }

  /** `K: u, v` is a keyword line. */
  lemma KeywordLineMarked(u: string, v: string)
    requires v != [] && !IsSpace(v[|v| - 1])
    ensures IsKeywordLine("K:" + (" " + u + ("," + " " + v)))
  {
    var rest := " " + u + ("," + " " + v);
    assert rest[|rest| - 1] == v[|v| - 1];
    MarkedLine("K:", rest);
  }

  /** Dropping the marker of `K: u, v`. */
  lemma KeywordLineBody(u: string, v: string)
    requires 'K' !in u && 'K' !in v
    ensures Replace("K:" + (" " + u + ("," + " " + v)), "K:", "") == " " + u + ("," + " " + v)
  {
    var rest := " " + u + ("," + " " + v);
    assert 'K' !in rest;
    NotContainsByChar(rest, "K:", 0);
    RemoveLeading("K:", rest);
    ReplaceAbsent(rest, "K:", "");
  }

  /** `K: u, v` gives the keywords `u` and `v`. */
  lemma KeywordLineOf(u: string, v: string)
    requires u != [] && forall i :: 0 <= i < |u| ==> !IsSpace(u[i]) && !IsAsciiUpper(u[i])
    requires v != [] && forall i :: 0 <= i < |v| ==> !IsSpace(v[i]) && !IsAsciiUpper(v[i])
    requires 'K' !in u && 'K' !in v && ',' !in u && ',' !in v
    ensures IsKeywordLine("K:" + (" " + u + ("," + " " + v)))
    ensures KeywordList("K:" + (" " + u + ("," + " " + v))) == [u, v]
  {
    KeywordLineMarked(u, v);
    KeywordLineBody(u, v);
    TwoPieces(u, v);
    KeywordListOfTwo("K:" + (" " + u + ("," + " " + v)), " " + u, " " + v);
    KeywordPiece(u);
    KeywordPiece(v);
  }

  const OfficeQuestion: string := "Office hours?"
  const OfficeAnswer: string := "9am–5pm Mon–Fri."
  // `Q: Office hours?`, `K: hours, open` and `A: 9am–5pm Mon–Fri.`.  Each is
  // written as its marker followed by the rest of the line, the shape the line
  // lemmas above take apart (the marker, then a space and the text).  Written
  // as one literal, each line would first have to be shown equal to that
  // concatenation character by character before those lemmas could apply.
  const QuestionLine1: string := "Q:" + (" " + OfficeQuestion)
  const KeywordLine2: string := "K:" + (" " + "hours" + ("," + " " + "open"))
  const AnswerLine3: string := "A:" + (" " + OfficeAnswer)
  /** A FAQ file holding one block. */
  const OfficeHoursFile: string := QuestionLine1 + "\n" + KeywordLine2 + "\n" + AnswerLine3
  const OfficeHoursRecord: Faq := Faq(OfficeQuestion, ["hours", "open"], OfficeAnswer)

  lemma OfficeQuestionFacts()
    ensures 'Q' !in OfficeQuestion && IsStripped(OfficeQuestion)
  {
  }

  lemma OfficeAnswerFacts()
    ensures 'A' !in OfficeAnswer && OfficeAnswer != [] && IsStripped(OfficeAnswer)
  {
  }

  lemma OfficeKeywordFacts()
    ensures forall i :: 0 <= i < |"hours"| ==> !IsSpace("hours"[i]) && !IsAsciiUpper("hours"[i])
    ensures forall i :: 0 <= i < |"open"| ==> !IsSpace("open"[i]) && !IsAsciiUpper("open"[i])
    ensures 'K' !in "hours" && 'K' !in "open" && ',' !in "hours" && ',' !in "open"
  {
  }

  lemma OfficeLineFacts()
    ensures '\n' !in QuestionLine1 && '\n' !in KeywordLine2 && '\n' !in AnswerLine3
    ensures QuestionLine1[0] == 'Q' && AnswerLine3[|AnswerLine3| - 1] == '.'
  {
  }

  /** Loading the file gives the one record, with the `Q:`, `K:` and `A:`
      markers gone and the keywords split and trimmed. */
  lemma OfficeHoursLoaded()
    ensures Faqs(Some(OfficeHoursFile)) == [OfficeHoursRecord]
  {
    OfficeQuestionFacts();
    OfficeAnswerFacts();
    OfficeKeywordFacts();
    OfficeLineFacts();
    ThreeLineFileIsOneBlock(QuestionLine1, KeywordLine2, AnswerLine3);
    QuestionLine(OfficeQuestion);
    KeywordLineOf("hours", "open");
    AnswerLineOf(OfficeAnswer);
    ParseThreeLines(QuestionLine1, KeywordLine2, AnswerLine3);
    assert [OfficeHoursFile][..0] == [];
  }

  lemma LowerHoursQuestion()
    ensures Lower("What are your hours?") == "what are your hours?"
  {
    LowerFirstCapital("What are your hours?");
    LowerW();
  }

  lemma LowerW()
    ensures [LowerChar('W')] + "What are your hours?"[1..] == "what are your hours?"
  {
  }

  lemma HoursQuestionHits()
    ensures Hits("hours", "what are your hours?") && !Hits("open", "what are your hours?")
  {
    ContainsMiddle("what are your ", "hours", "?");
    assert "what are your " + "hours" + "?" == "what are your hours?";
    assert "open"[1] == 'p' && 'p' !in "what are your hours?";
    NotContainsByChar("what are your hours?", "open", 1);
  }

  /** The question "What are your hours?" hits the keyword `hours`. */
  lemma OfficeHoursMatched()
    ensures KeywordMatches("What are your hours?", [OfficeHoursRecord], DefaultMinScore) == [Match(2, OfficeHoursRecord)]
  {
    LowerHoursQuestion();
    HoursQuestionHits();
    ScoreOfPair("hours", "open", "what are your hours?");
    var items := [OfficeHoursRecord];
    assert items[..0] == [];
    assert Scored("what are your hours?", items, DefaultMinScore) == [Match(2, OfficeHoursRecord)];
    var ms := [Match(2, OfficeHoursRecord)];
    assert ms[..0] == [];
  }

  /** End to end: the answer is the record's question and answer, and
      neither the search nor any provider is called. */
  lemma OfficeHoursAnswered(search: (string, nat) -> seq<string>, primary: string -> Backend,
                            secondary: string -> Backend, email: string)
    ensures var query := "What are your hours?";
      var r := Resolve(query, KeywordMatches(query, Faqs(Some(OfficeHoursFile)), DefaultMinScore),
                       search, primary, secondary, email);
      r.answer == HitAnswer(OfficeHoursRecord) && r.calls == [] &&
      Contains(r.answer, OfficeQuestion) && Contains(r.answer, OfficeAnswer)
  {
    OfficeHoursLoaded();
    OfficeHoursMatched();
  }
}
