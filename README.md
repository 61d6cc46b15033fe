# Support assistant: FAQ store, keyword matcher and answer policy

A customer-support chat assistant answers a question in three tiers:

1. It looks the question up in a FAQ file by keyword.
2. If no keyword hits, it asks a language model. The prompt carries the passages a semantic search over the FAQ found, or is a plain prompt when the search found none. A primary provider is asked first and a secondary one only if that gave nothing.
3. If neither provider answered, a fixed escalation message stands in.

Every exchange is kept in a chat log that is shown newest first.

The model covers these parts:

- **`PyStr`** (`pystr.dfy`): the Python `str` operations the code depends on, with their Python meaning.
  - `isspace`, over the same code points as Python.
  - `strip`, defined through its two halves: `LStrip` cuts leading whitespace and `RStrip` trailing whitespace.
  - `startswith` and `in`.
  - `split` for a non-empty separator: left to right, non-overlapping.
  - `join`.
  - `replace(old, new)`, defined as `new.join(s.split(old))`. It removes every occurrence, not just a leading one.
  - `lower`, on ASCII only.
  - The comprehension `[t.strip() for t in parts if t.strip()]`.
- **`FaqStore`** (`faq_store.dfy`): `load_faqs`. The text is split into blank-line separated blocks; each block becomes one `{q, k, a}` record.
- **`KeywordMatcher`** (`keyword_matcher.dfy`): `keyword_match`.
  - Each record scores 2 points per keyword found in the lowercased query.
  - Records below the minimum score are dropped.
  - The result is sorted with Python's stable sort, `reverse=True`, modelled as an insertion sort.
- **`VectorIndex`** (`vector_index.dfy`): the guard of `ensure_vectorstore` and the chunks it hands to the embedding store.
- **`AnswerResolver`** (`answer_resolver.dfy`): the Send handler's resolver. It covers:
  - the two provider wrappers;
  - both prompt templates, character for character;
  - Python's `or` between the providers;
  - the escalation fallback.

  The semantic search and the two provider clients are function-typed parameters. The resolution also returns the list of calls made, so "not consulted" can be stated.
- **`ChatSession`** (`chat_session.dfy`): the session's `history`. It is a class whose `history` field is a `seq` of turns. It starts empty, each Send with a non-empty query appends one turn, and the log is displayed in reverse.
- **`Scenarios`** (`scenarios.dfy`): worked examples proved about the model.
  - A password-reset record scores 2 against "I forgot my password" and 0 against "billing question".
  - Of two matches, the one scoring 4 comes before the one scoring 2.
  - A three-line FAQ file loads as one record, which answers "What are your hours?" from its keywords. Neither the search nor any provider is called.

Where the repository's written description and the code differ, the model follows the code:

- Keywords are an ordered list that may hold duplicates, each counted again when scoring. They are not a set.
- Lines that are neither `K:` nor `A:` lines go into the answer trimmed, not verbatim.
- The question is always the first line of the block, whatever it starts with.
- The description says every record has a question, but the question can be empty. A block whose first line is only `Q:`, such as `Q:` followed by `K: x`, gives the question `""` (`rag_engine.py:18-19`).
- When the embedding libraries are present but the FAQ file is missing, `open` raises. This is the `ReadFails` outcome.

## Model

| member | source | states |
|---|---|---|
| PyStr.Strip | rag_engine.py:13 | `str.strip()`: the result starts and ends with a non-whitespace character, or is empty |
| PyStr.StripShape | rag_engine.py:13 | `strip` removes only whitespace: the result is a slice `s[i..j]` with only whitespace before `i` and after `j` |
| PyStr.StripEmptyIffAllSpace | rag_engine.py:14 | `t.strip()` is falsy exactly when `t` is all whitespace (both directions) |
| PyStr.StripOfStripped | rag_engine.py:14 | stripping a trimmed string changes nothing, so `b.strip()` of a kept block is the block |
| PyStr.StripKeepsSolidPrefix | rag_engine.py:25-27 | a prefix that starts and ends with non-whitespace, such as `K:` or `A:`, is still at the front after `strip` |
| PyStr.IsSpace | rag_engine.py:13 | the code points Python's `str.isspace()` accepts, so `strip` trims the same characters |
| PyStr.JoinSplit | rag_engine.py:17 | `sep.join(s.split(sep)) == s` for every `s` and non-empty `sep` |
| PyStr.SplitSingleIffAbsent | rag_engine.py:14 | `split` gives one piece exactly when the separator does not occur (both directions) |
| PyStr.SplitAtFirst | rag_engine.py:17 | the first piece of a split ends at the first occurrence of the separator |
| PyStr.SplitAppend | rag_engine.py:14 | extending the text only changes the last piece and what follows it |
| PyStr.Split | rag_engine.py:14 | `s.split(sep)` for a non-empty separator always gives at least one piece; `JoinSplit` and `SplitAtFirst` state its contents |
| PyStr.Join | rag_engine.py:31 | `sep.join` of a single piece is that piece; `JoinSplit` states that it undoes `split` |
| PyStr.Replace | rag_engine.py:19 | `s.replace(old, new)` is `new.join(s.split(old))`; `ReplaceAbsent` and `ReplaceAtFirst` state that every occurrence is replaced |
| PyStr.Contains | rag_engine.py:41 | `p in s`: `p` is a prefix of some suffix of `s`; `ContainsMiddle` states that a string occurs inside any text built around it |
| PyStr.StartsWith | rag_engine.py:18 | `s.startswith(p)`: `s` begins with exactly the characters of `p`; `StartsWithPrefix` states that `p + s` starts with `p` |
| PyStr.ReplaceAbsent | rag_engine.py:19 | `replace` changes nothing when the pattern does not occur |
| PyStr.RemoveLeading | rag_engine.py:19 | removing a pattern from `pat + rest` drops that leading occurrence and goes on removing it from `rest` |
| PyStr.ReplaceAtFirst | rag_engine.py:19 | `replace` works from the first occurrence on: the text before it is kept, the occurrence becomes the replacement, and the rest is replaced in turn |
| PyStr.RemoveOnly | rag_engine.py:28 | removing a pattern that occurs once leaves exactly the text before and after it |
| PyStr.Lower | rag_engine.py:36 | `lower()` keeps the length, leaves no ASCII capital and keeps whitespace where it was |
| PyStr.LowerIdempotent | rag_engine.py:26 | lowering twice is lowering once |
| PyStr.LowerConcat | rag_engine.py:36 | lowering works character by character over concatenation |
| PyStr.LowerKeepsStripped | rag_engine.py:26 | `kw.strip().lower()` is still trimmed |
| PyStr.StrippedNonEmpty | rag_engine.py:14 | the comprehension `[t.strip() for t in parts if t.strip()]` keeps at most one block per piece; `StrippedNonEmptyElements` and `StrippedNonEmptyConcat` state which |
| PyStr.StrippedNonEmptyElements | rag_engine.py:14 | every block the comprehension keeps is non-empty and trimmed |
| PyStr.StrippedNonEmptyConcat | rag_engine.py:14 | the comprehension works piece by piece: each part of the input contributes its own blocks, in order |
| PyStr.PiecesOfStripped | rag_engine.py:13-14 | for a whitespace separator, stripping the whole text first does not change the kept blocks |
| FaqStore.SplitBlocks | rag_engine.py:14 | the blocks are non-empty and trimmed |
| FaqStore.Question | rag_engine.py:18-21 | the question is trimmed; `QuestionWithoutMarker`, `QuestionDropsPrefix` and `QuestionDropsEveryMarker` state its value in both cases |
| FaqStore.QuestionWithoutMarker | rag_engine.py:18-21 | a first line that does not start with `Q:` is only trimmed, even if it holds `Q:` later, and one starting with a non-space character gives a non-empty question |
| FaqStore.QuestionDropsPrefix | rag_engine.py:18-19 | for every `rest`, the question of `"Q:" + rest` is `rest` with every `Q:` removed, then trimmed |
| FaqStore.QuestionDropsEveryMarker | rag_engine.py:18-19 | a `Q:` inside the question text is removed too: `Q: a Q: b` asks `a b` trimmed |
| FaqStore.BareMarkerEmptyQuestion | rag_engine.py:18-19 | a first line that is only `Q:` gives an empty question, whatever follows it |
| FaqStore.BlockQuestionNonEmpty | rag_engine.py:17-21 | a kept block whose first line does not start with `Q:` has a non-empty question |
| FaqStore.IsKeywordLine | rag_engine.py:25 | `ln.strip().startswith('K:')`; `KeywordMarkerAfterSpace` states which lines pass |
| FaqStore.IsAnswerLine | rag_engine.py:27 | `ln.strip().startswith('A:')`; `AnswerLineDropsPrefix` states which lines pass |
| FaqStore.KeywordMarkerAfterSpace | rag_engine.py:25 | a `K:` marker after any whitespace indent makes a keyword line |
| FaqStore.MarkersExclusive | rag_engine.py:25-30 | no line is both a keyword line and an answer line, so the order of the two tests does not matter |
| FaqStore.KeywordList | rag_engine.py:26 | one keyword per comma-separated piece (at least one), each trimmed and lowercased |
| FaqStore.KeywordListOfTwo | rag_engine.py:26 | two comma-separated pieces give exactly their trimmed, lowercased forms, in order |
| FaqStore.KeywordListAt | rag_engine.py:26 | for any number of pieces, keyword `i` is piece `i` of the line without `K:`, split at commas, trimmed and lowercased |
| FaqStore.KeywordsOf | rag_engine.py:22-26 | every keyword of a block is trimmed and lowercase |
| FaqStore.LastKeywordLineWins | rag_engine.py:22-26 | the keywords are those of the last `K:` line; later lines do not change them |
| FaqStore.NoKeywordLineNoKeywords | rag_engine.py:22 | with no `K:` line the keyword list is empty |
| FaqStore.AnswerLineWithoutMarker | rag_engine.py:29-30 | a line whose trimmed form does not start with `A:` is only trimmed |
| FaqStore.AnswerLineDropsPrefix | rag_engine.py:27-28 | for every `rest` and whitespace indent, `indent + "A:" + rest` is an answer line whose text is `rest` with every `A:` removed, then trimmed |
| FaqStore.AnswerLine | rag_engine.py:27-30 | the cleaned answer line is trimmed |
| FaqStore.AnswerLines | rag_engine.py:23-30 | at most one answer line per input line, each trimmed |
| FaqStore.AnswerLinesOfOne | rag_engine.py:25-30 | a `K:` line contributes nothing to the answer; any other line contributes exactly its cleaned form |
| FaqStore.AnswerLinesConcat | rag_engine.py:24-30 | each part of a block contributes its own answer lines, in order |
| FaqStore.Answer | rag_engine.py:31 | the joined answer is trimmed |
| FaqStore.ParseBlock | rag_engine.py:17-32 | a record's question and answer are trimmed, and its keywords are trimmed and lowercase |
| FaqStore.ParseAll | rag_engine.py:16-32 | exactly one record per block |
| FaqStore.ParseAllAt | rag_engine.py:16-32 | record `i` is parsed from block `i` |
| FaqStore.Faqs | rag_engine.py:10-33 | a missing file gives no records; otherwise one record per block of the trimmed text |
| FaqStore.LoadFaqs | rag_engine.py:10-33 | the loop builds the records of the trimmed text's blocks, in order; a missing file gives `[]` |
| FaqStore.LoadBlock | rag_engine.py:17-32 | the per-block body, with the three line cases, computes the record of the block |
| KeywordMatcher.Score | rag_engine.py:39-42 | the score is even and at most `2*|k|`; it is 0 exactly when no keyword hits and `2*|k|` exactly when all hit |
| KeywordMatcher.ScoreConcat | rag_engine.py:40-42 | the score of a keyword list is the sum of the scores of its parts, so duplicates count again |
| KeywordMatcher.Hits | rag_engine.py:41 | `kw and kw in ui`: an empty keyword never hits; `Score` states what hits add up to |
| KeywordMatcher.Scored | rag_engine.py:37-44 | every kept match is a record of the corpus with its true score, and that score reaches the minimum |
| KeywordMatcher.ScoredComplete | rag_engine.py:43-44 | every record that reaches the minimum is among the matches |
| KeywordMatcher.ScoredConcat | rag_engine.py:38-44 | each part of the corpus contributes its own matches, in corpus order |
| KeywordMatcher.Insert | rag_engine.py:45 | one insertion step of the sort is a permutation of the list plus the new match |
| KeywordMatcher.InsertSorted | rag_engine.py:45 | an insertion keeps scores non-increasing |
| KeywordMatcher.InsertStable | rag_engine.py:45 | an insertion keeps the matches of every score in order, with the new one after them |
| KeywordMatcher.SortByScoreDesc | rag_engine.py:45 | the sort is a permutation of its input |
| KeywordMatcher.SortByScoreDescSorted | rag_engine.py:45 | the sorted list has non-increasing scores |
| KeywordMatcher.SortByScoreDescStable | rag_engine.py:45 | the sort is stable: for every score, the matches with that score keep their input order |
| KeywordMatcher.KeywordMatches | rag_engine.py:35-46 | the result of `keyword_match` is ordered by score, is a permutation of the qualifying matches of the lowercased query, and keeps corpus order within each score |
| KeywordMatcher.KeywordMatch | rag_engine.py:35-46 | the loops compute the sorted matches: ordered by score, and exactly the matches of the records that qualify |
| VectorIndex.EnsureVectorStore | rag_engine.py:48-52 | no libraries gives `False`, whatever the file; a missing file with the libraries raises; otherwise the chunks of the file are indexed, each non-empty and trimmed |
| VectorIndex.UnavailableIgnoresFile | rag_engine.py:49-51 | the guard comes before the read: without the libraries the outcome does not depend on the file |
| VectorIndex.ChunksAreFaqBlocks | rag_engine.py:52 | the chunks are exactly the blocks `load_faqs` parses, although only `load_faqs` strips the text before splitting |
| VectorIndex.OneChunkPerRecord | rag_engine.py:52 | one chunk per FAQ record, and record `i` is parsed from chunk `i` |
| AnswerResolver.CallOpenAI | main.py:143-154 | `None` exactly when there is no client or the request raises; otherwise the reply trimmed |
| AnswerResolver.CallGemini | main.py:156-164 | `None` exactly when there is no client or the request raises; otherwise the reply unchanged |
| AnswerResolver.Truthy | main.py:188-198 | Python truthiness of a reply: neither `None` nor `""`; it decides both `or` and `if not answer` |
| AnswerResolver.ContextPrompt | main.py:180-187 | the context template, character for character; `ContextPromptMentions` states what it contains |
| AnswerResolver.PlainPrompt | main.py:191-195 | the plain template, character for character; `PlainPromptMentions` and `PlainPromptHasNoHeader` state what it contains |
| AnswerResolver.PromptFor | main.py:178-196 | the context prompt when the search found passages, the plain one otherwise; `PromptFollowsSearch` states it for the resolver |
| AnswerResolver.ContextPromptMentions | main.py:177-187 | the context prompt contains `CONTEXT:`, the passages joined by `\n---\n`, the query and the support address |
| AnswerResolver.PlainPromptMentions | main.py:189-195 | the plain prompt contains the query and the support address, and no `CONTEXT:` unless the query or the address brings one |
| AnswerResolver.PlainPromptHasNoHeader | main.py:191-195 | the fixed text of the plain template never forms `CONTEXT:` around the query and address |
| AnswerResolver.HitAnswer | main.py:173-174 | the keyword answer starts with `### ` and contains the record's question and answer |
| AnswerResolver.Fallback | main.py:198-199 | the escalation message is non-empty and names the support address |
| AnswerResolver.AskProviders | main.py:188 | the primary is always asked; the secondary is asked exactly when the primary's result is falsy; a truthy reply exists exactly when one of them gave one |
| AnswerResolver.Tiers | main.py:170-196 | the keyword hit, else the providers on the prompt the search leads to; `Resolve` and `FirstNonEmptyReplyWins` state its outcome |
| AnswerResolver.Resolve | main.py:170-199 | the answer is never empty; a keyword hit gives the hit answer and calls nothing; otherwise the search is called first, then one or two providers |
| AnswerResolver.PromptFollowsSearch | main.py:177-196 | without a hit, the providers get the context prompt exactly when the search returned passages, and the plain prompt otherwise |
| AnswerResolver.FirstNonEmptyReplyWins | main.py:188-199 | the secondary is asked exactly when the primary gave nothing usable; the answer is the first truthy reply, or the escalation message |
| ChatSession.Reversed | main.py:206 | element `i` of the reversal is element `|s|-1-i` of the input |
| ChatSession.ReversedAppend | main.py:206 | the turn appended last is displayed first, above the earlier turns in their display order |
| ChatSession.ReversedTwice | main.py:206 | reversing twice gives the log back in the order it was written |
| ChatSession.AnswerFor | main.py:168-199 | the answer a Send appends is never empty, and is the best keyword match's answer whenever `keyword_match` finds one |
| ChatSession.Session.constructor | main.py:135-136 | a new session's history is empty |
| ChatSession.Session.Send | main.py:168-201 | an empty query changes nothing; otherwise exactly one turn `(query, answer)` is appended and earlier turns are unchanged, and the log stays valid |
| ChatSession.Session.Displayed | main.py:206 | the loop yields the history newest first |
| Scenarios.PasswordRecordHits | rag_engine.py:36-42 | the keywords `password, reset` score 2 against "I forgot my password" |
| Scenarios.PasswordRecordMisses | rag_engine.py:36-42 | the same keywords score 0 against "billing question" |
| Scenarios.HigherScoreFirst | rag_engine.py:45 | of matches scoring 2 and 4, the one scoring 4 comes first |
| Scenarios.ThreeLineFileIsOneBlock | rag_engine.py:13-14 | three non-empty lines with no blank line between them make one block |
| Scenarios.ParseThreeLines | rag_engine.py:17-31 | a question line, a keyword line and an answer line give `Faq(question, keywords, answer line)` |
| Scenarios.QuestionLine | rag_engine.py:18-19 | `Q: w` asks `w` |
| Scenarios.KeywordLineOf | rag_engine.py:25-26 | `K: u, v` is a keyword line giving `[u, v]` |
| Scenarios.AnswerLineOf | rag_engine.py:27-28 | `A: w` answers `w` and is not a keyword line |
| Scenarios.OfficeHoursLoaded | rag_engine.py:10-33 | the office-hours file loads as its single record |
| Scenarios.OfficeHoursMatched | rag_engine.py:35-46 | "What are your hours?" matches that record with score 2 |
| Scenarios.OfficeHoursAnswered | main.py:170-174 | end to end, the answer is the record's question and answer, and nothing else is called |

## Left out

- The Streamlit page is not modelled: layout, CSS, header, sidebar, logo, the rendering of each chat turn (`main.py:207-210`) and the FAQ preview (`main.py:212-215`). It is output only.
- The `st.button("Send")` press is modelled as one call of `Session.Send`.
- `st.rerun()` is not modelled. The history surviving reruns in `st.session_state` is the `Session` object.
- Writing an uploaded FAQ file to disk is not modelled; it is I/O.
- Loading `.env` and API keys is not modelled. A provider is a function to `Backend`. For OpenAI, a missing key means no client is created, which is `Unconfigured`. `call_gemini` tests only whether the library imported (`main.py:157`), so a missing Gemini key makes the request raise, which is `Raises`.
- The OpenAI and Gemini requests are parameters. Each provider is a function from prompt to `Backend`: no client, the request raising, or a reply. The model name, `max_tokens` and the message structure are not modelled.
- `OpenAIEmbeddings`, `Chroma.from_texts`, `persist` and `similarity_search` are not modelled; they are foreign library calls. `ensure_vectorstore` is modelled up to the list of chunks it would store. The store's contents, the persist directory and re-indexing over an existing store are not modelled.
- ChatSession.Session.Send: the search is a total parameter, so every Send with a query appends one turn. In the source, `semantic_search` has no `try` around `OpenAIEmbeddings()`, `Chroma(...)` and `similarity_search` (`rag_engine.py:61-63`). If any of these raises, the handler stops at `main.py:177`, before the append at `main.py:201`, and no turn is logged. That exception path is not modelled.
- `semantic_search` is a parameter from query and `top_k` to a list of passages. Its normalisation of `page_content` depends on introspecting library objects, so it is not modelled.
- Reading a file: the FAQ text is taken as `read()` returns it, with `None` for a missing file. Newline translation and UTF-8 decoding are not modelled.
- PyStr.Lower: lowercases ASCII `A`-`Z` only. This is weaker than Python's full Unicode `str.lower()`, because there are no Unicode case tables to model.
- PyStr.Split: only the non-empty-separator form is modelled. Every call site passes a non-empty literal; `split()` without arguments is never used.
- The `item.get('k', [])` default is not modelled separately. Every record that `load_faqs` builds has a `k` field, so the default never applies.
