/** The chat log kept across reruns of the page: created empty once, grown by
    one turn per Send with a non-empty question, and shown newest first. */
module ChatSession {
  import opened FaqStore
  import opened KeywordMatcher
  import opened AnswerResolver

  /** One exchange `{'q': query, 'a': answer}`. */
  datatype Turn = Turn(q: string, a: string)

  /** The minimum score the Send handler uses: the default of `keyword_match`. */
  const DefaultMinScore: int := 1

  /** `s` read back to front. */
  function Reversed<T>(s: seq<T>): (r: seq<T>)
    ensures |r| == |s|
    ensures forall i :: 0 <= i < |s| ==> r[i] == s[|s| - 1 - i]
  {
    if s == [] then [] else [s[|s| - 1]] + Reversed(s[..|s| - 1])
  }

  /** The turn added last is shown first, above all the earlier ones in
      their own display order. */
  lemma {:induction false} ReversedAppend<T>(s: seq<T>, t: T)
    ensures Reversed(s + [t]) == [t] + Reversed(s)
  {
    assert (s + [t])[..|s + [t]| - 1] == s;
  }

  /** Reading twice back to front gives the log in the order it was written. */
  lemma {:induction false} ReversedTwice<T>(s: seq<T>)
    ensures Reversed(Reversed(s)) == s
  {
    var r := Reversed(Reversed(s));
    assert |r| == |s|;
    forall i | 0 <= i < |s| ensures r[i] == s[i] {
      assert r[i] == Reversed(s)[|s| - 1 - i];
    }
  }

  /** The answer the Send handler gives to `query`: never empty, and the
      best keyword match's answer when there is one. */
  function AnswerFor(query: string, items: seq<Faq>, search: (string, nat) -> seq<string>,
                     primary: string -> Backend, secondary: string -> Backend, email: string): (r: string)
    ensures r != []
    ensures var ms := KeywordMatches(query, items, DefaultMinScore);
      ms != [] ==> r == HitAnswer(ms[0].item)
  {
    Resolve(query, KeywordMatches(query, items, DefaultMinScore), search, primary, secondary, email).answer
  }

  /** The `history` list of the session state. */
  class Session {
    var history: seq<Turn>

    /** Every logged turn has a question and an answer. */
    predicate Valid()
      reads this
    {
      forall i :: 0 <= i < |history| ==> history[i].q != [] && history[i].a != []
    }

    /** `st.session_state.history = []` on the first run. */
    constructor ()
      ensures history == [] && Valid()
    {
      history := [];
    }

    /** Pressing Send with `query` in the input box: nothing happens for an
        empty query; otherwise exactly one turn with its answer is appended
        and the earlier turns stay as they were. */
    method Send(query: string, items: seq<Faq>, search: (string, nat) -> seq<string>,
                primary: string -> Backend, secondary: string -> Backend, email: string)
      requires Valid()
      modifies this
      ensures Valid()
      ensures query == [] ==> history == old(history)
      ensures query != [] ==>
        history == old(history) + [Turn(query, AnswerFor(query, items, search, primary, secondary, email))]
      ensures forall i :: 0 <= i < |old(history)| ==> history[i] == old(history)[i]
    {
      if query == [] {
        return;
      }
      var matches := KeywordMatch(query, items, DefaultMinScore);
      var resolution := Resolve(query, matches, search, primary, secondary, email);
      history := history + [Turn(query, resolution.answer)];
    }

    /** The turns in the order the page shows them: newest first. */
    method Displayed() returns (shown: seq<Turn>)
      ensures shown == Reversed(history)
    {
      shown := [];
      var n := |history|;
      while n > 0
        invariant 0 <= n <= |history|
        invariant shown == Reversed(history[n..])
        decreases n
      {
        n := n - 1;
        assert history[n..] == [history[n]] + history[n + 1..];
        ReversedPrepend(history[n], history[n + 1..]);
        shown := shown + [history[n]];
      }
    }
  }

  /** Putting `t` in front of the log puts it at the back of the display. */
  lemma {:induction false} ReversedPrepend<T>(t: T, s: seq<T>)
    ensures Reversed([t] + s) == Reversed(s) + [t]
  {
    var r := Reversed([t] + s);
    assert |r| == |s| + 1;
    forall i | 0 <= i < |r| ensures r[i] == (Reversed(s) + [t])[i] {
      assert r[i] == ([t] + s)[|s| - i];
    }
  }
}
