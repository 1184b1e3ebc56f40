/** The interview's message history: an append-only log of (role, content)
    turns, filled one user/assistant pair at a time. */
module History {

  datatype Role = User | Assistant

  /** One stored entry of the log: `{'role': ..., 'content': ...}`. */
  datatype Turn = Turn(role: Role, content: string)

  /** The two arguments of one `add` call: the candidate's message and the
      interviewer's reply. */
  datatype Exchange = Exchange(userMessage: string, aiResponse: string)

  /** The two turns one `add` call appends, user first. */
  function PairOf(e: Exchange): seq<Turn>
  {
    [Turn(User, e.userMessage), Turn(Assistant, e.aiResponse)]
  }

  /** The log that `add` calls with the exchanges `xs`, in this order, build
      from an empty history. */
  function Transcript(xs: seq<Exchange>): (log: seq<Turn>)
    ensures |log| == 2 * |xs|
  {
    if xs == [] then [] else Transcript(xs[..|xs| - 1]) + PairOf(xs[|xs| - 1])
  }

  /** Whole pairs only, and roles alternate user, assistant, user, ... */
  predicate Alternating(log: seq<Turn>)
  {
    |log| % 2 == 0 &&
    forall i :: 0 <= i < |log| ==> log[i].role == (if i % 2 == 0 then User else Assistant)
  }

  /** Reads the exchanges back out of a log of whole pairs. */
  function Exchanges(log: seq<Turn>): (xs: seq<Exchange>)
    requires |log| % 2 == 0
    ensures |xs| == |log| / 2
  {
    if log == [] then []
    else Exchanges(log[..|log| - 2]) + [Exchange(log[|log| - 2].content, log[|log| - 1].content)]
  }

  lemma TranscriptSnoc(xs: seq<Exchange>, e: Exchange)
    ensures Transcript(xs + [e]) == Transcript(xs) + PairOf(e)
  {
    assert (xs + [e])[..|xs|] == xs;
  }

  /** Adding the exchanges `ys` after `xs` appends their turns after the
      turns of `xs`: the earlier log is never rewritten. */
  lemma {:induction false} TranscriptAppend(xs: seq<Exchange>, ys: seq<Exchange>)
    ensures Transcript(xs + ys) == Transcript(xs) + Transcript(ys)
  {
    if ys == [] {
      assert xs + ys == xs;
    } else {
      var init, last := ys[..|ys| - 1], ys[|ys| - 1];
      assert ys == init + [last];
      assert xs + ys == (xs + init) + [last];
      TranscriptAppend(xs, init);
      TranscriptSnoc(xs + init, last);
      TranscriptSnoc(init, last);
    }
  }

  /** Turn `i` of the log is the user message (even `i`) or the reply (odd
      `i`) of exchange `i / 2`, stored verbatim. */
  lemma {:induction false} TranscriptAt(xs: seq<Exchange>, i: int)
    requires 0 <= i < 2 * |xs|
    ensures Transcript(xs)[i] ==
      if i % 2 == 0 then Turn(User, xs[i / 2].userMessage) else Turn(Assistant, xs[i / 2].aiResponse)
  {
    var n := |xs|;
    if i < 2 * (n - 1) {
      TranscriptAt(xs[..n - 1], i);
    }
  }

  /** Every log built by `add` calls alternates user/assistant, starting
      with the user. */
  lemma TranscriptAlternates(xs: seq<Exchange>)
    ensures Alternating(Transcript(xs))
  {
    var log := Transcript(xs);
    forall i | 0 <= i < |log|
      ensures log[i].role == (if i % 2 == 0 then User else Assistant)
    {
      TranscriptAt(xs, i);
    }
  }

  /** Reading a log back yields exactly the exchanges that built it. */
  lemma {:induction false} ExchangesOfTranscript(xs: seq<Exchange>)
    ensures Exchanges(Transcript(xs)) == xs
  {
    if xs != [] {
      var init, last := xs[..|xs| - 1], xs[|xs| - 1];
      var log := Transcript(xs);
      assert log[..|log| - 2] == Transcript(init);
      ExchangesOfTranscript(init);
      assert xs == init + [last];
    }
  }

  /** An alternating log ends in a user turn and an assistant turn, after
      an alternating log. */
  lemma AlternatingSplit(log: seq<Turn>)
    requires Alternating(log) && |log| >= 2
    ensures Alternating(log[..|log| - 2])
    ensures log == log[..|log| - 2] + PairOf(Exchange(log[|log| - 2].content, log[|log| - 1].content))
  {
    var n := |log|;
    var init := log[..n - 2];
    forall i | 0 <= i < |init|
      ensures init[i].role == (if i % 2 == 0 then User else Assistant)
    {
      assert init[i] == log[i];
    }
    assert log[n - 2].role == User && log[n - 1].role == Assistant;
  }

  /** Conversely, every alternating log is the one some `add` calls built. */
  lemma {:induction false} TranscriptOfExchanges(log: seq<Turn>)
    requires Alternating(log)
    ensures Transcript(Exchanges(log)) == log
  {
    if log != [] {
      var n := |log|;
      var init := log[..n - 2];
      var e := Exchange(log[n - 2].content, log[n - 1].content);
      AlternatingSplit(log);
      TranscriptOfExchanges(init);
      assert Exchanges(log) == Exchanges(init) + [e];
      TranscriptSnoc(Exchanges(init), e);
    }
  }

  /** The store itself. `turns` is the list the source keeps in `l1`;
      `exchanges` records the `add` calls that built it. */
  class MessageHistory {
    var turns: seq<Turn>
    ghost var exchanges: seq<Exchange>

    ghost predicate Valid()
      reads this
    {
      turns == Transcript(exchanges)
    }

    /** A fresh history is empty. */
    constructor ()
      ensures Valid()
      ensures turns == [] && exchanges == []
    {
      turns := [];
      exchanges := [];
    }

    /** Appends the user turn and then the assistant turn, contents kept
        verbatim (empty strings included); earlier turns are untouched. */
    method Add(userMessage: string, aiResponse: string)
      requires Valid()
      modifies this
      ensures Valid()
      ensures exchanges == old(exchanges) + [Exchange(userMessage, aiResponse)]
      ensures turns == old(turns) + [Turn(User, userMessage), Turn(Assistant, aiResponse)]
    {
      TranscriptSnoc(exchanges, Exchange(userMessage, aiResponse));
      turns := turns + [Turn(User, userMessage)];
      turns := turns + [Turn(Assistant, aiResponse)];
      exchanges := exchanges + [Exchange(userMessage, aiResponse)];
    }

    /** Returns the stored log without changing it: twice as many turns as
        `add` calls, alternating user/assistant, in insertion order. */
    method ShowHistory() returns (log: seq<Turn>)
      requires Valid()
      ensures log == turns
      ensures |log| == 2 * |exchanges| && Alternating(log)
      ensures Exchanges(log) == exchanges
    {
      log := turns;
      TranscriptAlternates(exchanges);
      ExchangesOfTranscript(exchanges);
    }

    /** Empties the history, whatever it held; clearing twice is the same as
        clearing once. */
    method Clear()
      modifies this
      ensures Valid()
      ensures turns == [] && exchanges == []
    {
      turns := [];
      exchanges := [];
    }
  }
}
