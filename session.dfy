/** The interview session: the flags `interview_started` and
    `analysis_complete`, the generated question set and the message history,
    and the three user actions that move them (Start Interview, Send,
    Generate Analysis). The question generator, the chat model and the
    analysis crew are foreign calls: their results arrive as parameters,
    `None` standing for a call that raised before returning. */
module Session {
  import opened History

  datatype Option<T> = None | Some(value: T)

  /** The phrase whose presence in a reply unlocks the analysis. */
  const ClosingPhrase: string := "Thank You"

  predicate OccursAt(s: string, pat: string, i: int)
  {
    0 <= i && i + |pat| <= |s| && s[i..i + |pat|] == pat
  }

  lemma OccursShift(s: string, pat: string, i: int)
    requires |s| > 0 && i >= 0
    ensures OccursAt(s[1..], pat, i) <==> OccursAt(s, pat, i + 1)
  {
    if 0 <= i && i + 1 + |pat| <= |s| {
      assert s[1..][i..i + |pat|] == s[i + 1..i + 1 + |pat|];
    }
  }

  /** Python's `pat in s` on strings: a case-sensitive substring test, true
      for the empty pattern. */
  function Contains(s: string, pat: string): (r: bool)
    ensures r <==> exists i :: OccursAt(s, pat, i)
    decreases |s|
  {
    if |s| < |pat| then
      assert forall i :: !OccursAt(s, pat, i);
      false
    else if s[..|pat|] == pat then
      assert OccursAt(s, pat, 0);
      true
    else
      assert forall i :: OccursAt(s, pat, i) ==> i > 0 && OccursAt(s[1..], pat, i - 1) by {
        forall i | OccursAt(s, pat, i) ensures i > 0 && OccursAt(s[1..], pat, i - 1) {
          if i > 0 {
            OccursShift(s, pat, i - 1);
          }
        }
      }
      assert forall i :: OccursAt(s[1..], pat, i) ==> OccursAt(s, pat, i + 1) by {
        forall i | OccursAt(s[1..], pat, i) ensures OccursAt(s, pat, i + 1) {
          assert i >= 0;
          OccursShift(s, pat, i);
        }
      }
      Contains(s[1..], pat)
  }

  /** Some assistant turn of the log carries the closing phrase. */
  predicate HasClosingTurn(log: seq<Turn>)
  {
    exists i :: 0 <= i < |log| && log[i].role == Assistant && Contains(log[i].content, ClosingPhrase)
  }

  /** Some exchange's reply carries the closing phrase. */
  predicate AnyClosing(xs: seq<Exchange>)
  {
    exists i :: 0 <= i < |xs| && Contains(xs[i].aiResponse, ClosingPhrase)
  }

  /** The abstract session: the history's log and the session-state keys. */
  datatype SessionState = SessionState(
    log: seq<Turn>,
    started: bool,
    analysisComplete: bool,
    questions: Option<string>)

  /** The state the first run of the page sets up. */
  const Fresh: SessionState := SessionState([], false, false, None)

  /** What holds in every reachable session: the log is whole alternating
      pairs, questions exist exactly once the interview has started, nothing
      is logged before the start, and the analysis is unlocked only after a
      reply that carried the closing phrase. */
  predicate Consistent(st: SessionState)
  {
    Alternating(st.log) &&
    (st.started <==> st.questions.Some?) &&
    (st.log != [] ==> st.started) &&
    (st.analysisComplete ==> st.started && HasClosingTurn(st.log))
  }

  /** Start Interview: offered only when both documents are uploaded and the
      interview has not started; a successful question generation stores the
      questions and sets the flag. */
  function StartStep(st: SessionState, jdPresent: bool, resumePresent: bool, generated: Option<string>): (r: SessionState)
    ensures st.started || !(jdPresent && resumePresent) || generated.None? ==> r == st
    ensures r != st ==> r.started && r.questions == generated
    ensures r.log == st.log && r.analysisComplete == st.analysisComplete
  {
    if jdPresent && resumePresent && !st.started && generated.Some? then
      st.(questions := generated, started := true)
    else
      st
  }

  /** Send is offered only with both documents uploaded and the interview
      started, and acts only on a non-empty response. */
  predicate SendAccepted(st: SessionState, jdPresent: bool, resumePresent: bool, userResponse: string)
  {
    jdPresent && resumePresent && st.started && userResponse != ""
  }

  /** Send: a reply from the chat model appends the pair and unlocks the
      analysis when it carries the closing phrase. */
  function SendStep(st: SessionState, jdPresent: bool, resumePresent: bool, userResponse: string, reply: Option<string>): (r: SessionState)
    ensures r.started == st.started && r.questions == st.questions
    ensures st.log <= r.log
    ensures |r.log| == |st.log| + if SendAccepted(st, jdPresent, resumePresent, userResponse) && reply.Some? then 2 else 0
    ensures r.analysisComplete <==>
      st.analysisComplete ||
      (SendAccepted(st, jdPresent, resumePresent, userResponse) && reply.Some? && Contains(reply.value, ClosingPhrase))
  {
    if SendAccepted(st, jdPresent, resumePresent, userResponse) && reply.Some? then
      st.(log := st.log + PairOf(Exchange(userResponse, reply.value)),
          analysisComplete := st.analysisComplete || Contains(reply.value, ClosingPhrase))
    else
      st
  }

  /** The user actions of one page run each. */
  datatype Action =
    | Start(jdPresent: bool, resumePresent: bool, generated: Option<string>)
    | Send(jdPresent: bool, resumePresent: bool, userResponse: string, reply: Option<string>)
    | GenerateAnalysis(jdPresent: bool, resumePresent: bool)

  /** One page run with one user action. Nothing is undone: the log only
      grows, by the turns of the exchange the action accepted, and neither
      flag nor the question set is ever reset. */
  function Step(st: SessionState, a: Action): (r: SessionState)
    ensures st.log <= r.log && |r.log| == |st.log| + 2 * |Appended(st, a)|
    ensures st.started ==> r.started && r.questions == st.questions
    ensures st.analysisComplete ==> r.analysisComplete
  {
    match a
    case Start(jd, resume, generated) => StartStep(st, jd, resume, generated)
    case Send(jd, resume, userResponse, reply) => SendStep(st, jd, resume, userResponse, reply)
    case GenerateAnalysis(_, _) => st
  }

  /** A session's page runs, one action each: the log grows by two turns
      per accepted exchange. */
  function Run(st: SessionState, acts: seq<Action>): (r: SessionState)
    ensures |r.log| == |st.log| + 2 * |Accepted(st, acts)|
    decreases |acts|
  {
    if acts == [] then st else Run(Step(st, acts[0]), acts[1..])
  }

  /** The exchange one action appends to the history, if any. */
  function Appended(st: SessionState, a: Action): seq<Exchange>
  {
    match a
    case Send(jd, resume, userResponse, reply) =>
      if SendAccepted(st, jd, resume, userResponse) && reply.Some? then [Exchange(userResponse, reply.value)] else []
    case _ => []
  }

  /** The exchanges a run appends, in order. */
  function Accepted(st: SessionState, acts: seq<Action>): seq<Exchange>
    decreases |acts|
  {
    if acts == [] then [] else Appended(st, acts[0]) + Accepted(Step(st, acts[0]), acts[1..])
  }

  /** A Start action that would start a not-yet-started interview. */
  predicate StartSucceeds(a: Action)
  {
    a.Start? && a.jdPresent && a.resumePresent && a.generated.Some?
  }

  /** How many times a run stores a generated question set. */
  function Generations(st: SessionState, acts: seq<Action>): nat
    decreases |acts|
  {
    if acts == [] then 0
    else
      var next := Step(st, acts[0]);
      (if !st.started && next.started then 1 else 0) + Generations(next, acts[1..])
  }

  /** Proof helper: associativity of `+`, stated so that it can be
      instantiated cheaply in `RunLog`. */
  lemma SeqAssoc<T>(a: seq<T>, b: seq<T>, c: seq<T>)
    ensures (a + b) + c == a + (b + c)
  {
  }

  lemma StepAppends(st: SessionState, a: Action)
    ensures Step(st, a).log == st.log + Transcript(Appended(st, a))
  {
    if a.Send? && |Appended(st, a)| == 1 {
      TranscriptSnoc([], Appended(st, a)[0]);
      assert [] + Appended(st, a) == Appended(st, a);
    }
  }

  lemma StepUnlocks(st: SessionState, a: Action)
    ensures Step(st, a).analysisComplete <==> st.analysisComplete || AnyClosing(Appended(st, a))
  {
    var here := Appended(st, a);
    if |here| == 1 {
      assert AnyClosing(here) <==> Contains(here[0].aiResponse, ClosingPhrase);
    }
  }

  /** Every action keeps the session consistent. */
  lemma StepKeepsConsistent(st: SessionState, a: Action)
    requires Consistent(st)
    ensures Consistent(Step(st, a))
  {
    var next := Step(st, a);
    if a.Send? && next != st {
      var reply := a.reply.value;
      var pair := PairOf(Exchange(a.userResponse, reply));
      assert next.log == st.log + pair;
      var n := |st.log|;
      assert forall i :: 0 <= i < n ==> next.log[i] == st.log[i];
      assert Alternating(next.log) by {
        forall i | 0 <= i < |next.log|
          ensures next.log[i].role == (if i % 2 == 0 then User else Assistant)
        {
          if i >= n {
            assert next.log[i] == pair[i - n];
          }
        }
      }
      if next.analysisComplete {
        if st.analysisComplete {
          var k :| 0 <= k < n && st.log[k].role == Assistant && Contains(st.log[k].content, ClosingPhrase);
          assert next.log[k] == st.log[k];
        } else {
          assert next.log[n + 1] == Turn(Assistant, reply);
        }
      }
    }
  }

  /** A run of actions from a consistent state ends in a consistent state. */
  lemma {:induction false} RunKeepsConsistent(st: SessionState, acts: seq<Action>)
    requires Consistent(st)
    ensures Consistent(Run(st, acts))
    decreases |acts|
  {
    if acts != [] {
      StepKeepsConsistent(st, acts[0]);
      RunKeepsConsistent(Step(st, acts[0]), acts[1..]);
    }
  }

  /** Proof helper: one unfolding of `Run` and `Accepted`, kept out of the
      inductive lemmas to keep them cheap. */
  lemma RunUnfold(st: SessionState, acts: seq<Action>)
    requires acts != []
    ensures Run(st, acts) == Run(Step(st, acts[0]), acts[1..])
    ensures Accepted(st, acts) == Appended(st, acts[0]) + Accepted(Step(st, acts[0]), acts[1..])
  {
  }

  /** The log after a run is the old log followed by the turns of exactly
      the accepted exchanges, in order: two turns per accepted Send. */
  lemma {:induction false} RunLog(st: SessionState, acts: seq<Action>)
    ensures Run(st, acts).log == st.log + Transcript(Accepted(st, acts))
    decreases |acts|
  {
    if acts == [] {
      assert st.log + [] == st.log;
    } else {
      var next := Step(st, acts[0]);
      var here, rest := Appended(st, acts[0]), Accepted(next, acts[1..]);
      RunUnfold(st, acts);
      StepAppends(st, acts[0]);
      RunLog(next, acts[1..]);
      TranscriptAppend(here, rest);
      SeqAssoc(st.log, Transcript(here), Transcript(rest));
    }
  }

  /** Every session reachable from the fresh one is consistent. */
  lemma ReachableConsistent(acts: seq<Action>)
    ensures Consistent(Run(Fresh, acts))
  {
    RunKeepsConsistent(Fresh, acts);
  }

  /** Nothing is ever undone: the log only grows at its end, and once set
      neither flag is cleared nor the question set replaced. */
  lemma {:induction false} RunMonotone(st: SessionState, acts: seq<Action>)
    ensures st.log <= Run(st, acts).log
    ensures st.started ==> Run(st, acts).started && Run(st, acts).questions == st.questions
    ensures st.analysisComplete ==> Run(st, acts).analysisComplete
    decreases |acts|
  {
    if acts != [] {
      RunMonotone(Step(st, acts[0]), acts[1..]);
    }
  }

  /** The interview has started after a run exactly when it had started
      before or some Start action had both documents and a generated
      question set. */
  lemma {:induction false} StartedIff(st: SessionState, acts: seq<Action>)
    ensures Run(st, acts).started <==>
      st.started || exists i :: 0 <= i < |acts| && StartSucceeds(acts[i])
    decreases |acts|
  {
    if acts != [] {
      var next := Step(st, acts[0]);
      StartedIff(next, acts[1..]);
      RunMonotone(next, acts[1..]);
      if exists i :: 0 <= i < |acts| && StartSucceeds(acts[i]) {
        var i :| 0 <= i < |acts| && StartSucceeds(acts[i]);
        if i > 0 {
          assert StartSucceeds(acts[1..][i - 1]);
        }
      }
      forall i | 0 <= i < |acts| - 1 && StartSucceeds(acts[1..][i])
        ensures StartSucceeds(acts[i + 1])
      {
      }
    }
  }

  /** Questions are generated and stored at most once per session, however
      often Start is pressed. */
  lemma {:induction false} GeneratedAtMostOnce(st: SessionState, acts: seq<Action>)
    ensures Generations(st, acts) <= (if st.started then 0 else 1)
    decreases |acts|
  {
    if acts != [] {
      var next := Step(st, acts[0]);
      GeneratedAtMostOnce(next, acts[1..]);
    }
  }

  /** A closing reply occurs in `xs + ys` exactly when it occurs in `xs`
      or in `ys`. */
  lemma AnyClosingAppend(xs: seq<Exchange>, ys: seq<Exchange>)
    ensures AnyClosing(xs + ys) <==> AnyClosing(xs) || AnyClosing(ys)
  {
    var all := xs + ys;
    if AnyClosing(ys) {
      var k :| 0 <= k < |ys| && Contains(ys[k].aiResponse, ClosingPhrase);
      assert all[|xs| + k] == ys[k];
    }
    if AnyClosing(xs) {
      var k :| 0 <= k < |xs| && Contains(xs[k].aiResponse, ClosingPhrase);
      assert all[k] == xs[k];
    }
    if AnyClosing(all) {
      var k :| 0 <= k < |all| && Contains(all[k].aiResponse, ClosingPhrase);
      if k < |xs| {
        assert all[k] == xs[k];
      } else {
        assert all[k] == ys[k - |xs|];
      }
    }
  }

  /** After a run the analysis is unlocked exactly when it was unlocked
      before or some accepted reply carried the closing phrase. */
  lemma {:induction false} UnlockedIff(st: SessionState, acts: seq<Action>)
    ensures Run(st, acts).analysisComplete <==> st.analysisComplete || AnyClosing(Accepted(st, acts))
    decreases |acts|
  {
    if acts != [] {
      var next := Step(st, acts[0]);
      RunUnfold(st, acts);
      UnlockedIff(next, acts[1..]);
      StepUnlocks(st, acts[0]);
      AnyClosingAppend(Appended(st, acts[0]), Accepted(next, acts[1..]));
    }
  }

  /** The page's session state, kept across runs: the history object and the
      three session-state keys. */
  class InterviewSession {
    const history: MessageHistory
    var interviewStarted: bool
    var analysisComplete: bool
    var questions: Option<string>

    function State(): SessionState
      reads this, history
    {
      SessionState(history.turns, interviewStarted, analysisComplete, questions)
    }

    ghost predicate Valid()
      reads this, history
    {
      history.Valid() && Consistent(State())
    }

    /** The first run of the page: empty history, both flags false, no
        questions yet. */
    constructor ()
      ensures Valid() && fresh(history)
      ensures State() == Fresh
    {
      history := new MessageHistory();
      interviewStarted := false;
      analysisComplete := false;
      questions := None;
    }

    /** Start Interview. `generated` is the question-generation crew's
        output, `None` if it raised. */
    method Start(jdPresent: bool, resumePresent: bool, generated: Option<string>)
      requires Valid()
      modifies this
      ensures Valid()
      ensures State() == StartStep(old(State()), jdPresent, resumePresent, generated)
    {
      if jdPresent && resumePresent {
        if !interviewStarted {
          match generated
          case Some(q) =>
            questions := Some(q);
            interviewStarted := true;
          case None =>
        }
      }
    }

    /** Send. `reply` is the chat model's answer to `userResponse`, `None`
        if the call raised. */
    method Send(jdPresent: bool, resumePresent: bool, userResponse: string, reply: Option<string>)
      requires Valid()
      modifies this, history
      ensures Valid()
      ensures State() == SendStep(old(State()), jdPresent, resumePresent, userResponse, reply)
    {
      ghost var before := State();
      if jdPresent && resumePresent && interviewStarted && userResponse != "" {
        match reply
        case Some(content) =>
          history.Add(userResponse, content);
          if Contains(content, ClosingPhrase) {
            analysisComplete := true;
          }
        case None =>
      }
      StepKeepsConsistent(before, Action.Send(jdPresent, resumePresent, userResponse, reply));
    }

    /** Generate Analysis: offered only once the analysis is unlocked; it
        hands the whole interview script, which then holds the closing
        reply, to the analysis crew. Returns that script, or `None` when
        the button is not offered. */
    method GenerateAnalysis(jdPresent: bool, resumePresent: bool) returns (script: Option<seq<Turn>>)
      requires Valid()
      ensures script.Some? <==> jdPresent && resumePresent && interviewStarted && analysisComplete
      ensures script.Some? ==> script.value == history.turns
      ensures script.Some? ==> |script.value| >= 2 && HasClosingTurn(script.value)
    {
      if jdPresent && resumePresent && interviewStarted && analysisComplete {
        script := Some(history.turns);
      } else {
        script := None;
      }
    }
  }

  /** The scripted interview: questions generated, then replies "Q1", "Q2"
      and "Thank You"; the analysis unlocks after the third Send and not
      before, and the log holds three user and three assistant turns. */
  lemma ScriptedInterview()
    ensures var s1 := StartStep(Fresh, true, true, Some("Q1 Q2"));
            var s2 := SendStep(s1, true, true, "a0", Some("Q1"));
            var s3 := SendStep(s2, true, true, "a1", Some("Q2"));
            var s4 := SendStep(s3, true, true, "a2", Some("Thank You"));
            s1.started && !s3.analysisComplete && s4.analysisComplete &&
            s4.log == Transcript([Exchange("a0", "Q1"), Exchange("a1", "Q2"), Exchange("a2", "Thank You")])
  {
    var s1 := StartStep(Fresh, true, true, Some("Q1 Q2"));
    var s2 := SendStep(s1, true, true, "a0", Some("Q1"));
    var s3 := SendStep(s2, true, true, "a1", Some("Q2"));
    var s4 := SendStep(s3, true, true, "a2", Some("Thank You"));
    assert Contains("Thank You", ClosingPhrase) by {
      assert OccursAt("Thank You", ClosingPhrase, 0);
    }
    var xs := [Exchange("a0", "Q1"), Exchange("a1", "Q2"), Exchange("a2", "Thank You")];
    assert xs[..2][..1] == [xs[0]];
    assert [xs[0]][..0] == [];
  }
}
