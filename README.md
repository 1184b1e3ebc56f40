# AI interviewer: session bookkeeping

The AI interviewer is a single-page Streamlit application. It takes a job
description and a resume, has an agent crew generate interview questions,
runs a turn-based chat against a chat model, and once the interviewer has
said "Thank You" offers a suitability analysis. Nearly all of it is glue
around foreign services. This project models the part that is the
application's own logic:

- `history.dfy`, module `History`: the `MessageHistory` store. It is an
  append-only list of `{role, content}` turns: `add` appends a user turn and
  then an assistant turn, `show_history` returns the list, and `clear` empties
  it. The class `MessageHistory` keeps the list in the field `turns` (the
  source calls it `l1`). A ghost field `exchanges` records the `add` calls.
  `Valid()` ties the two together through `Transcript`, the log that a given
  sequence of `add` calls builds from empty. Lemmas about `Transcript` give:
  - the length is twice the number of calls;
  - turn `i` holds the user message or the reply of call `i / 2`, verbatim;
  - roles alternate, starting with the user;
  - appending more calls never rewrites earlier turns.
  `Exchanges` reads the calls back out of a log. The round-trip lemmas show
  that the logs `add` can build are exactly the alternating ones.
- `session.dfy`, module `Session`: the session state that `main` keeps across
  page runs. It holds the history, `interview_started`, `analysis_complete` and
  `questions`, and three user actions change it:
  - **Start Interview** needs both uploads and an interview that has not
    started. It stores the generated questions and sets the flag.
  - **Send** needs both uploads, a started interview and a non-empty
    response. It appends the pair and sets `analysis_complete` when the reply
    contains "Thank You".
  - **Generate Analysis** needs the unlock. It hands the whole history to the
    analysis crew.

  The class `InterviewSession` does these updates in place. Each method's
  `ensures` equates the new abstract `State()` with a pure step function
  (`StartStep`, `SendStep`) applied to the old state. `Run` folds the steps
  over any sequence of actions. The lemmas about `Run` cover:
  - the session invariant `Consistent`;
  - the exact log a run produces;
  - monotonicity of both flags and of the question set;
  - an if-and-only-if for when the interview has started;
  - an if-and-only-if for when the analysis is unlocked;
  - question generation at most once.

  `Contains` is Python's `in` on strings. Its contract states it as a
  substring test: case-sensitive, and true for the empty pattern.

Foreign calls become parameters. The crew's question set, the chat model's
reply and the presence of each upload are inputs. A foreign call that raises
is the value `None`: in the source the exception comes before any state
assignment, so such an action changes nothing.

Behaviour of the code worth noting:

- **Send needs both uploads.** The Send button sits inside
  `if jd_file and resume_file` (main.py:89). It is therefore offered only while
  both uploads are present, and not merely once the interview has started.
- **Questions start unset.** `questions` is not set at all before Start
  (main.py:75-82, 114). The model gives it the value `None` and proves that
  it is `Some` exactly when the interview has started.
- **No cleanup after a failure.** An exception in a foreign call aborts the
  page run. The temporary-file cleanup at main.py:161-165 is not in a
  `finally` block, so on that path it does not run.

## Model

| member | source | states |
|---|---|---|
| History.Transcript | main.py:21-23 | the log built by n `add` calls has exactly 2n turns |
| History.TranscriptSnoc | main.py:21-23 | one more `add` call appends its user and assistant turns after the existing log |
| History.TranscriptAppend | main.py:21-23 | the log of calls `xs` then `ys` is the log of `xs` followed by the log of `ys`, so earlier turns are never rewritten |
| History.TranscriptAt | main.py:21-23 | turn i is `{user, message}` of call i/2 when i is even and `{assistant, reply}` of call i/2 when i is odd, contents verbatim |
| History.TranscriptAlternates | main.py:21-23 | every log built by `add` calls has whole pairs and alternates user/assistant, starting with user |
| History.ExchangesOfTranscript | main.py:21-23 | reading a log back yields exactly the `add` calls that built it, in order |
| History.TranscriptOfExchanges | main.py:21-23 | every alternating log of whole pairs is the log of some sequence of `add` calls |
| History.MessageHistory.constructor | main.py:18-19 | a new history is empty |
| History.MessageHistory.Add | main.py:21-23 | the old log is kept as a prefix, followed by `{user, u}` then `{assistant, a}`, stored verbatim, and the store stays valid |
| History.MessageHistory.ShowHistory | main.py:25-26 | returns the stored log unchanged (no modifies clause); it has twice as many turns as `add` calls, alternates roles and reads back to those calls |
| History.MessageHistory.Clear | main.py:28-29 | the history is empty afterwards whatever it held, so clearing is idempotent |
| Session.Contains | main.py:139 | true exactly when the pattern occurs at some position of the string (case-sensitive substring, as Python's `in`) |
| Session.InterviewSession.constructor | main.py:75-82 | the session starts with an empty history, both flags false and no questions |
| Session.InterviewSession.Start | main.py:89-115 | acts only with both uploads present, the interview not started and the generation returning; it then stores the questions and sets the started flag, and otherwise changes nothing |
| Session.InterviewSession.Send | main.py:89-140 | acts only with both uploads present, the interview started, a non-empty response and a reply; it then appends the user/assistant pair and sets the analysis flag when the reply contains "Thank You", and otherwise changes nothing |
| Session.InterviewSession.GenerateAnalysis | main.py:142-157 | offered exactly when both uploads are present, the interview has started and the analysis is unlocked; the script handed over is the whole history, and it then holds an assistant turn containing "Thank You" |
| Session.StartStep | main.py:99-115 | Start changes nothing once started, without both uploads, or when generation raises; when it acts, it sets the started flag and stores exactly the generated questions; it never touches the log or the analysis flag |
| Session.SendStep | main.py:127-140 | Send keeps the started flag and the questions; the old log stays a prefix and grows by two turns exactly when the response is accepted and a reply returned; afterwards the analysis is unlocked exactly when it was before or that reply contains "Thank You" |
| Session.Step | main.py:89-140 | one page run with one action only appends to the log (two turns per accepted exchange) and never resets either flag or replaces the question set |
| Session.Run | main.py:89-140 | over any sequence of page runs the log grows by exactly two turns per accepted exchange |
| Session.StepAppends | main.py:127-137 | one action appends to the log exactly the turns of the exchange it accepted, if any |
| Session.StepUnlocks | main.py:137-140 | after one action the analysis is unlocked exactly when it was before or the accepted reply contains "Thank You" |
| Session.StepKeepsConsistent | main.py:75-140 | every action preserves the invariant: alternating log, questions set exactly when started, nothing logged before the start, and unlocked only with a "Thank You" assistant turn in the log |
| Session.RunKeepsConsistent | main.py:75-140 | any sequence of actions from a consistent state ends in a consistent state |
| Session.ReachableConsistent | main.py:75-140 | every session reachable from the fresh one (empty log, both flags false, no questions) is consistent |
| Session.RunLog | main.py:127-137 | after any run the log is the old log followed by the turns of exactly the accepted exchanges, in order, two per accepted Send |
| Session.RunMonotone | main.py:99-140 | the log only grows at its end; once set, `interview_started` and `analysis_complete` are never reset and the question set is never replaced |
| Session.StartedIff | main.py:89-115 | after a run the interview has started exactly when it had before or some Start had both uploads and a generated question set |
| Session.GeneratedAtMostOnce | main.py:99-115 | a question set is stored at most once per session, and never after the start |
| Session.UnlockedIff | main.py:137-140 | after a run the analysis is unlocked exactly when it was before or some accepted reply contains "Thank You" |
| Session.ScriptedInterview | main.py:99-140 | Start followed by the replies "Q1", "Q2" and "Thank You" leaves the analysis locked after two Sends and unlocked after the third, with the three pairs logged in order |

## Left out

- Streamlit rendering is not modelled: titles, headers, the chat display loop, text areas, buttons, spinners and file uploaders (main.py:73, 85-87, 118-126, 158-159). Button clicks and uploads are the actions' parameters.
- The temporary files `temp_jd.txt` and `temp_resume.pdf` are not modelled: writing them and removing them at the end of each run (main.py:91-94, 161-165) is filesystem I/O.
- The crewai agents, tasks, crews and `kickoff` (main.py:31-49, 96-97, 102-114, 145-157) are foreign calls. Their outputs are opaque parameters, and a call that raises is `None`.
- `initialize_llm`, `create_chat_chain` and `chain.invoke` (main.py:51-70, 129-136) are a network chat-model call behind library prompt templating. The reply is a parameter, so the prompt's instruction order is not modelled.
- Setting up the environment, sqlite and chromadb (main.py:1-14) is process configuration with no logic.
- The analysis report itself is not modelled: `GenerateAnalysis` returns the interview script handed to the crew, not the crew's output (main.py:157-159).
- `show_history` and the chain both receive the live list `l1` (main.py:26, 135). The model returns the log as a value, so aliasing and outside mutation of it are not captured.
- An exception in a foreign call is modelled as an action that changes nothing. The model does not capture that such an exception also ends the page run, including its file cleanup.
