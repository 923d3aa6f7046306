/** The run polling and reply extraction of `ask_agent`
    (dags/example_dag.py). The backend is given by what it answers: the
    sequence of run statuses (the first is the status returned when the run
    is created, each later one the result of one more `retrieve`) and the
    thread's message list, newest first. */
module Assistant {
  import opened Results

  /** The statuses after which a run does not change any more. */
  const TerminalStatuses: set<string> := {"completed", "failed", "cancelled", "expired"}

  /** The one terminal status after which a reply is read. */
  const Completed: string := "completed"

  /** The role of messages the assistant wrote. */
  const AssistantRole: string := "assistant"

  /** A thread message: its author's role and the text of each of its
      content blocks, in order. */
  datatype Message = Message(role: string, content: seq<string>)

  /** Why `ask_agent` raised. */
  datatype AskError =
    | RunFailed(status: string)  // the run ended in a terminal status other than "completed"
    | ResponseNotFound           // the run completed but no assistant message exists
    | NoContentBlock             // the newest assistant message has no content block to index

  /** Some status of the sequence is terminal: without it the polling loop,
      which has no deadline, never ends. */
  ghost predicate EventuallyTerminal(statuses: seq<string>)
  {
    exists i :: 0 <= i < |statuses| && statuses[i] in TerminalStatuses
  }

  /** The index of the first terminal status. */
  function FirstTerminal(statuses: seq<string>): (k: nat)
    requires EventuallyTerminal(statuses)
    ensures k < |statuses| && statuses[k] in TerminalStatuses
    ensures forall j :: 0 <= j < k ==> statuses[j] !in TerminalStatuses
  {
    if statuses[0] in TerminalStatuses then 0
    else
      assert EventuallyTerminal(statuses[1..]) by {
        var i :| 0 <= i < |statuses| && statuses[i] in TerminalStatuses;
        assert statuses[1..][i - 1] == statuses[i];
      }
      1 + FirstTerminal(statuses[1..])
  }

  /** The polling loop: keep retrieving the run while its status is not
      terminal. Returns the status it stopped at and the number of
      `retrieve` calls made, which is that status's index: none when the
      creation status is already terminal. */
  method PollRun(statuses: seq<string>) returns (status: string, retrieves: nat)
    requires EventuallyTerminal(statuses)
    ensures retrieves < |statuses| && status == statuses[retrieves]
    ensures status in TerminalStatuses
    ensures forall j :: 0 <= j < retrieves ==> statuses[j] !in TerminalStatuses
  {
    retrieves := 0;
    status := statuses[0];
    while status !in TerminalStatuses
      invariant retrieves <= FirstTerminal(statuses)
      invariant status == statuses[retrieves]
      invariant forall j :: 0 <= j < retrieves ==> statuses[j] !in TerminalStatuses
      decreases FirstTerminal(statuses) - retrieves
    {
      retrieves := retrieves + 1;
      status := statuses[retrieves];
    }
  }

  /** The reply `ask_agent` returns for a completed run: the stripped text of
      the first content block of the first assistant message in the
      newest-first list. */
  function Reply(messages: seq<Message>, strip: string -> string): (r: Result<string, AskError>)
    ensures !(r.Failure? && r.error.RunFailed?)
    ensures r.Success? ==> exists i :: 0 <= i < |messages| && messages[i].role == AssistantRole
                                      && messages[i].content != [] && r.value == strip(messages[i].content[0])
  {
    if messages == [] then Failure(ResponseNotFound)
    else if messages[0].role == AssistantRole then
      (if messages[0].content == [] then Failure(NoContentBlock)
       else Success(strip(messages[0].content[0])))
    else
      assert forall i :: 0 <= i < |messages| - 1 ==> messages[1..][i] == messages[i + 1];
      Reply(messages[1..], strip)
  }

  /** `i` is the index of the newest assistant message. */
  ghost predicate IsNewestAssistant(messages: seq<Message>, i: int)
  {
    0 <= i < |messages| && messages[i].role == AssistantRole
    && forall j :: 0 <= j < i ==> messages[j].role != AssistantRole
  }

  /** The reply comes from the newest assistant message: its first content
      block, stripped, or the indexing error when it has none. */
  lemma {:induction false} ReplyFromNewestAssistant(messages: seq<Message>, strip: string -> string, i: int)
    requires IsNewestAssistant(messages, i)
    ensures Reply(messages, strip) ==
      if messages[i].content == [] then Failure(NoContentBlock) else Success(strip(messages[i].content[0]))
  {
    if i > 0 {
      assert IsNewestAssistant(messages[1..], i - 1) by {
        forall j | 0 <= j < i - 1 ensures messages[1..][j].role != AssistantRole {
          assert messages[1..][j] == messages[j + 1];
        }
      }
      ReplyFromNewestAssistant(messages[1..], strip, i - 1);
    }
  }

  /** "Response not found" is raised exactly when no message has the
      assistant role. */
  lemma {:induction false} ReplyNotFound(messages: seq<Message>, strip: string -> string)
    ensures Reply(messages, strip) == Failure(ResponseNotFound)
        <==> forall i :: 0 <= i < |messages| ==> messages[i].role != AssistantRole
  {
    if messages != [] && messages[0].role != AssistantRole {
      ReplyNotFound(messages[1..], strip);
      forall i | 0 <= i < |messages| - 1 ensures messages[1..][i] == messages[i + 1] {
      }
    }
  }

  /** The reply scan: the first message of the list whose role is the
      assistant's gives the reply; running off the end raises "not found". */
  method FindReply(messages: seq<Message>, strip: string -> string) returns (r: Result<string, AskError>)
    ensures r == Reply(messages, strip)
  {
    for k := 0 to |messages|
      invariant Reply(messages, strip) == Reply(messages[k..], strip)
    {
      assert messages[k..][1..] == messages[k + 1..];
      if messages[k].role == AssistantRole {
        if messages[k].content == [] {
          return Failure(NoContentBlock);
        }
        return Success(strip(messages[k].content[0]));
      }
    }
    return Failure(ResponseNotFound);
  }

  /** `ask_agent` from the creation of the run on: poll to a terminal status,
      raise with that status unless it is "completed", then scan the
      messages for the reply. Also returns the number of `retrieve` calls. */
  method AskAgent(statuses: seq<string>, messages: seq<Message>, strip: string -> string)
    returns (r: Result<string, AskError>, retrieves: nat)
    requires EventuallyTerminal(statuses)
    ensures retrieves == FirstTerminal(statuses)
    ensures statuses[retrieves] != Completed ==> r == Failure(RunFailed(statuses[retrieves]))
    ensures statuses[retrieves] == Completed ==> r == Reply(messages, strip)
  {
    var status;
    status, retrieves := PollRun(statuses);
    if status != Completed {
      return Failure(RunFailed(status)), retrieves;
    }
    r := FindReply(messages, strip);
  }

  /** A run that is queued, in progress twice and then completed has its
      status checked four times: at creation and after three `retrieve`
      calls; the reply is then read from the messages. */
  method PollsUntilCompleted(strip: string -> string) returns (r: Result<string, AskError>, retrieves: nat)
    ensures retrieves == 3 && r == Success(strip("X"))
  {
    var statuses := ["queued", "in_progress", "in_progress", "completed"];
    assert statuses[3] in TerminalStatuses;
    r, retrieves := AskAgent(statuses, [Message("user", ["..."]), Message("assistant", ["X"])], strip);
  }

  /** A run that is queued and then fails has its status checked twice and
      raises with status "failed"; the messages are never read. */
  method PollsUntilFailed(strip: string -> string) returns (r: Result<string, AskError>, retrieves: nat)
    ensures retrieves == 1 && r == Failure(RunFailed("failed"))
  {
    var statuses := ["queued", "failed"];
    assert statuses[1] in TerminalStatuses;
    r, retrieves := AskAgent(statuses, [Message("assistant", ["X"])], strip);
  }

  /** Of two assistant messages, the newer one (first in the newest-first
      list) gives the reply. */
  lemma NewestAssistantWins(strip: string -> string)
    ensures Reply([Message("user", ["..."]), Message("assistant", ["X"]), Message("assistant", ["Y"])], strip)
         == Success(strip("X"))
  {
  }
}
