/** The conversation orchestrator (App.tsx): the session state and the
    operations the shell invokes on it. A submission is split at its one
    suspension point: `Begin` runs up to the service call, `Complete` runs
    when the call settles, and `Submit` is the two back to back. Identifiers
    come in as parameters; the service call comes in as its outcome. */
module App {
  import opened Wrappers
  import opened Strings
  import opened Types
  import Gemini

  const HistoryWindow: nat := 10
  const TitleLimit: nat := 30
  const Ellipsis: string := "..."
  const AddedPhrase: string := "added to your tasks"
  const CreatedPhrase: string := "i've created a task"

  datatype AppState = AppState(
    mode: Mode,
    messages: seq<ChatMessage>,
    input: string,
    isTyping: bool,
    tasks: seq<Task>)

  /** How the awaited `chatWithGemini` call settled, seen from the
      orchestrator: a reply, or an exception. */
  datatype ServiceOutcome = Ok(reply: Gemini.Reply) | Throw

  /** What the suspended submission holds on to across the await: the
      prompt, the mode and the history captured when it started. */
  datatype Submission = Submission(prompt: string, mode: Mode, history: seq<Gemini.Content>)

  /** The state of a fresh session: GENERAL mode, an empty log, an empty
      composer, no request in flight, and three seeded tasks. */
  function InitialState(): (s: AppState)
    ensures s.mode == General && s.messages == [] && s.input == "" && !s.isTyping
    ensures |s.tasks| == 3
    ensures forall i, j :: 0 <= i < j < |s.tasks| ==> s.tasks[i].id != s.tasks[j].id
    ensures s.tasks[0].status == Pending && s.tasks[1].status == Completed && s.tasks[2].status == Pending
  {
    AppState(General, [], "", false, [
      Task("1", "Complete IoT Dashboard UI", Pending, "DEV"),
      Task("2", "Fix Python script encoding error", Completed, "SYSTEM"),
      Task("3", "Research new LLM trends", Pending, "RESEARCH")])
  }

  // ---------------------------------------------------------------------
  // History sent with a prompt
  // ---------------------------------------------------------------------

  /** `messages.filter(m => m.mode === mode)` */
  function ForMode(msgs: seq<ChatMessage>, m: Mode): (r: seq<ChatMessage>)
    ensures |r| <= |msgs|
    ensures forall x :: x in r <==> x in msgs && x.mode == m
  {
    if |msgs| == 0 then []
    else (if msgs[0].mode == m then [msgs[0]] else []) + ForMode(msgs[1..], m)
  }

  /** Filtering keeps order: it distributes over concatenation. */
  lemma {:induction false} ForModeAppend(a: seq<ChatMessage>, b: seq<ChatMessage>, m: Mode)
    ensures ForMode(a + b, m) == ForMode(a, m) + ForMode(b, m)
    decreases |a|
  {
    if |a| == 0 {
      assert a + b == b;
    } else {
      assert (a + b)[0] == a[0];
      assert (a + b)[1..] == a[1..] + b;
      ForModeAppend(a[1..], b, m);
    }
  }

  /** `xs.slice(-n)` for n > 0: the last n elements, or all of them. */
  function LastN<T>(xs: seq<T>, n: nat): (r: seq<T>)
    requires n > 0
    ensures |r| == if |xs| < n then |xs| else n
    ensures r == xs[|xs| - |r|..]
  {
    if |xs| <= n then xs else xs[|xs| - n..]
  }

  /** One turn in the provider's shape: assistant turns become "model". */
  function ToContent(msg: ChatMessage): (r: Gemini.Content)
    ensures r.role == Gemini.ModelRole <==> msg.role == Assistant
    ensures r.role == Gemini.UserRole <==> msg.role == User
    ensures r.parts == [Gemini.Part(msg.content)]
  {
    Gemini.Content(if msg.role == Assistant then Gemini.ModelRole else Gemini.UserRole, [Gemini.Part(msg.content)])
  }

  /** The history window: the last ten turns of the given mode, oldest
      first, each mapped to the provider's shape. */
  function History(msgs: seq<ChatMessage>, m: Mode): (r: seq<Gemini.Content>)
    ensures |r| <= HistoryWindow
    ensures |r| == if |ForMode(msgs, m)| < HistoryWindow then |ForMode(msgs, m)| else HistoryWindow
    ensures forall i :: 0 <= i < |r| ==>
      var f := ForMode(msgs, m);
      f[|f| - |r| + i].mode == m && r[i] == ToContent(f[|f| - |r| + i])
  {
    var window := LastN(ForMode(msgs, m), HistoryWindow);
    seq(|window|, i requires 0 <= i < |window| => ToContent(window[i]))
  }

  /** A turn of another mode never changes the history of this one. */
  lemma HistoryIgnoresOtherModes(msgs: seq<ChatMessage>, x: ChatMessage, m: Mode)
    requires x.mode != m
    ensures History(msgs + [x], m) == History(msgs, m)
  {
    ForModeAppend(msgs, [x], m);
    assert ForMode([x], m) == [];
    assert ForMode(msgs + [x], m) == ForMode(msgs, m);
  }

  // ---------------------------------------------------------------------
  // The task-promotion heuristic
  // ---------------------------------------------------------------------

  /** The reply, lower-cased, mentions a created task. */
  predicate MentionsTask(text: string): (r: bool)
    ensures r <==> exists i :: OccursAt(Lower(text), i, AddedPhrase) || OccursAt(Lower(text), i, CreatedPhrase)
  {
    Includes(Lower(text), AddedPhrase) || Includes(Lower(text), CreatedPhrase)
  }

  /** The task title: the prompt itself up to 30 characters, otherwise
      its first 30 characters and an ellipsis. */
  function TaskTitle(prompt: string): (r: string)
    ensures |r| <= TitleLimit + |Ellipsis|
    ensures |prompt| <= TitleLimit ==> r == prompt
    ensures |prompt| > TitleLimit ==> |r| == TitleLimit + |Ellipsis| && StartsWith(prompt, r[..TitleLimit]) && EndsWith(r, Ellipsis)
  {
    if |prompt| > TitleLimit then Prefix(prompt, TitleLimit) + Ellipsis else prompt
  }

  // ---------------------------------------------------------------------
  // Submitting a prompt
  // ---------------------------------------------------------------------

  /** The guard of `handleSendMessage`: `!input.trim() || isTyping`. */
  predicate Rejected(s: AppState): (r: bool)
    ensures r <==> IsBlank(s.input) || s.isTyping
  {
    TrimEmptyIffBlank(s.input);
    Trim(s.input) == "" || s.isTyping
  }

  /** The synchronous part of `handleSendMessage`: the guard, the
      optimistic user turn, clearing the composer, raising the typing
      flag, and the history computed from the log as it was before the new
      turn. */
  function Begin(s: AppState, userId: string): (r: (AppState, Option<Submission>))
    ensures IsBlank(s.input) || s.isTyping ==> r == (s, None)
    ensures !(IsBlank(s.input) || s.isTyping) ==>
      && r.1 == Some(Submission(s.input, s.mode, History(s.messages, s.mode)))
      && r.0.messages == s.messages + [ChatMessage(userId, User, s.input, s.mode, None)]
      && r.0.input == "" && r.0.isTyping
      && r.0.mode == s.mode && r.0.tasks == s.tasks
  {
    TrimEmptyIffBlank(s.input);
    if Rejected(s) then (s, None)
    else
      var userMessage := ChatMessage(userId, User, s.input, s.mode, None);
      (s.(messages := s.messages + [userMessage], input := "", isTyping := true),
       Some(Submission(s.input, s.mode, History(s.messages, s.mode))))
  }

  /** The rest of `handleSendMessage`, run on the state as it is when the
      call settles (React's functional updates read the latest state). On a
      reply the assistant turn is appended with the mode captured at
      submit time, and a task is prepended when the reply mentions one; on
      an exception nothing is added. Either way the typing flag is
      lowered. */
  function Complete(s: AppState, sub: Submission, outcome: ServiceOutcome, assistantId: string, taskId: string): (r: AppState)
    ensures !r.isTyping && r.mode == s.mode && r.input == s.input
    ensures outcome.Throw? ==> r.messages == s.messages && r.tasks == s.tasks
    ensures outcome.Ok? ==>
      r.messages == s.messages + [ChatMessage(assistantId, Assistant, outcome.reply.text, sub.mode, Some(outcome.reply.links))]
    ensures outcome.Ok? && MentionsTask(outcome.reply.text) ==>
      r.tasks == [Task(taskId, TaskTitle(sub.prompt), Pending, ModeName(sub.mode))] + s.tasks
    ensures !(outcome.Ok? && MentionsTask(outcome.reply.text)) ==> r.tasks == s.tasks
  {
    match outcome
    case Throw => s.(isTyping := false)
    case Ok(reply) =>
      var assistantMessage := ChatMessage(assistantId, Assistant, reply.text, sub.mode, Some(reply.links));
      var tasks :=
        if MentionsTask(reply.text) then [Task(taskId, TaskTitle(sub.prompt), Pending, ModeName(sub.mode))] + s.tasks
        else s.tasks;
      s.(messages := s.messages + [assistantMessage], tasks := tasks, isTyping := false)
  }

  /** A whole submission with nothing else happening during the await. */
  function Submit(s: AppState, userId: string, outcome: ServiceOutcome, assistantId: string, taskId: string): (r: AppState)
    ensures IsBlank(s.input) || s.isTyping ==> r == s
    ensures !(IsBlank(s.input) || s.isTyping) ==>
      var user := ChatMessage(userId, User, s.input, s.mode, None);
      && !r.isTyping && r.input == "" && r.mode == s.mode
      && (outcome.Throw? ==> r.messages == s.messages + [user] && r.tasks == s.tasks)
      && (outcome.Ok? ==>
            && r.messages == s.messages + [user, ChatMessage(assistantId, Assistant, outcome.reply.text, s.mode, Some(outcome.reply.links))]
            && (MentionsTask(outcome.reply.text) ==> r.tasks == [Task(taskId, TaskTitle(s.input), Pending, ModeName(s.mode))] + s.tasks)
            && (!MentionsTask(outcome.reply.text) ==> r.tasks == s.tasks))
  {
    var (s1, sub) := Begin(s, userId);
    match sub
    case None => s1
    case Some(p) => Complete(s1, p, outcome, assistantId, taskId)
  }

  // ---------------------------------------------------------------------
  // The other operations
  // ---------------------------------------------------------------------

  /** `clearChat`: with confirmation the log is emptied; nothing else
      changes either way. */
  function ClearChat(s: AppState, confirmed: bool): (r: AppState)
    ensures r.mode == s.mode && r.tasks == s.tasks && r.input == s.input && r.isTyping == s.isTyping
    ensures confirmed ==> r.messages == []
    ensures !confirmed ==> r == s
  {
    if confirmed then s.(messages := []) else s
  }

  function Flip(st: TaskStatus): (r: TaskStatus)
    ensures r != st
  {
    if st == Completed then Pending else Completed
  }

  /** `tasks.map(...)` of `toggleTask`: every task with the given id has
      its status flipped, every other task is kept. */
  function Toggled(tasks: seq<Task>, id: string): (r: seq<Task>)
    ensures |r| == |tasks|
    ensures forall i :: 0 <= i < |r| ==>
      && r[i].id == tasks[i].id && r[i].title == tasks[i].title && r[i].category == tasks[i].category
      && (tasks[i].id == id ==> r[i].status != tasks[i].status)
      && (tasks[i].id != id ==> r[i] == tasks[i])
  {
    if |tasks| == 0 then []
    else
      var t := tasks[0];
      [if t.id == id then t.(status := Flip(t.status)) else t] + Toggled(tasks[1..], id)
  }

  function ToggleTask(s: AppState, id: string): (r: AppState)
    ensures r.mode == s.mode && r.messages == s.messages && r.input == s.input && r.isTyping == s.isTyping
    ensures |r.tasks| == |s.tasks|
    ensures forall i :: 0 <= i < |r.tasks| ==>
      && r.tasks[i].id == s.tasks[i].id && r.tasks[i].title == s.tasks[i].title && r.tasks[i].category == s.tasks[i].category
      && (s.tasks[i].id == id ==> r.tasks[i].status != s.tasks[i].status)
      && (s.tasks[i].id != id ==> r.tasks[i] == s.tasks[i])
  {
    s.(tasks := Toggled(s.tasks, id))
  }

  /** Toggling the same id twice restores the list. */
  lemma {:induction false} ToggleTwice(tasks: seq<Task>, id: string)
    ensures Toggled(Toggled(tasks, id), id) == tasks
  {
    if |tasks| > 0 {
      ToggleTwice(tasks[1..], id);
      assert Toggled(tasks, id)[1..] == Toggled(tasks[1..], id);
    }
  }

  /** An id no task carries leaves the list as it is. */
  lemma {:induction false} ToggleUnknown(tasks: seq<Task>, id: string)
    requires forall t :: t in tasks ==> t.id != id
    ensures Toggled(tasks, id) == tasks
  {
    if |tasks| > 0 {
      ToggleUnknown(tasks[1..], id);
    }
  }

  /** `setMode`, forwarded from the sidebar. */
  function SetMode(s: AppState, m: Mode): (r: AppState)
    ensures r.mode == m && r.messages == s.messages && r.tasks == s.tasks && r.input == s.input && r.isTyping == s.isTyping
  {
    s.(mode := m)
  }

  /** The composer's `setInput`. */
  function SetInput(s: AppState, text: string): (r: AppState)
    ensures r.input == text && r.mode == s.mode && r.messages == s.messages && r.tasks == s.tasks && r.isTyping == s.isTyping
  {
    s.(input := text)
  }

  // ---------------------------------------------------------------------
  // Properties across operations
  // ---------------------------------------------------------------------

  /** At most one request is in flight: once a submission has begun, any
      further submit is a no-op until it completes. */
  lemma OneRequestInFlight(s: AppState, userId: string, nextInput: string, nextId: string)
    requires !IsBlank(s.input) && !s.isTyping
    ensures var s1 := SetInput(Begin(s, userId).0, nextInput);
            Begin(s1, nextId) == (s1, None)
  {
  }

  /** The reply is appended to the log as it is when the call settles: a
      log cleared during the await ends up holding only the reply. */
  lemma ClearDuringRequest(s: AppState, userId: string, reply: Gemini.Reply, assistantId: string, taskId: string)
    requires !IsBlank(s.input) && !s.isTyping
    ensures var (s1, sub) := Begin(s, userId);
            Complete(ClearChat(s1, true), sub.value, Ok(reply), assistantId, taskId).messages
              == [ChatMessage(assistantId, Assistant, reply.text, s.mode, Some(reply.links))]
  {
  }

  /** Switching mode during the await does not move the reply or the task
      to the new mode: both carry the mode of the submission. */
  lemma ModeSwitchDuringRequest(s: AppState, userId: string, m: Mode, reply: Gemini.Reply, assistantId: string, taskId: string)
    requires !IsBlank(s.input) && !s.isTyping && m != s.mode
    ensures var (s1, sub) := Begin(s, userId);
            var r := Complete(SetMode(s1, m), sub.value, Ok(reply), assistantId, taskId);
            && r.mode == m
            && r.messages[|r.messages| - 1].mode == s.mode
            && (MentionsTask(reply.text) ==> r.tasks[0].category == ModeName(s.mode) != ModeName(m))
  {
  }

  /** Neither of the service's fixed fallback texts mentions a task, so a
      failed or empty call never creates one. */
  lemma FallbacksMentionNoTask()
    ensures !MentionsTask(Gemini.ConnectionErrorText)
    ensures !MentionsTask(Gemini.EmptyReplyText)
  {
    var e := Gemini.ConnectionErrorText;
    var f := Gemini.EmptyReplyText;
    ErrorTextLetters();
    EmptyReplyLetters();
    LowerLacks(e, 'd', 'D');
    LowerLacks(e, 'v', 'V');
    LowerLacks(f, 'k', 'K');
    LowerLacks(f, 'v', 'V');
    assert AddedPhrase[1] == 'd' && AddedPhrase[17] == 'k' && CreatedPhrase[2] == 'v';
    MissingCharNotIncluded(Lower(e), AddedPhrase, 'd');
    MissingCharNotIncluded(Lower(e), CreatedPhrase, 'v');
    MissingCharNotIncluded(Lower(f), AddedPhrase, 'k');
    MissingCharNotIncluded(Lower(f), CreatedPhrase, 'v');
  }

  lemma ErrorTextLetters()
    ensures 'd' !in Gemini.ConnectionErrorText && 'D' !in Gemini.ConnectionErrorText
    ensures 'v' !in Gemini.ConnectionErrorText && 'V' !in Gemini.ConnectionErrorText
  {
    ErrorTextLacksD();
    ErrorTextLacksV();
  }

  lemma ErrorTextLacksD()
    ensures 'd' !in Gemini.ConnectionErrorText && 'D' !in Gemini.ConnectionErrorText
  {
    assert 'd' !in Gemini.ConnectionErrorText;
  }

  lemma ErrorTextLacksV()
    ensures 'v' !in Gemini.ConnectionErrorText && 'V' !in Gemini.ConnectionErrorText
  {
    assert 'v' !in Gemini.ConnectionErrorText;
  }

  lemma EmptyReplyLetters()
    ensures 'k' !in Gemini.EmptyReplyText && 'K' !in Gemini.EmptyReplyText && Kelvin !in Gemini.EmptyReplyText
    ensures 'v' !in Gemini.EmptyReplyText && 'V' !in Gemini.EmptyReplyText
  {
    EmptyReplyLacksK();
    EmptyReplyLacksV();
  }

  lemma EmptyReplyLacksK()
    ensures 'k' !in Gemini.EmptyReplyText && 'K' !in Gemini.EmptyReplyText && Kelvin !in Gemini.EmptyReplyText
  {
    assert 'k' !in Gemini.EmptyReplyText;
  }

  lemma EmptyReplyLacksV()
    ensures 'v' !in Gemini.EmptyReplyText && 'V' !in Gemini.EmptyReplyText
  {
    assert 'v' !in Gemini.EmptyReplyText;
  }

  lemma LowerLacks(s: string, c: char, upper: char)
    requires 'a' <= c <= 'z' && upper as int == c as int - 32
    requires c !in s && upper !in s && (c == 'k' ==> Kelvin !in s)
    ensures c !in Lower(s)
  {
    forall i | 0 <= i < |s| ensures Lower(s)[i] != c {
      assert s[i] != c && s[i] != upper;
    }
  }

  /** A submission wired to the service client: when the client call
      resolves, the reply always has text, and a failed call shows the
      connection-error text and creates no task. */
  lemma SubmitThroughService(s: AppState, userId: string, call: Gemini.Request -> Gemini.CallOutcome, assistantId: string, taskId: string)
    requires !(IsBlank(s.input) || s.isTyping)
    ensures var reply := Gemini.ChatWithGemini(s.input, s.mode, History(s.messages, s.mode), call);
            var r := Submit(s, userId, Ok(reply), assistantId, taskId);
            && |r.messages| == |s.messages| + 2
            && r.messages[|s.messages| + 1].content != ""
            && (call(Gemini.BuildRequest(s.input, s.mode, History(s.messages, s.mode))).Failed? ==>
                  r.messages[|s.messages| + 1].content == Gemini.ConnectionErrorText
                  && r.messages[|s.messages| + 1].groundingLinks == Some([])
                  && r.tasks == s.tasks)
  {
    FallbacksMentionNoTask();
  }
}
