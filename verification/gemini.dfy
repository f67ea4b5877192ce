/** The request/response mapping of the remote completion client
    (services/geminiService.ts). The SDK call itself is a parameter: a
    function from the request that is sent to the outcome of the call. */
module Gemini {
  import opened Wrappers
  import opened Strings
  import opened Types

  const ProModel: string := "gemini-3-pro-preview"
  const FlashModel: string := "gemini-3-flash-preview"

  /** The fixed persona preamble; the mode's name is appended to it. */
  const SystemPreamble: string :=
    "You are KRRISH-AI, a smart, secure, and efficient personal AI agent. \n"
    + "Your role is to act as a multi-purpose digital assistant for productivity, learning, development, and system support.\n"
    + "\n"
    + "CORE RESPONSIBILITIES:\n"
    + "- Coding: Python, C/C++, JavaScript, ESP32, Arduino, IoT.\n"
    + "- Project Dev: Documentation, reports, presentations.\n"
    + "- Study: Notes, summaries, exam prep.\n"
    + "- File Management: Logic for organization.\n"
    + "- System Guidance: Software install, error fixing, optimization.\n"
    + "- Research: Web research, summaries, comparisons.\n"
    + "\n"
    + "BEHAVIOR:\n"
    + "- Professional, clear, concise.\n"
    + "- Beginner-friendly when needed, otherwise expert.\n"
    + "- Think logically.\n"
    + "- Prioritize security and privacy.\n"
    + "\n"
    + "Current Mode: "

  // The two fixed texts are written in short pieces so that the proofs
  // of which letters they lack inspect a few characters at a time.
  const EmptyReplyText: string := "I'm sorry, " + "I couldn't process that."
  const ConnectionErrorText: string := "Error connecting to " + "KRRISH-AI core. " + "Please check your " + "connection."
  const DefaultTitle: string := "Source"
  const MissingUri: string := "#"

  // ---------------------------------------------------------------------
  // Request side
  // ---------------------------------------------------------------------

  datatype ApiRole = UserRole | ModelRole
  datatype Part = Part(text: string)
  /** One entry of the request's `contents` list. */
  datatype Content = Content(role: ApiRole, parts: seq<Part>)
  datatype Tool = GoogleSearch

  /** What is handed to `generateContent`. The sampling temperature is a
      fixed constant of the source and is not represented. */
  datatype Request = Request(model: string, contents: seq<Content>, systemInstruction: string, tools: seq<Tool>)

  /** The heavier model for CODING and IOT, the lighter one otherwise. */
  function ModelFor(m: Mode): (r: string)
    ensures r == ProModel <==> m == Coding || m == Iot
    ensures r == FlashModel <==> !(m == Coding || m == Iot)
  {
    if m == Coding || m == Iot then ProModel else FlashModel
  }

  /** Web-search grounding is requested for RESEARCH and SYSTEM only. */
  function UsesSearch(m: Mode): (r: bool)
    ensures r <==> m == Research || m == System
  {
    m == Research || m == System
  }

  /** The preamble followed by the mode's string value. */
  function SystemInstruction(m: Mode): (r: string)
    ensures |r| == |SystemPreamble| + |ModeName(m)|
    ensures StartsWith(r, SystemPreamble) && r[|SystemPreamble|..] == ModeName(m)
  {
    SystemPreamble + ModeName(m)
  }

  function BuildRequest(prompt: string, mode: Mode, history: seq<Content>): (r: Request)
    ensures r.model == ProModel <==> mode == Coding || mode == Iot
    ensures r.model == FlashModel <==> !(mode == Coding || mode == Iot)
    ensures r.tools == [GoogleSearch] <==> mode == Research || mode == System
    ensures r.tools == [] <==> !(mode == Research || mode == System)
    ensures StartsWith(r.systemInstruction, SystemPreamble) && r.systemInstruction[|SystemPreamble|..] == ModeName(mode)
    ensures |r.contents| == |history| + 1
    ensures r.contents[..|history|] == history
    ensures r.contents[|history|] == Content(UserRole, [Part(prompt)])
  {
    Request(
      ModelFor(mode),
      history + [Content(UserRole, [Part(prompt)])],
      SystemInstruction(mode),
      if UsesSearch(mode) then [GoogleSearch] else [])
  }

  // ---------------------------------------------------------------------
  // Response side: every optional field of the provider's shape
  // ---------------------------------------------------------------------

  datatype Web = Web(title: Option<string>, uri: Option<string>)
  datatype GroundingChunk = GroundingChunk(web: Option<Web>)
  datatype GroundingMetadata = GroundingMetadata(groundingChunks: Option<seq<GroundingChunk>>)
  datatype Candidate = Candidate(groundingMetadata: Option<GroundingMetadata>)
  datatype Response = Response(text: Option<string>, candidates: Option<seq<Candidate>>)

  /** The SDK call either returns a response or throws. */
  datatype CallOutcome = Responded(response: Response) | Failed

  /** What `chatWithGemini` resolves to. */
  datatype Reply = Reply(text: string, links: seq<Link>)

  /** JavaScript `x || d` on an optional string: both an absent and an
      empty string fall back to `d`. */
  function OrDefault(x: Option<string>, d: string): (r: string)
    ensures x.Some? && x.value != "" ==> r == x.value
    ensures x.None? || x.value == "" ==> r == d
  {
    if x.Some? && x.value != "" then x.value else d
  }

  /** `response.text || "I'm sorry, I couldn't process that."` */
  function ReplyText(text: Option<string>): (r: string)
    ensures r != ""
    ensures text.Some? && text.value != "" ==> r == text.value
    ensures text.None? || text.value == "" ==> r == EmptyReplyText
  {
    OrDefault(text, EmptyReplyText)
  }

  /** `response.candidates?.[0]?.groundingMetadata?.groundingChunks` */
  function GroundingChunks(resp: Response): (r: Option<seq<GroundingChunk>>)
    ensures r.Some? <==> (resp.candidates.Some? && |resp.candidates.value| > 0
                          && resp.candidates.value[0].groundingMetadata.Some?
                          && resp.candidates.value[0].groundingMetadata.value.groundingChunks.Some?)
    ensures r.Some? ==> r == resp.candidates.value[0].groundingMetadata.value.groundingChunks
  {
    match resp.candidates
    case None => None
    case Some(cs) =>
      if |cs| == 0 then None
      else match cs[0].groundingMetadata
        case None => None
        case Some(md) => md.groundingChunks
  }

  /** The `{title, uri}` pair one chunk maps to before filtering. */
  function ChunkLink(c: GroundingChunk): (r: Link)
    ensures r.title != "" && r.uri != ""
    ensures c.web.None? ==> r == Link(DefaultTitle, MissingUri)
  {
    match c.web
    case None => Link(DefaultTitle, MissingUri)
    case Some(w) => Link(OrDefault(w.title, DefaultTitle), OrDefault(w.uri, MissingUri))
  }

  /** The chunks mapped to links, dropping those whose uri is "#". */
  function Links(chunks: seq<GroundingChunk>): (r: seq<Link>)
    ensures |r| <= |chunks|
    ensures forall l :: l in r ==> l.uri != MissingUri && l.uri != "" && l.title != ""
  {
    if |chunks| == 0 then []
    else
      var l := ChunkLink(chunks[0]);
      (if l.uri == MissingUri then [] else [l]) + Links(chunks[1..])
  }

  /** The link a chunk contributes: present exactly when the chunk carries
      a web record whose uri is neither absent, empty nor "#". */
  lemma LinksOfOne(c: GroundingChunk)
    ensures Links([c]) == if c.web.Some? && c.web.value.uri.Some? && c.web.value.uri.value != "" && c.web.value.uri.value != MissingUri
                          then [Link(OrDefault(c.web.value.title, DefaultTitle), c.web.value.uri.value)]
                          else []
  {
    assert [c][1..] == [];
  }

  /** Normalisation keeps chunk order: it distributes over concatenation. */
  lemma {:induction false} LinksAppend(a: seq<GroundingChunk>, b: seq<GroundingChunk>)
    ensures Links(a + b) == Links(a) + Links(b)
    decreases |a|
  {
    if |a| == 0 {
      assert a + b == b;
    } else {
      assert (a + b)[0] == a[0];
      assert (a + b)[1..] == a[1..] + b;
      LinksAppend(a[1..], b);
    }
  }

  /** The text and links handed back for a settled call: the chunks of a
      response are normalised into links, and an absent chunk list gives
      no links. */
  function Normalise(outcome: CallOutcome): (r: Reply)
    ensures r.text != ""
    ensures forall l :: l in r.links ==> l.uri != MissingUri
    ensures outcome.Failed? ==> r == Reply(ConnectionErrorText, [])
    ensures outcome.Responded? && GroundingChunks(outcome.response).None? ==> r.links == []
    ensures outcome.Responded? && GroundingChunks(outcome.response).Some? ==>
              r.links == Links(GroundingChunks(outcome.response).value)
    ensures outcome.Responded? ==> r.text == ReplyText(outcome.response.text)
  {
    match outcome
    case Failed => Reply(ConnectionErrorText, [])
    case Responded(resp) =>
      Reply(ReplyText(resp.text),
            match GroundingChunks(resp)
            case None => []
            case Some(chunks) => Links(chunks))
  }

  /** `chatWithGemini(prompt, mode, history)`: builds the request, hands it
      to `call`, and never lets a failure escape. */
  function ChatWithGemini(prompt: string, mode: Mode, history: seq<Content>, call: Request -> CallOutcome): (r: Reply)
    ensures r.text != ""
    ensures forall l :: l in r.links ==> l.uri != MissingUri
    ensures call(BuildRequest(prompt, mode, history)).Failed? ==> r == Reply(ConnectionErrorText, [])
    ensures call(BuildRequest(prompt, mode, history)).Responded? ==>
      var resp := call(BuildRequest(prompt, mode, history)).response;
      r.text == ReplyText(resp.text)
      && r.links == (if GroundingChunks(resp).Some? then Links(GroundingChunks(resp).value) else [])
  {
    Normalise(call(BuildRequest(prompt, mode, history)))
  }
}
