/** The records shared by the orchestrator, the renderer and the service
    client (types.ts). Timestamps are not modelled. */
module Types {
  import opened Wrappers

  /** The five conversation contexts. */
  datatype Mode = General | Coding | Research | System | Iot

  /** The enum's string value, which is also what `mode.toString()` and
      string concatenation with a mode produce. */
  function ModeName(m: Mode): (r: string)
    ensures |r| > 0
  {
    match m
    case General => "GENERAL"
    case Coding => "CODING"
    case Research => "RESEARCH"
    case System => "SYSTEM"
    case Iot => "IOT"
  }

  datatype Role = User | Assistant

  /** A grounding source shown under an assistant turn. */
  datatype Link = Link(title: string, uri: string)

  /** One turn of the conversation; `groundingLinks` is absent on user
      turns and present (possibly empty) on assistant turns. */
  datatype ChatMessage = ChatMessage(
    id: string,
    role: Role,
    content: string,
    mode: Mode,
    groundingLinks: Option<seq<Link>>)

  datatype TaskStatus = Pending | Completed

  datatype Task = Task(id: string, title: string, status: TaskStatus, category: string)
}
