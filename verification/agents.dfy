/** The agent protocol and its two trivial agents: the base agent
    (`AgentDiscrete`), whose `getAction` raises, and the first-action agent
    (`AgentFirstAction`), which always answers action 0. Neither learns:
    every notification leaves it as it was. */
module Agents {
  import opened Wrappers

  datatype Kind = Base | FirstAction

  /** An agent only records the numbers of states and actions it was given. */
  datatype SimpleAgent = SimpleAgent(kind: Kind, numStates: int, numActions: int)

  /** The constructor. */
  function NewAgent(kind: Kind, numStates: int, numActions: int): (a: SimpleAgent)
    ensures a.kind == kind && a.numStates == numStates && a.numActions == numActions
  {
    SimpleAgent(kind, numStates, numActions)
  }

  /** The notifications an experiment sends an agent. */
  datatype Call = NewEpisode | IntegrateObservation(obs: int) | GiveReward(reward: real)

  /** The agent after one notification: neither agent keeps anything. */
  function Notify(a: SimpleAgent, c: Call): SimpleAgent
  {
    match c
    case NewEpisode => a
    case IntegrateObservation(_) => a
    case GiveReward(_) => a
  }

  /** The agent after a whole sequence of notifications, in order. */
  function Replay(a: SimpleAgent, calls: seq<Call>): SimpleAgent
    decreases |calls|
  {
    if |calls| == 0 then a else Replay(Notify(a, calls[0]), calls[1..])
  }

  /** `getAction`: the base agent has no policy (NotImplementedError); the
      first-action agent always answers 0. */
  function GetAction(a: SimpleAgent): (r: Result<int>)
    ensures a.kind == Base <==> r == Err(NotImplementedError)
    ensures a.kind == FirstAction <==> r == Ok(0)
  {
    match a.kind
    case Base => Err(NotImplementedError)
    case FirstAction => Ok(0)
  }

  /** `getValues`: neither agent computes state values. */
  function GetValues(a: SimpleAgent): (r: Option<seq<real>>)
    ensures r.None?
  {
    None
  }

  /** `getQValues`: neither agent computes action values. */
  function GetQValues(a: SimpleAgent): (r: Option<seq<seq<real>>>)
    ensures r.None?
  {
    None
  }

  /** Whatever the agent is told, in any order, it stays the agent it was
      built as: same counts, same answer to `getAction`, no values. */
  lemma {:induction false} NotificationsChangeNothing(a: SimpleAgent, calls: seq<Call>)
    ensures Replay(a, calls) == a
    ensures GetAction(Replay(a, calls)) == GetAction(a)
    ensures GetValues(Replay(a, calls)).None? && GetQValues(Replay(a, calls)).None?
    decreases |calls|
  {
    if |calls| > 0 {
      NotificationsChangeNothing(Notify(a, calls[0]), calls[1..]);
    }
  }
}
