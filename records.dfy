/** Transitions as the actors hand them over, as they are stored in the hash
    under a transition key, and as the learner decodes them again. */
module Records {

  datatype Option<T> = None | Some(value: T)

  /** Frames are 84 x 84 grey-scale images, stored flattened row by row. */
  const FrameSide: nat := 84
  const FrameBytes: nat := FrameSide * FrameSide

  type Byte = x: int | 0 <= x < 256
  type Frame = seq<Byte>

  /** One step of an actor's buffer: `[timestep, state, action, reward, done]`. */
  datatype ActorStep = ActorStep(timestep: int, state: Frame, action: int, reward: real, done: bool)

  /** The hash written under a transition key; `nonterminal` is stored as `0` or `1`. */
  datatype Record = Record(timestep: int, state: Frame, action: int, reward: real, nonterminal: int)

  /** A transition as the learner sees it; only the blank transition has no action. */
  datatype Transition = Transition(timestep: int, state: Frame, action: Option<int>, reward: real, nonterminal: bool)

  /** The fields `hmset` writes for one actor step. */
  function Encode(s: ActorStep): (r: Record)
    ensures r.timestep == s.timestep && r.state == s.state && r.action == s.action && r.reward == s.reward
    ensures (r.nonterminal == 0 || r.nonterminal == 1) && (r.nonterminal != 0 <==> !s.done)
  {
    Record(s.timestep, s.state, s.action, s.reward, if s.done then 0 else 1)
  }

  /** `_byte_data_to_transition`: a key never written reads back with every
      field missing and decodes to no transition. */
  function Decode(b: Option<Record>): (t: Option<Transition>)
    ensures t.Some? <==> b.Some?
    ensures t.Some? ==> t.value.action.Some?
  {
    match b
    case None => None
    case Some(r) => Some(Transition(r.timestep, r.state, Some(r.action), r.reward, r.nonterminal != 0))
  }

  /** A list of records decoded one by one: the written ones and only those
      decode to a transition. */
  function DecodeAll(rs: seq<Option<Record>>): (w: seq<Option<Transition>>)
    ensures |w| == |rs|
    ensures forall k :: 0 <= k < |rs| ==> (w[k].Some? <==> rs[k].Some?)
  {
    seq(|rs|, k requires 0 <= k < |rs| => Decode(rs[k]))
  }

  /** The padding transition: timestep 0, a black frame, no action, reward 0, terminal. */
  function Blank(): (t: Transition)
    ensures t.timestep == 0 && !t.nonterminal && t.reward == 0.0 && t.action.None?
    ensures |t.state| == FrameBytes && forall i :: 0 <= i < |t.state| ==> t.state[i] == 0
  {
    Transition(0, seq(FrameBytes, _ => 0), None, 0.0, false)
  }

  /** What an actor writes is what the learner reads back: timestep, frame,
      action and reward unchanged, and `nonterminal` is `not done`. */
  lemma DecodeEncode(s: ActorStep)
    ensures Decode(Some(Encode(s))) == Some(Transition(s.timestep, s.state, Some(s.action), s.reward, !s.done))
  {
  }
}
