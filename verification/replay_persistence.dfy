/** Which durable commands are written to the log, and when the live cursor is restored. */
module ReplayPersistence {
  import opened BookTypes
  import opened MatcherTypes
  import Ring = CommandRing
  import P = CommandPipelines
  import opened Sequences

  datatype Action = AppendAndSync | AdvanceDurableOnly

  datatype ReplayStatus =
    | ReplayOk | Complete | Backpressure | InvalidConfig | WalOpenFailed | WalReadFailed | DecodeFailed | PipelineFailed
    | ExpectedEventMissing | UnexpectedEvent | EventMismatch | InvalidTransition

  datatype Policy = Policy(mode: Mode, liveResume: nat)

  function ActionOf(mode: Mode): Action {
    if mode == Live then AppendAndSync else AdvanceDurableOnly
  }

  /** The policy after a durable command; `restored` says whether the pipeline accepts a new
      live sequence. */
  function OnDurable(p: Policy, c: CommandEnvelope, restored: bool): (ReplayStatus, Policy) {
    if p.mode == Live && c.command.StartReplay? then
      if c.sequence == MAX_SEQUENCE then (InvalidTransition, p)
      else (ReplayOk, Policy(Replay, c.sequence + 1))
    else if p.mode == Replay && c.command.StopReplay? then (ReplayOk, p.(mode := Restoring))
    else if p.mode == Restoring then
      if !c.command.LoadSnapshot? then (InvalidTransition, p)
      else if !restored then (PipelineFailed, p)
      else (ReplayOk, p.(mode := Live))
    else (ReplayOk, p)
  }

  /** The one command at which the live cursor is set. */
  predicate Restores(p: Policy, c: CommandEnvelope) {
    p.mode == Restoring && c.command.LoadSnapshot?
  }

  class ReplayPersistenceState {
    var mode: Mode
    var liveResumeSequence: nat

    ghost function PolicyNow(): Policy
      reads this
    {
      Policy(mode, liveResumeSequence)
    }

    constructor ()
      ensures PolicyNow() == Policy(Live, 0)
    {
      mode, liveResumeSequence := Live, 0;
    }

    function NextAction(): (action: Action)
      reads this
      ensures action == AppendAndSync <==> mode == Live
    {
      ActionOf(mode)
    }

    method OnDurableCommand(c: CommandEnvelope, pipeline: P.CommandPipeline) returns (status: ReplayStatus)
      requires pipeline.Valid()
      modifies this, pipeline
      ensures pipeline.Valid() && pipeline.sys.h == old(pipeline.sys.h)
      ensures (status, PolicyNow()) == OnDurable(old(PolicyNow()), c, old(pipeline.isOpen && liveResumeSequence != 0))
      ensures if Restores(old(PolicyNow()), c) && status == ReplayOk
              then pipeline.nextLive == old(liveResumeSequence) && !pipeline.sequenceExhausted
              else
                && pipeline.nextLive == old(pipeline.nextLive)
                && pipeline.sequenceExhausted == old(pipeline.sequenceExhausted)
    {
      hide Ring.Inv, P.Quiet;
      if mode == Live && c.command.StartReplay? {
        if c.sequence == MAX_SEQUENCE {
          return InvalidTransition;
        }
        liveResumeSequence := c.sequence + 1;
        mode := Replay;
        return ReplayOk;
      }
      if mode == Replay && c.command.StopReplay? {
        mode := Restoring;
        return ReplayOk;
      }
      if mode == Restoring {
        if !c.command.LoadSnapshot? {
          return InvalidTransition;
        }
        var restored := pipeline.RestoreLiveSequence(liveResumeSequence);
        if restored != P.Ok {
          return PipelineFailed;
        }
        mode := Live;
      }
      return ReplayOk;
    }
  }
}
