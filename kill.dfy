/** The kill action: three checks in a fixed order, the first failure's code
    is returned, and only when all pass is the target marked dead. */
module KillRule {
  import opened Types
  import opened PlayerTable

  /** The result of `kill`: 0 on success, or one of the JSON_KILL_* codes. */
  datatype KillCode = Killed | InvalidPlayer | NotImpostor | NotInRoom

  /** The checks of `kill` on the actor and the target, first failure wins. */
  function KillCheck(actor: Player, target: Player): (code: KillCode)
    ensures code == InvalidPlayer <==> target.stage != StageMain
    ensures code == NotImpostor <==>
      target.stage == StageMain && (!actor.isImpostor || target.isImpostor)
    ensures code == NotInRoom <==>
      target.stage == StageMain && actor.isImpostor && !target.isImpostor
      && actor.location != target.location
    ensures code == Killed <==>
      target.stage == StageMain && actor.isImpostor && !target.isImpostor
      && actor.location == target.location
  {
    if target.stage != StageMain then InvalidPlayer
    else if !actor.isImpostor || target.isImpostor then NotImpostor
    else if actor.location != target.location then NotInRoom
    else Killed
  }

  /** The whole effect of `kill` on the session. notify_kill has an empty
      body and contributes nothing. */
  function KillStep(s: Session, actor: nat, target: nat): (Session, KillCode)
    requires actor < |s.players| && target < |s.players|
  {
    var code := KillCheck(s.players[actor], s.players[target]);
    if code != Killed then (s, code)
    else
      var t := s.players[target];
      (s.(players := s.players[target := t.(state := StateDead)],
          log := s.log + [Send(t.fd, Death(ByKill))]),
       code)
  }

  /** A failed kill changes no player, sends nothing and leaves the game
      stage alone. */
  lemma KillFailureChangesNothing(s: Session, actor: nat, target: nat)
    requires actor < |s.players| && target < |s.players|
    requires KillStep(s, actor, target).1 != Killed
    ensures KillStep(s, actor, target).0 == s
  {
  }

  /** A successful kill marks only the target dead, leaves every other field
      of every player (the actor included) as it was, and sends exactly one
      death notification, to the target's connection. */
  lemma KillSuccessMarksOnlyTarget(s: Session, actor: nat, target: nat)
    requires actor < |s.players| && target < |s.players|
    requires KillStep(s, actor, target).1 == Killed
    ensures actor != target
    ensures var s' := KillStep(s, actor, target).0;
      && |s'.players| == |s.players|
      && !Alive(s'.players[target])
      && s'.players[target] == s.players[target].(state := StateDead)
      && s'.players[actor] == s.players[actor]
      && (forall j :: 0 <= j < |s.players| && j != target ==> s'.players[j] == s.players[j])
      && s'.log == s.log + [Send(s.players[target].fd, Death(ByKill))]
      && s'.stage == s.stage
  {
  }

  /** The order of the checks: from a kill that succeeds, changing only the
      target's stage, only the actor's impostor flag, or only the target's
      room yields each failure code in turn. */
  lemma KillPreconditionOrder(actor: Player, target: Player, other: PlayerStage, room: int)
    requires KillCheck(actor, target) == Killed
    requires other != StageMain && room != actor.location
    ensures KillCheck(actor, target.(stage := other)) == InvalidPlayer
    ensures KillCheck(actor.(isImpostor := false), target) == NotImpostor
    ensures KillCheck(actor, target.(isImpostor := true)) == NotImpostor
    ensures KillCheck(actor, target.(location := room)) == NotInRoom
  {
  }

  /** `kill` never looks at the target's liveness: a target that is already
      dead but still in the main stage is killed again and gets a second
      death notification. */
  lemma KillIgnoresLiveness(s: Session, actor: nat, target: nat)
    requires actor < |s.players| && target < |s.players|
    requires KillCheck(s.players[actor], s.players[target]) == Killed
    ensures var once := KillStep(s, actor, target).0;
      && !Alive(once.players[target])
      && KillStep(once, actor, target).1 == Killed
      && KillStep(once, actor, target).0.log
         == s.log + [Send(s.players[target].fd, Death(ByKill)), Send(s.players[target].fd, Death(ByKill))]
  {
  }

  /** No kill brings a dead player back. */
  lemma KillKeepsDeadDead(s: Session, actor: nat, target: nat, j: nat)
    requires actor < |s.players| && target < |s.players| && j < |s.players|
    requires !Alive(s.players[j])
    ensures |KillStep(s, actor, target).0.players| == |s.players|
    ensures !Alive(KillStep(s, actor, target).0.players[j])
  {
  }
}
