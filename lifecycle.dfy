/** Connection lifecycle: welcome_client claims the first free slot or turns
    the connection away; disconnect_client frees a slot. */
module Lifecycle {
  import opened Types
  import opened PlayerTable

  /** The whole effect of welcome_client(fd) on the session, with its return
      value: greet, then claim the first slot with `fd <= 0`, or report
      "full" and close the connection. */
  function WelcomeStep(s: Session, fd: int): (Session, int) {
    var greeted := s.log + [Send(fd, Info)];
    match FirstFree(s.players)
    case Some(i) =>
      var announce := if s.stage != GameLobby then [Broadcast(-1, GameStatus(InProgress))] else [];
      (s.(players := s.players[i := s.players[i].(fd := fd, stage := StageName)],
          log := greeted + announce),
       0)
    case None =>
      (s.(log := greeted + [Send(fd, GameStatus(Full)), Close(fd)]), -1)
  }

  /** The whole effect of disconnect_client on slot `pid`. The leave status
      carries the name as it was; the win check runs before the name is
      cleared. */
  function DisconnectStep(s: Session, pid: nat, shouldBroadcast: bool): Session
    requires pid < |s.players|
  {
    var p := s.players[pid];
    var leave := if shouldBroadcast then [Broadcast(-1, PlayerStatus(Leave, p.name))] else [];
    s.(players := s.players[pid := p.(fd := -1, name := "")],
       log := s.log + leave + [CheckWin])
  }

  /** With a free slot, welcome claims the lowest one, sets its handle and
      puts it in the naming stage, touches no other slot, and announces
      "in progress" exactly when the game is not in the lobby. */
  lemma WelcomeClaimsFirstFree(s: Session, fd: int, i: nat)
    requires i < |s.players| && IsFree(s.players[i])
    requires forall j :: 0 <= j < i ==> !IsFree(s.players[j])
    ensures var (s', r) := WelcomeStep(s, fd);
      && r == 0
      && |s'.players| == |s.players|
      && s'.players[i] == s.players[i].(fd := fd, stage := StageName)
      && (forall j :: 0 <= j < |s.players| && j != i ==> s'.players[j] == s.players[j])
      && s'.stage == s.stage
      && s'.log == s.log + [Send(fd, Info)]
                   + (if s.stage != GameLobby then [Broadcast(-1, GameStatus(InProgress))] else [])
  {
  }

  /** With every slot taken, welcome changes no slot, tells the new
      connection the game is full, closes it and returns -1. */
  lemma WelcomeFullRejects(s: Session, fd: int)
    requires forall j :: 0 <= j < |s.players| ==> !IsFree(s.players[j])
    ensures var (s', r) := WelcomeStep(s, fd);
      && r == -1
      && s'.players == s.players
      && s'.stage == s.stage
      && s'.log == s.log + [Send(fd, Info), Send(fd, GameStatus(Full)), Close(fd)]
  {
  }

  /** Welcome returns 0 exactly when some slot is free. */
  lemma WelcomeSucceedsIffFree(s: Session, fd: int)
    ensures WelcomeStep(s, fd).1 == 0 <==> exists j :: 0 <= j < |s.players| && IsFree(s.players[j])
    ensures WelcomeStep(s, fd).1 == 0 || WelcomeStep(s, fd).1 == -1
  {
  }

  /** A new handle, once welcomed, is looked up to the slot it claimed. */
  lemma WelcomeThenLookup(s: Session, fd: int)
    requires FirstFree(s.players).Some?
    requires forall j :: 0 <= j < |s.players| ==> s.players[j].fd != fd
    ensures GetPidByFd(WelcomeStep(s, fd).0.players, fd) == FirstFree(s.players).value
  {
    var i := FirstFree(s.players).value;
    var t := WelcomeStep(s, fd).0.players;
    assert t == s.players[i := s.players[i].(fd := fd, stage := StageName)];
    assert t[i].fd == fd;
    assert forall j :: 0 <= j < |t| && j != i ==> t[j].fd != fd;
  }

  /** Welcoming a handle that no slot holds keeps every occupied handle in
      exactly one slot. */
  lemma WelcomePreservesUnique(s: Session, fd: int)
    requires UniqueFds(s.players)
    requires forall j :: 0 <= j < |s.players| ==> s.players[j].fd != fd
    ensures UniqueFds(WelcomeStep(s, fd).0.players)
  {
  }

  /** Disconnect leaves the slot with handle -1 and an empty name and every
      other field and slot as it was; it broadcasts a leave status with the
      old name exactly when asked to, then runs the win check. */
  lemma DisconnectFreesSlot(s: Session, pid: nat, shouldBroadcast: bool)
    requires pid < |s.players|
    ensures var s' := DisconnectStep(s, pid, shouldBroadcast);
      && |s'.players| == |s.players|
      && s'.players[pid] == s.players[pid].(fd := -1, name := "")
      && IsFree(s'.players[pid])
      && (forall j :: 0 <= j < |s.players| && j != pid ==> s'.players[j] == s.players[j])
      && s'.stage == s.stage
      && s'.log == s.log
                   + (if shouldBroadcast then [Broadcast(-1, PlayerStatus(Leave, s.players[pid].name))] else [])
                   + [CheckWin]
  {
  }

  /** Disconnecting any slot, occupied or not, keeps every occupied handle
      in exactly one slot. */
  lemma DisconnectPreservesUnique(s: Session, pid: nat, shouldBroadcast: bool)
    requires pid < |s.players|
    requires UniqueFds(s.players)
    ensures UniqueFds(DisconnectStep(s, pid, shouldBroadcast).players)
  {
  }

  /** The handle an occupied slot released is no longer found. */
  lemma DisconnectReleasesHandle(s: Session, pid: nat, shouldBroadcast: bool)
    requires pid < |s.players|
    requires UniqueFds(s.players) && !IsFree(s.players[pid])
    ensures GetPidByFd(DisconnectStep(s, pid, shouldBroadcast).players, s.players[pid].fd) == -1
  {
  }

  /** Disconnect is not idempotent: a second call on the same slot leaves
      the table as the first did but broadcasts another leave status (now
      with the cleared, empty name) and runs the win check again. */
  lemma DisconnectTwiceBroadcastsTwice(s: Session, pid: nat)
    requires pid < |s.players|
    ensures var once := DisconnectStep(s, pid, true);
      && DisconnectStep(once, pid, true).players == once.players
      && DisconnectStep(once, pid, true).log
         == once.log + [Broadcast(-1, PlayerStatus(Leave, "")), CheckWin]
  {
  }

  /** Welcoming each handle of `fds` in turn. */
  function WelcomeAll(s: Session, fds: seq<int>): Session
    decreases |fds|
  {
    if fds == [] then s else WelcomeAll(WelcomeStep(s, fds[0]).0, fds[1..])
  }

  /** With slots `[0, k)` taken and the rest free, welcoming positive
      handles fills the next slots in order and touches nothing else. */
  lemma {:induction false} WelcomeAllFillsInOrder(s: Session, fds: seq<int>, k: nat)
    requires k + |fds| <= |s.players|
    requires forall j :: 0 <= j < k ==> !IsFree(s.players[j])
    requires forall j :: k <= j < |s.players| ==> IsFree(s.players[j])
    requires forall j :: 0 <= j < |fds| ==> fds[j] > 0
    ensures var t := WelcomeAll(s, fds).players;
      && |t| == |s.players|
      && (forall j :: k <= j < k + |fds| ==> t[j] == s.players[j].(fd := fds[j - k], stage := StageName))
      && (forall j :: 0 <= j < |t| && !(k <= j < k + |fds|) ==> t[j] == s.players[j])
    decreases |fds|
  {
    if fds != [] {
      WelcomeClaimsFirstFree(s, fds[0], k);
      var s1 := WelcomeStep(s, fds[0]).0;
      WelcomeAllFillsInOrder(s1, fds[1..], k + 1);
      var t := WelcomeAll(s, fds).players;
      assert t == WelcomeAll(s1, fds[1..]).players;
      forall j | k <= j < k + |fds|
        ensures t[j] == s.players[j].(fd := fds[j - k], stage := StageName)
      {
        if j > k {
          assert fds[1..][j - (k + 1)] == fds[j - k];
        }
      }
    }
  }

  /** Capacity ceiling: once as many positive handles as there are slots
      have been welcomed into an empty table, the next welcome is refused
      and leaves the table as it is. */
  lemma CapacityCeiling(s: Session, fds: seq<int>, fd: int)
    requires |fds| == |s.players|
    requires forall j :: 0 <= j < |s.players| ==> IsFree(s.players[j])
    requires forall j :: 0 <= j < |fds| ==> fds[j] > 0
    ensures var full := WelcomeAll(s, fds);
      && WelcomeStep(full, fd).1 == -1
      && WelcomeStep(full, fd).0.players == full.players
  {
    WelcomeAllFillsInOrder(s, fds, 0);
  }
}
