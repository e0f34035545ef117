/** Read-only views of the player table: lookup by connection handle, the
    first free slot, liveness, and the "one slot per handle" invariant. */
module PlayerTable {
  import opened Types

  /** The scan of get_pid_by_fd from index `from` on: the lowest index at or
      after `from` whose slot holds `fd`, or -1 when there is none. */
  function PidFrom(tbl: seq<Player>, fd: int, from: nat): (pid: int)
    requires from <= |tbl|
    ensures pid == -1 || from <= pid < |tbl|
    ensures pid >= 0 ==> tbl[pid].fd == fd
    ensures pid >= 0 ==> forall j :: from <= j < pid ==> tbl[j].fd != fd
    ensures pid == -1 <==> forall j :: from <= j < |tbl| ==> tbl[j].fd != fd
    decreases |tbl| - from
  {
    if from == |tbl| then -1
    else if tbl[from].fd == fd then from
    else PidFrom(tbl, fd, from + 1)
  }

  /** get_pid_by_fd: the lowest slot holding `fd`, or -1. */
  function GetPidByFd(tbl: seq<Player>, fd: int): (pid: int)
    ensures -1 <= pid < |tbl|
    ensures pid >= 0 ==> tbl[pid].fd == fd && forall j :: 0 <= j < pid ==> tbl[j].fd != fd
    ensures pid == -1 <==> forall j :: 0 <= j < |tbl| ==> tbl[j].fd != fd
  {
    PidFrom(tbl, fd, 0)
  }

  /** The test welcome_client uses for an unoccupied slot. */
  predicate IsFree(p: Player) {
    p.fd <= 0
  }

  /** The scan of welcome_client from index `from` on: the lowest free slot
      at or after `from`, if any. */
  function FreeFrom(tbl: seq<Player>, from: nat): (slot: Option<nat>)
    requires from <= |tbl|
    ensures slot.Some? ==> from <= slot.value < |tbl| && IsFree(tbl[slot.value])
    ensures slot.Some? ==> forall j :: from <= j < slot.value ==> !IsFree(tbl[j])
    ensures slot.None? <==> forall j :: from <= j < |tbl| ==> !IsFree(tbl[j])
    decreases |tbl| - from
  {
    if from == |tbl| then None
    else if IsFree(tbl[from]) then Some(from)
    else FreeFrom(tbl, from + 1)
  }

  /** The slot welcome_client claims: the lowest one with `fd <= 0`. */
  function FirstFree(tbl: seq<Player>): (slot: Option<nat>)
    ensures slot.Some? ==> slot.value < |tbl| && IsFree(tbl[slot.value])
    ensures slot.Some? ==> forall j :: 0 <= j < slot.value ==> !IsFree(tbl[j])
    ensures slot.None? <==> forall j :: 0 <= j < |tbl| ==> !IsFree(tbl[j])
  {
    FreeFrom(tbl, 0)
  }

  /** alive: the player's vital state is ALIVE. */
  predicate Alive(p: Player): (r: bool)
    ensures r <==> p.state != StateDead
  {
    p.state == StateAlive
  }

  /** An occupied slot's handle appears in no other slot. */
  ghost predicate UniqueFds(tbl: seq<Player>) {
    forall i, j :: 0 <= i < |tbl| && 0 <= j < |tbl| && i != j && !IsFree(tbl[i]) ==> tbl[i].fd != tbl[j].fd
  }

  /** Under the invariant, looking up an occupied slot's handle finds that
      very slot. */
  lemma LookupFindsOwner(tbl: seq<Player>, i: nat)
    requires UniqueFds(tbl)
    requires i < |tbl| && !IsFree(tbl[i])
    ensures GetPidByFd(tbl, tbl[i].fd) == i
  {
  }
}
