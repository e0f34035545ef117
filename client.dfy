/** The imperative core of src/client.c: the global player table and game
    stage held by one object, whose methods update them in place as the C
    functions do, each proved to have exactly the effect of its step
    function. */
module Client {
  import opened Types
  import opened PlayerTable
  import opened KillRule
  import opened Lifecycle
  import opened Dispatch

  /** The CR/LF loop of handle_input: the first CR or LF in the buffer, if
      any, is overwritten with a NUL and the scan stops. */
  method CutAtLineBreak(input: array<char>)
    modifies input
    ensures input[..] == CutLine(old(input[..]))
  {
    var i := 0;
    while i < input.Length
      invariant 0 <= i <= input.Length
      invariant input[..] == old(input[..])
      invariant forall j :: 0 <= j < i ==> !IsBreak(input[j])
    {
      if input[i] == '\n' || input[i] == '\r' {
        input[i] := '\0';
        return;
      }
      i := i + 1;
    }
  }

  /** The blank-message loop of the lobby chat: `valid` ends up set exactly
      when some character is not white space. */
  method HasNonSpace(message: string) returns (valid: bool)
    ensures valid == NonBlank(message)
  {
    valid := false;
    for i := 0 to |message|
      invariant valid <==> exists j :: 0 <= j < i && !IsSpace(message[j])
    {
      if !IsSpace(message[i]) {
        valid := true;
      }
    }
  }

  /** The argument loop of the lobby command: slot `i` of the result holds
      element `i` when it is a string and stays unset otherwise. */
  method CollectStringArguments(items: seq<Json>) returns (args: seq<Option<string>>)
    ensures args == StringArgs(items)
  {
    var arguments := new Option<string>[|items|](_ => None);
    for i := 0 to |items|
      invariant forall j :: 0 <= j < i ==> arguments[j] == StringArgs(items)[j]
      invariant forall j :: i <= j < |items| ==> arguments[j] == None
    {
      if items[i].JString? {
        arguments[i] := Some(items[i].str);
      }
    }
    args := arguments[..];
  }

  /** The global `players` table, the global `state.stage`, and the
      outbound events (sends, broadcasts, closes, calls to unseen
      collaborators) in the order the core emits them. */
  class Server {
    var players: array<Player>
    var stage: GameStage
    var log: seq<Event>

    ghost predicate Valid()
      reads this
    {
      players.Length == NUM_PLAYERS
    }

    /** The session as a value. */
    ghost function State(): Session
      reads this, players
    {
      Session(players[..], stage, log)
    }

    /** A server over a given table and game stage, with nothing sent yet. */
    constructor (initial: seq<Player>, gameStage: GameStage)
      requires |initial| == NUM_PLAYERS
      ensures Valid() && fresh(players)
      ensures State() == Session(initial, gameStage, [])
    {
      players := new Player[NUM_PLAYERS](j => if 0 <= j < |initial| then initial[j] else Player(-1, "", StageName, StateAlive, 0, false));
      stage := gameStage;
      log := [];
      new;
      assert players[..] == initial;
    }

    /** kill: checks, in order, that the target is in the main stage, that
        the actor is an impostor and the target is not, and that they share
        a room; returns the first failure, or marks the target dead and
        sends it a death notification. */
    method Kill(actor: nat, target: nat) returns (code: KillCode)
      requires Valid() && actor < NUM_PLAYERS && target < NUM_PLAYERS
      modifies this, players
      ensures Valid() && players == old(players)
      ensures (State(), code) == KillStep(old(State()), actor, target)
    {
      var p := players[actor];
      var t := players[target];
      if t.stage != StageMain {
        return InvalidPlayer;
      }
      if !p.isImpostor || t.isImpostor {
        return NotImpostor;
      }
      if p.location != t.location {
        return NotInRoom;
      }
      players[target] := players[target].(state := StateDead);
      log := log + [Send(players[target].fd, Death(ByKill))];
      return Killed;
    }

    /** welcome_client: greets the connection, then claims the first slot
        with `fd <= 0` (announcing "in progress" when the game has left the
        lobby) and returns 0, or reports "full", closes the connection and
        returns -1. */
    method Welcome(fd: int) returns (r: int)
      requires Valid()
      modifies this, players
      ensures Valid() && players == old(players)
      ensures (State(), r) == WelcomeStep(old(State()), fd)
    {
      log := log + [Send(fd, Info)];
      var i := 0;
      while i < players.Length
        invariant 0 <= i <= players.Length
        invariant players[..] == old(players[..]) && stage == old(stage)
        invariant log == old(log) + [Send(fd, Info)]
        invariant forall j :: 0 <= j < i ==> !IsFree(players[j])
      {
        if players[i].fd > 0 {
          i := i + 1;
          continue;
        }
        assert FirstFree(players[..]) == Some(i);
        if stage != GameLobby {
          log := log + [Broadcast(-1, GameStatus(InProgress))];
        }
        ghost var before := players[..];
        players[i] := players[i].(fd := fd, stage := StageName);
        assert players[..] == before[i := before[i].(fd := fd, stage := StageName)];
        assert old(State()).players == before;
        assert FirstFree(old(State()).players) == Some(i);
        assert log == old(log) + [Send(fd, Info)] + (if old(stage) != GameLobby then [Broadcast(-1, GameStatus(InProgress))] else []);
        return 0;
      }
      log := log + [Send(fd, GameStatus(Full)), Close(fd)];
      return -1;
    }

    /** disconnect_client: releases the slot's handle, broadcasts a leave
        status with the player's name when asked to, runs the win check,
        and clears the name. */
    method Disconnect(pid: nat, shouldBroadcast: bool)
      requires Valid() && pid < NUM_PLAYERS
      modifies this, players
      ensures Valid() && players == old(players)
      ensures State() == DisconnectStep(old(State()), pid, shouldBroadcast)
    {
      players[pid] := players[pid].(fd := -1);
      if shouldBroadcast {
        log := log + [Broadcast(-1, PlayerStatus(Leave, players[pid].name))];
      }
      log := log + [CheckWin];
      players[pid] := players[pid].(name := "");
    }

    /** The stage switch of handle_input, for a parsed object the generic
        packet handler declined. */
    method Dispatch(pid: nat, fd: int, fields: map<string, Json>, isValidName: (string, int) -> bool)
      requires Valid() && pid < NUM_PLAYERS
      modifies this, players
      ensures Valid() && players == old(players)
      ensures State() == DispatchStep(old(State()), pid, fd, fields, isValidName)
    {
      match players[pid].stage {
        case StageName =>
          if TypeOf(fields) != Some("name") {
            return;
          }
          var arg := StringArg(fields, "name");
          if arg.None? {
            return;
          }
          var name := arg.value;
          if !isValidName(name, fd) {
            return;
          }
          players[pid] := players[pid].(name := name);
          if stage == GameLobby {
            players[pid] := players[pid].(stage := StageLobby);
            log := log + [Broadcast(fd, PlayerStatus(Leave, players[pid].name))];
          }
          log := log + [Send(players[pid].fd, Greeting)];
        case StageLobby =>
          if TypeOf(fields) == Some("message") {
            var arg := StringArg(fields, "message");
            if arg.None? {
              return;
            }
            var valid := HasNonSpace(arg.value);
            if valid {
              log := log + [Broadcast(fd, Chat(players[pid].name, arg.value))];
            }
          } else if TypeOf(fields) == Some("command") {
            if "command" !in fields || "arguments" !in fields {
              return;
            }
            var command := fields["command"];
            var arguments := fields["arguments"];
            if !command.JString? || !arguments.JArray? {
              return;
            }
            var stringArguments := CollectStringArguments(arguments.items);
            log := log + [ParseCommand(pid, command.str, stringArguments)];
          }
        case StageMain =>
        case StageWaiting =>
      }
    }

    /** handle_input: resolves the handle to its slot, turns a bad read or
        end of stream into a disconnect, cuts the line at the first CR/LF,
        drops anything that is not a JSON object, offers the object to the
        generic packet handler and otherwise dispatches on the stage. */
    method HandleInput(fd: int, len: int, received: seq<char>,
                       parse: string -> Option<Json>,
                       handlePacket: (nat, Option<string>, Json) -> bool,
                       isValidName: (string, int) -> bool) returns (r: int)
      requires Valid() && GetPidByFd(players[..], fd) >= 0
      requires ReadResult(len, received)
      modifies this, players
      ensures Valid() && players == old(players)
      ensures (State(), r) == HandleInputStep(old(State()), fd, len, received, parse, handlePacket, isValidName)
    {
      var pid: nat := GetPidByFd(players[..], fd);
      if len < 0 || len >= INPUT_MAX {
        Disconnect(pid, players[pid].stage != StageName);
        return -1;
      }
      if len == 0 {
        Disconnect(pid, players[pid].stage != StageName);
        return -2;
      }
      var input := new char[INPUT_MAX](j => if 0 <= j < |received| then received[j] else '\0');
      assert input[..] == ReadBuffer(received);
      CutAtLineBreak(input);
      var parsed := parse(CString(input[..]));
      if !(parsed.Some? && parsed.value.JObject?) {
        return 0;
      }
      var fields := parsed.value.fields;
      if handlePacket(pid, TypeOf(fields), parsed.value) {
        return 0;
      }
      Dispatch(pid, fd, fields, isValidName);
      return 0;
    }
  }
}
