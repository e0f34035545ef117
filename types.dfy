/** Values shared by the player-session core: the player record, the stages,
    the parsed JSON value and the outbound events that sends, broadcasts and
    calls into unseen collaborators leave behind. */
module Types {

  datatype Option<+T> = None | Some(value: T)

  /** Capacity of the global player table (NUM_PLAYERS in server.h, which is
      not part of this model; the value is representative). */
  const NUM_PLAYERS: nat := 10

  /** Size of the per-read input buffer (INPUT_MAX in server.h, not part of
      this model; the value is representative). */
  const INPUT_MAX: nat := 1024

  /** A player's own onboarding / gameplay phase (PLAYER_STAGE_*). */
  datatype PlayerStage = StageName | StageLobby | StageMain | StageWaiting

  /** A player's liveness (PLAYER_STATE_*), independent of the stage. */
  datatype VitalState = StateAlive | StateDead

  /** The global game phase `state.stage`: the lobby, or anything else. */
  datatype GameStage = GameLobby | GameInProgress

  /** One slot of the global `players` table (struct player). A slot with
      `fd <= 0` counts as free when a connection is welcomed. */
  datatype Player = Player(
    fd: int,
    name: string,
    stage: PlayerStage,
    state: VitalState,
    location: int,
    isImpostor: bool)

  /** A parsed JSON value, as far as the core inspects it. Strings hold what
      the JSON library hands back as a C string. */
  datatype Json =
    | JString(str: string)
    | JArray(items: seq<Json>)
    | JObject(fields: map<string, Json>)
    | JScalar  // numbers, booleans and null

  datatype StatusKind = Join | Leave
  datatype GameStatusKind = Full | InProgress
  datatype DeathCause = ByKill

  /** The abstract content of an outbound JSON message. */
  datatype Outbound =
    | Info
    | Greeting
    | GameStatus(game: GameStatusKind)
    | PlayerStatus(kind: StatusKind, who: string)
    | Chat(sender: string, text: string)
    | Death(cause: DeathCause)

  /** One observable effect of the core, in the order it happens.
      `Broadcast(except, m)` goes to the connections the table holds when
      it is sent, other than `except`; -1 names no connection to skip. */
  datatype Event =
    | Send(to: int, msg: Outbound)
    | Broadcast(except: int, msg: Outbound)
    | Close(fd: int)
    | CheckWin
    | ParseCommand(pid: nat, command: string, arguments: seq<Option<string>>)

  /** The state the core reads and writes: the global `players` table, the
      global `state.stage`, and the events emitted so far. */
  datatype Session = Session(players: seq<Player>, stage: GameStage, log: seq<Event>)
}
