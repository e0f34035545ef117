# Player-session core of the among-foss game server

This project models the player-session core of `src/client.c` of a small
multiplayer social-deduction game server. The core works over a fixed-size
global table of player slots and a global game stage:

- **Slot lookup** (`get_pid_by_fd`): a linear scan for the slot holding a
  connection handle, or -1.
- **Kill rule** (`kill`): three checks in a fixed order (target in the main
  stage, actor impostor and target not, same room). The first failure's
  code is returned; otherwise the target is marked dead and told so.
- **Slot allocation** (`welcome_client`): the first slot with `fd <= 0` is
  claimed and put in the naming stage, or the connection is told the game
  is full and closed.
- **Slot release** (`disconnect_client`): the handle is set to -1, a leave
  status is broadcast on request, the win check runs, the name is cleared.
- **Per-line dispatcher** (`handle_input`): a bad read or end of stream
  becomes a disconnect. Otherwise the buffer is cut at the first CR/LF and
  parsed. A non-object is dropped, and the object is offered to the generic
  packet handler. Failing that, it is handled by the player's stage: a name
  in the naming stage; a chat or a command in the lobby; nothing in the main
  and waiting stages.

Layout:

- `types.dfy` (module `Types`): the player record, the stages, a parsed
  JSON value, the outbound events, and `Session` (table, game stage, event
  log) as a value.
- `table.dfy` (`PlayerTable`): lookup by handle, the first free slot,
  `Alive`, and the invariant that an occupied handle sits in one slot.
- `kill.dfy` (`KillRule`), `lifecycle.dfy` (`Lifecycle`) and `dispatch.dfy`
  (`Dispatch`): each C function as a step function on `Session`
  (`KillStep`, `WelcomeStep`, `DisconnectStep`, `DispatchStep`,
  `HandleInputStep`), with the lemmas that state what each one does.
- `client.dfy` (`Client`): the class `Server`, which holds the table as an
  `array<Player>`, the game stage and the event log. Its methods `Kill`,
  `Welcome`, `Disconnect`, `Dispatch` and `HandleInput` update them in place
  as the C code does. Each method is proved to have exactly the effect of
  its step function. The in-place loops of `handle_input` are methods of
  their own: the CR/LF cut on the input array, the non-blank test, and the
  command-argument array.
- `welcome_bound.dfy` (`WelcomeBound`): the `welcome_client` loop with its
  bound as written (see Findings).

Sends, broadcasts, closes and calls to `check_win_condition` and
`parse_command` are appended to an event log. The JSON parser, the generic
packet handler `handle_packet` and the name check `is_valid_name` are
function parameters, so every property holds whatever they return.

## Model

| member | source | states |
|---|---|---|
| `PlayerTable.PidFrom` | src/client.c:6-13 | the scan from an index returns the lowest matching slot at or after it, or -1 exactly when no slot from there on holds the handle |
| `PlayerTable.GetPidByFd` | src/client.c:6-13 | the result is -1 or a slot index; when non-negative it is the lowest slot holding `fd`; it is -1 exactly when no slot holds `fd` |
| `PlayerTable.FreeFrom` | src/client.c:48-50 | the scan from an index finds the lowest slot with `fd <= 0` at or after it, or none exactly when every slot from there on has `fd > 0` |
| `PlayerTable.FirstFree` | src/client.c:48-50 | the slot welcome claims is the lowest with `fd <= 0`; there is none exactly when every slot has `fd > 0` |
| `PlayerTable.Alive` | src/client.c:15-17 | a player is alive exactly when it is not dead; a successful kill makes its target not alive (`KillRule.KillSuccessMarksOnlyTarget`) |
| `PlayerTable.LookupFindsOwner` | src/client.c:6-13 | while each occupied handle sits in one slot, looking up an occupied slot's handle returns that slot |
| `KillRule.KillCheck` | src/client.c:23-33 | `InvalidPlayer` iff the target is not in the main stage; `NotImpostor` iff it is but the actor is not an impostor or the target is one; `NotInRoom` iff both pass but the rooms differ; success iff all three pass |
| `KillRule.KillFailureChangesNothing` | src/client.c:23-33 | a failed kill leaves the table, the game stage and the event log exactly as they were |
| `KillRule.KillSuccessMarksOnlyTarget` | src/client.c:35-41 | a successful kill has actor and target distinct, sets only the target's state to dead, leaves the actor and every other slot unchanged, and appends exactly one death notification to the target's handle |
| `KillRule.KillPreconditionOrder` | src/client.c:24-33 | from a successful kill, changing only the target's stage gives `InvalidPlayer`; only the actor's impostor flag, or the target's, gives `NotImpostor`; only the target's room gives `NotInRoom` |
| `KillRule.KillIgnoresLiveness` | src/client.c:23-35 | a dead target still in the main stage is killed again and receives a second death notification |
| `KillRule.KillKeepsDeadDead` | src/client.c:23-41 | no kill makes a dead player alive |
| `Lifecycle.WelcomeClaimsFirstFree` | src/client.c:45-61 | with a free slot, welcome returns 0 and sets the lowest free slot's handle to `fd` and its stage to naming. No other slot or field changes. The log gets the info message, then "in progress" exactly when the game is not in the lobby |
| `Lifecycle.WelcomeFullRejects` | src/client.c:63-67 | with every slot taken, welcome returns -1, changes no slot, and logs info, "full" to the new handle, and its close |
| `Lifecycle.WelcomeSucceedsIffFree` | src/client.c:45-67 | welcome returns 0 exactly when some slot has `fd <= 0`, and -1 otherwise |
| `Lifecycle.WelcomeThenLookup` | src/client.c:45-61 | after a handle no slot held is welcomed, looking it up returns the slot it claimed |
| `Lifecycle.WelcomePreservesUnique` | src/client.c:48-56 | welcoming a handle no slot holds keeps every occupied handle in exactly one slot |
| `Lifecycle.DisconnectFreesSlot` | src/client.c:71-81 | disconnect leaves the slot with handle -1 and an empty name, changes nothing else, and logs a leave status with the old name exactly when asked, followed by the win check |
| `Lifecycle.DisconnectPreservesUnique` | src/client.c:71-81 | disconnecting any slot, occupied or not, keeps every occupied handle in exactly one slot |
| `Lifecycle.DisconnectReleasesHandle` | src/client.c:71-72 | after an occupied slot is disconnected, its old handle is no longer found |
| `Lifecycle.DisconnectTwiceBroadcastsTwice` | src/client.c:71-81 | a second disconnect of the same slot leaves the table as the first did but logs another leave status (with the cleared name) and another win check |
| `Lifecycle.WelcomeAllFillsInOrder` | src/client.c:45-61 | welcoming positive handles into a table whose first slots are taken and rest free fills the next slots in order and touches no other slot |
| `Lifecycle.CapacityCeiling` | src/client.c:45-67 | after as many positive handles as there are slots have been welcomed into an empty table, the next welcome returns -1 and changes no slot |
| `Dispatch.ReadBuffer` | src/client.c:85-94 | the input buffer holds the received bytes followed by NULs up to `INPUT_MAX` |
| `Dispatch.BreakFrom` | src/client.c:113-118 | finds the first CR or LF at or after an index, or the buffer's end |
| `Dispatch.NulFrom` | src/client.c:120 | finds the first NUL at or after an index, or the buffer's end (where the C string handed to the parser stops) |
| `Dispatch.CutLineChangesOnlyFirstBreak` | src/client.c:113-118 | the CR/LF loop keeps the buffer's length, turns the first CR or LF into a NUL, and changes no other character |
| `Dispatch.LineIsLongestCleanPrefix` | src/client.c:85-120 | the text given to the parser is the longest prefix of the received bytes holding no CR, LF or NUL |
| `Dispatch.StringArg` | src/client.c:144-149 | a field yields a string exactly when it is present and a JSON string, and the string is that field's |
| `Dispatch.StringArgs` | src/client.c:201-213 | the argument array has one entry per array element; entry `i` is set exactly when element `i` is a string, and then holds it |
| `Dispatch.ReadFailureDisconnects` | src/client.c:96-111 | a negative, over-long or zero read frees the slot and clears its name. A leave status goes out exactly when the player was past naming. The result is -1, or -2 for end of stream |
| `Dispatch.HandleInputSeesOnlyLine` | src/client.c:113-131 | two reads of the same length whose lines, cut at the first CR/LF, agree have the same effect and the same result |
| `Dispatch.GoodReadReturnsZero` | src/client.c:120-136 | after a good read the result is 0, and input that does not parse to a JSON object changes nothing; an object the generic packet handler accepts skips the stage switch and changes nothing here, and one it declines has exactly the effect of `DispatchStep` |
| `Dispatch.NamingGate` | src/client.c:140-160 | in the naming stage, a player moves on only to the lobby. This happens exactly for a `name` message whose string name passes the name check while the game is in the lobby. A message of any other type, a `name` message without a string name, and one whose name the check rejects change nothing |
| `Dispatch.NamingAccepted` | src/client.c:149-165 | an accepted name is stored. In the lobby the stage becomes lobby and a LEAVE status is broadcast to all but the sender. The greeting is always sent. While a round runs, the stage stays naming |
| `Dispatch.ChatWithoutMessageIgnored` | src/client.c:168-172 | a lobby chat whose `message` is missing or not a string leaves the session unchanged |
| `Dispatch.ChatBroadcastIffNonBlank` | src/client.c:168-187 | a lobby chat is broadcast to all but the sender, with the sender's name, exactly when it holds a character that is not white space; the table never changes |
| `Dispatch.BlankExamples` | src/client.c:175-179 | a message of spaces, tabs and line ends is blank; one letter makes it non-blank |
| `Dispatch.CommandForwardsStringArgs` | src/client.c:188-215 | a lobby command with a string `command` and an array `arguments` reaches the command parser once, with string elements kept at their own indices; anything else is dropped; the table never changes |
| `Dispatch.MainAndWaitingIgnored` | src/client.c:220-224 | the main and waiting stages change nothing |
| `Dispatch.HandleInputFrame` | src/client.c:84-228 | apart from the effects of `handle_packet`, `check_win_condition` and `parse_command`, which are not modelled, handle_input changes only the sender's slot and never its liveness. It leaves the game stage alone, only appends to the log, and keeps occupied handles unique |
| `Client.CutAtLineBreak` | src/client.c:113-118 | the in-place loop leaves the buffer equal to the cut of its old contents |
| `Client.HasNonSpace` | src/client.c:175-179 | the flag equals `NonBlank(message)`: it is set exactly when some character of the message is not white space |
| `Client.CollectStringArguments` | src/client.c:201-213 | the array filled by the loop equals the argument array described by `StringArgs` |
| `Client.Server.Kill` | src/client.c:23-42 | the new table, log and return code are those of `KillStep` on the old session |
| `Client.Server.Welcome` | src/client.c:45-68 | the new table, log and return value are those of `WelcomeStep` on the old session |
| `Client.Server.Disconnect` | src/client.c:71-81 | the new table and log are those of `DisconnectStep` on the old session |
| `Client.Server.Dispatch` | src/client.c:139-225 | the new table and log are those of `DispatchStep` on the old session |
| `Client.Server.HandleInput` | src/client.c:84-228 | the new table, log and return value are those of `HandleInputStep` on the old session |
| `WelcomeBound.ScanRunsOffTheEnd` | src/client.c:48-50 | past a run of taken slots reaching the table's end, the loop as written reads one slot past the end when its bound lies beyond the table |
| `WelcomeBound.FullTableOverrunsAsWritten` | src/client.c:48-67 | with every slot taken, the loop bounded by `sizeof(players)` reads `players[NUM_PLAYERS]` instead of replying "full" |
| `WelcomeBound.ScanAgreesWhenFree` | src/client.c:48-61 | while some slot is free, the loop as written claims the same slot as the scan bounded by the table size |

### Where the code differs from the intended design

The model follows the code. It differs from the design in these places:

- A successful name in the lobby broadcasts a LEAVE status, not a join
  (src/client.c:159). See `Dispatch.NamingAccepted`.
- A name accepted while a round runs is stored, but the player stays in the
  naming stage (src/client.c:157-160). So "naming stage implies an empty
  name" holds only if `is_valid_name` rejects every name it is offered.
- `kill` has no liveness guard (src/client.c:23-35). See
  `KillRule.KillIgnoresLiveness`.
- `disconnect_client` is not idempotent: each call with `should_broadcast`
  broadcasts again (src/client.c:71-75). See
  `Lifecycle.DisconnectTwiceBroadcastsTwice`.
- A slot counts as free when `fd <= 0`, not only when it is -1
  (src/client.c:49).
- `welcome_client` resets only the handle and the stage of the slot it
  claims (src/client.c:55-56). Liveness, room and impostor flag carry over
  from the slot's previous occupant.

## Left out

- `read`, `close` and `printf` are I/O. The read is the pair `len` and
  `received`, with `ReadResult` saying that a result in `[0, INPUT_MAX)`
  counts the received bytes. `close` is a `Close` event. Logging is dropped.
- The JSON library (`convert_string_to_json_object`, `json_object_*`) is a
  parser parameter `parse`. The helpers `get_type`, `is_type`,
  `get_argument` and `is_valid_json` are in a file that is not part of this
  model. They are read as "the field is present and is a JSON string"
  (`StringArg`, `TypeOf`). A JSON string holds what the library hands back
  as a C string.
- Message formatting (`JSON_*` macros, `send_json_data`, `broadcast_json`)
  is reduced to abstract `Send` and `Broadcast` events.
- `handle_packet` is a verdict parameter. Its own effects on the table are
  not modelled, because its code is not shown.
- `is_valid_name` is a parameter over the name and the handle. That it reads
  the table for uniqueness is not modelled.
- `check_win_condition` and `parse_command` are recorded as `CheckWin` and
  `ParseCommand` events. Their effects are not modelled, because their code
  is not shown.
- `notify_kill` has an empty body and is a no-op.
- Client.Server.HandleInput: requires that `fd` resolves to a slot. The C
  code indexes `players[-1]` otherwise (src/client.c:89-90), which is
  undefined behaviour.
- The `strcpy` into the fixed-size name buffer (src/client.c:155) is
  modelled as a plain assignment. The buffer size is in `server.h`, which
  is not part of this model.
- `NUM_PLAYERS` and `INPUT_MAX` are defined in `server.h`, which is not
  part of this model. They have representative values, and no property
  depends on them beyond the size of the table and the buffer.
- The JSON_KILL_* return codes are the constructors of `KillCode`; their
  integer values are in a header that is not part of this model. `kill`
  takes slot indices where the C code takes pointers into the table.
- In the command-argument array, entries for non-string elements stay
  uninitialised in C. The model writes them as `None` ("unset").
- The command-argument array is a variable-length array of
  `arguments_length` entries (src/client.c:204). An empty `arguments` array
  makes it zero-length, which C leaves undefined; the model forwards `[]`.
- `parse_command` receives no length (src/client.c:215); the length of the
  argument sequence in a `ParseCommand` event is added by the model.
- The chat-arguments object built at src/client.c:181-184 is passed to
  `JSON_CHAT` at src/client.c:187 and never released in this file. Its
  content, the sender's name and the text, is the `Chat` event; the leak is
  not modelled.
- A `Broadcast` event records the connection it skips, not the set of
  recipients: `broadcast_json` reaches the connections the table holds at
  that moment. Disconnect clears the handle before its broadcast and welcome
  broadcasts before claiming the slot, so the affected player is not among
  them; the model does not state this.
- The game stage is either the lobby or not. No other value of
  `state.stage` is tested by this core.

## Findings

| source | as written | input that shows it | evidently intended | confidence | as-written member | corrected member |
|---|---|---|---|---|---|---|
| src/client.c:48 | the slot loop runs while `i < sizeof(players)`, a byte count of NUM_PLAYERS times the record size | every slot has `fd > 0` and a player record is larger than one byte (it holds an `int`): the loop reads `players[NUM_PLAYERS]`, past the table | the loop stops at NUM_PLAYERS and a full table gets the "full" reply and -1 | high; not executed | `WelcomeBound.FullTableOverrunsAsWritten` | `Lifecycle.WelcomeFullRejects` |
