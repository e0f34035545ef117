/** handle_input as a function of the session: the read-result checks, the
    cut at the first CR/LF, and the per-stage handling of one parsed line. */
module Dispatch {
  import opened Types
  import opened PlayerTable
  import opened Lifecycle

  // ---------------------------------------------------------------------
  // The input line

  /** What read() hands back: a result `len` and the bytes it stored. A
      result in `[0, INPUT_MAX)` is the number of bytes stored. */
  predicate ReadResult(len: int, received: seq<char>) {
    |received| < INPUT_MAX && (0 <= len < INPUT_MAX ==> |received| == len)
  }

  /** The zero-initialised `input` buffer after the read. */
  function ReadBuffer(received: seq<char>): (b: seq<char>)
    requires |received| < INPUT_MAX
    ensures |b| == INPUT_MAX
    ensures b[..|received|] == received
    ensures forall j :: |received| <= j < INPUT_MAX ==> b[j] == '\0'
  {
    received + seq(INPUT_MAX - |received|, _ => '\0')
  }

  predicate IsBreak(c: char) {
    c == '\n' || c == '\r'
  }

  /** The index of the first CR or LF at or after `from`, or `|s|`. */
  function BreakFrom(s: seq<char>, from: nat): (k: nat)
    requires from <= |s|
    ensures from <= k <= |s|
    ensures forall j :: from <= j < k ==> !IsBreak(s[j])
    ensures k < |s| ==> IsBreak(s[k])
    decreases |s| - from
  {
    if from == |s| then |s|
    else if IsBreak(s[from]) then from
    else BreakFrom(s, from + 1)
  }

  /** The buffer after the CR/LF loop: the first CR or LF, if any, becomes
      a NUL; nothing else changes. */
  function CutLine(s: seq<char>): seq<char> {
    var k := BreakFrom(s, 0);
    if k < |s| then s[k := '\0'] else s
  }

  /** The index of the first NUL at or after `from`, or `|s|`. */
  function NulFrom(s: seq<char>, from: nat): (k: nat)
    requires from <= |s|
    ensures from <= k <= |s|
    ensures forall j :: from <= j < k ==> s[j] != '\0'
    ensures k < |s| ==> s[k] == '\0'
    decreases |s| - from
  {
    if from == |s| then |s|
    else if s[from] == '\0' then from
    else NulFrom(s, from + 1)
  }

  /** The C string a buffer holds: everything before its first NUL. */
  function CString(s: seq<char>): seq<char> {
    s[..NulFrom(s, 0)]
  }

  /** The text handed to the JSON parser for the bytes of one read. */
  function Line(received: seq<char>): seq<char>
    requires |received| < INPUT_MAX
  {
    CString(CutLine(ReadBuffer(received)))
  }

  /** The CR/LF loop changes at most one character, the first CR or LF,
      and nothing before it. */
  lemma CutLineChangesOnlyFirstBreak(s: seq<char>)
    ensures |CutLine(s)| == |s|
    ensures forall j :: 0 <= j < |s| && j != BreakFrom(s, 0) ==> CutLine(s)[j] == s[j]
    ensures BreakFrom(s, 0) < |s| ==> CutLine(s)[BreakFrom(s, 0)] == '\0'
  {
  }

  /** The line the parser sees is the longest prefix of the received bytes
      that holds no CR, LF or NUL. */
  lemma {:induction false} LineIsLongestCleanPrefix(received: seq<char>)
    requires |received| < INPUT_MAX
    ensures var line := Line(received);
      && |line| <= |received|
      && line == received[..|line|]
      && (forall j :: 0 <= j < |line| ==> !IsBreak(line[j]) && line[j] != '\0')
      && (|line| < |received| ==> IsBreak(received[|line|]) || received[|line|] == '\0')
  {
    var b := ReadBuffer(received);
    var k := BreakFrom(b, 0);
    var c := CutLine(b);
    CutLineChangesOnlyFirstBreak(b);
    var n := NulFrom(c, 0);
    assert n <= k by {
      if k < |b| { assert c[k] == '\0'; }
    }
    assert n <= |received| by {
      if |received| < |b| {
        assert c[|received|] == '\0' by {
          if |received| != k { assert c[|received|] == b[|received|]; }
        }
      }
    }
    assert forall j :: 0 <= j < n ==> c[j] == b[j] == received[j];
    assert Line(received) == c[..n];
    if n < |received| {
      if n < k { assert c[n] == b[n]; }
    }
  }

  // ---------------------------------------------------------------------
  // Reading the parsed object

  /** A string-valued field of a parsed object, if present as a string. */
  function StringArg(fields: map<string, Json>, key: string): (arg: Option<string>)
    ensures arg.Some? <==> key in fields && fields[key].JString?
    ensures arg.Some? ==> fields[key] == JString(arg.value)
  {
    if key in fields && fields[key].JString? then Some(fields[key].str) else None
  }

  /** The message type: the object's `type` string, if any. */
  function TypeOf(fields: map<string, Json>): Option<string> {
    StringArg(fields, "type")
  }

  /** isspace() in the C locale. */
  predicate IsSpace(c: char) {
    c == ' ' || c == '\t' || c == '\n' || c == 11 as char || c == 12 as char || c == '\r'
  }

  /** A chat message is worth broadcasting when some character is not
      white space. */
  predicate NonBlank(m: string) {
    exists i :: 0 <= i < |m| && !IsSpace(m[i])
  }

  /** The command argument array: index `i` holds element `i` when it is a
      string and is left unset otherwise; nothing is compacted. */
  function StringArgs(items: seq<Json>): (args: seq<Option<string>>)
    ensures |args| == |items|
    ensures forall i :: 0 <= i < |items| ==> (args[i].Some? <==> items[i].JString?)
    ensures forall i :: 0 <= i < |items| && args[i].Some? ==> items[i] == JString(args[i].value)
  {
    seq(|items|, i requires 0 <= i < |items| => if items[i].JString? then Some(items[i].str) else None)
  }

  // ---------------------------------------------------------------------
  // handle_input

  /** The built-in handling of one parsed object for player `pid` (whose
      handle is `fd`), after the generic packet handler declined it. */
  function DispatchStep(s: Session, pid: nat, fd: int, fields: map<string, Json>,
                        isValidName: (string, int) -> bool): Session
    requires pid < |s.players|
  {
    var p := s.players[pid];
    match p.stage
    case StageName =>
      var name := StringArg(fields, "name");
      if TypeOf(fields) != Some("name") || name.None? || !isValidName(name.value, fd) then s
      else if s.stage == GameLobby then
        s.(players := s.players[pid := p.(name := name.value, stage := StageLobby)],
           log := s.log + [Broadcast(fd, PlayerStatus(Leave, name.value)), Send(p.fd, Greeting)])
      else
        s.(players := s.players[pid := p.(name := name.value)],
           log := s.log + [Send(p.fd, Greeting)])
    case StageLobby =>
      if TypeOf(fields) == Some("message") then
        var m := StringArg(fields, "message");
        if m.Some? && NonBlank(m.value) then s.(log := s.log + [Broadcast(fd, Chat(p.name, m.value))]) else s
      else if TypeOf(fields) == Some("command") then
        if "command" !in fields || "arguments" !in fields then s
        else if !fields["command"].JString? || !fields["arguments"].JArray? then s
        else s.(log := s.log + [ParseCommand(pid, fields["command"].str, StringArgs(fields["arguments"].items))])
      else s
    case StageMain => s
    case StageWaiting => s
  }

  /** The whole effect of handle_input(fd) with its return value, given the
      read result, the JSON parser, the generic packet handler's verdict and
      the name check. */
  function HandleInputStep(s: Session, fd: int, len: int, received: seq<char>,
                           parse: string -> Option<Json>,
                           handlePacket: (nat, Option<string>, Json) -> bool,
                           isValidName: (string, int) -> bool): (Session, int)
    requires GetPidByFd(s.players, fd) >= 0
    requires ReadResult(len, received)
  {
    var pid := GetPidByFd(s.players, fd);
    var named := s.players[pid].stage != StageName;
    if len < 0 || len >= INPUT_MAX then (DisconnectStep(s, pid, named), -1)
    else if len == 0 then (DisconnectStep(s, pid, named), -2)
    else
      match parse(Line(received))
      case Some(JObject(fields)) =>
        if handlePacket(pid, TypeOf(fields), JObject(fields)) then (s, 0)
        else (DispatchStep(s, pid, fd, fields, isValidName), 0)
      case _ => (s, 0)
  }

  // ---------------------------------------------------------------------
  // Properties

  /** A failed read (negative or over-long) or end of stream disconnects the
      player, broadcasting a leave status exactly when the player had left
      the naming stage, and returns -1 or -2 respectively. */
  lemma ReadFailureDisconnects(s: Session, fd: int, len: int, received: seq<char>,
                               parse: string -> Option<Json>,
                               handlePacket: (nat, Option<string>, Json) -> bool,
                               isValidName: (string, int) -> bool)
    requires GetPidByFd(s.players, fd) >= 0
    requires ReadResult(len, received)
    requires len <= 0 || len >= INPUT_MAX
    ensures var pid := GetPidByFd(s.players, fd);
      var (s', r) := HandleInputStep(s, fd, len, received, parse, handlePacket, isValidName);
      && r == (if len == 0 then -2 else -1)
      && s'.players == s.players[pid := s.players[pid].(fd := -1, name := "")]
      && s'.stage == s.stage
      && s'.log == s.log
                   + (if s.players[pid].stage != StageName
                      then [Broadcast(-1, PlayerStatus(Leave, s.players[pid].name))] else [])
                   + [CheckWin]
  {
  }

  /** After a successful read the result is 0, and input that does not
      parse to an object changes nothing. An object the generic packet
      handler accepts skips the stage switch and changes nothing here; one
      it declines has exactly the effect of the stage switch. */
  lemma GoodReadReturnsZero(s: Session, fd: int, len: int, received: seq<char>,
                            parse: string -> Option<Json>,
                            handlePacket: (nat, Option<string>, Json) -> bool,
                            isValidName: (string, int) -> bool)
    requires GetPidByFd(s.players, fd) >= 0
    requires ReadResult(len, received)
    requires 0 < len < INPUT_MAX
    ensures HandleInputStep(s, fd, len, received, parse, handlePacket, isValidName).1 == 0
    ensures !parse(Line(received)).Some? || !parse(Line(received)).value.JObject? ==>
      HandleInputStep(s, fd, len, received, parse, handlePacket, isValidName).0 == s
    ensures parse(Line(received)).Some? && parse(Line(received)).value.JObject? ==>
      var o := parse(Line(received)).value;
      var pid := GetPidByFd(s.players, fd);
      HandleInputStep(s, fd, len, received, parse, handlePacket, isValidName).0
        == if handlePacket(pid, TypeOf(o.fields), o) then s
           else DispatchStep(s, pid, fd, o.fields, isValidName)
  {
  }

  /** handle_input depends on the received bytes only through the cut line
      the parser sees: two reads of the same length whose lines agree have
      the same effect and result. */
  lemma HandleInputSeesOnlyLine(s: Session, fd: int, len: int, received: seq<char>, other: seq<char>,
                                parse: string -> Option<Json>,
                                handlePacket: (nat, Option<string>, Json) -> bool,
                                isValidName: (string, int) -> bool)
    requires GetPidByFd(s.players, fd) >= 0
    requires ReadResult(len, received) && ReadResult(len, other)
    requires Line(received) == Line(other)
    ensures HandleInputStep(s, fd, len, received, parse, handlePacket, isValidName)
         == HandleInputStep(s, fd, len, other, parse, handlePacket, isValidName)
  {
  }

  /** Naming gate: a player in the naming stage moves on, and then only to
      the lobby, exactly when a `name` message carries a string name that
      passes the name check while the game is in the lobby. Any other
      message leaves the stage alone; a message of another type, one
      without a string name, or one whose name the check rejects changes
      nothing at all. */
  lemma NamingGate(s: Session, pid: nat, fd: int, fields: map<string, Json>,
                   isValidName: (string, int) -> bool)
    requires pid < |s.players| && s.players[pid].stage == StageName
    ensures var s' := DispatchStep(s, pid, fd, fields, isValidName);
      && |s'.players| == |s.players|
      && (s'.players[pid].stage == StageLobby <==>
            TypeOf(fields) == Some("name") && StringArg(fields, "name").Some?
            && isValidName(StringArg(fields, "name").value, fd) && s.stage == GameLobby)
      && (s'.players[pid].stage == StageName || s'.players[pid].stage == StageLobby)
    ensures TypeOf(fields) != Some("name") ==> DispatchStep(s, pid, fd, fields, isValidName) == s
    ensures StringArg(fields, "name").None? || !isValidName(StringArg(fields, "name").value, fd) ==>
      DispatchStep(s, pid, fd, fields, isValidName) == s
  {
  }

  /** An accepted name is stored and greeted; in the lobby the player moves
      to the lobby stage and a LEAVE status (not a join) goes to everyone
      else; while a round runs, the player keeps the naming stage with the
      accepted name. */
  lemma NamingAccepted(s: Session, pid: nat, fd: int, fields: map<string, Json>,
                       isValidName: (string, int) -> bool, name: string)
    requires pid < |s.players| && s.players[pid].stage == StageName
    requires TypeOf(fields) == Some("name") && StringArg(fields, "name") == Some(name)
    requires isValidName(name, fd)
    ensures var s' := DispatchStep(s, pid, fd, fields, isValidName);
      var p := s.players[pid];
      && s'.players == s.players[pid := p.(name := name,
                                            stage := if s.stage == GameLobby then StageLobby else StageName)]
      && s'.log == s.log
                   + (if s.stage == GameLobby then [Broadcast(fd, PlayerStatus(Leave, name))] else [])
                   + [Send(p.fd, Greeting)]
  {
  }

  /** Blank chat suppression: a lobby chat message is broadcast, to all but
      the sender and with the sender's name, exactly when it holds a
      character that is not white space; the table never changes. */
  lemma ChatBroadcastIffNonBlank(s: Session, pid: nat, fd: int, fields: map<string, Json>,
                                 isValidName: (string, int) -> bool, m: string)
    requires pid < |s.players| && s.players[pid].stage == StageLobby
    requires TypeOf(fields) == Some("message") && StringArg(fields, "message") == Some(m)
    ensures var s' := DispatchStep(s, pid, fd, fields, isValidName);
      && s'.players == s.players
      && s'.log == s.log + (if NonBlank(m) then [Broadcast(fd, Chat(s.players[pid].name, m))] else [])
  {
  }

  /** A lobby chat whose `message` is missing or not a string is dropped:
      the session is left as it was. */
  lemma ChatWithoutMessageIgnored(s: Session, pid: nat, fd: int, fields: map<string, Json>,
                                  isValidName: (string, int) -> bool)
    requires pid < |s.players| && s.players[pid].stage == StageLobby
    requires TypeOf(fields) == Some("message") && StringArg(fields, "message").None?
    ensures DispatchStep(s, pid, fd, fields, isValidName) == s
  {
  }

  /** A message of spaces, tabs and line ends is blank; one letter makes it
      worth broadcasting. */
  lemma BlankExamples()
    ensures !NonBlank("   ")
    ensures !NonBlank(" \t\r\n")
    ensures NonBlank("  a ")
  {
    assert !IsSpace("  a "[2]);
  }

  /** A lobby command with a string `command` and an array `arguments` is
      handed to the command parser with the string elements kept at their
      own indices; anything else is dropped. The table never changes. */
  lemma CommandForwardsStringArgs(s: Session, pid: nat, fd: int, fields: map<string, Json>,
                                  isValidName: (string, int) -> bool)
    requires pid < |s.players| && s.players[pid].stage == StageLobby
    requires TypeOf(fields) == Some("command")
    ensures var s' := DispatchStep(s, pid, fd, fields, isValidName);
      && s'.players == s.players
      && (if "command" in fields && "arguments" in fields
             && fields["command"].JString? && fields["arguments"].JArray?
          then s'.log == s.log + [ParseCommand(pid, fields["command"].str, StringArgs(fields["arguments"].items))]
          else s'.log == s.log)
  {
  }

  /** Players in the main or waiting stage get no built-in handling. */
  lemma MainAndWaitingIgnored(s: Session, pid: nat, fd: int, fields: map<string, Json>,
                              isValidName: (string, int) -> bool)
    requires pid < |s.players|
    requires s.players[pid].stage == StageMain || s.players[pid].stage == StageWaiting
    ensures DispatchStep(s, pid, fd, fields, isValidName) == s
  {
  }

  /** Apart from the effects of handle_packet, check_win_condition and
      parse_command, which are not modelled, handle_input touches only the
      sending player's slot, never changes the game stage, only appends to
      the events, keeps every occupied handle in one slot, and never
      brings a dead player back. */
  lemma HandleInputFrame(s: Session, fd: int, len: int, received: seq<char>,
                         parse: string -> Option<Json>,
                         handlePacket: (nat, Option<string>, Json) -> bool,
                         isValidName: (string, int) -> bool)
    requires GetPidByFd(s.players, fd) >= 0
    requires ReadResult(len, received)
    ensures var pid := GetPidByFd(s.players, fd);
      var s' := HandleInputStep(s, fd, len, received, parse, handlePacket, isValidName).0;
      && |s'.players| == |s.players|
      && (forall j :: 0 <= j < |s.players| && j != pid ==> s'.players[j] == s.players[j])
      && s'.players[pid].state == s.players[pid].state
      && s'.stage == s.stage
      && s.log <= s'.log
      && (UniqueFds(s.players) ==> UniqueFds(s'.players))
  {
  }
}
