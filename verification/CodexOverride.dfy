/** The hook override that a codex process is started with (internal/codexhook/codexhook.go). */
module CodexOverride {
  import opened Bytes
  import opened Decimals
  import opened Toml

  datatype HookEvent = HookEvent(name: string, key: string, timeout: nat)

  const HOOK_TIMEOUT: nat := 15
  const SESSION_END_TIMEOUT: nat := 3

  const EVENTS: seq<HookEvent> := [
    HookEvent("SessionStart", "session_start", HOOK_TIMEOUT),
    HookEvent("SessionEnd", "session_end", SESSION_END_TIMEOUT),
    HookEvent("UserPromptSubmit", "user_prompt_submit", HOOK_TIMEOUT),
    HookEvent("PermissionRequest", "permission_request", HOOK_TIMEOUT),
    HookEvent("PreToolUse", "pre_tool_use", HOOK_TIMEOUT),
    HookEvent("Stop", "stop", HOOK_TIMEOUT),
    HookEvent("SubagentStart", "subagent_start", HOOK_TIMEOUT),
    HookEvent("SubagentStop", "subagent_stop", HOOK_TIMEOUT),
    HookEvent("PreCompact", "pre_compact", HOOK_TIMEOUT),
    HookEvent("PostCompact", "post_compact", HOOK_TIMEOUT)
  ]

  function SessionFlagsPath(windows: bool): string {
    if windows then "C:\\<session-flags>\\config.toml" else "/<session-flags>/config.toml"
  }

  function HookKey(windows: bool, eventKey: string): string {
    SessionFlagsPath(windows) + ":" + eventKey + ":0:0"
  }

  /** The trust hash of a handler by event key, command and timeout; none if it cannot be computed. */
  type TrustHash = (string, string, nat) -> Option<string>

  /** What the environment supplies: the white-space table and the hash. */
  datatype World = World(space: char -> bool, hash: TrustHash)

  predicate Blank(w: World, cmd: string) {
    forall i :: 0 <= i < |cmd| ==> w.space(cmd[i])
  }

  predicate Refused(w: World, cmd: string) {
    Blank(w, cmd) || '\r' in cmd || '\n' in cmd || '\0' in cmd
  }

  // ---------------------------------------------------------------- what codex should read

  function HandlerEntries(cmd: string, timeout: nat): Entries {
    Entry(Bare("type"), Text("command"), Entry(Bare("command"), Text(cmd), Entry(Bare("timeout"), Number(timeout), NoEntries)))
  }

  function Single(v: Value): Value {
    Array(Item(v, NoItems))
  }

  /** The value of one event: one group with one handler. */
  function Handler(cmd: string, timeout: nat): Value {
    Single(Table(Entry(Bare("hooks"), Single(Table(HandlerEntries(cmd, timeout))), NoEntries)))
  }

  function Trust(hash: string): Value {
    Table(Entry(Bare("trusted_hash"), Text(hash), NoEntries))
  }

  function EventEntries(events: seq<HookEvent>, cmd: string, tail: Entries): Entries {
    if events == [] then tail
    else Entry(Bare(events[0].name), Handler(cmd, events[0].timeout), EventEntries(events[1..], cmd, tail))
  }

  function StateEntries(events: seq<HookEvent>, hashes: seq<string>, windows: bool): Entries
    requires |events| == |hashes|
  {
    if events == [] then NoEntries
    else Entry(Named(HookKey(windows, events[0].key)), Trust(hashes[0]), StateEntries(events[1..], hashes[1..], windows))
  }

  function Override(cmd: string, hashes: seq<string>, windows: bool): Value
    requires |hashes| == |EVENTS|
  {
    Table(EventEntries(EVENTS, cmd, Entry(Bare("state"), Table(StateEntries(EVENTS, hashes, windows)), NoEntries)))
  }

  // ---------------------------------------------------------------- the builder

  datatype Result = Ok(text: string) | EmptyCommand | ControlCharacter | HashFailed

  predicate Hashed(w: World, cmd: string, events: seq<HookEvent>) {
    forall i :: 0 <= i < |events| ==> w.hash(events[i].key, cmd, events[i].timeout).Some?
  }

  predicate AllHashed(w: World, cmd: string) {
    Hashed(w, cmd, EVENTS)
  }

  function Hashes(w: World, cmd: string): (hashes: seq<string>)
    requires AllHashed(w, cmd)
    ensures |hashes| == |EVENTS|
  {
    seq(|EVENTS|, i requires 0 <= i < |EVENTS| && AllHashed(w, cmd) => w.hash(EVENTS[i].key, cmd, EVENTS[i].timeout).value)
  }

  /** What the builder writes for one event, and for its trust. */
  function EventText(ev: HookEvent, cmd: string): string {
    ev.name + "=[{hooks=[{type=\"command\",command=" + Quoted(cmd) + ",timeout=" + Decimal(ev.timeout) + "}]}]"
  }

  function StateText(ev: HookEvent, hash: string, windows: bool): string {
    Quoted(HookKey(windows, ev.key)) + "={trusted_hash=" + Quoted(hash) + "}"
  }

  function WithCommas(parts: seq<string>): string {
    if parts == [] then ""
    else if |parts| == 1 then parts[0]
    else WithCommas(parts[..|parts| - 1]) + "," + parts[|parts| - 1]
  }

  lemma WithCommasGrows(parts: seq<string>, part: string)
    ensures WithCommas(parts + [part]) == if parts == [] then part else WithCommas(parts) + "," + part
  {
    assert (parts + [part])[..|parts|] == parts;
  }

  lemma {:induction false} WithCommasFromFront(part: string, parts: seq<string>)
    ensures WithCommas([part] + parts) == if parts == [] then part else part + "," + WithCommas(parts)
  {
    if parts == [] {
      assert [part] + parts == [part];
    } else {
      var before, last := parts[..|parts| - 1], parts[|parts| - 1];
      assert parts == before + [last];
      assert [part] + parts == ([part] + before) + [last];
      WithCommasFromFront(part, before);
      WithCommasGrows([part] + before, last);
      WithCommasGrows(before, last);
      RegroupList(part, ",", WithCommas(before), last);
    }
  }

  function EventTexts(events: seq<HookEvent>, cmd: string): seq<string> {
    if events == [] then [] else [EventText(events[0], cmd)] + EventTexts(events[1..], cmd)
  }

  function StateTexts(events: seq<HookEvent>, hashes: seq<string>, windows: bool): seq<string>
    requires |events| == |hashes|
  {
    if events == [] then []
    else [StateText(events[0], hashes[0], windows)] + StateTexts(events[1..], hashes[1..], windows)
  }

  lemma {:induction false} EventTextsGrow(events: seq<HookEvent>, ev: HookEvent, cmd: string)
    ensures EventTexts(events + [ev], cmd) == EventTexts(events, cmd) + [EventText(ev, cmd)]
  {
    if events == [] {
      assert [] + [ev] == [ev];
    } else {
      EventTextsGrow(events[1..], ev, cmd);
      assert (events + [ev])[1..] == events[1..] + [ev];
    }
  }

  lemma {:induction false} StateTextsGrow(events: seq<HookEvent>, ev: HookEvent, hashes: seq<string>, hash: string, windows: bool)
    requires |events| == |hashes|
    ensures StateTexts(events + [ev], hashes + [hash], windows) ==
            StateTexts(events, hashes, windows) + [StateText(ev, hash, windows)]
  {
    if events == [] {
      assert [] + [ev] == [ev] && [] + [hash] == [hash];
    } else {
      StateTextsGrow(events[1..], ev, hashes[1..], hash, windows);
      assert (events + [ev])[1..] == events[1..] + [ev] && (hashes + [hash])[1..] == hashes[1..] + [hash];
    }
  }

  ghost predicate HashesOf(w: World, cmd: string, events: seq<HookEvent>, hashes: seq<string>) {
    && |hashes| == |events|
    && forall i :: 0 <= i < |events| ==> w.hash(events[i].key, cmd, events[i].timeout) == Some(hashes[i])
  }

  /** What has been written when the events `done` are. */
  ghost predicate Written(w: World, cmd: string, windows: bool, done: seq<HookEvent>, hashes: seq<string>, texts: (string, string)) {
    && HashesOf(w, cmd, done, hashes)
    && texts == (WithCommas(EventTexts(done, cmd)), WithCommas(StateTexts(done, hashes, windows)))
    && (texts.0 == "" <==> done == [])
  }

  /** One round of the loop over the events. */
  method WriteEvent(w: World, texts: (string, string), ghost done: seq<HookEvent>, ghost hashes: seq<string>, ev: HookEvent,
                    hash: string, cmd: string, windows: bool) returns (longer: (string, string))
    requires Written(w, cmd, windows, done, hashes, texts) && w.hash(ev.key, cmd, ev.timeout) == Some(hash)
    ensures Written(w, cmd, windows, done + [ev], hashes + [hash], longer)
  {
    TextsGrow(done, ev, hashes, hash, cmd, windows);
    var (events, state) := texts;
    if events != "" {
      events, state := events + ",", state + ",";
    }
    var command := TomlQuote(cmd);
    var key := TomlQuote(HookKey(windows, ev.key));
    var quotedHash := TomlQuote(hash);
    events := events +
      (ev.name + "=[{hooks=[{type=\"command\",command=" + command + ",timeout=" + Decimal(ev.timeout) + "}]}]");
    state := state + (key + "={trusted_hash=" + quotedHash + "}");
    longer := (events, state);
  }

  lemma NothingWritten(w: World, cmd: string, windows: bool)
    ensures Written(w, cmd, windows, [], [], ("", ""))
  {
  }

  lemma PrefixGrows(events: seq<HookEvent>, i: nat)
    requires i < |events|
    ensures events[..i] + [events[i]] == events[..i + 1]
  {
  }

  /** The loop over the events. */
  method WriteEvents(w: World, cmd: string, windows: bool, events: seq<HookEvent>)
    returns (r: Option<(string, string)>, ghost hashes: seq<string>)
    ensures r.Some? <==> Hashed(w, cmd, events)
    ensures r.Some? ==> Written(w, cmd, windows, events, hashes, r.value)
  {
    var texts := ("", "");
    hashes := [];
    NothingWritten(w, cmd, windows);
    for i := 0 to |events|
      invariant Written(w, cmd, windows, events[..i], hashes, texts)
    {
      var ev := events[i];
      var h := w.hash(ev.key, cmd, ev.timeout);
      if h.None? {
        return None, [];
      }
      texts := WriteEvent(w, texts, events[..i], hashes, ev, h.value, cmd, windows);
      PrefixGrows(events, i);
      hashes := hashes + [h.value];
    }
    assert events[..|events|] == events;
    r := Some(texts);
  }

  /** BuildConfigOverride: the text of the override, or why there is none. */
  method BuildConfigOverride(w: World, cmd: string, windows: bool) returns (r: Result)
    ensures r == EmptyCommand <==> forall i :: 0 <= i < |cmd| ==> w.space(cmd[i])
    ensures r == ControlCharacter <==>
      (exists i :: 0 <= i < |cmd| && !w.space(cmd[i])) && ('\r' in cmd || '\n' in cmd || '\0' in cmd)
    ensures r == HashFailed <==> !Refused(w, cmd) && !AllHashed(w, cmd)
    ensures r.Ok? ==> !Refused(w, cmd) && AllHashed(w, cmd) && r.text == Print(Override(cmd, Hashes(w, cmd), windows))
  {
    if forall i :: 0 <= i < |cmd| ==> w.space(cmd[i]) {
      return EmptyCommand;
    }
    if '\r' in cmd || '\n' in cmd || '\0' in cmd {
      return ControlCharacter;
    }
    var texts, hashes := WriteEvents(w, cmd, windows, EVENTS);
    if texts.None? {
      return HashFailed;
    }
    assert hashes == Hashes(w, cmd);
    TableIsPrinted(EVENTS, cmd, hashes, windows);
    r := Ok("{" + texts.value.0 + ",state={" + texts.value.1 + "}}");
  }

  lemma TextsGrow(events: seq<HookEvent>, ev: HookEvent, hashes: seq<string>, hash: string, cmd: string, windows: bool)
    requires |events| == |hashes|
    ensures WithCommas(EventTexts(events + [ev], cmd)) ==
            (if events == [] then "" else WithCommas(EventTexts(events, cmd)) + ",") + EventText(ev, cmd)
    ensures WithCommas(StateTexts(events + [ev], hashes + [hash], windows)) ==
            (if events == [] then "" else WithCommas(StateTexts(events, hashes, windows)) + ",") + StateText(ev, hash, windows)
  {
    EventTextsGrow(events, ev, cmd);
    WithCommasGrows(EventTexts(events, cmd), EventText(ev, cmd));
    StateTextsGrow(events, ev, hashes, hash, windows);
    WithCommasGrows(StateTexts(events, hashes, windows), StateText(ev, hash, windows));
  }

  // ---------------------------------------------------------------- the text is the value, printed

  lemma {:induction false} PlainIsItself(s: string)
    requires forall i :: 0 <= i < |s| ==> Escape(s[i]) == [s[i]]
    ensures Escaped(s) == s
  {
    if s != "" {
      PlainIsItself(s[1..]);
      assert s == [s[0]] + s[1..];
    }
  }

  // The texts below are joined from pieces in two ways. Regrouping is proved for any pieces, and what the
  // pieces make together is proved without any variable part.

  lemma PrintOnly(k: Key, v: Value)
    ensures PrintEntries(Entry(k, v, NoEntries)) == PrintKey(k) + "=" + Print(v)
  {
  }

  lemma PrintNext(k: Key, v: Value, tail: Entries)
    requires tail.Entry?
    ensures PrintEntries(Entry(k, v, tail)) == PrintKey(k) + "=" + Print(v) + "," + PrintEntries(tail)
  {
  }

  lemma PrintSingle(v: Value)
    ensures Print(Single(v)) == "[" + Print(v) + "]"
  {
  }

  lemma RegroupHandler(a: string, b: string, cmd: string, c: string, d: string, timeout: string)
    ensures a + (b + cmd + c + (d + timeout)) == (a + b) + cmd + (c + d) + timeout
  {
  }

  lemma HandlerIsPrinted(cmd: string, timeout: nat)
    ensures PrintEntries(HandlerEntries(cmd, timeout)) ==
            "type=\"command\",command=" + Quoted(cmd) + ",timeout=" + Decimal(timeout)
  {
    var last := Entry(Bare("timeout"), Number(timeout), NoEntries);
    var middle := Entry(Bare("command"), Text(cmd), last);
    PrintOnly(Bare("timeout"), Number(timeout));
    PrintNext(Bare("command"), Text(cmd), last);
    PrintNext(Bare("type"), Text("command"), middle);
    PlainIsItself("command");
    RegroupHandler("type" + "=" + Quoted("command") + ",", "command" + "=", Quoted(cmd), ",", "timeout" + "=", Decimal(timeout));
    HandlerPieces();
  }

  lemma HandlerPieces()
    ensures ("type" + "=" + ("\"" + "command" + "\"") + ",") + ("command" + "=") == "type=\"command\",command="
    ensures "," + ("timeout" + "=") == ",timeout="
  {
  }

  lemma EventIsPrinted(ev: HookEvent, cmd: string)
    ensures PrintKey(Bare(ev.name)) + "=" + Print(Handler(cmd, ev.timeout)) == EventText(ev, cmd)
  {
    var table := Table(HandlerEntries(cmd, ev.timeout));
    var group := Table(Entry(Bare("hooks"), Single(table), NoEntries));
    HandlerIsPrinted(cmd, ev.timeout);
    PrintSingle(table);
    PrintOnly(Bare("hooks"), Single(table));
    PrintSingle(group);
    RegroupEvent(ev.name, "=", "[", "{", "hooks" + "=", "type=\"command\",command=", Quoted(cmd), ",timeout=",
                 Decimal(ev.timeout), "}", "]");
    EventPieces();
  }

  lemma RegroupEvent(name: string, eq: string, open: string, brace: string, hooks: string, a: string, cmd: string,
                     b: string, timeout: string, unbrace: string, close: string)
    ensures name + eq + (open + (brace + (hooks + (open + (brace + (a + cmd + b + timeout) + unbrace) + close)) + unbrace) + close)
         == name + ((eq + open + brace + hooks + open + brace) + a) + cmd + b + timeout + (unbrace + close + unbrace + close)
  {
    var inner := a + cmd + b + timeout;
    assert open + (brace + inner + unbrace) + close == open + brace + inner + (unbrace + close);
    assert inner == a + (cmd + b + timeout);
  }

  lemma EventPieces()
    ensures ("=" + "[" + "{" + ("hooks" + "=") + "[" + "{") + "type=\"command\",command=" == "=[{hooks=[{type=\"command\",command="
    ensures "}" + "]" + "}" + "]" == "}]}]"
  {
    assert "=" + "[" + "{" + ("hooks" + "=") + "[" + "{" == "=[{hooks=[{";
    assert "=[{hooks=[{" + "type=\"command\",command=" == "=[{hooks=[{type=\"command\",command=";
  }

  lemma TrustIsPrinted(ev: HookEvent, hash: string, windows: bool)
    ensures PrintKey(Named(HookKey(windows, ev.key))) + "=" + Print(Trust(hash)) == StateText(ev, hash, windows)
  {
    PrintOnly(Bare("trusted_hash"), Text(hash));
    RegroupTrust(Quoted(HookKey(windows, ev.key)), "=", "{", "trusted_hash" + "=", Quoted(hash), "}");
    TrustPieces();
  }

  lemma RegroupTrust(key: string, eq: string, open: string, name: string, hash: string, close: string)
    ensures key + eq + (open + (name + hash) + close) == key + (eq + (open + name)) + hash + close
  {
  }

  lemma TrustPieces()
    ensures "=" + ("{" + ("trusted_hash" + "=")) == "={trusted_hash="
  {
  }

  lemma {:induction false} EventsArePrinted(events: seq<HookEvent>, cmd: string, tail: Entries)
    requires events != [] && tail.Entry?
    ensures EventEntries(events, cmd, tail).Entry?
    ensures PrintEntries(EventEntries(events, cmd, tail)) == WithCommas(EventTexts(events, cmd)) + "," + PrintEntries(tail)
  {
    var first, rest := EventText(events[0], cmd), events[1..];
    EventIsPrinted(events[0], cmd);
    WithCommasFromFront(first, EventTexts(rest, cmd));
    if rest != [] {
      EventsArePrinted(rest, cmd, tail);
    }
    PrintNext(Bare(events[0].name), Handler(cmd, events[0].timeout), EventEntries(rest, cmd, tail));
    RegroupList(first, ",", WithCommas(EventTexts(rest, cmd)), PrintEntries(tail));
  }

  lemma RegroupList(first: string, comma: string, middle: string, last: string)
    ensures first + comma + (middle + comma + last) == first + comma + middle + comma + last
  {
  }

  function Parts(e: Entries): seq<string> {
    match e
    case NoEntries => []
    case Entry(key, value, tail) => [PrintKey(key) + "=" + Print(value)] + Parts(tail)
  }

  lemma {:induction false} PartsArePrinted(e: Entries)
    ensures PrintEntries(e) == WithCommas(Parts(e))
  {
    if e.Entry? {
      PartsArePrinted(e.tail);
      WithCommasFromFront(PrintKey(e.key) + "=" + Print(e.value), Parts(e.tail));
    }
  }

  lemma {:induction false} StateParts(events: seq<HookEvent>, hashes: seq<string>, windows: bool)
    requires |events| == |hashes|
    ensures Parts(StateEntries(events, hashes, windows)) == StateTexts(events, hashes, windows)
  {
    if events != [] {
      TrustIsPrinted(events[0], hashes[0], windows);
      StateParts(events[1..], hashes[1..], windows);
    }
  }

  lemma TableIsPrinted(events: seq<HookEvent>, cmd: string, hashes: seq<string>, windows: bool)
    requires |hashes| == |events| > 0
    ensures Print(Table(EventEntries(events, cmd, Entry(Bare("state"), Table(StateEntries(events, hashes, windows)), NoEntries)))) ==
            "{" + WithCommas(EventTexts(events, cmd)) + ",state={" + WithCommas(StateTexts(events, hashes, windows)) + "}}"
  {
    var state := Table(StateEntries(events, hashes, windows));
    var tail := Entry(Bare("state"), state, NoEntries);
    StateParts(events, hashes, windows);
    PartsArePrinted(StateEntries(events, hashes, windows));
    EventsArePrinted(events, cmd, tail);
    PrintOnly(Bare("state"), state);
    RegroupOverride("{", WithCommas(EventTexts(events, cmd)), ",", "state" + "=", WithCommas(StateTexts(events, hashes, windows)), "}");
    OverridePieces();
  }

  lemma RegroupOverride(open: string, events: string, comma: string, name: string, state: string, close: string)
    ensures open + (events + comma + (name + (open + state + close))) + close ==
            open + events + (comma + (name + open)) + state + (close + close)
  {
  }

  lemma OverridePieces()
    ensures "," + ("state" + "=" + "{") == ",state={"
    ensures "}" + "}" == "}}"
  {
  }

  // ---------------------------------------------------------------- what codex reads

  /** The values a table gives for a name. */
  function Lookup(e: Entries, name: string): seq<Value> {
    match e
    case NoEntries => []
    case Entry(key, value, tail) => (if key.name == name then [value] else []) + Lookup(tail, name)
  }

  lemma SoundOnly(k: Key, v: Value)
    requires Sound(v) && (k.Bare? ==> BareName(k.name))
    ensures SoundEntries(Entry(k, v, NoEntries)) && Sound(Table(Entry(k, v, NoEntries)))
  {
    assert SoundEntries(NoEntries) && Names(NoEntries) == [];
  }

  lemma SoundSingle(v: Value)
    requires Sound(v)
    ensures Sound(Single(v))
  {
    assert SoundItems(NoItems);
    assert SoundItems(Item(v, NoItems));
  }

  lemma HandlerIsSound(cmd: string, timeout: nat)
    ensures Sound(Handler(cmd, timeout))
  {
    var last := Entry(Bare("timeout"), Number(timeout), NoEntries);
    var middle := Entry(Bare("command"), Text(cmd), last);
    var table := Table(HandlerEntries(cmd, timeout));
    SoundOnly(Bare("timeout"), Number(timeout));
    assert SoundEntries(middle);
    assert SoundEntries(HandlerEntries(cmd, timeout));
    assert Names(last) == ["timeout"] + Names(NoEntries) == ["timeout"];
    assert Names(middle) == ["command"] + Names(last) == ["command", "timeout"];
    assert Names(HandlerEntries(cmd, timeout)) == ["type"] + Names(middle) == ["type", "command", "timeout"];
    SoundSingle(table);
    SoundOnly(Bare("hooks"), Single(table));
    SoundSingle(Table(Entry(Bare("hooks"), Single(table), NoEntries)));
  }

  lemma {:induction false} EventNames(events: seq<HookEvent>, cmd: string, tail: Entries)
    ensures Names(EventEntries(events, cmd, tail)) == seq(|events|, i requires 0 <= i < |events| => events[i].name) + Names(tail)
    ensures SoundEntries(tail) && (forall i :: 0 <= i < |events| ==> BareName(events[i].name)) ==>
      SoundEntries(EventEntries(events, cmd, tail))
  {
    if events != [] {
      HandlerIsSound(cmd, events[0].timeout);
      EventNames(events[1..], cmd, tail);
    }
  }

  lemma {:induction false} StateNames(events: seq<HookEvent>, hashes: seq<string>, windows: bool)
    requires |events| == |hashes|
    ensures Names(StateEntries(events, hashes, windows)) ==
            seq(|events|, i requires 0 <= i < |events| => HookKey(windows, events[i].key))
    ensures SoundEntries(StateEntries(events, hashes, windows))
  {
    if events != [] {
      SoundOnly(Bare("trusted_hash"), Text(hashes[0]));
      StateNames(events[1..], hashes[1..], windows);
    }
  }

  /** The key codex looks a handler up by: source, event, group and handler, both of them the first. */
  lemma KnownHookKey()
    ensures HookKey(false, "stop") == "/<session-flags>/config.toml:stop:0:0"
  {
    assert "/<session-flags>/config.toml" + ":" + "stop" == "/<session-flags>/config.toml:stop";
    assert "/<session-flags>/config.toml:stop" + ":0:0" == "/<session-flags>/config.toml:stop:0:0";
  }

  lemma KnownHookKeyOnWindows()
    ensures HookKey(true, "stop") == "C:\\<session-flags>\\config.toml:stop:0:0"
  {
    assert "C:\\<session-flags>\\config.toml" + ":" + "stop" == "C:\\<session-flags>\\config.toml:stop";
    assert "C:\\<session-flags>\\config.toml:stop" + ":0:0" == "C:\\<session-flags>\\config.toml:stop:0:0";
  }

  lemma HookKeysDiffer(windows: bool, a: string, b: string)
    requires HookKey(windows, a) == HookKey(windows, b)
    ensures a == b
  {
    var n := |SessionFlagsPath(windows)| + 1;
    assert HookKey(windows, a)[n..|HookKey(windows, a)| - 4] == a;
    assert HookKey(windows, b)[n..|HookKey(windows, b)| - 4] == b;
  }

  lemma NamesDiffer()
    ensures forall i, j :: 0 <= i < j < |EVENTS| ==> EVENTS[i].name != EVENTS[j].name
    ensures forall i :: 0 <= i < |EVENTS| ==> EVENTS[i].name != "state"
  {
    var names := seq(|EVENTS|, i requires 0 <= i < |EVENTS| => EVENTS[i].name);
    assert |names[0]| == |names[7]| == 12 && names[0][1] != names[7][1];
    assert |names[1]| == |names[4]| == |names[8]| == 10 && names[1][0] != names[4][0] && names[4][3] != names[8][3];
    assert |names[2]| == 16 && |names[3]| == 17 && |names[5]| == 4 && |names[6]| == 13 && |names[9]| == 11;
  }

  lemma KeysDiffer()
    ensures forall i, j :: 0 <= i < j < |EVENTS| ==> EVENTS[i].key != EVENTS[j].key
  {
    var keys := seq(|EVENTS|, i requires 0 <= i < |EVENTS| => EVENTS[i].key);
    assert |keys[0]| == |keys[7]| == 13 && keys[0][1] != keys[7][1];
    assert |keys[1]| == |keys[8]| == 11 && keys[1][0] != keys[8][0];
    assert |keys[2]| == |keys[3]| == 18 && keys[2][0] != keys[3][0];
    assert |keys[4]| == |keys[9]| == 12 && keys[4][1] != keys[9][1];
    assert |keys[5]| == 4 && |keys[6]| == 14;
  }

  lemma FirstNamesAreBare()
    ensures forall i :: 0 <= i < 4 ==> BareName(EVENTS[i].name)
  {
    assert BareName("SessionStart") && BareName("SessionEnd");
    assert BareName("UserPromptSubmit") && BareName("PermissionRequest");
  }

  lemma LastNamesAreBare()
    ensures forall i :: 4 <= i < |EVENTS| ==> BareName(EVENTS[i].name)
  {
    assert BareName("PreToolUse") && BareName("Stop") && BareName("SubagentStart");
    assert BareName("SubagentStop") && BareName("PreCompact") && BareName("PostCompact");
  }

  lemma {:induction false} LookupNone(e: Entries, name: string)
    requires name !in Names(e)
    ensures Lookup(e, name) == []
  {
    if e.Entry? {
      LookupNone(e.tail, name);
    }
  }

  function Values(e: Entries): (values: seq<Value>)
    ensures |values| == |Names(e)|
  {
    match e
    case NoEntries => []
    case Entry(_, value, tail) => [value] + Values(tail)
  }

  lemma DistinctTail(first: string, rest: seq<string>)
    requires Distinct([first] + rest)
    ensures Distinct(rest) && first !in rest
  {
    var names := [first] + rest;
    assert forall i :: 0 <= i < |rest| ==> rest[i] == names[i + 1];
    forall i, j | 0 <= i < j < |rest|
      ensures rest[i] != rest[j]
    {
      assert names[i + 1] != names[j + 1];
    }
    forall k | 0 <= k < |rest|
      ensures rest[k] != first
    {
      assert names[0] != names[k + 1];
    }
  }

  /** In a table without double names each name gives one value, its own. */
  lemma {:induction false} LookupFinds(e: Entries, i: nat)
    requires Distinct(Names(e)) && i < |Names(e)|
    ensures Lookup(e, Names(e)[i]) == [Values(e)[i]]
  {
    DistinctTail(e.key.name, Names(e.tail));
    if i == 0 {
      LookupNone(e.tail, e.key.name);
    } else {
      LookupFinds(e.tail, i - 1);
    }
  }

  lemma {:induction false} EventValues(events: seq<HookEvent>, cmd: string, tail: Entries)
    ensures Values(EventEntries(events, cmd, tail)) ==
            seq(|events|, i requires 0 <= i < |events| => Handler(cmd, events[i].timeout)) + Values(tail)
  {
    if events != [] {
      EventValues(events[1..], cmd, tail);
    }
  }

  lemma {:induction false} StateValues(events: seq<HookEvent>, hashes: seq<string>, windows: bool)
    requires |events| == |hashes|
    ensures Values(StateEntries(events, hashes, windows)) == seq(|events|, i requires 0 <= i < |events| => Trust(hashes[i]))
  {
    if events != [] {
      StateValues(events[1..], hashes[1..], windows);
    }
  }

  function State(hashes: seq<string>, windows: bool): Entries
    requires |hashes| == |EVENTS|
  {
    StateEntries(EVENTS, hashes, windows)
  }

  lemma StateIsSound(hashes: seq<string>, windows: bool)
    requires |hashes| == |EVENTS|
    ensures Distinct(Names(State(hashes, windows))) && Sound(Table(State(hashes, windows)))
  {
    StateNames(EVENTS, hashes, windows);
    KeysDiffer();
    forall i, j | 0 <= i < j < |EVENTS|
      ensures HookKey(windows, EVENTS[i].key) != HookKey(windows, EVENTS[j].key)
    {
      if HookKey(windows, EVENTS[i].key) == HookKey(windows, EVENTS[j].key) {
        HookKeysDiffer(windows, EVENTS[i].key, EVENTS[j].key);
      }
    }
  }

  /** The state table has one trust entry for each event, under the event's own key, and no other. */
  lemma StateReads(hashes: seq<string>, windows: bool)
    requires |hashes| == |EVENTS|
    ensures |Names(State(hashes, windows))| == |EVENTS|
    ensures forall i :: 0 <= i < |EVENTS| ==>
      Lookup(State(hashes, windows), HookKey(windows, EVENTS[i].key)) == [Trust(hashes[i])]
  {
    var state := State(hashes, windows);
    StateIsSound(hashes, windows);
    StateNames(EVENTS, hashes, windows);
    StateValues(EVENTS, hashes, windows);
    forall i | 0 <= i < |EVENTS|
      ensures Lookup(state, HookKey(windows, EVENTS[i].key)) == [Trust(hashes[i])]
    {
      LookupFinds(state, i);
    }
  }

  lemma EventFound(events: seq<HookEvent>, cmd: string, tail: Entries, i: nat)
    requires Distinct(Names(EventEntries(events, cmd, tail))) && i < |events|
    ensures Lookup(EventEntries(events, cmd, tail), events[i].name) == [Handler(cmd, events[i].timeout)]
  {
    var e := EventEntries(events, cmd, tail);
    EventNames(events, cmd, tail);
    EventValues(events, cmd, tail);
    assert Names(e)[i] == events[i].name && Values(e)[i] == Handler(cmd, events[i].timeout);
    LookupFinds(e, i);
  }

  /** What the last entries of a table are. */
  lemma {:induction false} TailIsLast(events: seq<HookEvent>, cmd: string, tail: Entries, i: nat)
    requires i < |Names(tail)|
    ensures var e := EventEntries(events, cmd, tail);
      |events| + i < |Names(e)| && Names(e)[|events| + i] == Names(tail)[i] && Values(e)[|events| + i] == Values(tail)[i]
  {
    if events != [] {
      TailIsLast(events[1..], cmd, tail, i);
    }
  }

  lemma TailFound(events: seq<HookEvent>, cmd: string, tail: Entries, i: nat)
    requires Distinct(Names(EventEntries(events, cmd, tail))) && i < |Names(tail)|
    ensures Lookup(EventEntries(events, cmd, tail), Names(tail)[i]) == [Values(tail)[i]]
  {
    TailIsLast(events, cmd, tail, i);
    LookupFinds(EventEntries(events, cmd, tail), |events| + i);
  }

  function StateEntry(hashes: seq<string>, windows: bool): Entries
    requires |hashes| == |EVENTS|
  {
    Entry(Bare("state"), Table(State(hashes, windows)), NoEntries)
  }

  lemma OverrideIsSound(cmd: string, hashes: seq<string>, windows: bool)
    requires |hashes| == |EVENTS|
    ensures Sound(Override(cmd, hashes, windows))
    ensures |Names(Override(cmd, hashes, windows).entries)| == |EVENTS| + 1
  {
    var tail := StateEntry(hashes, windows);
    StateIsSound(hashes, windows);
    SoundOnly(Bare("state"), Table(State(hashes, windows)));
    FirstNamesAreBare();
    LastNamesAreBare();
    EventNames(EVENTS, cmd, tail);
    NamesDiffer();
    assert Names(tail) == ["state"] + Names(NoEntries) == ["state"];
    assert Distinct(Names(EventEntries(EVENTS, cmd, tail)));
  }

  /** The table has one handler for each event, under the event's name, the state table, and nothing else. */
  lemma EventsRead(cmd: string, hashes: seq<string>, windows: bool)
    requires |hashes| == |EVENTS|
    ensures Sound(Override(cmd, hashes, windows))
    ensures var e := Override(cmd, hashes, windows).entries;
      && |Names(e)| == |EVENTS| + 1
      && (forall i :: 0 <= i < |EVENTS| ==> Lookup(e, EVENTS[i].name) == [Handler(cmd, EVENTS[i].timeout)])
      && Lookup(e, "state") == [Table(State(hashes, windows))]
  {
    var tail := StateEntry(hashes, windows);
    OverrideIsSound(cmd, hashes, windows);
    forall i | 0 <= i < |EVENTS|
      ensures Lookup(Override(cmd, hashes, windows).entries, EVENTS[i].name) == [Handler(cmd, EVENTS[i].timeout)]
    {
      EventFound(EVENTS, cmd, tail, i);
    }
    TailFound(EVENTS, cmd, tail, 0);
    assert Names(tail)[0] == "state" && Values(tail)[0] == Table(State(hashes, windows));
  }

  /** Reading the override back with the TOML reader gives the table that was meant. */
  lemma OverrideReadsBack(cmd: string, hashes: seq<string>, windows: bool)
    requires |hashes| == |EVENTS|
    ensures ReadValue(Print(Override(cmd, hashes, windows))) == Some((Override(cmd, hashes, windows), ""))
  {
    var v := Override(cmd, hashes, windows);
    EventsRead(cmd, hashes, windows);
    ValueReadsBack(v, "");
    assert Print(v) + "" == Print(v);
  }
}
