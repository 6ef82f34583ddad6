/**
  The backend server's decision logic, over the globals it keeps: whether the
  MQTT client is connected, the device status mirrored from the status topic,
  when that status last changed, and the bounded audit log. The MQTT client is
  an oracle: whether the broker accepts a publish is a parameter, and every
  message handed to the client is recorded in a ghost trace. Clock readings
  (the `HH:MM:SS` text of a log entry, the time of a status change) are
  parameters too.
 */
module Backend {
  import opened Wrappers
  import opened Text
  import opened Products
  import MockAi
  import AiModel

  const TopicCommand := "noodle_vending/command"
  const TopicStatus := "noodle_vending/status"
  const TopicLog := "noodle_vending/log"

  /** How many entries the audit log keeps. */
  const LogCapacity := 50

  // ---------------------------------------------------------------------------
  // The audit log

  /** One log line, `[<clock>] [<kind>] <message>`. */
  function FormatEntry(clock: string, kind: string, message: string): string {
    "[" + clock + "] [" + kind + "] " + message
  }

  /** The log after `add_log`: the entry goes last, and once the list holds more
      than the capacity its first entry is dropped. */
  function Appended(logs: seq<string>, entry: string): (r: seq<string>)
    ensures |logs| <= LogCapacity ==> |r| <= LogCapacity
    ensures r != [] && r[|r| - 1] == entry
    ensures |logs| < LogCapacity ==> r == logs + [entry]
    ensures |logs| == LogCapacity ==> r == logs[1..] + [entry]
  {
    var grown := logs + [entry];
    if |grown| > LogCapacity then grown[1..] else grown
  }

  /** The log after appending several entries one by one. */
  function AppendedAll(logs: seq<string>, entries: seq<string>): seq<string>
    decreases |entries|
  {
    if entries == [] then logs else AppendedAll(Appended(logs, entries[0]), entries[1..])
  }

  /** The newest `LogCapacity` entries of a history. */
  function Window(history: seq<string>): (r: seq<string>)
    ensures |r| <= LogCapacity
  {
    if |history| <= LogCapacity then history else history[|history| - LogCapacity..]
  }

  lemma WindowOfWindow(x: seq<string>, y: seq<string>)
    ensures Window(Window(x) + y) == Window(x + y)
  {
    if |x| > LogCapacity {
      var d := |x| - LogCapacity;
      assert (x + y)[d..] == Window(x) + y;
      assert (x + y)[d..][|y|..] == (x + y)[d + |y|..];
    }
  }

  /** The log is a first-in first-out window: starting from a log within the
      capacity, appending any entries leaves exactly the newest `LogCapacity`
      entries of the whole history, oldest first. */
  lemma {:induction false} LogIsWindow(logs: seq<string>, entries: seq<string>)
    requires |logs| <= LogCapacity
    ensures AppendedAll(logs, entries) == Window(logs + entries)
    decreases |entries|
  {
    if entries != [] {
      var next := Appended(logs, entries[0]);
      assert next == Window(logs + [entries[0]]);
      LogIsWindow(next, entries[1..]);
      WindowOfWindow(logs + [entries[0]], entries[1..]);
      assert logs + [entries[0]] + entries[1..] == logs + entries;
    }
  }

  // ---------------------------------------------------------------------------
  // Choosing the product and the command

  /** The product the order dispatcher picks from a reply: the first name of
      `NOODLE_MAP` that occurs in it, ignoring letter case. */
  function Selected(reply: string): (r: Option<Product>)
    ensures r.Some? ==> r.value in NoodleMap && Names(reply, r.value)
    ensures r.None? ==> forall i :: 0 <= i < |NoodleMap| ==> !Names(reply, NoodleMap[i])
  {
    FirstNamed(Lower(reply))
  }

  /** The dispatcher picks at most one product, the earliest in `NOODLE_MAP`
      order that the reply names, and picks none exactly when the reply names
      none. */
  lemma SelectedIsFirstNamed(reply: string, p: Product)
    ensures Selected(reply) == Some(p) <==>
              exists i :: 0 <= i < |NoodleMap| && NoodleMap[i] == p && Names(reply, p)
                          && forall j :: 0 <= j < i ==> !Names(reply, NoodleMap[j])
    ensures Selected(reply) == None <==> forall q :: q in NoodleMap ==> !Names(reply, q)
  {
    FirstNamedIsFirst(Lower(reply), p);
  }

  /** With the fallback resolver, the product dispatched is the one its keywords
      chose: every mock reply names exactly that product. */
  lemma MockReplyDispatches(userMessage: string)
    ensures Selected(MockAi.MockReply(userMessage)) == Some(MockAi.MockProduct(Lower(userMessage)))
  {
    var reply := MockAi.MockReply(userMessage);
    var p := MockAi.MockProduct(Lower(userMessage));
    forall q | q in NoodleMap
      ensures Contains(Lower(reply), Lower(q.name)) <==> q == p
    {
      MockAi.MockNamesOneProduct(userMessage, q);
    }
    FirstNamedOnly(Lower(reply), p);
  }

  /** With the language model enabled, a message whose normal form holds
      "spicy" or "hot" dispatches Hot Spicy Ramen, whether its reply comes from
      the cache or from the table scan, in any cache the program reaches. */
  lemma AiHotMessageDispatchesHot(cache: map<string, string>, loaded: bool, userMessage: string, gen: AiModel.Generation)
    requires AiModel.CacheAgrees(cache)
    requires Contains(AiModel.Normalize(userMessage), "spicy") || Contains(AiModel.Normalize(userMessage), "hot")
    ensures Selected(AiModel.Respond(cache, loaded, userMessage, gen).reply) == Some(HotSpicyRamen)
  {
    var reply := AiModel.Respond(cache, loaded, userMessage, gen).reply;
    AiModel.HotKeywordsFirst(cache, loaded, userMessage, gen);
    AiModel.HeadRowsNameHot(reply);
    assert NoodleMap[0] == HotSpicyRamen;
    FirstNamedIsFirst(Lower(reply), HotSpicyRamen);
  }

  /** A reply taken from the keyword table always has a product to dispatch. */
  lemma TableReplyDispatches(i: nat)
    requires i < |AiModel.Table|
    ensures Selected(AiModel.Table[i].Reply()).Some?
  {
    AiModel.TableRepliesNameAProduct(i);
  }

  /** The decimal text of a number from 0 to 9 (`str(n)`); other numbers never
      reach it. */
  function DigitText(n: int): string {
    if 0 <= n <= 9 then [('0' as int + n) as char] else ""
  }

  /** `f"noodle_{n}"` for a number in the range 1..4, nothing for any other. */
  function DispenseCommand(n: int): (r: Option<string>)
    ensures r.Some? <==> 1 <= n <= 4
  {
    if 1 <= n <= 4 then Some("noodle_" + DigitText(n)) else None
  }

  /** `m.get(k, fallback)`. */
  function GetOr(m: map<string, string>, k: string, fallback: string): string {
    if k in m then m[k] else fallback
  }

  /** The range check accepts exactly 1..4, and the command it builds for `n` is
      the code of the `n`-th product of `NOODLE_MAP`, which the reverse map takes
      back to that product's name; the fallback name `Noodle <n>` is never used. */
  lemma DispenseCommandIsCode(n: int)
    ensures DispenseCommand(n).Some? <==> 1 <= n <= 4
    ensures 1 <= n <= 4 ==>
              && DispenseCommand(n) == Some(NoodleMap[n - 1].code)
              && NoodleMap[n - 1].code in NoodleNames()
              && NoodleNames()[NoodleMap[n - 1].code] == NoodleMap[n - 1].name
              && NoodleMap[n - 1].name in NoodleCodes()
              && NoodleCodes()[NoodleNames()[NoodleMap[n - 1].code]] == NoodleMap[n - 1].code
  {
    if 1 <= n <= 4 {
      NoodleMapsHoldEntries(n - 1);
      if n == 1 {
        assert DigitText(1) == "1";
        assert "noodle_" + "1" == NoodleMap[0].code;
      } else if n == 2 {
        assert DigitText(2) == "2";
        assert "noodle_" + "2" == NoodleMap[1].code;
      } else if n == 3 {
        assert DigitText(3) == "3";
        assert "noodle_" + "3" == NoodleMap[2].code;
      } else {
        assert DigitText(4) == "4";
        assert "noodle_" + "4" == NoodleMap[3].code;
      }
    }
  }

  /** Distinct numbers give distinct commands. */
  lemma DispenseCommandInjective(n: int, m: int)
    requires DispenseCommand(n).Some? && DispenseCommand(n) == DispenseCommand(m)
    ensures n == m
  {
    assert DispenseCommand(n).value[7] == DispenseCommand(m).value[7];
  }

  // ---------------------------------------------------------------------------
  // The server state

  /** A message handed to the MQTT client. */
  datatype Message = Message(topic: string, payload: string)

  /** The body `/chat` answers with; absent keys are `None`. The timestamp is
      left out. */
  datatype ChatResponse = ChatResponse(
    reply: string,
    deviceStatus: string,
    action: Option<string>,
    commandSent: Option<string>,
    error: Option<string>,
    warning: Option<string>,
    info: Option<string>,
    success: bool)

  /** The body `/manual_dispense` answers with; the timestamp is left out. */
  datatype DispenseResponse = DispenseResponse(success: bool, message: string, noodleName: Option<string>)

  class Server {
    var mqttConnected: bool
    var deviceStatus: string
    var lastStatusUpdate: Option<int>
    /** `system_logs`. */
    var logs: seq<string>
    /** Every message handed to the MQTT client, oldest first. */
    ghost var published: seq<Message>
    /** Whether the language-model module could be imported (`AI_ENABLED`). */
    const aiEnabled: bool
    const engine: AiModel.Engine

    /** The log is within its bound and the language model's cache agrees with
        the keyword table. */
    ghost predicate Valid()
      reads this, engine
    {
      |logs| <= LogCapacity && engine.Valid()
    }

    constructor(aiEnabled: bool, engine: AiModel.Engine)
      requires engine.Valid()
      ensures Valid()
      ensures this.aiEnabled == aiEnabled && this.engine == engine
      ensures !mqttConnected && deviceStatus == "disconnected" && lastStatusUpdate == None
      ensures logs == [] && published == []
    {
      this.aiEnabled := aiEnabled;
      this.engine := engine;
      mqttConnected := false;
      deviceStatus := "disconnected";
      lastStatusUpdate := None;
      logs := [];
      published := [];
    }

    /** `add_log`; `clock` is the time of day the entry is stamped with. */
    method AddLog(kind: string, message: string, clock: string)
      requires Valid()
      modifies this`logs
      ensures Valid()
      ensures logs == Appended(old(logs), FormatEntry(clock, kind, message))
    {
      logs := logs + [FormatEntry(clock, kind, message)];
      if |logs| > LogCapacity {
        logs := logs[1..];
      }
    }

    /** `mqtt_publish`: the message reaches the client only while connected, and
        the call succeeds only when the broker, too, accepts it. */
    method MqttPublish(topic: string, message: string, accepted: bool) returns (ok: bool)
      modifies this`published
      ensures ok <==> mqttConnected && accepted
      ensures published == if mqttConnected then old(published) + [Message(topic, message)] else old(published)
    {
      if mqttConnected {
        published := published + [Message(topic, message)];
        ok := accepted;
      } else {
        ok := false;
      }
    }

    /** `on_connect` with return code `rc`, at time `now`. */
    method OnConnect(rc: int, now: int)
      modifies this`mqttConnected, this`deviceStatus, this`lastStatusUpdate, this`published
      ensures rc == 0 ==> mqttConnected && deviceStatus == "ready" && lastStatusUpdate == Some(now)
                          && published == old(published) + [Message(TopicStatus, "ready")]
      ensures rc != 0 ==> !mqttConnected && deviceStatus == "mqtt_error"
                          && lastStatusUpdate == old(lastStatusUpdate) && published == old(published)
    {
      if rc == 0 {
        mqttConnected := true;
        deviceStatus := "ready";
        lastStatusUpdate := Some(now);
        published := published + [Message(TopicStatus, "ready")];
      } else {
        mqttConnected := false;
        deviceStatus := "mqtt_error";
      }
    }

    /** `on_disconnect`. */
    method OnDisconnect()
      modifies this`mqttConnected
      ensures !mqttConnected
    {
      mqttConnected := false;
    }

    /** `on_message` for a message on `topic` whose payload decodes to `payload`
        (`None` when it is not valid UTF-8, which the handler's `except` swallows),
        received at time `now` and logged at time of day `clock`. */
    method OnMessage(topic: string, payload: Option<string>, now: int, clock: string)
      requires Valid()
      modifies this`deviceStatus, this`lastStatusUpdate, this`logs
      ensures Valid()
      ensures payload.Some? && topic == TopicStatus ==>
                && deviceStatus == payload.value
                && lastStatusUpdate == Some(now)
                && logs == if StatusWorthLogging(payload.value)
                           then Appended(old(logs), FormatEntry(clock, "DEVICE", payload.value))
                           else old(logs)
      ensures payload.Some? && topic == TopicLog ==>
                && deviceStatus == old(deviceStatus)
                && lastStatusUpdate == old(lastStatusUpdate)
                && logs == Appended(old(logs), FormatEntry(clock, "SYSTEM", payload.value))
      ensures payload.None? || (topic != TopicStatus && topic != TopicLog) ==>
                && deviceStatus == old(deviceStatus)
                && lastStatusUpdate == old(lastStatusUpdate)
                && logs == old(logs)
    {
      if payload.None? {
        return;
      }
      var text := payload.value;
      if topic == TopicStatus {
        deviceStatus := text;
        lastStatusUpdate := Some(now);
        if Contains(text, "dispensing") || Contains(text, "ready") || Contains(text, "busy") {
          AddLog("DEVICE", text, clock);
        }
      } else if topic == TopicLog {
        AddLog("SYSTEM", text, clock);
      }
    }

    /** The reply of whichever resolver is in use, and the language model's cache
        after it. */
    method GetReply(userMessage: string, gen: AiModel.Generation) returns (reply: string)
      requires engine.Valid()
      modifies engine
      ensures engine.Valid()
      ensures aiEnabled ==> AiModel.Outcome(reply, engine.cache) == AiModel.Respond(old(engine.cache), engine.loaded, userMessage, gen)
      ensures !aiEnabled ==> reply == MockAi.MockReply(userMessage) && engine.cache == old(engine.cache)
    {
      if aiEnabled {
        reply := engine.GetAiReply(userMessage, gen);
      } else {
        reply := MockAi.MockReply(userMessage);
      }
    }

    /** `chat_agent`: resolve the reply, pick the product it names, and dispatch
        it when the device is ready. `gen` stands for what the language model
        would produce, `accepted` for whether the broker accepts the command,
        `clock` for the time of day of the ORDER entry. */
    method Chat(userMessage: string, gen: AiModel.Generation, accepted: bool, clock: string)
      returns (response: ChatResponse)
      requires Valid()
      modifies this`logs, this`published, engine
      ensures Valid()
      ensures aiEnabled ==> AiModel.Outcome(response.reply, engine.cache) == AiModel.Respond(old(engine.cache), engine.loaded, userMessage, gen)
      ensures !aiEnabled ==> response.reply == MockAi.MockReply(userMessage) && engine.cache == old(engine.cache)
      ensures response.deviceStatus == deviceStatus
      ensures var sel := Selected(response.reply);
              if sel.Some? && deviceStatus == "ready" then
                && logs == Appended(old(logs), FormatEntry(clock, "ORDER", "User ordered: " + sel.value.name))
                && published == (if mqttConnected then old(published) + [Message(TopicCommand, sel.value.code)] else old(published))
                && response.success == (mqttConnected && accepted)
                && response.commandSent == (if response.success then Some(sel.value.code) else None)
                && response.action == (if response.success then Some("Dispensing " + sel.value.name) else None)
                && response.error == (if response.success then None else Some("Failed to send command to device"))
                && response.warning == None && response.info == None
              else
                && logs == old(logs) && published == old(published)
                && !response.success
                && response.action == None && response.commandSent == None && response.error == None
                && response.warning == (if sel.Some? then Some("Device is busy (" + deviceStatus + "), please wait") else None)
                && response.info == (if sel.Some? then None else Some("No noodle selected from your request"))
    {
      var reply := GetReply(userMessage, gen);
      var selected := SelectNoodle(reply);
      response := ChatResponse(reply, deviceStatus, None, None, None, None, None, false);
      if selected.Some? && deviceStatus == "ready" {
        var p := selected.value;
        AddLog("ORDER", "User ordered: " + p.name, clock);
        var ok := MqttPublish(TopicCommand, p.code, accepted);
        if ok {
          response := response.(action := Some("Dispensing " + p.name), commandSent := Some(p.code), success := true);
        } else {
          response := response.(error := Some("Failed to send command to device"), success := false);
        }
      } else if selected.Some? {
        response := response.(warning := Some("Device is busy (" + deviceStatus + "), please wait"), success := false);
      } else {
        response := response.(info := Some("No noodle selected from your request"), success := false);
      }
    }

    /** `manual_dispense` and `manual_dispense_path`, which do the same: for a
        number in 1..4, one MANUAL entry and one publish of its command; for any
        other number, nothing. */
    method ManualDispense(noodleNumber: int, accepted: bool, clock: string) returns (response: DispenseResponse)
      requires Valid()
      modifies this`logs, this`published
      ensures Valid()
      ensures match DispenseCommand(noodleNumber)
              case Some(command) =>
                var name := GetOr(NoodleNames(), command, "Noodle " + DigitText(noodleNumber));
                && logs == Appended(old(logs), FormatEntry(clock, "MANUAL", "Manual dispense: " + name))
                && published == (if mqttConnected then old(published) + [Message(TopicCommand, command)] else old(published))
                && response == if mqttConnected && accepted
                               then DispenseResponse(true, "Command sent: " + command, Some(name))
                               else DispenseResponse(false, "Failed to send command to device", None)
              case None =>
                && logs == old(logs) && published == old(published)
                && response == DispenseResponse(false, "Invalid noodle number (must be 1-4)", None)
    {
      if 1 <= noodleNumber <= 4 {
        var command := "noodle_" + DigitText(noodleNumber);
        var name := GetOr(NoodleNames(), command, "Noodle " + DigitText(noodleNumber));
        AddLog("MANUAL", "Manual dispense: " + name, clock);
        var ok := MqttPublish(TopicCommand, command, accepted);
        if ok {
          response := DispenseResponse(true, "Command sent: " + command, Some(name));
        } else {
          response := DispenseResponse(false, "Failed to send command to device", None);
        }
      } else {
        response := DispenseResponse(false, "Invalid noodle number (must be 1-4)", None);
      }
    }
  }

  /** The status payloads that earn a DEVICE log entry. */
  predicate StatusWorthLogging(payload: string) {
    Contains(payload, "dispensing") || Contains(payload, "ready") || Contains(payload, "busy")
  }

  /** The loop over `NOODLE_MAP` with `break` that picks the product a reply
      names. */
  method SelectNoodle(reply: string) returns (selected: Option<Product>)
    ensures selected.Some? ==> selected.value in NoodleMap && Names(reply, selected.value)
    ensures selected.None? ==> forall q :: q in NoodleMap ==> !Names(reply, q)
    ensures selected == Selected(reply)
  {
    var lower := Lower(reply);
    var names := LowerNames();
    selected := None;
    for i := 0 to |NoodleMap|
      invariant forall j :: 0 <= j < i ==> !Contains(lower, names[j])
    {
      if Contains(lower, Lower(NoodleMap[i].name)) {
        FirstOccurringAt(lower, names, i);
        selected := Some(NoodleMap[i]);
        break;
      }
    }
    if selected.None? {
      FirstNamedIsFirst(lower, HotSpicyRamen);
    }
  }
}
