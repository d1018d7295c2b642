/**
 * The socket client of `manage.py`: the handshake it sends when the
 * connection opens, and the decoder that turns each inbound payload into
 * subscription messages and `(topic, content)` updates.
 *
 * The transport is reduced to what the client does with it: every sent
 * message is appended to `sent`, every decoded update (printed by the
 * client) is appended to `updates`, and closing the socket sets `closed`.
 */
module Manage {
  import opened Wrappers
  import opened Strings
  import opened Wire

  /** One decoded topic update: the topic's name and the raw content. */
  datatype Update = Update(topic: string, content: string)

  /** A part whose type character is the literal `1`: the server is ready for subscriptions. */
  predicate IsSubscribeSignal(part: string) {
    |part| > 0 && part[0] == '1'
  }

  /** A part whose type character marks a topic load or a delta. */
  predicate IsTopicUpdate(part: string) {
    |part| > 0 && (part[0] == TopicLoadMessage || part[0] == DeltaMessage)
  }

  /** `part.split('\x01')[0]`: the part's first record, the text before its first record delimiter. */
  function FirstRecord(part: string): string {
    TakeUntil(part, RecordDelimiter)
  }

  /** `record.split('\x02')[-1]`: the last field of the record's path, the text after its last field delimiter. */
  function TopicId(record: string): string {
    AfterLast(record, FieldDelimiter)
  }

  /** The topic name of a load or delta part: its topic identifier without the leading category character. */
  function TopicName(part: string): string {
    SliceFrom(TopicId(FirstRecord(part)), 1)
  }

  /** `part[len(records[0]) + 1:]`: the content of a load or delta part. */
  function Content(part: string): string {
    SliceFrom(part, |FirstRecord(part)| + 1)
  }

  /**
   * The content is everything after the first record and its delimiter,
   * and empty when the part has no record delimiter.
   */
  lemma ContentAfterFirstRecord(part: string)
    ensures RecordDelimiter in part ==> part == FirstRecord(part) + [RecordDelimiter] + Content(part)
    ensures RecordDelimiter !in part ==> Content(part) == ""
  {
    TakeUntilIsPrefix(part, RecordDelimiter);
    var r := FirstRecord(part);
    assert RecordDelimiter in part ==> part == r + [RecordDelimiter] + part[|r| + 1..];
  }

  /** What the client sends and reports while handling parts, and whether it raised. */
  datatype Outcome = Outcome(sends: seq<string>, updates: seq<Update>, failed: bool)

  /** The effects of `first` followed by those of `next`; `next` decides whether handling raised. */
  function Then(first: Outcome, next: Outcome): Outcome {
    Outcome(first.sends + next.sends, first.updates + next.updates, next.failed)
  }

  /** The update a load or delta part reports. */
  function Report(part: string): Update {
    Update(TopicName(part), Content(part))
  }

  /**
   * The effect of handling one part: reading the type character of an empty
   * part raises; a subscribe signal sends one subscription per topic; a
   * load or delta reports one update; any other type does nothing.
   */
  function HandlePart(part: string): Outcome {
    if |part| == 0 then Outcome([], [], true)
    else if IsSubscribeSignal(part) then Outcome(TopicSubscriptions, [], false)
    else if IsTopicUpdate(part) then Outcome([], [Report(part)], false)
    else Outcome([], [], false)
  }

  /** The effect each part would have on its own, in the parts' order. */
  function Steps(parts: seq<string>): seq<Outcome> {
    seq(|parts|, i requires 0 <= i < |parts| => HandlePart(parts[i]))
  }

  /**
   * The effect of a list of per-part effects taken by popping the list:
   * the last one first, then the rest; the first one (from the end) that
   * raises ends the handling.
   */
  function Combine(steps: seq<Outcome>): Outcome
    decreases |steps|
  {
    if |steps| == 0 then Outcome([], [], false)
    else
      var last := steps[|steps| - 1];
      if last.failed then last else Then(last, Combine(steps[..|steps| - 1]))
  }

  /** The effect of handling `parts` last to first. */
  function HandleParts(parts: seq<string>): Outcome {
    Combine(Steps(parts))
  }

  /** The effect of one inbound payload: its parts between message delimiters, handled last to first. */
  function Receive(message: string): Outcome {
    HandleParts(Split(message, [MessageDelimiter]))
  }

  /** What the session page request returned: its status code and the cookies it set, by name. */
  datatype SessionPage = SessionPage(status: int, cookies: map<string, string>)

  /** `bool(response)` for an HTTP response: false for a client or server error status. */
  predicate ResponseOk(status: int) {
    !(400 <= status < 600)
  }

  /**
   * `_fetch_session_id`: the `pstk` cookie of the session page, or `None`
   * when the request raised (`page` is `None`), the response is an error
   * or it set no such cookie.
   */
  function FetchSessionId(page: Option<SessionPage>): Option<string> {
    match page
    case None => None
    case Some(p) =>
      if !ResponseOk(p.status) then None
      else if "pstk" in p.cookies then Some(p.cookies["pstk"])
      else None
  }

  /**
   * A token comes back exactly when the request did not raise, the status
   * is not an error and a `pstk` cookie was set, and it is that cookie's
   * value; in particular a 4xx or 5xx response never yields one, whatever
   * its cookies.
   */
  lemma FetchSessionIdCases(page: Option<SessionPage>)
    ensures FetchSessionId(page).Some? <==>
      page.Some? && ResponseOk(page.value.status) && "pstk" in page.value.cookies
    ensures FetchSessionId(page).Some? ==> FetchSessionId(page).value == page.value.cookies["pstk"]
    ensures page.Some? && 400 <= page.value.status < 600 ==> FetchSessionId(page) == None
  {
  }

  class WebSockets {
    /** Every message sent over the socket, oldest first. */
    var sent: seq<string>
    /** Every update decoded from inbound payloads, oldest first. */
    var updates: seq<Update>
    /** Whether the client has closed the socket. */
    var closed: bool

    constructor ()
      ensures sent == [] && updates == [] && !closed
    {
      sent, updates, closed := [], [], false;
    }

    /** Sends `message` over the socket. */
    method Send(message: string)
      modifies this`sent
      ensures sent == old(sent) + [message]
    {
      sent := sent + [message];
    }

    /** Closes the socket. */
    method Disconnect()
      modifies this`closed
      ensures closed
    {
      closed := true;
    }

    /**
     * Runs when the connection opens, given what the session page request
     * returned: without a token (none, or empty) the client closes the
     * socket and sends nothing; with one it sends exactly one identity
     * message carrying it.
     */
    method OnOpen(page: Option<SessionPage>)
      modifies this`sent, this`closed
      ensures var token := FetchSessionId(page);
        Truthy(token) ==> sent == old(sent) + [IdentityMessage(token.value)] && closed == old(closed)
      ensures !Truthy(FetchSessionId(page)) ==> sent == old(sent) && closed
    {
      var sessionId := FetchSessionId(page);
      if !Truthy(sessionId) {
        Disconnect();
        return;
      }
      IdentityMessageFormats(sessionId.value);
      var message := Format(IdentityTemplate, [sessionId.value]).text;
      Send(message);
    }

    /**
     * Handles one inbound payload. The payload is split on the message
     * delimiter and the parts are popped off the end of the list, so they
     * are handled last to first. `failed` reports the IndexError raised on
     * an empty part; the parts after it have been handled by then.
     * `iterations` counts the passes of the loop.
     */
    method OnMessage(message: string) returns (failed: bool, ghost iterations: nat)
      modifies this`sent, this`updates
      ensures sent == old(sent) + Receive(message).sends
      ensures updates == old(updates) + Receive(message).updates
      ensures failed == Receive(message).failed
      ensures !failed ==> iterations == CountChar(message, MessageDelimiter) + 1
    {
      var messageParts := Split(message, [MessageDelimiter]);
      failed, iterations := DrainParts(messageParts, Steps(messageParts));
      SplitCount(message, MessageDelimiter);
    }

    /**
     * The handler's loop: pops the parts off the end of `messageParts` one
     * at a time and dispatches each, until the list is empty or a part is
     * empty. `steps` holds the effect of each part on its own.
     */
    method DrainParts(messageParts: seq<string>, ghost steps: seq<Outcome>) returns (failed: bool, ghost iterations: nat)
      requires |steps| == |messageParts|
      requires forall i {:trigger messageParts[i]} :: 0 <= i < |messageParts| ==> steps[i] == HandlePart(messageParts[i])
      modifies this`sent, this`updates
      ensures sent == old(sent) + Combine(steps).sends
      ensures updates == old(updates) + Combine(steps).updates
      ensures failed == Combine(steps).failed
      ensures !failed ==> iterations == |messageParts|
    {
      var remaining := messageParts;
      failed, iterations := false, 0;
      while |remaining| > 0
        invariant remaining == messageParts[..|remaining|]
        invariant !Combine(steps[|remaining|..]).failed
        invariant sent == old(sent) + Combine(steps[|remaining|..]).sends
        invariant updates == old(updates) + Combine(steps[|remaining|..]).updates
        invariant iterations == |messageParts| - |remaining|
        decreases |remaining|
      {
        ghost var k := |remaining| - 1;
        var part := remaining[|remaining| - 1];
        remaining := remaining[..|remaining| - 1];
        iterations := iterations + 1;
        assert messageParts[..k + 1][..k] == messageParts[..k];
        assert part == messageParts[k];
        if |part| == 0 {
          // `part[0]` raises an IndexError, which ends the handler.
          CombineFailing(steps, k);
          failed := true;
          return;
        }
        CombineSuffix(steps, k);
        Dispatch(part);
      }
      assert steps[0..] == steps;
    }

    /**
     * The body of the handler's loop for one non-empty part, dispatched on
     * its type character.
     */
    method Dispatch(part: string)
      requires part != ""
      modifies this`sent, this`updates
      ensures sent == old(sent) + HandlePart(part).sends
      ensures updates == old(updates) + HandlePart(part).updates
    {
      var msgType := part[0];
      if msgType == '1' {
        for i := 0 to |Topics|
          invariant sent == old(sent) + Subscriptions(Topics[..i])
          invariant updates == old(updates)
        {
          SubscriptionMessageFormats(Topics[i]);
          var subMsg := Format(SubscriptionTemplate, [Topics[i]]).text;
          Send(subMsg);
          SubscriptionsPrefix(Topics, i);
        }
        assert Topics[..|Topics|] == Topics;
      } else if msgType == TopicLoadMessage || msgType == DeltaMessage {
        var record := FirstRecord(part);
        var topicId := TopicId(record);
        var topicName := SliceFrom(topicId, 1);
        var content := SliceFrom(part, |record| + 1);
        updates := updates + [Update(topicName, content)];
      }
    }
  }

  /** Taking the effects from `k` on: those after `k` first, then effect `k`. */
  lemma CombineSuffix(steps: seq<Outcome>, k: nat)
    requires k < |steps| && !steps[k].failed
    requires !Combine(steps[k + 1..]).failed
    ensures Combine(steps[k..]) == Then(Combine(steps[k + 1..]), steps[k])
  {
    CombineFailed(steps[k + 1..]);
    assert steps[k..] == [steps[k]] + steps[k + 1..];
    CombineAppend([steps[k]], steps[k + 1..]);
    assert [steps[k]][..0] == [];
    assert Combine([steps[k]]) == Then(steps[k], Outcome([], [], false));
  }

  /** When effect `k` raises, handling stops there, after the effects to its right. */
  lemma CombineFailing(steps: seq<Outcome>, k: nat)
    requires k < |steps| && steps[k].failed
    requires !Combine(steps[k + 1..]).failed
    ensures var o := Combine(steps[k + 1..]);
      Combine(steps) == Outcome(o.sends + steps[k].sends, o.updates + steps[k].updates, true)
  {
    CombineFailed(steps[k + 1..]);
    var front, back := steps[..k + 1], steps[k + 1..];
    assert steps == front + back;
    CombineAppend(front, back);
    assert front[|front| - 1] == steps[k];
  }

  /**
   * Taking `front + back` takes `back` first, then `front`, as long as
   * nothing in `back` raises.
   */
  lemma {:induction false} CombineAppend(front: seq<Outcome>, back: seq<Outcome>)
    requires forall j :: 0 <= j < |back| ==> !back[j].failed
    ensures Combine(front + back) == Then(Combine(back), Combine(front))
    decreases |back|
  {
    if |back| == 0 {
      assert front + back == front;
      ThenUnit(Combine(front));
    } else {
      var n := |back| - 1;
      var whole := front + back;
      assert whole[..|whole| - 1] == front + back[..n];
      assert whole[|whole| - 1] == back[n];
      CombineAppend(front, back[..n]);
      ThenAssoc(back[n], Combine(back[..n]), Combine(front));
    }
  }

  lemma ThenUnit(o: Outcome)
    ensures Then(Outcome([], [], false), o) == o
  {
  }

  lemma ThenAssoc(a: Outcome, b: Outcome, c: Outcome)
    ensures Then(a, Then(b, c)) == Then(Then(a, b), c)
  {
    assert a.sends + (b.sends + c.sends) == (a.sends + b.sends) + c.sends;
    assert a.updates + (b.updates + c.updates) == (a.updates + b.updates) + c.updates;
  }

  /** Taking a list of effects raises exactly when one of them raises. */
  lemma {:induction false} CombineFailed(steps: seq<Outcome>)
    ensures Combine(steps).failed <==> exists j :: 0 <= j < |steps| && steps[j].failed
    decreases |steps|
  {
    if |steps| > 0 {
      var n := |steps| - 1;
      CombineFailed(steps[..n]);
      assert forall j :: 0 <= j < n ==> steps[..n][j] == steps[j];
    }
  }

  // -----------------------------------------------------------------------
  // Properties of the decoder.

  /** The effects of a slice of the parts are the same slice of their effects. */
  lemma StepsSlice(parts: seq<string>, k: nat)
    requires k <= |parts|
    ensures Steps(parts[k..]) == Steps(parts)[k..]
    ensures Steps(parts[..k]) == Steps(parts)[..k]
  {
  }

  /** The last part is handled first, then, unless it raised, the parts before it. */
  lemma HandlePartsSnoc(parts: seq<string>)
    requires |parts| > 0
    ensures var step := HandlePart(parts[|parts| - 1]);
      HandleParts(parts) == if step.failed then step else Then(step, HandleParts(parts[..|parts| - 1]))
  {
    StepsSlice(parts, |parts| - 1);
  }

  /** Handling raises exactly when some part is empty. */
  lemma HandlePartsFailed(parts: seq<string>)
    ensures HandleParts(parts).failed <==> "" in parts
  {
    var steps := Steps(parts);
    CombineFailed(steps);
    if "" in parts {
      var j :| 0 <= j < |parts| && parts[j] == "";
      assert steps[j].failed;
    }
  }

  /**
   * An empty part raises, but only once every part after it has been
   * handled; none of the parts before it is handled.
   */
  lemma EmptyPartStops(parts: seq<string>, k: nat)
    requires k < |parts| && parts[k] == ""
    requires "" !in parts[k + 1..]
    ensures var o := HandleParts(parts[k + 1..]);
      HandleParts(parts) == Outcome(o.sends, o.updates, true)
  {
    var steps := Steps(parts);
    StepsSlice(parts, k + 1);
    HandlePartsFailed(parts[k + 1..]);
    assert steps[k] == Outcome([], [], true);
    CombineFailing(steps, k);
    var o := Combine(steps[k + 1..]);
    assert o.sends + [] == o.sends && o.updates + [] == o.updates;
  }

  /** A payload of one part has exactly that part's effect. */
  lemma SinglePart(part: string)
    ensures HandleParts([part]) == HandlePart(part)
  {
    var x := HandlePart(part);
    assert Steps([part]) == [x];
    assert [x][..0] == [];
    assert Combine([]) == Outcome([], [], false);
    assert x.sends + [] == x.sends && x.updates + [] == x.updates;
    assert Combine([x]) == x;
  }

  /**
   * A part tagged `1` sends exactly one subscription message per configured
   * topic, in the topics' order, and reports no update.
   */
  lemma SubscribeSignalSubscribes(part: string)
    requires IsSubscribeSignal(part)
    ensures var o := HandleParts([part]);
      |o.sends| == |Topics| && o.updates == [] && !o.failed &&
      forall i :: 0 <= i < |Topics| ==> o.sends[i] == [SubscribeType, EncodingNone] + Topics[i] + [RecordDelimiter]
  {
    SinglePart(part);
  }

  /** A load or delta part reports exactly one update, its topic name and content, and sends nothing. */
  lemma TopicUpdateReports(part: string)
    requires IsTopicUpdate(part)
    ensures HandleParts([part]) == Outcome([], [Update(TopicName(part), Content(part))], false)
  {
    SinglePart(part);
  }

  /** A load or delta part without a record delimiter still reports an update, with empty content. */
  lemma UnterminatedUpdateReports(part: string)
    requires IsTopicUpdate(part) && RecordDelimiter !in part
    ensures HandleParts([part]) == Outcome([], [Update(TopicName(part), "")], false)
  {
    ContentAfterFirstRecord(part);
    TopicUpdateReports(part);
  }

  /**
   * A payload ending in a message delimiter raises on its first pass: the
   * empty part after the delimiter is popped first, so nothing is sent or
   * reported.
   */
  lemma TrailingDelimiterRaises(message: string)
    ensures Receive(message + [MessageDelimiter]) == Outcome([], [], true)
  {
    var payload := message + [MessageDelimiter];
    var parts := Split(payload, [MessageDelimiter]);
    AfterLastIsLastPiece(payload, MessageDelimiter);
    assert AfterLast(payload, MessageDelimiter) == "";
    HandlePartsSnoc(parts);
  }

  /** A non-empty part of any other type sends nothing and reports nothing. */
  lemma OtherPartIgnored(part: string)
    requires |part| > 0 && !IsSubscribeSignal(part) && !IsTopicUpdate(part)
    ensures HandleParts([part]) == Outcome([], [], false)
  {
    SinglePart(part);
  }

  /** The topic name is the last field of the part's first record without its first character. */
  lemma TopicNameIsLastField(part: string, j: nat)
    requires j <= |FirstRecord(part)|
    requires FieldDelimiter !in FirstRecord(part)[j..]
    requires j == 0 || FirstRecord(part)[j - 1] == FieldDelimiter
    ensures TopicName(part) == SliceFrom(FirstRecord(part)[j..], 1)
  {
    AfterLastUnique(FirstRecord(part), FieldDelimiter, j);
  }

  /**
   * Without a field delimiter in the first record, the topic identifier is
   * the whole first record, so the character dropped from it is the part's
   * own type character.
   */
  lemma TopicNameWithoutPath(part: string)
    requires IsTopicUpdate(part) && FieldDelimiter !in FirstRecord(part)
    ensures 1 <= |FirstRecord(part)| <= |part| && FirstRecord(part)[0] == part[0]
    ensures TopicName(part) == part[1..|FirstRecord(part)|]
  {
    TakeUntilIsPrefix(part, RecordDelimiter);
    var r := FirstRecord(part);
    assert |r| <= |part| && r == part[..|r|];
    AfterLastUnique(r, FieldDelimiter, 0);
    assert TopicId(r) == r;
    assert r[1..] == part[1..|r|];
  }

  /**
   * A load part with a two-field path before the topic identifier
   * `Xtopic1` reports topic `topic1` with content `hello`.
   */
  lemma LoadPartExample()
    ensures var part := [TopicLoadMessage] + "A" + [FieldDelimiter] + "B" + [FieldDelimiter] + "Xtopic1" + [RecordDelimiter] + "hello";
      HandleParts([part]) == Outcome([], [Update("topic1", "hello")], false)
  {
    var record := [TopicLoadMessage] + "A" + [FieldDelimiter] + "B" + [FieldDelimiter] + "Xtopic1";
    var part := record + [RecordDelimiter] + "hello";
    assert RecordDelimiter !in record;
    TakeUntilStops(record, RecordDelimiter, "hello");
    var j := |record| - |"Xtopic1"|;
    assert record[j..] == "Xtopic1" && record[j - 1] == FieldDelimiter;
    TopicNameIsLastField(part, j);
    assert part[|record| + 1..] == "hello";
    TopicUpdateReports(part);
  }

  /** The reports of `parts`, last part first. */
  function Reports(parts: seq<string>): seq<Update> {
    seq(|parts|, i requires 0 <= i < |parts| => Report(parts[|parts| - 1 - i]))
  }

  /** The reports of a list: its last part's report, then the reports of the rest. */
  lemma ReportsSnoc(parts: seq<string>)
    requires |parts| > 0
    ensures Reports(parts) == [Report(parts[|parts| - 1])] + Reports(parts[..|parts| - 1])
  {
    var n := |parts| - 1;
    var front := parts[..n];
    forall i | 0 < i < |parts|
      ensures Reports(parts)[i] == Reports(front)[i - 1]
    {
      assert front[n - 1 - (i - 1)] == parts[n - i];
    }
  }

  /** The load and delta parts of a list, in the list's order. */
  function UpdateParts(parts: seq<string>): seq<string>
    decreases |parts|
  {
    if |parts| == 0 then []
    else
      var n := |parts| - 1;
      UpdateParts(parts[..n]) + (if IsTopicUpdate(parts[n]) then [parts[n]] else [])
  }

  /** The number of subscribe signals in a list. */
  function SignalCount(parts: seq<string>): nat
    decreases |parts|
  {
    if |parts| == 0 then 0
    else
      var n := |parts| - 1;
      SignalCount(parts[..n]) + (if IsSubscribeSignal(parts[n]) then 1 else 0)
  }

  /** `k` copies of `msgs`, one after another. */
  function Repeat(msgs: seq<string>, k: nat): seq<string> {
    if k == 0 then [] else msgs + Repeat(msgs, k - 1)
  }

  /**
   * Any payload without an empty part, whatever its mix of tags, is handled
   * without raising; it reports the updates of its load and delta parts in
   * reverse order of those parts, and sends one full round of subscriptions
   * per subscribe signal.
   */
  lemma {:induction false} MixedPayloadReports(parts: seq<string>)
    requires "" !in parts
    ensures !HandleParts(parts).failed
    ensures HandleParts(parts).updates == Reports(UpdateParts(parts))
    ensures HandleParts(parts).sends == Repeat(TopicSubscriptions, SignalCount(parts))
    decreases |parts|
  {
    if |parts| > 0 {
      var n := |parts| - 1;
      var front := parts[..n];
      assert parts[n] in parts;
      assert forall x :: x in front ==> x in parts;
      HandlePartsSnoc(parts);
      MixedPayloadReports(front);
      if IsTopicUpdate(parts[n]) {
        var ups := UpdateParts(front) + [parts[n]];
        assert ups[..|ups| - 1] == UpdateParts(front);
        ReportsSnoc(ups);
      } else {
        assert UpdateParts(parts) == UpdateParts(front);
      }
    }
  }

  /**
   * Frames free of the message delimiter, joined into one payload, are
   * handled as exactly those frames: as many loop passes as frames.
   */
  lemma ReceiveJoined(frames: seq<string>)
    requires |frames| >= 1
    requires forall i :: 0 <= i < |frames| ==> MessageDelimiter !in frames[i]
    ensures Receive(Join(frames, [MessageDelimiter])) == HandleParts(frames)
    ensures CountChar(Join(frames, [MessageDelimiter]), MessageDelimiter) + 1 == |frames|
  {
    SplitJoin(frames, MessageDelimiter);
    SplitCount(Join(frames, [MessageDelimiter]), MessageDelimiter);
  }
}
