/** The incremental event-stream reader of the chat client
    (lib/copilot-client.ts, `streamCopilot`). */
module EventStream {
  import opened Wrappers
  import opened JsText

  const BLANK_LINE := "\n\n"

  /** All the text of a cut-up stream. */
  function Concat(chunks: seq<string>): string {
    if chunks == [] then "" else chunks[0] + Concat(chunks[1..])
  }

  lemma {:induction false} ConcatAppend(a: seq<string>, b: seq<string>)
    ensures Concat(a + b) == Concat(a) + Concat(b)
  {
    if a == [] {
      assert a + b == b;
    } else {
      ConcatAppend(a[1..], b);
      assert (a + b)[1..] == a[1..] + b;
      assert (a + b)[0] == a[0];
      Reassociate(a[0], Concat(a[1..]), Concat(b));
    }
  }

  lemma {:induction false} ConcatNext(chunks: seq<string>, i: nat)
    requires i < |chunks|
    ensures Concat(chunks[..i + 1]) == Concat(chunks[..i]) + chunks[i]
  {
    ConcatAppend(chunks[..i], [chunks[i]]);
    assert chunks[..i + 1] == chunks[..i] + [chunks[i]];
    assert Concat([chunks[i]]) == chunks[i] + Concat([]);
  }

  /** The frames a text completes: everything before its last blank line. */
  function Frames(text: string): seq<string> {
    Front(Split(text, BLANK_LINE))
  }

  /** What is kept for the next read. */
  function Tail(text: string): string {
    Last(Split(text, BLANK_LINE))
  }

  /** Reading one more chunk needs only the tail of what came before. */
  lemma {:induction false} FramesAppend(text: string, more: string)
    ensures Frames(text + more) == Frames(text) + Frames(Tail(text) + more)
    ensures Tail(text + more) == Tail(Tail(text) + more)
  {
    hide Split;
    SplitAppend(text, more, BLANK_LINE);
    var p, q := Split(text, BLANK_LINE), Split(Last(Split(text, BLANK_LINE)) + more, BLANK_LINE);
    assert Front(Front(p) + q) == Front(p) + Front(q);
  }

  // ---- events ----

  /** A decoded event; a field the source defaults is optional here. */
  datatype Wire =
    | WireMeta(memories: Option<seq<string>>, memoryCount: Option<int>, memwalEnabled: bool, source: Option<string>)
    | WireDelta(text: string)
    | WireDone
    | WireOther

  /** `JSON.parse`: a syntax error, the value null (whose `type` cannot be
      read), or an event. */
  datatype Parsed = Malformed | NullValue | Event(wire: Wire)

  datatype Call =
    | OnMeta(memories: seq<string>, memoryCount: int, memwalEnabled: bool, source: string)
    | OnDelta(text: string)
    | OnDone

  function GetOr<T>(o: Option<T>, default: T): T {
    match o case Some(v) => v case None => default
  }

  /** The handler call an event causes, if any. */
  function CallsOf(wire: Wire): seq<Call> {
    match wire
    case WireMeta(m, n, on, src) => [OnMeta(GetOr(m, []), GetOr(n, 0), on, GetOr(src, "grounded"))]
    case WireDelta(text) => if text != "" then [OnDelta(text)] else []
    case WireDone => [OnDone]
    case WireOther => []
  }

  function PayloadOf(frame: string): Option<string> {
    var line := Trim(frame);
    if !StartsWith(line, "data:") then None
    else
      var payload := Trim(line[5..]);
      if payload == "" then None else Some(payload)
  }

  /** What one frame yields; a frame without payload counts as malformed. */
  function Decode(frame: string, json: string -> Parsed): Parsed {
    match PayloadOf(frame)
    case None => Malformed
    case Some(payload) => json(payload)
  }

  /** Whether the reader gets through the frames at all. */
  predicate Survives(frames: seq<string>, json: string -> Parsed) {
    forall k :: 0 <= k < |frames| ==> !Decode(frames[k], json).NullValue?
  }

  /** The handler calls of a list of frames, in order, up to a null event. */
  function Calls(frames: seq<string>, json: string -> Parsed): seq<Call> {
    if frames == [] then []
    else
      match Decode(frames[0], json)
      case NullValue => []
      case Malformed => Calls(frames[1..], json)
      case Event(wire) => CallsOf(wire) + Calls(frames[1..], json)
  }

  lemma {:induction false} SurvivesAppend(a: seq<string>, b: seq<string>, json: string -> Parsed)
    ensures Survives(a + b, json) <==> Survives(a, json) && Survives(b, json)
  {
    hide Decode;
    if Survives(a + b, json) {
      forall k | 0 <= k < |a| ensures !Decode(a[k], json).NullValue? { assert (a + b)[k] == a[k]; }
      forall k | 0 <= k < |b| ensures !Decode(b[k], json).NullValue? { assert (a + b)[|a| + k] == b[k]; }
    }
  }

  lemma {:induction false} CallsAppend(a: seq<string>, b: seq<string>, json: string -> Parsed)
    ensures Survives(a, json) ==> Calls(a + b, json) == Calls(a, json) + Calls(b, json)
    ensures !Survives(a, json) ==> Calls(a + b, json) == Calls(a, json)
  {
    hide Decode, CallsOf;
    if a == [] {
      assert a + b == b;
    } else {
      CallsAppend(a[1..], b, json);
      assert (a + b)[1..] == a[1..] + b;
      SurvivesAppend([a[0]], a[1..], json);
      assert a == [a[0]] + a[1..];
      assert [a[0]][0] == a[0];
    }
  }

  /** One more frame. */
  lemma {:induction false} CallsNext(frames: seq<string>, j: nat, json: string -> Parsed)
    requires j < |frames| && Survives(frames[..j], json)
    ensures var d := Decode(frames[j], json);
            Calls(frames[..j + 1], json)
            == Calls(frames[..j], json) + (if d.Event? then CallsOf(d.wire) else [])
            && (Survives(frames[..j + 1], json) <==> !d.NullValue?)
  {
    hide Decode, CallsOf;
    CallsAppend(frames[..j], [frames[j]], json);
    SurvivesAppend(frames[..j], [frames[j]], json);
    assert frames[..j + 1] == frames[..j] + [frames[j]];
    assert [frames[j]][1..] == [];
    assert [frames[j]][0] == frames[j];
  }

  predicate HasDelta(calls: seq<Call>) {
    exists k :: 0 <= k < |calls| && calls[k].OnDelta?
  }

  lemma {:induction false} HasDeltaAppend(a: seq<Call>, b: seq<Call>)
    ensures HasDelta(a + b) <==> HasDelta(a) || HasDelta(b)
  {
    if HasDelta(a) {
      var k :| 0 <= k < |a| && a[k].OnDelta?;
      assert (a + b)[k].OnDelta?;
    }
    if HasDelta(b) {
      var k :| 0 <= k < |b| && b[k].OnDelta?;
      assert (a + b)[|a| + k].OnDelta?;
    }
  }

  /** The server's answer: no usable body, or chunks of decoded text after
      which the connection ends or breaks. */
  datatype Response = Refused | Stream(chunks: seq<string>, broken: bool)

  /** Once a null event is met, later text adds no call. */
  lemma {:induction false} NothingAfterNull(chunks: seq<string>, i: nat, json: string -> Parsed)
    requires i <= |chunks| && !Survives(Frames(Concat(chunks[..i])), json)
    ensures !Survives(Frames(Concat(chunks)), json)
    ensures Calls(Frames(Concat(chunks)), json) == Calls(Frames(Concat(chunks[..i])), json)
  {
    hide Frames, Tail, Concat, Survives, Calls;
    var seen, rest := Concat(chunks[..i]), Concat(chunks[i..]);
    ConcatAppend(chunks[..i], chunks[i..]);
    assert chunks == chunks[..i] + chunks[i..];
    FramesAppend(seen, rest);
    CallsAppend(Frames(seen), Frames(Tail(seen) + rest), json);
    SurvivesAppend(Frames(seen), Frames(Tail(seen) + rest), json);
  }

  /** Reads the stream, calling the handlers as frames complete. The calls
      depend on the text alone, never on where the network cut it; the answer
      is true exactly when the whole stream was read and some text arrived. */
  method StreamCopilot(response: Response, json: string -> Parsed) returns (ok: bool, calls: seq<Call>)
    ensures response.Refused? ==> !ok && calls == []
    ensures response.Stream? ==>
              var frames := Frames(Concat(response.chunks));
              calls == Calls(frames, json)
              && (ok <==> Survives(frames, json) && !response.broken && HasDelta(calls))
  {
    hide Split, Decode, Survives, Calls, CallsOf, Frames, Tail, Concat, HasDelta;
    calls := [];
    if response.Refused? {
      return false, calls;
    }
    var chunks := response.chunks;
    var buffer := "";
    var gotAnyDelta := false;
    NothingRead(json);
    NoChunks(chunks);
    for i := 0 to |chunks|
      invariant buffer == Tail(Concat(chunks[..i]))
      invariant calls == Calls(Frames(Concat(chunks[..i])), json)
      invariant Survives(Frames(Concat(chunks[..i])), json)
      invariant gotAnyDelta <==> HasDelta(calls)
    {
      ghost var seen, before := Concat(chunks[..i]), calls;
      ConcatNext(chunks, i);
      FramesAppend(seen, chunks[i]);
      buffer := buffer + chunks[i];
      var frames := Frames(buffer);
      buffer := Tail(buffer);
      assert calls == before + [];
      CallsAppend(Frames(seen), frames, json);
      SurvivesAppend(Frames(seen), frames, json);
      NoFrames(frames, json);
      for j := 0 to |frames|
        invariant calls == before + Calls(frames[..j], json)
        invariant Survives(frames[..j], json)
        invariant gotAnyDelta <==> HasDelta(calls)
      {
        CallsNext(frames, j, json);
        match Decode(frames[j], json) {
          case NullValue =>
            CallsAppend(frames[..j + 1], frames[j + 1..], json);
            SurvivesAppend(frames[..j + 1], frames[j + 1..], json);
            assert frames == frames[..j + 1] + frames[j + 1..];
            NothingAfterNull(chunks, i + 1, json);
            return false, calls;
          case Malformed =>
          case Event(wire) =>
            HasDeltaAppend(calls, CallsOf(wire));
            OneCall(wire);
            calls := calls + CallsOf(wire);
            if wire.WireDelta? && wire.text != "" {
              gotAnyDelta := true;
            }
        }
      }
      assert frames[..|frames|] == frames;
    }
    assert chunks[..|chunks|] == chunks;
    ok := gotAnyDelta && !response.broken;
  }

  lemma {:induction false} NoChunks(chunks: seq<string>)
    ensures Concat(chunks[..0]) == ""
  {
  }

  lemma {:induction false} NothingRead(json: string -> Parsed)
    ensures Frames("") == [] && Tail("") == "" && !HasDelta([])
    ensures Survives([], json) && Calls([], json) == []
  {
  }

  lemma {:induction false} NoFrames(frames: seq<string>, json: string -> Parsed)
    ensures Survives(frames[..0], json) && Calls(frames[..0], json) == []
  {
  }

  lemma {:induction false} OneCall(wire: Wire)
    ensures HasDelta(CallsOf(wire)) <==> wire.WireDelta? && wire.text != ""
  {
    if wire.WireDelta? && wire.text != "" { assert CallsOf(wire)[0].OnDelta?; }
  }

  // ---- a writer for these frames ----

  /** What a frame carries: the text behind `data:` without the blanks around
      either, unless there is none. */
  lemma {:induction false} PayloadIs(frame: string, payload: string)
    ensures PayloadOf(frame) == Some(payload)
       <==> payload != "" && IsTrimmed(payload)
            && exists pre, gap, post :: IsFrameOf(frame, pre, gap, payload, post)
  {
    hide PayloadOf, IsFrameOf, Trim, IsTrimmed;
    if PayloadOf(frame) == Some(payload) {
      var pre, gap, post := FrameParts(frame, payload);
    }
    if payload != "" && IsTrimmed(payload) {
      if pre, gap, post :| IsFrameOf(frame, pre, gap, payload, post) {
        PayloadOfParts(frame, pre, gap, payload, post);
      }
    }
  }

  predicate IsFrameOf(frame: string, pre: string, gap: string, payload: string, post: string) {
    Blank(pre) && Blank(gap) && Blank(post) && frame == pre + "data:" + gap + payload + post
  }

  lemma {:induction false} FrameParts(frame: string, payload: string) returns (pre: string, gap: string, post: string)
    requires PayloadOf(frame) == Some(payload)
    ensures payload != "" && IsTrimmed(payload) && IsFrameOf(frame, pre, gap, payload, post)
  {
    hide Trim, Blank, IsTrimmed;
    var line := Trim(frame);
    var inner;
    pre, post := TrimParts(frame);
    gap, inner := TrimParts(line[5..]);
    TrimIsTrimmed(line[5..]);
    assert line == "data:" + line[5..];
    hide StartsWith;
    assert frame == pre + ("data:" + (gap + payload + inner)) + post;
    assert frame == pre + "data:" + gap + payload + (inner + post);
    BlankBoth(inner, post);
    post := inner + post;
  }

  lemma {:induction false} BlankBoth(a: string, b: string)
    requires Blank(a) && Blank(b)
    ensures Blank(a + b)
  {
  }

  lemma {:induction false} PayloadOfParts(frame: string, pre: string, gap: string, payload: string, post: string)
    requires IsFrameOf(frame, pre, gap, payload, post) && payload != "" && IsTrimmed(payload)
    ensures PayloadOf(frame) == Some(payload)
  {
    var line := "data:" + gap + payload;
    assert Blank("");
    hide Trim, Blank;
    assert line[0] == 'd' && line[|line| - 1] == payload[|payload| - 1];
    assert frame == pre + line + post;
    TrimOf(pre, line, post);
    assert line[..5] == "data:" && line[5..] == gap + payload + "";
    TrimOf(gap, payload, "");
  }

  /** Frames without a payload, and payloads that do not parse, change nothing
      wherever they stand. */
  lemma {:induction false} IgnoredFrame(a: seq<string>, frame: string, b: seq<string>, json: string -> Parsed)
    requires PayloadOf(frame).Some? ==> json(PayloadOf(frame).value).Malformed?
    ensures Calls(a + [frame] + b, json) == Calls(a + b, json)
    ensures Survives(a + [frame] + b, json) <==> Survives(a + b, json)
  {
    hide PayloadOf, CallsOf;
    assert Decode(frame, json).Malformed?;
    MalformedFrame(frame, json);
    assert a + [frame] + b == a + ([frame] + b);
    assert [] + Calls(b, json) == Calls(b, json);
    hide Calls, Survives, Decode;
    CallsAppend(a, [frame] + b, json);
    CallsAppend([frame], b, json);
    CallsAppend(a, b, json);
    SurvivesAppend(a, [frame] + b, json);
    SurvivesAppend([frame], b, json);
    SurvivesAppend(a, b, json);
  }

  lemma {:induction false} MalformedFrame(frame: string, json: string -> Parsed)
    requires Decode(frame, json).Malformed?
    ensures Calls([frame], json) == [] && Survives([frame], json)
  {
    hide Decode;
    assert [frame][0] == frame && [frame][1..] == [];
  }

  /** A payload that is null stops the reader. */
  lemma {:induction false} NullFrame(a: seq<string>, frame: string, b: seq<string>, json: string -> Parsed)
    requires PayloadOf(frame).Some? && json(PayloadOf(frame).value).NullValue?
    ensures !Survives(a + [frame] + b, json)
    ensures Survives(a, json) ==> Calls(a + [frame] + b, json) == Calls(a, json)
  {
    hide PayloadOf, CallsOf;
    assert [frame][0] == frame;
    assert !Survives([frame], json) && Calls([frame], json) == [];
    assert a + [frame] + b == a + ([frame] + b);
    hide Calls, Survives, Decode;
    CallsAppend(a, [frame] + b, json);
    CallsAppend([frame], b, json);
    SurvivesAppend(a, [frame] + b, json);
    SurvivesAppend([frame], b, json);
    assert Calls(a, json) + [] == Calls(a, json);
  }

  /** The events as a server writes them: one `data:` line and a blank line
      each, with `encode` giving the JSON text (single-line data of section
      9.2.6 of the WHATWG HTML Living Standard). */
  function Encoded(events: seq<Wire>, encode: Wire -> string): string {
    if events == [] then ""
    else "data: " + encode(events[0]) + BLANK_LINE + Encoded(events[1..], encode)
  }

  /** JSON text: on one line, not blank at its ends, and read back. */
  predicate Readable(event: Wire, encode: Wire -> string, json: string -> Parsed) {
    var s := encode(event);
    s != "" && '\n' !in s && IsTrimmed(s) && json(s) == Event(event)
  }

  function AllCalls(events: seq<Wire>): seq<Call> {
    if events == [] then [] else CallsOf(events[0]) + AllCalls(events[1..])
  }

  lemma {:induction false} FrameReadBack(event: Wire, encode: Wire -> string, json: string -> Parsed)
    requires Readable(event, encode, json)
    ensures Decode("data: " + encode(event), json) == Event(event)
  {
    var s := encode(event);
    assert "data: " + s == "" + "data:" + " " + s + "";
    PayloadOfParts("data: " + s, "", " ", s, "");
  }

  /** Whatever list of events was written, the reader's calls are theirs. */
  lemma {:induction false} WrittenEventsReadBack(events: seq<Wire>, encode: Wire -> string, json: string -> Parsed)
    requires forall k :: 0 <= k < |events| ==> Readable(events[k], encode, json)
    ensures var frames := Frames(Encoded(events, encode));
            Survives(frames, json) && Calls(frames, json) == AllCalls(events)
    ensures Tail(Encoded(events, encode)) == ""
  {
    if events == [] {
      assert Frames("") == [];
    } else {
      var head := "data: " + encode(events[0]);
      var rest := Encoded(events[1..], encode);
      WrittenEventsReadBack(events[1..], encode, json);
      FrameReadBack(events[0], encode, json);
      assert Encoded(events, encode) == head + BLANK_LINE + rest;
      OneMoreFrame(head, rest);
      OneFrame(head, events[0], json);
      hide Decode, Frames, Tail, Survives, Calls, CallsOf, Encoded;
      CallsAppend([head], Frames(rest), json);
      SurvivesAppend([head], Frames(rest), json);
    }
  }

  lemma {:induction false} OneMoreFrame(head: string, rest: string)
    requires '\n' !in head
    ensures Frames(head + BLANK_LINE + rest) == [head] + Frames(rest)
    ensures Tail(head + BLANK_LINE + rest) == Tail(rest)
  {
    hide Split, IndexOf;
    SplitHead(head, rest, BLANK_LINE);
    FrontLast(head, Split(rest, BLANK_LINE));
  }

  lemma {:induction false} OneFrame(frame: string, event: Wire, json: string -> Parsed)
    requires Decode(frame, json) == Event(event)
    ensures Survives([frame], json) && Calls([frame], json) == CallsOf(event)
  {
    hide Decode, CallsOf;
    assert [frame][0] == frame && [frame][1..] == [];
  }

  /** Some text arrives exactly when some delta is not empty. */
  lemma {:induction false} DeltaArrives(events: seq<Wire>)
    ensures HasDelta(AllCalls(events))
       <==> exists k :: 0 <= k < |events| && events[k].WireDelta? && events[k].text != ""
  {
    if events != [] {
      var rest := events[1..];
      DeltaArrives(rest);
      HasDeltaAppend(CallsOf(events[0]), AllCalls(rest));
      OneCall(events[0]);
      if k :| 0 <= k < |events| && events[k].WireDelta? && events[k].text != "" {
        if k > 0 { assert rest[k - 1] == events[k]; }
      }
      if k :| 0 <= k < |rest| && rest[k].WireDelta? && rest[k].text != "" {
        assert events[k + 1] == rest[k];
      }
    }
  }

  // ---- what the calls are ----

  /** Events that a handler hears of. */
  predicate Speaks(event: Wire) {
    event.WireMeta? || event.WireDone? || (event.WireDelta? && event.text != "")
  }

  function Heard(events: seq<Wire>): seq<Wire> {
    if events == [] then []
    else if Speaks(events[0]) then [events[0]] + Heard(events[1..])
    else Heard(events[1..])
  }

  /** The call that passes on an event, with what it lacks filled in. */
  predicate PassesOn(call: Call, event: Wire) {
    || (event.WireDone? && call == OnDone)
    || (event.WireDelta? && call == OnDelta(event.text))
    || (event.WireMeta? && call.OnMeta?
        && call.memwalEnabled == event.memwalEnabled
        && (if event.memories.Some? then call.memories == event.memories.value else call.memories == [])
        && (if event.memoryCount.Some? then call.memoryCount == event.memoryCount.value else call.memoryCount == 0)
        && (if event.source.Some? then call.source == event.source.value else call.source == "grounded"))
  }

  predicate PassOn(calls: seq<Call>, events: seq<Wire>) {
    |calls| == |events| && forall k :: 0 <= k < |calls| ==> PassesOn(calls[k], events[k])
  }

  /** In order, one call for each event that a handler hears of. */
  lemma {:induction false} CallsPassOn(events: seq<Wire>)
    ensures PassOn(AllCalls(events), Heard(events))
  {
    if events != [] {
      CallsPassOn(events[1..]);
      hide PassesOn, CallsOf, Speaks;
      var calls, rest := AllCalls(events), AllCalls(events[1..]);
      OneCallPassesOn(events[0]);
      if Speaks(events[0]) {
        assert calls == [CallsOf(events[0])[0]] + rest;
      } else {
        assert calls == rest;
      }
    }
  }

  lemma {:induction false} OneCallPassesOn(event: Wire)
    ensures if Speaks(event) then |CallsOf(event)| == 1 && PassesOn(CallsOf(event)[0], event) else CallsOf(event) == []
  {
  }

  /** However the written text is cut into chunks, the calls are those of the
      events, and text arrives exactly when some delta is not empty. */
  lemma {:induction false} CutAnywhere(chunks: seq<string>, events: seq<Wire>, encode: Wire -> string,
                                       json: string -> Parsed)
    requires Concat(chunks) == Encoded(events, encode)
    requires forall k :: 0 <= k < |events| ==> Readable(events[k], encode, json)
    ensures var frames := Frames(Concat(chunks));
            Survives(frames, json) && Calls(frames, json) == AllCalls(events)
            && PassOn(Calls(frames, json), Heard(events))
            && (HasDelta(Calls(frames, json))
                <==> exists k :: 0 <= k < |events| && events[k].WireDelta? && events[k].text != "")
  {
    hide Calls, AllCalls, Survives, PassOn, Heard, HasDelta, Frames, Encoded;
    WrittenEventsReadBack(events, encode, json);
    CallsPassOn(events);
    DeltaArrives(events);
  }
}
