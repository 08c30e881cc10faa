/** The streamed conversation of the agent desk
    (app/dashboard/page.tsx, `submitPrompt`). */
module DeskThread {
  import opened Wrappers
  import opened JsText
  import opened EventStream

  datatype Proposal = Proposal(id: string, recommendation: string)

  datatype DeskEvent =
    | Meta
    | Delta(text: string)
    | Tool(name: string, proposes: bool)
    | Warning(message: string)
    | Proposed(proposal: Proposal)
    | Done

  datatype Item =
    | User(text: string)
    | Assistant(text: string)
    | Activity(caption: string, proposes: bool)
    | Notice(text: string, retry: Option<string>)
    | SessionExpired
    | ProposalItem(proposal: Proposal)

  const NOT_OPENED := "0xWal could not open a secure line just now. Nothing was prepared — try again."
  const DROPPED := "The connection dropped mid-answer. Nothing was prepared without you — try again."

  /** The event a frame carries: `Skip` when it has no data line, `Throws` when
      its JSON does not parse. */
  datatype FrameResult = Skip | Throws | Carries(event: DeskEvent)

  function FirstDataLine(lines: seq<string>): (line: Option<string>)
    ensures line.Some? ==> StartsWith(line.value, "data: ")
  {
    if lines == [] then None
    else if StartsWith(lines[0], "data: ") then Some(lines[0])
    else FirstDataLine(lines[1..])
  }

  function ReadFrame(frame: string, json: string -> Option<DeskEvent>): FrameResult {
    match FirstDataLine(Split(frame, "\n"))
    case None => Skip
    case Some(line) =>
      match json(line[6..])
      case None => Throws
      case Some(event) => Carries(event)
  }

  predicate AllRead(frames: seq<string>, json: string -> Option<DeskEvent>) {
    forall k :: 0 <= k < |frames| ==> !ReadFrame(frames[k], json).Throws?
  }

  /** The events of a list of frames, up to one that does not parse. */
  function Events(frames: seq<string>, json: string -> Option<DeskEvent>): seq<DeskEvent> {
    if frames == [] then []
    else
      match ReadFrame(frames[0], json)
      case Throws => []
      case Skip => Events(frames[1..], json)
      case Carries(event) => [event] + Events(frames[1..], json)
  }

  // ---- what the thread should show ----

  /** Events that end a run of assistant text. */
  predicate Breaks(event: DeskEvent) {
    event.Tool? || event.Warning? || event.Proposed?
  }

  /** The item a breaking event puts in the thread. */
  function ItemOf(event: DeskEvent, labels: string -> string): Item
    requires Breaks(event)
  {
    match event
    case Tool(name, proposes) => Activity(labels(name), proposes)
    case Warning(message) => Notice(message, None)
    case Proposed(proposal) => ProposalItem(proposal)
  }

  /** How many events come before the first breaking one. */
  function RunLength(events: seq<DeskEvent>): (n: nat)
    ensures n <= |events|
    ensures forall k :: 0 <= k < n ==> !Breaks(events[k])
    ensures n < |events| ==> Breaks(events[n])
  {
    if events == [] || Breaks(events[0]) then 0 else 1 + RunLength(events[1..])
  }

  /** The concatenated text of a run; meta and done events add nothing. */
  function RunText(events: seq<DeskEvent>): string {
    if events == [] then ""
    else (if events[0].Delta? then events[0].text else "") + RunText(events[1..])
  }

  /** A finished run: one assistant item, or none when it is blank. */
  function Said(text: string): seq<Item> {
    if Trim(text) == "" then [] else [Assistant(Trim(text))]
  }

  /** The thread as a function of the event list: every maximal run of
      non-breaking events becomes its text, every breaking event its item, in
      order. A run still open at the end shows only if the stream `ended`. */
  function Shown(events: seq<DeskEvent>, labels: string -> string, ended: bool): seq<Item>
    decreases |events|
  {
    var n := RunLength(events);
    if n == |events| then (if ended then Said(RunText(events)) else [])
    else
      Said(RunText(events[..n])) + [ItemOf(events[n], labels)] + Shown(events[n + 1..], labels, ended)
  }

  /** The text received since the last breaking event. */
  function OpenText(events: seq<DeskEvent>): string
    decreases |events|
  {
    var n := RunLength(events);
    if n == |events| then RunText(events) else OpenText(events[n + 1..])
  }

  lemma {:induction false} RunTextAppend(a: seq<DeskEvent>, b: seq<DeskEvent>)
    ensures RunText(a + b) == RunText(a) + RunText(b)
  {
    if a == [] {
      assert a + b == b;
    } else {
      RunTextAppend(a[1..], b);
      assert (a + b)[1..] == a[1..] + b;
      assert (a + b)[0] == a[0];
      Reassociate(if a[0].Delta? then a[0].text else "", RunText(a[1..]), RunText(b));
    }
  }

  lemma {:induction false} RunLengthAppend(a: seq<DeskEvent>, b: seq<DeskEvent>)
    ensures RunLength(a + b) == if RunLength(a) < |a| then RunLength(a) else |a| + RunLength(b)
  {
    if a == [] {
      assert a + b == b;
    } else if !Breaks(a[0]) {
      RunLengthAppend(a[1..], b);
      assert (a + b)[1..] == a[1..] + b;
    }
  }

  /** Everything up to the first breaking event is settled by then. */
  lemma {:induction false} Unfold(events: seq<DeskEvent>, labels: string -> string)
    requires RunLength(events) < |events|
    ensures var n := RunLength(events);
            Shown(events, labels, false)
            == Said(RunText(events[..n])) + [ItemOf(events[n], labels)] + Shown(events[n + 1..], labels, false)
            && OpenText(events) == OpenText(events[n + 1..])
  {
    hide RunLength, Said, RunText, ItemOf;
  }

  lemma {:induction false} OpenRun(events: seq<DeskEvent>, labels: string -> string)
    requires RunLength(events) == |events|
    ensures Shown(events, labels, false) == [] && OpenText(events) == RunText(events)
  {
    hide RunText;
  }

  /** A breaking event closes the open run and adds its item. */
  lemma {:induction false} ShownBreak(events: seq<DeskEvent>, e: DeskEvent, labels: string -> string)
    requires Breaks(e)
    ensures Shown(events + [e], labels, false)
         == Shown(events, labels, false) + Said(OpenText(events)) + [ItemOf(e, labels)]
    ensures OpenText(events + [e]) == ""
    decreases |events|
  {
    hide *;
    var n := RunLength(events);
    var all := events + [e];
    RunLengthAppend(events, [e]);
    if n < |events| {
      var rest := events[n + 1..];
      Unfold(events, labels);
      Unfold(all, labels);
      ShownBreak(rest, e, labels);
      assert all[..n] == events[..n];
      assert all[n + 1..] == rest + [e];
      Regroup(Said(RunText(events[..n])) + [ItemOf(events[n], labels)],
              Shown(rest, labels, false), Said(OpenText(rest)), [ItemOf(e, labels)]);
    } else {
      BreakOpenRun(events, e, labels);
    }
  }

  lemma {:induction false} BreakOpenRun(events: seq<DeskEvent>, e: DeskEvent, labels: string -> string)
    requires Breaks(e) && RunLength(events) == |events|
    ensures Shown(events + [e], labels, false)
         == Shown(events, labels, false) + Said(OpenText(events)) + [ItemOf(e, labels)]
    ensures OpenText(events + [e]) == ""
  {
    hide *;
    var n := |events|;
    var all := events + [e];
    SingleBreak(e);
    RunLengthAppend(events, [e]);
    Unfold(all, labels);
    OpenRun(events, labels);
    OpenRun([], labels);
    Cut(events, e);
    NoSides(Said(RunText(events)) + [ItemOf(e, labels)]);
    NoSides(Said(RunText(events)));
  }

  lemma {:induction false} Cut<T>(s: seq<T>, e: T)
    ensures (s + [e])[..|s|] == s && (s + [e])[|s|] == e && (s + [e])[|s| + 1..] == []
  {
  }

  lemma {:induction false} NoSides<T>(s: seq<T>)
    ensures s + [] == s && [] + s == s
  {
  }

  lemma {:induction false} SingleOther(e: DeskEvent)
    requires !Breaks(e)
    ensures RunLength([e]) == 1 && RunText([e]) == if e.Delta? then e.text else ""
  {
    assert [e][1..] == [];
  }

  lemma {:induction false} SingleBreak(e: DeskEvent)
    requires Breaks(e)
    ensures RunLength([e]) == 0 && RunLength([]) == 0 && RunText([]) == ""
  {
  }

  lemma {:induction false} Regroup<T>(a: seq<T>, b: seq<T>, c: seq<T>, d: seq<T>)
    ensures a + (b + c + d) == a + b + c + d
  {
  }

  /** Any other event leaves what is shown alone and may extend the open run. */
  lemma {:induction false} ShownExtend(events: seq<DeskEvent>, e: DeskEvent, labels: string -> string)
    requires !Breaks(e)
    ensures Shown(events + [e], labels, false) == Shown(events, labels, false)
    ensures OpenText(events + [e]) == OpenText(events) + (if e.Delta? then e.text else "")
    decreases |events|
  {
    hide *;
    var n := RunLength(events);
    var all := events + [e];
    RunLengthAppend(events, [e]);
    SingleOther(e);
    if n < |events| {
      Unfold(events, labels);
      Unfold(all, labels);
      ShownExtend(events[n + 1..], e, labels);
      assert all[..n] == events[..n];
      assert all[n + 1..] == events[n + 1..] + [e];
    } else {
      OpenRun(events, labels);
      OpenRun(all, labels);
      RunTextAppend(events, [e]);
    }
  }

  /** Ending the stream is closing the open run. */
  lemma {:induction false} ShownEnd(events: seq<DeskEvent>, labels: string -> string)
    ensures Shown(events, labels, true) == Shown(events, labels, false) + Said(OpenText(events))
    decreases |events|
  {
    hide Said, RunText, ItemOf, RunLength;
    var n := RunLength(events);
    if n < |events| {
      var rest := events[n + 1..];
      ShownEnd(rest, labels);
      var head := Said(RunText(events[..n])) + [ItemOf(events[n], labels)];
      assert Shown(events, labels, true) == head + Shown(rest, labels, true);
      assert Shown(events, labels, false) == head + Shown(rest, labels, false);
    }
  }

  lemma {:induction false} AllReadAppend(a: seq<string>, b: seq<string>, json: string -> Option<DeskEvent>)
    ensures AllRead(a + b, json) <==> AllRead(a, json) && AllRead(b, json)
  {
    hide ReadFrame;
    if AllRead(a + b, json) {
      forall k | 0 <= k < |a| ensures !ReadFrame(a[k], json).Throws? { assert (a + b)[k] == a[k]; }
      forall k | 0 <= k < |b| ensures !ReadFrame(b[k], json).Throws? { assert (a + b)[|a| + k] == b[k]; }
    }
  }

  lemma {:induction false} EventsAppend(a: seq<string>, b: seq<string>, json: string -> Option<DeskEvent>)
    ensures AllRead(a, json) ==> Events(a + b, json) == Events(a, json) + Events(b, json)
    ensures !AllRead(a, json) ==> Events(a + b, json) == Events(a, json)
  {
    hide ReadFrame;
    if a == [] {
      assert a + b == b;
    } else {
      EventsAppend(a[1..], b, json);
      assert (a + b)[1..] == a[1..] + b;
      AllReadAppend([a[0]], a[1..], json);
      assert a == [a[0]] + a[1..];
      assert [a[0]][0] == a[0];
    }
  }

  lemma {:induction false} EventsNext(frames: seq<string>, j: nat, json: string -> Option<DeskEvent>)
    requires j < |frames| && AllRead(frames[..j], json)
    ensures var r := ReadFrame(frames[j], json);
            Events(frames[..j + 1], json) == Events(frames[..j], json) + (if r.Carries? then [r.event] else [])
            && (AllRead(frames[..j + 1], json) <==> !r.Throws?)
  {
    hide ReadFrame;
    EventsAppend(frames[..j], [frames[j]], json);
    AllReadAppend(frames[..j], [frames[j]], json);
    assert frames[..j + 1] == frames[..j] + [frames[j]];
    assert [frames[j]][1..] == [];
    assert [frames[j]][0] == frames[j];
  }

  lemma {:induction false} NothingAfterThrow(chunks: seq<string>, i: nat, json: string -> Option<DeskEvent>)
    requires i <= |chunks| && !AllRead(Frames(Concat(chunks[..i])), json)
    ensures !AllRead(Frames(Concat(chunks)), json)
    ensures Events(Frames(Concat(chunks)), json) == Events(Frames(Concat(chunks[..i])), json)
  {
    hide Frames, Tail, Concat, AllRead, Events;
    var seen, rest := Concat(chunks[..i]), Concat(chunks[i..]);
    ConcatAppend(chunks[..i], chunks[i..]);
    assert chunks == chunks[..i] + chunks[i..];
    FramesAppend(seen, rest);
    EventsAppend(Frames(seen), Frames(Tail(seen) + rest), json);
    AllReadAppend(Frames(seen), Frames(Tail(seen) + rest), json);
  }

  // ---- the component ----

  datatype DeskResponse =
    | Unreachable
    | Unauthorized
    | NotOpened
    | Body(chunks: seq<string>, broken: bool)

  /** What one answered prompt adds below the user's own line. */
  function Answer(prompt: string, response: DeskResponse, json: string -> Option<DeskEvent>, labels: string -> string)
    : seq<Item>
  {
    match response
    case Unreachable => [Notice(DROPPED, Some(prompt))]
    case Unauthorized => [SessionExpired]
    case NotOpened => [Notice(NOT_OPENED, Some(prompt))]
    case Body(chunks, broken) =>
      var frames := Frames(Concat(chunks));
      var whole := AllRead(frames, json) && !broken;
      Shown(Events(frames, json), labels, whole) + (if whole then [] else [Notice(DROPPED, Some(prompt))])
  }

  /** The proposals among some items, in order. */
  function ProposalIds(items: seq<Item>): seq<string> {
    if items == [] then []
    else (if items[0].ProposalItem? then [items[0].proposal.id] else []) + ProposalIds(items[1..])
  }

  lemma {:induction false} ProposalIdsAppend(a: seq<Item>, b: seq<Item>)
    ensures ProposalIds(a + b) == ProposalIds(a) + ProposalIds(b)
  {
    if a == [] {
      assert a + b == b;
    } else {
      ProposalIdsAppend(a[1..], b);
      assert (a + b)[1..] == a[1..] + b;
      assert (a + b)[0] == a[0];
      Reassociate(if a[0].ProposalItem? then [a[0].proposal.id] else [], ProposalIds(a[1..]), ProposalIds(b));
    }
  }

  /** A breaking event adds one proposal if it is one; said text adds none. */
  lemma {:induction false} ProposalIdsBreak(shown: seq<Item>, text: string, event: DeskEvent, labels: string -> string)
    requires Breaks(event)
    ensures ProposalIds(shown + Said(text) + [ItemOf(event, labels)])
         == ProposalIds(shown) + (if event.Proposed? then [event.proposal.id] else [])
  {
    var item := ItemOf(event, labels);
    ProposalIdsAppend(shown + Said(text), [item]);
    ProposalIdsAppend(shown, Said(text));
    SaidHasNoProposal(text);
    assert [item][1..] == [];
  }

  lemma {:induction false} SaidHasNoProposal(text: string)
    ensures ProposalIds(Said(text)) == []
  {
    if Said(text) != [] { assert Said(text)[1..] == []; }
  }

  /** What a broken conversation ends with, offering the prompt again. */
  function DroppedNotice(prompt: string): (item: Item)
    ensures item == Notice("The connection dropped mid-answer. Nothing was prepared without you — try again.",
                           Some(prompt))
  {
    Notice(DROPPED, Some(prompt))
  }

  class Desk {
    var thread: seq<Item>
    /** The proposals whose approval window was opened, in order. */
    var windows: seq<string>
    var streamingText: string
    var isSending: bool

    constructor (welcome: string)
      ensures thread == [Assistant(welcome)] && windows == [] && streamingText == "" && !isSending
    {
      thread := [Assistant(welcome)];
      windows := [];
      streamingText := "";
      isSending := false;
    }

    /** Commits the text so far, if there is any. */
    method FlushAssistant(assistantText: string)
      modifies this`thread, this`streamingText
      ensures thread == old(thread) + Said(assistantText)
      ensures streamingText == "" && isSending == old(isSending)
    {
      var text := Trim(assistantText);
      if text != "" {
        thread := thread + [Assistant(text)];
      }
      streamingText := "";
    }

    /** Sends a prompt and shows the answer; blank prompts and prompts sent
        while another is answered change nothing. */
    method SubmitPrompt(rawPrompt: string, response: DeskResponse, json: string -> Option<DeskEvent>,
                        labels: string -> string)
      modifies this
      ensures Trim(rawPrompt) == "" || old(isSending) ==>
                thread == old(thread) && windows == old(windows)
                && streamingText == old(streamingText) && isSending == old(isSending)
      ensures Trim(rawPrompt) != "" && !old(isSending) ==>
                thread == old(thread) + [User(Trim(rawPrompt))] + Answer(Trim(rawPrompt), response, json, labels)
                && windows == old(windows) + ProposalIds(Answer(Trim(rawPrompt), response, json, labels))
                && streamingText == "" && !isSending
      ensures Trim(rawPrompt) != "" && !old(isSending) ==>
                && (response.Unauthorized? ==> thread == old(thread) + [User(Trim(rawPrompt)), SessionExpired])
                && (response.NotOpened? ==>
                      thread == old(thread) + [User(Trim(rawPrompt)), Notice(
                        "0xWal could not open a secure line just now. Nothing was prepared — try again.",
                        Some(Trim(rawPrompt)))])
                && (response.Unreachable? ==>
                      thread == old(thread) + [User(Trim(rawPrompt)), DroppedNotice(Trim(rawPrompt))])
                && (response.Body? && (response.broken || !AllRead(Frames(Concat(response.chunks)), json)) ==>
                      thread[|thread| - 1..] == [DroppedNotice(Trim(rawPrompt))])
    {
      hide Shown, Events, AllRead, Frames, Concat, ProposalIds, Trim;
      var prompt := Trim(rawPrompt);
      if prompt == "" || isSending {
        return;
      }
      streamingText := "";
      isSending := true;
      thread := thread + [User(prompt)];
      NoticesHaveNoProposal(prompt);
      match response {
        case Unreachable =>
          thread := thread + [Notice(DROPPED, Some(prompt))];
        case Unauthorized =>
          thread := thread + [SessionExpired];
        case NotOpened =>
          thread := thread + [Notice(NOT_OPENED, Some(prompt))];
        case Body(chunks, broken) =>
          var whole := StreamAnswer(chunks, broken, json, labels);
          ghost var shown := Shown(Events(Frames(Concat(chunks)), json), labels, whole);
          if whole {
            assert shown + [] == shown;
          } else {
            ProposalIdsAppend(shown, [Notice(DROPPED, Some(prompt))]);
            thread := thread + [Notice(DROPPED, Some(prompt))];
          }
      }
      streamingText := "";
      isSending := false;
    }

    /** The reading loop; answers whether it ran to the end of the stream. */
    method StreamAnswer(chunks: seq<string>, broken: bool, json: string -> Option<DeskEvent>, labels: string -> string)
      returns (whole: bool)
      modifies this
      ensures var frames := Frames(Concat(chunks));
              (whole <==> AllRead(frames, json) && !broken)
              && thread == old(thread) + Shown(Events(frames, json), labels, whole)
              && windows == old(windows) + ProposalIds(Shown(Events(frames, json), labels, whole))
    {
      hide Split, ReadFrame, Shown, OpenText, Events, AllRead, ProposalIds, Said, Frames, Tail, Concat;
      NoChunks(chunks);
      var assistantText := "";
      var buffer := "";
      NothingShown(json, labels);
      for i := 0 to |chunks|
        invariant buffer == Tail(Concat(chunks[..i]))
        invariant AllRead(Frames(Concat(chunks[..i])), json)
        invariant assistantText == OpenText(Events(Frames(Concat(chunks[..i])), json))
        invariant thread == old(thread) + Shown(Events(Frames(Concat(chunks[..i])), json), labels, false)
        invariant windows == old(windows) + ProposalIds(Shown(Events(Frames(Concat(chunks[..i])), json), labels, false))
      {
        ghost var seen := Concat(chunks[..i]);
        ghost var before := Events(Frames(seen), json);
        ConcatNext(chunks, i);
        FramesAppend(seen, chunks[i]);
        buffer := buffer + chunks[i];
        var frames := Frames(buffer);
        buffer := Tail(buffer);
        EventsAppend(Frames(seen), frames, json);
        AllReadAppend(Frames(seen), frames, json);
        NoFrameEvents(before, frames, json);
        for j := 0 to |frames|
          invariant AllRead(frames[..j], json)
          invariant assistantText == OpenText(before + Events(frames[..j], json))
          invariant thread == old(thread) + Shown(before + Events(frames[..j], json), labels, false)
          invariant windows == old(windows) + ProposalIds(Shown(before + Events(frames[..j], json), labels, false))
        {
          EventsNext(frames, j, json);
          match ReadFrame(frames[j], json) {
            case Throws =>
              assert frames == frames[..j + 1] + frames[j + 1..];
              EventsAppend(frames[..j + 1], frames[j + 1..], json);
              AllReadAppend(frames[..j + 1], frames[j + 1..], json);
              NothingAfterThrow(chunks, i + 1, json);
              assert Events(frames[..j + 1], json) == Events(frames[..j], json);
              return false;
            case Skip =>
              assert Events(frames[..j + 1], json) == Events(frames[..j], json);
            case Carries(event) =>
              ghost var sofar := before + Events(frames[..j], json);
              assert before + Events(frames[..j + 1], json) == sofar + [event];
              if Breaks(event) {
                ShownBreak(sofar, event, labels);
                ProposalIdsBreak(Shown(sofar, labels, false), assistantText, event, labels);
                FlushAssistant(assistantText);
                assistantText := "";
                if event.Proposed? {
                  windows := windows + [event.proposal.id];
                }
                thread := thread + [ItemOf(event, labels)];
              } else {
                ShownExtend(sofar, event, labels);
                if event.Delta? {
                  assistantText := assistantText + event.text;
                  streamingText := assistantText;
                }
              }
          }
        }
        assert frames[..|frames|] == frames;
      }
      assert chunks[..|chunks|] == chunks;
      if broken {
        return false;
      }
      ShownEnd(Events(Frames(Concat(chunks)), json), labels);
      ProposalIdsAppend(Shown(Events(Frames(Concat(chunks)), json), labels, false), Said(assistantText));
      SaidHasNoProposal(assistantText);
      FlushAssistant(assistantText);
      return true;
    }
  }

  lemma {:induction false} NoticesHaveNoProposal(prompt: string)
    ensures ProposalIds([Notice(DROPPED, Some(prompt))]) == [] && ProposalIds([Notice(NOT_OPENED, Some(prompt))]) == []
    ensures ProposalIds([SessionExpired]) == []
  {
    assert [Notice(DROPPED, Some(prompt))][1..] == [] && [Notice(NOT_OPENED, Some(prompt))][1..] == [];
    assert [SessionExpired][1..] == [];
  }

  lemma {:induction false} NothingShown(json: string -> Option<DeskEvent>, labels: string -> string)
    ensures Frames("") == [] && Tail("") == "" && Events([], json) == [] && AllRead([], json)
    ensures Shown([], labels, false) == [] && OpenText([]) == "" && ProposalIds([]) == []
  {
  }

  lemma {:induction false} NoFrameEvents(before: seq<DeskEvent>, frames: seq<string>, json: string -> Option<DeskEvent>)
    ensures AllRead(frames[..0], json)
    ensures before + Events(frames[..0], json) == before
  {
  }

  // ---- what the items are ----

  /** An assistant item is the run's text without the blanks around it, and
      there is none when nothing else is left. */
  lemma {:induction false} SaidIs(pre: string, text: string, post: string)
    requires Blank(pre) && IsTrimmed(text) && Blank(post)
    ensures Said(pre + text + post) == if text == "" then [] else [Assistant(text)]
  {
    TrimOf(pre, text, post);
  }

  /** The events that show an item of their own. */
  function Breaking(events: seq<DeskEvent>): seq<DeskEvent> {
    if events == [] then []
    else if events[0].Tool? || events[0].Warning? || events[0].Proposed? then [events[0]] + Breaking(events[1..])
    else Breaking(events[1..])
  }

  /** All items but the assistant's. */
  function Others(items: seq<Item>): seq<Item> {
    if items == [] then []
    else if items[0].Assistant? then Others(items[1..])
    else [items[0]] + Others(items[1..])
  }

  predicate Shows(item: Item, event: DeskEvent, labels: string -> string) {
    || (event.Tool? && item.Activity? && item.caption == labels(event.name) && item.proposes == event.proposes)
    || (event.Warning? && item.Notice? && item.text == event.message && item.retry == None)
    || (event.Proposed? && item.ProposalItem? && item.proposal == event.proposal)
  }

  predicate ShowAll(items: seq<Item>, events: seq<DeskEvent>, labels: string -> string) {
    |items| == |events| && forall k :: 0 <= k < |items| ==> Shows(items[k], events[k], labels)
  }

  /** Beside the assistant's text the thread holds, in order, one item for each
      tool call, warning and proposal, with what that event carried. */
  lemma {:induction false} ItemsAreEvents(events: seq<DeskEvent>, labels: string -> string, ended: bool)
    ensures ShowAll(Others(Shown(events, labels, ended)), Breaking(events), labels)
    decreases |events|
  {
    hide RunLength, Said, RunText, Shows, ItemOf, Breaking, Others;
    var n := RunLength(events);
    BreakingFrom(events, n);
    if n == |events| {
      SaidIsAssistant(RunText(events));
      NothingElse();
    } else {
      var rest := events[n + 1..];
      ItemsAreEvents(rest, labels, ended);
      ShownUnfolds(events, labels, ended);
      hide Shown;
      BreakingHead(events[n..], labels);
      assert events[n..][1..] == rest;
      OthersBehindText(RunText(events[..n]), ItemOf(events[n], labels), Shown(rest, labels, ended));
      ShowsHead(ItemOf(events[n], labels), events[n], Others(Shown(rest, labels, ended)), Breaking(rest), labels);
    }
  }

  lemma {:induction false} ShowsHead(item: Item, event: DeskEvent, items: seq<Item>, events: seq<DeskEvent>,
                                     labels: string -> string)
    requires Shows(item, event, labels) && ShowAll(items, events, labels)
    ensures ShowAll([item] + items, [event] + events, labels)
  {
    hide Shows;
  }

  lemma {:induction false} OthersBehindText(text: string, item: Item, items: seq<Item>)
    requires !item.Assistant?
    ensures Others(Said(text) + [item] + items) == [item] + Others(items)
  {
    hide Said, Others;
    SaidIsAssistant(text);
    assert Said(text) + [item] + items == Said(text) + ([item] + items);
    OthersAppend(Said(text), [item] + items);
    OthersHead(item, items);
    assert [] + ([item] + Others(items)) == [item] + Others(items);
  }

  lemma {:induction false} NothingElse()
    ensures Others([]) == [] && Breaking([]) == []
  {
  }

  lemma {:induction false} BreakingFrom(events: seq<DeskEvent>, n: nat)
    requires n <= |events| && forall k :: 0 <= k < n ==> !Breaks(events[k])
    ensures Breaking(events) == Breaking(events[n..])
  {
    if n > 0 {
      BreakingFrom(events[1..], n - 1);
      assert events[1..][n - 1..] == events[n..];
    } else {
      assert events[0..] == events;
    }
  }

  lemma {:induction false} BreakingHead(events: seq<DeskEvent>, labels: string -> string)
    requires events != [] && Breaks(events[0])
    ensures Breaking(events) == [events[0]] + Breaking(events[1..])
    ensures Shows(ItemOf(events[0], labels), events[0], labels) && !ItemOf(events[0], labels).Assistant?
  {
  }

  lemma {:induction false} OthersHead(item: Item, items: seq<Item>)
    requires !item.Assistant?
    ensures Others([item] + items) == [item] + Others(items)
  {
    assert ([item] + items)[1..] == items;
  }

  lemma {:induction false} OthersAppend(a: seq<Item>, b: seq<Item>)
    ensures Others(a + b) == Others(a) + Others(b)
  {
    if a == [] {
      assert a + b == b;
    } else {
      OthersAppend(a[1..], b);
      assert (a + b)[1..] == a[1..] + b && (a + b)[0] == a[0];
      if !a[0].Assistant? { Reassociate([a[0]], Others(a[1..]), Others(b)); }
    }
  }

  lemma {:induction false} SaidIsAssistant(text: string)
    ensures Others(Said(text)) == []
  {
    if Said(text) != [] { assert Said(text)[1..] == []; }
  }

  // ---- a writer for these frames ----

  function EncodedDesk(events: seq<DeskEvent>, encode: DeskEvent -> string): string {
    if events == [] then ""
    else "data: " + encode(events[0]) + BLANK_LINE + EncodedDesk(events[1..], encode)
  }

  predicate DeskReadable(event: DeskEvent, encode: DeskEvent -> string, json: string -> Option<DeskEvent>) {
    '\n' !in encode(event) && json(encode(event)) == Some(event)
  }

  /** Whatever list of events was written, those are the events read. */
  lemma {:induction false} DeskEventsReadBack(
    events: seq<DeskEvent>, encode: DeskEvent -> string, json: string -> Option<DeskEvent>)
    requires forall k :: 0 <= k < |events| ==> DeskReadable(events[k], encode, json)
    ensures var frames := Frames(EncodedDesk(events, encode));
            AllRead(frames, json) && Events(frames, json) == events
  {
    if events == [] {
      NothingShown(json, s => s);
    } else {
      var head := "data: " + encode(events[0]);
      var rest := EncodedDesk(events[1..], encode);
      DeskEventsReadBack(events[1..], encode, json);
      DeskFrameReadBack(events[0], encode, json);
      assert EncodedDesk(events, encode) == head + BLANK_LINE + rest;
      OneMoreFrame(head, rest);
      OneDeskFrame(head, events[0], json);
      hide ReadFrame, Frames, AllRead, Events, EncodedDesk;
      AllReadAppend([head], Frames(rest), json);
      EventsAppend([head], Frames(rest), json);
      assert events == [events[0]] + events[1..];
    }
  }

  lemma {:induction false} OneDeskFrame(frame: string, event: DeskEvent, json: string -> Option<DeskEvent>)
    requires ReadFrame(frame, json) == Carries(event)
    ensures AllRead([frame], json) && Events([frame], json) == [event]
  {
    hide ReadFrame;
    assert [frame][0] == frame && [frame][1..] == [];
  }

  lemma {:induction false} DeskFrameReadBack(event: DeskEvent, encode: DeskEvent -> string,
                                             json: string -> Option<DeskEvent>)
    requires DeskReadable(event, encode, json)
    ensures ReadFrame("data: " + encode(event), json) == Carries(event)
  {
    var frame := "data: " + encode(event);
    SplitHead(frame, "", "\n");
    assert frame[..6] == "data: " && frame[6..] == encode(event);
    assert Split(frame, "\n") == [frame];
  }

  /** However the written text is cut into chunks, the thread shows exactly the
      event list: a break or a broken connection costs only the open run. */
  lemma {:induction false} ThreadOfWrittenEvents(prompt: string, chunks: seq<string>, broken: bool,
                                                 events: seq<DeskEvent>, encode: DeskEvent -> string,
                                                 json: string -> Option<DeskEvent>, labels: string -> string)
    requires Concat(chunks) == EncodedDesk(events, encode)
    requires forall k :: 0 <= k < |events| ==> DeskReadable(events[k], encode, json)
    ensures Answer(prompt, Body(chunks, broken), json, labels)
         == if broken then Shown(events, labels, false) + [Notice(DROPPED, Some(prompt))]
            else Shown(events, labels, false) + Said(OpenText(events))
  {
    hide Shown, OpenText, Frames;
    DeskEventsReadBack(events, encode, json);
    ShownEnd(events, labels);
  }

  /** A run of text is one item however many events, meta and done ones among
      them, it came in; the items of breaking events stand between the runs. */
  lemma {:induction false} RunIsOneItem(run: seq<DeskEvent>, next: DeskEvent, rest: seq<DeskEvent>,
                                        labels: string -> string, ended: bool)
    requires Breaks(next) && forall k :: 0 <= k < |run| ==> !Breaks(run[k])
    ensures Shown(run + [next] + rest, labels, ended)
         == Said(RunText(run)) + [ItemOf(next, labels)] + Shown(rest, labels, ended)
  {
    hide Shown, Said, RunText, ItemOf, RunLength;
    var all := run + [next] + rest;
    var n := RunLength(all);
    assert all[|run|] == next;
    assert forall k :: 0 <= k < |run| ==> all[k] == run[k];
    assert n == |run|;
    assert all[..n] == run && all[n + 1..] == rest;
    ShownUnfolds(all, labels, ended);
  }

  lemma {:induction false} ShownUnfolds(events: seq<DeskEvent>, labels: string -> string, ended: bool)
    requires RunLength(events) < |events|
    ensures var n := RunLength(events);
            Shown(events, labels, ended)
            == Said(RunText(events[..n])) + [ItemOf(events[n], labels)] + Shown(events[n + 1..], labels, ended)
  {
    hide RunLength, Said, RunText, ItemOf;
  }

  /** A frame is read by its first line that starts with the data prefix; it
      is passed over without one. */
  lemma {:induction false} FrameIs(frame: string, json: string -> Option<DeskEvent>, k: nat)
    requires k <= |Split(frame, "\n")|
    requires forall j :: 0 <= j < k ==> !StartsWith(Split(frame, "\n")[j], "data: ")
    requires k < |Split(frame, "\n")| ==> StartsWith(Split(frame, "\n")[k], "data: ")
    ensures k == |Split(frame, "\n")| ==> ReadFrame(frame, json) == Skip
    ensures k < |Split(frame, "\n")| ==>
              var parsed := json(Split(frame, "\n")[k][6..]);
              ReadFrame(frame, json) == if parsed.Some? then Carries(parsed.value) else Throws
  {
    hide Split, FirstDataLine;
    var lines := Split(frame, "\n");
    FirstLine(lines, k);
    if k < |lines| {
      assert FirstDataLine(lines).value[6..] == lines[k][6..];
    }
  }

  lemma {:induction false} FirstLine(lines: seq<string>, k: nat)
    requires k <= |lines|
    requires forall j :: 0 <= j < k ==> !StartsWith(lines[j], "data: ")
    requires k < |lines| ==> StartsWith(lines[k], "data: ")
    ensures FirstDataLine(lines) == if k < |lines| then Some(lines[k]) else None
  {
    hide StartsWith;
    if k > 0 { FirstLine(lines[1..], k - 1); }
  }
}
