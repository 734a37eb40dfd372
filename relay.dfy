/**
 * The stream relay of the generation route: the handlers that turn the
 * model's server-sent events into the text stream returned to the browser.
 * The readable stream's controller is modelled by the sequence of calls
 * made on it.
 */
module Relay {
  import opened Text

  /** A call on the stream controller: `enqueue(text)`, `close()` or
      `error(err)`. */
  datatype Call = Enqueue(text: string) | Close | Error(reason: string)

  /** Line 73: the payload of an event line. */
  function Payload(line: string): string
  {
    Trim(ReplaceFirst(line, "data:", ""))
  }

  /** On a line that starts with "data:" the first occurrence is the prefix. */
  lemma PayloadAfterPrefix(line: string)
    requires StartsWith(line, "data:")
    ensures Payload(line) == Trim(line[5..])
  {
    ReplaceFirstAt(line, "data:", "", 0);
    assert Substitute("", "data:", line[..0], line[5..]) == [];
    assert line[..0] + [] + line[5..] == line[5..];
  }

  /** What one line of a chunk amounts to: nothing (not an event line, a
      payload that does not parse, no content or empty content), the end
      of the stream, or a text to enqueue. `extract` is
      `JSON.parse(payload).choices?.[0]?.delta?.content`, `None` when the
      payload does not parse or holds no content. */
  datatype LineEvent = Skip | Done | Text(text: string)

  function EventOf(line: string, extract: string -> Option<string>): LineEvent
  {
    if !StartsWith(line, "data:") then Skip
    else if Payload(line) == "[DONE]" then Done
    else match extract(Payload(line))
      case Some(text) => if text != "" then Text(text) else Skip
      case None => Skip
  }

  /** The events of the lines of one chunk, in order. */
  function Events(lines: seq<string>, extract: string -> Option<string>): seq<LineEvent>
  {
    seq(|lines|, i requires 0 <= i < |lines| => EventOf(lines[i], extract))
  }

  /** Texts are never empty. */
  lemma EventsText(lines: seq<string>, extract: string -> Option<string>)
    ensures var events := Events(lines, extract);
      forall i :: 0 <= i < |events| && events[i].Text? ==> events[i].text != ""
  {
  }

  lemma EventsAppend(a: seq<string>, b: seq<string>, extract: string -> Option<string>)
    ensures Events(a + b, extract) == Events(a, extract) + Events(b, extract)
  {
    assert forall i :: 0 <= i < |a| ==> (a + b)[i] == a[i];
    assert forall i :: |a| <= i < |a + b| ==> (a + b)[i] == b[i - |a|];
  }

  /** The calls the loop of lines 70-90 makes for a sequence of events, and
      whether it closed the stream. */
  function CallsOf(events: seq<LineEvent>): (seq<Call>, bool)
    decreases |events|
  {
    if events == [] then ([], false)
    else match events[0]
      case Skip => CallsOf(events[1..])
      case Done => ([Close], true)
      case Text(text) =>
        var rest := CallsOf(events[1..]);
        ([Enqueue(text)] + rest.0, rest.1)
  }

  /** The calls for the lines of one chunk. */
  function ChunkCalls(lines: seq<string>, extract: string -> Option<string>): (seq<Call>, bool)
  {
    CallsOf(Events(lines, extract))
  }

  lemma {:induction false} CallsOfShape(events: seq<LineEvent>)
    requires forall i :: 0 <= i < |events| && events[i].Text? ==> events[i].text != ""
    ensures var r := CallsOf(events);
      (forall i :: 0 <= i < |r.0| - 1 ==> r.0[i].Enqueue?)
      && (r.1 <==> |r.0| > 0 && r.0[|r.0| - 1] == Close)
      && (!r.1 ==> forall i :: 0 <= i < |r.0| ==> r.0[i].Enqueue?)
      && (forall i :: 0 <= i < |r.0| && r.0[i].Enqueue? ==> r.0[i].text != "")
    decreases |events|
  {
    if events != [] {
      CallsOfShape(events[1..]);
    }
  }

  /** Only non-empty text comes before the end, and a chunk closes the
      stream exactly when its last call is a close. */
  lemma ChunkCallsShape(lines: seq<string>, extract: string -> Option<string>)
    ensures var r := ChunkCalls(lines, extract);
      (forall i :: 0 <= i < |r.0| - 1 ==> r.0[i].Enqueue?)
      && (r.1 <==> |r.0| > 0 && r.0[|r.0| - 1] == Close)
      && (!r.1 ==> forall i :: 0 <= i < |r.0| ==> r.0[i].Enqueue?)
      && (forall i :: 0 <= i < |r.0| && r.0[i].Enqueue? ==> r.0[i].text != "")
  {
    EventsText(lines, extract);
    CallsOfShape(Events(lines, extract));
  }

  /** Events are handled in order, and nothing after a "[DONE]" counts. */
  lemma {:induction false} CallsOfAppend(a: seq<LineEvent>, b: seq<LineEvent>)
    ensures CallsOf(a + b)
      == if CallsOf(a).1 then CallsOf(a) else (CallsOf(a).0 + CallsOf(b).0, CallsOf(b).1)
    decreases |a|
  {
    if a == [] {
      assert a + b == b;
      assert [] + CallsOf(b).0 == CallsOf(b).0;
    } else {
      assert (a + b)[0] == a[0];
      assert (a + b)[1..] == a[1..] + b;
      CallsOfAppend(a[1..], b);
      match a[0]
      case Skip =>
      case Done =>
      case Text(text) =>
        var rest := CallsOf(a[1..]);
        if !rest.1 {
          AppendAssoc([Enqueue(text)], rest.0, CallsOf(b).0);
        }
    }
  }

  /** The lines of a chunk are handled in order, and nothing after a
      "[DONE]" counts. */
  lemma ChunkCallsAppend(a: seq<string>, b: seq<string>, extract: string -> Option<string>)
    ensures ChunkCalls(a + b, extract)
      == if ChunkCalls(a, extract).1 then ChunkCalls(a, extract)
         else (ChunkCalls(a, extract).0 + ChunkCalls(b, extract).0, ChunkCalls(b, extract).1)
  {
    EventsAppend(a, b, extract);
    CallsOfAppend(Events(a, extract), Events(b, extract));
  }

  /** A line that is not an event line, or whose payload does not parse or
      carries no or empty content, is dropped without closing the
      stream. */
  lemma SkippedLineDropped(a: seq<string>, line: string, b: seq<string>, extract: string -> Option<string>)
    requires EventOf(line, extract) == Skip
    ensures ChunkCalls(a + [line] + b, extract) == ChunkCalls(a + b, extract)
  {
    var ea, eb := Events(a, extract), Events(b, extract);
    EventsSplit(a, line, b, extract);
    EventsAppend(a, b, extract);
    CallsOfAppend(ea, [Skip] + eb);
    CallsOfAppend(ea, eb);
    assert ([Skip] + eb)[0] == Skip && ([Skip] + eb)[1..] == eb;
  }

  /** "[DONE]" closes the stream and the rest of the chunk is dropped. */
  lemma DoneDropsRest(a: seq<string>, line: string, b: seq<string>, extract: string -> Option<string>)
    requires EventOf(line, extract) == Done
    ensures ChunkCalls(a + [line] + b, extract)
      == if ChunkCalls(a, extract).1 then ChunkCalls(a, extract) else (ChunkCalls(a, extract).0 + [Close], true)
  {
    var ea, eb := Events(a, extract), Events(b, extract);
    EventsSplit(a, line, b, extract);
    CallsOfAppend(ea, [Done] + eb);
    assert ([Done] + eb)[0] == Done;
  }

  /** The events around one line. */
  lemma EventsSplit(a: seq<string>, line: string, b: seq<string>, extract: string -> Option<string>)
    ensures Events(a + [line] + b, extract) == Events(a, extract) + ([EventOf(line, extract)] + Events(b, extract))
  {
    EventsAppend(a + [line], b, extract);
    EventsAppend(a, [line], extract);
    assert Events([line], extract) == [EventOf(line, extract)];
  }

  lemma AppendAssoc(a: seq<Call>, b: seq<Call>, c: seq<Call>)
    ensures a + (b + c) == (a + b) + c
  {
  }

  class StreamRelay {
    var isClosed: bool
    /** The calls made on the controller so far. */
    var calls: seq<Call>

    /** Only text is enqueued before the end, the stream ends at most once,
        and `isClosed` says whether it has ended. */
    ghost predicate Valid()
      reads this
    {
      (forall i :: 0 <= i < |calls| - 1 ==> calls[i].Enqueue?)
      && (isClosed <==> |calls| > 0 && !calls[|calls| - 1].Enqueue?)
    }

    /** Line 61. */
    constructor()
      ensures isClosed == false && calls == []
      ensures Valid()
    {
      isClosed := false;
      calls := [];
    }

    /** Lines 71-89, one line of a chunk while the stream is open; `stop`
        is the `return` of line 78. */
    method OnLine(line: string, extract: string -> Option<string>) returns (stop: bool)
      requires !isClosed
      modifies this
      ensures stop == isClosed && stop == (EventOf(line, extract) == Done)
      ensures calls == match EventOf(line, extract)
        case Skip => old(calls)
        case Done => old(calls) + [Close]
        case Text(text) => old(calls) + [Enqueue(text)]
    {
      stop := false;
      if !StartsWith(line, "data:") {
        return;
      }
      var payload := Payload(line);
      if payload == "[DONE]" {
        isClosed := true;
        calls := calls + [Close];
        stop := true;
        return;
      }
      var text := extract(payload);
      if text.Some? && text.value != "" && !isClosed {
        calls := calls + [Enqueue(text.value)];
      }
    }

    /** Lines 65-91: a chunk of the upstream body, split into lines that are
        never joined with the lines of another chunk. */
    method OnData(chunk: string, extract: string -> Option<string>)
      requires Valid()
      modifies this
      ensures Valid()
      ensures old(isClosed) ==> isClosed && calls == old(calls)
      ensures !old(isClosed) ==>
        calls == old(calls) + ChunkCalls(Split(chunk, '\n'), extract).0
        && isClosed == ChunkCalls(Split(chunk, '\n'), extract).1
    {
      if isClosed {
        return;
      }
      var lines := Split(chunk, '\n');
      OnLines(lines, extract);
      ChunkCallsShape(lines, extract);
    }

    /** Lines 70-90: the loop over the lines of a chunk while the stream is
        open. */
    method OnLines(lines: seq<string>, extract: string -> Option<string>)
      requires !isClosed
      modifies this
      ensures calls == old(calls) + ChunkCalls(lines, extract).0
      ensures isClosed == ChunkCalls(lines, extract).1
    {
      ghost var events := Events(lines, extract);
      var i := 0;
      while i < |lines|
        invariant 0 <= i <= |lines|
        invariant !isClosed
        invariant calls + CallsOf(events[i..]).0 == old(calls) + CallsOf(events).0
        invariant CallsOf(events[i..]).1 == CallsOf(events).1
      {
        assert events[i..][0] == events[i] && events[i..][1..] == events[i + 1..];
        ghost var rest := CallsOf(events[i + 1..]);
        ghost var before := calls;
        var stop := OnLine(lines[i], extract);
        if stop {
          return;
        }
        if events[i].Text? {
          AppendAssoc(before, [Enqueue(events[i].text)], rest.0);
        }
        i := i + 1;
      }
      assert events[i..] == [];
    }

    /** Lines 93-98. */
    method OnEnd()
      requires Valid()
      modifies this
      ensures Valid() && isClosed
      ensures calls == if old(isClosed) then old(calls) else old(calls) + [Close]
    {
      if !isClosed {
        isClosed := true;
        calls := calls + [Close];
      }
    }

    /** Lines 100-105. */
    method OnError(reason: string)
      requires Valid()
      modifies this
      ensures Valid() && isClosed
      ensures calls == if old(isClosed) then old(calls) else old(calls) + [Error(reason)]
    {
      if !isClosed {
        isClosed := true;
        calls := calls + [Error(reason)];
      }
    }
  }

  /** Lines are not buffered across chunks: a "[DONE]" event split over two
      chunks is not seen, and the stream stays open. */
  method SplitDoneIsMissed(extract: string -> Option<string>) returns (closed: bool, sent: seq<Call>)
    ensures !closed && sent == []
  {
    var relay := new StreamRelay();
    SplitWithoutSep("dat", '\n');
    assert EventOf("dat", extract) == Skip;
    relay.OnData("dat", extract);
    assert Events(["dat"], extract) == [Skip];
    assert CallsOf([Skip]) == ([], false) by {
      assert [Skip][1..] == [];
    }
    var second := "a: [DONE]";
    SplitWithoutSep(second, '\n');
    assert EventOf(second, extract) == Skip by {
      assert second[0] != "data:"[0];
    }
    relay.OnData(second, extract);
    assert Events([second], extract) == [Skip];
    closed, sent := relay.isClosed, relay.calls;
  }
}
