/** Whole runs of a Wuff handle: any sequence of seeks, format changes and reads of any sizes, with callbacks that may
    fail at any point. */
module WuffRuns {
  import opened Bytes
  import opened Options
  import opened WuffSlices
  import opened WuffConvert
  import opened WuffPlan
  import opened WuffReader

  datatype Command = Seek(target: nat) | ChangeFormat(code: nat) | Read(size: nat)

  /** The output format and the position in output bytes, unknown from a failed callback up to the next move. */
  datatype View = View(output: Format, at: Option<nat>)

  /** What a client sees: a new view, bytes, a format there is none of, or the failure of a callback. */
  datatype Event = Moved(to: View) | Delivered(bytes: seq<byte>) | Refused | Failed

  /** What the file stands for: its one-shot conversion to each format, and how far a seek may go. */
  datatype Song = Song(track: Format -> seq<byte>, channels: nat, length: nat)

  /** Output bytes of one sample of every channel. */
  function BlockOf(song: Song, output: Format): (n: nat)
    ensures song.channels > 0 ==> n > 0
  {
    Span(song.channels, output.Size())
  }

  function Clamped(song: Song, target: nat): nat {
    if target <= song.length then target else song.length
  }

  /** Where a move may land: a seek at the clamped position, a format change at the start of the block it is in, or of
      some block when that is unknown. */
  ghost predicate Lands(song: Song, view: View, command: Command, to: View)
    requires song.channels > 0
  {
    match command
    case Seek(target) => to == View(view.output, Some(Span(Clamped(song, target), BlockOf(song, view.output))))
    case ChangeFormat(code) =>
      code < 6 && exists n :: 0 <= n <= song.length && StartsBlock(song, view, FormatOf(code), n, to)
    case Read(_) => false
  }

  predicate StartsBlock(song: Song, view: View, output: Format, n: nat, to: View)
    requires song.channels > 0
  {
    && to == View(output, Some(Span(n, BlockOf(song, output))))
    && (view.at.Some? ==> n == view.at.value / BlockOf(song, view.output))
  }

  function After(view: View, e: Event): View {
    match e
    case Moved(to) => to
    case Delivered(bytes) => if view.at == None then view else view.(at := Some(view.at.value + |bytes|))
    case Refused => view
    case Failed => view.(at := None)
  }

  function AfterAll(view: View, events: seq<Event>): View {
    if events == [] then view else After(AfterAll(view, events[..|events| - 1]), events[|events| - 1])
  }

  /** `bytes` are those of `s` from `at` on. */
  ghost predicate StretchOf(s: seq<byte>, at: nat, bytes: seq<byte>) {
    bytes != [] ==> at + |bytes| <= |s| && bytes == s[at..at + |bytes|]
  }

  /** As many bytes as some number of buffered samples yields, no more of them than were asked for. */
  ghost predicate Yielded(output: Format, size: nat, at: nat, n: nat) {
    var phase := at % output.Size();
    size > 0 ==>
      exists granted :: 0 <= granted <= Ask(size, output.Size(), phase).samples &&
        n == Yield(output.Size(), size, phase, granted)
  }

  /** A read delivers the next bytes of the one-shot conversion, no more than asked for; a move lands where it should.
      */
  ghost predicate Explains(song: Song, view: View, command: Command, e: Event)
    requires song.channels > 0
  {
    match e
    case Moved(to) => Lands(song, view, command, to)
    case Delivered(bytes) =>
      && command.Read? && |bytes| <= command.size
      && (view.at.Some? ==>
           && StretchOf(song.track(view.output), view.at.value, bytes)
           && Yielded(view.output, command.size, view.at.value, |bytes|))
    case Refused => command.ChangeFormat? && command.code >= 6
    case Failed => true
  }

  ghost predicate ExplainsAll(song: Song, view: View, script: seq<Command>, events: seq<Event>)
    requires song.channels > 0
  {
    && |events| <= |script|
    && (events != [] ==>
      && ExplainsAll(song, view, script, events[..|events| - 1])
      && Explains(song, AfterAll(view, events[..|events| - 1]), script[|events| - 1], events[|events| - 1]))
  }

  function Concatenated(events: seq<Event>): seq<byte> {
    if events == [] then [] else
      var last := events[|events| - 1];
      Concatenated(events[..|events| - 1]) + (if last.Delivered? then last.bytes else [])
  }

  function Failures(events: seq<Event>): nat {
    if events == [] then 0 else Failures(events[..|events| - 1]) + (if events[|events| - 1].Failed? then 1 else 0)
  }

  /** Between two moves the delivered pieces join up to one stretch of the one-shot conversion, however they were
      cut. */
  lemma {:induction false} PiecesJoin(song: Song, view: View, script: seq<Command>, events: seq<Event>)
    requires song.channels > 0 && view.at.Some? && ExplainsAll(song, view, script, events)
    requires forall k :: 0 <= k < |events| ==> events[k].Delivered?
    ensures AfterAll(view, events) == view.(at := Some(view.at.value + |Concatenated(events)|))
    ensures StretchOf(song.track(view.output), view.at.value, Concatenated(events))
  {
    if events == [] {
      NoStretch(song.track(view.output), view.at.value);
    } else {
      var front, last := events[..|events| - 1], events[|events| - 1];
      LastPiece(song, view, script, events);
      hide StretchOf, Explains, After, ExplainsAll, AfterAll, Concatenated;
      PiecesJoin(song, view, script, front);
      OnePiece(song, AfterAll(view, front), script[|events| - 1], last);
      StretchesJoin(song.track(view.output), view.at.value, Concatenated(front), last.bytes);
    }
  }

  lemma LastPiece(song: Song, view: View, script: seq<Command>, events: seq<Event>)
    requires song.channels > 0 && ExplainsAll(song, view, script, events) && events != []
    requires events[|events| - 1].Delivered?
    ensures var front, last := events[..|events| - 1], events[|events| - 1];
      && |events| <= |script| && ExplainsAll(song, view, script, front)
      && Explains(song, AfterAll(view, front), script[|events| - 1], last)
      && AfterAll(view, events) == After(AfterAll(view, front), last)
      && Concatenated(events) == Concatenated(front) + last.bytes
  {
    hide Explains, After;
  }

  lemma OnePiece(song: Song, view: View, command: Command, e: Event)
    requires song.channels > 0 && view.at.Some? && Explains(song, view, command, e) && e.Delivered?
    ensures After(view, e) == view.(at := Some(view.at.value + |e.bytes|))
    ensures StretchOf(song.track(view.output), view.at.value, e.bytes)
  {
  }

  lemma NoStretch(s: seq<byte>, at: nat)
    ensures StretchOf(s, at, [])
  {
  }

  lemma StretchesJoin(s: seq<byte>, at: nat, a: seq<byte>, b: seq<byte>)
    requires StretchOf(s, at, a) && StretchOf(s, at + |a|, b)
    ensures StretchOf(s, at, a + b)
  {
    if b != [] {
      JoinSlices(s, at, at + |a|, at + |a| + |b|);
    }
  }

  lemma {:induction false} ExplainsFront(song: Song, view: View, script: seq<Command>, events: seq<Event>, j: nat)
    requires song.channels > 0 && ExplainsAll(song, view, script, events) && j <= |events|
    ensures ExplainsAll(song, view, script, events[..j])
  {
    if j == |events| {
      assert events[..j] == events;
    } else {
      ExplainsFront(song, view, script, events[..|events| - 1], j);
      assert events[..|events| - 1][..j] == events[..j];
    }
  }

  /** The rest of an explained run is an explained run from where its front has led. */
  lemma {:induction false} ExplainsRest(song: Song, view: View, script: seq<Command>, events: seq<Event>, i: nat)
    requires song.channels > 0 && ExplainsAll(song, view, script, events) && i <= |events|
    ensures ExplainsAll(song, AfterAll(view, events[..i]), script[i..], events[i..])
    ensures AfterAll(AfterAll(view, events[..i]), events[i..]) == AfterAll(view, events)
  {
    hide Explains;
    if i == |events| {
      assert events[..i] == events && events[i..] == [];
    } else {
      var front := events[..|events| - 1];
      ExplainsRest(song, view, script, front, i);
      assert front[..i] == events[..i] && front[i..] == events[i..][..|events| - i - 1];
    }
  }

  /** A seek that succeeds, anywhere in a run and whatever has failed before it, and the bytes delivered behind it: they
      are the stretch of the one-shot conversion that starts at the clamped position. */
  lemma SeekThenReads(song: Song, view: View, script: seq<Command>, events: seq<Event>, i: nat, j: nat)
    requires song.channels > 0 && ExplainsAll(song, view, script, events)
    requires i < j <= |events| && script[i].Seek? && events[i].Moved? && forall k :: i < k < j ==> events[k].Delivered?
    ensures var output := AfterAll(view, events[..i]).output;
      StretchOf(song.track(output), Span(Clamped(song, script[i].target), BlockOf(song, output)),
                Concatenated(events[i + 1..j]))
  {
    hide Concatenated, Explains, StretchOf, AfterAll, ExplainsAll;
    var all := events[..j];
    var rest := all[i..];
    ExplainsFront(song, view, script, events, j);
    ExplainsRest(song, view, script, all, i);
    assert all[..i] == events[..i] && rest[1..] == events[i + 1..j];
    forall k | 1 <= k < |rest| ensures rest[k].Delivered? {
      assert rest[k] == events[i + k];
    }
    SeekFirst(song, AfterAll(view, events[..i]), script[i..], rest);
  }

  lemma SeekFirst(song: Song, view: View, script: seq<Command>, events: seq<Event>)
    requires song.channels > 0 && ExplainsAll(song, view, script, events) && events != []
    requires script[0].Seek? && events[0].Moved? && forall k :: 1 <= k < |events| ==> events[k].Delivered?
    ensures StretchOf(song.track(view.output), Span(Clamped(song, script[0].target), BlockOf(song, view.output)),
                      Concatenated(events[1..]))
  {
    hide Concatenated, Yielded, StretchOf;
    ExplainsFront(song, view, script, events, 1);
    ExplainsRest(song, view, script, events, 1);
    assert events[..1][..0] == [] && events[..1][0] == events[0];
    PiecesJoin(song, AfterAll(view, events[..1]), script[1..], events[1..]);
  }

  ghost function SongOf(h: Handle): Song
    requires h.dataOffset <= |h.source.file|
  {
    Song(f => Stream(RuleFor(h.floats, h.format, f), h.Data()), h.channels, h.length)
  }

  /** The handle is where the view says, as far as that knows. */
  ghost predicate Follows(h: Handle, view: View)
    reads h, h.source, h.buffer
  {
    h.Loose() && h.output == view.output && (view.at.Some? ==> h.Valid() && h.Emitted() == view.at.value)
  }

  /** One command. */
  method PlayOne(h: Handle, ghost view: View, command: Command) returns (event: Event)
    requires Follows(h, view)
    modifies h, h.source, h.buffer
    ensures h.source.failures == old(h.source.failures) + (if event.Failed? then 1 else 0)
    ensures Explains(SongOf(h), view, command, event) && Follows(h, After(view, event))
  {
    match command {
      case Seek(target) => event := PlaySeek(h, view, target);
      case ChangeFormat(code) => event := PlayFormat(h, view, code);
      case Read(size) => event := PlayRead(h, view, size);
    }
  }

  method PlaySeek(h: Handle, ghost view: View, target: nat) returns (event: Event)
    requires Follows(h, view)
    modifies h, h.source, h.buffer
    ensures h.source.failures == old(h.source.failures) + (if event.Failed? then 1 else 0)
    ensures event.Moved? || event.Failed?
    ensures Explains(SongOf(h), view, Seek(target), event) && Follows(h, After(view, event))
  {
    hide Span, Stream;
    var status := h.SeekTo(target);
    event := if status == Success then Moved(View(h.output, Some(Span(h.position, h.outBlock)))) else Failed;
  }

  method PlayFormat(h: Handle, ghost view: View, code: nat) returns (event: Event)
    requires Follows(h, view)
    modifies h, h.source, h.buffer
    ensures h.source.failures == old(h.source.failures) + (if event.Failed? then 1 else 0)
    ensures !event.Delivered?
    ensures Explains(SongOf(h), view, ChangeFormat(code), event) && Follows(h, After(view, event))
  {
    hide Span, Stream;
    if view.at.Some? {
      h.PositionInStream();
      BlockAt(h.position, h.outBlock, h.blockOffset);
    }
    var status := h.SetFormat(code);
    match status {
      case Success =>
        event := Moved(View(h.output, Some(Span(h.position, h.outBlock))));
        assert StartsBlock(SongOf(h), view, FormatOf(code), h.position, event.to);
      case FormatUnsupported => event := Refused;
      case _ => event := Failed;
    }
  }

  lemma BlockAt(n: nat, block: nat, rest: nat)
    requires rest < block
    ensures (Span(n, block) + rest) / block == n
  {
    SpanIsProduct(n, block);
    DivModUnique(n, block, rest);
  }

  lemma PhaseAt(n: nat, size: nat, rest: nat)
    requires rest < size
    ensures (Span(n, size) + rest) % size == rest
  {
    SpanIsProduct(n, size);
    DivModUnique(n, size, rest);
  }

  method PlayRead(h: Handle, ghost view: View, size: nat) returns (event: Event)
    requires Follows(h, view)
    modifies h, h.source, h.buffer
    ensures h.source.failures == old(h.source.failures) + (if event.Failed? then 1 else 0)
    ensures event.Delivered? || event.Failed?
    ensures Explains(SongOf(h), view, Read(size), event) && Follows(h, After(view, event))
    ensures event == Delivered([]) && size > 0 && !h.source.shortReads ==> h.Exhausted() && h.end - h.offset < h.inBytes
  {
    hide Span, Stream;
    if view.at.Some? {
      PhaseAt(h.consumed, h.outBytes, h.phase);
    }
    var out := new byte[size];
    var status, got, granted := h.Read(out, size);
    if status != Success {
      return Failed;
    }
    event := Delivered(out[..got]);
  }

  /** Plays a script to its end, whatever callbacks fail on the way. The log is explained by the file alone. */
  method Play(h: Handle, ghost view: View, script: seq<Command>) returns (events: seq<Event>)
    requires Follows(h, view)
    modifies h, h.source, h.buffer
    ensures |events| == |script| && h.source.failures == old(h.source.failures) + Failures(events)
    ensures ExplainsAll(SongOf(h), view, script, events) && Follows(h, AfterAll(view, events))
  {
    hide Explains, After, Follows;
    events := [];
    assert h.Loose() by {
      LooseFollows(h, view);
    }
    for i := 0 to |script|
      invariant |events| == i && h.source.failures == old(h.source.failures) + Failures(events)
      invariant h.Loose() && ExplainsAll(SongOf(h), view, script, events) && Follows(h, AfterAll(view, events))
    {
      var event := PlayOne(h, AfterAll(view, events), script[i]);
      assert (events + [event])[..|events|] == events;
      events := events + [event];
      LooseFollows(h, AfterAll(view, events));
    }
  }

  lemma LooseFollows(h: Handle, view: View)
    requires Follows(h, view)
    ensures h.Loose()
  {
  }

  /** Reads of one size until one answers nothing: from a source that does not cut its answers short these are all the
      bytes of the one-shot conversion that are left. */
  method Drain(h: Handle, size: nat) returns (completed: bool, bytes: seq<byte>)
    requires h.Valid() && size > 0
    requires h.Emitted() <= |SongOf(h).track(h.output)|
    modifies h, h.source, h.buffer
    ensures h.source.failures == old(h.source.failures) + (if completed then 0 else 1)
    ensures completed ==> StretchOf(SongOf(h).track(old(h.output)), old(h.Emitted()), bytes)
    ensures completed && !h.source.shortReads ==> bytes == SongOf(h).track(old(h.output))[old(h.Emitted())..]
  {
    hide Span, Stream, Yielded;
    bytes := [];
    ghost var track := SongOf(h).track(h.output);
    while true
      invariant h.Valid() && h.output == old(h.output) && h.source.failures == old(h.source.failures)
      invariant h.Emitted() == old(h.Emitted()) + |bytes| <= |track|
      invariant StretchOf(track, old(h.Emitted()), bytes)
      decreases |track| - h.Emitted()
    {
      var event := PlayRead(h, View(h.output, Some(h.Emitted())), size);
      if event == Failed {
        return false, bytes;
      }
      if event.bytes == [] {
        if !h.source.shortReads {
          h.DrainedIsWhole();
        }
        return true, bytes;
      }
      StretchesJoin(track, old(h.Emitted()), bytes, event.bytes);
      bytes := bytes + event.bytes;
    }
  }
}
