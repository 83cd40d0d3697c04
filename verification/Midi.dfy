/** The MIDI decoder's block loop: messages are dispatched to the synthesizer between rendered blocks. */
module Midi {
  import opened Frames
  import opened Truncation

  const FRAME_BLOCK: nat := 64
  const DRUMS: nat := 9

  datatype Kind = NoteOff | NoteOn | KeyPressure | ControlChange | ProgramChange | ChannelPressure | PitchBend | Other

  /** A message of the list, with the fields that the dispatch reads. */
  datatype Message = Message(kind: Kind, time: nat, channel: nat, key: nat, velocity: nat,
                             control: nat, controlValue: nat, program: nat, pitchBend: nat)

  /** A call to the synthesizer. */
  datatype Command =
    | StopNote(channel: nat, key: nat)
    | StartNote(channel: nat, key: nat, velocity: real)
    | Control(channel: nat, control: nat, value: nat)
    | Preset(channel: nat, program: nat, drums: bool)
    | PitchWheel(channel: nat, bend: nat)
    | Render(output: nat, frames: nat)

  /** The clock of one decode: milliseconds at a frame of the stream. */
  datatype Clock = Clock(frameIndex: nat, sampleRate: real)
  {
    ghost predicate Valid() {
      sampleRate > 0.0
    }

    function Increment(): (ms: real)
      requires Valid()
      ensures ms > 0.0
    {
      1000.0 / sampleRate
    }

    /** The time at which frame `n` of the call starts. */
    function Time(n: nat): real
      requires Valid()
    {
      (frameIndex + n) as real * Increment()
    }

    lemma Advance(n: nat, block: nat)
      requires Valid()
      ensures Time(n) + block as real * Increment() == Time(n + block)
      ensures Time(n) <= Time(n + block)
      ensures block > 0 ==> Time(n) < Time(n + block)
    {
      assert (frameIndex + n + block) as real == (frameIndex + n) as real + block as real;
      Distribute((frameIndex + n) as real, block as real, Increment());
    }
  }

  lemma Distribute(a: real, b: real, c: real)
    requires c > 0.0 && b >= 0.0
    ensures (a + b) * c == a * c + b * c && b * c >= 0.0 && (b > 0.0 ==> b * c > 0.0)
  {
  }

  ghost predicate Sorted(messages: seq<Message>) {
    forall i, j :: 0 <= i < j < |messages| ==> messages[i].time <= messages[j].time
  }

  /** How far the list is played when it is played from `from` on up to time `t`. */
  function Due(messages: seq<Message>, from: nat, t: real): (to: nat)
    requires from <= |messages|
    ensures from <= to <= |messages|
    ensures forall k :: from <= k < to ==> messages[k].time as real <= t
    ensures to < |messages| ==> messages[to].time as real > t
    decreases |messages| - from
  {
    if from < |messages| && t >= messages[from].time as real then Due(messages, from + 1, t) else from
  }

  /** `frames` frames are rendered at `start`, after the messages `[from, to)`. */
  datatype Block = Block(start: nat, frames: nat, from: nat, to: nat)

  /** The blocks that remain after `done` frames and `from` messages. */
  function Plan(messages: seq<Message>, clock: Clock, done: nat, left: nat, from: nat): seq<Block>
    requires clock.Valid() && from <= |messages|
    decreases left
  {
    if left == 0 then [] else
      var n := Min(FRAME_BLOCK, left);
      var to := Due(messages, from, clock.Time(done + n));
      [Block(done, n, from, to)] + Plan(messages, clock, done + n, left - n, to)
  }

  /** The dispatch; channel pressure falls through to the pitch wheel, key pressure does nothing. */
  function Dispatch(m: Message): seq<Command> {
    match m.kind
    case NoteOff => [StopNote(m.channel, m.key)]
    case NoteOn => [StartNote(m.channel, m.key, m.velocity as real / 127.0)]
    case ControlChange => [Control(m.channel, m.control, m.controlValue)]
    case ProgramChange => [Preset(m.channel, m.program, m.channel == DRUMS)]
    case ChannelPressure => [PitchWheel(m.channel, m.pitchBend)]
    case PitchBend => [PitchWheel(m.channel, m.pitchBend)]
    case KeyPressure => []
    case Other => []
  }

  function Dispatched(messages: seq<Message>, from: nat, to: nat): seq<Command>
    requires from <= to <= |messages|
  {
    if from == to then [] else Dispatched(messages, from, to - 1) + Dispatch(messages[to - 1])
  }

  /** The calls that a plan makes. */
  function Calls(messages: seq<Message>, plan: seq<Block>, channels: nat): seq<Command>
    requires forall b :: b in plan ==> b.from <= b.to <= |messages|
  {
    if |plan| == 0 then [] else
      Dispatched(messages, plan[0].from, plan[0].to) + [Render(plan[0].start * channels, plan[0].frames)]
      + Calls(messages, plan[1..], channels)
  }

  lemma {:induction false} PlanRanges(messages: seq<Message>, clock: Clock, done: nat, left: nat, from: nat)
    requires clock.Valid() && from <= |messages|
    ensures forall b :: b in Plan(messages, clock, done, left, from) ==> b.from <= b.to <= |messages|
    decreases left
  {
    if left > 0 {
      var n := Min(FRAME_BLOCK, left);
      PlanRanges(messages, clock, done + n, left - n, Due(messages, from, clock.Time(done + n)));
    }
  }

  lemma PlayOnward(messages: seq<Message>, clock: Clock, from: nat, frame: nat, later: nat)
    requires clock.Valid() && from <= |messages| && frame <= later
    ensures Due(messages, Due(messages, from, clock.Time(frame)), clock.Time(later)) == Due(messages, from, clock.Time(later))
  {
    hide Due, Clock.Time;
    clock.Advance(frame, later - frame);
    DueOnward(messages, from, clock.Time(frame), clock.Time(later));
  }

  lemma PlanStep(messages: seq<Message>, clock: Clock, done: nat, left: nat, from: nat) returns (n: nat, to: nat)
    requires clock.Valid() && from <= |messages| && left > 0
    ensures 0 < n == Min(FRAME_BLOCK, left) && to <= |messages| && to == Due(messages, from, clock.Time(done + n))
    ensures Plan(messages, clock, done, left, from)
         == [Block(done, n, from, to)] + Plan(messages, clock, done + n, left - n, to)
  {
    n := Min(FRAME_BLOCK, left);
    to := Due(messages, from, clock.Time(done + n));
  }

  lemma {:induction false} PlanLength(messages: seq<Message>, clock: Clock, done: nat, left: nat, from: nat)
    requires clock.Valid() && from <= |messages|
    ensures |Plan(messages, clock, done, left, from)| == (left + FRAME_BLOCK - 1) / FRAME_BLOCK
    decreases left
  {
    if left > 0 {
      hide Plan, Due, Clock.Time;
      var n, to := PlanStep(messages, clock, done, left, from);
      PlanLength(messages, clock, done + n, left - n, to);
    }
  }

  /** The blocks cut the request into pieces of 64 frames, the last of at most 64. */
  lemma {:induction false} PlanBlocks(messages: seq<Message>, clock: Clock, done: nat, left: nat, from: nat, b: nat)
    requires clock.Valid() && from <= |messages|
    ensures |Plan(messages, clock, done, left, from)| == (left + FRAME_BLOCK - 1) / FRAME_BLOCK
    ensures b < |Plan(messages, clock, done, left, from)| ==>
              var p := Plan(messages, clock, done, left, from)[b];
              p.start == done + FRAME_BLOCK * b && p.frames == Min(FRAME_BLOCK, left - FRAME_BLOCK * b) > 0
    decreases left
  {
    PlanLength(messages, clock, done, left, from);
    if left > 0 {
      hide Plan, Due, Clock.Time;
      var n, to := PlanStep(messages, clock, done, left, from);
      if b > 0 {
        PlanBlocks(messages, clock, done + n, left - n, to, b - 1);
      }
    }
  }

  /** Playing on to a later time reaches as far as playing to it at once. */
  lemma {:induction false} DueOnward(messages: seq<Message>, from: nat, t: real, later: real)
    requires from <= |messages| && t <= later
    ensures Due(messages, Due(messages, from, t), later) == Due(messages, from, later)
    decreases |messages| - from
  {
    if from < |messages| && t >= messages[from].time as real {
      DueOnward(messages, from + 1, t, later);
    }
  }

  /** Each block plays the messages on from the block before it. */
  lemma {:induction false} PlanChains(messages: seq<Message>, clock: Clock, done: nat, left: nat, from: nat, b: nat)
    requires clock.Valid() && from <= |messages|
    requires b < |Plan(messages, clock, done, left, from)|
    ensures var plan := Plan(messages, clock, done, left, from);
            plan[b].from == if b == 0 then from else plan[b - 1].to
    decreases left
  {
    assert left > 0;
    hide Plan, Due, Clock.Time;
    var n, to := PlanStep(messages, clock, done, left, from);
    if b > 0 {
      PlanChains(messages, clock, done + n, left - n, to, b - 1);
    }
  }

  /** Each block plays every message up to the first that is due after its end. */
  lemma {:induction false} PlanReaches(messages: seq<Message>, clock: Clock, done: nat, left: nat, from: nat, b: nat)
    requires clock.Valid() && from <= |messages|
    requires b < |Plan(messages, clock, done, left, from)|
    ensures var p := Plan(messages, clock, done, left, from)[b];
            p.start + p.frames >= done && p.to == Due(messages, from, clock.Time(p.start + p.frames))
    decreases left
  {
    assert left > 0;
    hide *;
    var n, to := PlanStep(messages, clock, done, left, from);
    if b > 0 {
      PlanReaches(messages, clock, done + n, left - n, to, b - 1);
      var p := Plan(messages, clock, done + n, left - n, to)[b - 1];
      assert Plan(messages, clock, done, left, from)[b] == p;
      PlayOnward(messages, clock, from, done + n, p.start + p.frames);
    }
  }

  /** In a sorted list, the messages played by a time are those due by it. */
  lemma DueWhenSorted(messages: seq<Message>, t: real, k: nat)
    requires Sorted(messages) && k < |messages|
    ensures k < Due(messages, 0, t) <==> messages[k].time as real <= t
  {
    hide Due;
    var to := Due(messages, 0, t);
    if to < k {
      assert messages[to].time <= messages[k].time;
    }
  }

  /** The plan of a whole call. */
  function Whole(messages: seq<Message>, clock: Clock, frames: nat): seq<Block>
    requires clock.Valid()
  {
    Plan(messages, clock, 0, frames, 0)
  }

  /** The time at which a block ends. */
  function End(clock: Clock, b: Block): real
    requires clock.Valid()
  {
    clock.Time(b.start + b.frames)
  }

  /**
   * A message is dispatched before block b if and only if b is the first block whose end
   * reaches it: never late, and less than a block early unless it was already overdue.
   */
  lemma MessageInBlock(messages: seq<Message>, clock: Clock, frames: nat, b: nat, k: nat)
    requires clock.Valid() && Sorted(messages) && k < |messages| && b < |Whole(messages, clock, frames)|
    ensures var plan := Whole(messages, clock, frames);
            plan[b].from <= k < plan[b].to <==>
              messages[k].time as real <= End(clock, plan[b]) && (b > 0 ==> End(clock, plan[b - 1]) < messages[k].time as real)
  {
    hide Plan, Due, Clock.Time;
    var plan := Whole(messages, clock, frames);
    PlanChains(messages, clock, 0, frames, 0, b);
    PlanReaches(messages, clock, 0, frames, 0, b);
    DueWhenSorted(messages, End(clock, plan[b]), k);
    if b > 0 {
      PlanReaches(messages, clock, 0, frames, 0, b - 1);
      DueWhenSorted(messages, End(clock, plan[b - 1]), k);
    }
  }

  /** What a call of `frames` frames plays: everything due by its end if and only if no such message lies behind a later one. */
  lemma AllDuePlayed(messages: seq<Message>, clock: Clock, frames: nat)
    requires clock.Valid() && frames > 0
    ensures var plan := Whole(messages, clock, frames);
            var end := clock.Time(frames);
            |plan| > 0 && plan[0].from == 0 &&
            ((forall k :: 0 <= k < |messages| ==> (k < plan[|plan| - 1].to <==> messages[k].time as real <= end))
             <==> (forall i, j :: 0 <= i < j < |messages| && messages[j].time as real <= end ==> messages[i].time as real <= end))
  {
    hide Plan, Due, Clock.Time;
    var plan := Whole(messages, clock, frames);
    PlanBlocks(messages, clock, 0, frames, 0, 0);
    var last := |plan| - 1;
    PlanBlocks(messages, clock, 0, frames, 0, last);
    PlanReaches(messages, clock, 0, frames, 0, last);
    PlanChains(messages, clock, 0, frames, 0, 0);
    var to := plan[last].to;
    var end := clock.Time(frames);
    assert to == Due(messages, 0, end);
    if forall k :: 0 <= k < |messages| ==> (k < to <==> messages[k].time as real <= end) {
    } else {
      var k :| 0 <= k < |messages| && !(k < to <==> messages[k].time as real <= end);
      assert to < k && messages[k].time as real <= end && messages[to].time as real > end;
    }
  }

  /** The calls that remain after `done` frames and `from` messages. */
  ghost function Remaining(messages: seq<Message>, clock: Clock, channels: nat, done: nat, left: nat, from: nat): seq<Command>
    requires clock.Valid() && from <= |messages|
  {
    PlanRanges(messages, clock, done, left, from);
    Calls(messages, Plan(messages, clock, done, left, from), channels)
  }

  /** One block: the messages due by its end, then the rendering. */
  lemma RemainingStep(messages: seq<Message>, clock: Clock, channels: nat, done: nat, left: nat, from: nat)
    requires clock.Valid() && from <= |messages| && left > 0
    ensures var n := Min(FRAME_BLOCK, left);
            var to := Due(messages, from, clock.Time(done + n));
            var now := Dispatched(messages, from, to) + [Render(done * channels, n)];
            var later := Remaining(messages, clock, channels, done + n, left - n, to);
            Remaining(messages, clock, channels, done, left, from) == now + later
  {
    hide Due, Clock.Time;
    var n, to := PlanStep(messages, clock, done, left, from);
    PlanRanges(messages, clock, done, left, from);
    PlanRanges(messages, clock, done + n, left - n, to);
  }

  lemma StartTime(clock: Clock)
    requires clock.Valid()
    ensures clock.Time(0) == clock.frameIndex as real * clock.Increment()
  {
  }

  lemma NothingRemains(messages: seq<Message>, clock: Clock, channels: nat, done: nat, from: nat)
    requires clock.Valid() && from <= |messages|
    ensures Remaining(messages, clock, channels, done, 0, from) == []
  {
  }

  lemma Regroup(before: seq<Command>, played: seq<Command>, after: seq<Command>)
    ensures before + (played + after) == (before + played) + after
  {
  }

  /** The calls other than renderings. */
  function Notes(calls: seq<Command>): seq<Command> {
    if |calls| == 0 then [] else (if calls[0].Render? then [] else [calls[0]]) + Notes(calls[1..])
  }

  lemma {:induction false} NotesJoin(a: seq<Command>, b: seq<Command>)
    ensures Notes(a + b) == Notes(a) + Notes(b)
  {
    if |a| == 0 {
      assert a + b == b;
    } else {
      var head := if a[0].Render? then [] else [a[0]];
      assert (a + b)[0] == a[0] && (a + b)[1..] == a[1..] + b;
      NotesJoin(a[1..], b);
      assert Notes(a + b) == head + Notes(a[1..] + b) == head + (Notes(a[1..]) + Notes(b));
      assert Notes(a) == head + Notes(a[1..]);
    }
  }

  lemma {:induction false} NotesOfDispatched(messages: seq<Message>, from: nat, to: nat)
    requires from <= to <= |messages|
    ensures Notes(Dispatched(messages, from, to)) == Dispatched(messages, from, to)
  {
    if from < to {
      NotesOfDispatched(messages, from, to - 1);
      NotesOfDispatch(messages[to - 1]);
      hide Notes, Dispatch;
      NotesJoin(Dispatched(messages, from, to - 1), Dispatch(messages[to - 1]));
    } else {
      NotesOfNothing();
    }
  }

  lemma NotesOfDispatch(m: Message)
    ensures Notes(Dispatch(m)) == Dispatch(m)
  {
  }

  lemma {:induction false} DispatchedJoin(messages: seq<Message>, from: nat, mid: nat, to: nat)
    requires from <= mid <= to <= |messages|
    ensures Dispatched(messages, from, mid) + Dispatched(messages, mid, to) == Dispatched(messages, from, to)
  {
    hide Dispatch;
    if mid < to {
      DispatchedJoin(messages, from, mid, to - 1);
    }
  }

  /** Between the renderings of a call each message due by its end is dispatched once, in order, and no other. */
  lemma {:induction false} NotesInOrder(messages: seq<Message>, clock: Clock, channels: nat, done: nat, left: nat, from: nat)
    requires clock.Valid() && from <= |messages| && left > 0
    ensures Notes(Remaining(messages, clock, channels, done, left, from))
         == Dispatched(messages, from, Due(messages, from, clock.Time(done + left)))
    decreases left
  {
    hide Remaining, Due, Dispatched, Dispatch, Clock.Time, Notes;
    var n := Min(FRAME_BLOCK, left);
    var to := Due(messages, from, clock.Time(done + n));
    var now := Dispatched(messages, from, to);
    var render := [Render(done * channels, n)];
    RemainingStep(messages, clock, channels, done, left, from);
    NotesJoin(now + render, Remaining(messages, clock, channels, done + n, left - n, to));
    NotesJoin(now, render);
    NotesOfDispatched(messages, from, to);
    NotesOfRender(done * channels, n);
    if left == n {
      NothingRemains(messages, clock, channels, done + n, to);
      NotesOfNothing();
    } else {
      NotesInOrder(messages, clock, channels, done + n, left - n, to);
      PlayOnward(messages, clock, from, done + n, done + left);
      DispatchedJoin(messages, from, to, Due(messages, from, clock.Time(done + left)));
    }
  }

  lemma NotesOfRender(output: nat, frames: nat)
    ensures Notes([Render(output, frames)]) == []
  {
  }

  lemma NotesOfNothing()
    ensures Notes([]) == []
  {
  }

  /** What the calls have set in a synthesizer, by channel and key, channel and controller, or channel. */
  datatype Synth = Synth(sounding: map<(nat, nat), real>, controls: map<(nat, nat), nat>,
                         presets: map<nat, (nat, bool)>, wheels: map<nat, nat>)
  {
    function Hearing(c: Command): Synth {
      match c
      case StopNote(channel, key) => this.(sounding := sounding - {(channel, key)})
      case StartNote(channel, key, velocity) => this.(sounding := sounding[(channel, key) := velocity])
      case Control(channel, control, value) => this.(controls := controls[(channel, control) := value])
      case Preset(channel, program, drums) => this.(presets := presets[channel := (program, drums)])
      case PitchWheel(channel, bend) => this.(wheels := wheels[channel := bend])
      case Render(_, _) => this
    }

    function After(calls: seq<Command>): Synth {
      if |calls| == 0 then this else After(calls[..|calls| - 1]).Hearing(calls[|calls| - 1])
    }
  }

  lemma {:induction false} AfterJoin(s: Synth, a: seq<Command>, b: seq<Command>)
    ensures s.After(a + b) == s.After(a).After(b)
  {
    hide Synth.Hearing;
    if |b| == 0 {
      assert a + b == a;
    } else {
      AfterJoin(s, a, b[..|b| - 1]);
      assert (a + b)[..|a + b| - 1] == a + b[..|b| - 1];
    }
  }

  /** Rendering sets nothing. */
  lemma {:induction false} AfterNotes(s: Synth, calls: seq<Command>)
    ensures s.After(Notes(calls)) == s.After(calls)
    decreases |calls|
  {
    if |calls| > 0 {
      var head := if calls[0].Render? then [] else [calls[0]];
      AfterNotes(s.After([calls[0]]), calls[1..]);
      AfterJoin(s, [calls[0]], calls[1..]);
      AfterJoin(s, head, Notes(calls[1..]));
      assert calls == [calls[0]] + calls[1..];
    }
  }

  predicate IsNote(m: Message) {
    m.kind == NoteOn || m.kind == NoteOff
  }

  predicate IsBend(m: Message) {
    m.kind == PitchBend || m.kind == ChannelPressure
  }

  /**
   * A key sounds if and only if the last of the first `to` messages that starts or stops it
   * starts it, at that velocity; a key of no such message is as it was.
   */
  ghost predicate KeysFollow(messages: seq<Message>, to: nat, before: Synth, after: Synth)
    requires to <= |messages|
  {
    && (forall k :: 0 <= k < to && IsNote(messages[k]) && LastNote(messages, to, k) ==>
          var at := (messages[k].channel, messages[k].key);
          && (at in after.sounding <==> messages[k].kind == NoteOn)
          && (messages[k].kind == NoteOn ==> after.sounding[at] == messages[k].velocity as real / 127.0))
    && (forall at :: NoNote(messages, to, at) ==>
          && (at in after.sounding <==> at in before.sounding)
          && (at in before.sounding ==> after.sounding[at] == before.sounding[at]))
  }

  /** No message of the first `to` starts or stops the key. */
  ghost predicate NoNote(messages: seq<Message>, to: nat, at: (nat, nat))
    requires to <= |messages|
  {
    forall k :: 0 <= k < to && IsNote(messages[k]) ==> at != (messages[k].channel, messages[k].key)
  }

  /** No message of the first `to` behind the `k`-th starts or stops its key. */
  ghost predicate LastNote(messages: seq<Message>, to: nat, k: nat)
    requires k < to <= |messages|
  {
    forall j :: k < j < to && IsNote(messages[j]) ==>
      (messages[j].channel, messages[j].key) != (messages[k].channel, messages[k].key)
  }

  /** Every controller has the value of the last message for it, or the one it had. */
  ghost predicate ControlsFollow(messages: seq<Message>, to: nat, before: Synth, after: Synth)
    requires to <= |messages|
  {
    && (forall k :: 0 <= k < to && messages[k].kind == ControlChange && LastControl(messages, to, k) ==>
          var at := (messages[k].channel, messages[k].control);
          at in after.controls && after.controls[at] == messages[k].controlValue)
    && (forall at :: (forall k :: 0 <= k < to && messages[k].kind == ControlChange ==>
                        at != (messages[k].channel, messages[k].control)) ==>
          && (at in after.controls <==> at in before.controls)
          && (at in before.controls ==> after.controls[at] == before.controls[at]))
  }

  ghost predicate LastControl(messages: seq<Message>, to: nat, k: nat)
    requires k < to <= |messages|
  {
    forall j :: k < j < to && messages[j].kind == ControlChange ==>
      (messages[j].channel, messages[j].control) != (messages[k].channel, messages[k].control)
  }

  /** Every channel has the preset of its last program change, drums on the tenth, or the one it had. */
  ghost predicate PresetsFollow(messages: seq<Message>, to: nat, before: Synth, after: Synth)
    requires to <= |messages|
  {
    && (forall k :: 0 <= k < to && messages[k].kind == ProgramChange && LastProgram(messages, to, k) ==>
          var channel := messages[k].channel;
          channel in after.presets && after.presets[channel] == (messages[k].program, channel == 9))
    && (forall channel :: (forall k :: 0 <= k < to && messages[k].kind == ProgramChange ==> messages[k].channel != channel) ==>
          && (channel in after.presets <==> channel in before.presets)
          && (channel in before.presets ==> after.presets[channel] == before.presets[channel]))
  }

  ghost predicate LastProgram(messages: seq<Message>, to: nat, k: nat)
    requires k < to <= |messages|
  {
    forall j :: k < j < to && messages[j].kind == ProgramChange ==> messages[j].channel != messages[k].channel
  }

  /** Every pitch wheel has the value of the last bend or channel pressure of its channel, or the one it had. */
  ghost predicate WheelsFollow(messages: seq<Message>, to: nat, before: Synth, after: Synth)
    requires to <= |messages|
  {
    && (forall k :: 0 <= k < to && IsBend(messages[k]) && LastBend(messages, to, k) ==>
          messages[k].channel in after.wheels && after.wheels[messages[k].channel] == messages[k].pitchBend)
    && (forall channel :: (forall k :: 0 <= k < to && IsBend(messages[k]) ==> messages[k].channel != channel) ==>
          && (channel in after.wheels <==> channel in before.wheels)
          && (channel in before.wheels ==> after.wheels[channel] == before.wheels[channel]))
  }

  ghost predicate LastBend(messages: seq<Message>, to: nat, k: nat)
    requires k < to <= |messages|
  {
    forall j :: k < j < to && IsBend(messages[j]) ==> messages[j].channel != messages[k].channel
  }

  /** The state of the synthesizer is the one that the first `to` messages ask for. */
  ghost predicate Follows(messages: seq<Message>, to: nat, before: Synth, after: Synth)
    requires to <= |messages|
  {
    && KeysFollow(messages, to, before, after) && ControlsFollow(messages, to, before, after)
    && PresetsFollow(messages, to, before, after) && WheelsFollow(messages, to, before, after)
  }

  lemma KeysStep(messages: seq<Message>, to: nat, s: Synth, before: Synth, after: Synth)
    requires 0 < to <= |messages| && KeysFollow(messages, to - 1, s, before)
    requires var m := messages[to - 1];
             after.sounding == if m.kind == NoteOn then before.sounding[(m.channel, m.key) := m.velocity as real / 127.0]
                               else if m.kind == NoteOff then before.sounding - {(m.channel, m.key)}
                               else before.sounding
    ensures KeysFollow(messages, to, s, after)
  {
    hide LastNote, NoNote;
    var m := messages[to - 1];
    forall k | 0 <= k < to && IsNote(messages[k]) && LastNote(messages, to, k)
      ensures var at := (messages[k].channel, messages[k].key);
              && (at in after.sounding <==> messages[k].kind == NoteOn)
              && (messages[k].kind == NoteOn ==> after.sounding[at] == messages[k].velocity as real / 127.0)
    {
      LastNoteBefore(messages, to, k);
    }
    forall at | NoNote(messages, to, at)
      ensures (at in after.sounding <==> at in s.sounding) && (at in s.sounding ==> after.sounding[at] == s.sounding[at])
    {
      NoNoteBefore(messages, to, at);
    }
  }

  lemma NoNoteBefore(messages: seq<Message>, to: nat, at: (nat, nat))
    requires 0 < to <= |messages| && NoNote(messages, to, at)
    ensures NoNote(messages, to - 1, at) && (IsNote(messages[to - 1]) ==> at != (messages[to - 1].channel, messages[to - 1].key))
  {
  }

  lemma LastNoteBefore(messages: seq<Message>, to: nat, k: nat)
    requires k < to <= |messages| && LastNote(messages, to, k)
    ensures k < to - 1 ==> LastNote(messages, to - 1, k)
    ensures k < to - 1 && IsNote(messages[to - 1]) ==>
              (messages[to - 1].channel, messages[to - 1].key) != (messages[k].channel, messages[k].key)
  {
  }

  lemma ControlsStep(messages: seq<Message>, to: nat, s: Synth, before: Synth, after: Synth)
    requires 0 < to <= |messages| && ControlsFollow(messages, to - 1, s, before)
    requires var m := messages[to - 1];
             after.controls == if m.kind == ControlChange then before.controls[(m.channel, m.control) := m.controlValue]
                               else before.controls
    ensures ControlsFollow(messages, to, s, after)
  {
    var m := messages[to - 1];
    forall k | 0 <= k < to && messages[k].kind == ControlChange && LastControl(messages, to, k)
      ensures var at := (messages[k].channel, messages[k].control);
              at in after.controls && after.controls[at] == messages[k].controlValue
    {
      if k < to - 1 {
        assert LastControl(messages, to - 1, k);
        assert m.kind == ControlChange ==> (m.channel, m.control) != (messages[k].channel, messages[k].control);
      }
    }
    forall at | forall k :: 0 <= k < to && messages[k].kind == ControlChange ==> at != (messages[k].channel, messages[k].control)
      ensures (at in after.controls <==> at in s.controls) && (at in s.controls ==> after.controls[at] == s.controls[at])
    {
      assert m.kind == ControlChange ==> at != (m.channel, m.control);
    }
  }

  lemma PresetsStep(messages: seq<Message>, to: nat, s: Synth, before: Synth, after: Synth)
    requires 0 < to <= |messages| && PresetsFollow(messages, to - 1, s, before)
    requires var m := messages[to - 1];
             after.presets == if m.kind == ProgramChange then before.presets[m.channel := (m.program, m.channel == 9)]
                              else before.presets
    ensures PresetsFollow(messages, to, s, after)
  {
    var m := messages[to - 1];
    forall k | 0 <= k < to && messages[k].kind == ProgramChange && LastProgram(messages, to, k)
      ensures var channel := messages[k].channel;
              channel in after.presets && after.presets[channel] == (messages[k].program, channel == 9)
    {
      if k < to - 1 {
        assert LastProgram(messages, to - 1, k);
        assert m.kind == ProgramChange ==> m.channel != messages[k].channel;
      }
    }
    forall channel | forall k :: 0 <= k < to && messages[k].kind == ProgramChange ==> messages[k].channel != channel
      ensures (channel in after.presets <==> channel in s.presets)
           && (channel in s.presets ==> after.presets[channel] == s.presets[channel])
    {
      assert m.kind == ProgramChange ==> m.channel != channel;
    }
  }

  lemma WheelsStep(messages: seq<Message>, to: nat, s: Synth, before: Synth, after: Synth)
    requires 0 < to <= |messages| && WheelsFollow(messages, to - 1, s, before)
    requires var m := messages[to - 1];
             after.wheels == if IsBend(m) then before.wheels[m.channel := m.pitchBend] else before.wheels
    ensures WheelsFollow(messages, to, s, after)
  {
    var m := messages[to - 1];
    forall k | 0 <= k < to && IsBend(messages[k]) && LastBend(messages, to, k)
      ensures messages[k].channel in after.wheels && after.wheels[messages[k].channel] == messages[k].pitchBend
    {
      if k < to - 1 {
        assert LastBend(messages, to - 1, k);
        assert IsBend(m) ==> m.channel != messages[k].channel;
      }
    }
    forall channel | forall k :: 0 <= k < to && IsBend(messages[k]) ==> messages[k].channel != channel
      ensures (channel in after.wheels <==> channel in s.wheels)
           && (channel in s.wheels ==> after.wheels[channel] == s.wheels[channel])
    {
      assert IsBend(m) ==> m.channel != channel;
    }
  }

  /** What the calls of one message do. */
  lemma OneMessage(m: Message, before: Synth)
    ensures var after := before.After(Dispatch(m));
            && after.sounding == (if m.kind == NoteOn then before.sounding[(m.channel, m.key) := m.velocity as real / 127.0]
                                  else if m.kind == NoteOff then before.sounding - {(m.channel, m.key)}
                                  else before.sounding)
            && after.controls == (if m.kind == ControlChange then before.controls[(m.channel, m.control) := m.controlValue]
                                  else before.controls)
            && after.presets == (if m.kind == ProgramChange then before.presets[m.channel := (m.program, m.channel == 9)]
                                 else before.presets)
            && after.wheels == (if IsBend(m) then before.wheels[m.channel := m.pitchBend] else before.wheels)
  {
    var calls := Dispatch(m);
    if calls != [] {
      assert calls[..0] == [] && before.After(calls) == before.After(calls[..0]).Hearing(calls[0]);
    }
  }

  lemma NothingFollows(messages: seq<Message>, s: Synth)
    ensures Dispatched(messages, 0, 0) == [] && s.After([]) == s && Follows(messages, 0, s, s)
  {
  }

  /** The dispatch sets what the messages ask for. */
  lemma {:induction false} DispatchFollows(messages: seq<Message>, to: nat, s: Synth)
    requires to <= |messages|
    ensures Follows(messages, to, s, s.After(Dispatched(messages, 0, to)))
  {
    hide KeysFollow, ControlsFollow, PresetsFollow, WheelsFollow, Dispatch, Synth.After;
    if to == 0 {
      NothingFollows(messages, s);
    } else {
      var before, after := s.After(Dispatched(messages, 0, to - 1)), s.After(Dispatched(messages, 0, to));
      DispatchFollows(messages, to - 1, s);
      AfterJoin(s, Dispatched(messages, 0, to - 1), Dispatch(messages[to - 1]));
      OneMessage(messages[to - 1], before);
      KeysStep(messages, to, s, before, after);
      ControlsStep(messages, to, s, before, after);
      PresetsStep(messages, to, s, before, after);
      WheelsStep(messages, to, s, before, after);
    }
  }

  /** A message is due by frame `n` of a call if its milliseconds are no more than those of the frame. */
  lemma DueInFrames(clock: Clock, n: nat, time: nat)
    requires clock.Valid()
    ensures time as real <= clock.Time(n)
       <==> time as real * clock.sampleRate <= 1000.0 * (clock.frameIndex + n) as real
  {
    var frame := (clock.frameIndex + n) as real;
    Quotient(frame, clock.sampleRate);
    assert clock.Time(n) * clock.sampleRate == 1000.0 * frame;
    Compared(time as real, clock.Time(n), clock.sampleRate);
  }

  lemma Quotient(frame: real, rate: real)
    requires rate > 0.0
    ensures frame * (1000.0 / rate) * rate == 1000.0 * frame
  {
    var inverse := 1000.0 / rate;
    assert inverse * rate == 1000.0;
    assert frame * inverse * rate == frame * (inverse * rate);
  }

  lemma Compared(a: real, b: real, c: real)
    requires c > 0.0
    ensures a <= b <==> a * c <= b * c
  {
    if a <= b {
      Distribute(a, b - a, c);
    } else {
      Distribute(b, a - b, c);
    }
  }

  /** `played` is how many messages are played in a row by frame `n` of a call. */
  ghost predicate PlayedBy(messages: seq<Message>, frame: nat, sampleRate: real, played: nat) {
    && played <= |messages|
    && (forall k :: 0 <= k < played ==> messages[k].time as real * sampleRate <= 1000.0 * frame as real)
    && (played < |messages| ==> messages[played].time as real * sampleRate > 1000.0 * frame as real)
  }

  lemma DueIsPlayed(messages: seq<Message>, clock: Clock, n: nat)
    requires clock.Valid()
    ensures PlayedBy(messages, clock.frameIndex + n, clock.sampleRate, Due(messages, 0, clock.Time(n)))
  {
    hide Clock.Time, Due;
    var to := Due(messages, 0, clock.Time(n));
    forall k | 0 <= k <= to && k < |messages|
      ensures messages[k].time as real * clock.sampleRate <= 1000.0 * (clock.frameIndex + n) as real
         <==> messages[k].time as real <= clock.Time(n)
    {
      DueInFrames(clock, n, messages[k].time);
    }
  }

  /** The call of the synthesizer that a message asks for is among the calls. */
  ghost predicate Told(calls: seq<Command>, m: Message) {
    && (m.kind == NoteOff ==> StopNote(m.channel, m.key) in calls)
    && (m.kind == NoteOn ==> StartNote(m.channel, m.key, m.velocity as real / 127.0) in calls)
    && (m.kind == ControlChange ==> Control(m.channel, m.control, m.controlValue) in calls)
    && (m.kind == ProgramChange ==> Preset(m.channel, m.program, m.channel == 9) in calls)
    && (IsBend(m) ==> PitchWheel(m.channel, m.pitchBend) in calls)
  }

  lemma {:induction false} NotesAreCalls(calls: seq<Command>, c: Command)
    requires c in Notes(calls)
    ensures c in calls
  {
    if !(!calls[0].Render? && c == calls[0]) {
      NotesAreCalls(calls[1..], c);
    }
  }

  lemma {:induction false} DispatchTells(messages: seq<Message>, from: nat, to: nat, k: nat)
    requires from <= k < to <= |messages|
    ensures Told(Dispatched(messages, from, to), messages[k])
  {
    if k < to - 1 {
      DispatchTells(messages, from, to - 1, k);
    }
  }

  lemma ToldInCalls(calls: seq<Command>, m: Message)
    requires Told(Notes(calls), m)
    ensures Told(calls, m)
  {
    forall c | c in Notes(calls)
      ensures c in calls
    {
      NotesAreCalls(calls, c);
    }
  }

  /** What the synthesizer has been told by the end of a call. */
  lemma CallFollows(messages: seq<Message>, clock: Clock, channels: nat, frames: nat, s: Synth) returns (played: nat)
    requires clock.Valid() && frames > 0
    ensures PlayedBy(messages, clock.frameIndex + frames, clock.sampleRate, played)
    ensures Follows(messages, played, s, s.After(Remaining(messages, clock, channels, 0, frames, 0)))
    ensures played <= |messages|
    ensures forall k :: 0 <= k < played ==> Told(Remaining(messages, clock, channels, 0, frames, 0), messages[k])
  {
    hide *;
    played := Due(messages, 0, clock.Time(frames));
    DueIsPlayed(messages, clock, frames);
    NotesInOrder(messages, clock, channels, 0, frames, 0);
    AfterNotes(s, Remaining(messages, clock, channels, 0, frames, 0));
    DispatchFollows(messages, played, s);
    forall k | 0 <= k < played
      ensures Told(Remaining(messages, clock, channels, 0, frames, 0), messages[k])
    {
      DispatchTells(messages, 0, played, k);
      ToldInCalls(Remaining(messages, clock, channels, 0, frames, 0), messages[k]);
    }
  }

  /** The renderings among the calls. */
  function Renderings(calls: seq<Command>): seq<Command> {
    if |calls| == 0 then [] else (if calls[0].Render? then [calls[0]] else []) + Renderings(calls[1..])
  }

  lemma {:induction false} RenderingsJoin(a: seq<Command>, b: seq<Command>)
    ensures Renderings(a + b) == Renderings(a) + Renderings(b)
  {
    if |a| == 0 {
      assert a + b == b;
    } else {
      assert (a + b)[0] == a[0] && (a + b)[1..] == a[1..] + b;
      RenderingsJoin(a[1..], b);
    }
  }

  lemma {:induction false} NoRenderings(messages: seq<Message>, from: nat, to: nat)
    requires from <= to <= |messages|
    ensures Renderings(Dispatched(messages, from, to)) == []
  {
    if from < to {
      NoRenderings(messages, from, to - 1);
      RenderingsJoin(Dispatched(messages, from, to - 1), Dispatch(messages[to - 1]));
    }
  }

  /** Whether calls render `frames` frames in blocks of 64, the last of at most 64, each at its place in the output. */
  ghost predicate RendersBlocks(renderings: seq<Command>, channels: nat, done: nat, frames: nat) {
    && |renderings| == (frames + 63) / 64
    && forall b :: 0 <= b < |renderings| ==> renderings[b] == Render((done + 64 * b) * channels, Min(64, frames - 64 * b))
  }

  lemma {:induction false} BlocksRendered(messages: seq<Message>, clock: Clock, channels: nat, done: nat, left: nat, from: nat)
    requires clock.Valid() && from <= |messages|
    ensures RendersBlocks(Renderings(Remaining(messages, clock, channels, done, left, from)), channels, done, left)
    decreases left
  {
    hide Remaining, Due, Dispatched, Clock.Time, Renderings;
    if left == 0 {
      NothingRemains(messages, clock, channels, done, from);
      NothingRendered();
    } else {
      var n := Min(FRAME_BLOCK, left);
      var to := Due(messages, from, clock.Time(done + n));
      var now, render := Dispatched(messages, from, to), [Render(done * channels, n)];
      var later := Remaining(messages, clock, channels, done + n, left - n, to);
      RemainingStep(messages, clock, channels, done, left, from);
      RenderingsJoin(now + render, later);
      RenderingsJoin(now, render);
      NoRenderings(messages, from, to);
      OneRendered(done * channels, n);
      BlocksRendered(messages, clock, channels, done + n, left - n, to);
    }
  }

  lemma NothingRendered()
    ensures Renderings([]) == []
  {
  }

  lemma OneRendered(output: nat, frames: nat)
    ensures Renderings([Render(output, frames)]) == [Render(output, frames)]
  {
  }

  class DecoderMidi {
    var frameIndex: nat
    /** `_midi_stream`: the messages from the current one on. */
    var messages: seq<Message>
    const channels: nat
    const sampleRate: real

    constructor (messages: seq<Message>, channels: nat, sampleRate: real)
      ensures this.messages == messages && this.channels == channels && this.sampleRate == sampleRate
      ensures frameIndex == 0
    {
      this.messages, this.channels, this.sampleRate, frameIndex := messages, channels, sampleRate, 0;
    }

    /** Where frame `n` of a call lies in the output. */
    function Offset(n: nat): nat {
      n * channels
    }

    /** The messages due by `timeMs`, from the `from`-th on. */
    method Play(from: nat, timeMs: real) returns (to: nat, calls: seq<Command>)
      requires from <= |messages|
      ensures to == Due(messages, from, timeMs) && calls == Dispatched(messages, from, to)
    {
      hide Dispatch;
      to, calls := from, [];
      while to < |messages| && timeMs >= messages[to].time as real
        invariant from <= to <= |messages|
        invariant calls == Dispatched(messages, from, to)
        invariant Due(messages, to, timeMs) == Due(messages, from, timeMs)
        decreases |messages| - to
      {
        calls := calls + Dispatch(messages[to]);
        to := to + 1;
      }
    }

    /** One block of the loop: the messages due by its end, then its rendering. */
    method PlayBlock(clock: Clock, timeMs: real, block: nat, output: nat, from: nat, ghost done: nat, ghost left: nat)
      returns (end: real, nextOutput: nat, to: nat, calls: seq<Command>)
      requires clock.Valid() && from <= |messages| && left > 0
      requires block == Min(FRAME_BLOCK, left) && output == Offset(done) && timeMs == clock.Time(done)
      ensures end == clock.Time(done + block) && nextOutput == Offset(done + block) && to <= |messages|
      ensures Remaining(messages, clock, channels, done, left, from)
           == calls + Remaining(messages, clock, channels, done + block, left - block, to)
    {
      hide Remaining, Due, Dispatched, Clock.Increment, Clock.Time;
      clock.Advance(done, block);
      end := timeMs + block as real * clock.Increment();
      RemainingStep(messages, clock, channels, done, left, from);
      to, calls := Play(from, end);
      calls := calls + [Render(output, block)];
      AddFrames(done, block, channels);
      nextOutput := output + block * channels;
    }

    /** The loop over blocks. */
    method PlayBlocks(clock: Clock, frames: nat, start: real) returns (framesLeft: nat, calls: seq<Command>)
      requires clock.Valid() && start == clock.Time(0)
      ensures framesLeft == 0 && calls == Remaining(messages, clock, channels, 0, frames, 0)
    {
      assert Offset(0) == 0;
      hide *;
      var timeMs, frameBlock := start, FRAME_BLOCK;
      var midiPacket: nat, outputIndex: nat := 0, 0;
      ghost var done: nat := 0;
      framesLeft, calls := frames, [];
      while framesLeft != 0
        invariant framesLeft + done == frames && outputIndex == Offset(done)
        invariant midiPacket <= |messages| && (framesLeft > 0 ==> frameBlock == FRAME_BLOCK)
        invariant timeMs == clock.Time(done)
        invariant Remaining(messages, clock, channels, 0, frames, 0)
               == calls + Remaining(messages, clock, channels, done, framesLeft, midiPacket)
        decreases framesLeft
      {
        if frameBlock > framesLeft {
          frameBlock := framesLeft;
        }
        var played;
        timeMs, outputIndex, midiPacket, played :=
          PlayBlock(clock, timeMs, frameBlock, outputIndex, midiPacket, done, framesLeft);
        Regroup(calls, played, Remaining(messages, clock, channels, done + frameBlock, framesLeft - frameBlock, midiPacket));
        calls := calls + played;
        framesLeft, done := framesLeft - frameBlock, done + frameBlock;
      }
      NothingRemains(messages, clock, channels, done, midiPacket);
    }

    /**
     * `decode`: the numbers of frames it calls back with, and the calls to the synthesizer.  They
     * leave a synthesizer that was in state `synth` in the state that the messages due ask for.
     */
    method Decode(frames: nat, ghost synth: Synth) returns (callbacks: seq<nat>, calls: seq<Command>, ghost played: nat)
      requires sampleRate > 0.0
      ensures var clock := Clock(frameIndex, sampleRate);
              calls == if frames == 0 || channels == 0 then [] else Remaining(messages, clock, channels, 0, frames, 0)
      ensures frames > 0 && channels > 0 ==>
                && PlayedBy(messages, frameIndex + frames, sampleRate, played)
                && Follows(messages, played, synth, synth.After(calls))
                && (forall k :: 0 <= k < played ==> Told(calls, messages[k]))
                && RendersBlocks(Renderings(calls), channels, 0, frames)
      ensures callbacks == (if messages == [] then [0] else []) + [if channels == 0 then 0 else frames]
    {
      hide Follows, RendersBlocks, Renderings, Synth.After, Told;
      callbacks, calls, played := if messages == [] then [0] else [], [], 0;
      if frames == 0 || channels == 0 {
        return callbacks + [0], [], 0;
      }
      var clock := Clock(frameIndex, sampleRate);
      StartTime(clock);
      var framesLeft;
      framesLeft, calls := PlayBlocks(clock, frames, frameIndex as real * clock.Increment());
      callbacks := callbacks + [frames - framesLeft];
      played := CallFollows(messages, clock, channels, frames, synth);
      BlocksRendered(messages, clock, channels, 0, frames, 0);
    }
  }
}
