/** How the main loop of the heater processor (LpcFirmware/src/main.cpp) hands
    out the frames it has decoded. */
module Firmware {
  import opened Options
  import opened Crc8
  import opened LpcProtocol
  import opened HeaterStates
  import Thermal

  const VERSION: Byte := 3
  const HEATER_PIN: Byte := 0x09

  // LpcProtocol.h
  const PING: Byte := 1
  const GPIO_CONFIG: Byte := 3
  const GPIO_WRITE: Byte := 4
  const PWM_WRITE: Byte := 6
  const THERMISTOR_CONFIG: Byte := 7
  const HEATER_MODEL_A: Byte := 8
  const HEATER_MODEL_B: Byte := 9
  const HEATER_MODEL_C: Byte := 10
  const HEATER_CONFIG: Byte := 11
  const HEATER_COMMAND: Byte := 12
  const HEATER_FEED_FORWARD: Byte := 14
  const CONFIGURATION_RESET: Byte := 15
  const CONFIGURATION_COMPLETE: Byte := 16

  /** What a frame does. */
  datatype Action = Heartbeat | ResetAll | Complete | DrivePin(pin: Byte) | ToThermal | Nothing

  function ActionOf(f: Frame): Action {
    var n := |f.payload|;
    if f.kind == PING then (if n == 1 && f.payload[0] == VERSION then Heartbeat else Nothing)
    else if f.kind == CONFIGURATION_RESET then (if n == 0 then ResetAll else Nothing)
    else if f.kind == CONFIGURATION_COMPLETE then (if n == 0 then Complete else Nothing)
    else if f.kind == GPIO_CONFIG then (if n == 3 && f.payload[0] != HEATER_PIN then DrivePin(f.payload[0]) else Nothing)
    else if f.kind == GPIO_WRITE then (if n == 2 && f.payload[0] != HEATER_PIN then DrivePin(f.payload[0]) else Nothing)
    else if f.kind == PWM_WRITE then (if n == 5 && f.payload[0] != HEATER_PIN then DrivePin(f.payload[0]) else Nothing)
    else ToThermal
  }

  // What Thermal::HandleFrame makes of a payload. How four bytes make up a float is a parameter.

  type FloatReader = seq<Byte> -> Thermal.Float

  function ReadU8(p: seq<Byte>, i: nat): Thermal.u8
    requires i < |p|
  {
    NatOfByte(p[i]);
    ToNat(p[i])
  }

  function ReadU16(p: seq<Byte>, i: nat): Thermal.u16
    requires i + 1 < |p|
  {
    var low: nat, high: nat := ReadU8(p, i), ReadU8(p, i + 1);
    low + 0x100 * high
  }

  function ReadI16(p: seq<Byte>, i: nat): Thermal.i16
    requires i + 1 < |p|
  {
    var u: nat := ReadU16(p, i);
    if u < 0x8000 then u else u - 0x1_0000
  }

  function MessageOf(f: Frame, float: FloatReader): Thermal.Message {
    var p, n := f.payload, |f.payload|;
    if f.kind == THERMISTOR_CONFIG then
      if n == 16 then Thermal.ThermistorConfig(float(p[..4]), float(p[4..8]), float(p[8..12]), float(p[12..])) else Thermal.Ignored
    else if f.kind == HEATER_MODEL_A then
      if n == 16 then Thermal.ModelA(float(p[..4]), float(p[4..8]), float(p[8..12]), float(p[12..])) else Thermal.MalformedModel
    else if f.kind == HEATER_MODEL_B then
      if n == 16 then Thermal.ModelB(float(p[..4]), float(p[4..8]), float(p[8..12]), float(p[12..])) else Thermal.MalformedModel
    else if f.kind == HEATER_MODEL_C then
      if n == 5 then Thermal.ModelC(float(p[..4]), ReadU8(p, 4)) else Thermal.MalformedModel
    else if f.kind == HEATER_CONFIG then
      if n == 11 then
        Thermal.HeaterConfig(ReadU16(p, 0), ReadI16(p, 2), ReadI16(p, 4), ReadU16(p, 6), ReadU16(p, 8), ReadU8(p, 10))
      else Thermal.Ignored
    else if f.kind == HEATER_COMMAND then
      if n == 3 then Thermal.HeaterCommand(ReadU8(p, 0), ReadI16(p, 1)) else Thermal.Ignored
    else if f.kind == HEATER_FEED_FORWARD then
      if n == 12 then Thermal.FeedForward(float(p[..4]), float(p[4..8]), float(p[8..])) else Thermal.Ignored
    else Thermal.Ignored
  }

  // Frames by what they can do to the heater.

  predicate Commands(f: Frame, command: Byte) {
    f.kind == HEATER_COMMAND && |f.payload| == 3 && f.payload[0] == command
  }

  const ON: Byte := 1
  const RESET_FAULT: Byte := 3

  /** The only two kinds of frame that a fault and the latch give way to. */
  predicate ClearsFault(f: Frame) {
    Commands(f, RESET_FAULT) || ActionOf(f).ResetAll?
  }

  lemma CommandOfMessage(f: Frame, float: FloatReader)
    ensures var m := MessageOf(f, float);
            && (m.HeaterCommand? && m.command == Thermal.COMMAND_RESET_FAULT <==> Commands(f, RESET_FAULT))
            && (m.HeaterCommand? && m.command == Thermal.COMMAND_ON <==> Commands(f, ON))
            && (m.HeaterCommand? ==> ActionOf(f).ToThermal?)
  {
    hide ToNat, ReadI16, ReadU16;
    if f.kind == HEATER_COMMAND && |f.payload| == 3 {
      SmallBytes(f.payload[0]);
    }
  }

  lemma SmallBytes(b: Byte)
    ensures (ToNat(b) == 3 <==> b == 3) && (ToNat(b) == 1 <==> b == 1)
  {
    NatOfByte(b);
    assert ToByte(3) == 3 && ToByte(1) == 1;
  }

  /** The pins that frames drive, in order. */
  function Pins(frames: seq<Frame>): seq<Byte> {
    if frames == [] then []
    else
      var last := frames[|frames|-1];
      Pins(frames[..|frames|-1]) + (if ActionOf(last).DrivePin? then [ActionOf(last).pin] else [])
  }

  /** Whether the configuration is still to be sent after some frames. */
  function NeedsAfter(needs: bool, frames: seq<Frame>): bool {
    if frames == [] then needs
    else
      match ActionOf(frames[|frames|-1])
      case ResetAll => true
      case Complete => false
      case _ => NeedsAfter(needs, frames[..|frames|-1])
  }

  lemma OneMoreFrame(needs: bool, frames: seq<Frame>, f: Frame)
    ensures Pins(frames + [f]) == Pins(frames) + (if ActionOf(f).DrivePin? then [ActionOf(f).pin] else [])
    ensures NeedsAfter(needs, frames + [f])
         == if ActionOf(f).ResetAll? then true else if ActionOf(f).Complete? then false else NeedsAfter(needs, frames)
  {
    hide ActionOf;
    assert (frames + [f])[..|frames|] == frames;
  }

  /** No frame for pins gets at the heater's. */
  lemma {:induction false} HeaterPinIsNotDriven(frames: seq<Frame>)
    ensures HEATER_PIN !in Pins(frames)
  {
    if frames == [] {
    } else {
      HeaterPinIsNotDriven(frames[..|frames|-1]);
    }
  }

  /** What happens to the processor: a byte arrives, and with it a look at the
      schedule of control rounds; such a look without a byte; the tick interrupt. */
  datatype Event =
    | Arrives(byte: Byte, reading: Thermal.Sample, computed: Thermal.Computed, sample: Thermal.Sample)
    | Idles(reading: Thermal.Sample, computed: Thermal.Computed)
    | Millisecond

  function BytesOf(events: seq<Event>): seq<Byte> {
    if events == [] then []
    else
      var last := events[|events|-1];
      BytesOf(events[..|events|-1]) + (if last.Arrives? then [last.byte] else [])
  }

  function Milliseconds(events: seq<Event>): nat {
    if events == [] then 0
    else Milliseconds(events[..|events|-1]) + (if events[|events|-1].Millisecond? then 1 else 0)
  }

  class Firmware {
    const thermal: Thermal.Thermal
    const decoder: Decoder
    const float: FloatReader
    var needsConfiguration: bool
    var lastSampleTime: nat
    ghost var stream: seq<Byte>
    ghost var driven: seq<Byte>

    /** The decoder has seen the whole stream, and pins were driven and the
        configuration asked for as the frames in it say. */
    ghost predicate Valid()
      reads this, thermal, decoder, decoder.payload
    {
      && thermal.Valid() && decoder.Valid() && decoder.View() == After(NeedSync, stream)
      && driven == Pins(Frames()) && needsConfiguration == NeedsAfter(true, Frames())
    }

    /** All frames accepted so far. */
    ghost function Frames(): seq<Frame>
      reads this
    {
      Accepted(NeedSync, stream)
    }

    constructor (float: FloatReader)
      ensures Valid() && stream == [] && fresh(thermal) && fresh(decoder) && fresh(decoder.payload)
    {
      thermal := new Thermal.Thermal();
      decoder := new Decoder();
      this.float := float;
      needsConfiguration, lastSampleTime, stream, driven := true, 0, [], [];
    }

    /** What a frame sets, as numbers made of the bytes of its payload. */
    ghost predicate Obeyed(f: Frame)
      reads this, thermal
    {
      var p, n, t := f.payload, |f.payload|, thermal;
      && (f.kind == 11 && n == 11 ==>
            && (t.heaterConfigured <==> Word(p, 0) != 0 && SignedWord(p, 2) > SignedWord(p, 4))
            && (t.heaterConfigured ==>
                  && t.heaterFrequency == Word(p, 0) && t.maxBadReadings == ToNat(p[10])
                  && t.limits == Thermal.Limits(SignedWord(p, 2) as real * 0.1, SignedWord(p, 4) as real * 0.1,
                                                Word(p, 6) as real * 0.01, Word(p, 8) as real * 0.1)))
      && (f.kind == 12 && n == 3 && ToNat(p[0]) == 1 && IsActive(t.state) ==>
            t.targetTemperature == SignedWord(p, 1) as real * 0.01)
      && (f.kind == 12 && n == 3 && (ToNat(p[0]) == 0 || ToNat(p[0]) == 2) ==> !IsActive(t.state) && t.heaterDuty == 0)
      && (f.kind == 7 && n == 16 ==>
            (t.thermistorConfigured <==> Thermal.Positive(float(p[0..4])) && Thermal.Positive(float(p[4..8]))
                                         && float(p[8..12]).Finite? && Thermal.Positive(float(p[12..16]))))
      && (f.kind == 14 && n == 12 ==>
            if float(p[0..4]).Finite? && float(p[4..8]).Finite? && float(p[8..12]).Finite?
            then t.loop.extrusionTemperatureBoost == float(p[8..12]).value
                 && (t.state == Stable ==> t.loop.extrusionPwmBoost == float(p[4..8]).value)
            else t.state == Fault && t.heaterDuty == 0)
      && (f == Frame(1, [3]) ==> t.lastHostHeartbeat == t.millisTicks && t.LinkAlive())
    }

    /** What a frame adds to the messages that make up models. */
    ghost function ModelMessages(f: Frame): seq<Thermal.Message>
      reads this
    {
      var p, n := f.payload, |f.payload|;
      if f.kind == 8 then
        [if n == 16 then Thermal.ModelA(float(p[0..4]), float(p[4..8]), float(p[8..12]), float(p[12..16]))
         else Thermal.MalformedModel]
      else if f.kind == 9 then
        [if n == 16 then Thermal.ModelB(float(p[0..4]), float(p[4..8]), float(p[8..12]), float(p[12..16]))
         else Thermal.MalformedModel]
      else if f.kind == 10 then
        [if n == 5 then Thermal.ModelC(float(p[0..4]), ReadU8(p, 4)) else Thermal.MalformedModel]
      else []
    }

    lemma ModelMessagesAre(f: Frame)
      ensures var m := MessageOf(f, float);
              ModelMessages(f) == if m.ModelA? || m.ModelB? || m.ModelC? || m.MalformedModel? then [m] else []
    {
      MessageIs(f, float);
      hide MessageOf, Word, SignedWord, ToNat;
    }

    /** The live model after a frame: a new one if the frame completes it. */
    ghost predicate ModelFollows(f: Frame, messages: seq<Thermal.Message>, model: Thermal.Model, configured: bool)
      reads this, thermal
    {
      var added := ModelMessages(f);
      if added != [] && Thermal.Accepted(messages, added[0]) then
        thermal.model == Thermal.NewModel(messages, added[0]) && thermal.modelConfigured
      else thermal.model == model && (f != Frame(15, []) ==> thermal.modelConfigured == configured)
    }

    /** What the loop does about an accepted frame. */
    method Dispatch(f: Frame, sample: Thermal.Sample)
      requires thermal.Valid()
      modifies this`needsConfiguration, this`driven, thermal
      ensures thermal.Valid()
      ensures driven == if ActionOf(f).DrivePin? then old(driven) + [ActionOf(f).pin] else old(driven)
      ensures needsConfiguration
           == if ActionOf(f).ResetAll? then true else if ActionOf(f).Complete? then false else old(needsConfiguration)
      ensures thermal.heaterDuty == old(thermal.heaterDuty) || thermal.heaterDuty == 0
      ensures !ActionOf(f).ResetAll? && !ActionOf(f).ToThermal? ==>
                thermal.state == old(thermal.state) && thermal.heaterDuty == old(thermal.heaterDuty)
      ensures Evolves(old(Heater()), Heater(), [f], 0)
      ensures Obeyed(f)
      ensures thermal.modelMessages
           == if f == Frame(15, []) then [] else old(thermal.modelMessages) + ModelMessages(f)
      ensures ModelFollows(f, old(thermal.modelMessages), old(thermal.model), old(thermal.modelConfigured))
      ensures thermal.millisTicks == old(thermal.millisTicks)
      ensures thermal.lastHostHeartbeat == if f == Frame(1, [3]) then thermal.millisTicks else old(thermal.lastHostHeartbeat)
      ensures thermal.linkTimeoutLatched ==> old(thermal.linkTimeoutLatched)
    {
      ActionMeans(f);
      hide Thermal.ModelOK, Thermal.OutputOK, Thermal.Since, Word, SignedWord, ToNat, Thermal.Accepted;
      assert [f][0] == f;
      match ActionOf(f) {
        case Heartbeat => thermal.HostHeartbeat();
        case ResetAll =>
          assert f in [f] && ClearsFault(f);
          needsConfiguration := true;
          thermal.ResetConfiguration();
        case Complete => needsConfiguration := false;
        case DrivePin(pin) => driven := driven + [pin];
        case ToThermal => HandOver(f, sample);
        case Nothing =>
      }
    }

    /** A frame that is none of the main loop's own goes to Thermal::HandleFrame. */
    method HandOver(f: Frame, sample: Thermal.Sample)
      requires thermal.Valid() && ActionOf(f).ToThermal?
      modifies thermal
      ensures thermal.Valid()
      ensures thermal.heaterDuty == old(thermal.heaterDuty) || thermal.heaterDuty == 0
      ensures Evolves(old(Heater()), Heater(), [f], 0)
      ensures Obeyed(f)
      ensures thermal.modelMessages == old(thermal.modelMessages) + ModelMessages(f)
      ensures ModelFollows(f, old(thermal.modelMessages), old(thermal.model), old(thermal.modelConfigured))
      ensures thermal.millisTicks == old(thermal.millisTicks) && thermal.lastHostHeartbeat == old(thermal.lastHostHeartbeat)
      ensures thermal.linkTimeoutLatched ==> old(thermal.linkTimeoutLatched)
    {
      ActionMeans(f);
      MessageIs(f, float);
      CommandOfMessage(f, float);
      ModelMessagesAre(f);
      hide Thermal.ModelOK, Thermal.OutputOK, Thermal.Since, MessageOf, Word, SignedWord, ToNat, Thermal.Accepted, ActionOf,
           ModelMessages, Commands, Evolves;
      ghost var before := Heater();
      Thermal.NoNewModel(thermal.modelMessages, MessageOf(f, float), 0);
      thermal.HandleFrame(MessageOf(f, float), sample);
      FrameEvolves(before, Heater(), f);
    }

    /** One byte goes into the decoder. */
    method Receive(byte: Byte) returns (accepted: Option<Frame>)
      requires Valid()
      modifies this`stream, decoder, decoder.payload
      ensures thermal.Valid() && decoder.Valid() && decoder.View() == After(NeedSync, stream)
      ensures stream == old(stream) + [byte] && Frames() == old(Frames()) + Several(accepted)
      ensures (decoder.View(), accepted) == Next(old(decoder.View()), byte)
      ensures accepted.Some? ==> Fits(accepted.value) && EndsIn(stream, Encoded(accepted.value))
    {
      hide Update, After, Accepted, Encoded, EndsIn, Next, Pins, NeedsAfter, Thermal.ModelOK, Thermal.OutputOK;
      FeedInParts(NeedSync, stream, [byte]);
      FeedOne(After(NeedSync, stream), byte);
      accepted := decoder.Feed(byte);
      if accepted.Some? {
        AcceptsOnlyEncodings(stream, byte, accepted.value);
      }
      stream := stream + [byte];
    }

    /** One byte from the link: the heater changes only with a frame whose encoding
        the stream then ends in. */
    method HandleByte(byte: Byte, sample: Thermal.Sample) returns (accepted: Option<Frame>)
      requires Valid()
      modifies this, thermal, decoder, decoder.payload
      ensures Valid() && stream == old(stream) + [byte] && lastSampleTime == old(lastSampleTime)
      ensures decoder.View() == Next(old(decoder.View()), byte).0
      ensures accepted == Next(old(decoder.View()), byte).1 && Frames() == old(Frames()) + Several(accepted)
      ensures accepted.Some? ==> Fits(accepted.value) && EndsIn(stream, Encoded(accepted.value))
      ensures thermal.heaterDuty == old(thermal.heaterDuty) || thermal.heaterDuty == 0
      ensures accepted.None? || (!ActionOf(accepted.value).ResetAll? && !ActionOf(accepted.value).ToThermal?) ==>
                thermal.state == old(thermal.state) && thermal.heaterDuty == old(thermal.heaterDuty)
      ensures Evolves(old(Heater()), Heater(), Several(accepted), 0)
      ensures accepted.None? ==> unchanged(thermal)
      ensures accepted.Some? ==> Obeyed(accepted.value)
      ensures accepted.Some? ==>
                thermal.modelMessages
                == if accepted.value == Frame(15, []) then [] else old(thermal.modelMessages) + ModelMessages(accepted.value)
      ensures accepted.Some? ==>
                ModelFollows(accepted.value, old(thermal.modelMessages), old(thermal.model), old(thermal.modelConfigured))
      ensures Heater().since == if accepted == Some(Frame(1, [3])) then 0 else old(Heater()).since
      ensures Heater().latched ==> old(Heater()).latched
    {
      hide Update, After, Accepted, Encoded, EndsIn, Next, ActionOf, Pins, NeedsAfter, Evolves,
           Thermal.ModelOK, Thermal.OutputOK, Thermal.Since, Obeyed, ModelMessages, ModelFollows;
      ghost var frames := Frames();
      NothingEvolves(Heater());
      accepted := Receive(byte);
      if accepted.Some? {
        OneMoreFrame(true, frames, accepted.value);
        Dispatch(accepted.value, sample);
        SinceNow(thermal.millisTicks);
      } else {
        assert frames + [] == frames;
      }
    }

    /** All bytes of an encoded frame but its last change nothing but the decoder. */
    method HearAllButLast(f: Frame, sample: Thermal.Sample)
      requires Valid() && decoder.View() == NeedSync && Fits(f)
      modifies this, thermal, decoder, decoder.payload
      ensures Valid() && unchanged(thermal) && Frames() == old(Frames())
      ensures Next(decoder.View(), Encoded(f)[|f.payload| + 3]) == (NeedSync, Some(f))
    {
      hide Update, After, Accepted, Next, Pins, NeedsAfter, Evolves, Thermal.ModelOK, Thermal.OutputOK, Thermal.Since,
           Obeyed, ModelMessages, ModelFollows, EndsIn, ActionOf;
      var bytes := Encoded(f);
      FrameIsHeardLast(f);
      FeedNothing(NeedSync);
      hide Encoded;
      ghost var frames := Frames();
      for k := 0 to |bytes| - 1
        invariant Valid() && unchanged(thermal) && Frames() == frames
        invariant decoder.View() == After(NeedSync, bytes[..k])
      {
        FeedOneMore(NeedSync, bytes, k);
        ghost var d := decoder.View();
        var accepted := HandleByte(bytes[k], sample);
        assert frames + [] == frames;
        assert decoder.View() == Next(d, bytes[k]).0;
      }
    }

    /** All bytes of an encoded frame, one behind the other: the frame is obeyed with the last. */
    method HearFrame(f: Frame, sample: Thermal.Sample)
      requires Valid() && decoder.View() == NeedSync && Fits(f)
      modifies this, thermal, decoder, decoder.payload
      ensures Valid() && decoder.View() == NeedSync && Frames() == old(Frames()) + [f]
      ensures Obeyed(f) && Evolves(old(Heater()), Heater(), [f], 0)
      ensures thermal.modelMessages == if f == Frame(15, []) then [] else old(thermal.modelMessages) + ModelMessages(f)
      ensures ModelFollows(f, old(thermal.modelMessages), old(thermal.model), old(thermal.modelConfigured))
    {
      hide Update, After, Accepted, Next, Pins, NeedsAfter, Evolves, Thermal.ModelOK, Thermal.OutputOK, Thermal.Since,
           Obeyed, ModelMessages, ModelFollows, EndsIn, ActionOf;
      HearAllButLast(f, sample);
      var accepted := HandleByte(Encoded(f)[|f.payload| + 3], sample);
    }

    /** Thermal::Spin: a round of control if the last one began long enough ago. */
    method Spin(reading: Thermal.Sample, computed: Thermal.Computed)
      requires Valid()
      modifies this`lastSampleTime, thermal
      ensures Valid() && Evolves(old(Heater()), Heater(), [], 0)
      ensures Heater().since == old(Heater()).since && Heater().latched == old(Heater()).latched
      ensures lastSampleTime == if Thermal.Since(thermal.millisTicks, old(lastSampleTime)) >= 250
                                then thermal.millisTicks else old(lastSampleTime)
      ensures Thermal.Since(thermal.millisTicks, old(lastSampleTime)) < 250 ==>
                Heater() == old(Heater()) && thermal.heaterDuty == old(thermal.heaterDuty)
    {
      hide Thermal.ModelOK, Thermal.OutputOK, Thermal.Since, After, Accepted, Pins, NeedsAfter;
      SmallModulo(Heater().since);
      var now := thermal.millisTicks;
      if Thermal.Since(now, lastSampleTime) >= Thermal.SAMPLE_INTERVAL_MILLIS {
        lastSampleTime := now;
        thermal.Control(reading, computed);
      }
    }

    /** The tick interrupt. */
    method Tick()
      requires Valid()
      modifies thermal
      ensures Valid() && Evolves(old(Heater()), Heater(), [], 1)
      ensures Heater().since == (old(Heater()).since + 1) % Thermal.TICK_RANGE
      ensures Heater().latched ==> old(Heater()).latched || Heater().since > Thermal.LINK_TIMEOUT_MILLIS
    {
      hide Thermal.ModelOK, Thermal.OutputOK, Thermal.Since, After, Accepted, Pins, NeedsAfter;
      SmallModulo(Heater().since);
      Thermal.SinceOneMore(thermal.millisTicks, thermal.lastHostHeartbeat);
      thermal.Tick();
    }

    /** What one event does. */
    method Step(event: Event) returns (ghost got: seq<Frame>)
      requires Valid()
      modifies this, thermal, decoder, decoder.payload
      ensures Valid() && Tells(old(Now()), Now(), event, got)
    {
      hide Thermal.ModelOK, Thermal.OutputOK, After, Accepted, Pins, NeedsAfter, Next, EndsIn, Encoded, ActionOf, Evolves;
      got := [];
      assert stream + [] == stream && Frames() + [] == Frames();
      match event {
        case Arrives(byte, reading, computed, sample) =>
          ghost var before := Heater();
          Spin(reading, computed);
          ghost var between := Heater();
          var accepted := HandleByte(byte, sample);
          got := Several(accepted);
          NotAPing(accepted);
          assert [] + got == got;
          EvolvesTwice(before, between, Heater(), [], got, 0, 0);
        case Idles(reading, computed) => Spin(reading, computed);
        case Millisecond => Tick();
      }
    }

    /** The main result: over any sequence of bytes, looks at the schedule and ticks. */
    method Run(events: seq<Event>) returns (ghost got: seq<Frame>)
      requires Valid()
      modifies this, thermal, decoder, decoder.payload
      ensures Valid() && stream == old(stream) + BytesOf(events) && Frames() == old(Frames()) + got
      ensures got == Accepted(After(NeedSync, old(stream)), BytesOf(events))
      ensures Evolves(old(Heater()), Heater(), got, Milliseconds(events))
      ensures !IsActive(thermal.state) || thermal.linkTimeoutLatched ==> thermal.heaterDuty == 0
      ensures HEATER_PIN !in driven
      ensures Heater().since == SinceAfter(After(NeedSync, old(stream)), old(Heater()).since, events)
      ensures InTime(After(NeedSync, old(stream)), old(Heater()).since, events) && Heater().latched ==> old(Heater()).latched
    {
      hide Thermal.ModelOK, Thermal.OutputOK, Thermal.Since, After, Accepted, Pins, NeedsAfter, Evolves, Next, RunOK, Tells;
      got := [];
      ghost var first := Now();
      NothingRun(first, events) by { assert Heater().since < Thermal.TICK_RANGE; }
      for k := 0 to |events|
        invariant Valid() && RunOK(first, Now(), events[..k], got)
      {
        ghost var before := Now();
        var more := Step(events[k]);
        OneMoreEvent(first, before, Now(), events, k, got, more);
        got := got + more;
      }
      assert events[..|events|] == events;
      RunMeans(first, Now(), events, got);
      HeaterPinIsNotDriven(Frames());
      if !IsActive(thermal.state) || thermal.linkTimeoutLatched {
        Thermal.OffWhen(thermal.state, thermal.heaterDuty, thermal.linkTimeoutLatched,
                        thermal.thermistorConfigured, thermal.heaterConfigured, thermal.modelConfigured);
      }
    }

    ghost function Now(): Trace
      reads this, thermal
    {
      Trace(stream, Frames(), Heater())
    }

    ghost function Heater(): HeaterView
      reads this, thermal
    {
      HeaterView(thermal.state, thermal.linkTimeoutLatched, Thermal.Since(thermal.millisTicks, thermal.lastHostHeartbeat))
    }
  }

  /** What has come over the link so far, and what has become of the heater. */
  datatype Trace = Trace(stream: seq<Byte>, frames: seq<Frame>, heater: HeaterView)

  /** What a step does to it. */
  ghost predicate Tells(a: Trace, b: Trace, e: Event, got: seq<Frame>) {
    && b.stream == a.stream + (if e.Arrives? then [e.byte] else []) && b.frames == a.frames + got
    && got == (if e.Arrives? then Several(Next(After(NeedSync, a.stream), e.byte).1) else [])
    && Evolves(a.heater, b.heater, got, if e.Millisecond? then 1 else 0)
    && b.heater.since == (if e.Millisecond? then (a.heater.since + 1) % Thermal.TICK_RANGE
                          else if got == [Frame(1, [3])] then 0 else a.heater.since)
    && (b.heater.latched ==> a.heater.latched || (e.Millisecond? && b.heater.since > Thermal.LINK_TIMEOUT_MILLIS))
  }

  /** What a run does. */
  ghost predicate RunOK(a: Trace, b: Trace, events: seq<Event>, got: seq<Frame>) {
    var d := After(NeedSync, a.stream);
    && b.stream == a.stream + BytesOf(events) && b.frames == a.frames + got
    && got == Accepted(d, BytesOf(events))
    && Evolves(a.heater, b.heater, got, Milliseconds(events))
    && b.heater.since == SinceAfter(d, a.heater.since, events)
    && (InTime(d, a.heater.since, events) && b.heater.latched ==> a.heater.latched)
  }

  lemma NothingRun(a: Trace, events: seq<Event>)
    requires a.heater.since < Thermal.TICK_RANGE
    ensures RunOK(a, a, events[..0], [])
  {
    hide Evolves;
    NothingEvolves(a.heater);
    FeedNothing(After(NeedSync, a.stream));
  }

  lemma RunMeans(a: Trace, b: Trace, events: seq<Event>, got: seq<Frame>)
    requires RunOK(a, b, events, got)
    ensures b.stream == a.stream + BytesOf(events) && b.frames == a.frames + got
    ensures got == Accepted(After(NeedSync, a.stream), BytesOf(events))
    ensures Evolves(a.heater, b.heater, got, Milliseconds(events))
    ensures b.heater.since == SinceAfter(After(NeedSync, a.stream), a.heater.since, events)
    ensures InTime(After(NeedSync, a.stream), a.heater.since, events) && b.heater.latched ==> a.heater.latched
  {
  }

  lemma OneMoreEvent(a: Trace, b: Trace, c: Trace, events: seq<Event>, k: nat, got: seq<Frame>, more: seq<Frame>)
    requires k < |events| && RunOK(a, b, events[..k], got) && Tells(b, c, events[k], more)
    ensures RunOK(a, c, events[..k+1], got + more)
  {
    hide After, Accepted, Next, Evolves, Several;
    var e, d, bytes := events[k], After(NeedSync, a.stream), BytesOf(events[..k]);
    assert events[..k+1][..k] == events[..k];
    var added := if e.Arrives? then [e.byte] else [];
    assert a.stream + bytes + added == a.stream + (bytes + added);
    assert a.frames + got + more == a.frames + (got + more);
    EvolvesTwice(a.heater, b.heater, c.heater, got, more, Milliseconds(events[..k]), if e.Millisecond? then 1 else 0);
    FeedInParts(NeedSync, a.stream, bytes);
    if e.Arrives? {
      FeedInParts(d, bytes, [e.byte]);
      FeedOne(After(d, bytes), e.byte);
      AcceptedOne(After(d, bytes), e.byte);
      NotAPing(Next(After(d, bytes), e.byte).1);
    } else {
      assert bytes + [] == bytes && got + [] == got;
    }
  }

  lemma AcceptedOne(d: Stage, b: Byte)
    ensures Accepted(d, [b]) == Several(Next(d, b).1)
  {
    hide Next;
    FeedOne(d, b);
  }

  /** A ping of the right version, which is the heartbeat. */
  predicate IsPing(f: Frame) {
    f == Frame(1, [3])
  }

  /** In numbers: which frames do what. */
  lemma ActionMeans(f: Frame)
    ensures ActionOf(f).Heartbeat? <==> IsPing(f)
    ensures ActionOf(f).ResetAll? <==> f == Frame(15, [])
    ensures ActionOf(f).Complete? <==> f == Frame(16, [])
    ensures ActionOf(f).DrivePin? <==>
              && ((f.kind == 3 && |f.payload| == 3) || (f.kind == 4 && |f.payload| == 2) || (f.kind == 6 && |f.payload| == 5))
              && f.payload[0] != 0x09
    ensures ActionOf(f).DrivePin? ==> ActionOf(f).pin == f.payload[0]
    ensures ActionOf(f).ToThermal? <==> f.kind !in {1, 3, 4, 6, 15, 16}
  {
    assert IsPing(f) <==> f.kind == 1 && |f.payload| == 1 && f.payload[0] == 3;
  }

  // What the bytes of a payload say, read from the side of the sender.

  /** Two bytes, the less significant one first. */
  ghost function Word(p: seq<Byte>, i: nat): nat
    requires i + 1 < |p|
  {
    ToNat(p[i]) + 256 * ToNat(p[i+1])
  }

  /** The same as a number with a sign. */
  ghost function SignedWord(p: seq<Byte>, i: nat): int
    requires i + 1 < |p|
  {
    Word(p, i) - if ToNat(p[i+1]) >= 128 then 65536 else 0
  }

  lemma WordsAre(p: seq<Byte>, i: nat)
    requires i + 1 < |p|
    ensures ReadU16(p, i) == Word(p, i) && ReadI16(p, i) == SignedWord(p, i)
  {
    hide ToNat;
    NatOfByte(p[i]);
    NatOfByte(p[i+1]);
  }

  lemma MessageIs(f: Frame, float: FloatReader)
    ensures var p, n, m := f.payload, |f.payload|, MessageOf(f, float);
            && (f.kind == 11 && n == 11 ==>
                  && m.HeaterConfig? && m.frequency == Word(p, 0) && m.upper == SignedWord(p, 2) && m.lower == SignedWord(p, 4)
                  && m.excursion == Word(p, 6) && m.faultTime == Word(p, 8) && m.maxBad == ToNat(p[10]))
            && (f.kind == 12 && n == 3 ==> m.HeaterCommand? && m.command == ToNat(p[0]) && m.target == SignedWord(p, 1))
            && (f.kind == 7 && n == 16 ==>
                  m == Thermal.ThermistorConfig(float(p[0..4]), float(p[4..8]), float(p[8..12]), float(p[12..16])))
            && (f.kind == 8 && n == 16 ==> m == Thermal.ModelA(float(p[0..4]), float(p[4..8]), float(p[8..12]), float(p[12..16])))
            && (f.kind == 9 && n == 16 ==> m == Thermal.ModelB(float(p[0..4]), float(p[4..8]), float(p[8..12]), float(p[12..16])))
            && (f.kind == 10 && n == 5 ==> m == Thermal.ModelC(float(p[0..4]), ReadU8(p, 4)) && ReadU8(p, 4) == ToNat(p[4]))
            && (f.kind == 14 && n == 12 ==> m == Thermal.FeedForward(float(p[0..4]), float(p[4..8]), float(p[8..12])))
            && (m.ModelA? <==> f.kind == 8 && n == 16) && (m.ModelB? <==> f.kind == 9 && n == 16)
            && (m.ModelC? <==> f.kind == 10 && n == 5)
            && (m.MalformedModel? <==> ((f.kind == 8 || f.kind == 9) && n != 16) || (f.kind == 10 && n != 5))
  {
    hide ToNat, Word, SignedWord, ReadU16, ReadI16;
    var p := f.payload;
    if f.kind == 11 && |p| == 11 {
      WordsAre(p, 0);
      WordsAre(p, 2);
      WordsAre(p, 4);
      WordsAre(p, 6);
      WordsAre(p, 8);
    } else if f.kind == 12 && |p| == 3 {
      WordsAre(p, 1);
    } else if |p| == 16 {
      assert p[..4] == p[0..4] && p[12..] == p[12..16];
    } else if |p| == 12 {
      assert p[..4] == p[0..4] && p[8..] == p[8..12];
    } else if |p| == 5 {
      assert p[..4] == p[0..4];
    }
  }

  /** The time since the last heartbeat after some events, by their bytes and ticks alone. */
  function SinceAfter(d: Stage, since: nat, events: seq<Event>): nat {
    var last := |events| - 1;
    if events == [] then since
    else
      match events[last]
      case Millisecond => (SinceAfter(d, since, events[..last]) + 1) % Thermal.TICK_RANGE
      case Arrives(byte, _, _, _) =>
        if Next(After(d, BytesOf(events[..last])), byte).1 == Some(Frame(1, [3])) then 0
        else SinceAfter(d, since, events[..last])
      case Idles(_, _) => SinceAfter(d, since, events[..last])
  }

  /** A ping comes whenever the timeout is about to be over. */
  ghost predicate InTime(d: Stage, since: nat, events: seq<Event>) {
    events == [] ||
    (InTime(d, since, events[..|events|-1])
     && (events[|events|-1].Millisecond? ==> SinceAfter(d, since, events) <= Thermal.LINK_TIMEOUT_MILLIS))
  }

  lemma SinceNow(now: nat)
    ensures Thermal.Since(now, now) == 0
  {
  }

  /** What the promises about the heater speak of; `since` is the time since the
      last heartbeat that the counters show. */
  datatype HeaterView = HeaterView(state: HeaterState, latched: bool, since: nat)

  function Several(f: Option<Frame>): seq<Frame> {
    match f
    case Some(x) => [x]
    case None => []
  }

  /** The decoder accepts an encoded frame on its last byte and nothing before. */
  lemma FrameIsHeardLast(f: Frame)
    requires Fits(f)
    ensures var bytes := Encoded(f); var n := |bytes| - 1;
            && Next(After(NeedSync, bytes[..n]), bytes[n]) == (NeedSync, Some(f))
            && forall k :: 0 <= k < n ==> Next(After(NeedSync, bytes[..k]), bytes[k]).1 == None
  {
    hide Update, After, Accepted, Crc, Next;
    var covered := Covered(f.kind, |f.payload|, f.payload);
    var bytes := Encoded(f);
    hide ToByte;
    var n := |bytes| - 1;
    FeedAllButLast(f.kind, f.payload);
    assert bytes[..n] == [SYNC_BYTE] + covered && bytes[n] == Crc(0, covered);
    LastByte(f.kind, f.payload, Crc(0, covered));
    forall k | 0 <= k < n
      ensures Next(After(NeedSync, bytes[..k]), bytes[k]).1 == None
    {
      NothingBetween(bytes[..n], k);
      assert bytes[..n][..k] == bytes[..k];
    }
  }

  /** If nothing is accepted from some bytes, nothing is with any of them. */
  lemma NothingBetween(bytes: seq<Byte>, k: nat)
    requires k < |bytes| && Accepted(NeedSync, bytes) == []
    ensures Next(After(NeedSync, bytes[..k]), bytes[k]).1 == None
  {
    hide After, Accepted, Next;
    var front, b, rest := bytes[..k], bytes[k], bytes[k+1..];
    assert bytes == (front + [b]) + rest;
    FeedInParts(NeedSync, front + [b], rest);
    FeedInParts(NeedSync, front, [b]);
    AcceptedOne(After(NeedSync, front), b);
  }

  lemma FeedOneMore(d: Stage, bytes: seq<Byte>, k: nat)
    requires k < |bytes|
    ensures After(d, bytes[..k+1]) == Next(After(d, bytes[..k]), bytes[k]).0
  {
    hide Next;
    assert bytes[..k+1][..k] == bytes[..k];
  }

  lemma LastByte(kind: Byte, payload: seq<Byte>, crc: Byte)
    ensures Next(NeedPayload(kind, |payload|, payload, crc), crc) == (NeedSync, Some(Frame(kind, payload)))
  {
  }

  lemma NotAPing(f: Option<Frame>)
    ensures Several(f) == [Frame(1, [3])] <==> f == Some(Frame(1, [3]))
  {
    if f.Some? {
      assert [f.value][0] == f.value;
    }
  }

  /** What may become of the heater while the given frames arrive and `n` milliseconds
      pass. Fault and latch outlive frames that do not clear them, only a command to
      switch on makes the heater active, and without a heartbeat an active heater is
      one whose link looks alive, but for one that has not seen a tick yet. */
  ghost predicate Evolves(before: HeaterView, after: HeaterView, frames: seq<Frame>, n: nat) {
    && (before.state == Fault && (forall f <- frames :: !ClearsFault(f)) ==> after.state == Fault)
    && (before.latched && (forall f <- frames :: !ClearsFault(f)) ==> after.latched)
    && (!IsActive(before.state) && (forall f <- frames :: !Commands(f, ON)) ==> !IsActive(after.state))
    && ((forall f <- frames :: !ActionOf(f).Heartbeat?) ==>
          && after.since == (before.since + n) % Thermal.TICK_RANGE
          && (IsActive(after.state) ==>
                after.since <= Thermal.LINK_TIMEOUT_MILLIS || (n == 0 && IsActive(before.state))))
  }

  lemma FrameEvolves(before: HeaterView, after: HeaterView, f: Frame)
    requires before.state == Fault && after.state != Fault ==> Commands(f, RESET_FAULT)
    requires before.latched && !after.latched ==> Commands(f, RESET_FAULT)
    requires !IsActive(before.state) && IsActive(after.state) ==> Commands(f, ON) && after.since <= Thermal.LINK_TIMEOUT_MILLIS
    requires after.since == before.since < Thermal.TICK_RANGE
    ensures Evolves(before, after, [f], 0)
  {
    hide ActionOf, Commands;
    assert f in [f];
    SmallModulo(before.since);
  }

  lemma NothingEvolves(h: HeaterView)
    requires h.since < Thermal.TICK_RANGE
    ensures Evolves(h, h, [], 0)
  {
  }

  lemma EvolvesTwice(a: HeaterView, b: HeaterView, c: HeaterView, x: seq<Frame>, y: seq<Frame>, m: nat, n: nat)
    requires Evolves(a, b, x, m) && Evolves(b, c, y, n)
    ensures Evolves(a, c, x + y, m + n)
  {
    hide ActionOf, Commands, ClearsFault;
    assert forall f :: f in x + y <==> f in x || f in y;
    ModuloTwice(a.since + m, n);
  }

  lemma SmallModulo(t: nat)
    requires t < Thermal.TICK_RANGE
    ensures t % Thermal.TICK_RANGE == t
    ensures (t + 1) % Thermal.TICK_RANGE == if t + 1 < Thermal.TICK_RANGE then t + 1 else 0
  {
  }

  lemma ModuloTwice(t: nat, n: nat)
    ensures (t % Thermal.TICK_RANGE + n) % Thermal.TICK_RANGE == (t + n) % Thermal.TICK_RANGE
    ensures t % Thermal.TICK_RANGE % Thermal.TICK_RANGE == t % Thermal.TICK_RANGE
  {
  }
}
