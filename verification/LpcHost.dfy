/** What the main board sends to the heater processor
    (RepRapFirmware/src/Hardware/SAM4E/LpcInterface.cpp), and that it is understood. */
module LpcHost {
  import opened Crc8
  import opened LpcProtocol
  import opened HeaterStates
  import opened Firmware
  import Thermal

  /** PutFloat: four bytes, which the other side reads back. */
  type FloatWriter = Thermal.Float -> seq<Byte>

  ghost predicate Inverse(put: FloatWriter, float: FloatReader) {
    forall x: Thermal.Float :: |put(x)| == 4 && float(put(x)) == x
  }

  function PutU8(v: Thermal.u8): seq<Byte> { [ToByte(v)] }

  function PutU16(v: Thermal.u16): (p: seq<Byte>)
    ensures |p| == 2
  {
    var n: nat := v;
    [ToByte(n % 0x100), ToByte(n / 0x100)]
  }

  /** The cast to an unsigned number in front of PutU16. */
  function PutI16(v: Thermal.i16): (p: seq<Byte>)
    ensures |p| == 2
  {
    PutU16(if v < 0 then v + 0x1_0000 else v)
  }

  /** The frame for a message; of what a sender never means no frame. */
  function FrameOf(m: Thermal.Message, put: FloatWriter): Frame {
    match m
    case ThermistorConfig(r25, beta, shC, pullupR) => Frame(7, put(r25) + put(beta) + put(shC) + put(pullupR))
    case ModelA(heating, basicCooling, fanCooling, exponent) =>
      Frame(8, put(heating) + put(basicCooling) + put(fanCooling) + put(exponent))
    case ModelB(deadTime, maxPwm, kP, recipTi) => Frame(9, put(deadTime) + put(maxPwm) + put(kP) + put(recipTi))
    case ModelC(tD, flags) => Frame(10, put(tD) + PutU8(flags))
    case HeaterConfig(frequency, upper, lower, excursion, faultTime, maxBad) =>
      Frame(11, PutU16(frequency) + PutI16(upper) + PutI16(lower) + PutU16(excursion) + PutU16(faultTime) + PutU8(maxBad))
    case HeaterCommand(command, target) => Frame(12, PutU8(command) + PutI16(target))
    case FeedForward(fan, pwmBoost, temperatureBoost) => Frame(14, put(fan) + put(pwmBoost) + put(temperatureBoost))
    case _ => Frame(0, [])
  }

  lemma WordIsRead(p: seq<Byte>, i: nat, v: Thermal.u16)
    requires i + 1 < |p| && p[i..i+2] == PutU16(v)
    ensures ReadU16(p, i) == v && Word(p, i) == v
    ensures ReadI16(p, i) == SignedWord(p, i) == if v < 0x8000 then v else v - 0x1_0000
  {
    hide ToNat, ToByte;
    var n: nat := v;
    ByteOfNat(n % 0x100);
    ByteOfNat(n / 0x100);
    assert p[i] == p[i..i+2][0] && p[i+1] == p[i..i+2][1];
    WordsAre(p, i);
  }

  lemma SignedWordIsRead(p: seq<Byte>, i: nat, v: Thermal.i16)
    requires i + 1 < |p| && p[i..i+2] == PutI16(v)
    ensures ReadI16(p, i) == v && SignedWord(p, i) == v
  {
    hide ReadI16, SignedWord, ReadU16, Word, PutU16;
    WordIsRead(p, i, if v < 0 then v + 0x1_0000 else v);
  }

  lemma ByteIsRead(p: seq<Byte>, i: nat, v: Thermal.u8)
    requires i < |p| && p[i] == ToByte(v)
    ensures ReadU8(p, i) == v == ToNat(p[i])
  {
    ByteOfNat(v);
  }

  lemma FourParts(a: seq<Byte>, b: seq<Byte>, c: seq<Byte>, d: seq<Byte>)
    requires |a| == |b| == |c| == |d| == 4
    ensures var p := a + b + c + d; |p| == 16 && p[0..4] == a && p[4..8] == b && p[8..12] == c && p[12..16] == d
    ensures var p := a + b + c; |p| == 12 && p[0..4] == a && p[4..8] == b && p[8..12] == c
  {
  }

  lemma ConfigRoundTrip(m: Thermal.Message, put: FloatWriter, float: FloatReader)
    requires m.HeaterConfig?
    ensures Fits(FrameOf(m, put)) && MessageOf(FrameOf(m, put), float) == m
    ensures |FrameOf(m, put).payload| == 11
  {
    hide ReadU16, ReadI16, ReadU8, PutU16, PutI16, Word, SignedWord, ToNat;
    var a, b, c, d, e, f := PutU16(m.frequency), PutI16(m.upper), PutI16(m.lower), PutU16(m.excursion), PutU16(m.faultTime), PutU8(m.maxBad);
    var p := a + b + c + d + e + f;
    assert p[0..2] == a && p[2..4] == b && p[4..6] == c && p[6..8] == d && p[8..10] == e && p[10] == f[0];
    WordIsRead(p, 0, m.frequency);
    SignedWordIsRead(p, 2, m.upper);
    SignedWordIsRead(p, 4, m.lower);
    WordIsRead(p, 6, m.excursion);
    WordIsRead(p, 8, m.faultTime);
    ByteIsRead(p, 10, m.maxBad);
  }

  lemma CommandRoundTrip(m: Thermal.Message, put: FloatWriter, float: FloatReader)
    requires m.HeaterCommand?
    ensures Fits(FrameOf(m, put)) && MessageOf(FrameOf(m, put), float) == m
  {
    hide ReadU16, ReadI16, ReadU8, PutU16, PutI16, Word, SignedWord, ToNat;
    var p := PutU8(m.command) + PutI16(m.target);
    assert p[1..3] == PutI16(m.target);
    ByteIsRead(p, 0, m.command);
    SignedWordIsRead(p, 1, m.target);
  }

  /** Whatever the main board has to say to the heater controller, all fields of it
      and in every range, the heater processor understands just that. */
  lemma RoundTrip(m: Thermal.Message, put: FloatWriter, float: FloatReader)
    requires Inverse(put, float) && !m.MalformedModel? && !m.Ignored?
    ensures Fits(FrameOf(m, put)) && MessageOf(FrameOf(m, put), float) == m && ActionOf(FrameOf(m, put)).ToThermal?
  {
    MessageIs(FrameOf(m, put), float);
    hide MessageOf, ReadU16, ReadI16, ReadU8, PutU16, PutI16, ToNat, Word, SignedWord;
    match m {
      case HeaterConfig(_, _, _, _, _, _) => ConfigRoundTrip(m, put, float);
      case HeaterCommand(_, _) => CommandRoundTrip(m, put, float);
      case ThermistorConfig(a, b, c, d) => FourParts(put(a), put(b), put(c), put(d));
      case ModelA(a, b, c, d) => FourParts(put(a), put(b), put(c), put(d));
      case ModelB(a, b, c, d) => FourParts(put(a), put(b), put(c), put(d));
      case ModelC(a, flags) =>
        var p := put(a) + PutU8(flags);
        assert p[0..4] == put(a) && p[4] == ToByte(flags);
        ByteIsRead(p, 4, flags);
      case FeedForward(a, b, c) => FourParts(put(a), put(b), put(c), put(c));
    }
  }

  // From the numbers of the main board to those of the heater processor.

  function Truncated(x: real): int {
    if x >= 0.0 then x.Floor else -((-x).Floor)
  }

  /** ToDeciDegrees and ToCentiDegrees, by their factor. */
  function ToTicksOfDegree(value: real, factor: real): Thermal.i16 {
    var scaled := value * factor;
    if scaled < -32768.0 then -32768 else if scaled > 32767.0 then 32767 else Truncated(scaled)
  }

  /** ToUnsignedHundredths and ToUnsignedTenths. */
  function ToUnsigned(value: real, factor: real): Thermal.u16 {
    var scaled := value * factor;
    if scaled <= 0.0 then 0 else if scaled >= 65535.0 then 65535 else scaled.Floor
  }

  /** In range the number arrives with an error of less than one unit, towards zero. */
  lemma TicksAreNear(value: real, factor: real)
    requires -32768.0 <= value * factor <= 32767.0
    ensures var t := ToTicksOfDegree(value, factor) as real;
            -1.0 < value * factor - t < 1.0 && (value * factor >= 0.0 ==> 0.0 <= t <= value * factor)
  {
  }

  lemma ErrorOfTenths(value: real)
    requires -3276.8 <= value <= 3276.7
    ensures -0.1 < ToTicksOfDegree(value, 10.0) as real * 0.1 - value < 0.1
  {
    TicksAreNear(value, 10.0);
    hide ToTicksOfDegree;
  }

  /** A configuration of the heater is heard as it was sent. */
  method SendHeaterConfig(fw: Firmware, put: FloatWriter, m: Thermal.Message, sample: Thermal.Sample)
    requires fw.Valid() && fw.decoder.View() == NeedSync && m.HeaterConfig?
    modifies fw, fw.thermal, fw.decoder, fw.decoder.payload
    ensures fw.Valid() && fw.decoder.View() == NeedSync
    ensures var t := fw.thermal;
            && (t.heaterConfigured <==> m.frequency != 0 && m.upper > m.lower)
            && (t.heaterConfigured ==>
                  && t.heaterFrequency == m.frequency && t.maxBadReadings == m.maxBad
                  && t.limits == Thermal.Limits(m.upper as real * 0.1, m.lower as real * 0.1,
                                                m.excursion as real * 0.01, m.faultTime as real * 0.1))
  {
    hide MessageOf, PutU16, PutI16, ReadU16, ReadI16, ReadU8, Word, SignedWord, ToNat;
    ConfigRoundTrip(m, put, fw.float);
    var f := FrameOf(m, put);
    MessageIs(f, fw.float);
    hide FrameOf;
    fw.HearFrame(f, sample);
  }

  /** ConfigureHeater, sent and heard: the limits of the heater processor are those of
      the main board, up to a tenth of a degree, and it refuses them exactly if they
      are not in order then or there is no frequency. */
  method ConfigureHeater(fw: Firmware, put: FloatWriter, frequency: Thermal.u16, upper: real, lower: real,
                         excursion: real, faultTime: real, maxBad: Thermal.u8, sample: Thermal.Sample)
    requires fw.Valid() && fw.decoder.View() == NeedSync
    requires -3276.8 <= upper <= 3276.7 && -3276.8 <= lower <= 3276.7
    modifies fw, fw.thermal, fw.decoder, fw.decoder.payload
    ensures fw.Valid() && fw.decoder.View() == NeedSync
    ensures var t := fw.thermal;
            && (t.heaterConfigured <==> frequency != 0 && ToTicksOfDegree(upper, 10.0) > ToTicksOfDegree(lower, 10.0))
            && (t.heaterConfigured ==>
                  && t.heaterFrequency == frequency && t.maxBadReadings == maxBad
                  && -0.1 < t.limits.upper - upper < 0.1 && -0.1 < t.limits.lower - lower < 0.1
                  && t.limits.maxTempExcursion == ToUnsigned(excursion, 100.0) as real * 0.01
                  && t.limits.maxFaultTime == ToUnsigned(faultTime, 10.0) as real * 0.1)
  {
    ErrorOfTenths(upper);
    ErrorOfTenths(lower);
    hide ToTicksOfDegree, ToUnsigned;
    var u, l := ToTicksOfDegree(upper, 10.0), ToTicksOfDegree(lower, 10.0);
    SendHeaterConfig(fw, put, Thermal.HeaterConfig(frequency, u, l, ToUnsigned(excursion, 100.0),
                                                   ToUnsigned(faultTime, 10.0), maxBad), sample);
  }

  /** A model message is heard as it was sent. */
  lemma ModelMessageIs(fw: Firmware, m: Thermal.Message, put: FloatWriter)
    requires Inverse(put, fw.float) && (m.ModelA? || m.ModelB? || m.ModelC?)
    ensures Fits(FrameOf(m, put)) && FrameOf(m, put) != Frame(15, []) && fw.ModelMessages(FrameOf(m, put)) == [m]
  {
    hide ReadU16, ReadI16, ReadU8, ToNat;
    match m {
      case ModelA(a, b, c, d) => FourParts(put(a), put(b), put(c), put(d));
      case ModelB(a, b, c, d) => FourParts(put(a), put(b), put(c), put(d));
      case ModelC(a, flags) =>
        var p := put(a) + PutU8(flags);
        assert p[0..4] == put(a) && p[4] == ToByte(flags);
        ByteIsRead(p, 4, flags);
    }
  }

  /** One part of a model is heard as it was sent. */
  method SendModelPart(fw: Firmware, put: FloatWriter, m: Thermal.Message, sample: Thermal.Sample)
    requires fw.Valid() && fw.decoder.View() == NeedSync && Inverse(put, fw.float) && (m.ModelA? || m.ModelB? || m.ModelC?)
    modifies fw, fw.thermal, fw.decoder, fw.decoder.payload
    ensures fw.Valid() && fw.decoder.View() == NeedSync
    ensures fw.thermal.modelMessages == old(fw.thermal.modelMessages) + [m]
    ensures if Thermal.Accepted(old(fw.thermal.modelMessages), m)
            then fw.thermal.model == Thermal.NewModel(old(fw.thermal.modelMessages), m) && fw.thermal.modelConfigured
            else fw.thermal.model == old(fw.thermal.model) && fw.thermal.modelConfigured == old(fw.thermal.modelConfigured)
  {
    ModelMessageIs(fw, m, put);
    var f := FrameOf(m, put);
    hide FrameOf, Thermal.Accepted, Thermal.Assembled, Inverse;
    fw.HearFrame(f, sample);
    assert [m][0] == m;
  }

  /** ConfigureHeaterModel, sent and heard: all of the model is live then, unless its
      numbers are out of range, and in that case nothing of it is. */
  method ConfigureHeaterModel(fw: Firmware, put: FloatWriter, a: Thermal.Message, b: Thermal.Message, tD: Thermal.Float,
                              usePid: bool, inverted: bool, overridden: bool, sample: Thermal.Sample)
    requires fw.Valid() && fw.decoder.View() == NeedSync && Inverse(put, fw.float) && a.ModelA? && b.ModelB?
    modifies fw, fw.thermal, fw.decoder, fw.decoder.payload
    ensures fw.Valid() && fw.decoder.View() == NeedSync
    ensures var whole := Thermal.Model(a.heatingRate, a.basicCoolingRate, a.fanCoolingRate, a.coolingRateExponent,
                                       b.deadTime, b.maxPwm, b.overrideKp, b.overrideRecipTi, tD, usePid, inverted, overridden);
            if Thermal.ModelReady(whole) then fw.thermal.model == whole && fw.thermal.modelConfigured
            else fw.thermal.model == old(fw.thermal.model) && fw.thermal.modelConfigured == old(fw.thermal.modelConfigured)
  {
    var flags := (if usePid then 1 else 0) + (if inverted then 2 else 0) + (if overridden then 4 else 0);
    var c := Thermal.ModelC(tD, flags);
    OnlyTheThird(fw.thermal.modelMessages, a, b, c, usePid, inverted, overridden);
    hide Thermal.Accepted, Thermal.NewModel, Thermal.ModelReady, Inverse;
    SendModelPart(fw, put, a, sample);
    SendModelPart(fw, put, b, sample);
    SendModelPart(fw, put, c, sample);
  }

  /** Of three messages in a row the third completes a model, if it is one. */
  lemma OnlyTheThird(messages: seq<Thermal.Message>, a: Thermal.Message, b: Thermal.Message, c: Thermal.Message,
                     usePid: bool, inverted: bool, overridden: bool)
    requires a.ModelA? && b.ModelB? && c.ModelC?
    requires c.flags == (if usePid then 1 else 0) + (if inverted then 2 else 0) + (if overridden then 4 else 0)
    ensures !Thermal.Accepted(messages, a) && !Thermal.Accepted(messages + [a], b)
    ensures var whole := Thermal.Model(a.heatingRate, a.basicCoolingRate, a.fanCoolingRate, a.coolingRateExponent, b.deadTime,
                                       b.maxPwm, b.overrideKp, b.overrideRecipTi, c.overrideTd, usePid, inverted, overridden);
            && (Thermal.Accepted(messages + [a] + [b], c) <==> Thermal.ModelReady(whole))
            && (Thermal.ModelReady(whole) ==> Thermal.NewModel(messages + [a] + [b], c) == whole)
  {
    hide Thermal.ModelReady;
  }
}
