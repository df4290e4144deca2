/** The link timeout interlock of the heater (LpcFirmware/src/Thermal.cpp): the
    timer interrupt may come between any two register writes of the main line. */
module HeaterInterlock {
  import opened HeaterStates


  /** How the heater pin is switched. */
  datatype Pin = Pin(timer: bool, running: bool, output: bool, high: bool)

  /** The heater gets no current: the timer is not connected to the pin, and the
      pin is not an output that is high. */
  predicate NoCurrent(p: Pin) {
    !p.timer && !(p.output && p.high)
  }

  /** Off, and the level that would be driven is low as well, so that making the
      pin an output cannot switch the heater on. */
  predicate LowAndOff(p: Pin) {
    !p.timer && !p.high
  }

  /** The register writes of Pwm::Set and Gpio::Configure, in the order in which
      they are made; the timer's own registers do not matter while it is disconnected. */
  datatype Write = StopTimer | SelectGpio | DriveLevel(high: bool) | MakeOutput | SelectTimer | SetUpTimer | StartTimer

  function Effect(p: Pin, w: Write): Pin {
    match w
    case StopTimer => p.(running := false)
    case SelectGpio => p.(timer := false)
    case DriveLevel(h) => p.(high := h)
    case MakeOutput => p.(output := true)
    case SelectTimer => p.(timer := true)
    case SetUpTimer => p
    case StartTimer => p.(running := true)
  }

  function Effects(p: Pin, ws: seq<Write>): Pin
    decreases |ws|
  {
    if ws == [] then p else Effects(Effect(p, ws[0]), ws[1..])
  }

  /** What Pwm::Set writes for the heater. */
  function Writes(duty: nat): seq<Write> {
    if duty == 0 then [StopTimer, SelectGpio, DriveLevel(false), MakeOutput]
    else if duty == 65535 then [StopTimer, SelectGpio, DriveLevel(true), MakeOutput]
    else [SetUpTimer, SelectTimer, StopTimer, SetUpTimer, SetUpTimer, SetUpTimer, SetUpTimer, SetUpTimer, StartTimer]
  }

  /** Where the main line is: outside ApplyHeater, or inside it before its first
      look at the latch, writing, about to look again, or switching off after that. */
  datatype Main =
    | Outside
    | Called(duty: nat)
    | Writing(latchSeen: bool, todo: seq<Write>)
    | SwitchingOff(todo: seq<Write>)

  /** What UpdateHeaterState chooses from. */
  type ActiveState = s: HeaterState | IsActive(s) witness Stable

  /** The places where the main line stores a heater state: behind the look at
      the feed-forward boost, in two cases of the switch of Control, in the three
      commands that set a state, and in SetFault. */
  datatype Site =
    | Boosted(newState: ActiveState)
    | HeatedUp
    | CooledDown
    | SwitchedOn(newState: ActiveState)
    | SwitchedOff
    | Suspend
    | Failed

  /** What the main line reads of the state before it goes on to the store. */
  predicate Guard(site: Site, read: HeaterState) {
    match site
    case Boosted(_) => IsActive(read)
    case HeatedUp => read == Heating
    case CooledDown => read == Cooling
    case SwitchedOn(_) => read != Fault
    case SwitchedOff => read != Fault
    case Suspend => read != Fault
    case Failed => true
  }

  function StoredBy(site: Site): HeaterState {
    match site
    case Boosted(newState) => newState
    case HeatedUp => Stable
    case CooledDown => Stable
    case SwitchedOn(newState) => newState
    case SwitchedOff => Off
    case Suspend => Suspended
    case Failed => Fault
  }

  /** A store of the main line that has been decided on but not made. */
  datatype Pending = Nothing | Will(value: HeaterState)

  datatype State = State(pin: Pin, latched: bool, stored: HeaterState, pending: Pending, main: Main)

  datatype Event =
    | Call(duty: nat)      // the main line calls ApplyHeater
    | ReadLatch
    | WriteNext
    | ReadLatchAgain
    | Return
    | Disable              // Gpio::Init, when the configuration is reset
    | Decide(site: Site)   // the main line reads the state in front of a store
    | Drop                 // and does not make the store after all
    | Store                // or makes it
    | BeginReset           // ResetConfiguration stores that the heater is off, unguarded
    | ClearLatch(thenStore: bool) // it clears the latch; so does resetFault, and stores that afterwards
    | Tick(expired: bool)  // the interrupt

  predicate Enabled(s: State, e: Event) {
    match e
    case Call(_) => s.main.Outside?
    case ReadLatch => s.main.Called?
    case WriteNext => (s.main.Writing? || s.main.SwitchingOff?) && s.main.todo != []
    case ReadLatchAgain => s.main.Writing? && s.main.todo == []
    case Return => s.main.SwitchingOff? && s.main.todo == []
    case Disable => s.main.Outside?
    case Decide(_) => s.main.Outside? && s.pending.Nothing?
    case Drop => s.main.Outside? && s.pending.Will?
    case Store => s.main.Outside? && s.pending.Will?
    case BeginReset => s.main.Outside? && s.pending.Nothing?
    case ClearLatch(_) => s.main.Outside? && s.pending.Nothing?
    case Tick(_) => true
  }

  function Apply(s: State, e: Event): State
    requires Enabled(s, e)
  {
    match e
    case Call(duty) => s.(main := Called(duty))
    case ReadLatch => s.(main := Writing(s.latched, Writes(if s.latched then 0 else s.main.duty)))
    case WriteNext =>
      s.(pin := Effect(s.pin, s.main.todo[0]), main := s.main.(todo := s.main.todo[1..]))
    case ReadLatchAgain =>
      s.(main := if !s.main.latchSeen && s.latched then SwitchingOff(Writes(0)) else Outside)
    case Return => s.(main := Outside)
    case Disable => s.(pin := s.pin.(timer := false, output := false))
    case Decide(site) => if Guard(site, s.stored) then s.(pending := Will(StoredBy(site))) else s
    case Drop => s.(pending := Nothing)
    case Store => s.(stored := s.pending.value, pending := Nothing)
    case BeginReset => s.(stored := Off)
    case ClearLatch(thenStore) => s.(latched := false, pending := if thenStore then Will(Off) else Nothing)
    case Tick(expired) =>
      if IsActive(s.stored) && expired then
        s.(latched := true, pin := Effects(s.pin, Writes(0)), stored := Fault)
      else s
  }

  /** Writes that cannot switch the heater on. */
  ghost predicate Quiet(ws: seq<Write>) {
    forall w <- ws :: w == StopTimer || w == SelectGpio || w == DriveLevel(false) || w == MakeOutput
  }

  /** Once latched, the heater is off, except while the main line is inside a call
      that began before, and then that call will switch it off before it returns. */
  ghost predicate Inv(s: State) {
    match s.main
    case Outside => s.latched ==> LowAndOff(s.pin)
    case Called(_) => s.latched ==> LowAndOff(s.pin)
    case Writing(seen, todo) => seen ==> s.latched && LowAndOff(s.pin) && Quiet(todo)
    case SwitchingOff(todo) => s.latched && Quiet(todo) && LowAndOff(Effects(s.pin, todo))
  }

  lemma QuietKeepsOff(p: Pin, w: Write)
    requires Quiet([w]) && LowAndOff(p)
    ensures LowAndOff(Effect(p, w))
  {
    assert w in [w];
  }

  lemma OffWrites(p: Pin)
    ensures Quiet(Writes(0)) && LowAndOff(Effects(p, Writes(0)))
  {
    var a := Effect(p, StopTimer);
    var b := Effect(a, SelectGpio);
    var c := Effect(b, DriveLevel(false));
    var last := [MakeOutput];
    assert last[1..] == [] && Effects(c, last) == Effect(c, MakeOutput);
    assert [DriveLevel(false), MakeOutput][1..] == last;
    assert Effects(b, [DriveLevel(false), MakeOutput]) == Effects(c, last);
    assert [SelectGpio, DriveLevel(false), MakeOutput][1..] == [DriveLevel(false), MakeOutput];
    assert Effects(a, [SelectGpio, DriveLevel(false), MakeOutput]) == Effects(b, [DriveLevel(false), MakeOutput]);
    assert Writes(0)[1..] == [SelectGpio, DriveLevel(false), MakeOutput];
  }

  /** Quiet writes that lead to off still do so if the heater is off before them. */
  lemma {:induction false} QuietFromOff(p: Pin, ws: seq<Write>)
    requires Quiet(ws) && LowAndOff(p)
    ensures LowAndOff(Effects(p, ws))
    decreases |ws|
  {
    if ws == [] {
    } else {
      assert ws[0] in ws && forall w <- ws[1..] :: w in ws;
      QuietKeepsOff(p, ws[0]);
      QuietFromOff(Effect(p, ws[0]), ws[1..]);
    }
  }

  lemma StepKeepsInv(s: State, e: Event)
    requires Inv(s) && Enabled(s, e)
    ensures Inv(Apply(s, e))
  {
    OffWrites(s.pin);
    match e {
      case WriteNext =>
        var w := s.main.todo[0];
        assert Quiet(s.main.todo) ==> w in s.main.todo && forall v <- s.main.todo[1..] :: v in s.main.todo;
        if s.main.Writing? && s.main.latchSeen { QuietKeepsOff(s.pin, w); }
      case Tick(expired) =>
        if s.main.SwitchingOff? && IsActive(s.stored) && expired {
          QuietFromOff(Effects(s.pin, Writes(0)), s.main.todo);
        }
      case _ =>
    }
  }

  /** The heater is off and stays so whatever the main line does. */
  ghost predicate SafelyOff(s: State) {
    && s.latched && LowAndOff(s.pin)
    && match s.main
       case Outside => true
       case Called(_) => true
       case Writing(seen, todo) => seen && Quiet(todo)
       case SwitchingOff(todo) => Quiet(todo)
  }

  lemma StepKeepsSafelyOff(s: State, e: Event)
    requires SafelyOff(s) && Enabled(s, e) && !e.ClearLatch?
    ensures SafelyOff(Apply(s, e))
  {
    OffWrites(s.pin);
    if e.WriteNext? {
      var w := s.main.todo[0];
      assert w in s.main.todo && forall v <- s.main.todo[1..] :: v in s.main.todo;
      QuietKeepsOff(s.pin, w);
    }
  }

  // Whole runs.

  ghost predicate Legal(s: State, run: seq<Event>)
    decreases |run|
  {
    run == [] || (Enabled(s, run[0]) && Legal(Apply(s, run[0]), run[1..]))
  }

  ghost function After(s: State, run: seq<Event>): State
    requires Legal(s, run)
    decreases |run|
  {
    if run == [] then s else After(Apply(s, run[0]), run[1..])
  }

  lemma {:induction false} RunKeepsInv(s: State, run: seq<Event>)
    requires Inv(s) && Legal(s, run)
    ensures Inv(After(s, run))
    decreases |run|
  {
    if run == [] {
    } else {
      StepKeepsInv(s, run[0]);
      RunKeepsInv(Apply(s, run[0]), run[1..]);
    }
  }

  lemma {:induction false} RunKeepsSafelyOff(s: State, run: seq<Event>)
    requires SafelyOff(s) && Legal(s, run) && forall e <- run :: !e.ClearLatch?
    ensures SafelyOff(After(s, run))
    decreases |run|
  {
    if run == [] {
    } else {
      assert run[0] in run && forall e <- run[1..] :: e in run;
      StepKeepsSafelyOff(s, run[0]);
      RunKeepsSafelyOff(Apply(s, run[0]), run[1..]);
    }
  }

  /** Main result, first half: wherever the interrupt hits, if the latch is set
      when the main line is outside ApplyHeater, the heater is off. */
  lemma LatchedMeansOff(s: State, run: seq<Event>)
    requires s.main.Outside? && !s.latched && Legal(s, run)
    ensures After(s, run).latched && After(s, run).main.Outside? ==> NoCurrent(After(s, run).pin)
  {
    RunKeepsInv(s, run);
  }

  /** Second half: from then on it is off at every moment, inside ApplyHeater as
      well, whatever heater state the main line stores, until the latch is cleared. */
  lemma StaysOffUntilCleared(s: State, run: seq<Event>, more: seq<Event>)
    requires s.main.Outside? && !s.latched && Legal(s, run)
    requires After(s, run).latched && After(s, run).main.Outside?
    requires Legal(After(s, run), more) && forall e <- more :: !e.ClearLatch?
    ensures NoCurrent(After(After(s, run), more).pin) && After(After(s, run), more).latched
  {
    RunKeepsInv(s, run);
    RunKeepsSafelyOff(After(s, run), more);
  }

  // The fault that the interrupt stores.

  /** Nothing in a run takes a fault back. */
  ghost predicate NoReset(run: seq<Event>) {
    forall e <- run :: !e.BeginReset? && !e.ClearLatch?
  }

  ghost predicate AlwaysFaulted(s: State, run: seq<Event>)
    requires Legal(s, run)
    decreases |run|
  {
    s.stored == Fault && (run == [] || AlwaysFaulted(Apply(s, run[0]), run[1..]))
  }

  /** What was pending at the start of a run is stored in it, and it is no fault. */
  predicate LateStore(pending: Pending, run: seq<Event>)
    decreases |run|
  {
    && run != [] && pending.Will? && pending.value != Fault
    && (run[0].Store? || (!run[0].Drop? && LateStore(pending, run[1..])))
  }

  /** No guard that reads a fault leads to the store of anything else. */
  lemma GuardsKeepFault(site: Site)
    ensures Guard(site, Fault) ==> StoredBy(site) == Fault
  {
  }

  /** A stored fault stays exactly as long as no store is made that was decided on
      before it: a guard that is read while the fault is stored lets none pass. */
  lemma {:induction false} FaultStaysIff(s: State, run: seq<Event>)
    requires s.stored == Fault && Legal(s, run) && NoReset(run)
    ensures AlwaysFaulted(s, run) <==> !LateStore(s.pending, run)
    decreases |run|
  {
    if run == [] {
    } else {
      assert run[0] in run && forall e <- run[1..] :: e in run;
      var next := Apply(s, run[0]);
      if run[0].Decide? { GuardsKeepFault(run[0].site); }
      if next.stored == Fault {
        FaultStaysIff(next, run[1..]);
      }
    }
  }

  /** After the interrupt has latched, its fault stays stored at every moment until
      the next reset, exactly if no store follows whose guard was read before. */
  lemma FaultSurvivesIff(s: State, run: seq<Event>)
    requires IsActive(s.stored) && Legal(Apply(s, Tick(true)), run) && NoReset(run)
    ensures AlwaysFaulted(Apply(s, Tick(true)), run) <==> !LateStore(s.pending, run)
  {
    FaultStaysIff(Apply(s, Tick(true)), run);
  }

  /** There is such a store at every place but SetFault: the interrupt may come
      between what is read and the store. The heater is off all the same until the
      latch is cleared. */
  lemma FaultCanBeOverwritten(s: State, site: Site)
    requires s.main.Outside? && !s.latched && IsActive(s.stored) && s.pending.Nothing?
    requires Guard(site, s.stored) && site != Failed
    ensures var run := [Decide(site), Tick(true), Store];
            && Legal(s, run) && !AlwaysFaulted(Apply(Apply(s, Decide(site)), Tick(true)), [Store])
            && After(s, run).stored == StoredBy(site)
            && forall more: seq<Event> :: Legal(After(s, run), more) && (forall e <- more :: !e.ClearLatch?) ==>
                 NoCurrent(After(After(s, run), more).pin) && After(After(s, run), more).latched
  {
    var run := [Decide(site), Tick(true), Store];
    var s1 := Apply(s, Decide(site));
    var s2 := Apply(s1, Tick(true));
    var s3 := Apply(s2, Store);
    assert run[1..] == [Tick(true), Store] && run[1..][1..] == [Store] && run[1..][1..][1..] == [];
    assert Legal(s3, []) && After(s3, []) == s3;
    assert Legal(s2, [Store]) && After(s2, [Store]) == s3;
    assert Legal(s1, run[1..]) && After(s1, run[1..]) == s3;
    OffWrites(s.pin);
    forall more: seq<Event> | Legal(s3, more) && (forall e <- more :: !e.ClearLatch?)
      ensures NoCurrent(After(s3, more).pin) && After(s3, more).latched
    {
      RunKeepsSafelyOff(s3, more);
    }
  }

  /** Without the second look at the latch the heater could be left on: here the
      interrupt comes after the first look, and the writes that follow undo its work. */
  lemma SecondLookIsNeeded(s: State, duty: nat)
    requires s.main == Called(duty) && !s.latched && IsActive(s.stored) && 0 < duty < 65535
    ensures var t := Apply(Apply(s, ReadLatch), Tick(true));
            t.latched && NoCurrent(t.pin) && !NoCurrent(Effects(t.pin, t.main.todo))
  {
    var t := Apply(Apply(s, ReadLatch), Tick(true));
    OffWrites(s.pin);
    Reconnects(t.pin, t.main.todo, 1);
  }

  /** The write that connects the timer to the pin outlasts all that follow it. */
  lemma {:induction false} Reconnects(p: Pin, ws: seq<Write>, k: nat)
    requires k < |ws| && ws[k] == SelectTimer && forall i :: k < i < |ws| ==> ws[i] != SelectGpio
    ensures Effects(p, ws).timer
    decreases |ws|
  {
    if k == 0 {
      StaysConnected(Effect(p, ws[0]), ws[1..]);
    } else {
      Reconnects(Effect(p, ws[0]), ws[1..], k - 1);
    }
  }

  lemma {:induction false} StaysConnected(p: Pin, ws: seq<Write>)
    requires p.timer && forall w <- ws :: w != SelectGpio
    ensures Effects(p, ws).timer
    decreases |ws|
  {
    if ws == [] {
    } else {
      assert ws[0] in ws && forall w <- ws[1..] :: w in ws;
      StaysConnected(Effect(p, ws[0]), ws[1..]);
    }
  }
}
