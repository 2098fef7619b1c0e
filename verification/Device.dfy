/** The configuration in flash over the clock's whole life: the boot decision of clock_init and
    config_store_handler in src/clock.c, the access point loop of src/pico_main.c and src/wifi.c. */
module Device {
  import opened Bytes
  import opened CStrings
  import opened FlashConfig
  import opened FormParser
  import opened FormRoundTrip
  import opened DaylightSaving
  import HttpPost
  import HttpRequest
  import TcpServer

  const CONFIG_MAGIC := 0x434c_4f4b   // "CLOK"
  const ERASED := 0xffff_ffff

  /** What the flash holds: a marker and whatever bytes lie behind it. */
  datatype Image = Image(magic: int, config: Config)

  datatype Mode =
    | Off                                    // reset, before clock_init
    | Configuring(running: Option<Config>)   // access point up, with the configuration to start forms from
    | Running(config: Config)

  datatype State = State(flash: Image, mode: Mode)

  datatype Event =
    | Boot(factoryReset: bool)    // clock_init, with the button held or not
    | Trigger                     // the button held while running
    | Post(body: string)          // a complete POST reaches the portal
    | PowerLoss(body: string)     // power fails between erasing and programming for such a POST
    | Restart                     // watchdog, fatal error, or the end of the access point loop

  const EMPTY_CONFIG := Config(Zeros(SSID_SIZE), Zeros(PASSWORD_SIZE), Zeros(HOST_SIZE), 0, DstRule.None, 0, 0, false)

  function Program(s: State, config: Config, invalidate: bool): State {
    State(Image(if invalidate then ERASED else CONFIG_MAGIC, config), if invalidate then Off else s.mode)
  }

  function Submitted(s: State, body: string): Option<Config> {
    if s.mode.Configuring? && Sized(TcpServer.Base(s.mode.running))
    then ApplyForm(TcpServer.Base(s.mode.running), body) else Option.None
  }

  function Step(s: State, e: Event): State {
    match e
    case Boot(factoryReset) =>
      if s.mode != Off then s
      else if factoryReset then Program(s, EMPTY_CONFIG, true)
      else if s.flash.magic == CONFIG_MAGIC then s.(mode := Running(s.flash.config))
      else s.(mode := Configuring(Option.None))
    case Trigger => if s.mode.Running? then s.(mode := Configuring(Some(s.mode.config))) else s
    case Post(body) => if Submitted(s, body).Some? then Program(s, Submitted(s, body).value, false) else s
    case PowerLoss(body) => if Submitted(s, body).Some? then State(Image(ERASED, EMPTY_CONFIG), Off) else s
    case Restart => s.(mode := Off)
  }

  ghost function StateAt(flash: Image, events: seq<Event>, n: nat): State
    requires n <= |events|
  {
    if n == 0 then State(flash, Off) else Step(StateAt(flash, events, n - 1), events[n - 1])
  }

  predicate Sound(flash: Image) {
    flash.magic == CONFIG_MAGIC ==> Valid(flash.config)
  }

  predicate Inv(s: State) {
    && Sound(s.flash)
    && (s.mode.Running? ==> Valid(s.mode.config))
    && (s.mode.Configuring? && s.mode.running.Some? ==> Valid(s.mode.running.value))
  }

  lemma StepKeepsInv(s: State, e: Event)
    requires Inv(s)
    ensures Inv(Step(s, e))
  {
    if e.Post? && s.mode.Configuring? {
      DefaultsValid();
      ApplyFormKeepsValid(TcpServer.Base(s.mode.running), e.body);
    }
  }

  /** In every run of boots, factory resets, access point sessions, POSTs, power losses and restarts, a flash
      image that carries the magic holds a valid configuration, if the first one did or lacked the magic;
      and so does whatever the clock runs with. */
  lemma {:induction false} FlashStaysValid(flash: Image, events: seq<Event>, n: nat)
    requires Sound(flash) && n <= |events|
    ensures var s := StateAt(flash, events, n);
            Inv(s) && (s.flash.magic == CONFIG_MAGIC ==> Valid(s.flash.config))
  {
    if n > 0 {
      FlashStaysValid(flash, events, n - 1);
      StepKeepsInv(StateAt(flash, events, n - 1), events[n - 1]);
    }
  }

  /** Configuring works end to end: in any reachable access point session, posting a form for acceptable
      settings and rebooting makes the clock run with exactly the configuration that holds them. */
  lemma PostedConfigRuns(flash: Image, events: seq<Event>, n: nat, settings: Settings, es: seq<Entry>)
    requires Sound(flash) && n <= |events| && StateAt(flash, events, n).mode.Configuring?
    requires Acceptable(settings) && FormFor(es, settings)
    ensures es != []
    ensures var s := StateAt(flash, events, n);
            Step(Step(Step(s, Post(Join(Tokens(es)))), Restart), Boot(false)).mode == Running(Holding(settings))
  {
    hide ApplyForm, Step, StateAt, Valid, Acceptable, FormFor, Sound, Join, TcpServer.Base;
    var s := StateAt(flash, events, n);
    BaseIsValid(flash, events, n);
    FormRestoresConfig(TcpServer.Base(s.mode.running), settings, es);
    PostThenBoot(s, Join(Tokens(es)), Holding(settings));
  }

  lemma BaseIsValid(flash: Image, events: seq<Event>, n: nat)
    requires Sound(flash) && n <= |events| && StateAt(flash, events, n).mode.Configuring?
    ensures var base := TcpServer.Base(StateAt(flash, events, n).mode.running); Valid(base) && Sized(base)
  {
    FlashStaysValid(flash, events, n);
    DefaultsValid();
  }

  lemma PostThenBoot(s: State, body: string, t: Config)
    requires s.mode.Configuring? && Sized(TcpServer.Base(s.mode.running))
    requires ApplyForm(TcpServer.Base(s.mode.running), body) == Some(t)
    ensures Step(Step(Step(s, Post(body)), Restart), Boot(false)).mode == Running(t)
  {
    hide ApplyForm;
  }

  /** A session triggered while the clock runs edits the running configuration: after a form with any of the keys
      and a reboot, each key that was present has set its field, and all other fields are as they were. */
  lemma TriggeredSessionEdits(flash: Image, events: seq<Event>, n: nat, settings: Settings, es: seq<Entry>)
    requires Sound(flash) && n <= |events| && StateAt(flash, events, n).mode.Running?
    requires Acceptable(settings) && es != [] && forall i :: 0 <= i < |es| ==> Describes(es[i], settings)
    ensures var s := StateAt(flash, events, n);
            var after := Step(Step(Step(Step(s, Trigger), Post(Join(Tokens(es)))), Restart), Boot(false));
            && after.mode.Running?
            && forall f: Field :: Agrees(after.mode.config, f, if HasField(es, f) then Holding(settings)
                                                               else s.mode.config)
  {
    hide ApplyForm, Acceptable, Describes, Valid, Tokens, Join, Agrees;
    var s := StateAt(flash, events, n);
    FlashStaysValid(flash, events, n);
    PartialForm(s.mode.config, settings, es);
    PostThenBoot(Step(s, Trigger), Join(Tokens(es)), ApplyForm(s.mode.config, Join(Tokens(es))).value);
  }

  /** A factory reset forgets the configuration: the next boot configures from the defaults. */
  lemma FactoryResetForgets(s: State)
    requires s.mode == Off
    ensures Step(Step(s, Boot(true)), Boot(false)).mode == Configuring(Option.None)
    ensures TcpServer.Base(Option.None) == DEFAULTS
  {
  }

  // ----- from TCP segments to the running configuration -----

  /** The portal's calls of store_config, one after the other. */
  function StoreAll(s: State, configs: seq<Config>): State
    decreases |configs|
  {
    if configs == [] then s else StoreAll(Program(s, configs[0], false), configs[1..])
  }

  /** A Post is what the portal's callback stores for a complete form. */
  lemma PostIsStore(s: State, body: string)
    requires s.mode.Configuring? && Sized(TcpServer.Base(s.mode.running))
    ensures Step(s, Post(body))
            == StoreAll(s, TcpServer.StoredFor(TcpServer.Base(s.mode.running), HttpRequest.Form(body)))
  {
    hide ApplyForm;
    var stored := TcpServer.StoredFor(TcpServer.Base(s.mode.running), HttpRequest.Form(body));
    if stored != [] {
      assert stored[1..] == [];
    }
  }

  /** The segments are a whole POST of `body`, and none of them ends inside the Content-Length value. */
  ghost predicate Carry(segments: seq<string>, body: string, m: string, at: nat, end: nat, blank: nat) {
    && HttpRequest.WholePost(m, at, end, blank) && blank + 4 <= |m| && m[blank + 4..] == body
    && HttpRequest.Concat(segments) == m && (forall i :: 0 <= i < |segments| ==> segments[i] != "")
    && HttpRequest.FirstBadCut(at, end, 0, segments) == |segments|
  }

  /** There is such a POST for all acceptable settings in 8-bit characters and any request line that leaves
      room for it. */
  lemma EveryConfigCanBePosted(s: Settings, line: string)
    requires Acceptable(s) && EightBit(s.ssid) && EightBit(s.password) && EightBit(s.ntpServer)
    requires HttpPost.RequestLine(line) && |line| + FORM_MAX + 28 < HttpRequest.BUFFER_SIZE
    ensures exists es, m, at, end, blank ::
              FormFor(es, s) && es != [] && Carry([m], Join(Tokens(es)), m, at, end, blank)
  {
    hide Acceptable, FormFor, Tokens, Join, HttpPost.RequestLine, HttpPost.PostOf, HttpRequest.WholePost;
    EveryConfigHasShortForm(s);
    var es :| FormFor(es, s) && es != [] && |Join(Tokens(es))| <= FORM_MAX && NoNul(Join(Tokens(es)));
    var body := Join(Tokens(es));
    var m, at, end := HttpPost.PostOf(line, body), HttpPost.LengthAt(line), HttpPost.LengthEnd(line, body);
    HttpPost.PostIsWhole(line, body);
    OneSegment(m, at, end);
    assert Carry([m], body, m, at, end, end);
  }

  lemma OneSegment(m: string, at: nat, end: nat)
    requires end + 2 <= |m|
    ensures HttpRequest.Concat([m]) == m && HttpRequest.FirstBadCut(at, end, 0, [m]) == 1
  {
    assert [m][1..] == [];
    assert m + "" == m;
  }

  /** In any reachable access point session, a POST of a form for acceptable settings, received in such
      segments, makes the clock run with exactly the configuration that holds the settings. */
  lemma PostedSegmentsRun(flash: Image, events: seq<Event>, n: nat, settings: Settings, es: seq<Entry>,
                          m: string, at: nat, end: nat, blank: nat, segments: seq<string>)
    requires Sound(flash) && n <= |events| && StateAt(flash, events, n).mode.Configuring?
    requires Acceptable(settings) && FormFor(es, settings)
    ensures var s := StateAt(flash, events, n); var base := TcpServer.Base(s.mode.running);
            && es != [] && Sized(base)
            && (Carry(segments, Join(Tokens(es)), m, at, end, blank) ==>
                  var stored := TcpServer.StoredForAll(base, HttpRequest.Verdicts(HttpRequest.Judge, "", segments));
                  Step(Step(StoreAll(s, stored), Restart), Boot(false)).mode == Running(Holding(settings)))
  {
    hide ApplyForm, Step, StateAt, Valid, Acceptable, FormFor, Sound, Join, TcpServer.Base, HttpRequest.WholePost;
    hide HttpRequest.Judge, HttpRequest.Verdicts, HttpRequest.FirstBadCut, TcpServer.StoredFor, TcpServer.StoredForAll;
    var s := StateAt(flash, events, n);
    var base := TcpServer.Base(s.mode.running);
    BaseIsValid(flash, events, n);
    PostedConfigRuns(flash, events, n, settings, es);
    if Carry(segments, Join(Tokens(es)), m, at, end, blank) {
      TcpServer.PostStoresOnce(base, m, at, end, blank, segments);
      PostIsStore(s, Join(Tokens(es)));
    }
  }

  /** Programming is left alone by everything but an accepted POST and a factory reset. */
  predicate Reprograms(s: State, e: Event) {
    match e
    case Boot(factoryReset) => factoryReset && s.mode == Off
    case Post(body) => Submitted(s, body).Some?
    case PowerLoss(body) => Submitted(s, body).Some?
    case _ => false
  }

  /** A configuration lasts: however often the clock restarts, until an accepted POST or a factory reset it
      boots into the same configuration. */
  lemma {:induction false} ConfigPersists(flash: Image, events: seq<Event>, i: nat, j: nat)
    requires i <= j <= |events|
    requires forall k :: i <= k < j ==> !Reprograms(StateAt(flash, events, k), events[k])
    ensures StateAt(flash, events, j).flash == StateAt(flash, events, i).flash
    ensures var s := StateAt(flash, events, j);
            s.flash.magic == CONFIG_MAGIC && s.mode == Off ==>
              Step(s, Boot(false)).mode == Running(StateAt(flash, events, i).flash.config)
    decreases j
  {
    if i < j {
      ConfigPersists(flash, events, i, j - 1);
      UnlessReprogrammed(StateAt(flash, events, j - 1), events[j - 1]);
    }
  }

  lemma UnlessReprogrammed(s: State, e: Event)
    ensures !Reprograms(s, e) ==> Step(s, e).flash == s.flash
    ensures Reprograms(s, e) && !e.Post? ==> Step(s, e).flash.magic != CONFIG_MAGIC && Step(s, e).mode == Off
  {
    hide ApplyForm;
  }

  class Clock {
    var flash: Image
    var mode: Mode

    function Now(): State
      reads this
    {
      State(flash, mode)
    }

    constructor (flash: Image)
      ensures Now() == State(flash, Off)
    {
      this.flash, mode := flash, Off;
    }

    /** config_store_handler: the whole page is rewritten; an invalidating store reboots. */
    method ConfigStoreHandler(config: Config, invalidate: bool) returns (ok: bool)
      modifies this
      ensures ok && Now() == Program(old(Now()), config, invalidate)
    {
      flash := Image(if invalidate then ERASED else CONFIG_MAGIC, config);
      if invalidate {
        mode := Off;
      }
      return true;
    }

    /** The boot decision of clock_init. */
    method ClockInit(factoryReset: bool)
      requires mode == Off
      modifies this
      ensures Now() == Step(old(Now()), Boot(factoryReset))
    {
      if factoryReset {
        var _ := ConfigStoreHandler(EMPTY_CONFIG, true);
        return;
      }
      if flash.magic == CONFIG_MAGIC {
        mode := Running(flash.config);
      } else {
        mode := Configuring(Option.None);
      }
    }

    /** The main loop's reaction to ap_mode_triggered. */
    method StartAccessPoint()
      requires mode.Running?
      modifies `mode
      ensures Now() == Step(old(Now()), Trigger)
    {
      mode := Configuring(Some(mode.config));
    }

    /** The portal's store_config call for a complete POST. */
    method HandlePost(body: string)
      requires mode.Configuring? && Sized(TcpServer.Base(mode.running))
      modifies this
      ensures Now() == Step(old(Now()), Post(body))
    {
      var config := ApplyForm(TcpServer.Base(mode.running), body);
      if config.Some? {
        var _ := ConfigStoreHandler(config.value, false);
      }
    }

    /** Power fails while the page for such a POST is erased and not yet programmed. */
    method LosePower(body: string)
      requires mode.Configuring? && Sized(TcpServer.Base(mode.running))
      modifies this
      ensures Now() == Step(old(Now()), PowerLoss(body))
    {
      var config := ApplyForm(TcpServer.Base(mode.running), body);
      if config.Some? {
        flash, mode := Image(ERASED, EMPTY_CONFIG), Off;
      }
    }

    /** An event, where it can occur. */
    method HandleEvent(e: Event)
      modifies this
      ensures Now() == Step(old(Now()), e)
    {
      hide ApplyForm;
      match e
      case Boot(factoryReset) => if mode == Off { ClockInit(factoryReset); }
      case Trigger => if mode.Running? { StartAccessPoint(); }
      case Post(body) => if mode.Configuring? && Sized(TcpServer.Base(mode.running)) { HandlePost(body); }
      case PowerLoss(body) => if mode.Configuring? && Sized(TcpServer.Base(mode.running)) { LosePower(body); }
      case Restart => mode := Off;
    }

    /** The clock's whole life is a run of these events. */
    method Lifetime(events: seq<Event>)
      requires mode == Off
      modifies this
      ensures Now() == StateAt(old(flash), events, |events|)
    {
      hide Step;
      for n := 0 to |events|
        invariant Now() == StateAt(old(flash), events, n)
      {
        HandleEvent(events[n]);
      }
    }
  }
}
