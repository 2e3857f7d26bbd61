// The rule engine of the time switch (rules.c): a constant table of rules,
// each with a state of a timer and a tri-state value whose sign marks "changed
// since the last broadcast". checkRules evaluates the rules in table order,
// sendChangedRules announces changed values, and the two UDP callbacks answer
// value queries and take in answers from SNTP servers and remote switches.
// The clock, the USB transmit queue and the request generators are inputs of
// the model (Env); relay port writes are kept as a map of port registers.
module Rules {
  import opened Bytes
  import opened Resources
  import opened Wrappers
  import opened Timestamp
  import Bits
  import LibAscii
  import LibSntp

  // ---------------------------------------------------------------------
  // Rule values

  /** ruleValue_t: pvUnknown 0, pvOff 1, pvOn 2, and their negations
      pvOffChanged -1 and pvOnChanged -2. */
  type Value = x: int | -2 <= x <= 2

  const Unknown: Value := 0
  const Off: Value := 1
  const On: Value := 2

  /** boolToRuleValue: false + 1 or true + 1. */
  function FromBool(b: bool): Value
  {
    if b then On else Off
  }

  /** RuleValueToBool: value - 1, read as a bool. */
  function ToBool(v: Value): bool
    requires v > Unknown
  {
    v - 1 != 0
  }

  /** A value without its "changed" mark. */
  function Unflag(v: Value): (r: Value)
    ensures r >= Unknown && (r == v || r == -v)
  {
    if v < Unknown then -v else v
  }

  /** The encoding round-trips, a known value is positive, and the changed
      mark is removed by negation. */
  lemma ValueRoundTrip(b: bool)
    ensures FromBool(b) > Unknown && ToBool(FromBool(b)) == b
    ensures Unflag(-FromBool(b)) == FromBool(b) && -FromBool(b) < Unknown
  {
  }

  /** The value stored for a new result b: unchanged when it is already the
      value, the negated (changed) value otherwise. */
  function Flagged(v: Value, b: bool): (r: Value)
    ensures Unflag(r) == FromBool(b)
    ensures r < Unknown <==> v != FromBool(b)
  {
    var n := FromBool(b);
    if v != n then -n else v
  }

  // ---------------------------------------------------------------------
  // Rules

  /** ruleData_t. dependIndex is the rule whose value is input A; for the
      remote types (SNTP and remote switch) it is the UDP port on the remote
      machine. */
  datatype Rule =
    | Logic(dependIndex: Byte, second: Byte, third: Byte, fourth: Byte, gate: Byte)
    | Relay(dependIndex: Byte, port: nat, bitValue: Byte)
    | TimeSwitch(dependIndex: Byte, backward: bool, hour: Int8, min: Int8, wdays: Int8)
    | Monoflop(dependIndex: Byte, maxTime: bool, hour: Int8, min: Int8, sec: Int8)
    | Sunrise(dependIndex: Byte)
    | Sunset(dependIndex: Byte)
    | Sntp(dependIndex: Byte, ip: Address)
    | Remote(dependIndex: Byte, ip: Address)

  /** ruleType_t >= 0: a rule computed on this machine. */
  predicate IsLocal(r: Rule)
  {
    !(r.Sntp? || r.Remote?)
  }

  /** data.IP of the union: the address of a remote rule, and for a monoflop
      the four bytes of its time data read as an address. */
  function UnionIp(r: Rule): Address
    requires r.Sntp? || r.Remote? || r.Monoflop?
  {
    match r
    case Monoflop(_, maxTime, hour, min, sec) =>
      [if maxTime then 1 else 0, hour % 0x100, min % 0x100, sec % 0x100]
    case Sntp(_, ip) => ip
    case Remote(_, ip) => ip
  }

  /** The rule indices a table may use: every input of a local rule is a rule
      of the table, and the table is indexed by a uint8_t. The loops over
      the table count with a uint8_t (ruleNum_t) up to its size, so a table
      of 256 rules would never let them end. */
  predicate Configured(rules: seq<Rule>)
  {
    |rules| < 0x100
    && forall i :: 0 <= i < |rules| ==> InputsIn(rules[i], |rules|)
  }

  predicate InputsIn(r: Rule, n: nat)
  {
    (IsLocal(r) ==> r.dependIndex < n)
    && (r.Logic? ==> r.second < n && r.third < n && r.fourth < n)
  }

  /** The address of PORTC in the data space of the ATmega32U4. */
  const PortC: nat := 0x28

  /** The rule table of the firmware: an SNTP server, a remote switch, a time
      switch on at 12:00 every day once the time is known, and a relay. */
  const FirmwareRules: seq<Rule> := [
    Sntp(123, [192, 168, 200, 1]),
    Remote(1, [192, 168, 200, 2]),
    TimeSwitch(0, false, 12, 0, 0x7F),
    Relay(3, PortC, 0x20)
  ]

  lemma FirmwareConfigured()
    ensures Configured(FirmwareRules)
  {
  }

  /** ruleState_t. */
  datatype RuleState = RuleState(timer: U32, value: Value)

  /** timerOff: UINT32_MAX. */
  const TimerOff: U32 := 0xFFFF_FFFF

  // ---------------------------------------------------------------------
  // Dependencies

  /** The outputs of checkDependency: its return value (the dependency is
      unknown) and the two variables it may write through pointers. */
  datatype Dependency = Dependency(unknown: bool, value: bool, changed: bool)

  /** checkDependency: no dependency when dependIndex is noDependIndex;
      otherwise unknown when the dependency's value is, and else its value,
      with changed set when the dependency carries the changed mark. */
  function CheckDependency(states: seq<RuleState>, dependIndex: nat, noDependIndex: nat,
                           value: bool, changed: bool): (r: Dependency)
    requires dependIndex == noDependIndex || dependIndex < |states|
    ensures dependIndex == noDependIndex ==> r == Dependency(false, value, changed)
    ensures dependIndex != noDependIndex ==> (r.unknown <==> states[dependIndex].value == Unknown)
    ensures r.unknown ==> r.value == value && r.changed == changed
    ensures changed ==> r.changed
  {
    if dependIndex == noDependIndex then Dependency(false, value, changed)
    else
      var v := states[dependIndex].value;
      if v == Unknown then Dependency(true, value, changed)
      else Dependency(false, ToBool(Unflag(v)), changed || v < Unknown)
  }

  /** A rule that depends on rule d reads the result last stored there, and
      sees a change exactly when that result differed from the previous one. */
  lemma ReadFlagged(states: seq<RuleState>, d: nat, noDependIndex: nat, v: Value, b: bool)
    requires d < |states| && d != noDependIndex && states[d].value == Flagged(v, b)
    ensures CheckDependency(states, d, noDependIndex, false, false)
            == Dependency(false, b, v != FromBool(b))
  {
    ValueRoundTrip(b);
  }

  /** The inputs A to D of a rule and whether any of them changed. */
  datatype Input = Input(a: bool, b: bool, c: bool, d: bool, changed: bool)

  /** The dependency checks at the top of the checkRules loop: None when the
      rule is skipped because an input is unknown. A rule never depends on
      itself, and logic inputs B to D at index 0 are unused. Remote rules
      have no inputs. */
  function Inputs(rules: seq<Rule>, states: seq<RuleState>, i: nat): (r: Option<Input>)
    requires Configured(rules) && |states| == |rules| && i < |rules|
    ensures !IsLocal(rules[i]) ==> r == Some(Input(false, false, false, false, false))
    ensures IsLocal(rules[i]) && rules[i].dependIndex != i && states[rules[i].dependIndex].value == Unknown
            ==> r == None
  {
    var rule := rules[i];
    if !IsLocal(rule) then Some(Input(false, false, false, false, false))
    else
      var a := CheckDependency(states, rule.dependIndex, i, false, false);
      if a.unknown then None
      else if !rule.Logic? then Some(Input(a.value, false, false, false, a.changed))
      else
        var b := CheckDependency(states, rule.second, 0, false, a.changed);
        if b.unknown then None
        else
          var c := CheckDependency(states, rule.third, 0, false, b.changed);
          if c.unknown then None
          else
            var d := CheckDependency(states, rule.fourth, 0, false, c.changed);
            if d.unknown then None
            else Some(Input(a.value, b.value, c.value, d.value, d.changed))
  }

  // ---------------------------------------------------------------------
  // Logic gates

  /** LogicType_t bits: LogicXOR and the inverters of inputs A to E and of
      the output Q. */
  const LogicXor: Byte := 0x40
  const InvE: Byte := 0x20
  const InvD: Byte := 0x10
  const InvC: Byte := 0x08
  const InvB: Byte := 0x04
  const InvA: Byte := 0x02
  const InvQ: Byte := 0x01

  /** The named gates. */
  const LogicRepeat: Byte := 0
  const LogicNot: Byte := InvQ
  const LogicForceOn: Byte := InvE
  const LogicForceOff: Byte := 0x21
  const LogicOr: Byte := 0
  const LogicNor: Byte := 0x01
  const LogicAnd: Byte := 0x3F
  const LogicNand: Byte := 0x3E
  const LogicXnor: Byte := 0x41

  /** (logictype & bit) == bit. */
  predicate Has(gate: Byte, bit: Byte)
  {
    Bits.And(gate, bit) == bit
  }

  function Xor(x: bool, y: bool): bool
  {
    x != y
  }

  /** The ptLogic case of checkRules: each input inverted as the gate says,
      input E fixed false, then their xor or their or, then the output
      inverted as the gate says. */
  function Gate(gate: Byte, a: bool, b: bool, c: bool, d: bool): bool
  {
    var a1 := Xor(a, Has(gate, InvA));
    var b1 := Xor(b, Has(gate, InvB));
    var c1 := Xor(c, Has(gate, InvC));
    var d1 := Xor(d, Has(gate, InvD));
    var e1 := Xor(false, Has(gate, InvE));
    var r := if Has(gate, LogicXor) then Xor(a1, Xor(Xor(Xor(b1, c1), d1), e1))
             else a1 || b1 || c1 || d1 || e1;
    Xor(r, Has(gate, InvQ))
  }

  /** The seven bits of a gate, read by division. */
  lemma GateBits(g: Byte)
    ensures Has(g, InvQ) <==> g % 2 == 1
    ensures Has(g, InvA) <==> (g / 2) % 2 == 1
    ensures Has(g, InvB) <==> (g / 4) % 2 == 1
    ensures Has(g, InvC) <==> (g / 8) % 2 == 1
    ensures Has(g, InvD) <==> (g / 16) % 2 == 1
    ensures Has(g, InvE) <==> (g / 32) % 2 == 1
    ensures Has(g, LogicXor) <==> (g / 64) % 2 == 1
  {
    assert Bits.Pow2(0) == 1 && Bits.Pow2(1) == 2 && Bits.Pow2(2) == 4 && Bits.Pow2(3) == 8;
    assert Bits.Pow2(4) == 16 && Bits.Pow2(5) == 32 && Bits.Pow2(6) == 64;
    Bits.AndSingleBit(g, 0);
    Bits.AndSingleBit(g, 1);
    Bits.AndSingleBit(g, 2);
    Bits.AndSingleBit(g, 3);
    Bits.AndSingleBit(g, 4);
    Bits.AndSingleBit(g, 5);
    Bits.AndSingleBit(g, 6);
  }

  /** OR (and repeat, with unused inputs false) and NOR. */
  lemma GateOr(a: bool, b: bool, c: bool, d: bool)
    ensures Gate(LogicOr, a, b, c, d) == (a || b || c || d)
    ensures Gate(LogicNor, a, b, c, d) == !(a || b || c || d)
    ensures Gate(LogicRepeat, a, false, false, false) == a
    ensures Gate(LogicNot, a, false, false, false) == !a
  {
    GateBits(LogicOr);
    GateBits(LogicNor);
  }

  /** Input E is fixed false, so inverting it forces the or: ForceOn is
      always on and ForceOff always off. */
  lemma GateForced(a: bool, b: bool, c: bool, d: bool)
    ensures Gate(LogicForceOn, a, b, c, d)
    ensures !Gate(LogicForceOff, a, b, c, d)
  {
    GateBits(LogicForceOn);
    assert Has(LogicForceOn, InvE) && !Has(LogicForceOn, InvQ) && !Has(LogicForceOn, LogicXor);
    GateBits(LogicForceOff);
    assert Has(LogicForceOff, InvE) && Has(LogicForceOff, InvQ) && !Has(LogicForceOff, LogicXor);
  }

  /** For the same reason the AND gate (all inputs and the output inverted)
      is constant off, and NAND constant on, whatever the inputs. */
  lemma GateAndConstant(a: bool, b: bool, c: bool, d: bool)
    ensures !Gate(LogicAnd, a, b, c, d)
    ensures Gate(LogicNand, a, b, c, d)
  {
    GateBits(LogicAnd);
    assert Has(LogicAnd, InvE) && Has(LogicAnd, InvQ) && !Has(LogicAnd, LogicXor);
    GateBits(LogicNand);
    assert Has(LogicNand, InvE) && !Has(LogicNand, InvQ) && !Has(LogicNand, LogicXor);
  }

  /** XOR is the parity of the four inputs, XNOR its negation. */
  lemma GateXor(a: bool, b: bool, c: bool, d: bool)
    ensures Gate(LogicXor, a, b, c, d) == Xor(Xor(a, b), Xor(c, d))
    ensures Gate(LogicXnor, a, b, c, d) == !Xor(Xor(a, b), Xor(c, d))
  {
    GateBits(LogicXor);
    assert !Has(LogicXor, InvA) && !Has(LogicXor, InvB) && !Has(LogicXor, InvC) && !Has(LogicXor, InvD);
    assert !Has(LogicXor, InvE) && !Has(LogicXor, InvQ) && Has(LogicXor, LogicXor);
    GateBits(LogicXnor);
    assert !Has(LogicXnor, InvA) && !Has(LogicXnor, InvB) && !Has(LogicXnor, InvC) && !Has(LogicXnor, InvD);
    assert !Has(LogicXnor, InvE) && Has(LogicXnor, InvQ) && Has(LogicXnor, LogicXor);
  }

  // ---------------------------------------------------------------------
  // One run of checkRules

  /** What checkRules reads from outside: time(NULL), the C time library
      with the time zone it holds (__utc_offset and __dst_ptr), and for each rule whether the USB queue had a free transmit slot and
      the int8_t length the request generator returned (negative: an ARP
      request was built instead). */
  datatype Env = Env(now: U32, localtime: U32 -> Tm, mkGmtime: Tm -> U32, zone: Zone,
                     usbFree: seq<bool>, lengths: seq<Int8>)

  predicate Fits(rules: seq<Rule>, env: Env)
  {
    |env.usbFree| == |rules| && |env.lengths| == |rules|
  }

  /** A packet handed to USB_Send. */
  datatype Request =
    | SntpQuery(ip: Address, port: Byte)
    | AsciiQuery(ip: Address, port: Byte)
    | Announce(value: bool)

  datatype Sent = Sent(rule: nat, request: Request, length: nat)

  /** The state checkRules and sendChangedRules act on: the rule states, the
      time cache and the port registers. */
  datatype World = World(states: seq<RuleState>, cache: Cache, ports: map<nat, Byte>)

  /** What the switch statement of checkRules produces for one rule: the
      result (None for resultUnknown), the new timer, and the effects. */
  datatype Outcome = Outcome(result: Option<bool>, timer: U32, cache: Cache,
                             ports: map<nat, Byte>, sent: Option<Sent>)

  /** The port register value, 0 before any write. */
  function PortValue(ports: map<nat, Byte>, port: nat): Byte
  {
    if port in ports then ports[port] else 0
  }

  /** *port |= bitValue or *port &= ~bitValue. */
  function RelayWrite(p: Byte, bitValue: Byte, on: bool): (r: Byte)
    ensures on ==> bitValue <= r
    ensures !on ==> r <= p
  {
    if on then OrByte(p, bitValue) else Bits.And(p, 0xFF - bitValue)
  }

  /** _BV(tm_wday) & wdays: the weekday's bit of the int8_t mask, for the
      weekdays 0 (Sunday) to 6 that localtime gives. */
  predicate WeekdayEnabled(wdays: Int8, wday: int)
  {
    0 <= wday < 8 && Bits.And(wdays % 0x100, Bits.Pow2(wday)) != 0
  }

  /** ptTimeSwitch: off until midnight on a weekday not in the mask;
      otherwise `backward` until the switch time and its negation from then
      to midnight. */
  function TimeSwitchOutcome(r: Rule, w: World, env: Env): (o: Outcome)
    requires r.TimeSwitch?
    ensures o.ports == w.ports && o.sent == None && o.result.Some?
    ensures o.cache.midnight == Refreshed(w.cache, env.now, env.localtime, env.mkGmtime, env.zone).midnight
  {
    var c := Refreshed(w.cache, env.now, env.localtime, env.mkGmtime, env.zone);
    if !WeekdayEnabled(r.wdays, c.tm.wday) then
      Outcome(Some(false), c.midnight, c, w.ports, None)
    else
      var tm := c.tm.(hour := r.hour, min := r.min);
      var switchTime := ToUtc(env.zone, env.mkGmtime(tm));
      if env.now < switchTime then
        Outcome(Some(r.backward), switchTime, Cache(tm, c.midnight), w.ports, None)
      else
        Outcome(Some(!r.backward), c.midnight, Cache(tm, c.midnight), w.ports, None)
  }

  /** ptSNTP and ptRemote (and ptMonoflop, which falls through into them):
      the result stays unknown; with a free USB slot a request to data.IP at
      port dependIndex is sent and answered within 1 s (ARP) or 2 s;
      otherwise the timer is 0, so the next run tries again. */
  function QueryOutcome(r: Rule, i: nat, w: World, env: Env): (o: Outcome)
    requires r.Sntp? || r.Remote? || r.Monoflop?
    requires i < |env.usbFree| && i < |env.lengths|
    ensures o.result == None && o.cache == w.cache && o.ports == w.ports
    ensures o.sent.Some? <==> env.usbFree[i]
    ensures !env.usbFree[i] ==> o.timer == 0
    ensures o.sent.Some? ==> o.sent.value.rule == i && o.sent.value.request == (if r.Sntp? then SntpQuery(UnionIp(r), r.dependIndex) else AsciiQuery(UnionIp(r), r.dependIndex))
  {
    if !env.usbFree[i] then Outcome(None, 0, w.cache, w.ports, None)
    else
      var length := env.lengths[i];
      var request := if r.Sntp? then SntpQuery(UnionIp(r), r.dependIndex)
                     else AsciiQuery(UnionIp(r), r.dependIndex);
      if length < 0 then
        Outcome(None, (env.now + 1) % TimeModulus, w.cache, w.ports, Some(Sent(i, request, -(length as int))))
      else
        Outcome(None, (env.now + 2) % TimeModulus, w.cache, w.ports, Some(Sent(i, request, length)))
  }

  /** The switch statement of checkRules for rule i with inputs x. */
  function RuleOutcome(r: Rule, i: nat, w: World, x: Input, env: Env): (o: Outcome)
    requires i < |env.usbFree| && i < |env.lengths|
    ensures o.result.None? <==> (r.Sntp? || r.Remote? || r.Monoflop?)
    ensures (r.Logic? || r.Relay? || r.Sunrise? || r.Sunset?) ==> o.timer == TimerOff && o.cache == w.cache
    ensures o.sent.Some? ==> o.sent.value.rule == i && env.usbFree[i] && !o.sent.value.request.Announce?
  {
    match r
    case Logic(_, _, _, _, gate) =>
      Outcome(Some(Gate(gate, x.a, x.b, x.c, x.d)), TimerOff, w.cache, w.ports, None)
    case Relay(_, port, bitValue) =>
      var p := RelayWrite(PortValue(w.ports, port), bitValue, x.a);
      Outcome(Some(x.a), TimerOff, w.cache, w.ports[port := p], None)
    case TimeSwitch(_, _, _, _, _) => TimeSwitchOutcome(r, w, env)
    case Monoflop(_, _, _, _, _) => QueryOutcome(r, i, w, env)
    case Sntp(_, _) => QueryOutcome(r, i, w, env)
    case Remote(_, _) => QueryOutcome(r, i, w, env)
    case Sunrise(_) => Outcome(Some(x.a), TimerOff, w.cache, w.ports, None)
    case Sunset(_) => Outcome(Some(x.a), TimerOff, w.cache, w.ports, None)
  }

  /** One pass of the checkRules loop for rule i: skipped while an input is
      unknown, or while no input changed and the timer has not expired;
      otherwise the timer is replaced and a known result stored, negated when
      it differs from the previous value. */
  function Step(rules: seq<Rule>, w: World, i: nat, env: Env): (r: (World, Option<Sent>))
    requires Configured(rules) && |w.states| == |rules| && i < |rules| && Fits(rules, env)
    ensures |r.0.states| == |w.states|
    ensures forall j :: 0 <= j < |w.states| && j != i ==> r.0.states[j] == w.states[j]
    ensures r.1.Some? ==> r.1.value.rule == i && env.usbFree[i] && !r.1.value.request.Announce?
  {
    match Inputs(rules, w.states, i)
    case None => (w, None)
    case Some(x) =>
      if !x.changed && env.now < w.states[i].timer then (w, None)
      else
        var o := RuleOutcome(rules[i], i, w, x, env);
        var v := w.states[i].value;
        var value := if o.result.Some? then Flagged(v, o.result.value) else v;
        (World(w.states[i := RuleState(o.timer, value)], o.cache, o.ports), o.sent)
  }

  /** A rule whose inputs did not change waits for its timer. */
  lemma StepWaits(rules: seq<Rule>, w: World, i: nat, env: Env)
    requires Configured(rules) && |w.states| == |rules| && i < |rules| && Fits(rules, env)
    requires Inputs(rules, w.states, i).Some? && !Inputs(rules, w.states, i).value.changed
    requires env.now < w.states[i].timer
    ensures Step(rules, w, i, env) == (w, None)
  {
  }

  /** After a step, a rule's value is its new result, marked changed exactly
      when it differs from the old value; rules whose result is unknown keep
      their value. */
  lemma StepValue(rules: seq<Rule>, w: World, i: nat, env: Env)
    requires Configured(rules) && |w.states| == |rules| && i < |rules| && Fits(rules, env)
    ensures var v' := Step(rules, w, i, env).0.states[i].value;
            var v := w.states[i].value;
            (rules[i].Sntp? || rules[i].Remote? || rules[i].Monoflop?) ==> v' == v
    ensures var v' := Step(rules, w, i, env).0.states[i].value;
            v' != w.states[i].value ==> v' < Unknown
  {
  }

  /** checkRules: the steps for rules 0 to n - 1, in order, with the packets
      they sent. */
  function Run(rules: seq<Rule>, w: World, env: Env, n: nat): (r: (World, seq<Sent>))
    requires Configured(rules) && |w.states| == |rules| && n <= |rules| && Fits(rules, env)
    ensures |r.0.states| == |rules|
  {
    if n == 0 then (w, [])
    else
      var before := Run(rules, w, env, n - 1);
      var step := Step(rules, before.0, n - 1, env);
      (step.0, before.1 + if step.1.Some? then [step.1.value] else [])
  }

  /** checkRules never changes the value of a remote rule or a monoflop:
      only answers (UDP_Callback_Reply) set them. */
  lemma {:induction false} RunKeepsQueried(rules: seq<Rule>, w: World, env: Env, n: nat, j: nat)
    requires Configured(rules) && |w.states| == |rules| && n <= |rules| && Fits(rules, env)
    requires j < |rules| && (rules[j].Sntp? || rules[j].Remote? || rules[j].Monoflop?)
    ensures Run(rules, w, env, n).0.states[j].value == w.states[j].value
  {
    if n > 0 {
      RunKeepsQueried(rules, w, env, n - 1, j);
      var w1 := Run(rules, w, env, n - 1).0;
      StepValue(rules, w1, n - 1, env);
      assert Run(rules, w, env, n).0 == Step(rules, w1, n - 1, env).0;
    }
  }

  /** Packets that are queries of rules below n whose turn found a free USB
      slot, at most one per rule, in table order. */
  predicate Queries(sent: seq<Sent>, usbFree: seq<bool>, n: nat)
  {
    forall k :: 0 <= k < |sent| ==>
      && sent[k].rule < n && sent[k].rule < |usbFree| && usbFree[sent[k].rule]
      && !sent[k].request.Announce?
      && (k > 0 ==> sent[k - 1].rule < sent[k].rule)
  }

  /** Appending the query of rule n to the queries of rules below n. */
  lemma QueriesAppend(sent: seq<Sent>, usbFree: seq<bool>, n: nat, s: Option<Sent>)
    requires Queries(sent, usbFree, n)
    requires s.Some? ==> s.value.rule == n && n < |usbFree| && usbFree[n] && !s.value.request.Announce?
    ensures Queries(sent + if s.Some? then [s.value] else [], usbFree, n + 1)
  {
  }

  /** Every packet checkRules sends is a query from a remote rule or a
      monoflop whose turn found a free USB slot, one per rule at most, in
      table order. */
  lemma {:induction false} RunSendsQueries(rules: seq<Rule>, w: World, env: Env, n: nat)
    requires Configured(rules) && |w.states| == |rules| && n <= |rules| && Fits(rules, env)
    ensures Queries(Run(rules, w, env, n).1, env.usbFree, n)
  {
    if n > 0 {
      RunSendsQueries(rules, w, env, n - 1);
      var before := Run(rules, w, env, n - 1);
      var w1, sent1 := before.0, before.1;
      var s := Step(rules, w1, n - 1, env).1;
      assert Run(rules, w, env, n).1 == sent1 + if s.Some? then [s.value] else [];
      QueriesAppend(sent1, env.usbFree, n - 1, s);
    }
  }

  // ---------------------------------------------------------------------
  // sendChangedRules

  /** The rule states after sendChangedRules: every changed value whose turn
      found a free USB slot has its mark removed. */
  function Announced(states: seq<RuleState>, usbFree: seq<bool>): (r: seq<RuleState>)
    requires |usbFree| == |states|
    ensures |r| == |states|
    ensures forall j :: 0 <= j < |r| ==> r[j].timer == states[j].timer
    ensures forall j :: 0 <= j < |r| ==> Unflag(r[j].value) == Unflag(states[j].value)
    ensures forall j :: 0 <= j < |r| && usbFree[j] ==> r[j].value >= Unknown
  {
    seq(|states|, j requires 0 <= j < |states| =>
      if states[j].value < Unknown && usbFree[j] then states[j].(value := -states[j].value)
      else states[j])
  }

  /** The broadcasts sendChangedRules sends for rules 0 to n - 1: rule number
      and new value, with the length ASCII_GenerateBroadcast returned. */
  function Announcements(states: seq<RuleState>, usbFree: seq<bool>, lengths: seq<Byte>, n: nat): (r: seq<Sent>)
    requires |usbFree| == |states| && |lengths| == |states| && n <= |states|
    ensures forall k :: 0 <= k < |r| ==> r[k].rule < n && states[r[k].rule].value < Unknown
    ensures forall k :: 0 <= k < |r| ==>
              r[k].request == Announce(ToBool(Unflag(states[r[k].rule].value)))
  {
    if n == 0 then []
    else
      var j := n - 1;
      var v := states[j].value;
      Announcements(states, usbFree, lengths, j)
        + if v < Unknown && usbFree[j] then [Sent(j, Announce(ToBool(-v)), lengths[j])] else []
  }

  /** A result announced by sendChangedRules is the value a dependent rule
      then reads, now unchanged. */
  lemma AnnouncedReadsBack(states: seq<RuleState>, usbFree: seq<bool>, d: nat, v: Value, b: bool)
    requires |usbFree| == |states| && d < |states| && usbFree[d]
    requires states[d].value == Flagged(v, b)
    ensures Announced(states, usbFree)[d].value == FromBool(b)
    ensures CheckDependency(Announced(states, usbFree), d, d + 1, false, false)
            == Dependency(false, b, false)
  {
    ValueRoundTrip(b);
  }

  // ---------------------------------------------------------------------
  // UDP_Callback_Reply

  /** The payloads the callbacks read lie in the buffer: the one byte of an
      ASCII message and the 48 bytes of an SNTP header. */
  predicate Readable(n: nat, off: nat, length: U16)
  {
    (length == 1 ==> off < n) && (length == LibSntp.HeaderLen ==> off + LibSntp.HeaderLen <= n)
  }

  /** Index of the first remote rule for the answer's source address and
      port, or |rules|. */
  function FirstRemote(rules: seq<Rule>, sourceIp: Address, sourcePort: U16): (k: nat)
    ensures k <= |rules|
    ensures k < |rules| ==> !IsLocal(rules[k]) && rules[k].dependIndex == sourcePort && rules[k].ip == sourceIp
    ensures forall j :: 0 <= j < k ==>
              IsLocal(rules[j]) || rules[j].dependIndex != sourcePort || rules[j].ip != sourceIp
  {
    if rules == [] then 0
    else if !IsLocal(rules[0]) && rules[0].dependIndex == sourcePort && rules[0].ip == sourceIp then 0
    else 1 + FirstRemote(rules[1..], sourceIp, sourcePort)
  }

  /** The new state of remote rule r for an answer s of the given length:
      an accepted SNTP answer with a non-zero time sets the value on and the
      timer to the next query, SNTP_TimeBetweenQueries later; a '0' or '1'
      from a remote switch sets the value and stops the timer; any other
      answer leaves the state. */
  function Answered(r: Rule, st: RuleState, s: seq<Byte>, off: nat, length: U16): (n: RuleState)
    requires !IsLocal(r) && Readable(|s|, off, length)
    ensures n == st || n.value == Flagged(st.value, true) || n.value == Flagged(st.value, false)
    ensures r.Sntp? && n != st ==> n.value == Flagged(st.value, true)
    ensures r.Remote? && n != st ==> n.timer == TimerOff
  {
    if r.Sntp? then
      if length == LibSntp.HeaderLen && LibSntp.Acceptable(s[off..off + LibSntp.HeaderLen])
         && LibSntp.NewTime(s[off..off + LibSntp.HeaderLen]) != 0 then
        var t := LibSntp.NewTime(s[off..off + LibSntp.HeaderLen]);
        RuleState((t + SntpTimeBetweenQueries) % TimeModulus, Flagged(st.value, true))
      else st
    else
      match LibAscii.ProcessReply(s, off, length)
      case None => st
      case Some(b) => RuleState(TimerOff, Flagged(st.value, b))
  }

  /** A remote switch's answer to the query of a remote rule: the byte its
      UDP_Callback_Request wrote for value b sets the rule's value to b,
      marked changed when it differs, and stops the rule's timer. */
  lemma RemoteAnswer(r: Rule, st: RuleState, s: seq<Byte>, off: nat, b: bool)
    requires r.Remote? && off < |s|
    ensures Answered(r, st, s[off := LibAscii.Encode(b)], off, 1) == RuleState(TimerOff, Flagged(st.value, b))
  {
    LibAscii.RequestThenReply(s, off, b);
  }

  // ---------------------------------------------------------------------
  // The engine

  /** ruleData with ruleState, the time cache and the port registers. */
  class Engine {
    const rules: seq<Rule>
    const state: array<RuleState>
    const clock: Clock
    var ports: map<nat, Byte>

    ghost predicate Valid()
      reads this
    {
      Configured(rules) && state.Length == |rules|
    }

    /** Everything the engine's operations change, as a value. */
    function Snapshot(): World
      reads this, state, clock
    {
      World(state[..], Cache(clock.tm, clock.nextMidnight), ports)
    }

    /** ruleState zero-initialised: timers 0, values unknown. */
    constructor (rules: seq<Rule>)
      requires Configured(rules)
      ensures Valid() && this.rules == rules && fresh(state) && fresh(clock)
      ensures state[..] == seq(|rules|, _ => RuleState(0, Unknown))
      ensures clock.tm == ZeroTm && clock.nextMidnight == 0 && ports == map[]
    {
      this.rules := rules;
      state := new RuleState[|rules|](_ => RuleState(0, Unknown));
      clock := new Clock();
      ports := map[];
    }

    /** The switch statement of checkRules for rule i. */
    method Evaluate(i: nat, x: Input, env: Env) returns (o: Outcome)
      requires Valid() && i < |rules| && Fits(rules, env)
      modifies clock
      ensures o == RuleOutcome(rules[i], i, old(Snapshot()), x, env)
      ensures clock.tm == o.cache.tm && clock.nextMidnight == o.cache.midnight
    {
      var r := rules[i];
      match r
      case TimeSwitch(_, backward, hour, min, wdays) =>
        var tm := clock.GetStructTm(env.now, env.localtime, env.mkGmtime, env.zone);
        if !WeekdayEnabled(wdays, tm.wday) {
          o := Outcome(Some(false), clock.GetMidnight(), Cache(clock.tm, clock.nextMidnight), ports, None);
        } else {
          var switchTime := clock.CalculateTimestamp(hour, min, env.mkGmtime, env.zone);
          if env.now < switchTime {
            o := Outcome(Some(backward), switchTime, Cache(clock.tm, clock.nextMidnight), ports, None);
          } else {
            o := Outcome(Some(!backward), clock.GetMidnight(), Cache(clock.tm, clock.nextMidnight), ports, None);
          }
        }
      case Logic(_, _, _, _, gate) =>
        o := Outcome(Some(Gate(gate, x.a, x.b, x.c, x.d)), TimerOff, Cache(clock.tm, clock.nextMidnight), ports, None);
      case Relay(_, port, bitValue) =>
        var p := RelayWrite(PortValue(ports, port), bitValue, x.a);
        o := Outcome(Some(x.a), TimerOff, Cache(clock.tm, clock.nextMidnight), ports[port := p], None);
      case Monoflop(_, _, _, _, _) =>
        // The monoflop's own timer computation is overwritten by the
        // ptSNTP / ptRemote code it falls through into.
        o := QueryOutcome(r, i, Snapshot(), env);
      case Sntp(_, _) =>
        o := QueryOutcome(r, i, Snapshot(), env);
      case Remote(_, _) =>
        o := QueryOutcome(r, i, Snapshot(), env);
      case Sunrise(_) =>
        o := Outcome(Some(x.a), TimerOff, Cache(clock.tm, clock.nextMidnight), ports, None);
      case Sunset(_) =>
        o := Outcome(Some(x.a), TimerOff, Cache(clock.tm, clock.nextMidnight), ports, None);
    }

    /** One pass of the checkRules loop. */
    method CheckRule(i: nat, env: Env) returns (s: Option<Sent>)
      requires Valid() && i < |rules| && Fits(rules, env)
      modifies this, state, clock
      ensures Valid()
      ensures (Snapshot(), s) == Step(rules, old(Snapshot()), i, env)
    {
      var input := Inputs(rules, state[..], i);
      if input.None? {
        return None;
      }
      var x := input.value;
      if !x.changed && env.now < state[i].timer {
        return None;
      }
      var o := Evaluate(i, x, env);
      ports := o.ports;
      var v := state[i].value;
      state[i] := RuleState(o.timer, if o.result.Some? then Flagged(v, o.result.value) else v);
      s := o.sent;
    }

    /** checkRules: every rule once, in table order. */
    method CheckRules(env: Env) returns (sent: seq<Sent>)
      requires Valid() && Fits(rules, env)
      modifies this, state, clock
      ensures Valid()
      ensures (Snapshot(), sent) == Run(rules, old(Snapshot()), env, |rules|)
    {
      sent := [];
      var i := 0;
      while i < |rules|
        invariant Valid() && 0 <= i <= |rules|
        invariant (Snapshot(), sent) == Run(rules, old(Snapshot()), env, i)
      {
        var s := CheckRule(i, env);
        sent := sent + if s.Some? then [s.value] else [];
        i := i + 1;
      }
    }

    /** sendChangedRules: each changed rule whose turn finds a free USB slot
        loses its mark and has its value broadcast. */
    method SendChangedRules(usbFree: seq<bool>, lengths: seq<Byte>) returns (sent: seq<Sent>)
      requires Valid() && |usbFree| == |rules| && |lengths| == |rules|
      modifies state
      ensures state[..] == Announced(old(state[..]), usbFree)
      ensures sent == Announcements(old(state[..]), usbFree, lengths, |rules|)
    {
      sent := [];
      ghost var s0 := state[..];
      ghost var announced := Announced(s0, usbFree);
      for i := 0 to |rules|
        invariant forall j :: 0 <= j < i ==> state[j] == announced[j]
        invariant forall j :: i <= j < |rules| ==> state[j] == s0[j]
        invariant sent == Announcements(s0, usbFree, lengths, i)
      {
        var v := state[i].value;
        if v < Unknown && usbFree[i] {
          state[i] := state[i].(value := -v);
          sent := sent + [Sent(i, Announce(ToBool(-v)), lengths[i])];
        }
      }
      assert state[..] == announced;
    }

    /** UDP_Callback_Request: a query for rule `port` is answered with its
        value when the rule exists and its value is known and not marked
        changed (changed values are broadcast instead). */
    method CallbackRequest(frame: array<Byte>, off: nat, port: U16, length: U16) returns (ok: bool)
      requires Valid() && Readable(frame.Length, off, length)
      modifies frame
      ensures ok <==> port < |rules| && state[port].value > Unknown && length == 1
      ensures ok ==> frame[..] == old(frame[..])[off := LibAscii.Encode(ToBool(state[port].value))]
      ensures !ok ==> frame[..] == old(frame[..])
    {
      if port < |rules| && state[port].value > Unknown {
        ok := LibAscii.ProcessRequest(frame, off, length, ToBool(state[port].value));
      } else {
        ok := false;
      }
    }

    /** UDP_Callback_Reply: the answer goes to the first remote rule for its
        source address and port, and to no other. TCNT1 is returned as the
        SNTP layer set it. */
    method CallbackReply(frame: array<Byte>, off: nat, sourceIp: Address, sourcePort: U16, length: U16)
      returns (tcnt1: Option<U16>)
      requires Valid() && Readable(frame.Length, off, length)
      modifies state
      ensures var k := FirstRemote(rules, sourceIp, sourcePort);
              state[..] == if k < |rules| then old(state[..])[k := Answered(rules[k], old(state[k]), frame[..], off, length)]
                           else old(state[..])
    {
      tcnt1 := None;
      var k := 0;
      while k < |rules|
        invariant k <= FirstRemote(rules, sourceIp, sourcePort)
      {
        var r := rules[k];
        if !IsLocal(r) && r.dependIndex == sourcePort && r.ip == sourceIp {
          break;
        }
        k := k + 1;
      }
      if k == |rules| {
        return;
      }
      FirstRemoteIs(rules, sourceIp, sourcePort, k);
      var r := rules[k];
      if r.Sntp? {
        var newTime;
        newTime, tcnt1 := LibSntp.ProcessPacket(frame, off, length);
        if newTime == 0 {
          return;
        }
        state[k] := RuleState((newTime + SntpTimeBetweenQueries) % TimeModulus, Flagged(state[k].value, true));
      } else {
        var answer := LibAscii.ProcessReply(frame[..], off, length);
        if answer.None? {
          return;
        }
        state[k] := RuleState(TimerOff, Flagged(state[k].value, answer.value));
      }
    }
  }

  /** The loop of UDP_Callback_Reply stops at the first match. */
  lemma FirstRemoteIs(rules: seq<Rule>, sourceIp: Address, sourcePort: U16, k: nat)
    requires k < |rules| && k <= FirstRemote(rules, sourceIp, sourcePort)
    requires !IsLocal(rules[k]) && rules[k].dependIndex == sourcePort && rules[k].ip == sourceIp
    ensures FirstRemote(rules, sourceIp, sourcePort) == k
  {
  }
}
