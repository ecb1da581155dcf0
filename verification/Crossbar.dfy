/** The AXI-Stream crossbar: a software table (`portMapping`) kept beside the
    multiplexer registers of the hardware. */
module Crossbar {
  import opened Text

  const PORT_DISABLED := "DISABLED"

  /** The names of a switch's ports, by role. */
  datatype Ports = Ports(masters: set<string>, slaves: set<string>)

  /** How a call that may throw ends. */
  datatype Outcome = Done(ok: bool) | Thrown

  type Mapping = map<string, string>

  /** `portNameToNum`: characters 1 and 2 of the name; None when it throws. */
  function PortNumber(name: string): Option<int> {
    if name == "" then None else Stoi(name[1..if |name| < 3 then |name| else 3])
  }

  /** The number in a name: its second and third character are digits, or only
      one of them is and the third is none or the second a blank or a sign. */
  ghost predicate Numbered(name: string, n: int) {
    && |name| > 1
    && if name[1] in DIGITS then
         n == if |name| > 2 && name[2] in DIGITS then 10 * Digit(name[1]) + Digit(name[2]) else Digit(name[1])
       else
         && |name| > 2 && name[2] in DIGITS && (name[1] in BLANKS || name[1] in "+-")
         && n == if name[1] == '-' then 0 - Digit(name[2]) else Digit(name[2])
  }

  /** The number a port has; `portNameToNum` throws exactly when there is none. */
  lemma PortNumberIff(name: string, n: int)
    ensures PortNumber(name) == Some(n) <==> Numbered(name, n)
  {
    if |name| == 2 {
      assert name[1..2] == [name[1]];
      StoiOne(name[1]);
    } else if |name| > 2 {
      assert name[1..3] == [name[1], name[2]];
      StoiTwo(name[1], name[2]);
    } else {
      StoiNone();
      assert name != "" ==> name[1..1] == "";
    }
    NoBlankDigits();
    hide Stoi, BLANKS, DIGITS;
  }

  /** Two digits behind the role letter, as in all configurations: whatever follows
      them, they are the number. */
  lemma TwoDigits(name: string, d: nat, e: nat)
    requires |name| > 2 && d < 10 && e < 10 && name[1] == DIGITS[d] && name[2] == DIGITS[e]
    ensures PortNumber(name) == Some(10 * d + e)
  {
    DigitOf(d);
    DigitOf(e);
    hide DIGITS;
    PortNumberIff(name, 10 * d + e);
  }

  /** Different ports of one role carry different numbers. */
  ghost predicate NumbersDistinct(names: set<string>) {
    forall a, b | a in names && b in names && a != b && PortNumber(a).Some? && PortNumber(b).Some? ::
      PortNumber(a).value != PortNumber(b).value
  }

  ghost predicate WellNumbered(ports: Ports) {
    NumbersDistinct(ports.masters) && NumbersDistinct(ports.slaves)
  }

  // ---------------------------------------------------------------- registers

  datatype Mux = Off | From(slave: int)

  /** The double-buffered mux registers. They are written while held; what has been
      written becomes `active` when `committing` is switched on again. */
  datatype Registers = Registers(staged: map<int, Mux>, active: map<int, Mux>, committing: bool) {

    function At(n: int): Mux {
      if n in active then active[n] else Off
    }

    /** `XAxisScr_RegUpdateDisable` */
    function Hold(): Registers {
      this.(committing := false)
    }

    /** `XAxisScr_RegUpdateEnable` */
    function Commit(): Registers {
      Registers(staged, staged, true)
    }

    /** `XAxisScr_MiPortDisable` and `XAxisScr_MiPortEnable` */
    function Write(n: int, mux: Mux): Registers
      requires !committing
    {
      this.(staged := staged[n := mux])
    }
  }

  /** Between hold and commit nothing changes; then all writes take effect at once. */
  lemma SwitchesAtOnce(regs: Registers, n: int, mux: Mux)
    ensures !regs.Hold().committing && regs.Hold().active == regs.active && regs.Hold().staged == regs.staged
    ensures !regs.committing ==>
      && !regs.Write(n, mux).committing && regs.Write(n, mux).active == regs.active
      && regs.Write(n, mux).staged == regs.staged[n := mux]
    ensures regs.Commit().committing && regs.Commit().active == regs.Commit().staged == regs.staged
  {
  }

  /** What the register of a master must hold when the table says `entry`. */
  function MuxFor(entry: string): Mux {
    if entry == PORT_DISABLED || PortNumber(entry).None? then Off else From(PortNumber(entry).value)
  }

  // ---------------------------------------------------------------- the table

  predicate PrefixOk(slave: string, master: string) {
    |slave| > 0 && slave[0] == 'S' && |master| > 0 && master[0] == 'M'
  }

  /** A pair the switch can connect. */
  predicate Connectable(ports: Ports, slave: string, master: string) {
    && slave in ports.slaves && master in ports.masters && PrefixOk(slave, master)
    && PortNumber(slave).Some? && PortNumber(master).Some?
  }

  /** Every entry is either disabled or names a slave that may be connected,
      and no slave feeds two masters. */
  ghost predicate MappingOk(ports: Ports, mapping: Mapping) {
    && mapping.Keys == ports.masters
    && (forall m | m in mapping :: mapping[m] == PORT_DISABLED || Connectable(ports, mapping[m], m))
    && (forall m, m' | m in mapping && m' in mapping && mapping[m] == mapping[m'] != PORT_DISABLED :: m == m')
  }

  /** The registers of all masters agree with the table and every other
      register is off; nothing is waiting to be committed. */
  ghost predicate Agrees(ports: Ports, mapping: Mapping, regs: Registers)
    requires mapping.Keys == ports.masters
  {
    && regs.staged == regs.active
    && (forall m | m in ports.masters && PortNumber(m).Some? ::
          regs.At(PortNumber(m).value) == MuxFor(mapping[m]))
    && (forall n :: (forall m | m in ports.masters :: PortNumber(m) != Some(n)) ==> regs.At(n) == Off)
  }

  function AllDisabled(ports: Ports): Mapping {
    map m | m in ports.masters :: PORT_DISABLED
  }

  function Released(mapping: Mapping, slave: string): Mapping {
    map m | m in mapping :: if mapping[m] == slave then PORT_DISABLED else mapping[m]
  }

  /** How `connectInternal` ends. */
  function ConnectOutcome(ports: Ports, mapping: Mapping, slave: string, master: string): Outcome {
    if slave !in ports.slaves || master !in ports.masters || !PrefixOk(slave, master) then Done(false)
    else if master in mapping && mapping[master] == slave then Done(true)
    else if Connectable(ports, slave, master) then Done(true)
    else Thrown
  }

  /** The table that `connectInternal` leaves. When the new pair cannot be
      numbered the call throws after the slave has lost its old master. */
  function ConnectMapping(ports: Ports, mapping: Mapping, slave: string, master: string): Mapping {
    if slave !in ports.slaves || master !in ports.masters || !PrefixOk(slave, master) then mapping
    else if master in mapping && mapping[master] == slave then mapping
    else if Connectable(ports, slave, master) then Released(mapping, slave)[master := slave]
    else Released(mapping, slave)
  }

  lemma {:induction false} ConnectKeepsMapping(ports: Ports, mapping: Mapping, slave: string, master: string)
    requires MappingOk(ports, mapping)
    ensures MappingOk(ports, ConnectMapping(ports, mapping, slave, master))
  {
    if Accepted(ports, (slave, master)) {
      ReleasedOk(ports, mapping, slave);
    }
  }

  /** Releasing a slave leaves a good table that no longer mentions it. */
  lemma ReleasedOk(ports: Ports, mapping: Mapping, slave: string)
    requires MappingOk(ports, mapping)
    requires slave != PORT_DISABLED
    ensures MappingOk(ports, Released(mapping, slave))
    ensures forall m | m in mapping :: Released(mapping, slave)[m] != slave
  {
  }

  /** One committed register write keeps the agreement, provided the table
      entry of that master changes with it. */
  lemma WriteAgrees(ports: Ports, mapping: Mapping, regs: Registers, master: string, n: int, entry: string)
    requires mapping.Keys == ports.masters && NumbersDistinct(ports.masters)
    requires Agrees(ports, mapping, regs)
    requires master in ports.masters && PortNumber(master) == Some(n)
    ensures Agrees(ports, mapping[master := entry], regs.Hold().Write(n, MuxFor(entry)).Commit())
  {
    var regs' := regs.Hold().Write(n, MuxFor(entry)).Commit();
    assert forall k :: regs'.At(k) == if k == n then MuxFor(entry) else regs.At(k);
  }

  // ---------------------------------------------------------------- runs

  type Call = (string, string)

  function Run(ports: Ports, calls: seq<Call>): Mapping {
    if calls == [] then AllDisabled(ports)
    else
      var n := |calls| - 1;
      ConnectMapping(ports, Run(ports, calls[..n]), calls[n].0, calls[n].1)
  }

  /** A call that passes the three checks at the head of `connectInternal`. */
  predicate Accepted(ports: Ports, call: Call) {
    call.0 in ports.slaves && call.1 in ports.masters && PrefixOk(call.0, call.1)
  }

  /** The most recent accepted call about this slave, or effective call about
      this master, is the one that joined them. No table is involved. */
  predicate LastWord(ports: Ports, calls: seq<Call>, slave: string, master: string) {
    calls != [] &&
    var n := |calls| - 1;
    if !Accepted(ports, calls[n]) then LastWord(ports, calls[..n], slave, master)
    else if calls[n] == (slave, master) then Connectable(ports, slave, master)
    else if calls[n].0 == slave then false
    else if calls[n].1 == master && Connectable(ports, calls[n].0, master) then false
    else LastWord(ports, calls[..n], slave, master)
  }

  lemma {:induction false} RunKeepsMapping(ports: Ports, calls: seq<Call>)
    ensures MappingOk(ports, Run(ports, calls))
    decreases |calls|
  {
    if calls != [] {
      var n := |calls| - 1;
      RunKeepsMapping(ports, calls[..n]);
      ConnectKeepsMapping(ports, Run(ports, calls[..n]), calls[n].0, calls[n].1);
    }
  }

  /** What one call does to the pair of a slave and a master. */
  lemma CallJoins(ports: Ports, mapping: Mapping, call: Call, slave: string, master: string)
    requires MappingOk(ports, mapping) && slave in ports.slaves && slave != PORT_DISABLED
    ensures var mapping' := ConnectMapping(ports, mapping, call.0, call.1);
      (master in mapping' && mapping'[master] == slave) <==>
        if Accepted(ports, call) && call == (slave, master) then Connectable(ports, slave, master)
        else if Accepted(ports, call) && call.0 == slave then false
        else if Accepted(ports, call) && call.1 == master && Connectable(ports, call.0, master) then false
        else master in mapping && mapping[master] == slave
  {
    hide PortNumber;
  }

  /** After any sequence of calls, accepted, refused or thrown, the table joins
      a slave to a master exactly when the last word about them says so. */
  lemma {:induction false} TableIsLastWord(ports: Ports, calls: seq<Call>, slave: string, master: string)
    requires slave in ports.slaves && slave != PORT_DISABLED
    ensures (master in Run(ports, calls) && Run(ports, calls)[master] == slave)
       <==> LastWord(ports, calls, slave, master)
    decreases |calls|
  {
    hide ConnectMapping, MappingOk, Connectable, PrefixOk;
    if calls != [] {
      var n := |calls| - 1;
      TableIsLastWord(ports, calls[..n], slave, master);
      RunKeepsMapping(ports, calls[..n]);
      CallJoins(ports, Run(ports, calls[..n]), calls[n], slave, master);
    }
  }

  // ---------------------------------------------------------------- read back

  /** Register `i` selects the input that has the slave's number. */
  ghost predicate Selects(regs: Registers, i: int, slave: string) {
    exists k :: Numbered(slave, k) && regs.At(i) == From(k)
  }

  lemma SelectsIs(regs: Registers, i: int, slave: string)
    ensures Selects(regs, i, slave) <==> PortNumber(slave).Some? && regs.At(i) == From(PortNumber(slave).value)
  {
    forall k ensures PortNumber(slave) == Some(k) <==> Numbered(slave, k) {
      PortNumberIff(slave, k);
    }
  }

  /** Read back from the hardware: the register with the master's number selects
      the slave exactly when the table joins the two ports. */
  lemma RegistersIdentifyTheSlave(ports: Ports, mapping: Mapping, regs: Registers, slave: string, master: string, n: int)
    requires WellNumbered(ports) && MappingOk(ports, mapping) && Agrees(ports, mapping, regs)
    requires Connectable(ports, slave, master) && Numbered(master, n)
    ensures Selects(regs, n, slave) <==> mapping[master] == slave
    ensures regs.At(n) == Off <==> mapping[master] == PORT_DISABLED
  {
    PortNumberIff(master, n);
    SelectsIs(regs, n, slave);
    assert Connectable(ports, mapping[master], master) || mapping[master] == PORT_DISABLED;
  }

  /** And no register without a master selects anything. */
  lemma OtherRegistersOff(ports: Ports, mapping: Mapping, regs: Registers, i: int)
    requires mapping.Keys == ports.masters && Agrees(ports, mapping, regs)
    requires forall m | m in ports.masters :: !Numbered(m, i)
    ensures regs.At(i) == Off
  {
    forall m | m in ports.masters ensures PortNumber(m) != Some(i) {
      PortNumberIff(m, i);
    }
  }

  /** How the call ends, without reference to the table. */
  lemma OutcomeIff(ports: Ports, mapping: Mapping, slave: string, master: string)
    requires MappingOk(ports, mapping)
    ensures var named := slave in ports.slaves && master in ports.masters && "S" <= slave && "M" <= master;
      && (ConnectOutcome(ports, mapping, slave, master) == Done(true) <==>
            named && (exists k :: Numbered(slave, k)) && (exists n :: Numbered(master, n)))
      && (ConnectOutcome(ports, mapping, slave, master) == Done(false) <==> !named)
  {
    assert "S" <= slave <==> |slave| > 0 && slave[0] == 'S';
    assert "M" <= master <==> |master| > 0 && master[0] == 'M';
    forall name, n ensures PortNumber(name) == Some(n) <==> Numbered(name, n) {
      PortNumberIff(name, n);
    }
    hide PortNumber, Numbered;
  }

  /** What a call does to the registers, in hardware's terms alone: a register that
      selected this slave is switched off; if the call connects, the one with the
      master's number selects the slave; all others stay. */
  ghost predicate Switched(before: Registers, after: Registers, slave: string, master: string, outcome: Outcome) {
    forall i :: SwitchedAt(before, after, slave, master, outcome, i)
  }

  ghost predicate SwitchedAt(before: Registers, after: Registers, slave: string, master: string, outcome: Outcome, i: int) {
    if outcome == Done(true) && Numbered(master, i) then Selects(after, i, slave)
    else if outcome != Done(false) && Selects(before, i, slave) then after.At(i) == Off
    else after.At(i) == before.At(i)
  }

  lemma AgreementSwitches(ports: Ports, mapping: Mapping, before: Registers, after: Registers, slave: string, master: string)
    requires WellNumbered(ports) && MappingOk(ports, mapping) && Agrees(ports, mapping, before)
    requires MappingOk(ports, ConnectMapping(ports, mapping, slave, master))
    requires Agrees(ports, ConnectMapping(ports, mapping, slave, master), after)
    ensures Switched(before, after, slave, master, ConnectOutcome(ports, mapping, slave, master))
  {
    forall i {
      RegisterSwitches(ports, mapping, before, after, slave, master, i);
    }
  }

  lemma RegisterSwitches(ports: Ports, mapping: Mapping, before: Registers, after: Registers,
                         slave: string, master: string, i: int)
    requires WellNumbered(ports) && MappingOk(ports, mapping) && Agrees(ports, mapping, before)
    requires MappingOk(ports, ConnectMapping(ports, mapping, slave, master))
    requires Agrees(ports, ConnectMapping(ports, mapping, slave, master), after)
    ensures SwitchedAt(before, after, slave, master, ConnectOutcome(ports, mapping, slave, master), i)
  {
    var mapping' := ConnectMapping(ports, mapping, slave, master);
    SelectsIs(before, i, slave);
    SelectsIs(after, i, slave);
    PortNumberIff(master, i);
    assert PrefixOk(slave, master) ==> slave != PORT_DISABLED;
    hide Selects, Numbered, PortNumber, PrefixOk, Registers.At, NumbersDistinct;
    if m :| m in ports.masters && PortNumber(m) == Some(i) {
      assert before.At(i) == MuxFor(mapping[m]) && after.At(i) == MuxFor(mapping'[m]);
      SameNumber(ports.masters, m, master);
      SameNumber(ports.slaves, mapping[m], slave);
      hide Agrees;
      assert mapping[m] == PORT_DISABLED || Connectable(ports, mapping[m], m);
      hide MappingOk;
    }
  }

  lemma SameNumber(names: set<string>, a: string, b: string)
    requires NumbersDistinct(names)
    ensures a in names && b in names && PortNumber(a).Some? && PortNumber(a) == PortNumber(b) ==> a == b
  {
  }

  // ---------------------------------------------------------------- the class

  /** `Released`, as far as the masters in `done` are concerned. */
  function ReleasedIn(mapping: Mapping, slave: string, done: set<string>): Mapping {
    map m | m in mapping :: if m in done && mapping[m] == slave then PORT_DISABLED else mapping[m]
  }

  lemma ReleasedMore(mapping: Mapping, slave: string, done: set<string>, master: string)
    requires master in mapping && master !in done
    ensures master in ReleasedIn(mapping, slave, done) && ReleasedIn(mapping, slave, done)[master] == mapping[master]
    ensures ReleasedIn(mapping, slave, done + {master}) ==
      if mapping[master] == slave then ReleasedIn(mapping, slave, done)[master := PORT_DISABLED]
      else ReleasedIn(mapping, slave, done)
  {
  }

  lemma ReleasedEnds(mapping: Mapping, slave: string)
    ensures ReleasedIn(mapping, slave, {}) == mapping
    ensures ReleasedIn(mapping, slave, mapping.Keys) == Released(mapping, slave)
  {
  }

  class AxiStreamSwitch {
    const ports: Ports
    var portMapping: Mapping
    var regs: Registers

    ghost predicate Valid()
      reads this
    {
      && WellNumbered(ports)
      && MappingOk(ports, portMapping)
      && Agrees(ports, portMapping, regs)
    }

    constructor (ports: Ports)
      ensures this.ports == ports
    {
      this.ports := ports;
      portMapping := map[];
      regs := Registers(map[], map[], false);
    }

    /** `init`; `cfgOk` is the verdict of the vendor's initialisation. */
    method Init(cfgOk: bool) returns (ok: bool)
      requires portMapping == map[]
      modifies this
      ensures ok == cfgOk
      ensures ok ==> portMapping == AllDisabled(ports) && Agrees(ports, portMapping, regs)
      ensures ok ==> forall i :: regs.At(i) == Off
      ensures ok ==> (Valid() <==> WellNumbered(ports))
      ensures !ok ==> unchanged(this)
    {
      if !cfgOk {
        return false;
      }
      regs := Registers(map[], map[], true);
      var todo := ports.masters;
      while todo != {}
        invariant todo <= ports.masters
        invariant portMapping == map m | m in ports.masters - todo :: PORT_DISABLED
        invariant regs == Registers(map[], map[], true)
      {
        var master :| master in todo;
        portMapping := portMapping[master := PORT_DISABLED];
        todo := todo - {master};
      }
      return true;
    }

    /** One register write and the table entry that goes with it. */
    method DisableMaster(master: string)
      requires Valid()
      requires master in portMapping && portMapping[master] != PORT_DISABLED
      modifies this
      ensures Valid() && portMapping == old(portMapping)[master := PORT_DISABLED]
    {
      var n := PortNumber(master).value;
      WriteAgrees(ports, portMapping, regs, master, n, PORT_DISABLED);
      regs := regs.Hold();
      regs := regs.Write(n, Off);
      regs := regs.Commit();
      portMapping := portMapping[master := PORT_DISABLED];
    }

    /** The loop of `connectInternal` that takes a slave away from the master
        it feeds so far. */
    method ReleaseSlave(slave: string)
      requires Valid()
      requires slave != PORT_DISABLED
      modifies this
      ensures Valid() && portMapping == Released(old(portMapping), slave)
    {
      hide Valid, Released, ReleasedIn;
      var todo := portMapping.Keys;
      ghost var done: set<string> := {};
      ReleasedEnds(portMapping, slave);
      while todo != {}
        invariant Valid() && todo !! done && todo + done == old(portMapping).Keys
        invariant portMapping == ReleasedIn(old(portMapping), slave, done)
        decreases todo
      {
        var master :| master in todo;
        ReleasedMore(old(portMapping), slave, done, master);
        if portMapping[master] == slave {
          DisableMaster(master);
        }
        todo := todo - {master};
        done := done + {master};
      }
    }

    /** The registers of the new pair; false stands for the exception. */
    method EnableMaster(slave: string, master: string) returns (ok: bool)
      requires Valid() && Accepted(ports, (slave, master))
      requires Connectable(ports, slave, master) ==> MappingOk(ports, portMapping[master := slave])
      modifies this
      ensures Valid() && ok == Connectable(ports, slave, master)
      ensures portMapping == if ok then old(portMapping)[master := slave] else old(portMapping)
    {
      regs := regs.Hold();
      var to, from := PortNumber(master), PortNumber(slave);
      if to.None? || from.None? {
        return false;
      }
      WriteAgrees(ports, portMapping, regs, master, to.value, slave);
      regs := regs.Write(to.value, From(from.value));
      regs := regs.Commit();
      portMapping := portMapping[master := slave];
      return true;
    }

    method ConnectInternal(slave: string, master: string) returns (outcome: Outcome)
      requires Valid()
      modifies this
      ensures Valid()
      ensures outcome == ConnectOutcome(ports, old(portMapping), slave, master)
      ensures portMapping == ConnectMapping(ports, old(portMapping), slave, master)
      ensures Switched(old(regs), regs, slave, master, outcome)
    {
      assert portMapping.Keys == ports.masters;
      ConnectKeepsMapping(ports, portMapping, slave, master);
      hide Switched, MappingOk, WellNumbered, Agrees, Connectable, Released;
      if slave !in ports.slaves || master !in ports.masters || !PrefixOk(slave, master) {
        AgreementSwitches(ports, portMapping, regs, regs, slave, master);
        return Done(false);
      }
      if portMapping[master] == slave {
        AgreementSwitches(ports, portMapping, regs, regs, slave, master);
        return Done(true);
      }
      ReleaseSlave(slave);
      var ok := EnableMaster(slave, master);
      AgreementSwitches(ports, old(portMapping), old(regs), regs, slave, master);
      return if ok then Done(true) else Thrown;
    }
  }
}
