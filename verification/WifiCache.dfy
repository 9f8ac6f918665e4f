/** What the Wi-Fi code keeps in the memory that outlives a deep sleep: the last access point and address. */
module WifiCache {
  import opened Bytes
  import opened Wrappers

  type Ssid = seq<byte>
  type Bssid = seq<byte>
  type Address = seq<byte>

  datatype AuthMethod = WPA2Personal | OtherMethod(code: nat)

  /** An access point that a scan found. */
  datatype AccessPoint = AccessPoint(bssid: Bssid, channel: byte, auth: Option<AuthMethod>)

  /** What the radio is told to join. */
  datatype Target = Target(ssid: Ssid, bssid: Option<Bssid>, channel: Option<byte>, auth: AuthMethod)

  const MAX_STATIC_IP_USES: nat := 10

  datatype Cells = Cells(
    ssid: Option<Ssid>,
    bssid: Option<Bssid>,
    channel: Option<byte>,
    auth: AuthMethod,
    address: Option<Address>,
    addressUses: nat)
  {
    /** Connecting to another network drops the access point, but not yet its channel. */
    function ForNetwork(s: Ssid): Cells {
      if ssid != Some(s) then this.(bssid := None) else this
    }

    function UsesAddress(): bool {
      address.Some? && addressUses < MAX_STATIC_IP_USES
    }

    function AddressTaken(): Cells {
      if UsesAddress() then this.(addressUses := addressUses + 1) else this
    }

    /** The connection task claims the cells for its network. */
    function Claimed(s: Ssid): Cells {
      (if ssid.Some? && ssid.value != s then this.(bssid := None, channel := None, auth := WPA2Personal) else this)
      .(ssid := Some(s))
    }

    function Found(ap: AccessPoint): Cells {
      this.(bssid := Some(ap.bssid), channel := Some(ap.channel), auth := if ap.auth.Some? then ap.auth.value else auth)
    }

    function Leased(a: Address): Cells {
      if address.None? then this.(address := Some(a), addressUses := 0) else this
    }

    function TargetFor(s: Ssid): Target {
      Target(s, bssid, channel, auth)
    }
  }

  const BLANK: Cells := Cells(None, None, None, WPA2Personal, None, 0)

  /** The cells themselves, shared by the main task and the connection task. */
  class RtcMemory {
    var lastSsid: Option<Ssid>
    var lastBssid: Option<Bssid>
    var lastChannel: Option<byte>
    var lastAuthMethod: AuthMethod
    var staticIpConfig: Option<Address>
    var staticIpUses: nat

    ghost function View(): Cells
      reads this
    {
      Cells(lastSsid, lastBssid, lastChannel, lastAuthMethod, staticIpConfig, staticIpUses)
    }

    constructor ()
      ensures View() == BLANK
    {
      lastSsid, lastBssid, lastChannel, lastAuthMethod := None, None, None, WPA2Personal;
      staticIpConfig, staticIpUses := None, 0;
    }

    /**
     The synchronous part of connecting: the access point to start the radio with, if it is
     known, and the address to use without asking for one.  Starting the radio may fail.
     */
    method Connect(ssid: Ssid, radioStarts: bool) returns (target: Option<Target>, address: Option<Address>)
      modifies this
      ensures
        var cells := old(View()).ForNetwork(ssid);
        && target == (if cells.bssid.Some? then Some(cells.TargetFor(ssid)) else None)
        && address == (if radioStarts && cells.UsesAddress() then cells.address else None)
        && View() == if radioStarts then cells.AddressTaken() else cells
    {
      if lastSsid != Some(ssid) {
        lastBssid := None;
      }
      target, address := None, None;
      if lastBssid.Some? {
        target := Some(Target(ssid, lastBssid, lastChannel, lastAuthMethod));
      }
      if !radioStarts {
        return;
      }
      if staticIpConfig.Some? && staticIpUses < MAX_STATIC_IP_USES {
        staticIpUses := staticIpUses + 1;
        address := staticIpConfig;
      }
    }

    /** How the connection task begins. */
    method Claim(ssid: Ssid)
      modifies this
      ensures View() == old(View()).Claimed(ssid)
    {
      if lastSsid.Some? {
        if lastSsid.value != ssid {
          lastBssid := None;
          lastChannel := None;
          lastAuthMethod := WPA2Personal;
        }
      }
      lastSsid := Some(ssid);
    }

    /** A scan found an access point. */
    method Remember(ap: AccessPoint)
      modifies this
      ensures
        View() == old(View()).(bssid := Some(ap.bssid), channel := Some(ap.channel),
                               auth := if ap.auth.Some? then ap.auth.value else old(View()).auth)
    {
      lastBssid := Some(ap.bssid);
      lastChannel := Some(ap.channel);
      if ap.auth.Some? {
        lastAuthMethod := ap.auth.value;
      }
    }

    /** The network gave us an address. */
    method Lease(config: Address)
      modifies this
      ensures View() == old(View()).Leased(config)
    {
      if staticIpConfig.None? {
        staticIpConfig := Some(config);
        staticIpUses := 0;
      }
    }
  }

  // ---- The two tasks, from power-up over any number of deep sleeps ----

  /** Where the connection task awaits. */
  datatype Task =
    | Absent
    | Spawned(network: Ssid)
    | LoopTop(network: Ssid)
    | Scanning(network: Ssid)
    | Halting(network: Ssid)
    | Joining(network: Ssid)
    | Joined(network: Ssid)
    | Failed

  datatype Scan = Scan(network: Ssid, ap: AccessPoint)

  /** A network joined with a cached address, and the network that gave the address out. */
  datatype Reuse = Reuse(network: Ssid, lender: Ssid)

  datatype System = System(
    cells: Cells,
    // Lost in a deep sleep.
    network: Option<Ssid>,
    task: Task,
    // Since power-up: every scan, every target given to the radio, every use of a cached address.
    scans: seq<Scan>,
    targets: seq<Target>,
    lender: Ssid,
    reuses: seq<Reuse>)

  const INIT: System := System(BLANK, None, Absent, [], [], [], [])

  datatype Event =
    | PowerUp
    | DeepSleep
    | Connect(ssid: Ssid, radioStarts: bool)
    | Start
    | Decide
    | ScanEnds(aps: seq<AccessPoint>)
    | Halted
    | JoinEnds(ok: bool)
    | Restart
    | Fail
    | Address(config: Address)

  predicate Enabled(s: System, e: Event) {
    match e
    case PowerUp => true
    case DeepSleep => true
    case Connect(_, _) => s.network.None?
    case Start => s.task.Spawned?
    case Decide => s.task.LoopTop?
    case ScanEnds(_) => s.task.Scanning?
    case Halted => s.task.Halting?
    case JoinEnds(_) => s.task.Joining?
    case Restart => s.task.Joined?
    case Fail => s.task.Scanning? || s.task.Halting? || s.task.Joining? || s.task.Joined?
    case Address(_) => s.network.Some?
  }

  /** The radio is configured from the cells and told to join. */
  function Configured(s: System, network: Ssid): System {
    s.(task := Joining(network), targets := s.targets + [s.cells.TargetFor(network)])
  }

  function Connected(s: System, ssid: Ssid, radioStarts: bool): System {
    var cells := s.cells.ForNetwork(ssid);
    var after := s.(network := Some(ssid),
                    targets := s.targets + if cells.bssid.Some? then [cells.TargetFor(ssid)] else []);
    if !radioStarts then after.(cells := cells)
    else
      after.(cells := cells.AddressTaken(), task := Spawned(ssid),
             reuses := s.reuses + if cells.UsesAddress() then [Reuse(ssid, s.lender)] else [])
  }

  function Next(s: System, e: Event): System
    requires Enabled(s, e)
  {
    match e
    case PowerUp => INIT
    case DeepSleep => s.(network := None, task := Absent)
    case Connect(ssid, radioStarts) => Connected(s, ssid, radioStarts)
    case Start => s.(cells := s.cells.Claimed(s.task.network), task := LoopTop(s.task.network))
    case Decide =>
      if s.cells.bssid.None? then s.(task := Scanning(s.task.network)) else Configured(s, s.task.network)
    case ScanEnds(aps) =>
      if aps == [] then s.(task := LoopTop(s.task.network))
      else s.(cells := s.cells.Found(aps[0]), scans := s.scans + [Scan(s.task.network, aps[0])],
          task := Halting(s.task.network))
    case Halted => Configured(s, s.task.network)
    case JoinEnds(ok) => s.(task := if ok then Joined(s.task.network) else LoopTop(s.task.network))
    case Restart => s.(task := LoopTop(s.task.network))
    case Fail => s.(task := Failed)
    case Address(config) =>
      s.(cells := s.cells.Leased(config), lender := if s.cells.address.None? then s.network.value else s.lender)
  }

  /** The access point and channel came from one scan of this network, the method from some scan of it or by default. */
  predicate Coherent(t: Target, scans: seq<Scan>) {
    && t.bssid.Some? && t.channel.Some?
    && (exists k :: 0 <= k < |scans| && scans[k].network == t.ssid
                    && scans[k].ap.bssid == t.bssid.value && scans[k].ap.channel == t.channel.value)
    && MethodKnown(t.ssid, t.auth, scans)
  }

  predicate MethodKnown(network: Ssid, auth: AuthMethod, scans: seq<Scan>) {
    || auth == WPA2Personal
    || exists k :: 0 <= k < |scans| && scans[k].network == network && scans[k].ap.auth == Some(auth)
  }

  predicate CellsOk(c: Cells, scans: seq<Scan>) {
    && (c.bssid.Some? ==> c.ssid.Some? && Coherent(c.TargetFor(c.ssid.value), scans))
    && (c.ssid.None? ==> c.auth == WPA2Personal)
    && (c.ssid.Some? ==> MethodKnown(c.ssid.value, c.auth, scans))
  }

  predicate TaskOk(c: Cells, t: Task) {
    match t
    case Absent => true
    case Spawned(network) => c.bssid.Some? ==> c.ssid == Some(network)
    case LoopTop(network) => c.ssid == Some(network)
    case Scanning(network) => c.ssid == Some(network)
    case Halting(network) => c.ssid == Some(network) && c.bssid.Some?
    case Joining(network) => c.ssid == Some(network) && c.bssid.Some?
    case Joined(network) => c.ssid == Some(network) && c.bssid.Some?
    case Failed => true
  }

  predicate AddressOk(c: Cells, reuses: seq<Reuse>) {
    c.addressUses == |reuses| <= MAX_STATIC_IP_USES && (c.address.None? ==> reuses == [])
  }

  predicate TargetsOk(targets: seq<Target>, scans: seq<Scan>) {
    forall t :: t in targets ==> Coherent(t, scans)
  }

  predicate Inv(s: System) {
    && CellsOk(s.cells, s.scans)
    && TaskOk(s.cells, s.task) && (s.network.None? ==> s.task == Absent)
    && AddressOk(s.cells, s.reuses)
    && TargetsOk(s.targets, s.scans)
  }

  /** Scanning more never makes anything incoherent. */
  lemma ScansGrow(s: System, scan: Scan)
    requires Inv(s)
    ensures CellsOk(s.cells, s.scans + [scan]) && TargetsOk(s.targets, s.scans + [scan])
  {
    var more := s.scans + [scan];
    assert forall k :: 0 <= k < |s.scans| ==> more[k] == s.scans[k];
    forall t: Target | Coherent(t, s.scans) ensures Coherent(t, more) {
      var k :| 0 <= k < |s.scans| && s.scans[k].network == t.ssid
               && s.scans[k].ap.bssid == t.bssid.value && s.scans[k].ap.channel == t.channel.value;
      assert more[k] == s.scans[k];
    }
  }

  lemma FoundIsCoherent(s: System, aps: seq<AccessPoint>)
    requires Inv(s) && Enabled(s, ScanEnds(aps))
    ensures Inv(Next(s, ScanEnds(aps)))
  {
    if aps != [] {
      var scan := Scan(s.task.network, aps[0]);
      var more := s.scans + [scan];
      ScansGrow(s, scan);
      assert more[|s.scans|] == scan;
    }
  }

  lemma StepKeepsInv(s: System, e: Event)
    requires Inv(s) && Enabled(s, e)
    ensures Inv(Next(s, e))
  {
    hide Coherent, MethodKnown;
    if e.ScanEnds? {
      FoundIsCoherent(s, e.aps);
    } else {
      DefaultIsKnown(s.scans);
    }
  }

  lemma DefaultIsKnown(scans: seq<Scan>)
    ensures forall network :: MethodKnown(network, WPA2Personal, scans)
    ensures forall t :: Coherent(t, scans) ==> t.bssid.Some? && MethodKnown(t.ssid, t.auth, scans)
  {
  }

  function After(es: seq<Event>): Option<System>
    decreases |es|
  {
    if es == [] then Some(INIT)
    else
      var before := After(es[..|es| - 1]);
      if before.Some? && Enabled(before.value, es[|es| - 1]) then Some(Next(before.value, es[|es| - 1])) else None
  }

  lemma {:induction false} RunsKeepInv(es: seq<Event>)
    requires After(es).Some?
    ensures Inv(After(es).value)
    decreases |es|
  {
    hide Next, CellsOk, TaskOk, Enabled;
    if es == [] {
      InitInv();
    } else {
      RunsKeepInv(es[..|es| - 1]);
      StepKeepsInv(After(es[..|es| - 1]).value, es[|es| - 1]);
    }
  }

  lemma InitInv()
    ensures Inv(INIT)
  {
  }

  /**
   Over any boots, changes of network and resets: whatever the radio is told to join names an
   access point and channel that one scan of exactly that network found together.
   */
  lemma NeverMixesNetworks(es: seq<Event>, t: Target)
    requires After(es).Some? && t in After(es).value.targets
    ensures t.bssid.Some? && t.channel.Some?
    ensures exists scan :: scan in After(es).value.scans && scan.network == t.ssid
                           && scan.ap.bssid == t.bssid.value && scan.ap.channel == t.channel.value
    ensures t.auth != WPA2Personal ==>
              exists scan :: scan in After(es).value.scans && scan.network == t.ssid && scan.ap.auth == Some(t.auth)
  {
    hide After, CellsOk, TaskOk, AddressOk;
    RunsKeepInv(es);
    var scans := After(es).value.scans;
    assert Coherent(t, scans);
    var k :| 0 <= k < |scans| && scans[k].network == t.ssid
             && scans[k].ap.bssid == t.bssid.value && scans[k].ap.channel == t.channel.value;
    assert scans[k] in scans;
  }

  /** From power-up to power-up, at most ten connections go without asking for an address. */
  lemma AddressWearsOut(es: seq<Event>)
    requires After(es).Some?
    ensures |After(es).value.reuses| <= 10
    ensures |After(es).value.reuses| == 10 ==> !After(es).value.cells.UsesAddress()
  {
    hide After, CellsOk, TaskOk, TargetsOk;
    RunsKeepInv(es);
  }

  /** The network of this boot, as the events tell. */
  function ConnectedTo(es: seq<Event>): Option<Ssid>
    decreases |es|
  {
    if es == [] then None
    else
      match es[|es| - 1]
      case PowerUp => None
      case DeepSleep => None
      case Connect(ssid, _) => Some(ssid)
      case _ => ConnectedTo(es[..|es| - 1])
  }

  /** The network that was connected when the first address since power-up came. */
  function LentBy(es: seq<Event>): Option<Ssid>
    decreases |es|
  {
    if es == [] || es[|es| - 1] == PowerUp then None
    else
      var before := LentBy(es[..|es| - 1]);
      if es[|es| - 1].Address? && before == None then ConnectedTo(es[..|es| - 1]) else before
  }

  /** The first address since power-up. */
  function LentAddress(es: seq<Event>): Option<Address>
    decreases |es|
  {
    if es == [] || es[|es| - 1] == PowerUp then None
    else
      var before := LentAddress(es[..|es| - 1]);
      if es[|es| - 1].Address? && before == None then Some(es[|es| - 1].config) else before
  }

  /** A radio started while an address was lent and had been used less than ten times. */
  predicate Reuses(e: Event, lender: Option<Ssid>, uses: nat) {
    e.Connect? && e.radioStarts && lender.Some? && uses < 10
  }

  /** How often, since power-up. */
  function Uses(es: seq<Event>): nat
    decreases |es|
  {
    if es == [] || es[|es| - 1] == PowerUp then 0
    else
      var before := es[..|es| - 1];
      Uses(before) + if Reuses(es[|es| - 1], LentBy(before), Uses(before)) then 1 else 0
  }

  /** Since power-up, every start of the radio that had an address to use was for the network that lent it. */
  predicate AlwaysAtHome(es: seq<Event>)
    decreases |es|
  {
    if es == [] || es[|es| - 1] == PowerUp then true
    else
      var (before, e) := (es[..|es| - 1], es[|es| - 1]);
      AlwaysAtHome(before) && (Reuses(e, LentBy(before), Uses(before)) ==> LentBy(before) == Some(e.ssid))
  }

  /** The cells keep what the events tell. */
  predicate AsTold(s: System, network: Option<Ssid>, address: Option<Address>, lender: Option<Ssid>, uses: nat) {
    && s.network == network
    && s.cells.address == address
    && s.cells.address.Some? == lender.Some?
    && (lender.Some? ==> lender == Some(s.lender))
    && s.cells.addressUses == uses
    && (lender.None? ==> uses == 0)
  }

  lemma EventsTell(s: System, e: Event, network: Option<Ssid>, address: Option<Address>, lender: Option<Ssid>,
      uses: nat)
    requires Enabled(s, e) && AsTold(s, network, address, lender, uses)
    ensures
      AsTold(Next(s, e),
             if e.PowerUp? || e.DeepSleep? then None else if e.Connect? then Some(e.ssid) else network,
             if e.PowerUp? then None else if e.Address? && address.None? then Some(e.config) else address,
             if e.PowerUp? then None else if e.Address? && lender.None? then network else lender,
             if e.PowerUp? then 0 else uses + if Reuses(e, lender, uses) then 1 else 0)
  {
  }

  lemma {:induction false} EventsTellCells(es: seq<Event>)
    requires After(es).Some?
    ensures AsTold(After(es).value, ConnectedTo(es), LentAddress(es), LentBy(es), Uses(es))
    decreases |es|
  {
    hide AsTold, Next, Reuses, Enabled;
    if es == [] {
      FirstBoot();
      NothingTold();
    } else {
      var (before, e) := (es[..|es| - 1], es[|es| - 1]);
      EventsTellCells(before);
      EventsTell(After(before).value, e, ConnectedTo(before), LentAddress(before), LentBy(before), Uses(before));
    }
  }

  lemma NothingTold()
    ensures AsTold(INIT, None, None, None, 0)
  {
  }

  /**
   Cached addresses are used only on the network that lent them exactly if, since power-up, every
   start of the radio with an address to use was for the network that had been connected when
   the first address came; nothing else in a run matters.
   */
  lemma {:induction false} AddressStaysHome(es: seq<Event>)
    requires After(es).Some?
    ensures (forall r :: r in After(es).value.reuses ==> r.network == r.lender) <==> AlwaysAtHome(es)
    decreases |es|
  {
    hide Next, Enabled, ConnectedTo, LentBy, Uses;
    if es == [] {
      FirstBoot();
    } else {
      var (before, e) := (es[..|es| - 1], es[|es| - 1]);
      AddressStaysHome(before);
      EventsTellCells(before);
      ReusesGrow(After(before).value, e);
    }
  }

  // ---- What the radio is told, by the events alone ----

  /** The network whose connection task started last. */
  function StartedFor(es: seq<Event>): Option<Ssid>
    decreases |es|
  {
    if es == [] || es[|es| - 1] == PowerUp then None
    else if es[|es| - 1] == Start then ConnectedTo(es[..|es| - 1])
    else StartedFor(es[..|es| - 1])
  }

  /** A task starts for another network than the task before it. */
  predicate Changes(before: seq<Event>, e: Event) {
    e == Start && StartedFor(before).Some? && StartedFor(before) != ConnectedTo(before)
  }

  /** The access point that a scan found last, unless the program went on to connect to another network. */
  function LastFound(es: seq<Event>): Option<AccessPoint>
    decreases |es|
  {
    if es == [] || es[|es| - 1] == PowerUp then None
    else
      var (before, e) := (es[..|es| - 1], es[|es| - 1]);
      match e
      case ScanEnds(aps) => if aps == [] then LastFound(before) else Some(aps[0])
      case Connect(ssid, _) => if StartedFor(before) == Some(ssid) then LastFound(before) else None
      case _ => LastFound(before)
  }

  /** The method that a scan reported last, since power-up or since a task started for another network. */
  function LastReported(es: seq<Event>): Option<AuthMethod>
    decreases |es|
  {
    if es == [] || es[|es| - 1] == PowerUp || Changes(es[..|es| - 1], es[|es| - 1]) then None
    else
      var (before, e) := (es[..|es| - 1], es[|es| - 1]);
      if e.ScanEnds? && e.aps != [] && e.aps[0].auth.Some? then e.aps[0].auth else LastReported(before)
  }

  /** What the last event tells the radio to join. */
  function Told(es: seq<Event>): seq<Target> {
    if es == [] || LastFound(es).None? then []
    else
      var (ap, auth) := (LastFound(es).value, LastReported(es));
      match es[|es| - 1]
      case Connect(ssid, _) => [TargetWith(ssid, ap, auth)]
      case Decide => if StartedFor(es).Some? then [TargetWith(StartedFor(es).value, ap, auth)] else []
      case Halted => if StartedFor(es).Some? then [TargetWith(StartedFor(es).value, ap, auth)] else []
      case _ => []
  }

  function TargetWith(ssid: Ssid, ap: AccessPoint, auth: Option<AuthMethod>): Target {
    Target(ssid, Some(ap.bssid), Some(ap.channel), if auth.Some? then auth.value else WPA2Personal)
  }

  /** Everything since power-up. */
  function AllTold(es: seq<Event>): seq<Target>
    decreases |es|
  {
    if es == [] || es[|es| - 1] == PowerUp then [] else AllTold(es[..|es| - 1]) + Told(es)
  }

  /** The cells keep what the scans told. */
  predicate ScansKept(s: System, started: Option<Ssid>, found: Option<AccessPoint>, reported: Option<AuthMethod>) {
    && s.cells.ssid == started
    && s.cells.auth == (if reported.Some? then reported.value else WPA2Personal)
    && s.cells.bssid == (if found.Some? then Some(found.value.bssid) else None)
    && (found.Some? ==> s.cells.channel == Some(found.value.channel))
    && (!s.task.Absent? && !s.task.Failed? ==> s.network == Some(s.task.network))
  }

  lemma ScansKeptBy(s: System, es: seq<Event>, e: Event)
    requires Inv(s) && Enabled(s, e) && s.network == ConnectedTo(es)
    requires ScansKept(s, StartedFor(es), LastFound(es), LastReported(es))
    ensures ScansKept(Next(s, e), StartedFor(es + [e]), LastFound(es + [e]), LastReported(es + [e]))
  {
    hide CellsOk, AddressOk, TargetsOk;
    assert (es + [e])[..|es|] == es;
  }

  /** What one event adds to the targets. */
  function Added(s: System, e: Event): seq<Target>
    requires Enabled(s, e)
  {
    match e
    case Connect(ssid, _) =>
      if s.cells.ForNetwork(ssid).bssid.Some? then [s.cells.ForNetwork(ssid).TargetFor(ssid)] else []
    case Decide => if s.cells.bssid.Some? then [s.cells.TargetFor(s.task.network)] else []
    case Halted => [s.cells.TargetFor(s.task.network)]
    case _ => []
  }

  lemma TargetsAdded(s: System, e: Event)
    requires Enabled(s, e)
    ensures Next(s, e).targets == if e.PowerUp? then [] else s.targets + Added(s, e)
  {
  }

  lemma AddedAsTold(s: System, es: seq<Event>, e: Event)
    requires Inv(s) && Enabled(s, e)
    requires ScansKept(s, StartedFor(es), LastFound(es), LastReported(es))
    ensures e != PowerUp ==> Added(s, e) == Told(es + [e])
  {
    hide CellsOk, AddressOk, TargetsOk;
    assert (es + [e])[..|es|] == es;
  }

  lemma TargetsToldBy(s: System, es: seq<Event>, e: Event)
    requires Inv(s) && Enabled(s, e)
    requires ScansKept(s, StartedFor(es), LastFound(es), LastReported(es)) && s.targets == AllTold(es)
    ensures Next(s, e).targets == AllTold(es + [e])
  {
    hide Inv, ScansKept, Next, Added, Told, StartedFor, LastFound, LastReported, Enabled;
    assert (es + [e])[..|es|] == es;
    TargetsAdded(s, e);
    AddedAsTold(s, es, e);
  }

  /**
   Everything the radio is told since power-up, by the events alone: the network connected to, the
   access point and channel that its last scan found, and the method that was reported last; the
   default is told only if no scan has reported any.
   */
  lemma {:induction false} TargetsAsTold(es: seq<Event>)
    requires After(es).Some?
    ensures After(es).value.targets == AllTold(es)
    ensures ScansKept(After(es).value, StartedFor(es), LastFound(es), LastReported(es))
    decreases |es|
  {
    hide Next, Inv, Enabled, ScansKept, AsTold, LentBy, Uses, LentAddress;
    if es == [] {
      FirstBoot();
      NoScansKept();
    } else {
      var (before, e) := (es[..|es| - 1], es[|es| - 1]);
      TargetsAsTold(before);
      RunsKeepInv(before);
      EventsTellCells(before);
      ToldNetwork(After(before).value, before);
      ScansKeptBy(After(before).value, before, e);
      TargetsToldBy(After(before).value, before, e);
      assert es == before + [e];
    }
  }

  lemma NoScansKept()
    ensures ScansKept(INIT, None, None, None)
  {
  }

  lemma ToldNetwork(s: System, es: seq<Event>)
    requires AsTold(s, ConnectedTo(es), LentAddress(es), LentBy(es), Uses(es))
    ensures s.network == ConnectedTo(es)
  {
    hide LentBy, Uses, LentAddress;
  }

  /** The uses of a cached address after one event. */
  lemma ReusesGrow(s: System, e: Event)
    requires Enabled(s, e)
    ensures Next(s, e).reuses ==
              if e == PowerUp then []
              else if e.Connect? && e.radioStarts && s.cells.UsesAddress() then s.reuses + [Reuse(e.ssid, s.lender)]
              else s.reuses
  {
  }

  lemma Then(es: seq<Event>, s: System, e: Event) returns (more: seq<Event>, t: System)
    requires After(es) == Some(s) && Enabled(s, e)
    ensures After(more) == Some(t) && t == Next(s, e)
  {
    more, t := es + [e], Next(s, e);
    assert more[..|es|] == es;
  }

  /** The cached address is not tied to a network: one that another network lent is used all the same. */
  lemma AddressOutlivesNetwork(a: Ssid, b: Ssid, ap: AccessPoint, lease: Address) returns (es: seq<Event>)
    requires a != b
    ensures After(es).Some?
    ensures After(es).value.reuses == [Reuse(b, a)]
  {
    FirstBoot();
    hide After;
    var s;
    es, s := Then([], INIT, Connect(a, true));
    es, s := Then(es, s, Start);
    es, s := Then(es, s, Decide);
    es, s := Then(es, s, ScanEnds([ap]));
    es, s := Then(es, s, Halted);
    es, s := Then(es, s, JoinEnds(true));
    es, s := Then(es, s, Address(lease));
    es, s := Then(es, s, DeepSleep);
    es, s := Then(es, s, Connect(b, true));
  }

  lemma FirstBoot()
    ensures After([]) == Some(INIT)
  {
  }
}
