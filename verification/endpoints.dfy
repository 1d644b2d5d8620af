/**
 * Endpoint discovery (`UsbClient::find_bulk_endpoints`): a first-match search over the
 * device's descriptor tree, configurations -> interfaces -> alternate settings, for a
 * Mass Storage interface speaking the SCSI transparent command set over Bulk-Only
 * Transport, whose last two endpoints become the read/write pair.
 */
module Endpoints {
  import opened Bytes
  import opened Wrappers

  datatype Direction = In | Out

  /** A class / subclass / protocol code triple, at device or interface level. */
  datatype ClassTriple = ClassTriple(classCode: u8, subClassCode: u8, protocolCode: u8)

  /** Mass Storage class 8, SCSI transparent subclass 6, Bulk-Only Transport protocol 80 (0x50). */
  const SCSI_BULK_ONLY: ClassTriple := ClassTriple(8, 6, 80)

  /** An endpoint descriptor; only its address is read. */
  datatype EndpointDescriptor = EndpointDescriptor(address: u8)

  /** Bit 7 of bEndpointAddress gives the direction (USB 2.0, section 9.6.6): set means In. */
  function DirectionOf(e: EndpointDescriptor): (r: Direction)
    ensures r == In <==> (e.address as bv8) & 0x80 != 0
  {
    if e.address >= 0x80 then In else Out
  }

  /** One alternate setting of an interface, with its endpoints in descriptor order. */
  datatype InterfaceDescriptor = InterfaceDescriptor(
    interfaceNumber: u8, settingNumber: u8, classCodes: ClassTriple, endpoints: seq<EndpointDescriptor>)

  /** An interface: its alternate settings in descriptor order. */
  datatype Interface = Interface(descriptors: seq<InterfaceDescriptor>)

  datatype ConfigDescriptor = ConfigDescriptor(number: u8, interfaces: seq<Interface>)

  /**
   * The device: its own class triple and one entry per configuration index, `None` where
   * the configuration descriptor failed to load.
   */
  datatype DeviceTree = DeviceTree(classCodes: ClassTriple, configs: seq<Option<ConfigDescriptor>>)

  /** A discovered endpoint: where it lives and its address. */
  datatype Endpoint = Endpoint(config: u8, iface: u8, setting: u8, address: u8)

  /**
   * The search's outcome: a (read, write) pair, a returned error, or a panic from an
   * `unwrap` on a missing endpoint.
   */
  datatype Discovery = Found(read: Endpoint, write: Endpoint) | Failed(message: string) | Panicked(message: string)

  const NOT_FOUND: string := "Could not find bulk read/write endpoints!"
  const SAME_DIRECTION: string := "Both endpoints are in the same direction!"
  const NO_ENDPOINTS: string := "Found no endpoints in interface!"
  const ONE_ENDPOINT: string := "Only found 1 endpoint in interface!"

  /** An alternate setting is examined when the device itself, or that setting, is SCSI Bulk-Only. */
  predicate Considered(scsiDevice: bool, alt: InterfaceDescriptor)
  {
    scsiDevice || alt.classCodes == SCSI_BULK_ONLY
  }

  /** `true` when an endpoint's address says the given direction. */
  predicate HasDirection(address: u8, d: Direction)
  {
    DirectionOf(EndpointDescriptor(address)) == d
  }

  /**
   * The pair chosen from the first considered setting: `a` is its last endpoint and `b` the
   * one before. The In one reads and the Out one writes; two of the same direction is an error.
   */
  function SelectPair(config: u8, alt: InterfaceDescriptor): (r: Discovery)
    ensures |alt.endpoints| == 0 <==> r == Panicked(NO_ENDPOINTS)
    ensures |alt.endpoints| == 1 <==> r == Panicked(ONE_ENDPOINT)
    ensures |alt.endpoints| >= 2 ==>
      var a := alt.endpoints[|alt.endpoints| - 1];
      var b := alt.endpoints[|alt.endpoints| - 2];
      && (r.Found? <==> DirectionOf(a) != DirectionOf(b))
      && (!r.Found? ==> r == Failed(SAME_DIRECTION))
      && (r.Found? ==> multiset{r.read.address, r.write.address} == multiset{a.address, b.address})
    ensures r.Found? ==>
      && HasDirection(r.read.address, In) && HasDirection(r.write.address, Out)
      && r.read.config == config && r.write.config == config
      && r.read.iface == alt.interfaceNumber && r.write.iface == alt.interfaceNumber
      && r.read.setting == alt.settingNumber && r.write.setting == alt.settingNumber
  {
    var eps := alt.endpoints;
    if |eps| == 0 then Panicked(NO_ENDPOINTS)
    else if |eps| == 1 then Panicked(ONE_ENDPOINT)
    else
      var a := eps[|eps| - 1];
      var b := eps[|eps| - 2];
      if DirectionOf(a) == In && DirectionOf(b) == Out then
        Found(Endpoint(config, alt.interfaceNumber, alt.settingNumber, a.address),
              Endpoint(config, alt.interfaceNumber, alt.settingNumber, b.address))
      else if DirectionOf(a) == Out && DirectionOf(b) == In then
        Found(Endpoint(config, alt.interfaceNumber, alt.settingNumber, b.address),
              Endpoint(config, alt.interfaceNumber, alt.settingNumber, a.address))
      else Failed(SAME_DIRECTION)
  }

  /**
   * What a selection from one setting can be: a pair from one setting with the read endpoint
   * In and the write endpoint Out, the same-direction error, or a panic on a missing endpoint.
   */
  predicate IsSelection(d: Discovery)
  {
    match d
    case Found(read, write) =>
      && HasDirection(read.address, In) && HasDirection(write.address, Out)
      && read.config == write.config && read.iface == write.iface && read.setting == write.setting
    case Failed(message) => message == SAME_DIRECTION
    case Panicked(message) => message == NO_ENDPOINTS || message == ONE_ENDPOINT
  }

  /** The innermost loop: the first considered alternate setting decides. */
  function SearchSettings(scsiDevice: bool, config: u8, alts: seq<InterfaceDescriptor>): (r: Option<Discovery>)
    ensures r.None? <==> forall i | 0 <= i < |alts| :: !Considered(scsiDevice, alts[i])
    ensures r.Some? ==> IsSelection(r.value) && (r.value.Found? ==> r.value.read.config == config)
    decreases |alts|
  {
    if |alts| == 0 then None
    else if !Considered(scsiDevice, alts[0]) then SearchSettings(scsiDevice, config, alts[1..])
    else Some(SelectPair(config, alts[0]))
  }

  /** The interface loop of one configuration. */
  function SearchInterfaces(scsiDevice: bool, config: u8, ifaces: seq<Interface>): (r: Option<Discovery>)
    ensures r.Some? ==> IsSelection(r.value) && (r.value.Found? ==> r.value.read.config == config)
    decreases |ifaces|
  {
    if |ifaces| == 0 then None
    else
      match SearchSettings(scsiDevice, config, ifaces[0].descriptors)
      case Some(r) => Some(r)
      case None => SearchInterfaces(scsiDevice, config, ifaces[1..])
  }

  /** The configuration loop; a configuration whose descriptor failed to load is skipped. */
  function SearchConfigs(scsiDevice: bool, configs: seq<Option<ConfigDescriptor>>): (r: Option<Discovery>)
    ensures r.Some? ==> IsSelection(r.value)
    ensures r.Some? && r.value.Found? ==> exists c | 0 <= c < |configs| :: configs[c].Some? && configs[c].value.number == r.value.read.config
    decreases |configs|
  {
    if |configs| == 0 then None
    else
      match configs[0]
      case None => SearchConfigs(scsiDevice, configs[1..])
      case Some(c) =>
        match SearchInterfaces(scsiDevice, c.number, c.interfaces)
        case Some(r) => Some(r)
        case None => SearchConfigs(scsiDevice, configs[1..])
  }

  /**
   * `find_bulk_endpoints`: a pair found in one setting of a loadable configuration, an error
   * or panic from the first considered setting, or "could not find" when none is considered.
   */
  function FindBulkEndpoints(dev: DeviceTree): (r: Discovery)
    ensures r == Failed(NOT_FOUND) || IsSelection(r)
    ensures r.Found? ==> exists c | 0 <= c < |dev.configs| :: dev.configs[c].Some? && dev.configs[c].value.number == r.read.config
  {
    match SearchConfigs(dev.classCodes == SCSI_BULK_ONLY, dev.configs)
    case Some(r) => r
    case None => Failed(NOT_FOUND)
  }

  // ---------------------------------------------------------------------------------
  // Reference definition: the tree flattened into descriptor order, searched linearly.
  // ---------------------------------------------------------------------------------

  /** An alternate setting together with the number of the configuration it belongs to. */
  datatype Candidate = Candidate(config: u8, alt: InterfaceDescriptor)

  function SettingCandidates(config: u8, alts: seq<InterfaceDescriptor>): (r: seq<Candidate>)
    ensures |r| == |alts|
    ensures forall i | 0 <= i < |alts| :: r[i] == Candidate(config, alts[i])
  {
    seq(|alts|, i requires 0 <= i < |alts| => Candidate(config, alts[i]))
  }

  function InterfaceCandidates(config: u8, ifaces: seq<Interface>): seq<Candidate>
    decreases |ifaces|
  {
    if |ifaces| == 0 then []
    else SettingCandidates(config, ifaces[0].descriptors) + InterfaceCandidates(config, ifaces[1..])
  }

  /** Every alternate setting of every loadable configuration, in the order the loops visit them. */
  function Candidates(configs: seq<Option<ConfigDescriptor>>): seq<Candidate>
    decreases |configs|
  {
    if |configs| == 0 then []
    else
      match configs[0]
      case None => Candidates(configs[1..])
      case Some(c) => InterfaceCandidates(c.number, c.interfaces) + Candidates(configs[1..])
  }

  /** Linear first-match search over the flattened candidates. */
  function FirstMatch(scsiDevice: bool, cs: seq<Candidate>): Option<Discovery>
    decreases |cs|
  {
    if |cs| == 0 then None
    else if Considered(scsiDevice, cs[0].alt) then Some(SelectPair(cs[0].config, cs[0].alt))
    else FirstMatch(scsiDevice, cs[1..])
  }

  /** `i` is the first considered candidate. */
  predicate IsFirstConsidered(scsiDevice: bool, cs: seq<Candidate>, i: int)
  {
    && 0 <= i < |cs|
    && Considered(scsiDevice, cs[i].alt)
    && forall j | 0 <= j < i :: !Considered(scsiDevice, cs[j].alt)
  }

  /** The linear search finds nothing exactly when no candidate is considered. */
  lemma {:induction false} FirstMatchNoneIffNoneConsidered(scsiDevice: bool, cs: seq<Candidate>)
    ensures FirstMatch(scsiDevice, cs).None? <==> forall j | 0 <= j < |cs| :: !Considered(scsiDevice, cs[j].alt)
    decreases |cs|
  {
    if |cs| > 0 {
      FirstMatchNoneIffNoneConsidered(scsiDevice, cs[1..]);
      assert forall j | 1 <= j < |cs| :: cs[j] == cs[1..][j - 1];
    }
  }

  /** The linear search answers with the selection from the first considered candidate. */
  lemma {:induction false} FirstMatchIsFirstConsidered(scsiDevice: bool, cs: seq<Candidate>, i: int)
    requires IsFirstConsidered(scsiDevice, cs, i)
    ensures FirstMatch(scsiDevice, cs) == Some(SelectPair(cs[i].config, cs[i].alt))
    decreases i
  {
    if i > 0 {
      assert !Considered(scsiDevice, cs[0].alt);
      assert cs[i] == cs[1..][i - 1];
      assert IsFirstConsidered(scsiDevice, cs[1..], i - 1) by {
        forall j | 0 <= j < i - 1 ensures !Considered(scsiDevice, cs[1..][j].alt) {
          assert cs[1..][j] == cs[j + 1];
        }
      }
      FirstMatchIsFirstConsidered(scsiDevice, cs[1..], i - 1);
    }
  }

  /** Searching a concatenation: the first part decides if it has a match at all. */
  lemma {:induction false} FirstMatchAppend(scsiDevice: bool, xs: seq<Candidate>, ys: seq<Candidate>)
    ensures FirstMatch(scsiDevice, xs + ys) ==
      if FirstMatch(scsiDevice, xs).Some? then FirstMatch(scsiDevice, xs) else FirstMatch(scsiDevice, ys)
    decreases |xs|
  {
    if |xs| == 0 {
      assert xs + ys == ys;
    } else {
      assert (xs + ys)[1..] == xs[1..] + ys;
      FirstMatchAppend(scsiDevice, xs[1..], ys);
    }
  }

  lemma {:induction false} SearchSettingsIsFirstMatch(scsiDevice: bool, config: u8, alts: seq<InterfaceDescriptor>)
    ensures SearchSettings(scsiDevice, config, alts) == FirstMatch(scsiDevice, SettingCandidates(config, alts))
    decreases |alts|
  {
    if |alts| > 0 {
      assert SettingCandidates(config, alts)[1..] == SettingCandidates(config, alts[1..]);
      SearchSettingsIsFirstMatch(scsiDevice, config, alts[1..]);
    }
  }

  lemma {:induction false} SearchInterfacesIsFirstMatch(scsiDevice: bool, config: u8, ifaces: seq<Interface>)
    ensures SearchInterfaces(scsiDevice, config, ifaces) == FirstMatch(scsiDevice, InterfaceCandidates(config, ifaces))
    decreases |ifaces|
  {
    if |ifaces| > 0 {
      SearchSettingsIsFirstMatch(scsiDevice, config, ifaces[0].descriptors);
      SearchInterfacesIsFirstMatch(scsiDevice, config, ifaces[1..]);
      FirstMatchAppend(scsiDevice, SettingCandidates(config, ifaces[0].descriptors), InterfaceCandidates(config, ifaces[1..]));
    }
  }

  lemma {:induction false} SearchConfigsIsFirstMatch(scsiDevice: bool, configs: seq<Option<ConfigDescriptor>>)
    ensures SearchConfigs(scsiDevice, configs) == FirstMatch(scsiDevice, Candidates(configs))
    decreases |configs|
  {
    if |configs| > 0 {
      SearchConfigsIsFirstMatch(scsiDevice, configs[1..]);
      if configs[0].Some? {
        var c := configs[0].value;
        SearchInterfacesIsFirstMatch(scsiDevice, c.number, c.interfaces);
        FirstMatchAppend(scsiDevice, InterfaceCandidates(c.number, c.interfaces), Candidates(configs[1..]));
      }
    }
  }

  /**
   * The nested loops return the pair selected from the first considered alternate setting in
   * descriptor order, whatever that selection yields (no later setting is tried when it
   * fails), and "not found" exactly when no setting is considered: a considered setting
   * never yields that message.
   */
  lemma FindBulkEndpointsIsFirstMatch(dev: DeviceTree)
    ensures var cs := Candidates(dev.configs);
            var scsi := dev.classCodes == SCSI_BULK_ONLY;
            FindBulkEndpoints(dev) == Failed(NOT_FOUND) <==> forall j | 0 <= j < |cs| :: !Considered(scsi, cs[j].alt)
    ensures var cs := Candidates(dev.configs);
            var scsi := dev.classCodes == SCSI_BULK_ONLY;
            forall i | IsFirstConsidered(scsi, cs, i) :: FindBulkEndpoints(dev) == SelectPair(cs[i].config, cs[i].alt)
  {
    var scsi := dev.classCodes == SCSI_BULK_ONLY;
    var cs := Candidates(dev.configs);
    SearchConfigsIsFirstMatch(scsi, dev.configs);
    FirstMatchNoneIffNoneConsidered(scsi, cs);
    FirstMatchNeverNotFound(scsi, cs);
    forall i | IsFirstConsidered(scsi, cs, i)
      ensures FindBulkEndpoints(dev) == SelectPair(cs[i].config, cs[i].alt)
    {
      FirstMatchIsFirstConsidered(scsi, cs, i);
    }
  }

  /** A considered setting never yields the "not found" message. */
  lemma {:induction false} FirstMatchNeverNotFound(scsiDevice: bool, cs: seq<Candidate>)
    ensures FirstMatch(scsiDevice, cs) != Some(Failed(NOT_FOUND))
    decreases |cs|
  {
    assert NOT_FOUND[0] != SAME_DIRECTION[0];
    if |cs| > 0 {
      FirstMatchNeverNotFound(scsiDevice, cs[1..]);
    }
  }
}
