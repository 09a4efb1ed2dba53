/** Which driver stacks a transfer needs, when two of them cannot be had together, and the two passes
    that make both ends of a transfer ready. */
module TransferGate {
  import opened DriverStacks

  // ----- paths -----

  /** The device a path names, tested in the order of the readiness check. On a retail console the
      PSX-only devices are never ready. */
  function DeviceOf(path: string): Device {
    if path == "" then Elsewhere
    else if "mc" <= path then Card
    else if "vmc" <= path then VirtualCard
    else if "xfrom" <= path then PsxOnly
    else if "mass" <= path || "usb" <= path then UsbDrive
    else if "mmce" <= path then MmceDrive
    else if "mx4sio" <= path then Mx4sioDrive
    else if "ata" <= path then AtaDrive
    else if "hdd" <= path || "pfs" <= path then HddDrive
    else if "dvr_hdd" <= path || "dvr_pfs" <= path then PsxOnly
    else if "cdfs" <= path then Disc
    else if "host" <= path then HostShare
    else if "udpfs" <= path then UdpfsShare
    else Elsewhere
  }

  predicate IsMc1(path: string) { "mc1:" <= path }

  function StorageGate(path: string): StorageMode {
    if "mmce" <= path then MmceStorage else if "mx4sio" <= path then Mx4sioStorage else DefaultStorage
  }

  /** The two ends sit on one controller port, or need two exclusive storage stacks. */
  predicate Incompatible(src: string, dst: string) {
    || ("mx4sio" <= src && IsMc1(dst))
    || (IsMc1(src) && "mx4sio" <= dst)
    || (StorageGate(src) != DefaultStorage && StorageGate(dst) != DefaultStorage && StorageGate(src) != StorageGate(dst))
  }

  lemma Starts(p: string, path: string)
    requires |p| >= 2
    ensures p <= path ==> |path| >= 2 && path[0] == p[0] && path[1] == p[1]
  {
  }

  /** Refused are exactly MX4SIO with card slot 2 or with MMCE, either way round. */
  lemma RefusedPairs(src: string, dst: string)
    ensures Incompatible(src, dst) <==>
              || ("mx4sio" <= src && ("mc1:" <= dst || "mmce" <= dst))
              || ("mx4sio" <= dst && ("mc1:" <= src || "mmce" <= src))
  {
    Starts("mmce", src);
    Starts("mx4sio", src);
    Starts("mmce", dst);
    Starts("mx4sio", dst);
  }

  /** The gate and the readiness check agree on which paths need an exclusive storage stack. */
  lemma GateMatchesDevice(path: string)
    ensures StorageGate(path) == MmceStorage <==> DeviceOf(path) == MmceDrive
    ensures StorageGate(path) == Mx4sioStorage <==> DeviceOf(path) == Mx4sioDrive
  {
    Starts("mmce", path);
    Starts("mx4sio", path);
  }

  /** A transfer between two different network stacks. */
  predicate TwoNetworks(a: Device, b: Device) {
    (a == HostShare && b == UdpfsShare) || (a == UdpfsShare && b == HostShare)
  }

  predicate TwoStorages(a: Device, b: Device) {
    (a == MmceDrive && b == Mx4sioDrive) || (a == Mx4sioDrive && b == MmceDrive)
  }

  /** A transfer let through by the gate never needs both storage stacks. */
  lemma GateExcludesTwoStorages(src: string, dst: string)
    requires !Incompatible(src, dst)
    ensures !TwoStorages(DeviceOf(src), DeviceOf(dst))
  {
    GateMatchesDevice(src);
    GateMatchesDevice(dst);
  }

  // ----- what ready means -----

  predicate PsxPath(path: string) {
    "xfrom" <= path || "dvr_hdd" <= path || "dvr_pfs" <= path
  }

  /** The driver that a path's prefix calls for is in memory, and a path that only a PSX has is not ready. */
  predicate DriverUp(path: string, loaded: set<Module>) {
    && ("mass" <= path || "usb" <= path ==> UsbMass in loaded)
    && ("mmce" <= path ==> Mmce in loaded)
    && ("mx4sio" <= path ==> Mx4sio in loaded)
    && ("ata" <= path ==> AtaBd in loaded)
    && ("hdd" <= path || "pfs" <= path ==> Ps2Hdd in loaded && Ps2Fs in loaded)
    && ("host" <= path ==> Ps2Host in loaded)
    && ("udpfs" <= path ==> UdpIoman in loaded)
    && !PsxPath(path)
  }

  /** One end is on host:, the other on UDPFS. */
  predicate AcrossNetworks(src: string, dst: string) {
    ("host" <= src && "udpfs" <= dst) || ("udpfs" <= src && "host" <= dst)
  }

  /** A memory card, real or virtual, a disc, or a path that no driver is known for. */
  predicate NeedsNoDriver(path: string) {
    || "mc" <= path || "vmc" <= path || "cdfs" <= path
    || (!("mass" <= path) && !("usb" <= path) && !("mmce" <= path) && !("mx4sio" <= path) && !("ata" <= path) && !("hdd" <= path)
        && !("pfs" <= path) && !("host" <= path) && !("udpfs" <= path) && !PsxPath(path))
  }

  /** No path starts with two of the prefixes: their first two letters differ. */
  lemma DeviceByPrefix(path: string)
    ensures "mass" <= path || "usb" <= path ==> DeviceOf(path) == UsbDrive
    ensures "mmce" <= path ==> DeviceOf(path) == MmceDrive
    ensures "mx4sio" <= path ==> DeviceOf(path) == Mx4sioDrive
    ensures "ata" <= path ==> DeviceOf(path) == AtaDrive
    ensures "hdd" <= path || "pfs" <= path ==> DeviceOf(path) == HddDrive
    ensures "host" <= path ==> DeviceOf(path) == HostShare
    ensures "udpfs" <= path ==> DeviceOf(path) == UdpfsShare
    ensures PsxPath(path) <==> DeviceOf(path) == PsxOnly
    ensures NeedsNoDriver(path) <==> DeviceOf(path) in {Card, VirtualCard, Disc, Elsewhere}
  {
    Starts("mc", path);
    Starts("vmc", path);
    Starts("xfrom", path);
    Starts("mass", path);
    Starts("usb", path);
    Starts("mmce", path);
    Starts("mx4sio", path);
    Starts("ata", path);
    Starts("hdd", path);
    Starts("pfs", path);
    Starts("dvr_hdd", path);
    Starts("dvr_pfs", path);
    Starts("cdfs", path);
    Starts("host", path);
    Starts("udpfs", path);
  }

  // ----- readiness -----

  method EnsurePathReady(stacks: Stacks, path: string) returns (ok: bool)
    requires stacks.Valid()
    modifies stacks
    ensures stacks.Valid() && stacks.Prepared(DeviceOf(path), ok || DeviceOf(path) == PsxOnly)
    ensures DeviceOf(path) == PsxOnly ==> !ok
    ensures ok ==> DriverUp(path, stacks.loaded)
    ensures NeedsNoDriver(path) ==> ok && stacks.loaded == old(stacks.loaded)
  {
    DeviceByPrefix(path);
    match DeviceOf(path) {
      case UsbDrive =>
        stacks.LoadUsb();
        ok := UsbMass in stacks.loaded;
      case MmceDrive => ok := stacks.LoadMmce();
      case Mx4sioDrive => ok := stacks.LoadMx4sio();
      case AtaDrive => ok := stacks.LoadAta();
      case HddDrive => ok := stacks.LoadHdd();
      case HostShare => ok := stacks.LoadHost();
      case UdpfsShare => ok := stacks.LoadUdpfs();
      case PsxOnly => ok := false;
      case _ => ok := true;
    }
  }

  datatype Verdict = Ready | LoadFailed | IncompatibleStacks

  /** Both ends' chains are in memory and neither would be reset away by asking again. */
  ghost predicate BothUp(stacks: Stacks, a: Device, b: Device)
    reads stacks
  {
    && Chain(a) <= stacks.loaded && Chain(b) <= stacks.loaded
    && !Conflicts(a, stacks.storage, stacks.network) && !Conflicts(b, stacks.storage, stacks.network)
  }

  /** What a READY verdict leaves behind: the destination is up and both ends have worked. Asking for the
      destination again would not reset; asking for the source would, exactly between two networks. The
      source may have been reset away by the destination. */
  ghost predicate Prepared(stacks: Stacks, a: Device, b: Device)
    reads stacks
  {
    && a != PsxOnly && b != PsxOnly
    && Chain(b) <= stacks.loaded
    && Needs(a) <= stacks.worked && Needs(b) <= stacks.worked
    && !Conflicts(b, stacks.storage, stacks.network)
    && (Conflicts(a, stacks.storage, stacks.network) <==> TwoNetworks(a, b))
  }

  /** Both ends exist on this console and everything they need is certain to load. */
  ghost predicate KnownToLoad(sure: set<Module>, a: Device, b: Device) {
    a != PsxOnly && b != PsxOnly && Needs(a) + Needs(b) <= sure
  }

  /** How making a device ready moves the stack modes. */
  ghost predicate ModesMove(d: Device, s: StorageMode, n: NetworkMode, s1: StorageMode, n1: NetworkMode) {
    StorageAfter(d, s, Conflicts(d, s, n), s1) && n1 == NetworkAfter(d, n, Conflicts(d, s, n))
  }

  /** When one device and then another has been made ready, the first conflicts with what is active now
      exactly if the two are on different networks. */
  lemma SecondConflicts(a: Device, b: Device, s: StorageMode, n: NetworkMode, s1: StorageMode, n1: NetworkMode,
                        s2: StorageMode, n2: NetworkMode)
    requires !TwoStorages(a, b) && ModesMove(a, s, n, s1, n1) && ModesMove(b, s1, n1, s2, n2)
    ensures !Conflicts(b, s2, n2) && (Conflicts(a, s2, n2) <==> TwoNetworks(a, b))
    ensures TwoNetworks(a, b) ==> Conflicts(b, s1, n1)
    ensures !Conflicts(b, s, n) && !TwoNetworks(a, b) ==> !Conflicts(b, s1, n1)
  {
  }

  method PrepareTransfer(stacks: Stacks, src: string, dst: string) returns (verdict: Verdict)
    requires stacks.Valid()
    modifies stacks
    ensures stacks.Valid()
    ensures verdict == IncompatibleStacks <==> Incompatible(src, dst)
    ensures verdict == IncompatibleStacks ==> stacks.loaded == old(stacks.loaded) && stacks.resets == old(stacks.resets)
    ensures verdict == Ready ==> Prepared(stacks, DeviceOf(src), DeviceOf(dst))
    ensures verdict == Ready ==> DriverUp(dst, stacks.loaded) && !PsxPath(src)
    ensures !Incompatible(src, dst) && KnownToLoad(old(stacks.Sure()), DeviceOf(src), DeviceOf(dst)) ==>
              verdict == Ready
  {
    if Incompatible(src, dst) {
      return IncompatibleStacks;
    }
    GateExcludesTwoStorages(src, dst);
    var ok := EnsureBoth(stacks, src, dst);
    return if ok then Ready else LoadFailed;
  }

  /** Makes the source ready and then the destination. */
  method EnsureBoth(stacks: Stacks, src: string, dst: string) returns (ok: bool)
    requires stacks.Valid() && !TwoStorages(DeviceOf(src), DeviceOf(dst))
    modifies stacks
    ensures stacks.Valid()
    ensures ok ==> Prepared(stacks, DeviceOf(src), DeviceOf(dst))
    ensures ok ==> DriverUp(dst, stacks.loaded) && !PsxPath(src)
    ensures ok && old(Prepared(stacks, DeviceOf(src), DeviceOf(dst))) ==>
              if TwoNetworks(DeviceOf(src), DeviceOf(dst)) then stacks.resets == old(stacks.resets) + 2
              else stacks.resets == old(stacks.resets) && Chain(DeviceOf(src)) <= stacks.loaded
    ensures KnownToLoad(old(stacks.Sure()), DeviceOf(src), DeviceOf(dst)) ==> ok
  {
    ghost var a, b, s, n := DeviceOf(src), DeviceOf(dst), stacks.storage, stacks.network;
    ok := EnsurePathReady(stacks, src);
    if ok {
      ghost var s1, n1 := stacks.storage, stacks.network;
      ok := EnsurePathReady(stacks, dst);
      SecondConflicts(a, b, s, n, s1, n1, stacks.storage, stacks.network);
    }
  }

  lemma ChainIsDriver(path: string, loaded: set<Module>)
    requires Chain(DeviceOf(path)) <= loaded && !PsxPath(path)
    ensures DriverUp(path, loaded)
  {
    DeviceByPrefix(path);
  }

  lemma DriversOfBothUp(stacks: Stacks, src: string, dst: string)
    requires stacks.Valid() && Prepared(stacks, DeviceOf(src), DeviceOf(dst))
    requires BothUp(stacks, DeviceOf(src), DeviceOf(dst)) <==> !TwoNetworks(DeviceOf(src), DeviceOf(dst))
    ensures DriverUp(src, stacks.loaded) && DriverUp(dst, stacks.loaded) <==> !AcrossNetworks(src, dst)
  {
    DeviceByPrefix(src);
    DeviceByPrefix(dst);
    if BothUp(stacks, DeviceOf(src), DeviceOf(dst)) {
      ChainIsDriver(src, stacks.loaded);
      ChainIsDriver(dst, stacks.loaded);
    } else {
      stacks.ExclusiveStacks();
    }
  }

  /** A prepared transfer of so many entries: the copy checks both ends again for each of them. While the loads
      succeed, that costs no reset and finds, or puts back, both chains; but between two networks each check
      resets twice and leaves one end down, however often it is repeated. */
  method PrepareThenCheck(stacks: Stacks, src: string, dst: string, entries: nat)
    returns (verdict: Verdict, ok: bool, ghost resetsBetween: int)
    requires stacks.Valid()
    modifies stacks
    ensures stacks.Valid()
    ensures verdict == Ready && ok ==> Prepared(stacks, DeviceOf(src), DeviceOf(dst))
    ensures verdict == Ready && ok ==>
              resetsBetween == if TwoNetworks(DeviceOf(src), DeviceOf(dst)) then 2 * entries else 0
    ensures verdict == Ready && ok && entries > 0 ==>
              (BothUp(stacks, DeviceOf(src), DeviceOf(dst)) <==> !TwoNetworks(DeviceOf(src), DeviceOf(dst)))
    ensures verdict == Ready && ok && entries > 0 ==>
              (DriverUp(src, stacks.loaded) && DriverUp(dst, stacks.loaded) <==> !AcrossNetworks(src, dst))
    ensures stacks.steady && verdict == Ready ==> ok
    ensures verdict != Ready ==> !ok && resetsBetween == 0
    ensures !Incompatible(src, dst) && KnownToLoad(old(stacks.Sure()), DeviceOf(src), DeviceOf(dst)) ==>
              verdict == Ready
  {
    ok, resetsBetween := false, 0;
    verdict := PrepareTransfer(stacks, src, dst);
    if verdict == Ready {
      GateExcludesTwoStorages(src, dst);
      ok, resetsBetween := CheckEach(stacks, src, dst, entries);
      if ok && entries > 0 {
        DriversOfBothUp(stacks, src, dst);
      }
    }
  }

  method CheckEach(stacks: Stacks, src: string, dst: string, entries: nat) returns (ok: bool, ghost resets: int)
    requires stacks.Valid() && !TwoStorages(DeviceOf(src), DeviceOf(dst)) && Prepared(stacks, DeviceOf(src), DeviceOf(dst))
    modifies stacks
    ensures stacks.Valid() && resets == stacks.resets - old(stacks.resets)
    ensures ok ==> Prepared(stacks, DeviceOf(src), DeviceOf(dst))
    ensures ok ==> resets == if TwoNetworks(DeviceOf(src), DeviceOf(dst)) then 2 * entries else 0
    ensures ok && entries > 0 ==>
              (BothUp(stacks, DeviceOf(src), DeviceOf(dst)) <==> !TwoNetworks(DeviceOf(src), DeviceOf(dst)))
    ensures stacks.steady ==> ok
  {
    ghost var a, b, before := DeviceOf(src), DeviceOf(dst), stacks.resets;
    ok := true;
    for i := 0 to entries
      invariant stacks.Valid() && Prepared(stacks, a, b) && ok
      invariant stacks.resets == before + if TwoNetworks(a, b) then 2 * i else 0
      invariant i > 0 ==> (BothUp(stacks, a, b) <==> !TwoNetworks(a, b))
    {
      ok := EnsureBoth(stacks, src, dst);
      if !ok {
        resets := stacks.resets - before;
        return;
      }
    }
    resets := stacks.resets - before;
  }

  lemma NetworkPaths()
    ensures DeviceOf("host:/") == HostShare && DeviceOf("udpfs:/") == UdpfsShare
  {
    var h, u := "host:/", "udpfs:/";
    assert h[0] == 'h' && h[1] == 'o' && u[0] == 'u' && u[1] == 'd';
    assert !("hdd" <= h) by { assert "hdd"[1] != h[1]; }
    assert !("usb" <= u) by { assert "usb"[1] != u[1]; }
    assert h[..4] == "host" && u[..5] == "udpfs";
  }

  /** Three entries from host: to udpfs:, with drivers that all have loaded before: six resets, and at the end
      one of the two stacks is down. */
  method CopyAcrossNetworks(stacks: Stacks) returns (verdict: Verdict, ok: bool, ghost resetsBetween: int)
    requires stacks.Valid() && stacks.steady && KnownToLoad(stacks.Sure(), HostShare, UdpfsShare)
    modifies stacks
    ensures verdict == Ready && ok && resetsBetween == 6
    ensures !BothUp(stacks, HostShare, UdpfsShare)
  {
    NetworkPaths();
    verdict, ok, resetsBetween := PrepareThenCheck(stacks, "host:/", "udpfs:/", 3);
  }

  // ----- every run -----

  datatype Operation =
    | Visit(path: string)
    | UseCard(port: int)
    | Transfer(src: string, dst: string)
    | StartServices
    | Reboot

  /** However a session goes, and whichever loads fail, no two exclusive stacks are ever in memory together. */
  method Run(stacks: Stacks, operations: seq<Operation>)
    requires stacks.Valid()
    modifies stacks
    ensures stacks.Valid()
    ensures !(Mmce in stacks.loaded && Mx4sio in stacks.loaded)
    ensures stacks.loaded !! ETH_MODULES || stacks.loaded !! UDPFS_MODULES
  {
    for i := 0 to |operations|
      invariant stacks.Valid()
    {
      match operations[i] {
        case Visit(path) => var ok := EnsurePathReady(stacks, path);
        case UseCard(port) => stacks.EnsureCardPort(port);
        case Transfer(src, dst) => var verdict := PrepareTransfer(stacks, src, dst);
        case StartServices => stacks.LoadNetServices();
        case Reboot => stacks.ResetRuntime();
      }
    }
    stacks.ExclusiveStacks();
  }
}
