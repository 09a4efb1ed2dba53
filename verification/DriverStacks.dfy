/** The IOP driver stacks: which driver modules are loaded, which mutually exclusive stack is active,
    and when the IOP has to be reset. Loading a module may fail. */
module DriverStacks {

  datatype Module =
    | Usbd | Bdm | Bdmfs | UsbMass | Kbd
    | Dev9 | AtaBd | Ps2Hdd | Ps2Fs
    | Mmce | Mx4sio
    | Ps2Ip | Ps2Smap | Ps2Host | Ps2Netfs | Ps2Ftpd | HostDevice
    | UdpSmap | UdpMinistack | UdpIoman

  datatype StorageMode = DefaultStorage | MmceStorage | Mx4sioStorage

  datatype NetworkMode = NoNetwork | EthNetwork | UdpfsNetwork

  datatype Block = HddBlock | AtaBlock

  /** What a path names, as far as drivers are concerned. */
  datatype Device =
    | Card | VirtualCard | UsbDrive | MmceDrive | Mx4sioDrive | AtaDrive | HddDrive | Disc
    | HostShare | UdpfsShare | PsxOnly | Elsewhere

  // ----- what each device needs -----

  const BDM_CORE: set<Module> := {Bdm, Bdmfs}
  const ATA_CHAIN: set<Module> := {Bdm, Bdmfs, Dev9, AtaBd}
  const ETH_CHAIN: set<Module> := {Dev9, Ps2Ip, Ps2Smap}
  const ETH_MODULES: set<Module> := {Ps2Ip, Ps2Smap, Ps2Host, Ps2Netfs, Ps2Ftpd}
  const KEYBOARD_MODULES: set<Module> := {Usbd, Bdm, Bdmfs, UsbMass, Kbd}
  const UDPFS_MODULES: set<Module> := {UdpSmap, UdpMinistack, UdpIoman}

  /** The driver chain that has to be in place for a device. */
  function Chain(d: Device): set<Module> {
    match d
    case UsbDrive => {Usbd, Bdm, Bdmfs, UsbMass}
    case MmceDrive => {Mmce}
    case Mx4sioDrive => {Bdm, Bdmfs, Mx4sio}
    case AtaDrive => ATA_CHAIN
    case HddDrive => ATA_CHAIN + {Ps2Hdd, Ps2Fs}
    case HostShare => ETH_CHAIN + {Ps2Host}
    case UdpfsShare => {Dev9, UdpSmap, UdpMinistack, UdpIoman}
    case _ => {}
  }

  /** What has to work for a device to be ready: its drivers, and for host: also the remote end.
      The remote end is not a module; it is asked anew each time. */
  function Needs(d: Device): set<Module> {
    if d == HostShare then Chain(d) + {HostDevice} else Chain(d)
  }

  /** A module is only ever loaded on top of these. */
  function Below(m: Module): set<Module> {
    match m
    case Bdmfs => {Bdm}
    case UsbMass => {Usbd, Bdm, Bdmfs}
    case Kbd => {Usbd}
    case AtaBd => {Bdm, Bdmfs, Dev9}
    case Ps2Hdd => ATA_CHAIN
    case Ps2Fs => ATA_CHAIN + {Ps2Hdd}
    case Mx4sio => BDM_CORE
    case Ps2Ip => {Dev9}
    case Ps2Smap => {Dev9, Ps2Ip}
    case Ps2Host => ETH_CHAIN
    case Ps2Netfs => ETH_CHAIN
    case Ps2Ftpd => ETH_CHAIN
    case UdpSmap => {Dev9}
    case UdpMinistack => {Dev9, UdpSmap}
    case UdpIoman => {Dev9, UdpSmap, UdpMinistack}
    case _ => {}
  }

  ghost predicate Stacked(loaded: set<Module>) {
    forall m :: m in loaded ==> Below(m) <= loaded
  }

  lemma StackedOn(loaded: set<Module>, m: Module)
    requires Stacked(loaded) && Below(m) <= loaded
    ensures Stacked(loaded + {m})
  {
  }

  /** Loading this device's drivers now would reset the IOP. */
  predicate Conflicts(d: Device, storage: StorageMode, network: NetworkMode) {
    || (d == MmceDrive && storage == Mx4sioStorage)
    || (d == Mx4sioDrive && storage == MmceStorage)
    || (d == HostShare && network == UdpfsNetwork)
    || (d == UdpfsShare && network == EthNetwork)
  }

  lemma BlocksCoexist(block: set<Block>, target: Block)
    requires target !in block
    ensures block == {} || block + {target} == {HddBlock, AtaBlock}
  {
    if block != {} {
      var b :| b in block;
      assert b != target;
      assert (b == HddBlock && target == AtaBlock) || (b == AtaBlock && target == HddBlock);
      forall x: Block ensures x in block + {target} && x in {HddBlock, AtaBlock} {
        match x {
          case HddBlock =>
          case AtaBlock =>
        }
      }
    }
  }

  /** Which storage stack may be active once a device has been made ready. */
  ghost predicate StorageAfter(d: Device, before: StorageMode, conflict: bool, after: StorageMode) {
    || after == (if conflict then DefaultStorage else before)
    || (d == MmceDrive && after == MmceStorage)
    || (d == Mx4sioDrive && after == Mx4sioStorage)
  }

  ghost function NetworkAfter(d: Device, before: NetworkMode, conflict: bool): NetworkMode {
    match d
    case HostShare => EthNetwork
    case UdpfsShare => UdpfsNetwork
    case _ => if conflict then NoNetwork else before
  }

  class Stacks {
    var loaded: set<Module>
    /** Modules that have loaded at some time since power-on. */
    var worked: set<Module>
    /** Modules that load whenever they are sent. */
    const loadable: set<Module>
    /** Whether a module that has loaded once always loads again. */
    const steady: bool
    var dev9Tried: bool
    var hddStack: bool
    var poweroffDone: bool
    var keyboardOpened: bool
    var storage: StorageMode
    var block: set<Block>
    var network: NetworkMode
    var resets: nat
    const keyboardUsed: bool
    /** Whether the keyboard's own driver file lies on a USB drive. */
    const keyboardOnUsb: bool

    /** What is certain to load now. */
    ghost function Sure(): set<Module>
      reads `worked
    {
      if steady then loadable + worked else loadable
    }

    ghost predicate Valid()
      reads this
    {
      && Stacked(loaded) && loaded <= worked
      && (Mmce in loaded <==> storage == MmceStorage)
      && (Mx4sio in loaded <==> storage == Mx4sioStorage)
      && (network != EthNetwork ==> loaded !! ETH_MODULES)
      && (network != UdpfsNetwork ==> loaded !! UDPFS_MODULES)
      && (hddStack ==> Ps2Hdd in loaded && Ps2Fs in loaded)
      && (HddBlock in block ==> hddStack)
      && (AtaBlock in block ==> AtaBd in loaded)
      && (Dev9 in loaded ==> dev9Tried)
      && (Dev9 in Sure() && dev9Tried ==> Dev9 in loaded)
    }

    /** At most one of two exclusive stacks is in memory. */
    lemma ExclusiveStacks()
      requires Valid()
      ensures !(Mmce in loaded && Mx4sio in loaded)
      ensures loaded !! ETH_MODULES || loaded !! UDPFS_MODULES
    {
    }

    constructor (loadable: set<Module>, steady: bool, keyboardUsed: bool, keyboardOnUsb: bool)
      ensures Valid() && loaded == {} && resets == 0 && this.loadable == loadable && this.steady == steady
    {
      this.loadable, this.steady, this.keyboardUsed, this.keyboardOnUsb := loadable, steady, keyboardUsed, keyboardOnUsb;
      loaded, worked, dev9Tried, hddStack, poweroffDone, keyboardOpened := {}, {}, false, false, false, false;
      storage, block, network, resets := DefaultStorage, {}, NoNetwork, 0;
    }

    /** Sends one module to the IOP. */
    method Execute(m: Module) returns (ok: bool)
      modifies `worked
      ensures worked == if ok then old(worked) + {m} else old(worked)
      ensures m in old(Sure()) ==> ok
    {
      ok := *;
      if m in loadable || (steady && m in worked) {
        ok := true;
      }
      if ok {
        worked := worked + {m};
      }
    }

    /** Loads a module unless it is already there. */
    method Load(m: Module) returns (ok: bool)
      modifies `loaded, `worked
      ensures ok <==> m in loaded
      ensures loaded == if ok then old(loaded) + {m} else old(loaded)
      ensures old(worked) <= worked <= old(worked) + loaded
      ensures m in loaded && m !in old(loaded) ==> m in worked
      ensures m in old(Sure()) ==> ok
    {
      if m !in loaded {
        ok := Execute(m);
        if ok {
          loaded := loaded + {m};
        }
      } else {
        ok := true;
      }
    }

    // ----- the loaders that never reset -----

    /** A loader without a stack switch only adds modules. */
    twostate predicate Grew()
      reads this
    {
      && old(loaded) <= loaded && old(worked) <= worked
      && storage == old(storage) && block == old(block) && network == old(network) && resets == old(resets)
    }

    /** Whether a module may be loaded now without touching a stack mode. */
    predicate Allowed(m: Module)
      reads `loaded, `network
    {
      && m != Mmce && m != Mx4sio && m != Dev9
      && (m in ETH_MODULES ==> network == EthNetwork)
      && (m in UDPFS_MODULES ==> network == UdpfsNetwork)
      && Below(m) <= loaded
    }

    /** Loads a module whose foundations are in place. */
    method Add(m: Module) returns (ok: bool)
      requires Valid() && Allowed(m)
      modifies `loaded, `worked
      ensures Valid() && Grew() && loaded <= old(loaded) + {m}
      ensures ok <==> m in loaded
      ensures m in old(Sure()) ==> ok
    {
      StackedOn(loaded, m);
      ok := Load(m);
      assert loaded <= worked;
    }

    method LoadDev9()
      requires Valid()
      modifies `loaded, `worked, `dev9Tried
      ensures Valid() && Grew() && dev9Tried
      ensures Dev9 in old(Sure()) ==> Dev9 in loaded
    {
      if !dev9Tried {
        var ok := Load(Dev9);
        dev9Tried := true;
      }
    }

    method SetupPoweroff()
      requires Valid()
      modifies `loaded, `worked, `dev9Tried, `poweroffDone
      ensures Valid() && Grew() && poweroffDone
      ensures if old(poweroffDone) then loaded == old(loaded) else dev9Tried
    {
      if !poweroffDone {
        LoadDev9();
        poweroffDone := true;
      }
    }

    method LoadBdmCore() returns (ok: bool)
      requires Valid()
      modifies `loaded, `worked
      ensures Valid() && Grew() && loaded <= old(loaded) + BDM_CORE
      ensures ok <==> BDM_CORE <= loaded
      ensures BDM_CORE <= old(Sure()) ==> ok
    {
      ok := Add(Bdm);
      if ok {
        ok := Add(Bdmfs);
      }
    }

    method LoadUsb()
      requires Valid()
      modifies `loaded, `worked
      ensures Valid() && Grew() && loaded <= old(loaded) + Chain(UsbDrive)
      ensures UsbMass in loaded ==> Chain(UsbDrive) <= loaded
      ensures Chain(UsbDrive) <= old(Sure()) ==> UsbMass in loaded
    {
      var usbd := Add(Usbd);
      if usbd && UsbMass !in loaded {
        var core := LoadBdmCore();
        if core {
          var ok := Add(UsbMass);
        }
      }
    }

    method LoadAtaBlockDriver() returns (ok: bool)
      requires Valid()
      modifies `loaded, `worked, `dev9Tried
      ensures Valid() && Grew()
      ensures ok ==> ATA_CHAIN <= loaded
      ensures ATA_CHAIN <= old(Sure()) ==> ok
    {
      var core := LoadBdmCore();
      if !core {
        return false;
      }
      LoadDev9();
      if Dev9 !in loaded {
        return false;
      }
      ok := Add(AtaBd);
    }

    /** PS2HDD and PS2FS on top of the ATA block driver. */
    method LoadHddStack() returns (ok: bool)
      requires Valid()
      modifies `loaded, `worked, `dev9Tried
      ensures Valid() && Grew()
      ensures ok ==> Chain(HddDrive) <= loaded
      ensures Ps2Hdd in loaded && Ps2Fs in loaded ==> Chain(HddDrive) <= loaded
      ensures Chain(HddDrive) <= old(Sure()) ==> ok
    {
      var ata := LoadAtaBlockDriver();
      if !ata {
        return false;
      }
      ok := Add(Ps2Hdd);
      if ok {
        ok := Add(Ps2Fs);
      }
    }

    method LoadEthStack()
      requires Valid() && network == EthNetwork
      modifies `loaded, `worked, `dev9Tried
      ensures Valid() && Grew()
      ensures Ps2Smap in loaded ==> ETH_CHAIN <= loaded
      ensures ETH_CHAIN <= old(Sure()) ==> Ps2Smap in loaded
    {
      LoadDev9();
      if Dev9 !in loaded {
        return;
      }
      var ip := Add(Ps2Ip);
      if ip {
        var smap := Add(Ps2Smap);
      }
    }

    // ----- the reset -----

    /** The keyboard is in use if its driver is there, and both are there if they are certain to load. */
    ghost predicate KeyboardStarted(sure: set<Module>)
      reads this
    {
      && (keyboardOpened <==> Kbd in loaded) && ({Usbd, Kbd} <= sure ==> keyboardOpened)
      && (keyboardOnUsb && Chain(UsbDrive) <= sure ==> UsbMass in loaded)
    }

    method StartKeyboard()
      requires Valid()
      modifies `loaded, `worked, `keyboardOpened
      ensures Valid() && Grew() && loaded <= old(loaded) + KEYBOARD_MODULES
      ensures !keyboardUsed || old(keyboardOpened) ==> loaded == old(loaded) && keyboardOpened == old(keyboardOpened)
      ensures keyboardUsed && !old(keyboardOpened) ==> KeyboardStarted(old(Sure()))
      ensures keyboardUsed && !keyboardOnUsb ==> loaded <= old(loaded) + {Usbd, Kbd}
    {
      if keyboardUsed && !keyboardOpened {
        keyboardOpened := LoadKeyboardModules();
      }
    }

    method LoadKeyboardModules() returns (ok: bool)
      requires Valid()
      modifies `loaded, `worked
      ensures Valid() && Grew() && loaded <= old(loaded) + KEYBOARD_MODULES
      ensures (ok <==> Kbd in loaded) && ({Usbd, Kbd} <= old(Sure()) ==> ok)
      ensures if keyboardOnUsb then Chain(UsbDrive) <= old(Sure()) ==> UsbMass in loaded else loaded <= old(loaded) + {Usbd, Kbd}
    {
      if keyboardOnUsb {
        LoadUsb();
      }
      ok := Add(Usbd);
      if ok {
        ok := Add(Kbd);
      }
    }

    /** Resets the IOP: every module is gone and every mode is back to its default; then the keyboard returns,
        with the USB drive its driver may be on. */
    method ResetRuntime()
      requires Valid()
      modifies this
      ensures Valid() && resets == old(resets) + 1
      ensures storage == DefaultStorage && block == {} && network == NoNetwork
      ensures old(worked) <= worked && loaded <= KEYBOARD_MODULES
      ensures !hddStack && !poweroffDone && !dev9Tried
      ensures if keyboardUsed then KeyboardStarted(old(Sure())) && (!keyboardOnUsb ==> loaded <= {Usbd, Kbd}) else loaded == {}
    {
      loaded := {};
      dev9Tried, hddStack, poweroffDone, keyboardOpened := false, false, false, false;
      storage, block, network := DefaultStorage, {}, NoNetwork;
      resets := resets + 1;
      StartKeyboard();
    }

    /** Using memory card slot 2 while MX4SIO occupies it. */
    method EnsureCardPort(port: int)
      requires Valid()
      modifies this
      ensures Valid() && old(worked) <= worked
      ensures port == 1 ==> Mx4sio !in loaded
      ensures resets == old(resets) + if port == 1 && old(storage) == Mx4sioStorage then 1 else 0
      ensures resets == old(resets) ==> loaded == old(loaded) && storage == old(storage) && network == old(network)
    {
      if port == 1 && (storage == Mx4sioStorage || Mx4sio in loaded) {
        ResetRuntime();
      }
    }

    // ----- the switches -----

    method SwitchStorage(target: StorageMode)
      requires Valid() && target != DefaultStorage
      modifies this
      ensures Valid() && old(worked) <= worked
      ensures old(storage) in {DefaultStorage, target} ==>
                resets == old(resets) && loaded == old(loaded) && storage == old(storage)
                && block == old(block) && network == old(network)
      ensures old(storage) !in {DefaultStorage, target} ==>
                resets == old(resets) + 1 && storage == DefaultStorage && network == NoNetwork
    {
      if storage == target {
        return;
      }
      if storage != DefaultStorage {
        ResetRuntime();
      }
    }

    /** HDD and ATA share one session, so this switch never resets. */
    method SwitchBlock(target: Block)
      requires Valid()
      modifies this
      ensures Valid() && resets == old(resets) && loaded == old(loaded) && worked == old(worked)
      ensures storage == old(storage) && block == old(block) && network == old(network)
    {
      if target in block {
        return;
      }
      BlocksCoexist(block, target);
      if block + {target} == {HddBlock, AtaBlock} {
        return;
      }
      if block != {} {
        // Only a third kind of block stack could get here and force a reset.
        assert false;
      }
    }

    method SwitchNetwork(target: NetworkMode)
      requires Valid() && target != NoNetwork
      modifies this
      ensures Valid() && old(worked) <= worked && network == target
      ensures old(network) in {NoNetwork, target} ==>
                resets == old(resets) && loaded == old(loaded) && storage == old(storage) && block == old(block)
      ensures old(network) !in {NoNetwork, target} ==> resets == old(resets) + 1 && storage == DefaultStorage
    {
      if network == target {
        return;
      }
      if network != NoNetwork {
        ResetRuntime();
      }
      network := target;
    }

    // ----- the loaders of switched stacks -----

    /** What making a device ready does: it resets exactly when the device conflicts with the active stack,
        otherwise it only adds modules; and success means the whole chain is in place. */
    twostate predicate Prepared(d: Device, ok: bool)
      reads this
    {
      var conflict := old(Conflicts(d, storage, network));
      && old(worked) <= worked
      && resets == old(resets) + (if conflict then 1 else 0)
      && (!conflict ==> old(loaded) <= loaded)
      && StorageAfter(d, old(storage), conflict, storage)
      && network == NetworkAfter(d, old(network), conflict)
      && (ok ==> Chain(d) <= loaded && Needs(d) <= worked)
      && (Needs(d) <= old(Sure()) ==> ok)
    }

    method LoadMmce() returns (ok: bool)
      requires Valid()
      modifies this
      ensures Valid() && Prepared(MmceDrive, ok)
      ensures ok <==> Mmce in loaded
    {
      SwitchStorage(MmceStorage);
      ok := InsertMmce();
    }

    method InsertMmce() returns (ok: bool)
      requires Valid() && storage != Mx4sioStorage
      modifies `loaded, `worked, `storage
      ensures Valid() && old(loaded) <= loaded && old(worked) <= worked
      ensures ok <==> Mmce in loaded
      ensures storage == if ok then MmceStorage else old(storage)
      ensures ok ==> Mmce in worked
      ensures Mmce in old(Sure()) ==> ok
    {
      ok := Load(Mmce);
      if ok {
        storage := MmceStorage;
      }
    }

    method LoadMx4sio() returns (ok: bool)
      requires Valid()
      modifies this
      ensures Valid() && Prepared(Mx4sioDrive, ok)
      ensures ok <==> Mx4sio in loaded
    {
      SwitchStorage(Mx4sioStorage);
      var core := LoadBdmCore();
      if !core {
        return false;
      }
      ok := InsertMx4sio();
    }

    method InsertMx4sio() returns (ok: bool)
      requires Valid() && storage != MmceStorage && BDM_CORE <= loaded
      modifies `loaded, `worked, `storage
      ensures Valid() && old(loaded) <= loaded && old(worked) <= worked
      ensures ok <==> Mx4sio in loaded
      ensures storage == if ok then Mx4sioStorage else old(storage)
      ensures ok ==> Mx4sio in worked
      ensures Mx4sio in old(Sure()) ==> ok
    {
      ok := Load(Mx4sio);
      if ok {
        storage := Mx4sioStorage;
      }
    }

    method LoadAta() returns (ok: bool)
      requires Valid()
      modifies this
      ensures Valid() && Prepared(AtaDrive, ok)
      ensures ok <==> AtaBd in loaded
      ensures block == if ok then old(block) + {AtaBlock} else old(block)
    {
      if AtaBlock in block && ATA_CHAIN <= loaded {
        return true;
      }
      SwitchBlock(AtaBlock);
      SetupPoweroff();
      var driver := LoadAtaBlockDriver();
      ok := AtaBd in loaded;
      if ok {
        block := block + {AtaBlock};
      }
    }

    method LoadHdd() returns (ok: bool)
      requires Valid()
      modifies this
      ensures Valid() && Prepared(HddDrive, ok)
      ensures ok <==> Ps2Hdd in loaded && Ps2Fs in loaded
      ensures block == if ok then old(block) + {HddBlock} else old(block)
    {
      if HddBlock in block && hddStack {
        return true;
      }
      SwitchBlock(HddBlock);
      if !hddStack {
        BuildHddStack();
      }
      ok := EnterHddBlock();
    }

    method EnterHddBlock() returns (ok: bool)
      requires Valid()
      modifies `block
      ensures Valid() && ok == hddStack && block == if ok then old(block) + {HddBlock} else old(block)
    {
      ok := hddStack;
      if ok {
        block := block + {HddBlock};
      }
    }

    method BuildHddStack()
      requires Valid() && !hddStack
      modifies `loaded, `worked, `dev9Tried, `poweroffDone, `hddStack
      ensures Valid() && Grew()
      ensures hddStack <==> Ps2Hdd in loaded && Ps2Fs in loaded
      ensures hddStack ==> Chain(HddDrive) <= loaded
      ensures Chain(HddDrive) <= old(Sure()) ==> hddStack
    {
      SetupPoweroff();
      var stack := LoadHddStack();
      hddStack := Ps2Hdd in loaded && Ps2Fs in loaded;
    }

    /** host: needs the Ethernet stack and an answer from the other end. */
    method LoadHost() returns (ok: bool)
      requires Valid()
      modifies this
      ensures Valid() && Prepared(HostShare, ok)
      ensures ok ==> Ps2Host in loaded
    {
      SwitchNetwork(EthNetwork);
      SetupPoweroff();
      ok := LoadHostModule();
      if ok {
        ok := Execute(HostDevice);
      }
    }

    method LoadHostModule() returns (ok: bool)
      requires Valid() && network == EthNetwork
      modifies `loaded, `worked, `dev9Tried
      ensures Valid() && Grew()
      ensures ok ==> Chain(HostShare) <= loaded
      ensures ok <==> Ps2Host in loaded
      ensures Chain(HostShare) <= old(Sure()) ==> ok
    {
      LoadEthStack();
      ok := false;
      if Ps2Smap in loaded {
        ok := Add(Ps2Host);
      }
    }

    method LoadUdpfs() returns (ok: bool)
      requires Valid()
      modifies this
      ensures Valid() && Prepared(UdpfsShare, ok)
      ensures ok <==> UdpIoman in loaded
    {
      SwitchNetwork(UdpfsNetwork);
      SetupPoweroff();
      ok := LoadUdpfsModules();
    }

    method LoadUdpfsModules() returns (ok: bool)
      requires Valid() && network == UdpfsNetwork
      modifies `loaded, `worked, `dev9Tried
      ensures Valid() && Grew()
      ensures ok ==> Chain(UdpfsShare) <= loaded
      ensures ok <==> UdpIoman in loaded
      ensures Chain(UdpfsShare) <= old(Sure()) ==> ok
    {
      LoadDev9();
      ok := Dev9 in loaded;
      if ok {
        ok := LoadUdpStack();
      }
    }

    method LoadUdpStack() returns (ok: bool)
      requires Valid() && network == UdpfsNetwork && Dev9 in loaded
      modifies `loaded, `worked
      ensures Valid() && Grew()
      ensures ok <==> UdpIoman in loaded
      ensures UDPFS_MODULES <= old(Sure()) ==> ok
    {
      ok := Add(UdpSmap);
      if ok {
        ok := LoadUdpIoman();
      }
    }

    method LoadUdpIoman() returns (ok: bool)
      requires Valid() && network == UdpfsNetwork && Dev9 in loaded && UdpSmap in loaded
      modifies `loaded, `worked
      ensures Valid() && Grew()
      ensures ok <==> UdpIoman in loaded
      ensures {UdpMinistack, UdpIoman} <= old(Sure()) ==> ok
    {
      ok := Add(UdpMinistack);
      if ok {
        ok := Add(UdpIoman);
      }
    }

    /** The network services that run beside the file manager. */
    method LoadNetServices()
      requires Valid()
      modifies this
      ensures Valid() && old(worked) <= worked
    {
      SwitchNetwork(EthNetwork);
      LoadEthStack();
      if Ps2Smap in loaded {
        var netfs := Add(Ps2Netfs);
      }
      LoadEthStack();
      if Ps2Smap in loaded {
        var ftpd := Add(Ps2Ftpd);
      }
    }
  }
}
