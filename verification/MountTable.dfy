/** The table of mounted hard-disk partitions, the virtual memory cards that pin some of them, and the
    four PFS units of the device they are meant to describe. */
module MountTable {
  import opened Paths

  const LIMIT := 4

  // ----- the table as a value -----

  /** Recorded partitions are distinct and are what the device really holds. */
  ghost predicate Agrees(mounted: seq<string>, device: seq<string>, latest: int) {
    && |mounted| == |device| == LIMIT && -1 <= latest < LIMIT
    && (forall i :: 0 <= i < LIMIT && mounted[i] != "" ==> device[i] == mounted[i])
    && (forall i, j :: 0 <= i < j < LIMIT && mounted[i] != "" ==> mounted[i] != mounted[j])
    && (latest >= 0 ==> mounted[latest] != "")
  }

  /** Unit j holds the file of a mounted virtual card. */
  predicate Backs(j: int, vmcMounted: seq<bool>, vmcParty: seq<int>)
    requires |vmcMounted| == |vmcParty| == 2
  {
    (vmcMounted[0] && vmcParty[0] == j) || (vmcMounted[1] && vmcParty[1] == j)
  }

  /** Pinned units are exactly those that back a mounted virtual card, and those are in use. */
  ghost predicate PinsExact(mounted: seq<string>, partyVmc: seq<int>, vmcMounted: seq<bool>, vmcParty: seq<int>) {
    && |mounted| == |partyVmc| == LIMIT && |vmcMounted| == |vmcParty| == 2
    && (forall j :: 0 <= j < LIMIT ==> (partyVmc[j] >= 0 <==> Backs(j, vmcMounted, vmcParty)))
    && (forall j :: 0 <= j < LIMIT && partyVmc[j] >= 0 ==> mounted[j] != "")
    && (forall v :: 0 <= v < 2 ==> -1 <= vmcParty[v] < LIMIT && (!vmcMounted[v] ==> vmcParty[v] == -1))
  }

  /** The unit is the latest mounted or backs a virtual card. */
  predicate Needed(i: int, latest: int, partyVmc: seq<int>)
    requires 0 <= i < |partyVmc|
  {
    i == latest || partyVmc[i] >= 0
  }

  /** Every needed unit is as it was, in the table and on the device. */
  ghost predicate NeededKept(latest: int, partyVmc: seq<int>, mounted0: seq<string>, device0: seq<string>,
                             mounted1: seq<string>, device1: seq<string>)
    requires |partyVmc| == |mounted0| == |device0| == |mounted1| == |device1| == LIMIT
  {
    forall i :: 0 <= i < LIMIT && Needed(i, latest, partyVmc) ==> mounted1[i] == mounted0[i] && device1[i] == device0[i]
  }

  /** What the table takes for free nobody else has mounted anything on. */
  ghost predicate FreeIsFree(mounted: seq<string>, device: seq<string>)
    requires |mounted| == |device| == LIMIT
  {
    forall k :: 0 <= k < LIMIT && mounted[k] == "" ==> device[k] == ""
  }

  /** Every partition that was mounted still is, on its unit. */
  ghost predicate OthersKept(mounted0: seq<string>, mounted1: seq<string>)
    requires |mounted0| == |mounted1| == LIMIT
  {
    forall k :: 0 <= k < LIMIT && mounted0[k] != "" ==> mounted1[k] == mounted0[k]
  }

  /** Two cards and the latest mount can hold three of the four units: one can always be given up. */
  lemma SomeEvictable(mounted: seq<string>, partyVmc: seq<int>, vmcMounted: seq<bool>, vmcParty: seq<int>, latest: int)
    requires PinsExact(mounted, partyVmc, vmcMounted, vmcParty)
    ensures exists i :: 0 <= i < LIMIT && !Needed(i, latest, partyVmc)
  {
    var a, b := vmcParty[0], vmcParty[1];
    var i := if 0 != latest && 0 != a && 0 != b then 0
             else if 1 != latest && 1 != a && 1 != b then 1
             else if 2 != latest && 2 != a && 2 != b then 2
             else 3;
    assert !Backs(i, vmcMounted, vmcParty);
    assert !Needed(i, latest, partyVmc);
  }

  /** The partition file behind a mounted virtual card survives whatever keeps the needed units. */
  lemma CardStaysBacked(v: int, latest: int, partyVmc: seq<int>, vmcMounted: seq<bool>, vmcParty: seq<int>,
                        mounted0: seq<string>, device0: seq<string>, mounted1: seq<string>, device1: seq<string>)
    requires PinsExact(mounted0, partyVmc, vmcMounted, vmcParty) && Agrees(mounted0, device0, latest)
    requires |mounted1| == |device1| == LIMIT
    requires NeededKept(latest, partyVmc, mounted0, device0, mounted1, device1)
    requires 0 <= v < 2 && vmcMounted[v] && vmcParty[v] >= 0
    ensures var j := vmcParty[v]; mounted1[j] == mounted0[j] != "" && device1[j] == mounted1[j]
  {
    var j := vmcParty[v];
    assert Backs(j, vmcMounted, vmcParty);
    assert Needed(j, latest, partyVmc);
  }

  // ----- the clipboard -----

  /** The partition "hddN:name" out of a path "hddN:/name/...", or the empty string. */
  function PartyOfPath(path: string): string {
    if |path| < 7 || path[..3] != "hdd" || !('0' <= path[3] <= '9') || path[4] != ':' || path[5] != '/' then ""
    else
      var name := UpToSlash(path[6..]);
      if name == "" then "" else "hdd" + [path[3]] + ":" + name
  }

  /** Which path gives which partition: the name runs up to the next slash or the end. */
  lemma PartyRoundTrip(unit: char, name: string, rest: string)
    requires '0' <= unit <= '9' && name != "" && '/' !in name
    requires rest == "" || rest[0] == '/'
    ensures PartyOfPath("hdd" + [unit] + ":/" + name + rest) == "hdd" + [unit] + ":" + name
  {
    var path := "hdd" + [unit] + ":/" + name + rest;
    assert path[..3] == "hdd" && path[6..] == name + rest;
    UpToSlashStops(name, rest);
  }

  predicate ClipboardUses(clipPath: string, clipCount: int, party: string) {
    clipCount > 0 && PartyOfPath(clipPath) != "" && PartyOfPath(clipPath) == party
  }

  /** A clipboard that holds something needs the partition its path names, and no other path needs any. */
  lemma ClipboardUsesOwnParty(unit: char, name: string, rest: string, other: string, count: int, party: string)
    requires '0' <= unit <= '9' && name != "" && '/' !in name && (rest == "" || rest[0] == '/')
    ensures ClipboardUses("hdd" + [unit] + ":/" + name + rest, count, party) <==> count > 0 && party == "hdd" + [unit] + ":" + name
    ensures !("hdd" <= other) ==> PartyOfPath(other) == "" && !ClipboardUses(other, count, party)
  {
    PartyRoundTrip(unit, name, rest);
    if !("hdd" <= other) && |other| >= 3 {
      assert other[..3] != "hdd";
    }
  }

  // ----- the table in place -----

  class Mounts {
    /** The partition the table records for each unit; empty when the unit is free. */
    var mounted: seq<string>
    var latest: int
    /** A virtual card that lives on the unit's partition, or -1. */
    var partyVmc: seq<int>
    var vmcMounted: seq<bool>
    /** The unit whose partition holds the virtual card's file, or -1. */
    var vmcParty: seq<int>
    /** What each PFS unit of the device really holds; the FTP server mounts partitions there too. */
    var device: seq<string>
    /** A device that does what it is asked whenever it can. */
    const reliable: bool

    ghost predicate Valid()
      reads this
    {
      Agrees(mounted, device, latest) && PinsExact(mounted, partyVmc, vmcMounted, vmcParty)
    }

    constructor (reliable: bool)
      ensures Valid() && mounted == ["", "", "", ""] && latest == -1 && this.reliable == reliable
    {
      this.reliable := reliable;
      mounted, device, partyVmc := ["", "", "", ""], ["", "", "", ""], [-1, -1, -1, -1];
      latest, vmcMounted, vmcParty := -1, [false, false], [-1, -1];
    }

    // ----- the device -----

    /** Mounting fails on an occupied unit and may fail anyway. */
    method DeviceMount(i: int, party: string) returns (ok: bool)
      requires 0 <= i < |device|
      modifies `device
      ensures ok ==> old(device[i]) == "" && device == old(device)[i := party]
      ensures !ok ==> device == old(device) && !(reliable && device[i] == "")
    {
      ok := *;
      ok := ok || reliable;
      if device[i] != "" {
        ok := false;
      }
      if ok {
        device := device[i := party];
      }
    }

    method DeviceUnmount(i: int) returns (ok: bool)
      requires 0 <= i < |device|
      modifies `device
      ensures ok ==> device == old(device)[i := ""]
      ensures !ok ==> device == old(device) && !(reliable && device[i] != "")
    {
      ok := *;
      ok := ok || reliable;
      if device[i] == "" {
        ok := false;
      }
      if ok {
        device := device[i := ""];
      }
    }

    /** The FTP server mounts a partition on a unit of its own accord. */
    method Intrude(i: int, party: string)
      requires Valid() && 0 <= i < LIMIT
      modifies `device
      ensures Valid()
    {
      var ok := DeviceMount(i, party);
    }

    // ----- mounting and unmounting partitions -----

    /** Gives up a unit unless the device refuses; table and device change together or not at all. */
    method Unmount(i: int)
      requires Valid() && 0 <= i < LIMIT && partyVmc[i] < 0
      modifies `mounted, `device, `latest
      ensures Valid()
      ensures latest == old(latest) || (latest == -1 && old(latest) == i)
      ensures (mounted == old(mounted) && device == old(device) && latest == old(latest))
        || (mounted == old(mounted)[i := ""] && device == old(device)[i := ""] && latest != i)
      ensures reliable ==> mounted[i] == device[i] == ""
    {
      var ok := DeviceUnmount(i);
      if !ok {
        return;
      }
      mounted := mounted[i := ""];
      if latest == i {
        latest := -1;
      }
    }

    method Find(party: string) returns (r: int)
      requires |mounted| == LIMIT
      ensures -1 <= r < LIMIT
      ensures r >= 0 ==> mounted[r] == party
      ensures r < 0 ==> party !in mounted
    {
      var i := 0;
      while i < LIMIT
        invariant 0 <= i <= LIMIT
        invariant forall k :: 0 <= k < i ==> mounted[k] != party
      {
        if mounted[i] == party {
          return i;
        }
        i := i + 1;
      }
      return -1;
    }

    /** A free unit, or failing that one that is given up. The search for the second never comes back empty. */
    method ChooseUnit() returns (j: int)
      requires Valid()
      modifies `mounted, `device, `latest
      ensures Valid() && latest == old(latest)
      ensures NeededKept(latest, partyVmc, old(mounted), old(device), mounted, device)
      ensures forall k :: 0 <= k < LIMIT ==> mounted[k] == old(mounted[k]) || mounted[k] == ""
      ensures 0 <= j < LIMIT && !Needed(j, latest, partyVmc)
      ensures "" in old(mounted) ==> mounted == old(mounted) && device == old(device) && mounted[j] == ""
    {
      j := Find("");
      if j >= 0 {
        return;
      }
      SomeEvictable(mounted, partyVmc, vmcMounted, vmcParty, latest);
      j := 0;
      while j < LIMIT && Needed(j, latest, partyVmc)
        invariant 0 <= j <= LIMIT
        invariant forall k :: 0 <= k < j ==> Needed(k, latest, partyVmc)
      {
        j := j + 1;
      }
      Unmount(j);
    }

    /** Mounts a partition, or finds it mounted: its unit, or -1 when the device refuses everywhere. The
        latest mounted partition and those behind virtual cards are never disturbed. */
    method MountParty(party: string) returns (r: int)
      requires Valid() && party != ""
      modifies `mounted, `device, `latest
      ensures Valid() && -1 <= r < LIMIT
      ensures NeededKept(old(latest), partyVmc, old(mounted), old(device), mounted, device)
      ensures r >= 0 ==> mounted[r] == party == device[r] && latest == r
      ensures r < 0 ==> latest == old(latest)
      ensures party in old(mounted) || reliable ==> r >= 0
      ensures party in old(mounted) ==> mounted == old(mounted) && device == old(device)
      ensures reliable && "" in old(mounted) && FreeIsFree(old(mounted), old(device)) ==> OthersKept(old(mounted), mounted)
    {
      r := Find(party);
      if r >= 0 {
        latest := r;
        return;
      }
      r := ChooseUnit();
      var ok := DeviceMount(r, party);
      if !ok {
        r := Reclaim(party);
        if r < 0 {
          return;
        }
      }
      mounted := mounted[r := party];
      latest := r;
    }

    /** Gives up a unit that nobody needs and mounts the partition there instead. */
    method TakeUnit(i: int, party: string) returns (ok: bool)
      requires Valid() && 0 <= i < LIMIT && !Needed(i, latest, partyVmc) && party != "" && party !in mounted
      modifies `mounted, `device, `latest
      ensures |mounted| == |device| == LIMIT && latest == old(latest) && party !in mounted
      ensures forall k :: 0 <= k < LIMIT && k != i ==> mounted[k] == old(mounted)[k] && device[k] == old(device)[k]
      ensures !ok ==> Valid() && !reliable
      ensures ok ==> device[i] == party && Agrees(mounted, device[i := mounted[i]], latest)
      ensures PinsExact(mounted, partyVmc, vmcMounted, vmcParty)
    {
      Unmount(i);
      ok := DeviceMount(i, party);
    }

    /** The FTP server holds the unit: gives up the units nobody needs, one by one, until the mount succeeds. */
    method Reclaim(party: string) returns (r: int)
      requires Valid() && party != "" && party !in mounted
      modifies `mounted, `device, `latest
      ensures |mounted| == |device| == LIMIT && -1 <= r < LIMIT
      ensures latest == old(latest) && party !in mounted
      ensures NeededKept(latest, partyVmc, old(mounted), old(device), mounted, device)
      ensures r < 0 ==> Valid() && !reliable
      ensures r >= 0 ==> !Needed(r, latest, partyVmc) && device[r] == party && Agrees(mounted, device[r := mounted[r]], latest)
      ensures PinsExact(mounted, partyVmc, vmcMounted, vmcParty)
    {
      var i := 0;
      while i < LIMIT
        invariant 0 <= i <= LIMIT && Valid() && party !in mounted && latest == old(latest)
        invariant NeededKept(latest, partyVmc, old(mounted), old(device), mounted, device)
        invariant reliable ==> forall k :: 0 <= k < i ==> Needed(k, latest, partyVmc)
      {
        if !Needed(i, latest, partyVmc) {
          var ok := TakeUnit(i, party);
          if ok {
            return i;
          }
        }
        i := i + 1;
      }
      SomeEvictable(mounted, partyVmc, vmcMounted, vmcParty, latest);
      return -1;
    }

    /** Both ends of a copy between partitions: the source is still mounted once the destination is. */
    method MountBoth(source: string, destination: string) returns (s: int, d: int)
      requires Valid() && source != "" && destination != ""
      modifies `mounted, `device, `latest
      ensures Valid()
      ensures s >= 0 && d >= 0 ==> s < LIMIT && d < LIMIT
      ensures s >= 0 && d >= 0 ==> device[s] == source && device[d] == destination
      ensures s >= 0 && d >= 0 ==> (s == d <==> source == destination)
      ensures reliable ==> s >= 0 && d >= 0
    {
      d := -1;
      s := MountParty(source);
      if s < 0 {
        return;
      }
      assert Needed(s, latest, partyVmc);
      d := MountParty(destination);
    }

    // ----- releasing -----

    /** Forgets every card and partition, even one the device refuses to give up. */
    method UnmountAll()
      requires Valid()
      modifies this
      ensures Valid() && latest == -1
      ensures mounted == ["", "", "", ""] && vmcMounted == [false, false] && partyVmc == [-1, -1, -1, -1]
      ensures reliable ==> forall i :: 0 <= i < LIMIT ==> device[i] == if old(mounted[i]) != "" then "" else old(device[i])
    {
      for i := 0 to 2
        invariant |vmcMounted| == |vmcParty| == 2 && |device| == |mounted| == |partyVmc| == LIMIT
        invariant forall k :: 0 <= k < i ==> !vmcMounted[k] && vmcParty[k] == -1
        invariant forall k :: i <= k < 2 && !vmcMounted[k] ==> vmcParty[k] == -1
        invariant mounted == old(mounted) && device == old(device)
      {
        if vmcMounted[i] {
          vmcMounted, vmcParty := vmcMounted[i := false], vmcParty[i := -1];
        }
      }
      for i := 0 to LIMIT
        invariant |vmcMounted| == |vmcParty| == 2 && |device| == |mounted| == |partyVmc| == LIMIT
        invariant vmcMounted == [false, false] && vmcParty == [-1, -1]
        invariant forall k :: 0 <= k < i ==> mounted[k] == "" && partyVmc[k] == -1
        invariant forall k :: i <= k < LIMIT ==> mounted[k] == old(mounted[k]) && device[k] == old(device[k])
        invariant reliable ==> forall k :: 0 <= k < i ==> device[k] == if old(mounted[k]) != "" then "" else old(device[k])
      {
        partyVmc := partyVmc[i := -1];
        if mounted[i] != "" {
          var ok := DeviceUnmount(i);
          mounted := mounted[i := ""];
        }
      }
      latest := -1;
    }

    /** A reset of the I/O processor, which loses every mount the device had. */
    method Reset()
      requires Valid()
      modifies this
      ensures Valid() && latest == -1 && mounted == device == ["", "", "", ""]
      ensures vmcMounted == [false, false] && partyVmc == [-1, -1, -1, -1]
    {
      UnmountAll();
      device := ["", "", "", ""];
    }

    /** At the top of the disk: gives up every partition that neither the clipboard nor a card needs. */
    method ReleaseForClipboard(clipPath: string, clipCount: int)
      requires Valid()
      modifies `mounted, `device, `latest
      ensures Valid()
      ensures forall i :: 0 <= i < LIMIT ==>
        mounted[i] == old(mounted[i]) || (mounted[i] == "" && device[i] == "")
      ensures forall i :: 0 <= i < LIMIT && (partyVmc[i] >= 0 || ClipboardUses(clipPath, clipCount, old(mounted[i]))) ==>
        mounted[i] == old(mounted[i]) && device[i] == old(device[i])
      ensures latest == old(latest) || (latest == -1 && mounted[old(latest)] == "")
      ensures reliable ==> forall i :: 0 <= i < LIMIT && mounted[i] != "" ==>
        partyVmc[i] >= 0 || ClipboardUses(clipPath, clipCount, mounted[i])
    {
      for i := 0 to LIMIT
        invariant Valid()
        invariant forall k :: 0 <= k < LIMIT ==> mounted[k] == old(mounted[k]) || (mounted[k] == "" && device[k] == "")
        invariant forall k :: i <= k < LIMIT ==> mounted[k] == old(mounted[k]) && device[k] == old(device[k])
        invariant forall k :: 0 <= k < LIMIT && (partyVmc[k] >= 0 || ClipboardUses(clipPath, clipCount, old(mounted[k]))) ==>
          mounted[k] == old(mounted[k]) && device[k] == old(device[k])
        invariant latest == old(latest) || (latest == -1 && mounted[old(latest)] == "")
        invariant reliable ==> forall k :: 0 <= k < i && mounted[k] != "" ==>
          partyVmc[k] >= 0 || ClipboardUses(clipPath, clipCount, mounted[k])
      {
        if mounted[i] == "" || ClipboardUses(clipPath, clipCount, mounted[i]) || partyVmc[i] >= 0 {
          continue;
        }
        Unmount(i);
      }
    }

    // ----- virtual cards -----

    /** Takes a mounted card out again, and its pin unless the other card shares the partition. */
    method EjectCard(v: int)
      requires Valid() && 0 <= v < 2
      modifies `partyVmc, `vmcMounted, `vmcParty
      ensures Valid() && vmcMounted == old(vmcMounted)[v := false] && vmcParty == old(vmcParty)[v := -1]
    {
      if vmcMounted[v] {
        var j := vmcParty[v];
        if j >= 0 {
          vmcParty := vmcParty[v := -1];
          if j != vmcParty[1 - v] {
            partyVmc := partyVmc[j := -1];
          }
        }
        vmcMounted := vmcMounted[v := false];
      }
    }

    /** Resolving the path of the card's file: may reset the processor, and mounts the partition if the
        path names one. A unit, 99 for a path off the hard disk, or negative for failure. */
    method FixPath(party: string) returns (j: int)
      requires Valid()
      modifies this
      ensures Valid() && (0 <= j < LIMIT ==> mounted[j] == party == device[j] != "" && latest == j)
      ensures j < LIMIT || (j == 99 && party == "")
      ensures reliable ==> j >= 0
      ensures vmcMounted == old(vmcMounted) || vmcMounted == [false, false]
    {
      var reset: bool := *;
      if reset {
        Reset();
      }
      if party == "" {
        var ok: bool := *;
        j := if ok || reliable then 99 else -1;
      } else {
        j := MountParty(party);
      }
    }

    /** Mounts virtual card v from a file on the partition (or elsewhere, when there is none). */
    method MountCard(v: int, party: string) returns (ok: bool)
      requires Valid() && 0 <= v < 2
      modifies this
      ensures Valid() && vmcMounted[v] == ok && (reliable ==> ok)
      ensures ok && party != "" ==>
        vmcParty[v] >= 0 && mounted[vmcParty[v]] == party == device[vmcParty[v]] && partyVmc[vmcParty[v]] >= 0
    {
      ok := false;
      EjectCard(v);
      var j := FixPath(party);
      if j < 0 {
        return;
      }
      ok := *;
      ok := ok || reliable;
      if ok {
        if 0 <= j < LIMIT {
          vmcParty, partyVmc := vmcParty[v := j], partyVmc[j := v];
        }
        vmcMounted := vmcMounted[v := true];
      }
    }
  }

  // ----- every run -----

  datatype Operation =
    | MountPartition(party: string)
    | CopyBetween(source: string, destination: string)
    | MountCard(card: int, party: string)
    | Release(clipPath: string, clipCount: int)
    | Intrusion(unit: int, party: string)
    | ForgetAll
    | ResetProcessor

  /** However a session goes, and whatever the device refuses: the table agrees with the device and the
      pins are exactly the partitions behind mounted cards. */
  method Run(mounts: Mounts, operations: seq<Operation>)
    requires mounts.Valid()
    modifies mounts
    ensures mounts.Valid()
  {
    for n := 0 to |operations|
      invariant mounts.Valid()
    {
      match operations[n] {
        case MountPartition(party) =>
          if party != "" {
            var r := mounts.MountParty(party);
          }
        case CopyBetween(source, destination) =>
          if source != "" && destination != "" {
            var s, d := mounts.MountBoth(source, destination);
          }
        case MountCard(card, party) =>
          var ok := mounts.MountCard(if card == 0 then 0 else 1, party);
        case Release(clipPath, clipCount) => mounts.ReleaseForClipboard(clipPath, clipCount);
        case Intrusion(unit, party) =>
          if 0 <= unit < LIMIT {
            mounts.Intrude(unit, party);
          }
        case ForgetAll => mounts.UnmountAll();
        case ResetProcessor => mounts.Reset();
      }
    }
  }
}
