/** The hand-over from the launcher to the embedded loader: the argument vectors the launcher builds, what
    the loader makes of them, and the text that names a program already in memory. */
module LoaderHandoff {
  import opened Common
  import opened LaunchArguments
  import opened Numerals
  import opened Options
  import opened Paths

  /** How many entries the argument vectors have room for, and how many of them are not cached arguments. */
  const MAX_ARGC := 15
  const BASE_ARGC := 3
  const CUSTOM_ARGC_MAX := 8

  /** Eight hexadecimal digits at a position of a terminated text; nothing behind the first other
      character is looked at. */
  method ParseHex8(text: string, start: nat) returns (r: Option<nat>)
    ensures r.Some? <==> start + 8 <= |text| && AllHex(text[start..start + 8])
    ensures r.Some? ==> r.value == Value(text[start..start + 8]) && r.value < WORD
  {
    var value, i := 0, 0;
    ghost var done := "";
    while i < 8
      invariant 0 <= i <= 8 && |done| == i && AllHex(done) && value == Value(done)
      invariant i > 0 ==> start + i <= |text| && text[start..start + i] == done
    {
      if start + i >= |text| || !IsHex(text[start + i]) {
        NotEightDigits(text, start, i);
        return None;
      }
      ValueSnoc(done, text[start + i]);
      DigitsGrow(text, start, i, done);
      done := done + [text[start + i]];
      value := value * 16 % WORD + Digit(text[start + i]);
      i := i + 1;
    }
    ValueBound(done);
    PowerFitsWord(8);
    return Some(value);
  }

  lemma NotEightDigits(text: string, start: nat, i: nat)
    requires i < 8 && (start + i >= |text| || !IsHex(text[start + i]))
    ensures !(start + 8 <= |text| && AllHex(text[start..start + 8]))
  {
    if start + 8 <= |text| {
      assert text[start..start + 8][i] == text[start + i];
    }
  }

  lemma DigitsGrow(text: string, start: nat, i: nat, done: string)
    requires start + i < |text| && |done| == i && (i > 0 ==> text[start..start + i] == done)
    ensures text[start..start + i + 1] == done + [text[start + i]]
  {
  }

  /** The text for a program in memory, "mem:AAAAAAAA:SSSSSSSS". */
  function MemPath(address: nat, size: nat): string {
    "mem:" + Hex(address, 8) + ":" + Hex(size, 8)
  }

  predicate IsMemPath(path: string) {
    |path| >= 21 && path[..4] == "mem:" && AllHex(path[4..12]) && path[12] == ':' && AllHex(path[13..21])
  }

  method ParseMemPath(path: string) returns (r: Option<(nat, nat)>)
    ensures r.Some? <==> IsMemPath(path)
    ensures r.Some? ==> r.value == (Value(path[4..12]), Value(path[13..21])) && r.value.0 < WORD && r.value.1 < WORD
  {
    if !("mem:" <= path) {
      return None;
    }
    var address := ParseHex8(path, 4);
    if address.None? {
      return None;
    }
    if |path| <= 12 || path[12] != ':' {
      return None;
    }
    var size := ParseHex8(path, 13);
    if size.None? {
      return None;
    }
    return Some((address.value, size.value));
  }

  /** The loader reads back every pair of words the launcher prints. */
  lemma MemPathRoundTrip(address: nat, size: nat)
    requires address < WORD && size < WORD
    ensures var path := MemPath(address, size);
      |path| == 21 && IsMemPath(path) && Value(path[4..12]) == address && Value(path[13..21]) == size
  {
    var path := MemPath(address, size);
    assert path[..4] == "mem:" && path[4..12] == Hex(address, 8) && path[12] == ':' && path[13..21] == Hex(size, 8);
    PowerFitsWord(8);
    HexRoundTrip(address, 8);
    HexRoundTrip(size, 8);
  }

  /** No two pairs share a text. */
  lemma MemPathInjective(address: nat, size: nat, address': nat, size': nat)
    requires address < WORD && size < WORD && address' < WORD && size' < WORD
    requires MemPath(address, size) == MemPath(address', size')
    ensures address == address' && size == size'
  {
    MemPathRoundTrip(address, size);
    MemPathRoundTrip(address', size');
  }

  // ----- the loader -----

  datatype Cleanup = NoCleanup | HddCleanup | AllCleanup

  /** What the loader starts, with which arguments, and what it does before. */
  datatype Launch = Invalid | Launch(path: string, argv: seq<string>, resetIop: bool, cleanup: Cleanup)

  /** The loader's variables while it goes through the flags. */
  datatype Flags = Bad | Flags(argc: nat, path: Option<string>, resetIop: bool, skipArgv0: bool, cleanup: Cleanup)
  {
    function Step(argv: seq<string>, flag: char): (r: Flags)
      ensures Flags? && 1 <= argc <= |argv| && r.Flags? ==> 1 <= r.argc <= argc
      ensures Bad? ==> r.Bad?
    {
      if Bad? then Bad
      else match flag
        case 'R' => this.(resetIop := true)
        case 'E' => if argc < 2 || argc > |argv| then Bad else this.(path := Some(argv[argc - 2]), argc := argc - 1)
        case 'A' => this.(skipArgv0 := true)
        case 'H' => this.(cleanup := AllCleanup)
        case 'N' => this.(cleanup := HddCleanup)
        case 'D' => this.(cleanup := NoCleanup)
        case _ => this
    }
  }

  function ScanFlags(argv: seq<string>, flags: string, from: Flags): (r: Flags)
    ensures from.Flags? && 1 <= from.argc <= |argv| && r.Flags? ==> 1 <= r.argc <= from.argc
    ensures from.Bad? ==> r.Bad?
    decreases |flags|
  {
    if flags == "" then from else ScanFlags(argv, flags[1..], from.Step(argv, flags[0]))
  }

  predicate HasFlags(argv: seq<string>) {
    argv != [] && "-la=" <= argv[|argv| - 1]
  }

  function Decode(argv: seq<string>): Launch {
    if argv == [] then Invalid
    else
      var start := Flags(|argv|, None, false, false, NoCleanup);
      var s := if HasFlags(argv) then ScanFlags(argv, argv[|argv| - 1][4..], start) else start;
      if s.Bad? then Invalid
      else
        var argc := if HasFlags(argv) then s.argc - 1 else s.argc;
        var path := if s.path.Some? then s.path.value else argv[0];
        if !s.skipArgv0 then Launch(path, argv[..argc], s.resetIop, s.cleanup)
        else if argc < 1 then Invalid
        else Launch(path, argv[1..argc], s.resetIop, s.cleanup)
  }

  /** The loader's own scan: variables updated flag by flag. */
  method LoaderMain(argv: seq<string>) returns (r: Launch)
    ensures r == Decode(argv)
  {
    if |argv| < 1 {
      return Invalid;
    }
    var argc, path, resetIop, skipArgv0, cleanup := |argv|, None, false, false, NoCleanup;
    if "-la=" <= argv[argc - 1] {
      var flags := argv[argc - 1][4..];
      ghost var start := Flags(|argv|, None, false, false, NoCleanup);
      var i := 0;
      while i < |flags|
        invariant 0 <= i <= |flags| && 1 <= argc <= |argv|
        invariant ScanFlags(argv, flags, start) == ScanFlags(argv, flags[i..], Flags(argc, path, resetIop, skipArgv0, cleanup))
      {
        assert flags[i..][1..] == flags[i + 1..];
        match flags[i] {
          case 'R' => resetIop := true;
          case 'E' =>
            if argc < 2 {
              return Invalid;
            }
            path := Some(argv[argc - 2]);
            argc := argc - 1;
          case 'A' => skipArgv0 := true;
          case 'H' => cleanup := AllCleanup;
          case 'N' => cleanup := HddCleanup;
          case 'D' => cleanup := NoCleanup;
          case _ =>
        }
        i := i + 1;
      }
      argc := argc - 1;
    }
    if path.None? {
      path := Some(argv[0]);
    }
    if skipArgv0 {
      if argc < 1 {
        return Invalid;
      }
      return Launch(path.value, argv[1..argc], resetIop, cleanup);
    }
    return Launch(path.value, argv[..argc], resetIop, cleanup);
  }

  /** The switches mean what they say wherever they stand among the flags. */
  lemma {:induction false} SwitchesMean(argv: seq<string>, flags: string, from: Flags)
    requires from.Flags? && ScanFlags(argv, flags, from).Flags?
    ensures var r := ScanFlags(argv, flags, from);
      (r.resetIop <==> from.resetIop || 'R' in flags) && (r.skipArgv0 <==> from.skipArgv0 || 'A' in flags)
    decreases |flags|
  {
    if flags != "" {
      var next := from.Step(argv, flags[0]);
      assert flags == [flags[0]] + flags[1..];
      SwitchesMean(argv, flags[1..], next);
    }
  }

  /** What stands behind the last of the flags H, N and D counts for the clean-up. */
  lemma {:induction false} CleanupMeans(argv: seq<string>, flags: string, from: Flags, i: nat)
    requires from.Flags? && ScanFlags(argv, flags, from).Flags?
    requires i <= |flags| && forall j :: i <= j < |flags| ==> flags[j] !in "HND"
    requires i > 0 ==> flags[i - 1] in "HND"
    ensures ScanFlags(argv, flags, from).cleanup ==
      if i == 0 then from.cleanup
      else if flags[i - 1] == 'H' then AllCleanup
      else if flags[i - 1] == 'N' then HddCleanup
      else NoCleanup
    decreases |flags|
  {
    if flags != "" {
      CleanupMeans(argv, flags[1..], from.Step(argv, flags[0]), if i == 0 then 0 else i - 1);
    }
  }

  function CountE(flags: string): nat {
    if flags == "" then 0 else (if flags[0] == 'E' then 1 else 0) + CountE(flags[1..])
  }

  /** Each E takes one argument from the end, the last one taken being the target; the first argument must stay. */
  lemma {:induction false} EachETakesOne(argv: seq<string>, flags: string, from: Flags)
    requires from.Flags? && 1 <= from.argc <= |argv|
    ensures var r := ScanFlags(argv, flags, from);
      && (r.Flags? <==> CountE(flags) < from.argc)
      && (r.Flags? ==> r.argc == from.argc - CountE(flags))
      && (r.Flags? ==> r.path == if CountE(flags) == 0 then from.path else Some(argv[r.argc - 1]))
    decreases |flags|
  {
    if flags != "" {
      var next := from.Step(argv, flags[0]);
      if next.Flags? {
        EachETakesOne(argv, flags[1..], next);
      }
    }
  }

  /** Flags are a last argument that starts with "-la=", however many follow; any other argument is none. */
  lemma FlagsMean(front: seq<string>, last: string, flags: string)
    ensures HasFlags(front + ["-la=" + flags]) && ("-la=" + flags)[4..] == flags
    ensures HasFlags(front + [last]) <==> |last| >= 4 && last[0] == '-' && last[1] == 'l' && last[2] == 'a' && last[3] == '='
  {
    var a := front + ["-la=" + flags];
    assert a[|a| - 1] == "-la=" + flags;
    var b := front + [last];
    assert b[|b| - 1] == last;
    if |last| >= 4 { assert last[..4] == [last[0], last[1], last[2], last[3]]; }
    assert "-la=" <= last <==> |last| >= 4 && last[..4] == "-la=";
  }

  // ----- what the launcher builds -----

  /** A text cut to a buffer of MAX_PATH bytes. */
  function Buffered(s: string): (r: string)
    ensures r <= s && |r| == if |s| <= 1024 then |s| else 1024
  {
    if |s| < MAX_PATH then s else s[..MAX_PATH - 1]
  }

  predicate IsHddParty(path: string) {
    |path| >= 5 && path[..3] == "hdd" && '0' <= path[3] <= '9' && path[4] == ':'
  }

  predicate IsExplicitHandoff(path: string) {
    IsHddBrowserPath(path) || "uLE:" <= path
  }

  predicate IsHddBrowserPath(path: string) {
    IsHddParty(path) && |path| >= 6 && path[5] == '/'
  }

  /** "hddN:" with anything behind it is a hard disk; with a slash behind it, a path to browse. */
  lemma HddPaths(path: string, unit: char, rest: string)
    ensures '0' <= unit <= '9' ==> IsHddParty("hdd" + [unit] + ":" + rest) && IsHddBrowserPath("hdd" + [unit] + ":/" + rest)
    ensures IsHddParty(path) ==> '0' <= path[3] <= '9' && path == "hdd" + [path[3]] + ":" + path[5..]
    ensures IsHddBrowserPath(path) ==> '0' <= path[3] <= '9' && path == "hdd" + [path[3]] + ":/" + path[6..]
    ensures IsExplicitHandoff("uLE:" + rest) && (IsExplicitHandoff(path) <==> IsHddBrowserPath(path) || "uLE:" <= path)
  {
    if '0' <= unit <= '9' {
      var a, b := "hdd" + [unit] + ":" + rest, "hdd" + [unit] + ":/" + rest;
      assert a[..3] == "hdd" && a[3] == unit && a[4] == ':';
      assert b[..3] == "hdd" && b[3] == unit && b[4] == ':' && b[5] == '/';
    }
    assert "uLE:" <= "uLE:" + rest;
  }

  /** The unit and the rest of a USB path under the given device name, if it is one. */
  function UsbPath(path: string, device: string): Option<(char, string)> {
    if !(device <= path) then None
    else
      var n := |device|;
      if |path| > n && path[n] == ':' then Some(('0', path[n + 1..]))
      else if |path| > n + 1 && '0' <= path[n] <= '9' && path[n + 1] == ':' then Some((path[n], path[n + 2..]))
      else None
  }

  /** A selected path as programs expect it: "hddN:part:pfs:/..." for the hard disk, "massN:/..." for USB. */
  function Normalize(path: string): string {
    if IsHddBrowserPath(path) then
      var partition := path[6..];
      var n := |UpToSlash(partition)|;
      if partition == "" || n == 0 then path
      else if n == |partition| then Buffered("hdd" + [path[3]] + ":" + partition + ":pfs:/")
      else Buffered("hdd" + [path[3]] + ":" + partition[..n] + ":pfs:" + partition[n..])
    else
      var usb := if UsbPath(path, "usb").Some? then UsbPath(path, "usb") else UsbPath(path, "mass");
      if usb.None? then path
      else if usb.value.1 != "" && usb.value.1[0] == '/' then Buffered("mass" + [usb.value.0] + ":" + usb.value.1)
      else Buffered("mass" + [usb.value.0] + ":/" + usb.value.1)
  }

  /** A USB path under either device name becomes a path on the drive's unit, unit 0 if it names none, from the
      drive's root. */
  lemma NormalizedUsbPath(unit: char, rest: string)
    requires '0' <= unit <= '9' && |rest| + 8 < MAX_PATH
    ensures var path := if rest != "" && rest[0] == '/' then rest else "/" + rest;
      && Normalize("usb:" + rest) == Normalize("mass:" + rest) == "mass0:" + path
      && Normalize("usb" + [unit] + ":" + rest) == Normalize("mass" + [unit] + ":" + rest) == "mass" + [unit] + ":" + path
  {
    UsbParts("usb", unit, rest);
    UsbParts("mass", unit, rest);
    assert "mass0:" == "mass" + ['0'] + ":";
    NormalizedUnit("usb:" + rest, '0', rest);
    NormalizedUnit("mass:" + rest, '0', rest);
    NormalizedUnit("usb" + [unit] + ":" + rest, unit, rest);
    NormalizedUnit("mass" + [unit] + ":" + rest, unit, rest);
  }

  lemma UsbParts(device: string, unit: char, rest: string)
    requires device != "" && '0' <= unit <= '9'
    ensures UsbPath(device + ":" + rest, device) == Some(('0', rest))
    ensures UsbPath(device + [unit] + ":" + rest, device) == Some((unit, rest))
  {
    var n, bare, numbered := |device|, device + ":" + rest, device + [unit] + ":" + rest;
    assert device <= bare && bare[n] == ':' && bare[n + 1..] == rest;
    assert device <= numbered && numbered[n] == unit && numbered[n + 1] == ':' && numbered[n + 2..] == rest;
  }

  lemma NormalizedUnit(path: string, unit: char, rest: string)
    requires |path| >= 1 && path[0] != 'h' && |rest| + 8 < MAX_PATH
    requires UsbPath(path, "usb") == Some((unit, rest)) || (path[0] == 'm' && UsbPath(path, "mass") == Some((unit, rest)))
    ensures Normalize(path) == "mass" + [unit] + ":" + if rest != "" && rest[0] == '/' then rest else "/" + rest
  {
    assert "usb" <= path ==> path[0] == "usb"[0];
    assert !IsHddBrowserPath(path) by {
      if |path| >= 3 { assert path[..3][0] == path[0] && "hdd"[0] == 'h'; }
    }
    assert ":/" + rest == ":" + ("/" + rest);
  }

  lemma NormalizedBrowserPath(browser: string, partition: string, path: string)
    requires IsHddBrowserPath(browser) && browser[6..] == partition + path
    requires partition != "" && '/' !in partition && path != "" && path[0] == '/' && |partition| + |path| + 10 < MAX_PATH
    ensures Normalize(browser) == "hdd" + [browser[3]] + ":" + partition + ":pfs:" + path
  {
    UpToSlashStops(partition, path);
    assert (partition + path)[..|partition|] == partition && (partition + path)[|partition|..] == path;
  }

  /** The name built from a mounted partition and a path on it is the normalized browser path. */
  lemma StandardFormAgrees(unit: char, partition: string, path: string)
    requires '0' <= unit <= '9' && partition != "" && '/' !in partition
    requires path != "" && path[0] == '/' && |partition| + |path| + 10 < MAX_PATH
    ensures var party := "hdd" + [unit] + ":" + partition;
      Normalize("hdd" + [unit] + ":/" + partition + path) == Arg0("pfs0:" + path, party, "")
  {
    var browser := "hdd" + [unit] + ":/" + partition + path;
    assert browser[..3] == "hdd" && browser[3] == unit && browser[4] == ':' && browser[5] == '/';
    assert browser[6..] == partition + path;
    NormalizedBrowserPath(browser, partition, path);
    var party := "hdd" + [unit] + ":" + partition;
    assert party[..3] == "hdd" && party[3] == unit && party[4] == ':';
    assert ("pfs0:" + path)[5..] == path;
  }

  function FlagList(mode: string, resetIop: bool, cleanup: bool): string {
    "-la=" + mode + (if resetIop then "R" else "") + (if cleanup then "H" else "")
  }

  /** The flags of a launch that names its target apart from the program's arguments. */
  lemma DecodeAppended(argv: seq<string>, target: string, resetIop: bool)
    requires argv != []
    ensures Decode(argv + [target, FlagList("E", resetIop, false)]) == Launch(target, argv, resetIop, NoCleanup)
  {
    var flag := FlagList("E", resetIop, false);
    var all := argv + [target, flag];
    var start := Flags(|all|, None, false, false, NoCleanup);
    assert all[|all| - 1] == flag && all[|all| - 2] == target && all[..|argv|] == argv;
    var after := Flags(|all| - 1, Some(target), false, false, NoCleanup);
    assert start.Step(all, 'E') == after;
    if resetIop {
      assert flag[4..] == "ER" && flag[4..][1..] == "R" && "R"[1..] == "";
      assert ScanFlags(all, "R", after) == after.(resetIop := true);
    } else {
      assert flag[4..] == "E" && flag[4..][1..] == "";
      assert ScanFlags(all, "", after) == after;
    }
  }

  /** The flags of a launch whose target stands in front of the program's arguments. */
  lemma DecodeFronted(target: string, argv: seq<string>, resetIop: bool, cleanup: bool)
    ensures Decode([target] + argv + [FlagList("A", resetIop, cleanup)])
      == Launch(target, argv, resetIop, if cleanup then AllCleanup else NoCleanup)
  {
    var flag := FlagList("A", resetIop, cleanup);
    var all := [target] + argv + [flag];
    assert all[|all| - 1] == flag && all[0] == target && all[1..|all| - 1] == argv;
    var s0 := Flags(|all|, None, false, false, NoCleanup);
    var s1 := s0.(skipArgv0 := true);
    var s2 := s1.(resetIop := resetIop);
    var s3 := s2.(cleanup := if cleanup then AllCleanup else NoCleanup);
    var rest := if cleanup then "H" else "";
    assert ScanFlags(all, rest, s2) == s3 by {
      if cleanup {
        assert rest[1..] == "";
        assert ScanFlags(all, "", s3) == s3;
      }
    }
    var more := if resetIop then "R" + rest else rest;
    assert ScanFlags(all, more, s1) == s3 by {
      if resetIop {
        assert more[1..] == rest;
      }
    }
    assert flag[4..] == "A" + more && flag[4..][1..] == more;
  }

  lemma FlagTexts(resetIop: bool, cleanup: bool)
    ensures FlagList("E", resetIop, false) == if resetIop then "-la=ER" else "-la=E"
    ensures FlagList("A", resetIop, cleanup) == "-la=A" + (if resetIop then "R" else "") + (if cleanup then "H" else "")
  {
    assert "-la=" + "A" == "-la=A";
  }

  /** Starts a program from memory under the name given: the loader finds the payload and the name. */
  method RunLoaderMemory(arg0: string, address: nat, size: nat, reboot: bool) returns (argv: seq<string>)
    requires address < WORD && size < WORD
    ensures Decode(argv) == Launch(MemPath(address, size), [arg0], reboot, NoCleanup)
    ensures IsMemPath(Decode(argv).path)
  {
    MemPathRoundTrip(address, size);
    FlagTexts(reboot, false);
    DecodeAppended([arg0], MemPath(address, size), reboot);
    var memArg := "mem:" + Hex(address, 8) + ":" + Hex(size, 8);
    argv := [arg0, memArg, if reboot then "-la=ER" else "-la=E"];
    assert argv == [arg0] + [memArg, FlagList("E", reboot, false)];
  }

  /** Starts a program with an argument vector of its own. Nothing is started for a bad count or name, or
      when the program's partition cannot be mounted. */
  method RunLoaderElfWithArgs(filename: string, party: string, appArgv: seq<string>, reboot: bool, mounts: bool)
    returns (started: bool, argv: seq<string>)
    ensures started <==> filename != "" && 1 <= |appArgv| <= 8 && (IsHddParty(party) && "pfs0:" <= filename ==> mounts)
    ensures started ==> Decode(argv) == Launch(Buffered(filename), appArgv, reboot, NoCleanup)
    ensures |argv| <= 10
  {
    argv := [];
    if filename == "" || |appArgv| < 1 || |appArgv| > CUSTOM_ARGC_MAX {
      return false, argv;
    }
    var loaderPath := Buffered(filename);
    if IsHddParty(party) && "pfs0:" <= filename {
      if !mounts {
        return false, argv;
      }
    }
    var i := 0;
    while i < |appArgv|
      invariant 0 <= i <= |appArgv| && argv == appArgv[..i]
    {
      argv := argv + [appArgv[i]];
      i := i + 1;
    }
    argv := argv + [loaderPath] + [if reboot then "-la=ER" else "-la=E"];
    FlagTexts(reboot, false);
    assert argv == appArgv + [loaderPath, FlagList("E", reboot, false)];
    DecodeAppended(appArgv, loaderPath, reboot);
    return true, argv;
  }

  /** The program's own name as it is handed over: a hand-over path if there is one, else for a program on
      a mounted partition the partition's path in the standard form, else the file name. */
  function Arg0(filename: string, party: string, handoff: string): string {
    if IsHddParty(party) && "pfs0:" <= filename then
      if IsExplicitHandoff(handoff) then handoff else party + ":pfs:" + filename[5..]
    else if handoff != "" then handoff
    else filename
  }

  /** On a mounted partition: the explicit hand-over path, else partition and file. Elsewhere: any hand-over path,
      else the file name. */
  lemma Arg0Means(unit: char, partition: string, file: string, handoff: string, other: string)
    requires '0' <= unit <= '9'
    ensures var party := "hdd" + [unit] + ":" + partition;
      && ("uLE:" <= handoff ==> Arg0("pfs0:" + file, party, handoff) == handoff)
      && (!IsExplicitHandoff(handoff) ==> Arg0("pfs0:" + file, party, handoff) == party + ":pfs:" + file)
    ensures handoff != "" && !("pfs0:" <= other) ==> Arg0(other, "hdd" + [unit] + ":" + partition, handoff) == handoff
    ensures !("pfs0:" <= other) ==> Arg0(other, "hdd" + [unit] + ":" + partition, "") == other
    ensures Arg0("pfs0:" + file, "", "") == "pfs0:" + file && (handoff != "" ==> Arg0("pfs0:" + file, "", handoff) == handoff)
  {
    HddPaths(handoff, unit, partition);
    assert ("pfs0:" + file)[5..] == file && "pfs0:" <= "pfs0:" + file;
  }

  /** Starts a program with the cached launch arguments, which are used up. The loader gets back the
      target, the name, every cached argument, and whether to reset and to put the disks to sleep. */
  method RunLoaderElfWithArg0(filename: string, party: string, selected: string, arg0Path: string, execKind: int,
                              reboot: bool, mounts: bool, cache: LaunchArgs)
    returns (started: bool, argv: seq<string>)
    requires cache.Valid() && (IsHddParty(party) && "pfs0:" <= filename ==> |party| + |filename| < 256)
    modifies cache
    ensures cache.Valid() && |argv| <= 15
    ensures started <==> (IsHddParty(party) && "pfs0:" <= filename ==> mounts)
    ensures started ==>
      var normalized := Normalize(selected);
      var handoff := if arg0Path != "" then Buffered(arg0Path) else normalized;
      var target := if execKind == 1 && "mass" <= normalized then Buffered(normalized) else Buffered(filename);
      Decode(argv) == Launch(target, [Arg0(filename, party, handoff)] + old(cache.args), reboot,
                             if IsHddParty(party) then AllCleanup else NoCleanup)
    ensures started ==> cache.args == []
    ensures !started ==> cache.args == old(cache.args)
  {
    var normalized := Normalize(selected);
    var handoff := if arg0Path != "" then Buffered(arg0Path) else normalized;
    var target := Buffered(filename);
    if execKind == 1 && "mass" <= normalized {
      target := Buffered(normalized);
    }
    argv := [target];
    if IsHddParty(party) && "pfs0:" <= filename {
      if !mounts {
        return false, argv;
      }
      argv := argv + [if IsExplicitHandoff(handoff) then handoff else party + ":pfs:" + filename[5..]];
    } else {
      argv := argv + [if handoff != "" then handoff else filename];
    }
    argv := AppendArgsAndFlags(argv, target, Arg0(filename, party, handoff), reboot, IsHddParty(party), cache);
    return true, argv;
  }

  /** Behind the target and the name come the cached arguments, which are used up, and the flags. */
  method AppendArgsAndFlags(front: seq<string>, target: string, arg0: string, reboot: bool, cleanup: bool, cache: LaunchArgs)
    returns (argv: seq<string>)
    requires cache.Valid() && front == [target, arg0]
    modifies cache
    ensures cache.Valid() && cache.args == [] && |argv| <= MAX_ARGC
    ensures Decode(argv) == Launch(target, [arg0] + old(cache.args), reboot, if cleanup then AllCleanup else NoCleanup)
  {
    argv := front;
    if |cache.args| > 0 {
      var copied := cache.CopyToArgv(MAX_ARGC - BASE_ARGC);
      argv := argv + copied;
    }
    assert argv == [target] + ([arg0] + cache.args);
    DecodeFronted(target, [arg0] + cache.args, reboot, cleanup);
    FlagTexts(reboot, cleanup);
    argv := argv + ["-la=A" + (if reboot then "R" else "") + (if cleanup then "H" else "")];
    assert argv == [target] + ([arg0] + cache.args) + [FlagList("A", reboot, cleanup)];
    cache.Clear();
  }
}
