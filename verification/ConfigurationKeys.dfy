/** The key names the configuration file really uses can be told apart as the loader needs. */
module ConfigurationKeys {
  import opened CnfText
  import opened Common
  import opened Configuration
  import opened Numerals

  function Names0(): seq<string> { ["GUI_Col_1_ABGR", "GUI_Col_2_ABGR", "GUI_Col_3_ABGR"] }

  function Names1(): seq<string> { ["GUI_Col_4_ABGR", "GUI_Col_5_ABGR", "GUI_Col_6_ABGR"] }

  function Names2(): seq<string> { ["GUI_Col_7_ABGR", "GUI_Col_8_ABGR", "TV_mode"] }

  function Names3(): seq<string> { ["Screen_Offset_X", "Screen_Offset_Y", "Popup_Opaque"] }

  function Names4(): seq<string> { ["Menu_Frame", "LK_auto_Timer", "Menu_Hide_Paths"] }

  function Names5(): seq<string> { ["GUI_Swap_Keys", "NET_HOSTwrite", "APP_GameID"] }

  function Names6(): seq<string> { ["CDROM_Disable_GameID", "Init_Delay", "REBOOT_IOP_ELFLOAD"] }

  function Names7(): seq<string> { ["VirtualKeyboardLayout", "Hide_Hdd", "Disable_EMBER"] }

  function Names8(): seq<string> { ["Disable_POPSTARTER", "Disable_NEUTRINO", "Hide_MCMMCE"] }

  function Names9(): seq<string> { ["USBKBD_USED", "USBKBD_FILE", "KBDMAP_FILE"] }

  function Names10(): seq<string> { ["Menu_Show_Titles", "PathPad_Lock", "CNF_Path"] }

  function Names11(): seq<string> { ["language", "LANG_FILE", "FONT_FILE"] }

  function Names12(): seq<string> { ["POPSTARTER_ELF", "NEUTRINO_ELF", "PSU_HugeNames"] }

  function Names13(): seq<string> { ["PSU_DateNames", "PSU_NoOverwrite", "FB_NoIcons"] }

  /** Three letters that tell every name from every other. */
  function Tag(name: string): int {
    if |name| < 7 then 0
    else name[4] as int * 65536 + name[|name| - 1] as int * 256 + name[|name| - 6] as int
  }

  function TagAt(k: nat): int {
    match k
    case 0 => 4411953
    case 1 => 4411954
    case 2 => 4411955
    case 3 => 4411956
    case 4 => 4411957
    case 5 => 4411958
    case 6 => 4411959
    case 7 => 4411960
    case 8 => 7300438
    case 9 => 6641766
    case 10 => 6642022
    case 11 => 7365967
    case 12 => 6251871
    case 13 => 7696991
    case 14 => 6255455
    case 15 => 5469040
    case 16 => 4744532
    case 17 => 4670535
    case 18 => 5063751
    case 19 => 6256991
    case 20 => 5194828
    case 21 => 7697484
    case 22 => 6251620
    case 23 => 6443615
    case 24 => 6443604
    case 25 => 6442837
    case 26 => 6243661
    case 27 => 4342852
    case 28 => 4343108
    case 29 => 4277584
    case 30 => 6255444
    case 31 => 5270372
    case 32 => 5269574
    case 33 => 7693678
    case 34 => 6243655
    case 35 => 6243668
    case 36 => 5523013
    case 37 => 5391950
    case 38 => 4748133
    case 39 => 4485989
    case 40 => 5137778
    case 41 => 7304047
    case _ => 0
  }

  lemma TagsDiffer(i: nat, j: nat)
    requires i < j < FIELDS
    ensures TagAt(i) != TagAt(j)
  {
  }

  /** Good letters, and a second letter (or a later one) that rules out every other kind of key. */
  predicate Simple(name: string) {
    && GoodName(name) && |name| >= 7
    && (name[0] == 'M' ==> name[1] != 'i')
    && (name[0] == 'C' ==> name[4] != 'v')
    && (name[0] == 'P' ==> name[1] != 'a' || (|name| > 7 && name[7] != '['))
    && (name[0] == 'L' ==> name[1] != 'K' || name == "LK_auto_Timer")
  }

  lemma NotPrefix(p: string, name: string, i: nat)
    requires i < |p| && (i >= |name| || p[i] != name[i])
    ensures !(p <= name)
  {
  }

  lemma SimpleIsPlain(name: string)
    requires Simple(name)
    ensures PlainName(name, "auto")
  {
    NotPrefix("Misc", name, if name[0] == 'M' then 1 else 0);
    NotPrefix("CNF_version", name, if name[0] == 'C' then 4 else 0);
    NotPrefix("PathPad[", name, if name[0] != 'P' then 0 else if name[1] != 'a' then 1 else 7);
    if "LK_" <= name {
      assert name[0] == "LK_"[0] && name[1] == "LK_"[1];
      assert name == ButtonKey("auto", "Timer");
    }
  }

  predicate GroupGood(names: seq<string>, from: nat) {
    && |names| == 3
    && forall i :: 0 <= i < 3 ==> Simple(names[i]) && Tag(names[i]) == TagAt(from + i)
  }

  lemma Group0Good()
    ensures GroupGood(Names0(), 0)
  {
    var n := Names0();
    assert Simple(n[0]) && Tag(n[0]) == TagAt(0);
    assert Simple(n[1]) && Tag(n[1]) == TagAt(1);
    assert Simple(n[2]) && Tag(n[2]) == TagAt(2);
  }

  lemma Group1Good()
    ensures GroupGood(Names1(), 3)
  {
    var n := Names1();
    assert Simple(n[0]) && Tag(n[0]) == TagAt(3);
    assert Simple(n[1]) && Tag(n[1]) == TagAt(4);
    assert Simple(n[2]) && Tag(n[2]) == TagAt(5);
  }

  lemma Group2Good()
    ensures GroupGood(Names2(), 6)
  {
    var n := Names2();
    assert Simple(n[0]) && Tag(n[0]) == TagAt(6);
    assert Simple(n[1]) && Tag(n[1]) == TagAt(7);
    assert Simple(n[2]) && Tag(n[2]) == TagAt(8);
  }

  lemma Group3Good()
    ensures GroupGood(Names3(), 9)
  {
    var n := Names3();
    assert Simple(n[0]) && Tag(n[0]) == TagAt(9);
    assert Simple(n[1]) && Tag(n[1]) == TagAt(10);
    assert Simple(n[2]) && Tag(n[2]) == TagAt(11);
  }

  lemma Group4Good()
    ensures GroupGood(Names4(), 12)
  {
    var n := Names4();
    assert Simple(n[0]) && Tag(n[0]) == TagAt(12);
    assert Simple(n[1]) && Tag(n[1]) == TagAt(13);
    assert Simple(n[2]) && Tag(n[2]) == TagAt(14);
  }

  lemma Group5Good()
    ensures GroupGood(Names5(), 15)
  {
    var n := Names5();
    assert Simple(n[0]) && Tag(n[0]) == TagAt(15);
    assert Simple(n[1]) && Tag(n[1]) == TagAt(16);
    assert Simple(n[2]) && Tag(n[2]) == TagAt(17);
  }

  lemma Group6Tags()
    ensures var n := Names6(); Tag(n[0]) == TagAt(18) && Tag(n[1]) == TagAt(19) && Tag(n[2]) == TagAt(20)
  {
  }

  lemma Group6Good()
    ensures GroupGood(Names6(), 18)
  {
    Group6Tags();
    var n := Names6();
    assert Simple(n[0]) && Simple(n[1]) && Simple(n[2]);
  }

  lemma Group7Tags()
    ensures var n := Names7(); Tag(n[0]) == TagAt(21) && Tag(n[1]) == TagAt(22) && Tag(n[2]) == TagAt(23)
  {
  }

  lemma Group7Good()
    ensures GroupGood(Names7(), 21)
  {
    Group7Tags();
    var n := Names7();
    assert Simple(n[0]) && Simple(n[1]) && Simple(n[2]);
  }

  lemma Group8Good()
    ensures GroupGood(Names8(), 24)
  {
    var n := Names8();
    assert Simple(n[0]) && Tag(n[0]) == TagAt(24);
    assert Simple(n[1]) && Tag(n[1]) == TagAt(25);
    assert Simple(n[2]) && Tag(n[2]) == TagAt(26);
  }

  lemma Group9Good()
    ensures GroupGood(Names9(), 27)
  {
    var n := Names9();
    assert Simple(n[0]) && Tag(n[0]) == TagAt(27);
    assert Simple(n[1]) && Tag(n[1]) == TagAt(28);
    assert Simple(n[2]) && Tag(n[2]) == TagAt(29);
  }

  lemma Group10Good()
    ensures GroupGood(Names10(), 30)
  {
    var n := Names10();
    assert Simple(n[0]) && Tag(n[0]) == TagAt(30);
    assert Simple(n[1]) && Tag(n[1]) == TagAt(31);
    assert Simple(n[2]) && Tag(n[2]) == TagAt(32);
  }

  lemma Group11Good()
    ensures GroupGood(Names11(), 33)
  {
    var n := Names11();
    assert Simple(n[0]) && Tag(n[0]) == TagAt(33);
    assert Simple(n[1]) && Tag(n[1]) == TagAt(34);
    assert Simple(n[2]) && Tag(n[2]) == TagAt(35);
  }

  lemma Group12Good()
    ensures GroupGood(Names12(), 36)
  {
    var n := Names12();
    assert Simple(n[0]) && Tag(n[0]) == TagAt(36);
    assert Simple(n[1]) && Tag(n[1]) == TagAt(37);
    assert Simple(n[2]) && Tag(n[2]) == TagAt(38);
  }

  lemma Group13Good()
    ensures GroupGood(Names13(), 39)
  {
    var n := Names13();
    assert Simple(n[0]) && Tag(n[0]) == TagAt(39);
    assert Simple(n[1]) && Tag(n[1]) == TagAt(40);
    assert Simple(n[2]) && Tag(n[2]) == TagAt(41);
  }

  /** The names of all groups, one group after the other. */
  function Joined(groups: seq<seq<string>>): seq<string>
    requires |groups| == 14 && forall g :: 0 <= g < 14 ==> |groups[g]| == 3
  {
    seq(FIELDS, k requires 0 <= k < FIELDS => groups[k / 3][k % 3])
  }

  lemma JoinedGood(groups: seq<seq<string>>)
    requires |groups| == 14 && forall g :: 0 <= g < 14 ==> |groups[g]| == 3 && GroupGood(groups[g], 3 * g)
    ensures Distinct(Joined(groups)) && forall k :: 0 <= k < FIELDS ==> PlainName(Joined(groups)[k], "auto")
  {
    var names := Joined(groups);
    forall k | 0 <= k < FIELDS ensures Simple(names[k]) && Tag(names[k]) == TagAt(k) && PlainName(names[k], "auto") {
      assert GroupGood(groups[k / 3], 3 * (k / 3));
      SimpleIsPlain(names[k]);
    }
    forall i, j | 0 <= i < j < FIELDS ensures names[i] != names[j] {
      TagsDiffer(i, j);
    }
  }

  function ButtonNames(): seq<string> {
    ["auto", "Circle", "Cross", "Square", "Triangle", "L1", "R1", "L2", "R2", "L3", "R3", "Start", "Select",
     "Left", "Right", "ESR", "OSDSYS"]
  }

  function LayoutNames(): seq<string> { ["abc", "qwerty", "dvorak", "azerty", "qwertz", "abnt"] }

  function LanguageNames(): seq<string> {
    ["english", "spanish", "french", "italian", "polish", "portuguese", "brazilian", "german", "hungarian"]
  }

  lemma ButtonsGood()
    ensures |ButtonNames()| == BUTTONS && Distinct(ButtonNames())
    ensures forall i :: 0 <= i < BUTTONS ==> GoodButton(ButtonNames()[i])
  {
  }

  lemma LayoutsDistinct()
    ensures Distinct(LayoutNames())
  {
  }

  lemma LayoutsGood()
    ensures forall i :: 0 <= i < |LayoutNames()| ==> GoodValue(LayoutNames()[i])
  {
  }

  lemma LanguagesDistinct()
    ensures Distinct(LanguageNames())
  {
  }

  lemma LanguagesGood()
    ensures forall i :: 0 <= i < |LanguageNames()| ==> GoodValue(LanguageNames()[i])
  {
  }

  /** The scalar names in file order, three at a time. */
  function AllNames(): (r: seq<seq<string>>)
    ensures |r| == 14 && forall g :: 0 <= g < 14 ==> |r[g]| == 3
  {
    [Names0(), Names1(), Names2(), Names3(), Names4(), Names5(), Names6(), Names7(),
     Names8(), Names9(), Names10(), Names11(), Names12(), Names13()]
  }

  function SourceKeys(): Keys {
    Keys(Joined(AllNames()), ButtonNames(), LayoutNames(), LanguageNames())
  }

  /** The tables of the source are well named. */
  lemma SourceKeysWellNamed()
    ensures WellNamed(SourceKeys())
  {
    Group0Good();
    Group1Good();
    Group2Good();
    Group3Good();
    Group4Good();
    Group5Good();
    Group6Good();
    Group7Good();
    Group8Good();
    Group9Good();
    Group10Good();
    Group11Good();
    Group12Good();
    Group13Good();
    JoinedGood(AllNames());
    ButtonsGood();
    LayoutsDistinct();
    LayoutsGood();
    LanguagesDistinct();
    LanguagesGood();
  }

  // ----- how the file spells a setting -----

  lemma NameAt(g: nat, i: nat)
    requires g < 14 && i < 3
    ensures SourceKeys().names[3 * g + i] == AllNames()[g][i]
  {
    assert (3 * g + i) / 3 == g && (3 * g + i) % 3 == i;
  }

  /** The settings that are not plain numbers, by name. */
  lemma SpelledNames()
    ensures var names := SourceKeys().names;
      && names[21] == "VirtualKeyboardLayout" && names[22] == "Hide_Hdd" && names[23] == "Disable_EMBER"
      && names[24] == "Disable_POPSTARTER" && names[25] == "Disable_NEUTRINO" && names[26] == "Hide_MCMMCE"
  {
    NameAt(7, 0);
    NameAt(7, 1);
    NameAt(7, 2);
    NameAt(8, 0);
    NameAt(8, 1);
    NameAt(8, 2);
  }

  lemma SpelledFiles()
    ensures var names := SourceKeys().names;
      && names[28] == "USBKBD_FILE" && names[29] == "KBDMAP_FILE" && names[32] == "CNF_Path" && names[33] == "language"
      && names[34] == "LANG_FILE" && names[35] == "FONT_FILE" && names[36] == "POPSTARTER_ELF" && names[37] == "NEUTRINO_ELF"
  {
    NameAt(9, 1);
    NameAt(9, 2);
    NameAt(10, 2);
    NameAt(11, 0);
    NameAt(11, 1);
    NameAt(11, 2);
    NameAt(12, 0);
    NameAt(12, 1);
  }

  lemma ColorNames(k: nat)
    requires k < 8
    ensures SourceKeys().names[k] == "GUI_Col_" + ['1' + k as char] + "_ABGR"
  {
    var groups := AllNames();
    assert SourceKeys().names[k] == groups[k / 3][k % 3];
    assert groups[k / 3] == if k < 3 then Names0() else if k < 6 then Names1() else Names2();
  }

  /** A scalar is written under its name, and a variable of that name sets it. */
  lemma ScalarLine(defaults: Settings, t: Settings, s: Settings, k: nat, value: string)
    requires Shaped(defaults) && Shaped(t) && Shaped(s) && k < FIELDS
    ensures NameOf(SourceKeys(), Scalar(k)) == SourceKeys().names[k]
    ensures TextOf(SourceKeys(), s, Scalar(k)) == Print(SourceKeys(), KindOf(k), s.fields[k])
    ensures Assign(SourceKeys(), defaults, t, SourceKeys().names[k], value)
         == t.(fields := t.fields[k := Read(SourceKeys(), KindOf(k), value, defaults.fields[k])])
  {
    SourceKeysWellNamed();
    DispatchScalar(SourceKeys(), defaults, t, k, value);
  }

  /** Languages and keyboard layouts stand in the file by name, and are kept by number. */
  lemma ChoicesByName(defaults: Settings, t: Settings, s: Settings, n: nat)
    requires Shaped(defaults) && Shaped(t) && Shaped(s)
    ensures n < |LanguageNames()| ==>
      && Assign(SourceKeys(), defaults, t, "language", LanguageNames()[n]) == t.(fields := t.fields[33 := Num(n)])
      && (s.fields[33] == Num(n) ==> TextOf(SourceKeys(), s, Scalar(33)) == LanguageNames()[n])
    ensures n < |LayoutNames()| ==>
      && Assign(SourceKeys(), defaults, t, "VirtualKeyboardLayout", LayoutNames()[n]) == t.(fields := t.fields[21 := Num(n)])
      && (s.fields[21] == Num(n) ==> TextOf(SourceKeys(), s, Scalar(21)) == LayoutNames()[n])
  {
    SourceKeysWellNamed();
    SpelledNames();
    SpelledFiles();
    ChoiceLine(SourceKeys(), defaults, t, s, n);
  }

  /** The languages count from 0. */
  lemma LanguageOrder()
    ensures LanguageNames()[0] == "english" && LanguageNames()[2] == "french"
  {
  }

  lemma ChoiceLine(keys: Keys, defaults: Settings, t: Settings, s: Settings, n: nat)
    requires WellNamed(keys) && Shaped(defaults) && Shaped(t) && Shaped(s)
    ensures n < |keys.languages| ==>
      && Assign(keys, defaults, t, keys.names[33], keys.languages[n]) == t.(fields := t.fields[33 := Num(n)])
      && (s.fields[33] == Num(n) ==> TextOf(keys, s, Scalar(33)) == keys.languages[n])
    ensures n < |keys.layouts| ==>
      && Assign(keys, defaults, t, keys.names[21], keys.layouts[n]) == t.(fields := t.fields[21 := Num(n)])
      && (s.fields[21] == Num(n) ==> TextOf(keys, s, Scalar(21)) == keys.layouts[n])
  {
    if n < |keys.languages| {
      DispatchScalar(keys, defaults, t, 33, keys.languages[n]);
      ChoiceRoundTrip(keys.languages, n, defaults.fields[33]);
    }
    if n < |keys.layouts| {
      DispatchScalar(keys, defaults, t, 21, keys.layouts[n]);
      ChoiceRoundTrip(keys.layouts, n, defaults.fields[21]);
    }
  }

  /** Files stand in the file as they are, under their own names. */
  lemma PathsAsTheyAre(defaults: Settings, t: Settings, s: Settings, k: nat, value: string)
    requires Shaped(defaults) && Shaped(t) && Shaped(s) && k in {28, 29, 32, 34, 35, 36, 37}
    ensures Assign(SourceKeys(), defaults, t, SourceKeys().names[k], value) == t.(fields := t.fields[k := Str(value)])
    ensures s.fields[k] == Str(TextOf(SourceKeys(), s, Scalar(k)))
  {
    ScalarLine(defaults, t, s, k, value);
  }

  /** A colour stands in the file as eight hexadecimal digits in capitals. */
  lemma ColorsInHex(defaults: Settings, t: Settings, s: Settings, k: nat, n: nat)
    requires Shaped(defaults) && Shaped(t) && Shaped(s) && k < 8 && n < WORD
    ensures s.fields[k] == Num(n) ==> TextOf(SourceKeys(), s, Scalar(k)) == Hex(n, COLOR_DIGITS)
    ensures Assign(SourceKeys(), defaults, t, "GUI_Col_" + ['1' + k as char] + "_ABGR", Hex(n, COLOR_DIGITS))
         == t.(fields := t.fields[k := Num(n)])
  {
    SourceKeysWellNamed();
    ColorNames(k);
    ColorLine(SourceKeys(), defaults, t, s, k, n);
  }

  lemma ColorLine(keys: Keys, defaults: Settings, t: Settings, s: Settings, k: nat, n: nat)
    requires WellNamed(keys) && Shaped(defaults) && Shaped(t) && Shaped(s) && k < 8 && n < WORD
    ensures s.fields[k] == Num(n) ==> TextOf(keys, s, Scalar(k)) == Hex(n, COLOR_DIGITS)
    ensures Assign(keys, defaults, t, keys.names[k], Hex(n, COLOR_DIGITS)) == t.(fields := t.fields[k := Num(n)])
  {
    DispatchScalar(keys, defaults, t, k, Hex(n, COLOR_DIGITS));
    FitsWord(n, 0);
    ColorKindRoundTrip(keys, Num(n), defaults.fields[k], Hex(n, COLOR_DIGITS));
  }

  /** Every other setting stands in the file as a decimal number. The switches take any number but 0 for on,
      and a mode out of range becomes the default. */
  lemma NumbersInDecimal(defaults: Settings, t: Settings, s: Settings, k: nat, n: int)
    requires Shaped(defaults) && Shaped(t) && Shaped(s) && 8 <= k < FIELDS && k !in {21, 28, 29, 32, 33, 34, 35, 36, 37}
    ensures s.fields[k] == Num(n) ==> TextOf(SourceKeys(), s, Scalar(k)) == Signed(n)
    ensures Assign(SourceKeys(), defaults, t, SourceKeys().names[k], Signed(n)) == t.(fields := t.fields[k :=
              if 23 <= k <= 26 then Num(if n == 0 then 0 else 1)
              else if k == 22 && !(0 <= n <= 6) then defaults.fields[k]
              else Num(n)])
  {
    ScalarLine(defaults, t, s, k, Signed(n));
    NumberRoundTrip(n);
  }

  /** Launch paths and titles are kept by button: seventeen paths, of which the first thirteen are always written,
      and fifteen titles of at most 71 characters. */
  lemma LaunchLines(defaults: Settings, t: Settings, s: Settings, i: nat, value: string)
    requires Shaped(defaults) && Shaped(t) && Shaped(s) && i < 17
    ensures Assign(SourceKeys(), defaults, t, ButtonKey(ButtonNames()[i], "E1"), value)
         == t.(lkPath := t.lkPath[i := value], lkFlag := t.lkFlag[i := true])
    ensures NameOf(SourceKeys(), Launch(i)) == ButtonKey(ButtonNames()[i], "E1") && TextOf(SourceKeys(), s, Launch(i)) == s.lkPath[i]
    ensures Saved(s, Launch(i)) <==> i < 13 || s.lkFlag[i]
    ensures |t.lkPath| == 17 && |t.lkTitle| == 15
    ensures var cut := if |value| <= 71 then value else value[..71];
      i < 15 ==> Assign(SourceKeys(), defaults, t, ButtonKey(ButtonNames()[i], "Title"), value) == t.(lkTitle := t.lkTitle[i := cut])
  {
    SourceKeysWellNamed();
    DispatchLaunch(SourceKeys(), defaults, t, i, value);
    if i < 15 {
      DispatchTitle(SourceKeys(), defaults, t, i, value);
    }
  }

  /** Thirty path-pad entries of at most 1024 characters, by number; and the lock is written once more ahead of them. */
  lemma PadLines(defaults: Settings, t: Settings, i: nat, value: string)
    requires Shaped(defaults) && Shaped(t) && i < 30
    ensures Assign(SourceKeys(), defaults, t, "PathPad[" + ['0' + (i / 10) as char, '0' + (i % 10) as char] + "]", value)
         == t.(pathPad := t.pathPad[i := if |value| <= 1024 then value else value[..1024]])
    ensures |t.pathPad| == 30 && NameOf(SourceKeys(), Scalar(PATHPAD_LOCK)) == "PathPad_Lock"
  {
    SourceKeysWellNamed();
    DispatchPad(SourceKeys(), defaults, t, i, value);
    assert PadKey(i) == "PathPad[" + ['0' + (i / 10) as char, '0' + (i % 10) as char] + "]";
    assert SourceKeys().names[PATHPAD_LOCK] == Names10()[1];
  }

  /** The digits of a colour in the file are capitals, and stand for 0 to 15. */
  lemma ColorDigits(c: char)
    ensures IsColorDigit(c) <==> c in "0123456789ABCDEF"
    ensures forall i :: 0 <= i < 16 ==> Digit("0123456789ABCDEF"[i]) == i && Digit("0123456789abcdef"[i]) == i
  {
    var all := "0123456789ABCDEF";
    if IsColorDigit(c) {
      assert all[Digit(c)] == c;
    }
  }
}
