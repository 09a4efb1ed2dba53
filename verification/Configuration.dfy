/** Saving the settings as configuration text and loading them back. The key names, the names of layouts and
    languages, and the defaults are parameters: any tables whose entries can be told apart will do. */
module Configuration {
  import opened Common
  import opened CnfText
  import opened CnfParser
  import opened Numerals

  const FIELDS := 42
  const GUI_FIELDS := 13
  const BUTTONS := 17
  const TITLES := 15
  const LAST_ALWAYS_SAVED := 12
  const PADS := 30
  const MAX_ELF_TITLE := 72
  const HIDE_HDD_COUNT := 7
  const PATHPAD_LOCK := 31
  const COLOR_DIGITS: nat := 8

  // ----- keys -----

  /** The names of the scalar settings in file order, of the launch buttons, and of the named choices. */
  datatype Keys = Keys(names: seq<string>, buttons: seq<string>, layouts: seq<string>, languages: seq<string>)

  /** "LK_" + button + "_" + part. */
  function ButtonKey(button: string, part: string): string {
    "LK_" + button + "_" + part
  }

  /** A name that no launch-key, label or path-pad key looks like. */
  predicate PlainName(name: string, firstButton: string) {
    && GoodName(name) && name != "CNF_version" && !("Misc" <= name) && !("PathPad[" <= name)
    && ("LK_" <= name ==> name == ButtonKey(firstButton, "Timer"))
  }

  predicate GoodButton(button: string) {
    forall i :: 0 <= i < |button| ==> InName(button[i]) && button[i] != '_'
  }

  predicate GoodChoices(names: seq<string>) {
    Distinct(names) && forall i :: 0 <= i < |names| ==> GoodValue(names[i])
  }

  predicate WellNamed(keys: Keys) {
    && |keys.names| == FIELDS && |keys.buttons| == BUTTONS && Distinct(keys.names) && Distinct(keys.buttons)
    && (forall k :: 0 <= k < FIELDS ==> PlainName(keys.names[k], keys.buttons[0]))
    && (forall i :: 0 <= i < BUTTONS ==> GoodButton(keys.buttons[i]))
    && GoodChoices(keys.layouts) && GoodChoices(keys.languages)
  }

  lemma ButtonKeyAt(button: string, part: string)
    ensures var k := ButtonKey(button, part);
      |k| == |button| + |part| + 4 && k[0] == 'L' && k[1] == 'K' && k[2] == '_' && k[3 + |button|] == '_'
    ensures forall i :: 0 <= i < |button| ==> ButtonKey(button, part)[3 + i] == button[i]
    ensures forall i :: 0 <= i < |part| ==> ButtonKey(button, part)[4 + |button| + i] == part[i]
  {
  }

  /** A button key starts another only if the buttons are the same. */
  lemma ButtonKeyPrefix(b: string, y: string, c: string, x: string)
    requires GoodButton(b) && GoodButton(c) && ButtonKey(b, y) <= ButtonKey(c, x)
    ensures b == c && |y| <= |x| && forall i :: 0 <= i < |y| ==> y[i] == x[i]
  {
    ButtonKeyAt(b, y);
    ButtonKeyAt(c, x);
    var s, t := ButtonKey(b, y), ButtonKey(c, x);
    assert forall i :: 0 <= i < |s| ==> s[i] == t[i];
    assert s[3 + |b|] == t[3 + |b|] == '_';
    assert |c| >= |b|;
    assert |c| <= |b|;
    forall i | 0 <= i < |b| ensures b[i] == c[i] {
      assert s[3 + i] == t[3 + i];
    }
    forall i | 0 <= i < |y| ensures y[i] == x[i] {
      assert s[4 + |b| + i] == t[4 + |b| + i];
    }
  }

  lemma ButtonKeyGood(button: string, part: string)
    requires GoodButton(button) && forall i :: 0 <= i < |part| ==> InName(part[i])
    ensures GoodName(ButtonKey(button, part))
  {
    ButtonKeyAt(button, part);
    var k := ButtonKey(button, part);
    forall i | 0 <= i < |k| ensures InName(k[i]) {
      if 3 <= i < 3 + |button| {
        assert k[i] == button[i - 3];
      } else if i >= 4 + |button| {
        assert k[i] == part[i - 4 - |button|];
      }
    }
  }

  // ----- values -----

  datatype Datum = Num(n: int) | Str(s: string)

  datatype Kind = Color | Number | Switch | HddMode | Layout | Language | Path

  function KindOf(k: nat): Kind {
    if k < 8 then Color
    else if k == 21 then Layout
    else if k == 22 then HddMode
    else if 23 <= k <= 26 then Switch
    else if k == 33 then Language
    else if k == 28 || k == 29 || k == 32 || 34 <= k <= 37 then Path
    else Number
  }

  predicate Typed(kind: Kind, v: Datum) {
    if kind == Path then v.Str? else v.Num?
  }

  /** What a value must be for the file to carry it. */
  predicate Legal(keys: Keys, kind: Kind, v: Datum)
    requires Typed(kind, v)
  {
    match kind
    case Color => 0 <= v.n < WORD
    case Number => true
    case Switch => v.n == 0 || v.n == 1
    case HddMode => 0 <= v.n < HIDE_HDD_COUNT
    case Layout => 0 <= v.n < |keys.layouts|
    case Language => 0 <= v.n < |keys.languages|
    case Path => GoodValue(v.s)
  }

  function Print(keys: Keys, kind: Kind, v: Datum): string
    requires Typed(kind, v)
  {
    match kind
    case Color => Hex(v.n % WORD, COLOR_DIGITS)
    case Layout => if 0 <= v.n < |keys.layouts| then keys.layouts[v.n] else ""
    case Language => if 0 <= v.n < |keys.languages| then keys.languages[v.n] else ""
    case Path => v.s
    case _ => Signed(v.n)
  }

  function Read(keys: Keys, kind: Kind, text: string, default: Datum): (v: Datum)
    requires Typed(kind, default)
    ensures Typed(kind, v)
  {
    match kind
    case Color => Num(ColorValue(text, 0))
    case Number => Num(Atoi(text))
    case Switch => Num(if Atoi(text) != 0 then 1 else 0)
    case HddMode => if 0 <= Atoi(text) < HIDE_HDD_COUNT then Num(Atoi(text)) else default
    case Layout => Choice(keys.layouts, text, default)
    case Language => Choice(keys.languages, text, default)
    case Path => Str(text)
  }

  function Choice(names: seq<string>, text: string, default: Datum): (v: Datum)
    requires default.Num?
    ensures v.Num?
  {
    if Find(names, text) < |names| then Num(Find(names, text)) else default
  }

  /** The first place of a name, or the length of the table. */
  function Find(names: seq<string>, name: string): (k: nat)
    ensures k <= |names| && (k < |names| ==> names[k] == name)
  {
    if names == [] || names[0] == name then 0 else 1 + Find(names[1..], name)
  }

  lemma {:induction false} FindIs(names: seq<string>, name: string, k: nat)
    requires k <= |names| && (forall i :: 0 <= i < k ==> names[i] != name) && (k < |names| ==> names[k] == name)
    ensures Find(names, name) == k
  {
    if k > 0 {
      FindIs(names[1..], name, k - 1);
    }
  }

  predicate IsColorDigit(c: char) { IsHex(c) && !('a' <= c <= 'f') }

  /** Hexadecimal digits in capitals from the front, in 32-bit arithmetic. */
  function ColorValue(text: string, sofar: nat): nat {
    if text == "" || !IsColorDigit(text[0]) then sofar
    else ColorValue(text[1..], (sofar * 16 + Digit(text[0])) % WORD)
  }

  method HexToU32(text: string) returns (value: nat)
    ensures value == ColorValue(text, 0)
  {
    value := 0;
    var i := 0;
    assert text[0..] == text;
    while i < |text| && IsColorDigit(text[i])
      invariant i <= |text| && ColorValue(text, 0) == ColorValue(text[i..], value)
    {
      assert text[i..][1..] == text[i + 1..];
      value := (value * 16 + Digit(text[i])) % WORD;
      i := i + 1;
    }
  }

  lemma {:induction false} ColorValueIs(done: string, rest: string)
    requires |done| + |rest| <= 8 && AllHex(done)
    requires forall i :: 0 <= i < |rest| ==> IsColorDigit(rest[i])
    ensures AllHex(done + rest) && ColorValue(rest, Value(done)) == Value(done + rest)
    decreases |rest|
  {
    if rest == "" {
      assert done + rest == done;
    } else {
      var next := done + [rest[0]];
      ValueSnoc(done, rest[0]);
      ColorValueIs(next, rest[1..]);
      assert next + rest[1..] == done + rest;
    }
  }

  /** A colour is restored in its low 32 bits. */
  lemma ColorRoundTrip(n: nat)
    ensures ColorValue(Hex(n % WORD, COLOR_DIGITS), 0) == n % WORD
  {
    var s := Hex(n % WORD, COLOR_DIGITS);
    HexCapitals(n % WORD, COLOR_DIGITS);
    ColorValueIs("", s);
    assert "" + s == s;
    PowerFitsWord(8);
    HexRoundTrip(n % WORD, COLOR_DIGITS);
  }

  lemma {:induction false} HexCapitals(v: nat, n: nat)
    ensures forall i :: 0 <= i < n ==> IsColorDigit(Hex(v, n)[i])
  {
    if n > 0 {
      HexCapitals(v / 16, n - 1);
    }
  }

  lemma ChoiceRoundTrip(names: seq<string>, n: nat, default: Datum)
    requires Distinct(names) && n < |names| && default.Num?
    ensures Choice(names, names[n], default) == Num(n)
  {
    FindIs(names, names[n], n);
  }

  lemma NumberRoundTrip(n: int)
    ensures Atoi(Signed(n)) == n
  {
    DecimalRoundTrip(n, "");
    assert Signed(n) + "" == Signed(n);
  }

  lemma ReadsAs(keys: Keys, kind: Kind, text: string, v: Datum, default: Datum)
    requires Typed(kind, v) && Typed(kind, default) && Legal(keys, kind, v)
    requires match kind
      case Color => ColorValue(text, 0) == v.n
      case Layout => Choice(keys.layouts, text, default) == v
      case Language => Choice(keys.languages, text, default) == v
      case Path => text == v.s
      case _ => Atoi(text) == v.n
    ensures Read(keys, kind, text, default) == v
  {
  }

  lemma NumericRoundTrip(keys: Keys, kind: Kind, v: Datum, default: Datum)
    requires kind == Number || kind == Switch || kind == HddMode
    requires Typed(kind, v) && Typed(kind, default) && Legal(keys, kind, v)
    ensures Read(keys, kind, Print(keys, kind, v), default) == v
  {
    NumberRoundTrip(v.n);
    ReadsAs(keys, kind, Signed(v.n), v, default);
  }

  lemma NamedRoundTrip(keys: Keys, kind: Kind, v: Datum, default: Datum)
    requires GoodChoices(keys.layouts) && GoodChoices(keys.languages) && (kind == Layout || kind == Language)
    requires Typed(kind, v) && Typed(kind, default) && Legal(keys, kind, v)
    ensures Read(keys, kind, Print(keys, kind, v), default) == v
  {
    ChoiceRoundTrip(if kind == Layout then keys.layouts else keys.languages, v.n, default);
    ReadsAs(keys, kind, Print(keys, kind, v), v, default);
  }

  lemma ColorKindRoundTrip(keys: Keys, v: Datum, default: Datum, text: string)
    requires v.Num? && default.Num? && 0 <= v.n < WORD && text == Hex(v.n % WORD, COLOR_DIGITS)
    ensures Read(keys, Color, text, default) == Num(v.n % WORD)
  {
    ColorRoundTrip(v.n);
  }

  /** Every legal value survives printing and reading. */
  lemma ValueRoundTrip(keys: Keys, kind: Kind, v: Datum, default: Datum)
    requires GoodChoices(keys.layouts) && GoodChoices(keys.languages)
    requires Typed(kind, v) && Typed(kind, default) && Legal(keys, kind, v)
    ensures Read(keys, kind, Print(keys, kind, v), default) == v
  {
    match kind
    case Color =>
      FitsWord(v.n, 0);
      ColorKindRoundTrip(keys, v, default, Print(keys, kind, v));
    case Layout => NamedRoundTrip(keys, kind, v, default);
    case Language => NamedRoundTrip(keys, kind, v, default);
    case Path =>
    case _ => NumericRoundTrip(keys, kind, v, default);
  }

  lemma PrintGood(keys: Keys, kind: Kind, v: Datum)
    requires WellNamed(keys) && Typed(kind, v) && Legal(keys, kind, v)
    ensures GoodValue(Print(keys, kind, v))
  {
  }

  // ----- settings -----

  datatype Settings = Settings(fields: seq<Datum>, lkPath: seq<string>, lkFlag: seq<bool>, lkTitle: seq<string>, pathPad: seq<string>)

  ghost predicate Shaped(s: Settings) {
    && |s.fields| == FIELDS && |s.lkPath| == |s.lkFlag| == BUTTONS && |s.lkTitle| == TITLES && |s.pathPad| == PADS
    && forall k :: 0 <= k < FIELDS ==> Typed(KindOf(k), s.fields[k])
  }

  /** Settings the file can carry. */
  ghost predicate Storable(keys: Keys, s: Settings) {
    && Shaped(s)
    && (forall k :: 0 <= k < FIELDS ==> Legal(keys, KindOf(k), s.fields[k]))
    && (forall i :: 0 <= i < BUTTONS ==> GoodValue(s.lkPath[i]))
    && (forall i :: 0 <= i < TITLES ==> GoodValue(s.lkTitle[i]) && |s.lkTitle[i]| < MAX_ELF_TITLE)
    && (forall i :: 0 <= i < PADS ==> GoodValue(s.pathPad[i]) && |s.pathPad[i]| < MAX_PATH)
  }

  function Cut(text: string, size: nat): (r: string)
    requires size > 0
    ensures |text| < size ==> r == text
  {
    if |text| < size then text else text[..size - 1]
  }

  // ----- loading one variable -----

  /** The first button whose path key starts the name, or the number of buttons. */
  function FindPath(buttons: seq<string>, name: string): (i: nat)
    ensures i <= |buttons|
  {
    if buttons == [] || ButtonKey(buttons[0], "E") <= name then 0 else 1 + FindPath(buttons[1..], name)
  }

  function FindTitle(buttons: seq<string>, name: string): (i: nat)
    ensures i <= |buttons|
  {
    if buttons == [] || name == ButtonKey(buttons[0], "Title") then 0 else 1 + FindTitle(buttons[1..], name)
  }

  function SetField(keys: Keys, defaults: Settings, s: Settings, k: nat, value: string): (t: Settings)
    requires Shaped(defaults) && Shaped(s) && k < FIELDS
    ensures Shaped(t)
  {
    s.(fields := s.fields[k := Read(keys, KindOf(k), value, defaults.fields[k])])
  }

  /** What a variable of the file does to the settings. */
  function Assign(keys: Keys, defaults: Settings, s: Settings, name: string, value: string): (t: Settings)
    requires |keys.names| == FIELDS && |keys.buttons| == BUTTONS && Shaped(defaults) && Shaped(s)
    ensures Shaped(t)
  {
    var gui := Find(keys.names[..GUI_FIELDS], name);
    var path := FindPath(keys.buttons, name);
    var field := Find(keys.names, name);
    var title := FindTitle(keys.buttons[..TITLES], name);
    if name == "CNF_version" then s
    else if gui < GUI_FIELDS then SetField(keys, defaults, s, gui, value)
    else if path < BUTTONS then s.(lkPath := s.lkPath[path := value], lkFlag := s.lkFlag[path := true])
    else if "Misc" <= name then s
    else if field < FIELDS then SetField(keys, defaults, s, field, value)
    else if title < TITLES then s.(lkTitle := s.lkTitle[title := Cut(value, MAX_ELF_TITLE)])
    else if "PathPad[" <= name && 0 <= Atoi(name[8..]) < PADS then
      s.(pathPad := s.pathPad[Atoi(name[8..]) := Cut(value, MAX_PATH)])
    else s
  }

  function AssignAll(keys: Keys, defaults: Settings, s: Settings, pairs: seq<(string, string)>): (t: Settings)
    requires |keys.names| == FIELDS && |keys.buttons| == BUTTONS && Shaped(defaults) && Shaped(s)
    ensures Shaped(t)
    decreases |pairs|
  {
    if pairs == [] then s else AssignAll(keys, defaults, Assign(keys, defaults, s, pairs[0].0, pairs[0].1), pairs[1..])
  }

  // ----- what is saved -----

  /** One line of the file: the version, a launch path, a label, a scalar setting, a title, a path-pad entry. */
  datatype Item = Version | Launch(i: nat) | Label(name: string, value: string) | Scalar(k: nat) | Title(i: nat) | Pad(i: nat)

  predicate InRange(item: Item) {
    match item
    case Launch(i) => i < BUTTONS
    case Scalar(k) => k < FIELDS
    case Title(i) => i < TITLES
    case Pad(i) => i < PADS
    case _ => true
  }

  /** Launch paths of the special entries are saved only when flagged; titles and path-pad entries only when
      they are not empty. */
  predicate Saved(s: Settings, item: Item)
    requires |s.lkFlag| == BUTTONS && |s.lkTitle| == TITLES && |s.pathPad| == PADS && InRange(item)
  {
    match item
    case Launch(i) => i <= LAST_ALWAYS_SAVED || s.lkFlag[i]
    case Title(i) => s.lkTitle[i] != ""
    case Pad(i) => s.pathPad[i] != ""
    case _ => true
  }

  function PadKey(i: nat): string
    requires i < PADS
  {
    "PathPad[" + ['0' + (i / 10) as char, '0' + (i % 10) as char, ']']
  }

  function NameOf(keys: Keys, item: Item): string
    requires |keys.names| == FIELDS && |keys.buttons| == BUTTONS && InRange(item)
  {
    match item
    case Version => "CNF_version"
    case Launch(i) => ButtonKey(keys.buttons[i], "E1")
    case Label(name, _) => name
    case Scalar(k) => keys.names[k]
    case Title(i) => ButtonKey(keys.buttons[i], "Title")
    case Pad(i) => PadKey(i)
  }

  function TextOf(keys: Keys, s: Settings, item: Item): string
    requires Shaped(s) && InRange(item)
  {
    match item
    case Version => "3"
    case Launch(i) => s.lkPath[i]
    case Label(_, value) => value
    case Scalar(k) => Print(keys, KindOf(k), s.fields[k])
    case Title(i) => s.lkTitle[i]
    case Pad(i) => s.pathPad[i]
  }

  /** The lines of the file in order, given the labels of the built-in programs. */
  function Script(labels: seq<(string, string)>): (r: seq<Item>)
    ensures forall n :: 0 <= n < |r| ==> InRange(r[n])
  {
    [Version] + seq(BUTTONS, i requires 0 <= i < BUTTONS => Launch(i))
    + seq(|labels|, i requires 0 <= i < |labels| => Label(labels[i].0, labels[i].1))
    + seq(FIELDS, k requires 0 <= k < FIELDS => Scalar(k))
    + seq(TITLES, i requires 0 <= i < TITLES => Title(i))
    + [Scalar(PATHPAD_LOCK)] + seq(PADS, i requires 0 <= i < PADS => Pad(i))
  }

  function SavedPairs(keys: Keys, s: Settings, script: seq<Item>): seq<(string, string)>
    requires |keys.names| == FIELDS && |keys.buttons| == BUTTONS && Shaped(s)
    requires forall n :: 0 <= n < |script| ==> InRange(script[n])
  {
    if script == [] then []
    else
      var rest := SavedPairs(keys, s, script[1..]);
      if Saved(s, script[0]) then [(NameOf(keys, script[0]), TextOf(keys, s, script[0]))] + rest else rest
  }

  // ----- each key finds its own setting -----

  lemma {:induction false} FindPathIs(buttons: seq<string>, name: string, i: nat)
    requires i <= |buttons| && forall j :: 0 <= j < i ==> !(ButtonKey(buttons[j], "E") <= name)
    requires i < |buttons| ==> ButtonKey(buttons[i], "E") <= name
    ensures FindPath(buttons, name) == i
  {
    if i > 0 {
      FindPathIs(buttons[1..], name, i - 1);
    }
  }

  lemma {:induction false} FindTitleIs(buttons: seq<string>, name: string, i: nat)
    requires i <= |buttons| && forall j :: 0 <= j < i ==> name != ButtonKey(buttons[j], "Title")
    requires i < |buttons| ==> name == ButtonKey(buttons[i], "Title")
    ensures FindTitle(buttons, name) == i
  {
    if i > 0 {
      FindTitleIs(buttons[1..], name, i - 1);
    }
  }

  lemma ButtonKeyStart(button: string, part: string)
    ensures "LK_" <= ButtonKey(button, part) && !("Misc" <= ButtonKey(button, part)) && !("PathPad[" <= ButtonKey(button, part))
    ensures ButtonKey(button, part) != "CNF_version"
  {
    ButtonKeyAt(button, part);
    var k := ButtonKey(button, part);
    assert k[0] == 'L';
  }

  lemma OtherStart(button: string, part: string, name: string)
    requires ButtonKey(button, part) <= name
    ensures "LK_" <= name
  {
    ButtonKeyStart(button, part);
  }

  /** No launch-path key starts a name that does not begin like one, nor a key for another part. */
  lemma NoPath(keys: Keys, name: string)
    requires WellNamed(keys) && !("LK_" <= name)
    ensures FindPath(keys.buttons, name) == BUTTONS
  {
    forall j | 0 <= j < BUTTONS ensures !(ButtonKey(keys.buttons[j], "E") <= name) {
      if ButtonKey(keys.buttons[j], "E") <= name {
        OtherStart(keys.buttons[j], "E", name);
        assert false;
      }
    }
    FindPathIs(keys.buttons, name, BUTTONS);
  }

  lemma PathOfKey(keys: Keys, i: nat, part: string)
    requires WellNamed(keys) && i < BUTTONS && part != ""
    ensures FindPath(keys.buttons, ButtonKey(keys.buttons[i], part)) == if part[0] == 'E' then i else BUTTONS
  {
    var name := ButtonKey(keys.buttons[i], part);
    forall j | 0 <= j < BUTTONS ensures ButtonKey(keys.buttons[j], "E") <= name <==> j == i && part[0] == 'E' {
      if ButtonKey(keys.buttons[j], "E") <= name {
        ButtonKeyPrefix(keys.buttons[j], "E", keys.buttons[i], part);
      }
      if j == i && part[0] == 'E' {
        assert name == "LK_" + keys.buttons[i] + "_" + ([part[0]] + part[1..]);
        assert name == ButtonKey(keys.buttons[i], "E") + part[1..];
      }
    }
    FindPathIs(keys.buttons, name, if part[0] == 'E' then i else BUTTONS);
  }

  /** A button key for anything but the timer is not among the scalar names. */
  lemma NoField(keys: Keys, i: nat, part: string)
    requires WellNamed(keys) && i < BUTTONS && part != "Timer"
    ensures Find(keys.names, ButtonKey(keys.buttons[i], part)) == FIELDS
    ensures Find(keys.names[..GUI_FIELDS], ButtonKey(keys.buttons[i], part)) == GUI_FIELDS
  {
    var name := ButtonKey(keys.buttons[i], part);
    forall k | 0 <= k < FIELDS ensures keys.names[k] != name {
      if keys.names[k] == name {
        ButtonKeyStart(keys.buttons[i], part);
        assert PlainName(keys.names[k], keys.buttons[0]);
        ButtonKeyPrefix(keys.buttons[i], part, keys.buttons[0], "Timer");
        ButtonKeyPrefix(keys.buttons[0], "Timer", keys.buttons[i], part);
        assert false;
      }
    }
    FindIs(keys.names, name, FIELDS);
    FindIs(keys.names[..GUI_FIELDS], name, GUI_FIELDS);
  }

  lemma DispatchScalar(keys: Keys, defaults: Settings, s: Settings, k: nat, value: string)
    requires WellNamed(keys) && Shaped(defaults) && Shaped(s) && k < FIELDS
    ensures Assign(keys, defaults, s, keys.names[k], value) == SetField(keys, defaults, s, k, value)
  {
    var name := keys.names[k];
    assert PlainName(name, keys.buttons[0]);
    FindIs(keys.names, name, k);
    FindIs(keys.names[..GUI_FIELDS], name, if k < GUI_FIELDS then k else GUI_FIELDS);
    if "LK_" <= name {
      PathOfKey(keys, 0, "Timer");
    } else {
      NoPath(keys, name);
    }
  }

  lemma DispatchLaunch(keys: Keys, defaults: Settings, s: Settings, i: nat, value: string)
    requires WellNamed(keys) && Shaped(defaults) && Shaped(s) && i < BUTTONS
    ensures Assign(keys, defaults, s, ButtonKey(keys.buttons[i], "E1"), value)
      == s.(lkPath := s.lkPath[i := value], lkFlag := s.lkFlag[i := true])
  {
    ButtonKeyStart(keys.buttons[i], "E1");
    NoField(keys, i, "E1");
    PathOfKey(keys, i, "E1");
  }

  lemma DispatchTitle(keys: Keys, defaults: Settings, s: Settings, i: nat, value: string)
    requires WellNamed(keys) && Shaped(defaults) && Shaped(s) && i < TITLES
    ensures Assign(keys, defaults, s, ButtonKey(keys.buttons[i], "Title"), value)
      == s.(lkTitle := s.lkTitle[i := Cut(value, MAX_ELF_TITLE)])
  {
    ButtonKeyStart(keys.buttons[i], "Title");
    NoField(keys, i, "Title");
    PathOfKey(keys, i, "Title");
    forall j | 0 <= j < i ensures ButtonKey(keys.buttons[i], "Title") != ButtonKey(keys.buttons[..TITLES][j], "Title") {
      if ButtonKey(keys.buttons[i], "Title") == ButtonKey(keys.buttons[j], "Title") {
        ButtonKeyPrefix(keys.buttons[j], "Title", keys.buttons[i], "Title");
        assert false;
      }
    }
    FindTitleIs(keys.buttons[..TITLES], ButtonKey(keys.buttons[i], "Title"), i);
  }

  lemma NoTitle(keys: Keys, name: string)
    requires WellNamed(keys) && !("LK_" <= name)
    ensures FindTitle(keys.buttons[..TITLES], name) == TITLES
  {
    forall j | 0 <= j < TITLES ensures name != ButtonKey(keys.buttons[..TITLES][j], "Title") {
      ButtonKeyStart(keys.buttons[j], "Title");
    }
    FindTitleIs(keys.buttons[..TITLES], name, TITLES);
  }

  /** Two digits and a bracket, for atoi. */
  lemma PadNumber(i: nat)
    requires i < PADS
    ensures "PathPad[" <= PadKey(i) && Atoi(PadKey(i)[8..]) == i
    ensures GoodName(PadKey(i)) && !("LK_" <= PadKey(i)) && !("Misc" <= PadKey(i)) && PadKey(i) != "CNF_version"
  {
    var t, o := '0' + (i / 10) as char, '0' + (i % 10) as char;
    var digits := PadKey(i)[8..];
    assert digits == [t, o, ']'] && digits[1..] == [o, ']'] && digits[1..][1..] == [']'];
    assert Leading([']'], i) == i;
    assert Leading([o, ']'], i / 10) == i;
    assert Leading(digits, 0) == i;
    assert PadKey(i)[0] == 'P';
  }

  lemma DispatchPad(keys: Keys, defaults: Settings, s: Settings, i: nat, value: string)
    requires WellNamed(keys) && Shaped(defaults) && Shaped(s) && i < PADS
    ensures Assign(keys, defaults, s, PadKey(i), value) == s.(pathPad := s.pathPad[i := Cut(value, MAX_PATH)])
  {
    var name := PadKey(i);
    PadNumber(i);
    forall k | 0 <= k < FIELDS ensures keys.names[k] != name {
      assert PlainName(keys.names[k], keys.buttons[0]);
    }
    FindIs(keys.names, name, FIELDS);
    FindIs(keys.names[..GUI_FIELDS], name, GUI_FIELDS);
    NoPath(keys, name);
    NoTitle(keys, name);
  }

  lemma DispatchLabel(keys: Keys, defaults: Settings, s: Settings, name: string, value: string)
    requires WellNamed(keys) && Shaped(defaults) && Shaped(s) && "Misc" <= name
    ensures Assign(keys, defaults, s, name, value) == s
  {
    assert name[0] == "Misc"[0];
    forall k | 0 <= k < FIELDS ensures keys.names[k] != name {
      assert PlainName(keys.names[k], keys.buttons[0]);
    }
    FindIs(keys.names[..GUI_FIELDS], name, GUI_FIELDS);
    NoPath(keys, name);
  }

  // ----- what comes back -----

  /** The stored part of the settings that a line is about. */
  function Get(s: Settings, item: Item): Datum
    requires Shaped(s) && InRange(item)
  {
    match item
    case Launch(i) => Str(s.lkPath[i])
    case Scalar(k) => s.fields[k]
    case Title(i) => Str(s.lkTitle[i])
    case Pad(i) => Str(s.pathPad[i])
    case _ => Num(0)
  }

  predicate GoodLabel(item: Item) {
    item.Label? ==> "Misc" <= item.name && GoodName(item.name) && GoodValue(item.value)
  }

  /** Loading one saved line restores what it is about, and nothing else. */
  lemma AssignItem(keys: Keys, defaults: Settings, t: Settings, s: Settings, item: Item, other: Item)
    requires WellNamed(keys) && Storable(keys, s) && Shaped(defaults) && Shaped(t)
    requires InRange(item) && InRange(other) && GoodLabel(item)
    ensures var u := Assign(keys, defaults, t, NameOf(keys, item), TextOf(keys, s, item));
      Get(u, other) == if other == item then Get(s, item) else Get(t, other)
  {
    match item
    case Version =>
    case Launch(i) => DispatchLaunch(keys, defaults, t, i, s.lkPath[i]);
    case Label(name, value) => DispatchLabel(keys, defaults, t, name, value);
    case Scalar(k) =>
      DispatchScalar(keys, defaults, t, k, Print(keys, KindOf(k), s.fields[k]));
      ValueRoundTrip(keys, KindOf(k), s.fields[k], defaults.fields[k]);
    case Title(i) => DispatchTitle(keys, defaults, t, i, s.lkTitle[i]);
    case Pad(i) => DispatchPad(keys, defaults, t, i, s.pathPad[i]);
  }

  /** Loading saved lines restores exactly what they are about. */
  lemma {:induction false} AssignSaved(keys: Keys, defaults: Settings, t: Settings, s: Settings, script: seq<Item>, other: Item)
    requires WellNamed(keys) && Storable(keys, s) && Shaped(defaults) && Shaped(t) && InRange(other)
    requires forall n :: 0 <= n < |script| ==> InRange(script[n]) && GoodLabel(script[n])
    ensures Get(AssignAll(keys, defaults, t, SavedPairs(keys, s, script)), other)
      == if other in script && Saved(s, other) then Get(s, other) else Get(t, other)
    decreases |script|
  {
    if script != [] {
      var item := script[0];
      if Saved(s, item) {
        AssignItem(keys, defaults, t, s, item, other);
        var u := Assign(keys, defaults, t, NameOf(keys, item), TextOf(keys, s, item));
        AssignSaved(keys, defaults, u, s, script[1..], other);
      } else {
        AssignSaved(keys, defaults, t, s, script[1..], other);
      }
    }
  }

  /** The lines in the order of the file. */
  lemma ScriptInOrder(labels: seq<(string, string)>)
    ensures var r, n := Script(labels), |labels|;
      && |r| == 1 + BUTTONS + n + FIELDS + TITLES + 1 + PADS && r[0] == Version
      && (forall i :: 0 <= i < BUTTONS ==> r[1 + i] == Launch(i))
      && (forall i :: 0 <= i < n ==> r[1 + BUTTONS + i] == Label(labels[i].0, labels[i].1))
      && (forall k :: 0 <= k < FIELDS ==> r[1 + BUTTONS + n + k] == Scalar(k))
      && (forall i :: 0 <= i < TITLES ==> r[1 + BUTTONS + n + FIELDS + i] == Title(i))
      && r[1 + BUTTONS + n + FIELDS + TITLES] == Scalar(PATHPAD_LOCK)
      && (forall i :: 0 <= i < PADS ==> r[2 + BUTTONS + n + FIELDS + TITLES + i] == Pad(i))
  {
  }

  /** Every saved file starts with its version. */
  lemma VersionFirst(keys: Keys, s: Settings, labels: seq<(string, string)>)
    requires |keys.names| == FIELDS && |keys.buttons| == BUTTONS && Shaped(s)
    ensures "CNF_version = 3\r\n" <= Lines(SavedPairs(keys, s, Script(labels)))
  {
    var script := Script(labels);
    ScriptInOrder(labels);
    var rest := SavedPairs(keys, s, script[1..]);
    assert SavedPairs(keys, s, script) == [("CNF_version", "3")] + rest;
    assert ([("CNF_version", "3")] + rest)[1..] == rest;
    assert Line("CNF_version", "3") == "CNF_version = 3\r\n";
  }

  lemma InScript(labels: seq<(string, string)>, item: Item)
    requires InRange(item) && !item.Label?
    ensures item in Script(labels)
  {
    var r := Script(labels);
    match item
    case Version => assert r[0] == item;
    case Launch(i) => assert r[1 + i] == item;
    case Scalar(k) => assert r[1 + BUTTONS + |labels| + k] == item;
    case Title(i) => assert r[1 + BUTTONS + |labels| + FIELDS + i] == item;
    case Pad(i) => assert r[2 + BUTTONS + |labels| + FIELDS + TITLES + i] == item;
  }

  lemma ItemGood(keys: Keys, s: Settings, item: Item)
    requires WellNamed(keys) && Storable(keys, s) && InRange(item) && GoodLabel(item)
    ensures GoodName(NameOf(keys, item)) && GoodValue(TextOf(keys, s, item))
  {
    match item
    case Version =>
    case Launch(i) => ButtonKeyGood(keys.buttons[i], "E1");
    case Label(name, value) =>
    case Scalar(k) =>
      PrintGood(keys, KindOf(k), s.fields[k]);
      assert PlainName(keys.names[k], keys.buttons[0]);
    case Title(i) => ButtonKeyGood(keys.buttons[i], "Title");
    case Pad(i) => PadNumber(i);
  }

  lemma GoodCons(name: string, value: string, pairs: seq<(string, string)>)
    requires GoodName(name) && GoodValue(value) && GoodPairs(pairs)
    ensures GoodPairs([(name, value)] + pairs)
  {
  }

  lemma {:induction false} SavedGood(keys: Keys, s: Settings, script: seq<Item>)
    requires WellNamed(keys) && Storable(keys, s)
    requires forall n :: 0 <= n < |script| ==> InRange(script[n]) && GoodLabel(script[n])
    ensures GoodPairs(SavedPairs(keys, s, script))
  {
    if script != [] {
      SavedGood(keys, s, script[1..]);
      ItemGood(keys, s, script[0]);
      GoodCons(NameOf(keys, script[0]), TextOf(keys, s, script[0]), SavedPairs(keys, s, script[1..]));
    }
  }

  /** The text a save writes. */
  function SavedText(keys: Keys, s: Settings, labels: seq<(string, string)>): string
    requires |keys.names| == FIELDS && |keys.buttons| == BUTTONS && Shaped(s)
  {
    Lines(SavedPairs(keys, s, Script(labels)))
  }

  predicate GoodLabels(labels: seq<(string, string)>) {
    forall i :: 0 <= i < |labels| ==> "Misc" <= labels[i].0 && GoodName(labels[i].0) && GoodValue(labels[i].1)
  }

  /** The launch path of a special entry is written only with its flag set. */
  predicate Kept(defaults: Settings, s: Settings, item: Item)
    requires |s.lkFlag| == |s.lkPath| == |defaults.lkPath| == BUTTONS && InRange(item)
  {
    item.Launch? ==> item.i <= LAST_ALWAYS_SAVED || s.lkFlag[item.i] || s.lkPath[item.i] == defaults.lkPath[item.i]
  }

  /** Loading what was saved restores every scalar setting, title and path-pad entry, and a launch path if
      and only if it was written or is the default anyway. */
  lemma LoadRestores(keys: Keys, defaults: Settings, s: Settings, labels: seq<(string, string)>, item: Item)
    requires WellNamed(keys) && Storable(keys, s) && Shaped(defaults) && GoodLabels(labels)
    requires InRange(item) && !item.Label?
    requires (item.Title? || item.Pad?) ==> Get(defaults, item) == Str("")
    ensures !Hung(SavedText(keys, s, labels))
    ensures var loaded := AssignAll(keys, defaults, defaults, Pairs(SavedText(keys, s, labels)));
      Get(loaded, item) == Get(s, item) <==> Kept(defaults, s, item)
  {
    var script := Script(labels);
    SavedGood(keys, s, script);
    LinesRoundTrip(SavedPairs(keys, s, script));
    AssignSaved(keys, defaults, defaults, s, script, item);
    InScript(labels, item);
  }

  lemma SavedStep(keys: Keys, s: Settings, script: seq<Item>, n: nat)
    requires |keys.names| == FIELDS && |keys.buttons| == BUTTONS && Shaped(s) && n < |script|
    requires forall m :: 0 <= m < |script| ==> InRange(script[m])
    ensures Lines(SavedPairs(keys, s, script[n..]))
      == (if Saved(s, script[n]) then Line(NameOf(keys, script[n]), TextOf(keys, s, script[n])) else "")
         + Lines(SavedPairs(keys, s, script[n + 1..]))
  {
    assert script[n..][1..] == script[n + 1..];
    var rest := SavedPairs(keys, s, script[n + 1..]);
    assert ([(NameOf(keys, script[n]), TextOf(keys, s, script[n]))] + rest)[1..] == rest;
  }

  lemma AssignStep(keys: Keys, defaults: Settings, s: Settings, rest: string)
    requires |keys.names| == FIELDS && |keys.buttons| == BUTTONS && Shaped(defaults) && Shaped(s)
    ensures var found := Next(rest);
      AssignAll(keys, defaults, s, Pairs(rest)) == if found.Found? then
        AssignAll(keys, defaults, Assign(keys, defaults, s, found.name, found.value), Pairs(found.rest))
      else s
  {
    var found := Next(rest);
    if found.Found? {
      AssignCons(keys, defaults, s, found.name, found.value, Pairs(found.rest));
    }
  }

  lemma AssignCons(keys: Keys, defaults: Settings, s: Settings, name: string, value: string, more: seq<(string, string)>)
    requires |keys.names| == FIELDS && |keys.buttons| == BUTTONS && Shaped(defaults) && Shaped(s)
    ensures AssignAll(keys, defaults, s, [(name, value)] + more)
      == AssignAll(keys, defaults, Assign(keys, defaults, s, name, value), more)
  {
    assert ([(name, value)] + more)[1..] == more;
  }

  // ----- the settings in place -----

  method FindKey(names: seq<string>, name: string) returns (k: nat)
    ensures k == Find(names, name)
  {
    k := 0;
    assert names[0..] == names;
    while k < |names| && names[k] != name
      invariant k <= |names| && k + Find(names[k..], name) == Find(names, name)
    {
      assert names[k..][1..] == names[k + 1..];
      k := k + 1;
    }
  }

  method FindButton(buttons: seq<string>, name: string) returns (i: nat)
    ensures i == FindPath(buttons, name)
  {
    i := 0;
    assert buttons[0..] == buttons;
    while i < |buttons| && !(ButtonKey(buttons[i], "E") <= name)
      invariant i <= |buttons| && i + FindPath(buttons[i..], name) == FindPath(buttons, name)
    {
      assert buttons[i..][1..] == buttons[i + 1..];
      i := i + 1;
    }
  }

  method FindTitleKey(buttons: seq<string>, name: string) returns (i: nat)
    ensures i == FindTitle(buttons, name)
  {
    i := 0;
    assert buttons[0..] == buttons;
    while i < |buttons| && name != ButtonKey(buttons[i], "Title")
      invariant i <= |buttons| && i + FindTitle(buttons[i..], name) == FindTitle(buttons, name)
    {
      assert buttons[i..][1..] == buttons[i + 1..];
      i := i + 1;
    }
  }

  /** The loader's chain of comparisons, one loop after the other. */
  method Dispatch(keys: Keys, defaults: Settings, s: Settings, name: string, value: string) returns (t: Settings)
    requires |keys.names| == FIELDS && |keys.buttons| == BUTTONS && Shaped(defaults) && Shaped(s)
    ensures t == Assign(keys, defaults, s, name, value)
  {
    if name == "CNF_version" {
      return s;
    }
    var k := FindKey(keys.names[..GUI_FIELDS], name);
    if k < GUI_FIELDS {
      return SetField(keys, defaults, s, k, value);
    }
    var i := FindButton(keys.buttons, name);
    if i < BUTTONS {
      return s.(lkPath := s.lkPath[i := value], lkFlag := s.lkFlag[i := true]);
    }
    if "Misc" <= name {
      return s;
    }
    k := FindKey(keys.names, name);
    if k < FIELDS {
      return SetField(keys, defaults, s, k, value);
    }
    i := FindTitleKey(keys.buttons[..TITLES], name);
    if i < TITLES {
      return s.(lkTitle := s.lkTitle[i := Cut(value, MAX_ELF_TITLE)]);
    }
    if "PathPad[" <= name {
      var n := Atoi(name[8..]);
      if 0 <= n < PADS {
        return s.(pathPad := s.pathPad[n := Cut(value, MAX_PATH)]);
      }
    }
    return s;
  }

  class Configuration {
    var setting: Settings

    constructor (defaults: Settings)
      ensures setting == defaults
    {
      setting := defaults;
    }

    /** The text to be written, built line by line. */
    method SaveText(keys: Keys, labels: seq<(string, string)>) returns (text: string)
      requires |keys.names| == FIELDS && |keys.buttons| == BUTTONS && Shaped(setting)
      ensures text == SavedText(keys, setting, labels)
    {
      text := "";
      var script := Script(labels);
      var n := 0;
      assert script[0..] == script;
      while n < |script|
        invariant n <= |script|
        invariant text + Lines(SavedPairs(keys, setting, script[n..])) == SavedText(keys, setting, labels)
      {
        SavedStep(keys, setting, script, n);
        if Saved(setting, script[n]) {
          text := text + Line(NameOf(keys, script[n]), TextOf(keys, setting, script[n]));
        }
        n := n + 1;
      }
    }

    /** Sets everything to its default and then goes through the variables of the file; on a file that the
        parser does not return from, neither does loading. */
    method Load(keys: Keys, defaults: Settings, buffer: array<char>, ghost text: string) returns (returned: bool)
      requires WellNamed(keys) && Shaped(defaults) && Holds(buffer[..], 0, text)
      modifies this, buffer
      ensures returned <==> !Hung(text)
      ensures setting == AssignAll(keys, defaults, defaults, Pairs(text))
    {
      setting := defaults;
      ghost var rest, all, hung := text, AssignAll(keys, defaults, defaults, Pairs(text)), Hung(text);
      var tp, got := 0, Taken;
      while got.Taken?
        invariant Shaped(setting)
        invariant got.Taken? ==> Holds(buffer[..], tp, rest) && Hung(rest) == hung
        invariant got.Taken? ==> AssignAll(keys, defaults, setting, Pairs(rest)) == all
        invariant !got.Taken? ==> setting == all && got.Stuck? == hung
        decreases got.Taken?, |rest|
      {
        got, tp, rest := LoadOn(keys, defaults, buffer, tp, rest);
      }
      returned := got.Ended?;
    }

    /** Applies the next variable. */
    method LoadOn(keys: Keys, defaults: Settings, buffer: array<char>, start: nat, ghost rest: string)
      returns (got: Outcome, tp: nat, ghost left: string)
      requires WellNamed(keys) && Shaped(defaults) && Shaped(setting) && Holds(buffer[..], start, rest)
      modifies this, buffer
      ensures Shaped(setting)
      ensures got.Taken? ==> Holds(buffer[..], tp, left) && |left| < |rest| && Hung(left) == Hung(rest)
      ensures got.Taken? ==>
                AssignAll(keys, defaults, setting, Pairs(left)) == AssignAll(keys, defaults, old(setting), Pairs(rest))
      ensures !got.Taken? ==>
                setting == old(setting) == AssignAll(keys, defaults, setting, Pairs(rest)) && got.Stuck? == Hung(rest)
    {
      AssignStep(keys, defaults, setting, rest);
      HungStep(rest);
      left := rest;
      var name, value;
      got, tp, name, value := ReadPair(buffer, start, rest);
      if got.Taken? {
        setting := Dispatch(keys, defaults, setting, name, value);
        left := Next(rest).rest;
      }
    }
  }
}
