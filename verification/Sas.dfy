/** The category scheme: a folder name becomes a category and a slot in that category's day.
    The slot reads the name as a fraction in base 40 and scales it to the seconds of a day. */
module Sas {
  import opened Arithmetic
  import Calendar
  import opened Names

  const RANK_WIDTH := 48
  const BASE := 40
  const MAX_NAME := 256
  /** Each category has one day. */
  const DAY := Calendar.SECONDS_PER_DAY

  // ----- from a folder name to its category and payload -----

  function TrimLeft(s: string): string {
    if s != [] && s[0] == ' ' then TrimLeft(s[1..]) else s
  }

  function TrimRight(s: string): string {
    if s != [] && s[|s| - 1] == ' ' then TrimRight(s[..|s| - 1]) else s
  }

  function UpperAll(s: string): (r: string)
    ensures |r| == |s|
  {
    seq(|s|, i requires 0 <= i < |s| => Upper(s[i]))
  }

  /** Well-known tools are filed under the prefix of the category they belong to. */
  function Alias(n: string): string {
    if n == "OSDXMB" || n == "XEBPLUS" then "APP_" + n
    else if n == "RESTART" || n == "POWEROFF" then "RAA_" + n
    else if n == "NEUTRINO" then "RTE_" + n
    else if n == "BOOT" then "SYS_BOOT"
    else if n == "EXPLOITS" then "ZZY_EXPLOITS"
    else if n == "BM" || n == "MATRIXTEAM" || n == "OPL" || n == "POPSTARTER" then "ZZZ_" + n
    else n
  }

  function EffectiveName(name: string): string {
    Alias(UpperAll(TrimRight(TrimLeft(name))))
  }

  function Category(effective: string): (category: nat)
    ensures category <= 12
  {
    if "APP_" <= effective then 0
    else if effective == "APPS" then 1
    else if "PS1_" <= effective then 2
    else if "EMU_" <= effective then 3
    else if "GME_" <= effective then 4
    else if "DST_" <= effective then 5
    else if "DBG_" <= effective then 6
    else if "RAA_" <= effective then 7
    else if "RTE_" <= effective then 8
    else if "SYS_" <= effective || effective == "SYS" then 10
    else if "ZZY_" <= effective then 11
    else if "ZZZ_" <= effective then 12
    else 9
  }

  predicate HasCategoryPrefix(s: string) {
    || "APP_" <= s || "PS1_" <= s || "EMU_" <= s || "GME_" <= s || "DST_" <= s || "DBG_" <= s
    || "RAA_" <= s || "RTE_" <= s || "SYS_" <= s || "ZZY_" <= s || "ZZZ_" <= s
  }

  function WithoutDashes(s: string): string {
    if s == [] then [] else (if s[0] == '-' then [] else [s[0]]) + WithoutDashes(s[1..])
  }

  function PayloadSource(effective: string, category: nat): string {
    if category == 1 then "APPS"
    else if category != 9 && HasCategoryPrefix(effective) then effective[4..]
    else effective
  }

  function Payload(effective: string, category: nat): string {
    WithoutDashes(PayloadSource(effective, category))
  }

  method NormalizeName(name: string) returns (normalized: string)
    ensures normalized == UpperAll(TrimRight(TrimLeft(name)))
  {
    var begin, end := 0, |name|;
    while begin < end && name[begin] == ' '
      invariant 0 <= begin <= end == |name|
      invariant TrimLeft(name) == TrimLeft(name[begin..])
    {
      begin := begin + 1;
    }
    ghost var left := name[begin..];
    assert TrimLeft(name) == left;
    assert left == name[begin..end];
    while end > begin && name[end - 1] == ' '
      invariant begin <= end <= |name|
      invariant TrimRight(left) == TrimRight(name[begin..end])
    {
      assert name[begin..end][..end - begin - 1] == name[begin..end - 1];
      end := end - 1;
    }
    normalized := UpperCopy(name, begin, end);
  }

  method UpperCopy(name: string, begin: nat, end: nat) returns (copy: string)
    requires begin <= end <= |name|
    ensures copy == UpperAll(name[begin..end])
  {
    copy := [];
    for i := 0 to end - begin
      invariant copy == UpperAll(name[begin..end])[..i]
    {
      copy := copy + [Upper(name[begin + i])];
    }
  }

  method BuildEffectiveFolderName(name: string) returns (effective: string)
    requires |name| < MAX_NAME
    ensures effective == EffectiveName(name)
  {
    var normalized := NormalizeName(name);
    effective := Alias(normalized);
  }

  /** How many characters of s[..n] are not dashes. */
  ghost function Kept(s: string, n: nat): (k: nat)
    requires n <= |s|
    ensures k <= n
  {
    if n == 0 then 0 else Kept(s, n - 1) + if s[n - 1] == '-' then 0 else 1
  }

  /** payload holds no dash, and every other character of source behind as many as are kept before it. */
  ghost predicate OnlyDashesDropped(source: string, payload: string) {
    '-' !in payload && DashesDroppedUpto(source, payload, |source|)
  }

  ghost predicate DashesDroppedUpto(source: string, payload: string, n: nat) {
    && n <= |source| && |payload| == Kept(source, n)
    && forall i: nat {:trigger Kept(source, i)} :: i < n && source[i] != '-' ==> StandsAt(payload, Kept(source, i), source[i])
  }

  predicate StandsAt(payload: string, k: nat, c: char) {
    k < |payload| && payload[k] == c
  }

  lemma {:induction false} WithoutDashesSnoc(s: string, c: char)
    ensures WithoutDashes(s + [c]) == WithoutDashes(s) + if c == '-' then [] else [c]
  {
    if s != [] {
      WithoutDashesSnoc(s[1..], c);
      assert (s + [c])[1..] == s[1..] + [c];
    } else {
      assert (s + [c])[1..] == [];
    }
  }

  lemma DashesDroppedNext(source: string, payload: string, n: nat)
    requires n < |source| && DashesDroppedUpto(source, payload, n)
    ensures DashesDroppedUpto(source, if source[n] == '-' then payload else payload + [source[n]], n + 1)
  {
    var next := if source[n] == '-' then payload else payload + [source[n]];
    forall i: nat | i < n + 1 && source[i] != '-'
      ensures StandsAt(next, Kept(source, i), source[i])
    {
      if i < n {
        assert StandsAt(payload, Kept(source, i), source[i]);
      }
    }
  }

  lemma WithoutDashesNext(source: string, n: nat)
    requires n < |source|
    ensures WithoutDashes(source[..n + 1]) == WithoutDashes(source[..n]) + if source[n] == '-' then [] else [source[n]]
  {
    WithoutDashesSnoc(source[..n], source[n]);
    assert source[..n + 1] == source[..n] + [source[n]];
  }

  method CopyWithoutDashes(source: string) returns (payload: string)
    ensures payload == WithoutDashes(source) && OnlyDashesDropped(source, payload)
  {
    payload := [];
    for i := 0 to |source|
      invariant payload == WithoutDashes(source[..i])
      invariant '-' !in payload && DashesDroppedUpto(source, payload, i)
    {
      WithoutDashesNext(source, i);
      DashesDroppedNext(source, payload, i);
      if source[i] != '-' {
        payload := payload + [source[i]];
      }
    }
    assert source[..|source|] == source;
  }

  /** The characters of the name behind its category prefix, without dashes; the folder APPS, and a name
      without a prefix, count in full. */
  method BuildPayload(effective: string, category: nat) returns (payload: string)
    ensures payload == Payload(effective, category)
    ensures category == 1 ==> OnlyDashesDropped("APPS", payload)
    ensures category == 9 || (category != 1 && !HasCategoryPrefix(effective)) ==> OnlyDashesDropped(effective, payload)
    ensures category != 1 && category != 9 && HasCategoryPrefix(effective) ==> OnlyDashesDropped(effective[4..], payload)
  {
    payload := CopyWithoutDashes(PayloadSource(effective, category));
  }

  /** The prefix of the names in a category; none for APPS and for names that are in no other category. */
  function Prefix(category: nat): string {
    match category
    case 0 => "APP_" case 2 => "PS1_" case 3 => "EMU_" case 4 => "GME_" case 5 => "DST_" case 6 => "DBG_"
    case 7 => "RAA_" case 8 => "RTE_" case 10 => "SYS_" case 11 => "ZZY_" case 12 => "ZZZ_"
    case _ => ""
  }

  /** A name is its category's prefix and what it is ranked by, save the folder SYS. */
  lemma PrefixAndSource(name: string)
    requires Category(name) != 1 && name != "SYS"
    ensures name == Prefix(Category(name)) + PayloadSource(name, Category(name))
  {
    var c := Category(name);
    if c != 9 {
      assert Prefix(c) <= name && |Prefix(c)| == 4;
      assert name == name[..4] + name[4..];
    }
  }

  /** What a name is ranked by tells it apart from every other name of its category, save the folder SYS
      and a folder SYS_SYS. */
  lemma SourceTellsNamesApart(p: string, q: string)
    requires Category(p) == Category(q)
    ensures PayloadSource(p, Category(p)) == PayloadSource(q, Category(q)) <==>
              p == q || (p == "SYS" && q == "SYS_SYS") || (p == "SYS_SYS" && q == "SYS")
  {
    if Category(p) != 1 {
      if p != "SYS" { PrefixAndSource(p); }
      if q != "SYS" { PrefixAndSource(q); }
      assert Prefix(10) + "SYS" == "SYS_SYS";
    }
  }

  lemma PrefixTells(c: nat, d: nat)
    requires Prefix(c) == Prefix(d) != ""
    ensures c == d
  {
    var p, q := Prefix(c), Prefix(d);
    assert p[0] == q[0] && p[1] == q[1] && p[2] == q[2];
  }

  lemma OwnPrefix(name: string)
    ensures HasCategoryPrefix(name) ==> Prefix(Category(name)) != "" && Prefix(Category(name)) <= name
    ensures !HasCategoryPrefix(name) ==> Category(name) == if name == "APPS" then 1 else if name == "SYS" then 10 else 9
  {
  }

  /** A name's prefix decides its category; APPS and SYS are names of their own; the rest is category 9. */
  lemma CategoryMeans(name: string, c: nat)
    requires Prefix(c) != "" && Prefix(c) <= name
    ensures Category(name) == c
  {
    assert HasCategoryPrefix(name);
    OwnPrefix(name);
    assert Prefix(c) == name[..4] == Prefix(Category(name));
    PrefixTells(c, Category(name));
  }

  /** The tools that are filed under a prefix. */
  lemma AliasesOfTools()
    ensures Alias("OSDXMB") == "APP_OSDXMB" && Alias("XEBPLUS") == "APP_XEBPLUS"
    ensures Alias("RESTART") == "RAA_RESTART" && Alias("POWEROFF") == "RAA_POWEROFF"
  {
    assert "RESTART"[0] != "XEBPLUS"[0];
  }

  lemma AliasesOfSystem()
    ensures Alias("NEUTRINO") == "RTE_NEUTRINO" && Alias("BOOT") == "SYS_BOOT" && Alias("EXPLOITS") == "ZZY_EXPLOITS"
  {
    assert "POWEROFF"[0] != "NEUTRINO"[0] && "EXPLOITS"[0] != "NEUTRINO"[0] && "EXPLOITS"[0] != "POWEROFF"[0];
  }

  lemma AliasesOfFolders()
    ensures Alias("BM") == "ZZZ_BM" && Alias("MATRIXTEAM") == "ZZZ_MATRIXTEAM"
    ensures Alias("OPL") == "ZZZ_OPL" && Alias("POPSTARTER") == "ZZZ_POPSTARTER"
  {
  }

  predicate IsTool(n: string) {
    || n == "OSDXMB" || n == "XEBPLUS" || n == "RESTART" || n == "POWEROFF" || n == "NEUTRINO" || n == "BOOT"
    || n == "EXPLOITS" || n == "BM" || n == "MATRIXTEAM" || n == "OPL" || n == "POPSTARTER"
  }

  lemma NoOtherAlias(n: string)
    requires !IsTool(n)
    ensures Alias(n) == n
  {
  }

  predicate Blank(s: string) {
    forall i :: 0 <= i < |s| ==> s[i] == ' '
  }

  lemma {:induction false} TrimLeftMeans(s: string)
    ensures |TrimLeft(s)| <= |s| && TrimLeft(s) == s[|s| - |TrimLeft(s)|..] && Blank(s[..|s| - |TrimLeft(s)|])
    ensures TrimLeft(s) != [] ==> TrimLeft(s)[0] != ' '
  {
    if s != [] && s[0] == ' ' {
      TrimLeftMeans(s[1..]);
      var t := TrimLeft(s);
      assert s[1..][|s| - 1 - |t|..] == s[|s| - |t|..];
      assert s[..|s| - |t|] == [' '] + s[1..][..|s| - 1 - |t|];
    }
  }

  lemma {:induction false} TrimRightMeans(s: string)
    ensures TrimRight(s) <= s && Blank(s[|TrimRight(s)|..])
    ensures TrimRight(s) != [] ==> TrimRight(s)[|TrimRight(s)| - 1] != ' '
  {
    if s != [] && s[|s| - 1] == ' ' {
      TrimRightMeans(s[..|s| - 1]);
      var t := TrimRight(s);
      assert s[|t|..] == s[..|s| - 1][|t|..] + [' '];
    }
  }

  // ----- from a payload to its slot -----

  function CharacterCode(c: char): (code: nat)
    ensures code <= 39
  {
    if c == ' ' then 0
    else if '0' <= c <= '9' then c as int - '0' as int + 1
    else if 'A' <= c <= 'Z' then c as int - 'A' as int + 11
    else if c == '_' then 37
    else if c == '-' then 38
    else 39
  }

  type Digits = ds: seq<int> | forall i :: 0 <= i < |ds| ==> 0 <= ds[i] <= BASE

  function DigitAt(payload: string, i: nat): (d: nat)
    ensures d <= BASE
  {
    if i < |payload| then CharacterCode(payload[i]) + 1 else 0
  }

  function PayloadDigits(payload: string): Digits {
    seq(RANK_WIDTH, i requires 0 <= i => DigitAt(payload, i))
  }

  function Weight(n: nat): (w: nat)
    ensures w > 0
  {
    if n == 0 then 1 else BASE * Weight(n - 1)
  }

  /** The digits as one integer, most significant first. */
  function Numeral(ds: Digits): nat {
    if ds == [] then 0 else ds[0] * Weight(|ds| - 1) + Numeral(ds[1..])
  }

  /** floor(86400 * sum of ds[i] / 40^(i+1)) */
  function Scaled(ds: Digits): nat {
    Quotient(DAY * Numeral(ds), Weight(|ds|))
  }

  function Slot(payload: string): (slot: nat)
    ensures slot < DAY
  {
    var s := Scaled(PayloadDigits(payload));
    if s >= DAY then DAY - 1 else s
  }

  /** The first 48 characters decide. */
  lemma FirstCharactersDecide(p: string, q: string)
    requires |p| >= 48 && |q| >= 48
    ensures PayloadDigits(p) == PayloadDigits(q) <==> forall i :: 0 <= i < 48 ==> CharacterCode(p[i]) == CharacterCode(q[i])
  {
    var ds, es := PayloadDigits(p), PayloadDigits(q);
    if ds == es {
      forall i | 0 <= i < 48 ensures CharacterCode(p[i]) == CharacterCode(q[i]) {
        assert ds[i] == es[i];
      }
    }
    if forall i :: 0 <= i < 48 ==> CharacterCode(p[i]) == CharacterCode(q[i]) {
      forall i | 0 <= i < |ds| ensures ds[i] == es[i] {
        assert CharacterCode(p[i]) == CharacterCode(q[i]);
      }
      assert ds == es;
    }
  }

  /** One turn of the carry loop prepends one digit to the scaled fraction. */
  lemma CarryStep(d: nat, rest: Digits)
    requires d <= BASE
    ensures Quotient(d * DAY + Scaled(rest), BASE) == Scaled([d] + rest)
  {
    var m, v := Weight(|rest|), Numeral(rest);
    NestedFloor(d * DAY, DAY * v, m, BASE);
    var ds: Digits := [d] + rest;
    assert ds[1..] == rest;
    MulNonnegative(d, m);
    ScaleDigit(d, m, v);
  }

  /** The digits as a fraction: the sum of ds[i] / 40^(i+1). */
  ghost function Fraction(ds: Digits): real {
    if ds == [] then 0.0 else (ds[0] as real + Fraction(ds[1..])) / 40.0
  }

  lemma {:induction false} FractionIsNumeral(ds: Digits)
    ensures Fraction(ds) * Weight(|ds|) as real == Numeral(ds) as real
  {
    if ds != [] {
      var m, f, d := Weight(|ds| - 1) as real, Fraction(ds[1..]), ds[0] as real;
      FractionIsNumeral(ds[1..]);
      assert Weight(|ds|) as real == 40.0 * m;
      assert (d + f) / 40.0 * (40.0 * m) == (d + f) * m == d * m + f * m;
      RealProduct(ds[0], Weight(|ds| - 1));
    }
  }

  ghost predicate IsRatio(f: real, v: nat, w: nat) {
    f * w as real == v as real
  }

  lemma FractionIsRatio(ds: Digits)
    ensures IsRatio(Fraction(ds), Numeral(ds), Weight(|ds|))
  {
    FractionIsNumeral(ds);
  }

  /** The nested integer divisions compute one floor of the exact product. */
  lemma ScaledIsFloor(ds: Digits)
    ensures Scaled(ds) == (86400.0 * Fraction(ds)).Floor
  {
    FractionIsRatio(ds);
    QuotientFloor(Weight(|ds|), Numeral(ds), Fraction(ds));
  }

  lemma QuotientFloor(w: nat, v: nat, f: real)
    requires w > 0 && IsRatio(f, v, w)
    ensures (86400.0 * f).Floor == Quotient(DAY * v, w)
  {
    QuotientBrackets(DAY * v, w);
    QuotientBounds(Quotient(DAY * v, w), w, v, f);
  }

  lemma QuotientBounds(q: nat, w: nat, v: nat, f: real)
    requires w > 0 && q * w <= DAY * v < q * w + w
    requires f * w as real == v as real
    ensures q as real <= 86400.0 * f < q as real + 1.0
  {
    var p, n := q * w, DAY * v;
    RealProduct(q, w);
    assert p as real <= n as real < p as real + w as real;
    RatioBounds(q as real, w as real, f, v as real, p as real);
  }

  lemma ScaleDigit(d: nat, m: nat, v: nat)
    ensures DAY * (d * m + v) == (d * DAY) * m + DAY * v
  {
    MulAssociates(DAY, d, m);
  }

  method TimestampSlot(payload: string) returns (slot: nat)
    ensures slot == Slot(payload)
  {
    var digits := new int[RANK_WIDTH];
    for i := 0 to RANK_WIDTH
      invariant forall k :: 0 <= k < i ==> digits[k] == DigitAt(payload, k)
    {
      digits[i] := if i < |payload| then CharacterCode(payload[i]) + 1 else 0;
    }
    slot := CarryDown(digits, payload);
  }

  method CarryDown(digits: array<int>, payload: string) returns (slot: nat)
    requires digits[..] == PayloadDigits(payload)
    ensures slot == Slot(payload)
  {
    ghost var ds := PayloadDigits(payload);
    var carry := 0;
    for i := RANK_WIDTH downto 0
      invariant carry == Scaled(ds[i..])
      invariant 0 <= carry <= 88_615
    {
      CarryStep(ds[i], ds[i + 1..]);
      assert [ds[i]] + ds[i + 1..] == ds[i..];
      assert digits[i] == digits[..][i] == ds[i];
      var product := digits[i] * DAY + carry;
      assert product < 0x8000_0000;
      carry := product / BASE;
    }
    assert ds[0..] == ds;
    if carry >= DAY {
      return DAY - 1;
    }
    return carry;
  }

  // ----- the slot follows the alphabet as long as no digit equals the base -----

  ghost predicate AtMost(ds: seq<int>, top: int) {
    forall i :: 0 <= i < |ds| ==> 0 <= ds[i] <= top
  }

  ghost predicate FirstDifference(p: seq<int>, q: seq<int>, i: nat) {
    i < |p| && i < |q| && p[..i] == q[..i] && p[i] < q[i]
  }

  /** Dictionary order on digit strings of one length. */
  ghost predicate Precedes(p: seq<int>, q: seq<int>) {
    |p| == |q| && exists i: nat :: FirstDifference(p, q, i)
  }

  lemma {:induction false} NumeralBound(ds: Digits)
    requires AtMost(ds, BASE - 1)
    ensures Numeral(ds) < Weight(|ds|)
  {
    if ds != [] {
      NumeralBound(ds[1..]);
      var m := Weight(|ds| - 1);
      MulMonotone(ds[0], BASE - 1, m);
    }
  }

  lemma {:induction false} NumeralFollowsOrder(p: Digits, q: Digits, i: nat)
    requires |p| == |q| && AtMost(p, BASE - 1) && FirstDifference(p, q, i)
    ensures Numeral(p) < Numeral(q)
    decreases i
  {
    var m := Weight(|p| - 1);
    if i == 0 {
      NumeralBound(p[1..]);
      MulMonotone(p[0] + 1, q[0], m);
      MulDistributes(p[0], 1, m);
    } else {
      assert p[0] == p[..i][0] == q[..i][0] == q[0];
      assert p[1..][..i - 1] == p[..i][1..] == q[..i][1..] == q[1..][..i - 1];
      NumeralFollowsOrder(p[1..], q[1..], i - 1);
    }
  }

  lemma ScaledFollowsOrder(p: Digits, q: Digits)
    requires AtMost(p, BASE - 1) && Precedes(p, q)
    ensures Scaled(p) <= Scaled(q)
  {
    var i: nat :| FirstDifference(p, q, i);
    NumeralFollowsOrder(p, q, i);
    QuotientMonotone(DAY * Numeral(p), DAY * Numeral(q), Weight(|p|));
  }

  /** A payload without catch-all characters never gets a later slot than a payload it precedes. */
  lemma SlotFollowsAlphabet(p: string, q: string)
    requires forall i :: 0 <= i < |p| ==> CharacterCode(p[i]) < 39
    requires Precedes(PayloadDigits(p), PayloadDigits(q))
    ensures Slot(p) <= Slot(q)
  {
    ScaledFollowsOrder(PayloadDigits(p), PayloadDigits(q));
  }

  // ----- the alphabet, in characters -----

  /** The characters that have a place of their own: blank, digits, capitals and the underscore. */
  predicate InAlphabet(c: char) {
    c == ' ' || '0' <= c <= '9' || 'A' <= c <= 'Z' || c == '_'
  }

  /** Characters of the alphabet come in their own order, ahead of all others. */
  predicate LetterPrecedes(c: char, d: char) {
    InAlphabet(c) && (InAlphabet(d) ==> c < d)
  }

  /** The codes of characters other than dashes, which payloads do not hold, are in that order. */
  lemma CodesFollowLetters(c: char, d: char)
    ensures LetterPrecedes(c, d) ==> CharacterCode(c) < CharacterCode(d)
    ensures c != '-' && d != '-' && CharacterCode(c) < CharacterCode(d) ==> LetterPrecedes(c, d)
    ensures c != '-' ==> (CharacterCode(c) == 39 <==> !InAlphabet(c))
  {
  }

  /** The payloads agree up to some place that counts, and there p ends or has the earlier character. */
  ghost predicate PayloadPrecedes(p: string, q: string) {
    exists i: nat :: i < RANK_WIDTH && i <= |p| && i < |q| && p[..i] == q[..i] && (i == |p| || LetterPrecedes(p[i], q[i]))
  }

  lemma DigitsFollowLetters(p: string, q: string)
    requires PayloadPrecedes(p, q)
    ensures Precedes(PayloadDigits(p), PayloadDigits(q))
  {
    var i: nat :| i < RANK_WIDTH && i <= |p| && i < |q| && p[..i] == q[..i] && (i == |p| || LetterPrecedes(p[i], q[i]));
    var ds, es := PayloadDigits(p), PayloadDigits(q);
    forall k | 0 <= k < i ensures ds[k] == es[k] {
      assert p[k] == p[..i][k] == q[..i][k] == q[k];
    }
    assert ds[..i] == es[..i];
    if i < |p| { CodesFollowLetters(p[i], q[i]); }
    assert FirstDifference(ds, es, i);
  }

  /** A payload in the alphabet never gets a later slot than a payload that it precedes. */
  lemma SlotFollowsLetters(p: string, q: string)
    requires (forall i :: 0 <= i < |p| ==> InAlphabet(p[i])) && PayloadPrecedes(p, q)
    ensures Slot(p) <= Slot(q)
  {
    DigitsFollowLetters(p, q);
    forall i | 0 <= i < |p| ensures CharacterCode(p[i]) < 39 {
      CodesFollowLetters(p[i], p[i]);
    }
    SlotFollowsAlphabet(p, q);
  }

  function Zeros(n: nat): (z: Digits)
    ensures |z| == n
  {
    seq(n, _ => 0)
  }

  lemma {:induction false} ScaledZeros(n: nat)
    ensures Scaled(Zeros(n)) == 0
  {
    ghost var z := Zeros(n);
    if n > 0 {
      ScaledZeros(n - 1);
      CarryStep(0, Zeros(n - 1));
      assert [0] + Zeros(n - 1) == z;
    }
  }

  lemma ScaledTail(n: nat)
    ensures Scaled([40] + Zeros(n)) == 86_400
  {
    ScaledZeros(n);
    CarryStep(40, Zeros(n));
  }

  lemma ScaledTails(n: nat)
    ensures Scaled([40, 40] + Zeros(n)) == 88_560
  {
    ScaledTail(n);
    CarryStep(40, [40] + Zeros(n));
    assert [40] + ([40] + Zeros(n)) == [40, 40] + Zeros(n);
  }

  /** With a catch-all character the order can break: 12.40.40 comes out after 13.0.0. */
  lemma BaseDigitBreaksOrder(p: Digits, q: Digits)
    requires p == [12, 40, 40] + Zeros(RANK_WIDTH - 3)
    requires q == [13] + Zeros(RANK_WIDTH - 1)
    ensures Precedes(p, q) && Scaled(p) == 28_134 && Scaled(q) == 28_080
  {
    ScaledTails(RANK_WIDTH - 3);
    CarryStep(12, [40, 40] + Zeros(RANK_WIDTH - 3));
    assert [12] + ([40, 40] + Zeros(RANK_WIDTH - 3)) == p;
    ScaledZeros(RANK_WIDTH - 1);
    CarryStep(13, Zeros(RANK_WIDTH - 1));
    assert FirstDifference(p, q, 0);
  }

  /** Concretely, "A~~" precedes "B" but is given a later slot. */
  lemma CatchAllCounterexample()
    ensures Precedes(PayloadDigits("A~~"), PayloadDigits("B"))
    ensures Slot("A~~") > Slot("B")
  {
    assert PayloadDigits("A~~") == [12, 40, 40] + Zeros(RANK_WIDTH - 3);
    assert PayloadDigits("B") == [13] + Zeros(RANK_WIDTH - 1);
    BaseDigitBreaksOrder(PayloadDigits("A~~"), PayloadDigits("B"));
  }

  ghost predicate OrderKept(top: int) {
    forall p: Digits, q: Digits ::
      |p| == |q| == RANK_WIDTH && AtMost(p, top) && AtMost(q, top) && Precedes(p, q) ==> Scaled(p) <= Scaled(q)
  }

  /** Dictionary order survives the scaling exactly for the alphabets whose digits stay below the base. */
  lemma OrderKeptExactlyBelowBase(top: int)
    requires 0 <= top <= BASE
    ensures OrderKept(top) <==> top < BASE
  {
    if top < BASE {
      forall p: Digits, q: Digits | |p| == |q| == RANK_WIDTH && AtMost(p, top) && AtMost(q, top) && Precedes(p, q)
        ensures Scaled(p) <= Scaled(q)
      {
        ScaledFollowsOrder(p, q);
      }
    } else {
      var p: Digits := [12, 40, 40] + Zeros(RANK_WIDTH - 3);
      var q: Digits := [13] + Zeros(RANK_WIDTH - 1);
      BaseDigitBreaksOrder(p, q);
      assert AtMost(p, top) && AtMost(q, top);
    }
  }
}
