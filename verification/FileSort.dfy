/** The order of a file listing and the in-place quicksort that establishes it. */
module FileSort {

  type Letter = c: char | 0 < c as int < 256 witness 'A'

  datatype FileInfo = FileInfo(name: seq<Letter>, title: seq<Letter>, isDir: bool, modified: nat)

  datatype Mode = Unsorted | ByName | ByTitle | ByTime

  datatype Settings = Settings(mode: Mode, descending: bool, timeValid: bool, showTitles: bool)

  // ----- text -----

  /** A byte as the signed char of the console's compiler. */
  function Signed(c: Letter): (r: int)
    ensures r != 0
  {
    if c as int < 128 then c as int else c as int - 256
  }

  /** A byte of a name, with small letters raised. */
  function Raised(c: Letter): (r: int)
    ensures r != 0
  {
    if 'a' <= c <= 'z' then c as int - 0x20 else Signed(c)
  }

  function Keys(s: seq<Letter>, raise: bool): (r: seq<int>)
    ensures |r| == |s| && 0 !in r
  {
    seq(|s|, i requires 0 <= i < |s| => if raise then Raised(s[i]) else Signed(s[i]))
  }

  /** Byte at i of the terminated text. */
  function At(s: seq<int>, i: nat): int {
    if i < |s| then s[i] else 0
  }

  /** The difference at the first byte where two terminated texts differ, or 0. */
  function TextOrder(a: seq<int>, b: seq<int>): int
    decreases |a|
  {
    if At(a, 0) != At(b, 0) || |a| == 0 || |b| == 0 then At(a, 0) - At(b, 0)
    else TextOrder(a[1..], b[1..])
  }

  lemma {:induction false} TextOrderAntisymmetric(a: seq<int>, b: seq<int>)
    ensures TextOrder(a, b) == -TextOrder(b, a)
    decreases |a|
  {
    if |a| > 0 && |b| > 0 {
      TextOrderAntisymmetric(a[1..], b[1..]);
    }
  }

  lemma {:induction false} TextOrderTransitive(a: seq<int>, b: seq<int>, c: seq<int>)
    requires 0 !in a && 0 !in b && 0 !in c
    requires TextOrder(a, b) <= 0 && TextOrder(b, c) <= 0
    ensures TextOrder(a, c) <= 0
    ensures TextOrder(a, c) == 0 ==> TextOrder(a, b) == 0 && TextOrder(b, c) == 0
    decreases |a|
  {
    if |a| > 0 { var x := a[0]; assert x in a; }
    if |b| > 0 { var x := b[0]; assert x in b; }
    if |c| > 0 { var x := c[0]; assert x in c; }
    if |a| > 0 && |b| > 0 && |c| > 0 && a[0] == b[0] == c[0] {
      TextOrderTransitive(a[1..], b[1..], c[1..]);
    }
  }

  /** The texts are told apart exactly by their keys. */
  lemma {:induction false} TextOrderZero(a: seq<int>, b: seq<int>)
    requires 0 !in a && 0 !in b
    ensures TextOrder(a, b) == 0 <==> a == b
    decreases |a|
  {
    if |a| > 0 { var x := a[0]; assert x in a; }
    if |b| > 0 { var x := b[0]; assert x in b; }
    if |a| > 0 && |b| > 0 && a[0] == b[0] {
      TextOrderZero(a[1..], b[1..]);
      assert a == [a[0]] + a[1..] && b == [b[0]] + b[1..];
    }
  }

  // ----- files -----

  /** The last dot, with the extension ELF behind it. */
  predicate ElfDot(name: seq<Letter>, d: nat)
    requires d < |name|
  {
    name[d] == '.' && '.' !in name[d + 1..] && Keys(name[d + 1..], true) == ['E' as int, 'L' as int, 'F' as int]
  }

  predicate IsElf(name: seq<Letter>) {
    exists d | 0 <= d < |name| :: ElfDot(name, d)
  }

  /** Titles take part in the comparison at all. */
  predicate UsesTitles(st: Settings) {
    match st.mode
    case ByTitle => true
    case ByTime => st.showTitles
    case _ => false
  }

  /** The groups of a sorted listing, in order: folders, ELF files, other files. */
  function Group(f: FileInfo): nat {
    if f.isDir then 0 else if IsElf(f.name) then 1 else 2
  }

  function Directed(st: Settings, difference: int): int {
    if st.descending then -difference else difference
  }

  /** The time that counts: none unless sorting by time and the listing has times. */
  function TimeKey(st: Settings, f: FileInfo): int {
    if st.mode == ByTime && st.timeValid then f.modified else 0
  }

  /** Titled entries come before untitled ones, when titles count. */
  function TitleGroup(st: Settings, f: FileInfo): nat {
    if UsesTitles(st) && f.title == [] then 1 else 0
  }

  function TextKey(st: Settings, f: FileInfo): (r: seq<int>)
    ensures 0 !in r
  {
    if UsesTitles(st) && f.title != [] then Keys(f.title, false) else Keys(f.name, true)
  }

  /** The reference order: group, then time, then presence of a title, then text; only time and text
      follow the direction. */
  function Order(st: Settings, a: FileInfo, b: FileInfo): int {
    if st.mode == Unsorted then 0
    else if Group(a) != Group(b) then Group(a) - Group(b)
    else if TimeKey(st, a) != TimeKey(st, b) then Directed(st, TimeKey(st, a) - TimeKey(st, b))
    else if TitleGroup(st, a) != TitleGroup(st, b) then TitleGroup(st, a) - TitleGroup(st, b)
    else Directed(st, TextOrder(TextKey(st, a), TextKey(st, b)))
  }

  lemma OrderAntisymmetric(st: Settings, a: FileInfo, b: FileInfo)
    ensures Order(st, a, b) == -Order(st, b, a)
  {
    TextOrderAntisymmetric(TextKey(st, a), TextKey(st, b));
  }

  lemma OrderTransitive(st: Settings, a: FileInfo, b: FileInfo, c: FileInfo)
    requires Order(st, a, b) <= 0 && Order(st, b, c) <= 0
    ensures Order(st, a, c) <= 0
    ensures Order(st, a, c) == 0 ==> Order(st, a, b) == 0 && Order(st, b, c) == 0
  {
    var x, y, z := TextKey(st, a), TextKey(st, b), TextKey(st, c);
    if TextOrder(x, y) <= 0 && TextOrder(y, z) <= 0 {
      TextOrderTransitive(x, y, z);
    }
    if TextOrder(x, y) >= 0 && TextOrder(y, z) >= 0 {
      TextOrderAntisymmetric(x, y);
      TextOrderAntisymmetric(y, z);
      TextOrderAntisymmetric(x, z);
      TextOrderTransitive(z, y, x);
    }
  }

  /** Entries tie only when nothing the mode looks at tells them apart. */
  lemma OrderTies(st: Settings, a: FileInfo, b: FileInfo)
    requires st.mode != Unsorted
    ensures Order(st, a, b) == 0 <==>
      (&& Group(a) == Group(b) && TimeKey(st, a) == TimeKey(st, b)
       && TitleGroup(st, a) == TitleGroup(st, b) && TextKey(st, a) == TextKey(st, b))
  {
    TextOrderZero(TextKey(st, a), TextKey(st, b));
  }

  // ----- what the order means -----

  /** What a byte counts for, the terminator being 0: bytes from 128 up are negative, and in names, but not in
      titles, small letters count like capitals. */
  function ByteAt(s: seq<Letter>, i: nat, isTitle: bool): int {
    if i >= |s| then 0
    else if !isTitle && 'a' <= s[i] <= 'z' then 'A' as int + (s[i] as int - 'a' as int)
    else if s[i] as int >= 128 then s[i] as int - 256
    else s[i] as int
  }

  /** The texts agree up to byte i, and there a has the smaller one. */
  ghost predicate SmallerAt(a: seq<Letter>, b: seq<Letter>, isTitle: bool, i: nat) {
    && i <= |a| && i <= |b| && (forall k: nat :: k < i ==> ByteAt(a, k, isTitle) == ByteAt(b, k, isTitle))
    && ByteAt(a, i, isTitle) < ByteAt(b, i, isTitle)
  }

  ghost predicate Smaller(a: seq<Letter>, b: seq<Letter>, isTitle: bool) {
    exists i: nat :: SmallerAt(a, b, isTitle, i)
  }

  /** A name that ends in ".elf", in letters of either case. */
  predicate NamedElf(name: seq<Letter>) {
    var n := |name|;
    n >= 4 && name[n - 4] == '.' && name[n - 3] in "eE" && name[n - 2] in "lL" && name[n - 1] in "fF"
  }

  /** a is listed ahead of b: folders first, then ELF files; among those alike the older, or in descending order
      the newer; then those with a title; then the smaller text, or in descending order the larger. */
  ghost predicate Ahead(st: Settings, a: FileInfo, b: FileInfo) {
    && !st.mode.Unsorted?
    && if a.isDir != b.isDir then a.isDir
       else if !a.isDir && NamedElf(a.name) != NamedElf(b.name) then NamedElf(a.name)
       else if st.mode.ByTime? && st.timeValid && a.modified != b.modified then
         (if st.descending then a.modified > b.modified else a.modified < b.modified)
       else if (st.mode.ByTitle? || (st.mode.ByTime? && st.showTitles)) && (a.title != [] || b.title != []) then
         (if a.title == [] || b.title == [] then a.title != []
          else if st.descending then Smaller(b.title, a.title, true) else Smaller(a.title, b.title, true))
       else if st.descending then Smaller(b.name, a.name, false) else Smaller(a.name, b.name, false)
  }

  lemma KeyAt(s: seq<Letter>, isTitle: bool, i: nat)
    ensures At(Keys(s, !isTitle), i) == ByteAt(s, i, isTitle)
  {
  }

  /** Comparing keys is comparing bytes. */
  lemma {:induction false} TextOrderIsSmaller(a: seq<Letter>, b: seq<Letter>, isTitle: bool)
    ensures TextOrder(Keys(a, !isTitle), Keys(b, !isTitle)) < 0 <==> Smaller(a, b, isTitle)
    decreases |a|
  {
    KeyAt(a, isTitle, 0);
    KeyAt(b, isTitle, 0);
    if ByteAt(a, 0, isTitle) != ByteAt(b, 0, isTitle) || |a| == 0 || |b| == 0 {
      if ByteAt(a, 0, isTitle) < ByteAt(b, 0, isTitle) {
        assert SmallerAt(a, b, isTitle, 0);
      }
      FirstByteDecides(a, b, isTitle);
    } else {
      assert Keys(a, !isTitle)[1..] == Keys(a[1..], !isTitle) && Keys(b, !isTitle)[1..] == Keys(b[1..], !isTitle);
      TextOrderIsSmaller(a[1..], b[1..], isTitle);
      SmallerTail(a, b, isTitle);
    }
  }

  lemma FirstByteDecides(a: seq<Letter>, b: seq<Letter>, isTitle: bool)
    requires ByteAt(a, 0, isTitle) != ByteAt(b, 0, isTitle) || |a| == 0 || |b| == 0
    ensures Smaller(a, b, isTitle) ==> ByteAt(a, 0, isTitle) < ByteAt(b, 0, isTitle)
  {
    assert forall i: nat :: SmallerAt(a, b, isTitle, i) ==> i == 0;
  }

  lemma ByteOfTail(s: seq<Letter>, isTitle: bool, i: nat)
    requires s != []
    ensures ByteAt(s, i + 1, isTitle) == ByteAt(s[1..], i, isTitle)
  {
  }

  lemma SmallerTail(a: seq<Letter>, b: seq<Letter>, isTitle: bool)
    requires a != [] && b != [] && ByteAt(a, 0, isTitle) == ByteAt(b, 0, isTitle)
    ensures Smaller(a, b, isTitle) <==> Smaller(a[1..], b[1..], isTitle)
  {
    forall k: nat ensures ByteAt(a, k + 1, isTitle) == ByteAt(a[1..], k, isTitle)
                  ensures ByteAt(b, k + 1, isTitle) == ByteAt(b[1..], k, isTitle) {
      ByteOfTail(a, isTitle, k);
      ByteOfTail(b, isTitle, k);
    }
    if i: nat :| SmallerAt(a, b, isTitle, i) {
      assert i > 0;
      assert SmallerAt(a[1..], b[1..], isTitle, i - 1);
    }
    if i: nat :| SmallerAt(a[1..], b[1..], isTitle, i) {
      forall k: nat | k < i + 1 ensures ByteAt(a, k, isTitle) == ByteAt(b, k, isTitle) {
        if k > 0 { assert ByteAt(a[1..], k - 1, isTitle) == ByteAt(b[1..], k - 1, isTitle); }
      }
      assert SmallerAt(a, b, isTitle, i + 1);
    }
  }

  lemma ElfIsNamed(name: seq<Letter>)
    ensures IsElf(name) <==> NamedElf(name)
  {
    forall d: nat | d < |name| ensures ElfDot(name, d) <==> d == |name| - 4 && NamedElf(name) {
      DotIsNamed(name, d);
    }
    if NamedElf(name) {
      assert ElfDot(name, |name| - 4);
    }
  }

  lemma DotIsNamed(name: seq<Letter>, d: nat)
    requires d < |name|
    ensures ElfDot(name, d) <==> d == |name| - 4 && NamedElf(name)
  {
    var t := name[d + 1..];
    if |t| == 3 {
      assert t[0] == name[d + 1] && t[1] == name[d + 2] && t[2] == name[d + 3];
      ThreeKeys(t);
    }
  }

  lemma ThreeKeys(t: seq<Letter>)
    requires |t| == 3
    ensures Keys(t, true) == [Raised(t[0]), Raised(t[1]), Raised(t[2])] && ('.' in t <==> t[0] == '.' || t[1] == '.' || t[2] == '.')
  {
  }

  lemma TextKeyOrder(st: Settings, a: FileInfo, b: FileInfo)
    requires TitleGroup(st, a) == TitleGroup(st, b)
    ensures var titled := UsesTitles(st) && a.title != [];
      TextOrder(TextKey(st, a), TextKey(st, b)) < 0 <==>
        Smaller(if titled then a.title else a.name, if titled then b.title else b.name, titled)
  {
    var titled := UsesTitles(st) && a.title != [];
    TextOrderIsSmaller(if titled then a.title else a.name, if titled then b.title else b.name, titled);
  }

  lemma OrderBelowIsAhead(st: Settings, a: FileInfo, b: FileInfo)
    ensures Order(st, a, b) < 0 <==> Ahead(st, a, b)
  {
    ElfIsNamed(a.name);
    ElfIsNamed(b.name);
    if TitleGroup(st, a) == TitleGroup(st, b) {
      TextKeyOrder(st, a, b);
      TextKeyOrder(st, b, a);
      TextOrderAntisymmetric(TextKey(st, a), TextKey(st, b));
    }
  }

  /** The reference order, in terms of folders, names, titles and times alone. */
  lemma OrderIsAhead(st: Settings, a: FileInfo, b: FileInfo)
    ensures Order(st, a, b) < 0 <==> Ahead(st, a, b)
    ensures Order(st, a, b) > 0 <==> Ahead(st, b, a)
  {
    OrderBelowIsAhead(st, a, b);
    OrderBelowIsAhead(st, b, a);
    OrderAntisymmetric(st, a, b);
  }

  ghost predicate Sorted(st: Settings, s: seq<FileInfo>) {
    SortedRange(st, s, 0, |s|)
  }

  /** The entries from left up to hi are in order. */
  ghost predicate SortedRange(st: Settings, s: seq<FileInfo>, left: int, hi: int)
    requires 0 <= left <= hi <= |s|
  {
    forall i, j :: left <= i < j < hi ==> Order(st, s[i], s[j]) <= 0
  }

  /** No entry of the range is ahead of an earlier one. */
  ghost predicate NoneOutOfPlace(st: Settings, s: seq<FileInfo>, left: int, hi: int)
    requires 0 <= left <= hi <= |s|
  {
    forall i, j :: left <= i < j < hi ==> !Ahead(st, s[j], s[i])
  }

  lemma SortedIsInPlace(st: Settings, s: seq<FileInfo>, left: int, hi: int)
    requires 0 <= left <= hi <= |s| && SortedRange(st, s, left, hi)
    ensures NoneOutOfPlace(st, s, left, hi)
  {
    forall i, j | left <= i < j < hi ensures !Ahead(st, s[j], s[i]) {
      OrderIsAhead(st, s[i], s[j]);
    }
  }

  /** The text comparison, byte by byte up to and with the first text's terminator. */
  method CompareText(a: seq<int>, b: seq<int>) returns (r: int)
    requires 0 !in a && 0 !in b
    ensures r == TextOrder(a, b)
  {
    var i := 0;
    while i <= |a|
      invariant 0 <= i && i <= |a| + 1
      invariant i <= |a| ==> i <= |b| && TextOrder(a, b) == TextOrder(a[i..], b[i..])
      invariant i == |a| + 1 ==> TextOrder(a, b) == 0
    {
      if i < |a| { var x := a[i]; assert x in a; }
      if i < |b| { var x := b[i]; assert x in b; }
      r := At(a, i) - At(b, i);
      if r != 0 {
        return;
      }
      if i < |a| {
        assert a[i..][1..] == a[i + 1..] && b[i..][1..] == b[i + 1..];
      }
      i := i + 1;
    }
    return 0;
  }

  /** The comparison with the source's branches gives the reference order's sign. */
  method CompareFiles(st: Settings, a: FileInfo, b: FileInfo) returns (r: int)
    ensures r < 0 <==> Order(st, a, b) < 0
    ensures r > 0 <==> Order(st, a, b) > 0
    ensures (r < 0 <==> Ahead(st, a, b)) && (r > 0 <==> Ahead(st, b, a))
  {
    OrderIsAhead(st, a, b);
    var t := st.mode == ByTitle;
    if st.mode == Unsorted {
      return 0;
    }
    if a.isDir == b.isDir {
      if !a.isDir {
        var aElf, bElf := IsElf(a.name), IsElf(b.name);
        if aElf && !bElf {
          return -1;
        } else if !aElf && bElf {
          return 1;
        }
      }
      if st.mode == ByTime {
        t := st.showTitles;
        if st.timeValid {
          if a.modified > b.modified {
            return if st.descending then -1 else 1;
          }
          if a.modified < b.modified {
            return if st.descending then 1 else -1;
          }
        }
      }
      if t {
        if a.title != [] && b.title == [] {
          return -1;
        } else if a.title == [] && b.title != [] {
          return 1;
        } else if a.title == [] && b.title == [] {
          t := false;
        }
      }
      var difference := CompareText(if t then Keys(a.title, false) else Keys(a.name, true),
                                    if t then Keys(b.title, false) else Keys(b.name, true));
      return Directed(st, difference);
    }
    if a.isDir {
      return -1;
    } else {
      return 1;
    }
  }

  // ----- quicksort -----

  ghost predicate AllBefore(st: Settings, s: seq<FileInfo>, from: int, to: int, pivot: FileInfo)
    requires 0 <= from <= to <= |s|
  {
    forall k :: from <= k < to ==> Order(st, s[k], pivot) < 0
  }

  ghost predicate NoneBefore(st: Settings, s: seq<FileInfo>, from: int, to: int, pivot: FileInfo)
    requires 0 <= from <= to <= |s|
  {
    forall k :: from <= k < to ==> Order(st, s[k], pivot) >= 0
  }

  /** t is s with the entries from left up to hi permuted, and nothing else. */
  ghost predicate Permuted(s: seq<FileInfo>, t: seq<FileInfo>, left: int, hi: int)
    requires 0 <= left <= hi <= |s|
  {
    |t| == |s| && multiset(t) == multiset(s) && forall k :: (0 <= k < left || hi <= k < |s|) ==> t[k] == s[k]
  }

  /** Entry p parts the range into those before it and those not before it. */
  ghost predicate Parted(st: Settings, s: seq<FileInfo>, left: int, p: int, hi: int)
    requires 0 <= left <= p < hi <= |s|
  {
    AllBefore(st, s, left, p, s[p]) && NoneBefore(st, s, p + 1, hi, s[p])
  }

  lemma SameMiddle(l: seq<FileInfo>, m: seq<FileInfo>, n: seq<FileInfo>, r: seq<FileInfo>)
    requires multiset(l + m + r) == multiset(l + n + r)
    ensures multiset(m) == multiset(n)
  {
    assert multiset(l + m + r) == multiset(l) + multiset(m) + multiset(r);
    assert multiset(l + n + r) == multiset(l) + multiset(n) + multiset(r);
    forall x ensures multiset(m)[x] == multiset(n)[x] {
      assert multiset(l + m + r)[x] == multiset(l + n + r)[x];
    }
  }

  lemma PermutedSegment(s: seq<FileInfo>, t: seq<FileInfo>, left: int, hi: int)
    requires 0 <= left <= hi <= |s| && Permuted(s, t, left, hi)
    ensures multiset(t[left..hi]) == multiset(s[left..hi])
    ensures forall x :: x in t[left..hi] <==> x in s[left..hi]
  {
    assert s == s[..left] + s[left..hi] + s[hi..];
    assert t == t[..left] + t[left..hi] + t[hi..];
    assert t[..left] == s[..left] && t[hi..] == s[hi..];
    SameMiddle(s[..left], s[left..hi], t[left..hi], s[hi..]);
    forall x ensures x in t[left..hi] <==> x in s[left..hi] {
      assert x in t[left..hi] <==> x in multiset(t[left..hi]);
      assert x in s[left..hi] <==> x in multiset(s[left..hi]);
    }
  }

  lemma PermutedTwice(s: seq<FileInfo>, t: seq<FileInfo>, u: seq<FileInfo>, left: int, from: int, to: int, hi: int)
    requires 0 <= left <= from <= to <= hi <= |s|
    requires Permuted(s, t, left, hi) && Permuted(t, u, from, to)
    ensures Permuted(s, u, left, hi)
  {
  }

  function Swapped(s: seq<FileInfo>, i: int, j: int): (r: seq<FileInfo>)
    requires 0 <= i < |s| && 0 <= j < |s|
    ensures |r| == |s|
  {
    s[i := s[j]][j := s[i]]
  }

  lemma SwapPermutes(was: seq<FileInfo>, s: seq<FileInfo>, i: int, j: int, left: int, hi: int)
    requires 0 <= left <= i <= j < hi <= |was| && Permuted(was, s, left, hi)
    ensures Permuted(was, Swapped(s, i, j), left, hi)
    ensures i == j ==> Swapped(s, i, j) == s
  {
  }

  /** s is parted at p; sorting the part before p and then the part after it sorts the range. */
  lemma SortedByParts(st: Settings, s: seq<FileInfo>, t: seq<FileInfo>, u: seq<FileInfo>, left: int, p: int, hi: int)
    requires 0 <= left <= p < hi <= |s|
    requires Parted(st, s, left, p, hi)
    requires Permuted(s, t, left, p) && SortedRange(st, t, left, p)
    requires Permuted(t, u, p + 1, hi) && SortedRange(st, u, p + 1, hi)
    ensures SortedRange(st, u, left, hi)
  {
    forall i | left <= i < p ensures Order(st, u[i], u[p]) < 0 {
      var k := Origin(s, t, left, p, i);
      assert Order(st, s[k], s[p]) < 0;
    }
    forall j | p < j < hi ensures Order(st, u[j], u[p]) >= 0 {
      var k := Origin(t, u, p + 1, hi, j);
      assert Order(st, s[k], s[p]) >= 0;
    }
    forall i, j | left <= i < j < hi ensures Order(st, u[i], u[j]) <= 0 {
      if j < p {
        assert Order(st, t[i], t[j]) <= 0;
      } else if i <= p < j {
        OrderAntisymmetric(st, u[p], u[j]);
        if i < p {
          OrderTransitive(st, u[i], u[p], u[j]);
        }
      }
    }
  }

  /** Where in the range a permuted entry came from. */
  lemma Origin(s: seq<FileInfo>, t: seq<FileInfo>, left: int, hi: int, i: int) returns (k: int)
    requires 0 <= left <= i < hi <= |s| && Permuted(s, t, left, hi)
    ensures left <= k < hi && s[k] == t[i]
  {
    PermutedSegment(s, t, left, hi);
    assert t[left..hi][i - left] in t[left..hi];
    var n :| 0 <= n < hi - left && s[left..hi][n] == t[i];
    k := left + n;
  }

  /** Where the scan of a partition stands: entries before the pivot, then entries not before it. */
  ghost predicate Scanned(st: Settings, s: seq<FileInfo>, left: int, p: int, i: int)
    requires 0 <= left <= p < i <= |s|
  {
    AllBefore(st, s, left + 1, p + 1, s[left]) && NoneBefore(st, s, p + 1, i, s[left])
  }

  lemma ScanOn(st: Settings, s: seq<FileInfo>, left: int, p: int, i: int)
    requires 0 <= left <= p < i < |s| && Scanned(st, s, left, p, i)
    ensures Order(st, s[i], s[left]) >= 0 ==> Scanned(st, s, left, p, i + 1)
    ensures Order(st, s[i], s[left]) < 0 ==> Scanned(st, Swapped(s, p + 1, i), left, p + 1, i + 1)
  {
  }

  lemma ScanDone(st: Settings, s: seq<FileInfo>, left: int, p: int, hi: int)
    requires 0 <= left <= p < hi <= |s| && Scanned(st, s, left, p, hi)
    ensures Parted(st, Swapped(s, left, p), left, p, hi)
  {
  }

  method Swap(a: array<FileInfo>, i: int, j: int)
    requires 0 <= i < a.Length && 0 <= j < a.Length
    modifies a
    ensures a[..] == Swapped(old(a[..]), i, j)
  {
    a[i], a[j] := a[j], a[i];
  }

  /** Moves the entries that come before the first one in front of it; the first one ends up at p. */
  method Partition(st: Settings, a: array<FileInfo>, left: int, right: int) returns (p: int)
    requires 0 <= left < right < a.Length
    modifies a
    ensures left <= p <= right
    ensures Parted(st, a[..], left, p, right + 1)
    ensures Permuted(old(a[..]), a[..], left, right + 1)
    ensures st.mode == Unsorted ==> a[..] == old(a[..])
  {
    ghost var was, s := a[..], a[..];
    var pivot := a[left];
    p := left;
    var i := left + 1;
    while i <= right
      invariant left <= p < i <= right + 1 && a[..] == s && |s| == a.Length && s[left] == pivot
      invariant Scanned(st, s, left, p, i)
      invariant Permuted(was, s, left, right + 1)
      invariant st.mode == Unsorted ==> p == left && s == was
    {
      ScanOn(st, s, left, p, i);
      var r := CompareFiles(st, a[i], pivot);
      if r < 0 {
        p := p + 1;
        Swap(a, p, i);
        SwapPermutes(was, s, p, i, left, right + 1);
        s := Swapped(s, p, i);
      }
      i := i + 1;
    }
    ScanDone(st, s, left, p, right + 1);
    Swap(a, left, p);
    SwapPermutes(was, s, left, p, left, right + 1);
  }

  /** Quicksort in place: the entries from left to right are permuted into order, the others stay. With
      sorting off nothing moves. */
  method Sort(st: Settings, a: array<FileInfo>, left: int, right: int)
    requires 0 <= left <= right + 1 <= a.Length
    modifies a
    ensures SortedRange(st, a[..], left, right + 1) && NoneOutOfPlace(st, a[..], left, right + 1)
    ensures Permuted(old(a[..]), a[..], left, right + 1)
    ensures st.mode == Unsorted ==> a[..] == old(a[..])
    decreases right - left + 1
  {
    if left < right {
      ghost var was := a[..];
      var p := Partition(st, a, left, right);
      ghost var s := a[..];
      Sort(st, a, left, p - 1);
      ghost var t := a[..];
      Sort(st, a, p + 1, right);
      ghost var u := a[..];
      SortedByParts(st, s, t, u, left, p, right + 1);
      PermutedTwice(was, s, t, left, left, p, right + 1);
      PermutedTwice(was, t, u, left, p + 1, right + 1, right + 1);
    }
    SortedIsInPlace(st, a[..], left, right + 1);
  }

  /** Sorts a listing of which the first entry, the parent folder, stays in front. */
  method SortListing(st: Settings, files: array<FileInfo>, count: int)
    requires 0 <= count <= files.Length
    modifies files
    ensures count > 1 ==> SortedRange(st, files[..], 1, count) && NoneOutOfPlace(st, files[..], 1, count)
    ensures count > 1 ==> Permuted(old(files[..]), files[..], 1, count)
    ensures count <= 1 || st.mode == Unsorted ==> files[..] == old(files[..])
  {
    if count > 1 {
      Sort(st, files, 1, count - 1);
    }
  }

  // ----- what a sorted listing looks like -----

  /** Folders, then ELF files, then other files, whatever the mode and the direction. */
  lemma GroupsInOrder(st: Settings, s: seq<FileInfo>, i: nat, j: nat)
    requires st.mode != Unsorted && Sorted(st, s) && i < j < |s|
    ensures Group(s[i]) <= Group(s[j])
  {
    assert Order(st, s[i], s[j]) <= 0;
  }

  /** Two sorted arrangements of the same entries agree up to ties at every place. */
  lemma {:induction false} SortedUpToTies(st: Settings, s: seq<FileInfo>, t: seq<FileInfo>)
    requires Sorted(st, s) && Sorted(st, t) && multiset(s) == multiset(t)
    ensures |s| == |t| && forall k :: 0 <= k < |s| ==> Order(st, s[k], t[k]) == 0
  {
    assert |s| == |multiset(s)| && |t| == |multiset(t)|;
    forall k | 0 <= k < |s| ensures Order(st, s[k], t[k]) == 0 {
      NoneOvertakes(st, s, t, k);
      NoneOvertakes(st, t, s, k);
      OrderAntisymmetric(st, s[k], t[k]);
    }
  }

  /** Among the first k + 1 entries of t one is not among the first k of s: so s has caught up by place k. */
  lemma NoneOvertakes(st: Settings, s: seq<FileInfo>, t: seq<FileInfo>, k: nat)
    requires Sorted(st, s) && Sorted(st, t) && multiset(s) == multiset(t) && k < |s| == |t|
    ensures Order(st, s[k], t[k]) <= 0
  {
    var x := Missing(s, t, k);
    assert x in t[..k + 1];
    var i :| 0 <= i <= k && t[i] == x;
    assert x in s[k..];
    var j :| k <= j < |s| && s[j] == x;
    OrderAntisymmetric(st, x, x);
    if Order(st, s[k], x) <= 0 && Order(st, x, t[k]) <= 0 {
      OrderTransitive(st, s[k], x, t[k]);
    }
  }

  lemma SmallerMultiset(m: multiset<FileInfo>, n: multiset<FileInfo>)
    requires m <= n
    ensures |m| <= |n|
  {
    assert n == m + (n - m);
  }

  lemma Missing(s: seq<FileInfo>, t: seq<FileInfo>, k: nat) returns (x: FileInfo)
    requires multiset(s) == multiset(t) && k < |s| == |t|
    ensures x in t[..k + 1] && x in s[k..]
  {
    var front, head := multiset(t[..k + 1]), multiset(s[..k]);
    assert s == s[..k] + s[k..] && t == t[..k + 1] + t[k + 1..];
    if front <= head {
      SmallerMultiset(front, head);
      assert false;
    }
    x :| front[x] > head[x];
    assert x in multiset(t[..k + 1]);
    assert multiset(s[..k])[x] + multiset(s[k..])[x] == multiset(s)[x];
    assert x in multiset(s[k..]);
  }
}
