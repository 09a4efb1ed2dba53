/** The automatic timestamp organizer and the newest-first sort of the date editor:
    writing dates so that "sort by date" becomes "sort by name" or "sort by category". */
module Organizer {
  import opened Common
  import opened Calendar
  import opened FolderTimestamps
  import opened Names
  import opened StableOrder
  import Sas

  type FolderName = s: string | |s| < Sas.MAX_NAME

  datatype Folder = Folder(name: FolderName, modified: Stamp)

  datatype Mode = AToZ | ZToA | BySas

  // ----- which folders take part -----

  predicate Letter(c: char) {
    'A' <= c <= 'Z' || 'a' <= c <= 'z'
  }

  predicate TunaHere(name: string, i: nat) {
    && i + 4 <= |name|
    && Upper(name[i]) == 'T' && Upper(name[i + 1]) == 'U' && Upper(name[i + 2]) == 'N' && Upper(name[i + 3]) == 'A'
  }

  predicate ContainsTuna(name: string) {
    exists i | 0 <= i < |name| :: TunaHere(name, i)
  }

  /** Save folders, named after a product code such as BASLUS-12345, are left alone. */
  predicate IsExcluded(name: string) {
    && |name| >= 12
    && Upper(name[0]) == 'B'
    && Upper(name[1]) in "AEIC"
    && (forall i :: 2 <= i < 6 ==> Letter(name[i]))
    && name[6] == '-'
    && (forall i :: 7 <= i < 12 ==> '0' <= name[i] <= '9')
  }

  predicate Eligible(name: string) {
    !ContainsTuna(name) && !IsExcluded(name)
  }

  /** "tuna" stands somewhere in the name, whatever the case. */
  predicate TunaFrom(name: string, i: nat) {
    i + 4 <= |name| && SameName(name[i..i + 4], "tuna")
  }

  lemma TunaAt(name: string, i: nat)
    ensures TunaFrom(name, i) <==> TunaHere(name, i)
  {
    if i + 4 <= |name| {
      var m, tuna := name[i..i + 4], "tuna";
      assert m[0] == name[i] && m[1] == name[i + 1] && m[2] == name[i + 2] && m[3] == name[i + 3];
      assert tuna[0] == 't' && tuna[1] == 'u' && tuna[2] == 'n' && tuna[3] == 'a';
      assert SameName(m, tuna) <==> Small(m[0]) == 't' && Small(m[1]) == 'u' && Small(m[2]) == 'n' && Small(m[3]) == 'a';
    }
  }

  lemma ContainsTunaMeans(name: string)
    ensures ContainsTuna(name) <==> exists i: nat :: TunaFrom(name, i)
  {
    forall i: nat ensures TunaFrom(name, i) <==> TunaHere(name, i) {
      TunaAt(name, i);
    }
    if i: nat :| TunaFrom(name, i) {
      assert TunaHere(name, i);
    }
  }

  /** A region's B code, four letters, a dash and five digits, and anything behind them. */
  predicate ProductCode(name: string) {
    && |name| > 11 && name[0] in "Bb" && name[1] in "AaEeIiCc" && name[6] == '-'
    && AnyLetter(name[2]) && AnyLetter(name[3]) && AnyLetter(name[4]) && AnyLetter(name[5])
    && AnyDigit(name[7]) && AnyDigit(name[8]) && AnyDigit(name[9]) && AnyDigit(name[10]) && AnyDigit(name[11])
  }

  predicate AnyLetter(c: char) {
    Small(c) in "abcdefghijklmnopqrstuvwxyz"
  }

  predicate AnyDigit(c: char) {
    c in "0123456789"
  }

  lemma LettersAreLetters(c: char)
    ensures Letter(c) <==> AnyLetter(c)
  {
    var s, all := Small(c), "abcdefghijklmnopqrstuvwxyz";
    if s in all { var i :| 0 <= i < 26 && all[i] == s; }
    if 'a' <= s <= 'z' { assert all[s as int - 'a' as int] == s; }
  }

  lemma DigitsAreDigits(c: char)
    ensures '0' <= c <= '9' <==> AnyDigit(c)
  {
    var all := "0123456789";
    if c in all { var i :| 0 <= i < 10 && all[i] == c; }
    if '0' <= c <= '9' { assert all[c as int - '0' as int] == c; }
  }

  lemma RegionLetters(b: char, r: char)
    ensures Upper(b) == 'B' <==> b in "Bb"
    ensures Upper(r) in "AEIC" <==> r in "AaEeIiCc"
  {
  }

  lemma FourLetters(name: string)
    requires |name| >= 12
    ensures (forall i :: 2 <= i < 6 ==> Letter(name[i])) <==>
      AnyLetter(name[2]) && AnyLetter(name[3]) && AnyLetter(name[4]) && AnyLetter(name[5])
  {
    LettersAreLetters(name[2]);
    LettersAreLetters(name[3]);
    LettersAreLetters(name[4]);
    LettersAreLetters(name[5]);
  }

  lemma FiveDigits(name: string)
    requires |name| >= 12
    ensures (forall i :: 7 <= i < 12 ==> '0' <= name[i] <= '9') <==>
      AnyDigit(name[7]) && AnyDigit(name[8]) && AnyDigit(name[9]) && AnyDigit(name[10]) && AnyDigit(name[11])
  {
    DigitsAreDigits(name[7]);
    DigitsAreDigits(name[8]);
    DigitsAreDigits(name[9]);
    DigitsAreDigits(name[10]);
    DigitsAreDigits(name[11]);
  }

  lemma ExcludedMeans(name: string)
    ensures IsExcluded(name) <==> ProductCode(name)
  {
    if |name| >= 12 {
      RegionLetters(name[0], name[1]);
      FourLetters(name);
      FiveDigits(name);
    }
  }

  // ----- the two orders on folder positions -----

  function CompareNames(fs: seq<Folder>, a: int, b: int): int
    requires 0 <= a < |fs| && 0 <= b < |fs|
  {
    StrICmp(fs[a].name, fs[b].name)
  }

  /** Alphabetical order, or its reverse; equal names keep their positions. */
  ghost predicate NameBefore(fs: seq<Folder>, descending: bool, a: int, b: int) {
    && 0 <= a < |fs| && 0 <= b < |fs|
    && (CompareNames(fs, a, b) == 0 ==> a < b)
    && (if descending then CompareNames(fs, a, b) >= 0 else CompareNames(fs, a, b) <= 0)
  }

  function CompareDates(l: Folder, r: Folder): int {
    if Older(r.modified, l.modified) then -1
    else if Older(l.modified, r.modified) then 1
    else StrICmp(l.name, r.name)
  }

  /** Newest first, then alphabetical; equal folders keep their positions. */
  ghost predicate NewerBefore(fs: seq<Folder>, a: int, b: int) {
    && 0 <= a < |fs| && 0 <= b < |fs|
    && (CompareDates(fs[a], fs[b]) < 0 || (CompareDates(fs[a], fs[b]) == 0 && a < b))
  }

  lemma NameBeforeTransitive(fs: seq<Folder>, descending: bool, a: int, b: int, c: int)
    requires NameBefore(fs, descending, a, b) && NameBefore(fs, descending, b, c)
    ensures NameBefore(fs, descending, a, c)
  {
    NamesFlip(fs, a, b);
    NamesFlip(fs, b, c);
    NamesFlip(fs, a, c);
    if descending {
      StrICmpTransitive(fs[c].name, fs[b].name, fs[a].name);
    } else {
      StrICmpTransitive(fs[a].name, fs[b].name, fs[c].name);
    }
  }

  lemma NamesFlip(fs: seq<Folder>, a: int, b: int)
    requires 0 <= a < |fs| && 0 <= b < |fs|
    ensures CompareNames(fs, a, b) < 0 <==> CompareNames(fs, b, a) > 0
    ensures CompareNames(fs, a, b) == 0 <==> CompareNames(fs, b, a) == 0
  {
    StrICmpAntisymmetric(fs[a].name, fs[b].name);
  }

  lemma NameBeforeAsymmetric(fs: seq<Folder>, descending: bool)
    ensures Asymmetric((a, b) => NameBefore(fs, descending, a, b))
  {
    forall a, b | NameBefore(fs, descending, a, b) ensures !NameBefore(fs, descending, b, a) {
      NamesFlip(fs, a, b);
    }
  }

  lemma NewerBeforeTransitive(fs: seq<Folder>, a: int, b: int, c: int)
    requires NewerBefore(fs, a, b) && NewerBefore(fs, b, c)
    ensures NewerBefore(fs, a, c)
  {
    if fs[a].modified == fs[b].modified == fs[c].modified {
      StrICmpTransitive(fs[a].name, fs[b].name, fs[c].name);
    }
  }

  lemma CompareDatesFlip(l: Folder, r: Folder)
    ensures CompareDates(l, r) < 0 <==> CompareDates(r, l) > 0
    ensures CompareDates(l, r) == 0 <==> CompareDates(r, l) == 0
  {
    StrICmpAntisymmetric(l.name, r.name);
  }

  lemma NewerBeforeAsymmetric(fs: seq<Folder>)
    ensures Asymmetric((a, b) => NewerBefore(fs, a, b))
  {
    forall a, b | NewerBefore(fs, a, b) ensures !NewerBefore(fs, b, a) {
      CompareDatesFlip(fs[a], fs[b]);
    }
  }

  ghost predicate NameSorted(fs: seq<Folder>, descending: bool, s: seq<int>) {
    Sorted((a, b) => NameBefore(fs, descending, a, b), s)
  }

  /** In dictionary order without regard to case, or in its reverse; folders of one name keep their positions. */
  ghost predicate Alphabetical(fs: seq<Folder>, descending: bool, s: seq<int>) {
    forall i, j :: 0 <= i < j < |s| ==> AlphabeticalPair(fs, descending, s[i], s[j])
  }

  ghost predicate AlphabeticalPair(fs: seq<Folder>, descending: bool, x: int, y: int) {
    && 0 <= x < |fs| && 0 <= y < |fs|
    && var a, b := fs[x].name, fs[y].name;
      (if descending then Precedes(b, a) else Precedes(a, b)) || (SameName(a, b) && x < y)
  }

  lemma NameSortedIsAlphabetical(fs: seq<Folder>, descending: bool, s: seq<int>)
    ensures NameSorted(fs, descending, s) <==> Alphabetical(fs, descending, s)
  {
    var before := (a, b) => NameBefore(fs, descending, a, b);
    forall i, j | 0 <= i < j < |s| ensures before(s[i], s[j]) <==> AlphabeticalPair(fs, descending, s[i], s[j]) {
      if 0 <= s[i] < |fs| && 0 <= s[j] < |fs| {
        StrICmpIsDictionary(fs[s[i]].name, fs[s[j]].name);
      }
    }
  }

  ghost predicate DateSorted(fs: seq<Folder>, s: seq<int>) {
    Sorted((a, b) => NewerBefore(fs, a, b), s)
  }

  lemma {:induction false} InsertByName(fs: seq<Folder>, descending: bool, s: seq<int>, j: int, x: int)
    requires NameSorted(fs, descending, s) && 0 <= j <= |s|
    requires j > 0 ==> NameBefore(fs, descending, s[j - 1], x)
    requires forall k :: j <= k < |s| ==> NameBefore(fs, descending, x, s[k])
    ensures NameSorted(fs, descending, s[..j] + [x] + s[j..])
  {
    var before := (a, b) => NameBefore(fs, descending, a, b);
    forall k | 0 <= k < j ensures before(s[k], x) {
      if k < j - 1 {
        assert before(s[k], s[j - 1]);
        NameBeforeTransitive(fs, descending, s[k], s[j - 1], x);
      }
    }
    InsertSorted(before, s, j, x);
  }

  lemma {:induction false} InsertByDate(fs: seq<Folder>, s: seq<int>, j: int, x: int)
    requires DateSorted(fs, s) && 0 <= j <= |s|
    requires j > 0 ==> NewerBefore(fs, s[j - 1], x)
    requires forall k :: j <= k < |s| ==> NewerBefore(fs, x, s[k])
    ensures DateSorted(fs, s[..j] + [x] + s[j..])
  {
    var before := (a, b) => NewerBefore(fs, a, b);
    forall k | 0 <= k < j ensures before(s[k], x) {
      if k < j - 1 {
        assert before(s[k], s[j - 1]);
        NewerBeforeTransitive(fs, s[k], s[j - 1], x);
      }
    }
    InsertSorted(before, s, j, x);
  }

  // ----- the sorts -----

  /** Insertion sort of an increasing list of positions by folder name. */
  method SortIndexes(folders: array<Folder>, indexes: array<int>, count: nat, descending: bool)
    requires count <= indexes.Length
    requires forall i :: 0 <= i < count ==> 0 <= indexes[i] < folders.Length
    requires forall i, j :: 0 <= i < j < count ==> indexes[i] < indexes[j]
    modifies indexes
    ensures NameSorted(folders[..], descending, indexes[..count]) && Alphabetical(folders[..], descending, indexes[..count])
    ensures multiset(indexes[..count]) == old(multiset(indexes[..count]))
    ensures indexes[count..] == old(indexes[count..])
  {
    ghost var fs, start := folders[..], indexes[..];
    var i := 1;
    if count > 0 { assert indexes[..1] == [indexes[0]]; }
    while i < count
      invariant count == 0 || 1 <= i <= count
      invariant count > 0 ==> NameSorted(fs, descending, indexes[..i])
      invariant count > 0 ==> multiset(indexes[..i]) == multiset(start[..i])
      invariant count > 0 ==> indexes[i..] == start[i..]
      invariant count == 0 ==> indexes[..] == start
      invariant folders[..] == fs
    {
      InsertIndex(folders, indexes, i, descending, start);
      i := i + 1;
    }
    NameSortedIsAlphabetical(fs, descending, indexes[..count]);
  }

  method InsertIndex(folders: array<Folder>, indexes: array<int>, i: nat, descending: bool, ghost start: seq<int>)
    requires i < indexes.Length == |start|
    requires forall k :: 0 <= k <= i ==> 0 <= start[k] < folders.Length
    requires forall k, l :: 0 <= k < l <= i ==> start[k] < start[l]
    requires NameSorted(folders[..], descending, indexes[..i])
    requires multiset(indexes[..i]) == multiset(start[..i])
    requires indexes[i..] == start[i..]
    modifies indexes
    ensures NameSorted(folders[..], descending, indexes[..i + 1])
    ensures multiset(indexes[..i + 1]) == multiset(start[..i + 1])
    ensures indexes[i + 1..] == start[i + 1..]
  {
    ghost var fs, p := folders[..], indexes[..i];
    assert indexes[i] == indexes[i..][0] == start[i];
    assert indexes[i + 1..] == indexes[i..][1..];
    forall k | 0 <= k < i ensures 0 <= p[k] < start[i] {
      PrefixElement(p, start, i, k);
    }
    var j := ShiftIntoPlace(folders, indexes, i, descending);
    InsertByName(fs, descending, p, j, start[i]);
    InsertMultiset(p, start, i, j, start[i]);
  }

  /** Moves later elements up until the hole is where the element at position i belongs. */
  method ShiftIntoPlace(folders: array<Folder>, indexes: array<int>, i: nat, descending: bool) returns (j: nat)
    requires i < indexes.Length && 0 <= indexes[i] < folders.Length
    requires forall k :: 0 <= k < i ==> 0 <= indexes[k] < indexes[i]
    modifies indexes
    ensures j <= i
    ensures indexes[..i + 1] == old(indexes[..i])[..j] + [old(indexes[i])] + old(indexes[..i])[j..]
    ensures indexes[i + 1..] == old(indexes[i + 1..])
    ensures forall k :: j <= k < i ==> NameBefore(folders[..], descending, old(indexes[i]), old(indexes[k]))
    ensures j > 0 ==> NameBefore(folders[..], descending, old(indexes[j - 1]), old(indexes[i]))
  {
    var index := indexes[i];
    ghost var fs, was := folders[..], indexes[..];
    j := i;
    while j > 0
      invariant j <= i
      invariant forall k :: 0 <= k < j ==> indexes[k] == was[k]
      invariant forall k :: j < k <= i ==> indexes[k] == was[k - 1]
      invariant forall k :: i < k < indexes.Length ==> indexes[k] == was[k]
      invariant forall k :: j <= k < i ==> NameBefore(fs, descending, index, was[k])
    {
      var compare := StrICmp(folders[index].name, folders[indexes[j - 1]].name);
      NamesFlip(fs, index, was[j - 1]);
      if (!descending && compare >= 0) || (descending && compare <= 0) {
        break;
      }
      indexes[j] := indexes[j - 1];
      j := j - 1;
    }
    indexes[j] := index;
    assert indexes[..i + 1] == was[..i][..j] + [index] + was[..i][j..];
  }

  /** Every element already placed is one of the first i, so it precedes the next in the list. */
  lemma PrefixElement(p: seq<int>, start: seq<int>, i: nat, k: nat)
    requires k < |p| == i < |start|
    requires multiset(p) == multiset(start[..i])
    ensures exists l :: 0 <= l < i && p[k] == start[l]
  {
    var x := p[k];
    assert x in multiset(p);
    assert x in start[..i];
  }

  lemma InsertMultiset(p: seq<int>, start: seq<int>, i: nat, j: nat, x: int)
    requires j <= |p| == i < |start| && x == start[i]
    requires multiset(p) == multiset(start[..i])
    ensures multiset(p[..j] + [x] + p[j..]) == multiset(start[..i + 1])
  {
    assert p == p[..j] + p[j..];
    assert start[..i + 1] == start[..i] + [x];
  }

  ghost function Gather<T>(s: seq<T>, p: seq<int>): seq<T>
    requires forall k :: 0 <= k < |p| ==> 0 <= p[k] < |s|
  {
    seq(|p|, k requires 0 <= k < |p| => s[p[k]])
  }

  /** p lists each of the first n positions exactly once. */
  ghost predicate IsPermutation(p: seq<int>, n: nat) {
    |p| == n && forall x :: x in p <==> 0 <= x < n
  }

  /** p is the order in which the date editor lists the folders. */
  ghost predicate NewestFirst(fs: seq<Folder>, p: seq<int>) {
    IsPermutation(p, |fs|) && DateSorted(fs, p)
  }

  lemma PermutationInRange(p: seq<int>, n: nat)
    requires forall x :: x in p <==> 0 <= x < n
    ensures forall k :: 0 <= k < |p| ==> 0 <= p[k] < n
  {
    forall k | 0 <= k < |p| ensures 0 <= p[k] < n {
      var x := p[k];
      assert x in p;
    }
  }

  /** Insertion sort of the folders, newest first, carrying their original dates along. */
  method SortEditorFolders(folders: array<Folder>, originals: array<Stamp>, count: nat) returns (ghost perm: seq<int>)
    requires count <= folders.Length && count <= originals.Length
    modifies folders, originals
    ensures NewestFirst(old(folders[..count]), perm)
    ensures forall k :: 0 <= k < count ==> 0 <= perm[k] < count
    ensures folders[..count] == Gather(old(folders[..count]), perm)
    ensures originals[..count] == Gather(old(originals[..count]), perm)
  {
    ghost var fs, os := folders[..count], originals[..count];
    perm := Identity(count);
    if count > 0 {
      StartSorted(fs);
    }
    StartArranged(fs);
    StartArranged(os);
    var i := 1;
    while i < count
      invariant |perm| == count && (perm == [] || (1 <= i <= count && SortedSoFar(fs, perm, i)))
      invariant Arranged(fs, folders[..count], perm) && Arranged(os, originals[..count], perm)
    {
      perm := SortStep(folders, originals, count, i, fs, os, perm);
      i := i + 1;
    }
    SortedAtEnd(fs, perm);
    ArrangedIsGather(fs, folders[..count], perm);
    ArrangedIsGather(os, originals[..count], perm);
  }

  lemma StartSorted(fs: seq<Folder>)
    requires fs != []
    ensures SortedSoFar(fs, Identity(|fs|), 1)
  {
    assert Identity(|fs|)[..1] == [0];
  }

  lemma StartArranged<T>(s: seq<T>)
    ensures Arranged(s, s, Identity(|s|))
  {
  }

  method SortStep(folders: array<Folder>, originals: array<Stamp>, count: nat, i: nat,
                  ghost fs: seq<Folder>, ghost os: seq<Stamp>, ghost perm: seq<int>) returns (ghost next: seq<int>)
    requires i < count <= folders.Length && count <= originals.Length
    requires SortedSoFar(fs, perm, i)
    requires Arranged(fs, folders[..count], perm) && Arranged(os, originals[..count], perm)
    modifies folders, originals
    ensures SortedSoFar(fs, next, i + 1)
    ensures Arranged(fs, folders[..count], next) && Arranged(os, originals[..count], next)
  {
    ghost var f, o := folders[..count], originals[..count];
    var j := ShiftFolder(folders, originals, i, count);
    next := Moved(perm, i, j);
    ArrangedMoved(fs, f, folders[..count], perm, i, j);
    ArrangedMoved(os, o, originals[..count], perm, i, j);
    SortedSoFarMoved(fs, perm, i, j);
  }

  lemma ArrangedIsGather<T>(start: seq<T>, now: seq<T>, p: seq<int>)
    requires Arranged(start, now, p)
    ensures now == Gather(start, p)
  {
  }

  ghost function Identity(n: nat): seq<int> {
    seq(n, k => k)
  }

  /** The element at position i taken out and put back at position j <= i. */
  ghost function Moved<T>(s: seq<T>, i: nat, j: nat): seq<T>
    requires j <= i < |s|
  {
    s[..j] + [s[i]] + s[j..i] + s[i + 1..]
  }

  ghost predicate Arranged<T>(start: seq<T>, now: seq<T>, p: seq<int>) {
    |start| == |now| == |p| && forall k :: 0 <= k < |p| ==> 0 <= p[k] < |start| && now[k] == start[p[k]]
  }

  /** The first i positions hold the first i folders, sorted; the rest have not been touched. */
  ghost predicate SortedSoFar(fs: seq<Folder>, p: seq<int>, i: nat) {
    && i <= |p| == |fs|
    && DateSorted(fs, p[..i])
    && (forall x :: x in p[..i] <==> 0 <= x < i)
    && (forall k :: i <= k < |p| ==> p[k] == k)
  }

  lemma ArrangedMoved<T>(start: seq<T>, before: seq<T>, after: seq<T>, p: seq<int>, i: nat, j: nat)
    requires Arranged(start, before, p) && j <= i < |p| && after == Moved(before, i, j)
    ensures Arranged(start, after, Moved(p, i, j))
  {
  }

  lemma SortedSoFarMoved(fs: seq<Folder>, p: seq<int>, i: nat, j: nat)
    requires SortedSoFar(fs, p, i) && j <= i < |p|
    requires forall k :: 0 <= k < i ==> 0 <= p[k] < |fs|
    requires forall k :: j <= k < i ==> CompareDates(fs[i], fs[p[k]]) < 0
    requires j > 0 ==> CompareDates(fs[i], fs[p[j - 1]]) >= 0
    ensures SortedSoFar(fs, Moved(p, i, j), i + 1)
  {
    var s, q := p[..i], Moved(p, i, j);
    if j > 0 {
      var x := p[j - 1];
      assert s[j - 1] == x && x in s;
      CompareDatesFlip(fs[i], fs[x]);
    }
    InsertByDate(fs, s, j, i);
    assert q[..i + 1] == s[..j] + [i] + s[j..];
    assert s == s[..j] + s[j..];
    var r := q[..i + 1];
    forall x ensures x in r <==> 0 <= x < i + 1 {
      assert x in r <==> x in s || x == i;
    }
  }

  lemma SortedAtEnd(fs: seq<Folder>, p: seq<int>)
    requires |p| == |fs| && (p == [] || SortedSoFar(fs, p, |p|))
    ensures NewestFirst(fs, p)
    ensures forall k :: 0 <= k < |p| ==> 0 <= p[k] < |p|
  {
    assert p[..|p|] == p;
    PermutationInRange(p, |p|);
  }

  method ShiftFolder(folders: array<Folder>, originals: array<Stamp>, i: nat, count: nat) returns (j: nat)
    requires i < count <= folders.Length && count <= originals.Length
    modifies folders, originals
    ensures j <= i
    ensures folders[..count] == Moved(old(folders[..count]), i, j)
    ensures originals[..count] == Moved(old(originals[..count]), i, j)
    ensures forall k :: j <= k < i ==> CompareDates(old(folders[i]), old(folders[k])) < 0
    ensures j > 0 ==> CompareDates(old(folders[i]), old(folders[j - 1])) >= 0
  {
    var folder, original := folders[i], originals[i];
    ghost var fs, os := folders[..count], originals[..count];
    ghost var f, o := fs, os;
    j := i;
    while j > 0 && CompareDates(folder, folders[j - 1]) < 0
      invariant j <= i && f == folders[..count] && o == originals[..count]
      invariant Opened(fs, f, i, j) && Opened(os, o, i, j)
      invariant NewerThanAll(fs, i, j)
    {
      NewerThanOneMore(fs, i, j);
      PutBoth(folders, originals, j, folders[j - 1], originals[j - 1], count);
      OpenedStep(fs, f, i, j);
      OpenedStep(os, o, i, j);
      f, o := Replaced(f, j, f[j - 1]), Replaced(o, j, o[j - 1]);
      j := j - 1;
    }
    PutBoth(folders, originals, j, folder, original, count);
    OpenedFilled(fs, f, i, j);
    OpenedFilled(os, o, i, j);
  }

  /** The folder at i comes before those from j up to it. */
  ghost predicate NewerThanAll(fs: seq<Folder>, i: nat, j: nat)
    requires i < |fs|
  {
    forall k :: j <= k < i ==> CompareDates(fs[i], fs[k]) < 0
  }

  lemma NewerThanOneMore(fs: seq<Folder>, i: nat, j: nat)
    requires 0 < j <= i < |fs| && NewerThanAll(fs, i, j) && CompareDates(fs[i], fs[j - 1]) < 0
    ensures NewerThanAll(fs, i, j - 1)
  {
  }

  ghost function Replaced<T>(s: seq<T>, j: nat, x: T): (r: seq<T>)
    requires j < |s|
    ensures |r| == |s|
  {
    s[j := x]
  }

  method PutBoth(folders: array<Folder>, originals: array<Stamp>, j: nat, folder: Folder, original: Stamp, count: nat)
    requires j < count <= folders.Length && count <= originals.Length
    modifies folders, originals
    ensures folders[..count] == Replaced(old(folders[..count]), j, folder)
    ensures originals[..count] == Replaced(old(originals[..count]), j, original)
  {
    folders[j] := folder;
    originals[j] := original;
  }

  /** While elements move up: everything but the hole at j is as after the move. */
  ghost predicate Opened<T>(before: seq<T>, now: seq<T>, i: nat, j: nat) {
    && j <= i < |before| == |now|
    && (forall k :: 0 <= k < j ==> now[k] == before[k])
    && (forall k :: j < k <= i ==> now[k] == before[k - 1])
    && (forall k :: i < k < |now| ==> now[k] == before[k])
  }

  lemma OpenedStep<T>(before: seq<T>, now: seq<T>, i: nat, j: nat)
    requires Opened(before, now, i, j) && j > 0
    ensures Opened(before, Replaced(now, j, now[j - 1]), i, j - 1)
  {
  }

  lemma OpenedFilled<T>(before: seq<T>, now: seq<T>, i: nat, j: nat)
    requires Opened(before, now, i, j)
    ensures Replaced(now, j, before[i]) == Moved(before, i, j)
  {
  }

  // ----- assigning the dates -----

  function SasCategory(name: FolderName): nat {
    Sas.Category(Sas.EffectiveName(name))
  }

  function SasSlot(name: FolderName): (slot: nat)
    ensures slot < SECONDS_PER_DAY
  {
    Sas.Slot(Sas.Payload(Sas.EffectiveName(name), SasCategory(name)))
  }

  /** The point in time given to an eligible folder. */
  ghost predicate DatedInSequence(s: Stamp, position: nat) {
    InRange(s) && Seconds(s) == Seconds(SEQUENTIAL_TOP) - position * SECONDS_BETWEEN_FOLDERS
  }

  ghost predicate DatedByCategory(s: Stamp, name: FolderName) {
    InRange(s) && Seconds(s) == Seconds(SAS_TOP) - (SasCategory(name) * SECONDS_PER_DAY + SasSlot(name))
  }

  ghost predicate SameNames(a: seq<Folder>, b: seq<Folder>) {
    |a| == |b| && forall k :: 0 <= k < |a| ==> a[k].name == b[k].name
  }

  /** order lists the eligible positions of fs, each once. */
  ghost predicate ListsEligible(fs: seq<Folder>, order: seq<int>) {
    && (forall x :: x in order <==> 0 <= x < |fs| && Eligible(fs[x].name))
    && (forall p :: 0 <= p < |order| ==> 0 <= order[p] < |fs|)
    && Distinct(order)
  }

  /** What the organizer leaves behind: every folder keeps its name, Tuna folders carry the reserved
      date, excluded save folders keep theirs, and the eligible ones are dated by the chosen mode. */
  ghost predicate Organized(before: seq<Folder>, after: seq<Folder>, order: seq<int>, mode: Mode) {
    && SameNames(before, after)
    && ListsEligible(before, order)
    && (forall k :: 0 <= k < |before| && ContainsTuna(before[k].name) ==> after[k].modified == TUNA)
    && (forall k :: 0 <= k < |before| && !ContainsTuna(before[k].name) && IsExcluded(before[k].name) ==>
          after[k].modified == before[k].modified)
    && (mode != BySas ==>
          && NameSorted(before, mode == ZToA, order)
          && forall p :: 0 <= p < |order| ==> DatedInSequence(after[order[p]].modified, p))
    && (mode == BySas ==>
          forall p :: 0 <= p < |order| ==> DatedByCategory(after[order[p]].modified, before[order[p]].name))
  }

  /** The first pass: Tuna folders get the reserved date, the eligible positions are listed. */
  ghost predicate Collected(before: seq<Folder>, now: seq<Folder>, upTo: nat, order: seq<int>) {
    && upTo <= |before| && SameNames(before, now)
    && (forall k :: 0 <= k < |before| ==>
          now[k].modified == (if k < upTo && ContainsTuna(before[k].name) then TUNA else before[k].modified))
    && (forall x :: x in order <==> 0 <= x < upTo && Eligible(before[x].name))
    && (forall i, j :: 0 <= i < j < |order| ==> order[i] < order[j])
  }

  method Collect(folders: array<Folder>, indexes: array<int>) returns (indexCount: nat)
    requires folders.Length <= indexes.Length
    modifies folders, indexes
    ensures indexCount <= folders.Length
    ensures Collected(old(folders[..]), folders[..], folders.Length, indexes[..indexCount])
  {
    ghost var before := folders[..];
    indexCount := 0;
    for i := 0 to folders.Length
      invariant indexCount <= i
      invariant Collected(before, folders[..], i, indexes[..indexCount])
    {
      ghost var now, order := folders[..], indexes[..indexCount];
      if ContainsTuna(folders[i].name) {
        var t := new FolderTimestamp(folders[i].modified);
        t.SetTuna();
        folders[i] := folders[i].(modified := t.Value());
        assert folders[..] == now[i := now[i].(modified := TUNA)];
      } else if !IsExcluded(folders[i].name) {
        indexes[indexCount] := i;
        indexCount := indexCount + 1;
        assert indexes[..indexCount] == order + [i];
      }
      CollectedStep(before, now, i, order, folders[..], indexes[..indexCount]);
    }
  }

  lemma CollectedStep(before: seq<Folder>, now: seq<Folder>, i: nat, order: seq<int>, next: seq<Folder>, longer: seq<int>)
    requires Collected(before, now, i, order) && i < |before|
    requires next == if ContainsTuna(before[i].name) then now[i := now[i].(modified := TUNA)] else now
    requires longer == if Eligible(before[i].name) then order + [i] else order
    ensures Collected(before, next, i + 1, longer)
  {
    MarkStep(before, now, seq(|before|, k requires 0 <= k < |before| => ContainsTuna(before[k].name)), i, next);
    ListStep(seq(|before|, x requires 0 <= x < |before| => Eligible(before[x].name)), order, i, longer);
  }

  /** The flagged folders up to i carry the reserved date; nothing else has changed. */
  ghost predicate Marked(before: seq<Folder>, now: seq<Folder>, flags: seq<bool>, i: nat)
    requires |flags| == |before|
  {
    && SameNames(before, now)
    && forall k :: 0 <= k < |before| ==> now[k].modified == (if k < i && flags[k] then TUNA else before[k].modified)
  }

  lemma MarkStep(before: seq<Folder>, now: seq<Folder>, flags: seq<bool>, i: nat, next: seq<Folder>)
    requires |flags| == |before| && i < |before| && Marked(before, now, flags, i)
    requires next == if flags[i] then now[i := now[i].(modified := TUNA)] else now
    ensures Marked(before, next, flags, i + 1)
  {
  }

  /** The places up to i that are flagged, in order. */
  ghost predicate ListsFlagged(flags: seq<bool>, order: seq<int>, i: nat)
    requires i <= |flags|
  {
    && (forall x :: x in order <==> 0 <= x < i && flags[x])
    && (forall m, n :: 0 <= m < n < |order| ==> order[m] < order[n])
  }

  lemma ListStep(flags: seq<bool>, order: seq<int>, i: nat, longer: seq<int>)
    requires i < |flags| && ListsFlagged(flags, order, i)
    requires longer == if flags[i] then order + [i] else order
    ensures ListsFlagged(flags, longer, i + 1)
  {
    forall k | 0 <= k < |order| ensures order[k] < i {
      var x := order[k];
      assert x in order;
    }
    forall x ensures x in longer <==> 0 <= x < i + 1 && flags[x] {
      assert x in longer <==> x in order || (flags[i] && x == i);
    }
  }

  /** The date that the folder listed at position p is to get. */
  ghost function Goal(base: seq<Folder>, order: seq<int>, mode: Mode): (Stamp, int) -> bool {
    (s, p) =>
      0 <= p < |order| && 0 <= order[p] < |base| &&
      if mode == BySas then DatedByCategory(s, base[order[p]].name) else DatedInSequence(s, p)
  }

  /** The second pass has dated the first n listed folders and nothing else. */
  ghost predicate Dated(base: seq<Folder>, now: seq<Folder>, order: seq<int>, n: nat, goal: (Stamp, int) -> bool) {
    && n <= |order| && SameNames(base, now)
    && (forall p :: 0 <= p < |order| ==> 0 <= order[p] < |base|)
    && (forall p :: 0 <= p < n ==> goal(now[order[p]].modified, p))
    && (forall k :: 0 <= k < |base| && k !in order[..n] ==> now[k].modified == base[k].modified)
  }

  method AssignDates(folders: array<Folder>, indexes: array<int>, count: nat, mode: Mode, reserveTuna: bool)
    requires count <= indexes.Length && count <= MAX_ENTRY
    requires Distinct(indexes[..count])
    requires forall p :: 0 <= p < count ==> 0 <= indexes[p] < folders.Length
    modifies folders
    ensures Dated(old(folders[..]), folders[..], indexes[..count], count, Goal(old(folders[..]), indexes[..count], mode))
  {
    ghost var base, order := folders[..], indexes[..count];
    ghost var goal := Goal(base, order, mode);
    for i := 0 to count
      invariant Dated(base, folders[..], order, i, goal)
    {
      var folder := folders[indexes[i]];
      ghost var now := folders[..];
      var t := new FolderTimestamp(folder.modified);
      assert order[i] == indexes[i];
      if mode == BySas {
        var category, slot := RankFolder(folder.name);
        t.SetSas(category, slot);
      } else {
        SequenceFits(i);
        t.SetSequential(i, reserveTuna);
      }
      SetDate(folders, indexes[i], t.Value());
      DatedStep(base, now, order, i, goal, t.Value());
    }
  }

  method RankFolder(name: FolderName) returns (category: nat, slot: nat)
    ensures category == SasCategory(name) && slot == SasSlot(name)
  {
    var effective := Sas.BuildEffectiveFolderName(name);
    category := Sas.Category(effective);
    var payload := Sas.BuildPayload(effective, category);
    slot := Sas.TimestampSlot(payload);
  }

  ghost function WithDate(fs: seq<Folder>, k: nat, s: Stamp): (r: seq<Folder>)
    requires k < |fs|
    ensures |r| == |fs|
  {
    fs[k := fs[k].(modified := s)]
  }

  method SetDate(folders: array<Folder>, k: nat, s: Stamp)
    requires k < folders.Length
    modifies folders
    ensures folders[..] == WithDate(old(folders[..]), k, s)
  {
    folders[k] := folders[k].(modified := s);
  }

  /** As many places as there can be folders stay within the last two days of 2099. */
  lemma SequenceFits(i: nat)
    requires i < MAX_ENTRY
    ensures Seconds(SEQUENTIAL_TOP) - i * SECONDS_BETWEEN_FOLDERS > 0
  {
    NamedSeconds();
    SasTopIsLate();
  }

  lemma DatedStep(base: seq<Folder>, now: seq<Folder>, order: seq<int>, i: nat, goal: (Stamp, int) -> bool, s: Stamp)
    requires Dated(base, now, order, i, goal) && i < |order| && Distinct(order) && goal(s, i)
    ensures Dated(base, WithDate(now, order[i], s), order, i + 1, goal)
  {
    var next := WithDate(now, order[i], s);
    assert order[..i + 1] == order[..i] + [order[i]];
  }

  /** Folders marked and listed, and the list in the order the dates will follow. */
  ghost predicate Prepared(before: seq<Folder>, marked: seq<Folder>, order: seq<int>, mode: Mode) {
    && SameNames(before, marked) && ListsEligible(before, order)
    && (forall k :: 0 <= k < |before| ==>
          marked[k].modified == (if ContainsTuna(before[k].name) then TUNA else before[k].modified))
    && (mode != BySas ==> NameSorted(before, mode == ZToA, order))
  }

  method CollectAndSort(folders: array<Folder>, indexes: array<int>, mode: Mode) returns (indexCount: nat)
    requires folders.Length <= indexes.Length
    modifies folders, indexes
    ensures indexCount <= folders.Length
    ensures Prepared(old(folders[..]), folders[..], indexes[..indexCount], mode)
  {
    ghost var before := folders[..];
    indexCount := Collect(folders, indexes);
    ghost var marked, listed := folders[..], indexes[..indexCount];
    CollectedFacts(before, marked, listed);
    if mode != BySas {
      SortIndexes(folders, indexes, indexCount, mode == ZToA);
      SortedStillLists(before, marked, listed, indexes[..indexCount], mode == ZToA);
    }
  }

  /** The whole automatic pass over the folders of one directory. */
  method Organize(folders: array<Folder>, indexes: array<int>, mode: Mode, reserveTuna: bool) returns (indexCount: nat)
    requires folders.Length <= indexes.Length && folders.Length <= MAX_ENTRY
    modifies folders, indexes
    ensures indexCount <= indexes.Length
    ensures Organized(old(folders[..]), folders[..], indexes[..indexCount], mode)
  {
    ghost var before := folders[..];
    indexCount := CollectAndSort(folders, indexes, mode);
    ghost var marked, order := folders[..], indexes[..indexCount];
    PreparedRange(before, marked, order, mode);
    AssignDates(folders, indexes, indexCount, mode, reserveTuna);
    FinallyOrganized(before, marked, folders[..], order, mode);
  }

  lemma PreparedRange(before: seq<Folder>, marked: seq<Folder>, order: seq<int>, mode: Mode)
    requires Prepared(before, marked, order, mode)
    ensures Distinct(order) && |before| == |marked|
    ensures forall p :: 0 <= p < |order| ==> 0 <= order[p] < |before|
  {
  }

  lemma CollectedFacts(before: seq<Folder>, marked: seq<Folder>, listed: seq<int>)
    requires Collected(before, marked, |before|, listed)
    ensures ListsEligible(before, listed)
    ensures forall p :: 0 <= p < |listed| ==> 0 <= listed[p] < |before|
  {
    forall p | 0 <= p < |listed| ensures 0 <= listed[p] < |before| {
      var x := listed[p];
      assert x in listed;
    }
  }

  lemma SortedStillLists(before: seq<Folder>, marked: seq<Folder>, listed: seq<int>, order: seq<int>, descending: bool)
    requires ListsEligible(before, listed) && SameNames(before, marked)
    requires multiset(order) == multiset(listed) && NameSorted(marked, descending, order)
    ensures ListsEligible(before, order) && NameSorted(before, descending, order)
    ensures forall p :: 0 <= p < |order| ==> 0 <= order[p] < |before|
  {
    SameMultisetSameElements(order, listed);
    NameBeforeAsymmetric(marked, descending);
    var m := (a, b) => NameBefore(marked, descending, a, b);
    forall i, j | 0 <= i < j < |order|
      ensures order[i] != order[j] && NameBefore(before, descending, order[i], order[j])
    {
      assert m(order[i], order[j]);
      assert !m(order[j], order[i]);
    }
    forall p | 0 <= p < |order| ensures 0 <= order[p] < |before| {
      var x := order[p];
      assert x in order;
    }
  }

  lemma FinallyOrganized(before: seq<Folder>, marked: seq<Folder>, after: seq<Folder>, order: seq<int>, mode: Mode)
    requires Prepared(before, marked, order, mode)
    requires Dated(marked, after, order, |order|, Goal(marked, order, mode))
    ensures Organized(before, after, order, mode)
  {
    assert order[..|order|] == order;
  }

  // ----- what "sort by date" now shows -----

  /** A Tuna folder is listed ahead of, and is strictly newer than, every eligible folder. */
  lemma TunaFoldersAreNewest(before: seq<Folder>, after: seq<Folder>, order: seq<int>, mode: Mode, t: int, e: int)
    requires Organized(before, after, order, mode)
    requires 0 <= t < |before| && ContainsTuna(before[t].name)
    requires 0 <= e < |before| && Eligible(before[e].name)
    ensures InRange(after[e].modified) && Seconds(after[e].modified) < Seconds(after[t].modified)
    ensures CompareDates(after[t], after[e]) < 0
  {
    assert e in order;
    var p :| 0 <= p < |order| && order[p] == e;
    NamedSeconds();
    if mode == BySas {
      assert DatedByCategory(after[order[p]].modified, before[order[p]].name);
    } else {
      assert DatedInSequence(after[order[p]].modified, p);
    }
    SecondsOrder(after[e].modified, TUNA);
  }

  /** After A->Z or Z->A, the date order of the eligible folders is exactly their stable name order. */
  lemma DateOrderIsNameOrder(before: seq<Folder>, after: seq<Folder>, order: seq<int>, mode: Mode, listing: seq<int>)
    requires Organized(before, after, order, mode) && mode != BySas
    requires NewestFirst(after, listing)
    ensures Restrict(listing, x => 0 <= x < |before| && Eligible(before[x].name)) == order
    ensures Alphabetical(before, mode == ZToA, order)
  {
    NameSortedIsAlphabetical(before, mode == ZToA, order);
    var keep := x => 0 <= x < |before| && Eligible(before[x].name);
    var newer := (a, b) => NewerBefore(after, a, b);
    var shown := Restrict(listing, keep);
    RestrictSorted(newer, listing, keep);
    forall x ensures x in shown <==> x in order {
      RestrictElements(listing, keep, x);
    }
    forall i, j | 0 <= i < j < |order| ensures newer(order[i], order[j]) {
      var x, y := order[i], order[j];
      assert x in order && y in order;
      assert DatedInSequence(after[x].modified, i) && DatedInSequence(after[y].modified, j);
      SecondsOrder(after[y].modified, after[x].modified);
    }
    NewerBeforeAsymmetric(after);
    SortedUnique(newer, shown, order);
  }

  /** The stable name order is unique: there is only one listing it can be. */
  lemma NameOrderIsUnique(before: seq<Folder>, descending: bool, a: seq<int>, b: seq<int>)
    requires ListsEligible(before, a) && ListsEligible(before, b)
    requires NameSorted(before, descending, a) && NameSorted(before, descending, b)
    ensures a == b
  {
    NameBeforeAsymmetric(before, descending);
    SortedUnique((x, y) => NameBefore(before, descending, x, y), a, b);
  }

  lemma EligibleIsDated(before: seq<Folder>, after: seq<Folder>, order: seq<int>, x: int)
    requires Organized(before, after, order, BySas)
    requires 0 <= x < |before| && Eligible(before[x].name)
    ensures DatedByCategory(after[x].modified, before[x].name)
  {
    assert x in order;
    var p :| 0 <= p < |order| && order[p] == x;
    assert DatedByCategory(after[order[p]].modified, before[order[p]].name);
  }

  /** After the category mode, date order is category first, then slot, then name. */
  lemma DateOrderIsCategoryOrder(before: seq<Folder>, after: seq<Folder>, order: seq<int>, a: int, b: int)
    requires Organized(before, after, order, BySas)
    requires 0 <= a < |before| && 0 <= b < |before| && Eligible(before[a].name) && Eligible(before[b].name)
    ensures var ca, cb := SasCategory(before[a].name), SasCategory(before[b].name);
      var sa, sb := SasSlot(before[a].name), SasSlot(before[b].name);
      CompareDates(after[a], after[b]) < 0 <==>
        ca < cb || (ca == cb && (sa < sb || (sa == sb && StrICmp(before[a].name, before[b].name) < 0)))
  {
    EligibleIsDated(before, after, order, a);
    EligibleIsDated(before, after, order, b);
    SecondsOrder(after[a].modified, after[b].modified);
    SecondsOrder(after[b].modified, after[a].modified);
    CategoryFirst(SasCategory(before[a].name), SasSlot(before[a].name), SasCategory(before[b].name), SasSlot(before[b].name));
  }

  /** The windows of two categories never overlap. */
  lemma CategoryFirst(c: nat, s: nat, d: nat, t: nat)
    requires s < SECONDS_PER_DAY && t < SECONDS_PER_DAY
    ensures c * SECONDS_PER_DAY + s < d * SECONDS_PER_DAY + t <==> c < d || (c == d && s < t)
    ensures c * SECONDS_PER_DAY + s == d * SECONDS_PER_DAY + t <==> c == d && s == t
  {
  }

  /** Same category, the first payload in the alphabet, and ahead of the second. */
  ghost predicate FiledBefore(a: FolderName, b: FolderName) {
    var c := SasCategory(a);
    var p, q := Sas.Payload(Sas.EffectiveName(a), c), Sas.Payload(Sas.EffectiveName(b), c);
    && c == SasCategory(b)
    && (forall i :: 0 <= i < |p| ==> Sas.InAlphabet(p[i])) && Sas.PayloadPrecedes(p, q)
  }

  lemma FiledBeforeSlots(a: FolderName, b: FolderName)
    requires FiledBefore(a, b)
    ensures SasCategory(a) == SasCategory(b) && SasSlot(a) <= SasSlot(b)
  {
    var c := SasCategory(a);
    Sas.SlotFollowsLetters(Sas.Payload(Sas.EffectiveName(a), c), Sas.Payload(Sas.EffectiveName(b), c));
  }

  /** Within a category, a name whose payload comes first alphabetically is never given the older date. */
  lemma CategoryListsAlphabetically(before: seq<Folder>, after: seq<Folder>, order: seq<int>, a: int, b: int)
    requires Organized(before, after, order, BySas)
    requires 0 <= a < |before| && 0 <= b < |before| && Eligible(before[a].name) && Eligible(before[b].name)
    requires FiledBefore(before[a].name, before[b].name)
    ensures !Older(after[a].modified, after[b].modified)
  {
    EligibleIsDated(before, after, order, a);
    EligibleIsDated(before, after, order, b);
    FiledBeforeSlots(before[a].name, before[b].name);
    SecondsOrder(after[a].modified, after[b].modified);
  }
}
