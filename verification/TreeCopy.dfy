/** Copying and moving files and folders: the recursive copy, its chunk loop, the recursive delete and
    the paste that combines them, over a file system any of whose operations may fail. */
module TreeCopy {
  import opened Common

  /** The most folder levels a copy descends. */
  const MAX_RECURSE := 16
  /** The most entries a listing asks for, two fewer than a table of entries holds. */
  const LIST_LIMIT := MAX_ENTRY - 2

  type Path = seq<string>

  datatype Entry = File(data: seq<Byte>) | Folder
  type Entries = map<Path, Entry>

  datatype FileInfo = FileInfo(name: string, isFolder: bool)

  // ----- paths -----

  predicate Under(a: Path, p: Path) {
    |a| <= |p| && p[..|a|] == a
  }

  /** Neither path lies inside the other. */
  predicate Apart(a: Path, b: Path) {
    !Under(a, b) && !Under(b, a)
  }

  /** Where a path under a goes when a is copied to b. */
  function Moved(p: Path, a: Path, b: Path): Path
    requires Under(a, p)
  {
    b + p[|a|..]
  }

  lemma MovedUnder(p: Path, a: Path, b: Path)
    requires Under(a, p)
    ensures Under(b, Moved(p, a, b)) && Moved(Moved(p, a, b), b, a) == p
  {
  }

  lemma MovedChild(p: Path, a: Path, b: Path, name: string)
    requires Under(a + [name], p)
    ensures Under(a, p) && Moved(p, a + [name], b + [name]) == Moved(p, a, b)
  {
    assert p[..|a|] == (a + [name])[..|a|];
    assert p[|a|] == p[..|a| + 1][|a|];
    assert p[|a|..] == [name] + p[|a| + 1..];
  }

  lemma ChildUnder(p: Path, a: Path, name: string)
    ensures Under(a + [name], p) <==> |p| > |a| && Under(a, p) && p[|a|] == name
  {
    if Under(a + [name], p) {
      assert p[..|a|] == (a + [name])[..|a|];
      assert p[|a|] == p[..|a| + 1][|a|];
    }
  }

  /** Two paths above a third are comparable. */
  lemma Comparable(a: Path, b: Path, p: Path)
    requires Under(a, p) && Under(b, p)
    ensures !Apart(a, b)
  {
    if |a| <= |b| {
      assert b[..|a|] == p[..|a|];
    } else {
      assert a[..|b|] == p[..|b|];
    }
  }

  lemma UnderTrans(a: Path, b: Path, p: Path)
    requires Under(a, b) && Under(b, p)
    ensures Under(a, p)
  {
    assert p[..|a|] == p[..|b|][..|a|];
  }

  lemma ChildrenApart(a: Path, b: Path, m: string, n: string)
    requires Apart(a, b)
    ensures Apart(a + [m], b + [n])
  {
    if Under(a + [m], b + [n]) {
      UnderTrans(a, a + [m], b + [n]);
      assert Under(b, b + [n]);
      Comparable(a, b, b + [n]);
    }
    if Under(b + [n], a + [m]) {
      UnderTrans(b, b + [n], a + [m]);
      assert Under(a, a + [m]);
      Comparable(a, b, a + [m]);
    }
  }

  // ----- file trees -----

  /** Every entry lies in folders all the way up to its device. */
  ghost predicate IsTree(s: Entries) {
    forall p, k :: p in s && 0 < k < |p| ==> p[..k] in s && s[p[..k]] == Folder
  }

  ghost predicate SameAt(s: Entries, t: Entries, q: Path) {
    (q in s <==> q in t) && (q in s ==> s[q] == t[q])
  }

  predicate IsFolder(s: Entries, p: Path) {
    p in s && s[p] == Folder
  }

  /** The folder the path lies in exists, and so do those above it. */
  predicate Reachable(s: Entries, p: Path) {
    |p| > 0 && forall k :: 0 < k < |p| ==> p[..k] in s && s[p[..k]] == Folder
  }

  ghost predicate Listed(files: seq<FileInfo>, name: string) {
    exists i :: 0 <= i < |files| && files[i].name == name
  }

  /** Nothing changed outside a. */
  ghost predicate OnlyUnder(s: Entries, t: Entries, a: Path) {
    forall q :: !Under(a, q) ==> SameAt(s, t, q)
  }

  ghost predicate SameUnder(s: Entries, t: Entries, a: Path) {
    forall q :: Under(a, q) ==> SameAt(s, t, q)
  }

  /** A path that a listing left out, or that lies under one left out. */
  ghost predicate Covered(missed: set<Path>, p: Path) {
    exists e :: e in missed && Under(e, p)
  }

  /** q lies under b and stands for an entry under a that no listing left out. */
  ghost predicate Copies(s: Entries, a: Path, b: Path, missed: set<Path>, q: Path) {
    Under(b, q) && Moved(q, b, a) in s && !Covered(missed, Moved(q, b, a))
  }

  /** The whole effect of copying a to b: an entry under b is the one it stands for; everything else,
      inside b and out, is as before. */
  ghost predicate Pasted(s: Entries, t: Entries, a: Path, b: Path, missed: set<Path>) {
    forall q :: if Copies(s, a, b, missed, q) then q in t && t[q] == s[Moved(q, b, a)] else SameAt(s, t, q)
  }

  /** The left-out entries under a that are still pending have nothing else left out around them. */
  ghost predicate Separate(missed: set<Path>, a: Path, name: string) {
    && a + [name] in missed
    && forall e :: e in missed ==> Under(a, e) && |e| > |a| && (e[|a|] == name ==> e == a + [name])
  }

  /** Copying one more child of a folder: the child is no longer left out, only what its own listings left out. */
  lemma PasteChild(s: Entries, t: Entries, u: Entries, a: Path, b: Path, missed: set<Path>, name: string, more: set<Path>)
    requires Apart(a, b) && Pasted(s, t, a, b, missed) && Separate(missed, a, name)
    requires Pasted(t, u, a + [name], b + [name], more) && forall e :: e in more ==> Under(a + [name], e)
    ensures Pasted(s, u, a, b, missed - {a + [name]} + more)
  {
    var left := missed - {a + [name]} + more;
    forall q ensures if Copies(s, a, b, left, q) then q in u && u[q] == s[Moved(q, b, a)] else SameAt(s, u, q) {
      ChildUnder(q, b, name);
      if Under(b, q) {
        var p := Moved(q, b, a);
        MovedUnder(q, b, a);
        ChildUnder(p, a, name);
        PasteChildAt(s, t, u, a, b, missed, name, more, q);
      } else {
        assert !Copies(s, a, b, missed, q) && !Copies(t, a + [name], b + [name], more, q);
      }
    }
  }

  lemma PasteChildAt(s: Entries, t: Entries, u: Entries, a: Path, b: Path, missed: set<Path>, name: string, more: set<Path>, q: Path)
    requires Apart(a, b) && Pasted(s, t, a, b, missed) && Separate(missed, a, name)
    requires Pasted(t, u, a + [name], b + [name], more) && forall e :: e in more ==> Under(a + [name], e)
    requires Under(b, q)
    ensures if Copies(s, a, b, missed - {a + [name]} + more, q) then q in u && u[q] == s[Moved(q, b, a)] else SameAt(s, u, q)
  {
    var p := Moved(q, b, a);
    MovedUnder(q, b, a);
    CoveredChild(missed, a, name, more, p);
    ChildUnder(q, b, name);
    ChildUnder(p, a, name);
    if Under(b + [name], q) {
      MovedChild(q, b, a, name);
      assert Covered(missed, p);
      assert !Copies(s, a, b, missed, q);
      if Under(b, p) {
        Comparable(a, b, p);
        assert false;
      }
      assert SameAt(s, t, p) && SameAt(s, t, q);
      assert Copies(t, a + [name], b + [name], more, q) <==> p in t && !Covered(more, p);
    } else {
      assert !Copies(t, a + [name], b + [name], more, q);
      assert SameAt(t, u, q);
    }
  }

  /** No entry that was not left out lies as deep as this below a. */
  ghost predicate Shallow(s: Entries, a: Path, missed: set<Path>, depth: int) {
    forall p :: p in s && Under(a, p) && !Covered(missed, p) ==> |p| - |a| < depth
  }

  lemma ShallowChild(s: Entries, t: Entries, a: Path, missed: set<Path>, name: string, more: set<Path>, depth: int)
    requires Separate(missed, a, name) && forall e :: e in more ==> Under(a + [name], e)
    requires Shallow(s, a, missed, depth) && Shallow(t, a + [name], more, depth - 1)
    requires forall p :: Under(a, p) ==> SameAt(s, t, p)
    ensures Shallow(s, a, missed - {a + [name]} + more, depth)
  {
    var left := missed - {a + [name]} + more;
    forall p | p in s && Under(a, p) && !Covered(left, p) ensures |p| - |a| < depth {
      CoveredChild(missed, a, name, more, p);
      assert SameAt(s, t, p);
    }
  }

  lemma CoveredChild(missed: set<Path>, a: Path, name: string, more: set<Path>, p: Path)
    requires Separate(missed, a, name) && Under(a, p)
    requires forall e :: e in more ==> Under(a + [name], e)
    ensures Under(a + [name], p) ==> Covered(missed, p)
    ensures Under(a + [name], p) ==> (Covered(missed - {a + [name]} + more, p) <==> Covered(more, p))
    ensures !Under(a + [name], p) ==> (Covered(missed - {a + [name]} + more, p) <==> Covered(missed, p))
  {
    var left := missed - {a + [name]} + more;
    ChildUnder(p, a, name);
    if Covered(left, p) {
      var e :| e in left && Under(e, p);
      if e in more {
        UnderTrans(a + [name], e, p);
      } else {
        assert p[|a|] == p[..|e|][|a|];
      }
    }
    if Covered(more, p) {
      var e :| e in more && Under(e, p);
      assert e in left;
    }
    if Covered(missed, p) {
      var e :| e in missed && Under(e, p);
      assert e in left || e == a + [name];
    }
  }

  /** The entries right under a folder. */
  ghost function Children(s: Entries, a: Path): set<Path> {
    set p | p in s && |p| == |a| + 1 && Under(a, p)
  }

  /** Once the folder itself is there and no child copied yet, all of its children count as left out. */
  lemma PasteFolder(s: Entries, t: Entries, a: Path, b: Path)
    requires IsTree(s) && |a| > 0 && a in s && s[a] == Folder
    requires t == s[b := Folder]
    ensures Pasted(s, t, a, b, Children(s, a))
  {
    forall q ensures if Copies(s, a, b, Children(s, a), q) then q in t && t[q] == s[Moved(q, b, a)] else SameAt(s, t, q) {
      if Under(b, q) {
        var p := Moved(q, b, a);
        if q == b {
          assert p == a;
          assert !Covered(Children(s, a), p);
        } else if p in s {
          var c := p[..|a| + 1];
          assert c[..|a|] == a && (|c| < |p| ==> c in s) && (|c| == |p| ==> c == p);
          assert c in Children(s, a);
          assert Covered(Children(s, a), p);
        }
      }
    }
  }

  lemma PasteFile(s: Entries, t: Entries, a: Path, b: Path)
    requires IsTree(s) && |a| > 0 && a in s && s[a].File? && t == s[b := s[a]]
    ensures Pasted(s, t, a, b, {})
  {
    forall q ensures if Copies(s, a, b, {}, q) then q in t && t[q] == s[Moved(q, b, a)] else SameAt(s, t, q) {
      if Under(b, q) {
        var p := Moved(q, b, a);
        if q == b {
          assert p == a;
          assert !Covered({}, p);
        } else {
          assert p[..|a|] == a && p !in s;
        }
      }
    }
  }

  // ----- what listings show -----

  function Shorter(a: nat, b: nat): nat {
    if a < b then a else b
  }

  /** How many entries of a folder a listing can show. On a memory card "." and ".." are among those asked for. */
  function ListLimit(p: Path): nat {
    if p != [] && "mc" <= p[0] then LIST_LIMIT - 2 else LIST_LIMIT
  }

  lemma ListLimits(card: string, rest: Path)
    ensures ListLimit(["mc" + card] + rest) == 2044
    ensures !("mc" <= card) ==> ListLimit([card] + rest) == 2046
  {
  }

  /** How many entries the next listing shows at most, given where the coming ones break off. */
  function Shown(cuts: seq<nat>, p: Path): nat {
    if cuts == [] then ListLimit(p) else Shorter(cuts[0], ListLimit(p))
  }

  /** The next listing shows nothing. */
  predicate NextUnread(cuts: seq<nat>) {
    cuts != [] && cuts[0] == 0
  }

  function Later(cuts: seq<nat>): seq<nat> {
    if cuts == [] then [] else cuts[1..]
  }

  /** No folder at or under a has more entries than a listing can show. */
  ghost predicate Bounded(s: Entries, a: Path) {
    forall p :: p in s && Under(a, p) ==> |Children(s, p)| <= ListLimit(p)
  }

  /** What a copy of a leaves out: real entries, none exactly if listings are complete and no folder is
      too large for them. */
  ghost predicate LeftOut(s: Entries, a: Path, missed: set<Path>, complete: bool) {
    && (forall e :: e in missed ==> e in s && Under(a, e))
    && (missed == {} ==> Bounded(s, a))
    && (complete && Bounded(s, a) ==> missed == {})
  }

  /** What changes under one child leaves the others alone. */
  lemma OtherSame(s: Entries, t: Entries, u: Entries, a: Path, done: string, name: string)
    requires done != name && SameUnder(s, t, a + [name]) && OnlyUnder(t, u, a + [done])
    ensures SameUnder(s, u, a + [name])
  {
    forall p | Under(a + [name], p) ensures SameAt(s, u, p) {
      ChildUnder(p, a, name);
      ChildUnder(p, a, done);
      assert SameAt(s, t, p) && SameAt(t, u, p);
    }
  }

  lemma SubsetSize(a: set<Path>, b: set<Path>)
    requires a <= b
    ensures |a| <= |b| && (|a| == |b| ==> a == b)
  {
    assert b == a + (b - a);
  }

  lemma RestOne(a: Path, files: seq<FileInfo>, i: nat)
    requires i < |files|
    ensures Rest(a, files, i) == Rest(a, files, i + 1) + {a + [files[i].name]}
    ensures UniqueNames(files) ==> a + [files[i].name] !in Rest(a, files, i + 1)
  {
    if UniqueNames(files) {
      forall k | i < k < |files| ensures a + [files[k].name] != a + [files[i].name] {
        assert (a + [files[k].name])[|a|] != (a + [files[i].name])[|a|];
      }
    }
  }

  lemma {:induction false} RestSize(a: Path, files: seq<FileInfo>, i: nat)
    requires i <= |files|
    ensures |Rest(a, files, i)| <= |files| - i
    ensures UniqueNames(files) ==> |Rest(a, files, i)| == |files| - i
    decreases |files| - i
  {
    if i < |files| {
      RestSize(a, files, i + 1);
      RestOne(a, files, i);
    } else {
      assert Rest(a, files, i) == {};
    }
  }

  ghost predicate AllListed(s: Entries, a: Path, files: seq<FileInfo>) {
    forall q :: q in Children(s, a) ==> Listed(files, q[|a|])
  }

  /** A folder whose entries are all listed has no more than are listed. */
  lemma ListedFew(s: Entries, a: Path, files: seq<FileInfo>)
    requires AllListed(s, a, files)
    ensures |Children(s, a)| <= |files| && Children(s, a) <= Rest(a, files, 0)
  {
    forall q | q in Children(s, a) ensures q in Rest(a, files, 0) {
      assert q == q[..|a|] + [q[|a|]];
    }
    RestSize(a, files, 0);
    SubsetSize(Children(s, a), Rest(a, files, 0));
  }

  /** A listing that is as long as the folder is complete. */
  lemma LongListing(s: Entries, a: Path, files: seq<FileInfo>)
    requires UniqueNames(files) && |Children(s, a)| <= |files|
    requires forall k :: 0 <= k < |files| ==> a + [files[k].name] in s
    ensures AllListed(s, a, files)
  {
    forall k | 0 <= k < |files| ensures a + [files[k].name] in Children(s, a) {
      assert Under(a, a + [files[k].name]);
    }
    RestSize(a, files, 0);
    SubsetSize(Rest(a, files, 0), Children(s, a));
    forall q | q in Children(s, a) ensures Listed(files, q[|a|]) {
      assert q in Rest(a, files, 0);
    }
  }

  /** With a complete listing a folder of few enough entries is listed in full. */
  lemma ShownAll(s: Entries, a: Path, files: seq<FileInfo>)
    requires a in s && |Children(s, a)| <= ListLimit(a) && UniqueNames(files)
    requires forall k :: 0 <= k < |files| ==> Current(s, a, files[k])
    requires |files| < ListLimit(a) ==> AllListed(s, a, files)
    ensures AllListed(s, a, files)
  {
    if |files| >= ListLimit(a) {
      LongListing(s, a, files);
    }
  }

  lemma BoundedSame(s: Entries, t: Entries, a: Path)
    requires SameUnder(s, t, a)
    ensures Bounded(s, a) <==> Bounded(t, a)
  {
    forall p | Under(a, p) ensures Children(s, p) == Children(t, p) {
      forall q | Under(p, q) ensures SameAt(s, t, q) {
        UnderTrans(a, p, q);
      }
    }
    assert forall p :: Under(a, p) ==> SameAt(s, t, p) && Children(s, p) == Children(t, p);
  }

  lemma BoundedChild(s: Entries, a: Path, c: Path)
    requires Bounded(s, a) && Under(a, c)
    ensures Bounded(s, c)
  {
    forall p | p in s && Under(c, p) ensures |Children(s, p)| <= ListLimit(p) {
      UnderTrans(a, c, p);
    }
  }

  lemma BoundedFolder(s: Entries, a: Path, files: seq<FileInfo>)
    requires IsTree(s) && |a| > 0 && |files| <= ListLimit(a) && AllListed(s, a, files)
    requires forall k :: 0 <= k < |files| ==> Bounded(s, a + [files[k].name])
    ensures Bounded(s, a)
  {
    ListedFew(s, a, files);
    forall p | p in s && Under(a, p) && p != a ensures |Children(s, p)| <= ListLimit(p) {
      var k := ListedAbove(s, a, files, p);
      assert Bounded(s, a + [files[k].name]);
    }
  }

  /** What lies in a folder lies under one of its listed entries. */
  lemma ListedAbove(s: Entries, a: Path, files: seq<FileInfo>, p: Path) returns (k: nat)
    requires IsTree(s) && |a| > 0 && AllListed(s, a, files) && p in s && Under(a, p) && p != a
    ensures k < |files| && Under(a + [files[k].name], p)
  {
    var c := p[..|a| + 1];
    assert c[..|a|] == a && (|c| == |p| ==> c == p) && c == a + [c[|a|]];
    assert c in Children(s, a);
    k :| 0 <= k < |files| && files[k].name == c[|a|];
  }

  lemma BoundedFile(s: Entries, a: Path)
    requires IsTree(s) && |a| > 0 && a in s && s[a].File?
    ensures Bounded(s, a)
  {
    FileAlone(s, a);
    assert Children(s, a) == {};
  }

  // ----- what a copy has left out so far -----

  /** The listed files before i are copied. An entry that is not listed is left out; a copied one with nothing
      left out is bounded. */
  ghost predicate Tracked(s: Entries, source: Path, files: seq<FileInfo>, i: nat, missed: set<Path>, full: bool) {
    && (forall e :: e in missed ==> e in s)
    && (forall q :: q in Children(s, source) && !Listed(files, q[|source|]) ==> q in missed)
    && (forall k :: 0 <= k < i && k < |files| ==> BoundedUnlessLeftOut(s, missed, source + [files[k].name]))
    && (full ==> missed == Rest(source, files, i))
    && (i == 0 ==> missed == Children(s, source))
  }

  ghost predicate BoundedUnlessLeftOut(s: Entries, missed: set<Path>, a: Path) {
    NoneUnder(missed, a) ==> Bounded(s, a)
  }

  ghost predicate NoneUnder(missed: set<Path>, a: Path) {
    forall e :: e in missed ==> !Under(a, e)
  }

  lemma TrackedNext(s: Entries, t: Entries, source: Path, files: seq<FileInfo>, i: nat, missed: set<Path>, more: set<Path>,
                    full: bool)
    requires i < |files| && UniqueNames(files) && Tracked(s, source, files, i, missed, full)
    requires LeftOut(t, source + [files[i].name], more, full)
    requires full ==> Bounded(s, source)
    requires SameUnder(s, t, source)
    ensures Tracked(s, source, files, i + 1, missed - {source + [files[i].name]} + more, full)
  {
    var c := source + [files[i].name];
    var left := missed - {c} + more;
    forall p | Under(c, p) ensures SameAt(s, t, p) {
      ChildUnder(p, source, files[i].name);
    }
    BoundedSame(s, t, c);
    if full {
      assert Under(source, c);
      BoundedChild(s, source, c);
    }
    forall q | q in Children(s, source) && !Listed(files, q[|source|]) ensures q in left {
      assert q[|source|] != files[i].name;
    }
    forall k | 0 <= k <= i ensures BoundedUnlessLeftOut(s, left, source + [files[k].name]) {
      if NoneUnder(left, source + [files[k].name]) {
        StillNone(source, files, i, k, missed, more);
        assert k < i ==> BoundedUnlessLeftOut(s, missed, source + [files[k].name]);
      }
    }
    if full {
      RestStep(source, files, i);
    }
  }

  lemma StillNone(source: Path, files: seq<FileInfo>, i: nat, k: nat, missed: set<Path>, more: set<Path>)
    requires k <= i < |files| && UniqueNames(files) && forall e :: e in more ==> Under(source + [files[i].name], e)
    requires NoneUnder(missed - {source + [files[i].name]} + more, source + [files[k].name])
    ensures if k == i then more == {} else NoneUnder(missed, source + [files[k].name])
  {
    var c, left := source + [files[i].name], missed - {source + [files[i].name]} + more;
    if k == i {
      assert more <= left;
    } else {
      ChildUnder(c, source, files[k].name);
      forall e | e in missed ensures !Under(source + [files[k].name], e) {
        assert e == c || e in left;
      }
    }
  }

  /** When all listed files are copied. */
  lemma TrackedAll(s: Entries, source: Path, files: seq<FileInfo>, missed: set<Path>, full: bool)
    requires IsTree(s) && |source| > 0 && |files| <= ListLimit(source) && Tracked(s, source, files, |files|, missed, full)
    requires forall e :: e in missed ==> Under(source, e)
    requires forall k :: 0 <= k < |files| ==> source + [files[k].name] in s
    ensures LeftOut(s, source, missed, full)
  {
    if missed == {} {
      assert forall k :: 0 <= k < |files| ==> BoundedUnlessLeftOut(s, missed, source + [files[k].name]);
      BoundedFolder(s, source, files);
    }
    if full {
      assert Rest(source, files, |files|) == {};
    }
  }

  // ----- when a copy is bound to succeed -----

  /** An entry p can go to q: a file over anything but a folder, a folder to a new name. Into a folder that is
      there already it can go if it is not empty and all listings are complete. */
  ghost predicate FitsAt(s: Entries, p: Path, q: Path, complete: bool) {
    if p in s && s[p].File? then !IsFolder(s, q) else q !in s || (complete && s[q] == Folder && Children(s, p) != {})
  }

  ghost predicate Fits(s: Entries, source: Path, target: Path, complete: bool) {
    forall p :: p in s && Under(source, p) ==> FitsAt(s, p, Moved(p, source, target), complete)
  }

  /** The source is there and not too deep, and it fits the target, which lies in an existing folder. */
  ghost predicate Transferable(s: Entries, source: Path, target: Path, isFolder: bool, depth: int, complete: bool) {
    && source in s && (isFolder <==> s[source] == Folder)
    && Fits(s, source, target, complete) && Reachable(s, target) && Shallow(s, source, {}, depth)
  }

  /** The target folder has been made, or was there. */
  ghost predicate Clear(s: Entries, t: Entries, source: Path, target: Path, depth: int, complete: bool) {
    && IsFolder(s, source) && Shallow(s, source, {}, depth) && Fits(s, source, target, complete)
    && t == s[target := Folder] && Reachable(t, target)
  }

  /** The target folder is there, and what the listed files from i on will go to is as it was. */
  ghost predicate Awaiting(s: Entries, t: Entries, target: Path, files: seq<FileInfo>, i: nat) {
    && IsFolder(t, target) && Reachable(t, target)
    && forall k :: i <= k < |files| ==> SameUnder(s, t, target + [files[k].name])
  }

  /** A file is transferable over any file, and to any new name. */
  lemma FileTransferable(s: Entries, source: Path, target: Path, depth: int, complete: bool)
    requires IsTree(s) && |source| > 0 && source in s && s[source].File? && depth >= 1
    requires Reachable(s, target) && !IsFolder(s, target)
    ensures Transferable(s, source, target, false, depth, complete)
  {
    FileAlone(s, source);
    assert Moved(source, source, target) == target;
  }

  /** So is anything not too deep to a new name. */
  lemma NewNameTransferable(s: Entries, source: Path, target: Path, depth: int, complete: bool)
    requires source in s && Shallow(s, source, {}, depth) && Reachable(s, target) && Gone(s, target)
    ensures Transferable(s, source, target, s[source] == Folder, depth, complete)
  {
    forall p | p in s && Under(source, p) ensures FitsAt(s, p, Moved(p, source, target), complete) {
      MovedUnder(p, source, target);
    }
  }

  lemma FitsMore(s: Entries, source: Path, target: Path, complete: bool, more: bool)
    requires Fits(s, source, target, complete) && (complete ==> more)
    ensures Fits(s, source, target, more)
  {
    forall p | p in s && Under(source, p) ensures FitsAt(s, p, Moved(p, source, target), more) {
      assert FitsAt(s, p, Moved(p, source, target), complete);
    }
  }

  lemma FitsChild(s: Entries, source: Path, target: Path, name: string, complete: bool)
    requires Fits(s, source, target, complete)
    ensures Fits(s, source + [name], target + [name], complete)
  {
    forall p | p in s && Under(source + [name], p)
      ensures FitsAt(s, p, Moved(p, source + [name], target + [name]), complete)
    {
      MovedChild(p, source, target, name);
      assert FitsAt(s, p, Moved(p, source, target), complete);
    }
  }

  lemma FitsSame(s: Entries, t: Entries, source: Path, target: Path, complete: bool)
    requires Fits(s, source, target, complete) && SameUnder(s, t, source) && SameUnder(s, t, target)
    ensures Fits(t, source, target, complete)
  {
    forall p | p in t && Under(source, p) ensures FitsAt(t, p, Moved(p, source, target), complete) {
      var q := Moved(p, source, target);
      MovedUnder(p, source, target);
      assert SameAt(s, t, p) && SameAt(s, t, q) && FitsAt(s, p, q, complete);
      forall c | Under(p, c) ensures SameAt(s, t, c) {
        UnderTrans(source, p, c);
      }
      assert Children(s, p) == Children(t, p);
    }
  }

  ghost function Rest(source: Path, files: seq<FileInfo>, i: nat): set<Path> {
    set k | i <= k < |files| :: source + [files[k].name]
  }

  predicate UniqueNames(files: seq<FileInfo>) {
    forall j, k :: 0 <= j < k < |files| ==> files[j].name != files[k].name
  }

  /** How far the copy of a folder's contents has got: the listed files before i are done. */
  ghost predicate Copying(s: Entries, t: Entries, source: Path, target: Path, files: seq<FileInfo>, i: nat,
                          missed: set<Path>, depth: int) {
    && OnlyUnder(s, t, target)
    && (IsFolder(s, source) ==> Pasted(s, t, source, target, missed))
    && Shallow(s, source, missed, depth)
    && (forall k :: i <= k < |files| ==> Pending(s, source, missed, files[k]))
    && (forall e :: e in missed ==> Under(source, e))
  }

  /** The copy goes on as one that is bound to succeed. */
  ghost predicate Hopeful(s: Entries, t: Entries, source: Path, target: Path, files: seq<FileInfo>, i: nat, depth: int,
                          complete: bool) {
    Awaiting(s, t, target, files, i) && Shallow(s, source, {}, depth) && Fits(s, source, target, complete)
  }

  lemma CopyingStep(s: Entries, t: Entries, u: Entries, source: Path, target: Path, files: seq<FileInfo>, i: nat,
                    missed: set<Path>, more: set<Path>, depth: int)
    requires Apart(source, target) && i < |files| && UniqueNames(files)
    requires Copying(s, t, source, target, files, i, missed, depth)
    requires OnlyUnder(t, u, target + [files[i].name])
    requires Pasted(t, u, source + [files[i].name], target + [files[i].name], more)
    requires Shallow(t, source + [files[i].name], more, depth - 1)
    requires forall e :: e in more ==> Under(source + [files[i].name], e)
    ensures Copying(s, u, source, target, files, i + 1, missed - {source + [files[i].name]} + more, depth)
  {
    OnlyUnderChild(s, t, u, target, files[i].name);
    AllUntouched(s, t, target, source);
    ShallowChild(s, t, source, missed, files[i].name, more, depth);
    if IsFolder(s, source) {
      PasteChild(s, t, u, source, target, missed, files[i].name, more);
    }
    StillPending(s, source, missed, more, files, i);
  }

  lemma RestStep(source: Path, files: seq<FileInfo>, i: nat)
    requires i < |files| && forall j, k :: 0 <= j < k < |files| ==> files[j].name != files[k].name
    ensures Rest(source, files, i) - {source + [files[i].name]} + {} == Rest(source, files, i + 1)
  {
    forall k | i < k < |files| ensures source + [files[k].name] != source + [files[i].name] {
      assert (source + [files[k].name])[|source|] != (source + [files[i].name])[|source|];
    }
  }

  lemma FolderMade(s: Entries, source: Path, target: Path, depth: int, complete: bool)
    requires Transferable(s, source, target, true, depth, complete) && Apart(source, target)
    ensures target !in s || s[target] == Folder
    ensures target in s ==> complete && Children(s, source) != {}
    ensures Clear(s, s[target := Folder], source, target, depth, complete)
  {
    assert Moved(source, source, target) == target && Under(source, source);
    assert FitsAt(s, source, target, complete);
  }

  lemma AwaitingAll(s: Entries, t: Entries, target: Path, files: seq<FileInfo>)
    requires t == s[target := Folder] && Reachable(t, target)
    ensures Awaiting(s, t, target, files, 0)
  {
  }

  /** A folder that is not empty is not listed as empty when listings are complete. */
  lemma SomeListed(s: Entries, t: Entries, target: Path, source: Path, files: seq<FileInfo>)
    requires OnlyUnder(s, t, target) && Apart(source, target) && Children(s, source) != {}
    requires |files| < ListLimit(source) ==> AllListed(t, source, files)
    ensures files != []
  {
    var c :| c in Children(s, source);
    SourceUntouched(s, t, target, source, c);
    assert c in Children(t, source);
    if |files| < ListLimit(source) {
      assert Listed(files, c[|source|]);
    }
  }

  /** Before the first of the listed files is copied, all children count as left out. */
  lemma TrackedFirst(s: Entries, t: Entries, target: Path, source: Path, files: seq<FileInfo>, full: bool)
    requires OnlyUnder(s, t, target) && Apart(source, target)
    requires forall k :: 0 <= k < |files| ==> source + [files[k].name] in t
    requires full ==> AllListed(t, source, files)
    ensures Tracked(s, source, files, 0, Children(s, source), full)
  {
    AllUntouched(s, t, target, source);
    if full {
      forall q | q in Children(s, source) ensures q in Children(t, source) {
        assert SameAt(s, t, q);
      }
      assert AllListed(s, source, files);
      ListedFew(s, source, files);
      forall k | 0 <= k < |files| ensures source + [files[k].name] in Children(s, source) {
        assert Under(source, source + [files[k].name]);
      }
    }
  }

  /** A folder's contents are about to be copied. */
  lemma StartContents(s: Entries, t: Entries, target: Path, source: Path, files: seq<FileInfo>, depth: int, full: bool,
                      live: bool, complete: bool)
    requires IsTree(s) && OnlyUnder(s, t, target) && Apart(source, target) && |source| > 0 && depth >= 1
    requires IsFolder(s, source) ==> Pasted(s, t, source, target, Children(s, source))
    requires UniqueNames(files) && forall k :: 0 <= k < |files| ==> Current(t, source, files[k])
    requires full ==> IsFolder(s, source) && Bounded(s, source) && (|files| < ListLimit(source) ==> AllListed(t, source, files))
    requires live ==> Clear(s, t, source, target, depth, complete)
    ensures Copying(s, t, source, target, files, 0, Children(s, source), depth)
    ensures Tracked(s, source, files, 0, Children(s, source), full)
    ensures live ==> Hopeful(s, t, source, target, files, 0, depth, complete)
  {
    ListedSeparate(s, t, target, source, files);
    ChildrenCover(s, source);
    if full {
      AllUntouched(s, t, target, source);
      BoundedSame(s, t, source);
      assert Under(source, source) && SameAt(s, t, source);
      ShownAll(t, source, files);
    }
    TrackedFirst(s, t, target, source, files, full);
    if live {
      AwaitingAll(s, t, target, files);
    }
  }

  lemma InSource(s: Entries, source: Path, files: seq<FileInfo>, missed: set<Path>)
    requires forall k :: 0 <= k < |files| ==> Pending(s, source, missed, files[k])
    ensures forall k :: 0 <= k < |files| ==> source + [files[k].name] in s
  {
  }

  lemma TrackedStep(s: Entries, t: Entries, target: Path, source: Path, files: seq<FileInfo>, i: nat, missed: set<Path>,
                    more: set<Path>, full: bool, complete: bool)
    requires OnlyUnder(s, t, target) && Apart(source, target) && i < |files| && UniqueNames(files)
    requires Tracked(s, source, files, i, missed, full) && (full ==> complete && Bounded(s, source))
    requires LeftOut(t, source + [files[i].name], more, complete)
    ensures Tracked(s, source, files, i + 1, missed - {source + [files[i].name]} + more, full)
  {
    AllUntouched(s, t, target, source);
    TrackedNext(s, t, source, files, i, missed, more, full);
  }

  lemma ChildTransferable(s: Entries, t: Entries, target: Path, source: Path, missed: set<Path>, files: seq<FileInfo>, i: nat,
                          depth: int, complete: bool)
    requires OnlyUnder(s, t, target) && Apart(source, target) && i < |files|
    requires Pending(s, source, missed, files[i]) && Hopeful(s, t, source, target, files, i, depth, complete)
    ensures Transferable(t, source + [files[i].name], target + [files[i].name], files[i].isFolder, depth - 1, complete)
  {
    var c, d := source + [files[i].name], target + [files[i].name];
    AllUntouched(s, t, target, source);
    assert Under(source, c);
    forall p | Under(c, p) ensures SameAt(s, t, p) && (p in t ==> |p| - |c| < depth - 1) {
      UnderTrans(source, c, p);
      assert !Covered({}, p);
    }
    FitsChild(s, source, target, files[i].name, complete);
    FitsSame(s, t, c, d, complete);
    ChildReachable(t, target, files[i].name);
  }

  lemma ChildReachable(t: Entries, target: Path, name: string)
    requires IsFolder(t, target) && Reachable(t, target)
    ensures Reachable(t, target + [name])
  {
    var d := target + [name];
    forall k | 0 < k < |d| ensures d[..k] in t && t[d[..k]] == Folder {
      if k < |target| {
        assert d[..k] == target[..k];
      } else {
        assert d[..k] == target;
      }
    }
  }

  lemma AwaitingNext(s: Entries, t: Entries, u: Entries, target: Path, files: seq<FileInfo>, i: nat)
    requires i < |files| && Awaiting(s, t, target, files, i) && OnlyUnder(t, u, target + [files[i].name]) && UniqueNames(files)
    ensures Awaiting(s, u, target, files, i + 1)
  {
    forall k | 0 < k < |target| ensures target[..k] in u && u[target[..k]] == Folder {
      assert SameAt(t, u, target[..k]);
    }
    assert SameAt(t, u, target);
    forall k | i < k < |files| ensures SameUnder(s, u, target + [files[k].name]) {
      OtherSame(s, t, u, target, files[i].name, files[k].name);
    }
  }

  /** A listed file that has yet to be copied. */
  ghost predicate Pending(s: Entries, source: Path, missed: set<Path>, file: FileInfo) {
    && Separate(missed, source, file.name)
    && source + [file.name] in s
    && (file.isFolder <==> s[source + [file.name]] == Folder)
  }

  lemma SourceUntouched(s: Entries, t: Entries, target: Path, source: Path, p: Path)
    requires OnlyUnder(s, t, target) && Apart(source, target) && Under(source, p)
    ensures SameAt(s, t, p)
  {
    if Under(target, p) {
      Comparable(source, target, p);
      assert false;
    }
  }

  lemma AllUntouched(s: Entries, t: Entries, target: Path, source: Path)
    requires OnlyUnder(s, t, target) && Apart(source, target)
    ensures SameUnder(s, t, source)
  {
    forall p | Under(source, p) ensures SameAt(s, t, p) {
      SourceUntouched(s, t, target, source, p);
    }
  }

  lemma ChildrenCover(s: Entries, a: Path)
    requires IsTree(s) && |a| > 0
    ensures Shallow(s, a, Children(s, a), 1)
  {
    forall p | p in s && Under(a, p) && p != a ensures Covered(Children(s, a), p) {
      var c := p[..|a| + 1];
      assert c[..|a|] == a && (|c| == |p| ==> c == p);
      assert c in Children(s, a);
    }
  }

  lemma ListedSeparate(s: Entries, t: Entries, target: Path, source: Path, files: seq<FileInfo>)
    requires OnlyUnder(s, t, target) && Apart(source, target)
    requires forall i :: 0 <= i < |files| ==>
      source + [files[i].name] in t && (files[i].isFolder <==> t[source + [files[i].name]] == Folder)
    ensures forall k :: 0 <= k < |files| ==> Pending(s, source, Children(s, source), files[k])
  {
    forall k | 0 <= k < |files| ensures Pending(s, source, Children(s, source), files[k]) {
      var p := source + [files[k].name];
      assert Under(source, p);
      SourceUntouched(s, t, target, source, p);
      assert p in Children(s, source);
      forall e | e in Children(s, source) && e[|source|] == files[k].name ensures e == p {
        assert e == e[..|source|] + [e[|source|]];
      }
    }
  }

  lemma PendingUntouched(s: Entries, t: Entries, target: Path, source: Path, missed: set<Path>, file: FileInfo)
    requires OnlyUnder(s, t, target) && Apart(source, target) && Pending(s, source, missed, file)
    ensures file.isFolder ==> IsFolder(t, source + [file.name])
  {
    var p := source + [file.name];
    assert Under(source, p);
    SourceUntouched(s, t, target, source, p);
  }

  lemma OnlyUnderChild(s: Entries, t: Entries, u: Entries, target: Path, name: string)
    requires OnlyUnder(s, t, target) && OnlyUnder(t, u, target + [name])
    ensures OnlyUnder(s, u, target)
  {
    forall q | !Under(target, q) ensures SameAt(s, u, q) {
      ChildUnder(q, target, name);
      assert SameAt(s, t, q) && SameAt(t, u, q);
    }
  }

  lemma StillPending(s: Entries, source: Path, missed: set<Path>, more: set<Path>, files: seq<FileInfo>, i: nat)
    requires i < |files| && forall k :: i <= k < |files| ==> Pending(s, source, missed, files[k])
    requires forall e :: e in more ==> Under(source + [files[i].name], e)
    requires forall j, k :: 0 <= j < k < |files| ==> files[j].name != files[k].name
    ensures forall k :: i < k < |files| ==> Pending(s, source, missed - {source + [files[i].name]} + more, files[k])
    ensures forall e :: e in missed - {source + [files[i].name]} + more ==> Under(source, e)
  {
    var left := missed - {source + [files[i].name]} + more;
    assert Pending(s, source, missed, files[i]);
    forall e | e in more ensures Under(source, e) && |e| > |source| && e[|source|] == files[i].name {
      ChildUnder(e, source, files[i].name);
    }
    forall k | i < k < |files| ensures Pending(s, source, left, files[k]) {
      assert Pending(s, source, missed, files[k]);
      assert (source + [files[k].name])[|source|] != (source + [files[i].name])[|source|];
    }
  }

  // ----- deleting and pasting, on values -----

  ghost function EntriesUnder(s: Entries, a: Path): set<Path> {
    set p | p in s && Under(a, p)
  }

  /** Entries may have gone, but none has come or changed. */
  ghost predicate Kept(s: Entries, t: Entries) {
    forall q :: q in t ==> q in s && t[q] == s[q]
  }

  ghost predicate Gone(s: Entries, a: Path) {
    forall q :: Under(a, q) ==> q !in s
  }

  lemma FileAlone(s: Entries, p: Path)
    requires IsTree(s) && |p| > 0
    ensures p in s && s[p].File? ==> forall q :: q in s && Under(p, q) ==> q == p
  {
    forall q | q in s && Under(p, q) && q != p ensures p in s && s[p] == Folder {
      assert q[..|p|] == p;
    }
  }

  lemma FewerUnder(s: Entries, t: Entries, a: Path, name: string)
    requires IsTree(s) && |a| > 0 && a + [name] in s && Kept(s, t)
    ensures |EntriesUnder(t, a + [name])| < |EntriesUnder(s, a)|
  {
    var few, many := EntriesUnder(t, a + [name]), EntriesUnder(s, a);
    assert (a + [name])[..|a|] == a;
    assert a in many && a !in few;
    forall p | p in few ensures p in many {
      UnderTrans(a, a + [name], p);
    }
    assert many - {a} == few + (many - {a} - few);
  }

  /** No clipboard entry and no place it would go lie inside one another, and the entries' names differ. */
  ghost predicate AllApart(clipPath: Path, path: Path, items: seq<FileInfo>) {
    && (forall i, j :: 0 <= i < |items| && 0 <= j < |items| ==> Apart(clipPath + [items[i].name], path + [items[j].name]))
    && UniqueNames(items)
  }

  ghost predicate InItems(a: Path, items: seq<FileInfo>, q: Path) {
    exists i :: 0 <= i < |items| && Under(a + [items[i].name], q)
  }

  ghost predicate OnlyUnderItems(s: Entries, t: Entries, a: Path, items: seq<FileInfo>) {
    forall q :: !InItems(a, items, q) ==> SameAt(s, t, q)
  }

  /** The first k entries of the clipboard are at their new place, save what listings left out; nothing of
      them lies deeper than a copy descends. */
  ghost predicate AllCopied(s: Entries, t: Entries, clipPath: Path, path: Path, items: seq<FileInfo>, k: nat, missed: set<Path>)
    requires k <= |items|
  {
    forall i, p :: 0 <= i < k && p in s && Under(clipPath + [items[i].name], p) && Under(clipPath, p) && !Covered(missed, p) ==>
      |p| < |clipPath| + MAX_RECURSE && Moved(p, clipPath, path) in t && t[Moved(p, clipPath, path)] == s[p]
  }

  ghost predicate InFirst(a: Path, items: seq<FileInfo>, k: nat, q: Path) {
    exists i :: 0 <= i < k && i < |items| && Under(a + [items[i].name], q)
  }

  /** q is where one of the first k entries of the clipboard puts an entry that no listing left out. */
  ghost predicate CopiedTo(s: Entries, clipPath: Path, path: Path, items: seq<FileInfo>, k: nat, missed: set<Path>, q: Path) {
    && Under(path, q) && InFirst(path, items, k, q)
    && Moved(q, path, clipPath) in s && !Covered(missed, Moved(q, path, clipPath))
  }

  /** The whole effect of copying the first k entries of the clipboard. */
  ghost predicate AllPasted(s: Entries, t: Entries, clipPath: Path, path: Path, items: seq<FileInfo>, k: nat, missed: set<Path>) {
    forall q :: PastedAt(s, t, clipPath, path, items, k, missed, q)
  }

  ghost predicate PastedAt(s: Entries, t: Entries, clipPath: Path, path: Path, items: seq<FileInfo>, k: nat, missed: set<Path>,
                           q: Path) {
    if CopiedTo(s, clipPath, path, items, k, missed, q) then q in t && t[q] == s[Moved(q, path, clipPath)] else SameAt(s, t, q)
  }

  /** The effect of a paste outside the clipboard's entries themselves. */
  ghost predicate PastedAside(s: Entries, t: Entries, clipPath: Path, path: Path, items: seq<FileInfo>, missed: set<Path>) {
    forall q :: !InItems(clipPath, items, q) ==> PastedAt(s, t, clipPath, path, items, |items|, missed, q)
  }

  ghost predicate AllBounded(s: Entries, clipPath: Path, items: seq<FileInfo>, k: nat) {
    forall i :: 0 <= i < k && i < |items| ==> Bounded(s, clipPath + [items[i].name])
  }

  /** What copying the first k entries leaves out. */
  ghost predicate AllLeftOut(s: Entries, clipPath: Path, items: seq<FileInfo>, k: nat, missed: set<Path>, complete: bool) {
    && (forall e :: e in missed ==> e in s && InFirst(clipPath, items, k, e))
    && (missed == {} ==> AllBounded(s, clipPath, items, k))
    && (complete && AllBounded(s, clipPath, items, k) ==> missed == {})
  }

  /** How far copying the clipboard has got. If its entries are what the clipboard says, the whole state is known. */
  ghost predicate CopiedSoFar(s: Entries, t: Entries, clipPath: Path, path: Path, items: seq<FileInfo>, k: nat,
                              missed: set<Path>, complete: bool)
    requires k <= |items|
  {
    && OnlyUnderItems(s, t, path, items) && AllCopied(s, t, clipPath, path, items, k, missed)
    && (AllCurrent(s, clipPath, items, 0) ==>
          AllPasted(s, t, clipPath, path, items, k, missed) && AllLeftOut(s, clipPath, items, k, missed, complete))
  }

  ghost predicate Intact(s: Entries, t: Entries, clipPath: Path, items: seq<FileInfo>) {
    forall q :: InItems(clipPath, items, q) ==> SameAt(s, t, q)
  }

  lemma OnlyUnderItem(s: Entries, t: Entries, u: Entries, a: Path, items: seq<FileInfo>, i: nat)
    requires i < |items| && OnlyUnderItems(s, t, a, items) && OnlyUnder(t, u, a + [items[i].name])
    ensures OnlyUnderItems(s, u, a, items)
  {
    forall q | !InItems(a, items, q) ensures SameAt(s, u, q) {
      assert SameAt(s, t, q) && SameAt(t, u, q);
    }
  }

  /** What lies under a clipboard entry lies under none of the places the entries go to. */
  lemma ItemsApart(clipPath: Path, path: Path, items: seq<FileInfo>, q: Path)
    requires AllApart(clipPath, path, items) && InItems(clipPath, items, q)
    ensures !InItems(path, items, q)
  {
    var i :| 0 <= i < |items| && Under(clipPath + [items[i].name], q);
    if InItems(path, items, q) {
      var j :| 0 <= j < |items| && Under(path + [items[j].name], q);
      Comparable(clipPath + [items[i].name], path + [items[j].name], q);
      assert false;
    }
  }

  lemma SourcesIntact(s: Entries, t: Entries, clipPath: Path, path: Path, items: seq<FileInfo>)
    requires AllApart(clipPath, path, items) && OnlyUnderItems(s, t, path, items)
    ensures Intact(s, t, clipPath, items)
  {
    forall q | InItems(clipPath, items, q) ensures SameAt(s, t, q) {
      ItemsApart(clipPath, path, items, q);
    }
  }

  lemma CopiedOneMore(s: Entries, t: Entries, u: Entries, clipPath: Path, path: Path, items: seq<FileInfo>, i: nat,
                      missed: set<Path>, more: set<Path>)
    requires i < |items| && AllApart(clipPath, path, items) && OnlyUnderItems(s, t, path, items)
    requires AllCopied(s, t, clipPath, path, items, i, missed)
    requires OnlyUnder(t, u, path + [items[i].name])
    requires clipPath + [items[i].name] in more
      || (Pasted(t, u, clipPath + [items[i].name], path + [items[i].name], more)
          && Shallow(t, clipPath + [items[i].name], more, MAX_RECURSE - 1))
    ensures AllCopied(s, u, clipPath, path, items, i + 1, missed + more)
  {
    forall k, p | 0 <= k < i + 1 && p in s && Under(clipPath + [items[k].name], p) && Under(clipPath, p) && !Covered(missed + more, p)
      ensures |p| < |clipPath| + MAX_RECURSE && Moved(p, clipPath, path) in u && u[Moved(p, clipPath, path)] == s[p]
    {
      CoveredMore(missed, more, p);
      var q := Moved(p, clipPath, path);
      MovedChild(p, clipPath, path, items[k].name);
      MovedUnder(p, clipPath + [items[k].name], path + [items[k].name]);
      if k < i {
        ChildUnder(q, path, items[k].name);
        ChildUnder(q, path, items[i].name);
        assert SameAt(t, u, q);
      } else {
        assert InItems(clipPath, items, p);
        ItemsApart(clipPath, path, items, p);
        assert SameAt(s, t, p);
        assert Copies(t, clipPath + [items[i].name], path + [items[i].name], more, q);
      }
    }
  }

  /** What one entry leaves out says nothing about what lies under another. */
  lemma CoveredApart(clipPath: Path, items: seq<FileInfo>, i: nat, k: nat, missed: set<Path>, more: set<Path>, p: Path)
    requires i < |items| && k <= i && UniqueNames(items) && Under(clipPath + [items[k].name], p)
    requires forall e :: e in missed ==> InFirst(clipPath, items, i, e)
    requires forall e :: e in more ==> Under(clipPath + [items[i].name], e)
    ensures Covered(missed + more, p) <==> Covered(if k == i then more else missed, p)
  {
    ChildUnder(p, clipPath, items[k].name);
    if Covered(missed + more, p) {
      var e :| e in missed + more && Under(e, p);
      if e in more {
        UnderTrans(clipPath + [items[i].name], e, p);
        ChildUnder(p, clipPath, items[i].name);
      } else {
        var j :| 0 <= j < i && Under(clipPath + [items[j].name], e);
        UnderTrans(clipPath + [items[j].name], e, p);
        ChildUnder(p, clipPath, items[j].name);
      }
    }
    if Covered(if k == i then more else missed, p) {
      var e :| e in (if k == i then more else missed) && Under(e, p);
      assert e in missed + more;
    }
  }

  lemma PastedOneMore(s: Entries, t: Entries, u: Entries, clipPath: Path, path: Path, items: seq<FileInfo>, i: nat,
                      missed: set<Path>, more: set<Path>)
    requires i < |items| && AllApart(clipPath, path, items) && OnlyUnderItems(s, t, path, items)
    requires AllPasted(s, t, clipPath, path, items, i, missed) && forall e :: e in missed ==> InFirst(clipPath, items, i, e)
    requires Pasted(t, u, clipPath + [items[i].name], path + [items[i].name], more)
    requires forall e :: e in more ==> Under(clipPath + [items[i].name], e)
    ensures AllPasted(s, u, clipPath, path, items, i + 1, missed + more)
  {
    var n, left := i + 1, missed + more;
    forall q ensures PastedAt(s, u, clipPath, path, items, n, left, q) {
      assert PastedAt(s, t, clipPath, path, items, i, missed, q);
      if Under(path + [items[i].name], q) {
        PastedThere(s, t, u, clipPath, path, items, i, missed, more, q);
      } else {
        assert !Copies(t, clipPath + [items[i].name], path + [items[i].name], more, q);
        assert SameAt(t, u, q);
        assert InFirst(path, items, i + 1, q) <==> InFirst(path, items, i, q);
        if Under(path, q) && InFirst(path, items, i, q) {
          var k :| 0 <= k < i && Under(path + [items[k].name], q);
          MovedChild(q, path, clipPath, items[k].name);
          MovedUnder(q, path + [items[k].name], clipPath + [items[k].name]);
          CoveredApart(clipPath, items, i, k, missed, more, Moved(q, path, clipPath));
        }
      }
    }
  }

  lemma PastedThere(s: Entries, t: Entries, u: Entries, clipPath: Path, path: Path, items: seq<FileInfo>, i: nat,
                    missed: set<Path>, more: set<Path>, q: Path)
    requires i < |items| && AllApart(clipPath, path, items) && OnlyUnderItems(s, t, path, items)
    requires PastedAt(s, t, clipPath, path, items, i, missed, q) && forall e :: e in missed ==> InFirst(clipPath, items, i, e)
    requires Pasted(t, u, clipPath + [items[i].name], path + [items[i].name], more)
    requires forall e :: e in more ==> Under(clipPath + [items[i].name], e)
    requires Under(path + [items[i].name], q)
    ensures PastedAt(s, u, clipPath, path, items, i + 1, missed + more, q)
  {
    var c, d := clipPath + [items[i].name], path + [items[i].name];
    MovedChild(q, path, clipPath, items[i].name);
    MovedUnder(q, d, c);
    var p := Moved(q, path, clipPath);
    CoveredApart(clipPath, items, i, i, missed, more, p);
    assert InItems(clipPath, items, p);
    ItemsApart(clipPath, path, items, p);
    assert SameAt(s, t, p);
    ChildUnder(q, path, items[i].name);
    forall k | 0 <= k < i ensures !Under(path + [items[k].name], q) {
      ChildUnder(q, path, items[k].name);
    }
    assert !InFirst(path, items, i, q) && InFirst(path, items, i + 1, q);
    assert Copies(t, c, d, more, q) <==> p in t && !Covered(more, p);
  }

  lemma BoundedOneMore(s: Entries, clipPath: Path, items: seq<FileInfo>, i: nat)
    requires i < |items|
    ensures AllBounded(s, clipPath, items, i + 1) <==> AllBounded(s, clipPath, items, i) && Bounded(s, clipPath + [items[i].name])
  {
  }

  lemma InOneMore(a: Path, items: seq<FileInfo>, i: nat, q: Path)
    requires i < |items|
    ensures InFirst(a, items, i + 1, q) <==> InFirst(a, items, i, q) || Under(a + [items[i].name], q)
  {
    if InFirst(a, items, i, q) {
      var k :| 0 <= k < i && Under(a + [items[k].name], q);
    }
  }

  lemma LeftOutOneMore(s: Entries, t: Entries, clipPath: Path, items: seq<FileInfo>, i: nat,
                       missed: set<Path>, more: set<Path>, complete: bool)
    requires i < |items| && SameUnder(s, t, clipPath + [items[i].name])
    requires AllLeftOut(s, clipPath, items, i, missed, complete) && LeftOut(t, clipPath + [items[i].name], more, complete)
    ensures AllLeftOut(s, clipPath, items, i + 1, missed + more, complete)
  {
    BoundedSame(s, t, clipPath + [items[i].name]);
    BoundedOneMore(s, clipPath, items, i);
    forall e | e in missed + more ensures e in s && InFirst(clipPath, items, i + 1, e) {
      InOneMore(clipPath, items, i, e);
      if e in more {
        assert SameAt(s, t, e);
      }
    }
    EmptySum(missed, more);
  }

  lemma EmptySum(a: set<Path>, b: set<Path>)
    ensures a + b == {} <==> a == {} && b == {}
  {
    if a + b == {} {
      assert a <= a + b && b <= a + b;
    }
  }

  /** What lies under a clipboard entry is as it was. */
  lemma ItemIntact(s: Entries, t: Entries, clipPath: Path, path: Path, items: seq<FileInfo>, i: nat)
    requires i < |items| && AllApart(clipPath, path, items) && OnlyUnderItems(s, t, path, items)
    ensures SameUnder(s, t, clipPath + [items[i].name])
  {
    SourcesIntact(s, t, clipPath, path, items);
    forall p | Under(clipPath + [items[i].name], p) ensures SameAt(s, t, p) {
      assert InItems(clipPath, items, p);
    }
  }

  /** Copying one more entry of the clipboard. */
  lemma CopiedNext(s: Entries, t: Entries, u: Entries, clipPath: Path, path: Path, items: seq<FileInfo>, i: nat,
                   missed: set<Path>, more: set<Path>, complete: bool)
    requires i < |items| && AllApart(clipPath, path, items) && CopiedSoFar(s, t, clipPath, path, items, i, missed, complete)
    requires OnlyUnder(t, u, path + [items[i].name])
    requires !Current(t, clipPath, items[i]) && items[i].isFolder ==> clipPath + [items[i].name] in more
    requires Current(t, clipPath, items[i]) || !items[i].isFolder ==>
      && Pasted(t, u, clipPath + [items[i].name], path + [items[i].name], more)
      && Shallow(t, clipPath + [items[i].name], more, MAX_RECURSE - 1)
      && LeftOut(t, clipPath + [items[i].name], more, complete)
    ensures CopiedSoFar(s, u, clipPath, path, items, i + 1, missed + more, complete)
  {
    OnlyUnderItem(s, t, u, path, items, i);
    CopiedOneMore(s, t, u, clipPath, path, items, i, missed, more);
    if AllCurrent(s, clipPath, items, 0) {
      var c := clipPath + [items[i].name];
      ItemIntact(s, t, clipPath, path, items, i);
      assert Under(c, c) && SameAt(s, t, c);
      PastedOneMore(s, t, u, clipPath, path, items, i, missed, more);
      LeftOutOneMore(s, t, clipPath, items, i, missed, more, complete);
    }
  }

  lemma CoveredMore(missed: set<Path>, more: set<Path>, p: Path)
    requires !Covered(missed + more, p)
    ensures !Covered(missed, p) && !Covered(more, p)
  {
  }

  /** Deleting the originals leaves the copies. */
  lemma CopiesIntact(s: Entries, t: Entries, u: Entries, clipPath: Path, path: Path, items: seq<FileInfo>, missed: set<Path>)
    requires AllApart(clipPath, path, items) && AllCopied(s, t, clipPath, path, items, |items|, missed)
    requires OnlyUnderItems(t, u, clipPath, items)
    ensures AllCopied(s, u, clipPath, path, items, |items|, missed)
  {
    forall i, p | 0 <= i < |items| && p in s && Under(clipPath + [items[i].name], p) && Under(clipPath, p) && !Covered(missed, p)
      ensures |p| < |clipPath| + MAX_RECURSE && Moved(p, clipPath, path) in u && u[Moved(p, clipPath, path)] == s[p]
    {
      var q := Moved(p, clipPath, path);
      MovedChild(p, clipPath, path, items[i].name);
      MovedUnder(p, clipPath + [items[i].name], path + [items[i].name]);
      if InItems(clipPath, items, q) {
        ItemsApart(clipPath, path, items, q);
        assert false;
      }
      assert SameAt(t, u, q);
    }
  }

  /** What a paste has done when the originals have been deleted, or left alone. */
  lemma PasteDone(s: Entries, t: Entries, u: Entries, clipPath: Path, path: Path, items: seq<FileInfo>, missed: set<Path>,
                  complete: bool)
    requires AllApart(clipPath, path, items) && CopiedSoFar(s, t, clipPath, path, items, |items|, missed, complete)
    requires OnlyUnderItems(t, u, clipPath, items)
    ensures AllCopied(s, u, clipPath, path, items, |items|, missed)
    ensures AllCurrent(s, clipPath, items, 0) ==> PastedAside(s, u, clipPath, path, items, missed)
    ensures forall q :: !InItems(clipPath, items, q) && !InItems(path, items, q) ==> SameAt(s, u, q)
  {
    CopiesIntact(s, t, u, clipPath, path, items, missed);
    forall q | !InItems(clipPath, items, q) ensures SameAt(t, u, q) && (!InItems(path, items, q) ==> SameAt(s, t, q)) {
    }
    if AllCurrent(s, clipPath, items, 0) {
      forall q | !InItems(clipPath, items, q) ensures PastedAt(s, u, clipPath, path, items, |items|, missed, q) {
        assert PastedAt(s, t, clipPath, path, items, |items|, missed, q) && SameAt(t, u, q);
      }
    }
  }

  /** Each entry under a pasted item is still where it was or is, unchanged, where it went. */
  ghost predicate Preserved(s: Entries, t: Entries, clipPath: Path, path: Path, items: seq<FileInfo>) {
    forall i, p :: 0 <= i < |items| && p in s && Under(clipPath + [items[i].name], p) && Under(clipPath, p) ==>
      (p in t && t[p] == s[p]) || (Moved(p, clipPath, path) in t && t[Moved(p, clipPath, path)] == s[p])
  }

  /** With complete listings and no folder too large for them, a paste loses nothing, wherever it stops. */
  lemma NothingLost(s: Entries, t: Entries, clipPath: Path, path: Path, items: seq<FileInfo>, copied: bool, missed: set<Path>)
    requires AllBounded(s, clipPath, items, |items|)
    requires copied ==> AllCopied(s, t, clipPath, path, items, |items|, missed)
    requires copied ==> AllLeftOut(s, clipPath, items, |items|, missed, true)
    requires !copied ==> Intact(s, t, clipPath, items)
    ensures Preserved(s, t, clipPath, path, items)
  {
    forall i, p | 0 <= i < |items| && p in s && Under(clipPath + [items[i].name], p) && Under(clipPath, p)
      ensures (p in t && t[p] == s[p]) || (Moved(p, clipPath, path) in t && t[Moved(p, clipPath, path)] == s[p])
    {
      if copied {
        assert !Covered(missed, p);
      } else {
        assert InItems(clipPath, items, p) && SameAt(s, t, p);
      }
    }
  }

  /** After a cut has deleted the originals, an entry has survived exactly if no listing left it out, or its like
      stood at the destination already. */
  lemma LostExactly(s: Entries, t: Entries, clipPath: Path, path: Path, items: seq<FileInfo>, missed: set<Path>, i: nat, p: Path)
    requires AllApart(clipPath, path, items) && PastedAside(s, t, clipPath, path, items, missed)
    requires i < |items| && Gone(t, clipPath + [items[i].name]) && p in s && Under(clipPath + [items[i].name], p)
    ensures p !in t && Under(clipPath, p)
    ensures var q := Moved(p, clipPath, path);
      (q in t && t[q] == s[p]) <==> !Covered(missed, p) || (q in s && s[q] == s[p])
  {
    var c, d := clipPath + [items[i].name], path + [items[i].name];
    MovedChild(p, clipPath, path, items[i].name);
    MovedUnder(p, c, d);
    var q := Moved(p, clipPath, path);
    assert Under(c, p) && Under(d, q) && InItems(path, items, q) && InFirst(path, items, |items|, q);
    MovedUnder(p, clipPath, path);
    if InItems(clipPath, items, q) {
      ItemsApart(clipPath, path, items, q);
      assert false;
    }
    assert PastedAt(s, t, clipPath, path, items, |items|, missed, q);
  }

  /** How far deleting the clipboard's entries has got. */
  ghost predicate Removing(s: Entries, t: Entries, clipPath: Path, items: seq<FileInfo>, i: nat) {
    && (forall k :: 0 <= k < i && k < |items| ==> Removed(s, t, clipPath, items[k]))
    && (forall k :: i <= k < |items| ==> SameUnder(s, t, clipPath + [items[k].name]))
  }

  /** The entry is gone; it was what the clipboard says, and not too large to be listed. */
  ghost predicate Removed(s: Entries, t: Entries, clipPath: Path, item: FileInfo) {
    Gone(t, clipPath + [item.name]) && Current(s, clipPath, item) && Bounded(s, clipPath + [item.name])
  }

  lemma RemovingItem(s: Entries, t: Entries, clipPath: Path, items: seq<FileInfo>, i: nat)
    requires i < |items| && Removing(s, t, clipPath, items, i)
    ensures Current(s, clipPath, items[i]) <==> Current(t, clipPath, items[i])
    ensures Bounded(s, clipPath + [items[i].name]) <==> Bounded(t, clipPath + [items[i].name])
  {
    var c := clipPath + [items[i].name];
    assert Under(c, c) && SameAt(s, t, c);
    BoundedSame(s, t, c);
  }

  lemma StillRemoved(s: Entries, t: Entries, u: Entries, clipPath: Path, item: FileInfo)
    requires Removed(s, t, clipPath, item) && Kept(t, u)
    ensures Removed(s, u, clipPath, item)
  {
  }

  lemma RemovingNext(s: Entries, t: Entries, u: Entries, clipPath: Path, items: seq<FileInfo>, i: nat)
    requires i < |items| && Removing(s, t, clipPath, items, i) && Kept(t, u) && UniqueNames(items)
    requires OnlyUnder(t, u, clipPath + [items[i].name]) && Gone(u, clipPath + [items[i].name])
    requires Current(t, clipPath, items[i]) && Bounded(t, clipPath + [items[i].name])
    ensures Removing(s, u, clipPath, items, i + 1)
  {
    forall k | 0 <= k <= i ensures Removed(s, u, clipPath, items[k]) {
      if k < i {
        StillRemoved(s, t, u, clipPath, items[k]);
      } else {
        RemovingItem(s, t, clipPath, items, i);
      }
    }
    forall k | i < k < |items| ensures SameUnder(s, u, clipPath + [items[k].name]) {
      OtherSame(s, t, u, clipPath, items[i].name, items[k].name);
    }
  }

  // ----- when a paste is bound to succeed -----

  /** The file is there and is what the caller takes it for. */
  ghost predicate Current(s: Entries, path: Path, file: FileInfo) {
    path + [file.name] in s && (file.isFolder <==> s[path + [file.name]] == Folder)
  }

  ghost predicate AllCurrent(s: Entries, path: Path, items: seq<FileInfo>, i: nat) {
    forall k :: i <= k < |items| ==> Current(s, path, items[k])
  }

  /** How far the emptying of a folder has got: the listed files before i are gone, and were not too large
      to be listed; everything else is as it was. */
  ghost predicate Emptying(s: Entries, t: Entries, target: Path, files: seq<FileInfo>, i: nat) {
    && (forall k :: 0 <= k < i && k < |files| ==> Gone(t, target + [files[k].name]) && Bounded(s, target + [files[k].name]))
    && (forall k :: i <= k < |files| ==> Current(s, target, files[k]) && SameUnder(s, t, target + [files[k].name]))
    && (forall q :: q in Children(s, target) && !Listed(files, q[|target|]) ==> q in t)
    && SameAt(s, t, target) && UniqueNames(files)
  }

  lemma StartEmptying(s: Entries, target: Path, files: seq<FileInfo>)
    requires UniqueNames(files) && forall k :: 0 <= k < |files| ==> Current(s, target, files[k])
    ensures Emptying(s, s, target, files, 0)
  {
  }

  lemma EmptyingNext(s: Entries, t: Entries, u: Entries, target: Path, files: seq<FileInfo>, i: nat)
    requires i < |files| && Emptying(s, t, target, files, i) && Kept(t, u)
    requires OnlyUnder(t, u, target + [files[i].name]) && Gone(u, target + [files[i].name]) && Bounded(t, target + [files[i].name])
    ensures Emptying(s, u, target, files, i + 1)
  {
    BoundedSame(s, t, target + [files[i].name]);
    forall k | i < k < |files| ensures SameUnder(s, u, target + [files[k].name]) {
      OtherSame(s, t, u, target, files[i].name, files[k].name);
    }
    forall q | q in Children(s, target) && !Listed(files, q[|target|]) ensures q in u {
      ChildUnder(q, target, files[i].name);
      assert SameAt(t, u, q);
    }
    assert SameAt(t, u, target);
  }

  /** What Delete needs to know of the next listed file. */
  lemma EmptyingChild(s: Entries, t: Entries, target: Path, files: seq<FileInfo>, i: nat)
    requires i < |files| && Emptying(s, t, target, files, i)
    ensures target + [files[i].name] in s && Current(t, target, files[i])
    ensures Bounded(s, target) ==> Bounded(t, target + [files[i].name])
  {
    var c := target + [files[i].name];
    assert Under(c, c) && Under(target, c) && SameAt(s, t, c);
    if Bounded(s, target) {
      BoundedChild(s, target, c);
      BoundedSame(s, t, c);
    }
  }

  /** A folder all of whose children are gone holds nothing any more. */
  lemma Emptied(s: Entries, t: Entries, target: Path, files: seq<FileInfo>)
    requires IsTree(s) && Kept(s, t) && |target| > 0 && Emptying(s, t, target, files, |files|)
    requires AllListed(s, target, files)
    ensures forall q :: q in t && Under(target, q) ==> q == target
  {
    forall q | q in s && Under(target, q) && q != target ensures q !in t {
      var k := ListedAbove(s, target, files, q);
      assert Gone(t, target + [files[k].name]);
    }
  }

  /** If a folder is empty now, its listing was complete. */
  lemma NothingUnlisted(s: Entries, t: Entries, target: Path, files: seq<FileInfo>)
    requires IsTree(s) && |target| > 0 && |files| <= ListLimit(target) && Emptying(s, t, target, files, |files|)
    requires IsFolder(t, target) && Gone(t - {target}, target)
    ensures IsFolder(s, target) && Bounded(s, target)
  {
    forall q | q in Children(s, target) ensures Listed(files, q[|target|]) {
      assert q !in t - {target} && q != target;
    }
    BoundedFolder(s, target, files);
  }

  /** Every clipboard entry from i on is there, not too deep, and fits its destination. */
  ghost predicate AllTransferable(s: Entries, clipPath: Path, path: Path, items: seq<FileInfo>, i: nat, complete: bool) {
    forall k :: i <= k < |items| ==>
      Transferable(s, clipPath + [items[k].name], path + [items[k].name], items[k].isFolder, MAX_RECURSE - 1, complete)
  }

  lemma StillTransferable(s: Entries, t: Entries, clipPath: Path, path: Path, items: seq<FileInfo>, i: nat, complete: bool)
    requires i < |items| && AllApart(clipPath, path, items) && OnlyUnder(s, t, path + [items[i].name])
    requires AllTransferable(s, clipPath, path, items, i, complete)
    ensures AllTransferable(t, clipPath, path, items, i + 1, complete)
  {
    forall k | i < k < |items|
      ensures Transferable(t, clipPath + [items[k].name], path + [items[k].name], items[k].isFolder, MAX_RECURSE - 1, complete)
    {
      var c, d := clipPath + [items[k].name], path + [items[k].name];
      AllUntouched(s, t, path + [items[i].name], c);
      assert Under(c, c);
      TargetStays(s, t, path, items[i].name, items[k].name);
      FitsSame(s, t, c, d, complete);
    }
  }

  lemma TargetStays(s: Entries, t: Entries, path: Path, done: string, name: string)
    requires done != name && OnlyUnder(s, t, path + [done]) && Reachable(s, path + [name])
    ensures SameUnder(s, t, path + [name]) && Reachable(t, path + [name])
  {
    OtherSame(s, s, t, path, done, name);
    var d := path + [name];
    forall k | 0 < k < |d| ensures d[..k] in t && t[d[..k]] == Folder {
      assert SameAt(s, t, d[..k]);
    }
  }

  /** Listings are complete, and the clipboard's entries are what it says and not too large for them. */
  ghost predicate FullyListed(s: Entries, cuts: seq<nat>, clipPath: Path, items: seq<FileInfo>) {
    cuts == [] && AllCurrent(s, clipPath, items, 0) && AllBounded(s, clipPath, items, |items|)
  }

  /** The clipboard holds one folder, and the next listing, but none later, shows nothing. */
  ghost predicate BlindOnce(s: Entries, cuts: seq<nat>, clipPath: Path, items: seq<FileInfo>) {
    && cuts == [0] && |items| == 1 && items[0].isFolder && IsFolder(s, clipPath + [items[0].name])
    && AllBounded(s, clipPath, items, 1)
  }

  lemma ItemsIntact(s: Entries, t: Entries, clipPath: Path, items: seq<FileInfo>)
    requires Intact(s, t, clipPath, items)
    ensures AllCurrent(s, clipPath, items, 0) <==> AllCurrent(t, clipPath, items, 0)
    ensures AllBounded(s, clipPath, items, |items|) <==> AllBounded(t, clipPath, items, |items|)
  {
    forall k | 0 <= k < |items|
      ensures Current(s, clipPath, items[k]) <==> Current(t, clipPath, items[k])
      ensures Bounded(s, clipPath + [items[k].name]) <==> Bounded(t, clipPath + [items[k].name])
    {
      var c := clipPath + [items[k].name];
      forall p | Under(c, p) ensures SameAt(s, t, p) {
        assert InItems(clipPath, items, p);
      }
      assert Under(c, c) && SameAt(s, t, c);
      BoundedSame(s, t, c);
    }
  }

  /** A folder copied with all of its children left out arrives empty. */
  lemma UnreadIsLost(s: Entries, t: Entries, path: Path, clipPath: Path, folder: FileInfo, missed: set<Path>)
    requires AllApart(clipPath, path, [folder]) && AllTransferable(s, clipPath, path, [folder], 0, false) && folder.isFolder
    requires IsTree(s) && PastedAside(s, t, clipPath, path, [folder], missed) && missed == Children(s, clipPath + [folder.name])
    ensures IsFolder(t, path + [folder.name])
    ensures forall q :: Under(path + [folder.name], q) && q != path + [folder.name] ==> q !in t
  {
    var items, c, d := [folder], clipPath + [folder.name], path + [folder.name];
    assert items[0] == folder;
    NewFolderGone(s, c, d);
    forall q | Under(d, q) ensures q != d ==> q !in t ensures q == d ==> q in t && t[q] == Folder {
      assert InItems(path, items, q);
      if InItems(clipPath, items, q) {
        ItemsApart(clipPath, path, items, q);
        assert false;
      }
      assert PastedAt(s, t, clipPath, path, items, 1, missed, q) && q !in s;
      MovedChild(q, path, clipPath, folder.name);
      UnreadAt(s, clipPath, path, folder.name, missed, q);
      assert Under(path + [items[0].name], q) && InFirst(path, items, 1, q);
    }
    assert Under(d, d);
  }

  lemma NewFolderGone(s: Entries, source: Path, target: Path)
    requires IsTree(s) && IsFolder(s, source) && Fits(s, source, target, false) && |target| > 0
    ensures Gone(s, target)
  {
    assert Moved(source, source, target) == target && Under(source, source);
    assert FitsAt(s, source, target, false);
    forall q | Under(target, q) ensures q !in s {
      assert q[..|target|] == target;
      if |q| == |target| { assert q == target; }
    }
  }

  lemma UnreadAt(s: Entries, clipPath: Path, path: Path, name: string, missed: set<Path>, q: Path)
    requires IsTree(s) && Under(path + [name], q) && missed == Children(s, clipPath + [name])
    ensures Under(path, q)
    ensures var p := Moved(q, path, clipPath);
      if q == path + [name] then p == clipPath + [name] && !Covered(missed, p) else p in s ==> Covered(missed, p)
  {
    var a, p := clipPath + [name], q;
    MovedChild(q, path, clipPath, name);
    p := Moved(q, path, clipPath);
    MovedUnder(q, path + [name], a);
    if q != path + [name] && p in s {
      var c := p[..|a| + 1];
      assert c[..|a|] == a && (|c| < |p| ==> c in s) && (|c| == |p| ==> c == p);
      assert c in Children(s, a) && Under(c, p);
    }
  }

  lemma TransferableIsCurrent(s: Entries, t: Entries, clipPath: Path, path: Path, items: seq<FileInfo>, complete: bool)
    requires AllTransferable(s, clipPath, path, items, 0, complete) && Intact(s, t, clipPath, items)
    ensures AllCurrent(t, clipPath, items, 0)
  {
    forall k | 0 <= k < |items| ensures Current(t, clipPath, items[k]) {
      assert Under(clipPath + [items[k].name], clipPath + [items[k].name]);
      assert InItems(clipPath, items, clipPath + [items[k].name]);
      assert SameAt(s, t, clipPath + [items[k].name]);
    }
  }

  // ----- the devices -----

  class Storage {
    var entries: Entries
    /** Where the coming listings break off: each shows at most so many entries. Those behind are complete. */
    var cuts: seq<nat>
    /** Devices that carry out everything they can, and a user who agrees. */
    const reliable: bool

    constructor (entries: Entries, cuts: seq<nat>, reliable: bool)
      requires IsTree(entries)
      ensures Valid() && this.entries == entries && this.cuts == cuts && this.reliable == reliable
    {
      this.entries, this.cuts, this.reliable := entries, cuts, reliable;
    }

    ghost predicate Valid()
      reads this
    {
      IsTree(entries)
    }

    /** Removing a file may fail; a folder is never removed this way. */
    method Remove(p: Path) returns (ok: bool)
      requires Valid()
      modifies `entries
      ensures Valid() && OnlyUnder(old(entries), entries, p)
      ensures if ok then p in old(entries) && old(entries)[p].File? && entries == old(entries) - {p} else entries == old(entries)
      ensures reliable && p in old(entries) && old(entries)[p].File? ==> ok
    {
      ok := *;
      ok := ok || reliable;
      if p !in entries || entries[p] == Folder {
        ok := false;
      }
      if ok {
        entries := entries - {p};
      }
    }

    /** Opening for writing leaves an empty file, if the device lets it. */
    method Create(p: Path) returns (ok: bool)
      requires Valid()
      modifies `entries
      ensures Valid() && OnlyUnder(old(entries), entries, p)
      ensures ok ==> Reachable(old(entries), p) && entries == old(entries)[p := File([])] && !IsFolder(old(entries), p)
      ensures !ok ==> entries == old(entries)
      ensures reliable && Reachable(old(entries), p) && !IsFolder(old(entries), p) ==> ok
    {
      ok := *;
      ok := ok || reliable;
      if !Accepts(p) || (p in entries && entries[p] == Folder) {
        ok := false;
      }
      if ok {
        entries := entries[p := File([])];
      }
    }

    predicate Accepts(p: Path)
      reads this
    {
      Reachable(entries, p)
    }

    method MakeFolder(p: Path) returns (ret: int)
      requires Valid()
      modifies `entries
      ensures Valid()
      ensures ret >= 0 ==> |p| > 0 && p !in old(entries) && entries == old(entries)[p := Folder]
      ensures ret < 0 ==> entries == old(entries)
      ensures ret == -17 <==> IsFolder(old(entries), p)
      ensures reliable && Reachable(old(entries), p) && p !in old(entries) ==> ret == 0
    {
      var ok: bool := *;
      ok := ok || reliable;
      if p in entries {
        return if entries[p] == Folder then -17 else -1;
      }
      if !ok || !Accepts(p) {
        return -1;
      }
      entries := entries[p := Folder];
      return 0;
    }

    method RemoveFolder(p: Path) returns (ok: bool)
      requires Valid()
      modifies `entries
      ensures Valid() && OnlyUnder(old(entries), entries, p)
      ensures ok ==> IsFolder(old(entries), p) && entries == old(entries) - {p} && Gone(entries, p)
      ensures !ok ==> entries == old(entries)
      ensures reliable && IsFolder(old(entries), p) && (forall q :: q in old(entries) && Under(p, q) ==> q == p) ==> ok
    {
      ok := *;
      ok := ok || reliable;
      if ok && p in entries && entries[p] == Folder && (forall q :: q in entries && Under(p, q) ==> q == p) {
        entries := entries - {p};
      } else {
        ok := false;
      }
    }

    /** A listing names entries of the folder, each once, in any order: all of them, or as many as it can show. */
    method List(p: Path) returns (files: seq<FileInfo>)
      requires Valid()
      modifies `cuts
      ensures cuts == Later(old(cuts))
      ensures forall i :: 0 <= i < |files| ==> Current(entries, p, files[i])
      ensures UniqueNames(files) && |files| <= Shown(old(cuts), p)
      ensures |files| < Shown(old(cuts), p) ==> AllListed(entries, p, files)
    {
      files := [];
      var most, rest := Shown(cuts, p), entries.Keys;
      cuts := Later(cuts);
      while rest != {} && |files| < most
        invariant rest <= entries.Keys && |files| <= most
        invariant forall i :: 0 <= i < |files| ==> Current(entries, p, files[i]) && p + [files[i].name] !in rest
        invariant UniqueNames(files)
        invariant forall q :: q in Children(entries, p) && q !in rest ==> Listed(files, q[|p|])
        decreases rest
      {
        var q :| q in rest;
        rest := rest - {q};
        if |q| == |p| + 1 && Under(p, q) {
          assert q == p + [q[|p|]];
          ghost var listed := files;
          files := files + [FileInfo(q[|p|], entries[q] == Folder)];
          assert files[|listed|].name == q[|p|];
          forall r | r in Children(entries, p) && r !in rest && r != q ensures Listed(files, r[|p|]) {
            var i :| 0 <= i < |listed| && listed[i].name == r[|p|];
            assert files[i].name == r[|p|];
          }
        }
      }
    }

    /** At most so many bytes from a position of a file. */
    method Read(p: Path, position: nat, count: nat) returns (data: seq<Byte>)
      requires p in entries && entries[p].File? && position + count <= |entries[p].data|
      ensures data <= entries[p].data[position..position + count] && (reliable ==> |data| == count)
    {
      var n :| 0 <= n <= count;
      if reliable {
        n := count;
      }
      data := entries[p].data[position..position + n];
    }

    /** Appends to a file, perhaps only the first part of the data. */
    method Write(p: Path, data: seq<Byte>) returns (written: nat)
      requires Valid() && p in entries && entries[p].File?
      modifies `entries
      ensures Valid() && written <= |data| && entries == old(entries)[p := File(old(entries)[p].data + data[..written])]
      ensures reliable ==> written == |data|
    {
      written :| 0 <= written <= |data|;
      if reliable {
        written := |data|;
      }
      entries := entries[p := File(entries[p].data + data[..written])];
    }

    // ----- one file -----

    /** Copies a file's bytes in chunks. The user may stop it; a partial copy is then removed, if it can be. */
    method CopyChunks(source: Path, target: Path, block: nat) returns (ok: bool)
      requires Valid() && block > 0 && source != target
      requires source in entries && entries[source].File? && target in entries && entries[target] == File([])
      modifies `entries
      ensures Valid()
      ensures ok ==> entries == old(entries)[target := old(entries)[source]]
      ensures !ok ==> OnlyUnder(old(entries), entries, target) && !reliable
    {
      ghost var was := entries;
      var data := entries[source].data;
      var size := |data|;
      var buffSize := if size < block then size else block;
      assert was[target := File(data[..0])] == was;
      while size > 0
        invariant 0 <= size <= |data| && (size > 0 ==> buffSize > 0)
        invariant Valid() && entries == was[target := File(data[..|data| - size])]
      {
        if size < buffSize {
          buffSize := size;
        }
        var stop: bool := *;
        if stop && !reliable {
          var removed := Remove(target);
          return false;
        }
        var chunk := Read(source, |data| - size, buffSize);
        var written := 0;
        if |chunk| == buffSize {
          written := Write(target, chunk);
        }
        if |chunk| != buffSize || written != buffSize {
          var removed := Remove(target);
          return false;
        }
        ghost var done := |data| - size;
        assert chunk == data[done..done + buffSize] && chunk[..buffSize] == chunk;
        assert data[..done] + chunk == data[..done + buffSize];
        size := size - buffSize;
      }
      assert data[..|data|] == data;
      return true;
    }

    /** Copies a file over whatever file is at the target. */
    method CopyFile(source: Path, target: Path, block: nat) returns (ret: int)
      requires Valid() && block > 0 && source != target && |source| > 0
      modifies `entries
      ensures Valid() && OnlyUnder(old(entries), entries, target)
      ensures ret >= 0 ==> Pasted(old(entries), entries, source, target, {}) && Shallow(old(entries), source, {}, 1)
      ensures reliable ==>
                (ret >= 0 <==> source in old(entries) && old(entries)[source].File?
                               && Reachable(old(entries), target) && !IsFolder(old(entries), target))
    {
      var readable: bool := *;
      if (!readable && !reliable) || source !in entries || entries[source] == Folder {
        return -1;
      }
      var removed := Remove(target);
      var created := Create(target);
      if !created {
        return -1;
      }
      var ok := CopyChunks(source, target, block);
      if !ok {
        return -1;
      }
      PasteFile(old(entries), entries, source, target);
      FileAlone(old(entries), source);
      var closed: bool := *;
      return if closed || reliable then 0 else -1;
    }

    // ----- folders -----

    /** Copies one entry, a folder with everything a listing shows of it, to just below another folder.
        What the listings left out is reported; on success the rest is there byte for byte and nothing
        else has changed. What the caller calls a folder may no longer be one. */
    method Copy(outPath: Path, inPath: Path, file: FileInfo, recurses: nat, block: nat) returns (ret: int, ghost missed: set<Path>)
      requires Valid() && block > 0
      requires inPath == outPath || Apart(inPath + [file.name], outPath + [file.name])
      modifies `entries, `cuts
      ensures Valid() && |cuts| <= |old(cuts)|
      ensures inPath == outPath ==> entries == old(entries)
      ensures inPath != outPath ==> OnlyUnder(old(entries), entries, outPath + [file.name])
      ensures ret >= 0 && inPath != outPath && (file.isFolder ==> IsFolder(old(entries), inPath + [file.name])) ==>
        && Pasted(old(entries), entries, inPath + [file.name], outPath + [file.name], missed)
        && Shallow(old(entries), inPath + [file.name], missed, MAX_RECURSE - 1 - recurses)
        && LeftOut(old(entries), inPath + [file.name], missed, old(cuts) == [])
      ensures ret >= 0 && inPath != outPath && file.isFolder ==>
        |cuts| <= |Later(old(cuts))| && (NextUnread(old(cuts)) ==> missed == Children(old(entries), inPath + [file.name]))
      ensures reliable && inPath != outPath ==>
        Transferable(old(entries), inPath + [file.name], outPath + [file.name], file.isFolder, MAX_RECURSE - 1 - recurses,
                     old(cuts) == []) ==>
          ret >= 0
      decreases MAX_RECURSE - recurses, 4
    {
      missed := {};
      var ready: bool := *;
      if recurses + 1 >= MAX_RECURSE || !(ready || reliable) {
        return -1, missed;
      }
      if inPath == outPath {
        return 0, missed;
      }
      if !file.isFolder {
        assert Under(inPath + [file.name], inPath + [file.name]);
        assert Moved(inPath + [file.name], inPath + [file.name], outPath + [file.name]) == outPath + [file.name];
        ret := CopyFile(inPath + [file.name], outPath + [file.name], block);
        return;
      }
      ret, missed := CopyFolder(outPath + [file.name], inPath + [file.name], recurses, block);
    }

    method CopyFolder(target: Path, source: Path, recurses: nat, block: nat) returns (ret: int, ghost missed: set<Path>)
      requires Valid() && block > 0 && |source| > 0 && Apart(source, target) && recurses + 1 < MAX_RECURSE
      modifies `entries, `cuts
      ensures Valid() && OnlyUnder(old(entries), entries, target) && |cuts| <= |old(cuts)|
      ensures ret >= 0 && IsFolder(old(entries), source) ==>
        && Pasted(old(entries), entries, source, target, missed)
        && Shallow(old(entries), source, missed, MAX_RECURSE - 1 - recurses)
        && LeftOut(old(entries), source, missed, old(cuts) == [])
      ensures ret >= 0 ==> |cuts| <= |Later(old(cuts))| && (NextUnread(old(cuts)) ==> missed == Children(old(entries), source))
      ensures reliable && Transferable(old(entries), source, target, true, MAX_RECURSE - 1 - recurses, old(cuts) == []) ==> ret >= 0
      decreases MAX_RECURSE - recurses, 3
    {
      missed := {};
      ghost var live := reliable && Transferable(entries, source, target, true, MAX_RECURSE - 1 - recurses, cuts == []);
      if live {
        FolderMade(entries, source, target, MAX_RECURSE - 1 - recurses, cuts == []);
      }
      ret := MakeFolder(target);
      if ret == -17 {
        var accepted: bool := *;
        if !accepted && !reliable {
          return -1, missed;
        }
        var title: bool := *;
        ret := if title then 0 else -1;
      } else if ret < 0 {
        return -1, missed;
      }
      assert entries == old(entries)[target := Folder];
      if IsFolder(old(entries), source) {
        PasteFolder(old(entries), entries, source, target);
      }
      ret, missed := CopyContents(target, source, ret, recurses, block, old(entries));
    }

    /** Copies a folder's contents into the folder made for them. */
    method CopyContents(target: Path, source: Path, made: int, recurses: nat, block: nat, ghost s: Entries)
      returns (ret: int, ghost missed: set<Path>)
      requires Valid() && block > 0 && |source| > 0 && Apart(source, target) && recurses + 1 < MAX_RECURSE
      requires OnlyUnder(s, entries, target)
      requires IsTree(s) && (IsFolder(s, source) ==> Pasted(s, entries, source, target, Children(s, source)))
      modifies `entries, `cuts
      ensures Valid() && OnlyUnder(s, entries, target) && |cuts| <= |Later(old(cuts))|
      ensures ret >= 0 && IsFolder(s, source) ==>
        && Pasted(s, entries, source, target, missed)
        && Shallow(s, source, missed, MAX_RECURSE - 1 - recurses)
        && LeftOut(s, source, missed, old(cuts) == [])
      ensures ret >= 0 && NextUnread(old(cuts)) ==> missed == Children(s, source)
      ensures reliable && Clear(s, old(entries), source, target, MAX_RECURSE - 1 - recurses, old(cuts) == []) ==>
                made >= 0 || (old(cuts) == [] && Children(s, source) != {}) ==> ret >= 0
      decreases MAX_RECURSE - recurses, 2
    {
      ghost var full := cuts == [] && IsFolder(s, source) && Bounded(s, source);
      ghost var complete := cuts == [];
      ghost var live := reliable && (made >= 0 || (complete && Children(s, source) != {}))
                        && Clear(s, entries, source, target, MAX_RECURSE - 1 - recurses, complete);
      var files := List(source);
      StartContents(s, entries, target, source, files, MAX_RECURSE - 1 - recurses, full, live, complete);
      if live && made < 0 {
        SomeListed(s, entries, target, source, files);
      }
      InSource(s, source, files, Children(s, source));
      ret, missed := CopyListed(target, source, files, made, recurses, block, s, full, complete);
      if ret >= 0 {
        TrackedAll(s, source, files, missed, full);
      }
    }

    /** Copies the listed files one after the other, up to the first failure. */
    method CopyListed(target: Path, source: Path, files: seq<FileInfo>, made: int, recurses: nat, block: nat,
                      ghost s: Entries, ghost full: bool, ghost complete: bool) returns (ret: int, ghost missed: set<Path>)
      requires Valid() && block > 0 && Apart(source, target) && recurses + 1 < MAX_RECURSE
      requires UniqueNames(files) && (full ==> cuts == [] && Bounded(s, source)) && (complete ==> cuts == [])
      requires Copying(s, entries, source, target, files, 0, Children(s, source), MAX_RECURSE - 1 - recurses)
      requires Tracked(s, source, files, 0, Children(s, source), full)
      modifies `entries, `cuts
      ensures Valid() && OnlyUnder(s, entries, target) && |cuts| <= |old(cuts)|
      ensures ret >= 0 ==> (IsFolder(s, source) ==> Pasted(s, entries, source, target, missed))
      ensures ret >= 0 ==> Shallow(s, source, missed, MAX_RECURSE - 1 - recurses) && forall e :: e in missed ==> Under(source, e)
      ensures ret >= 0 ==> Tracked(s, source, files, |files|, missed, full)
      ensures reliable && Hopeful(s, old(entries), source, target, files, 0, MAX_RECURSE - 1 - recurses, complete) ==>
                made >= 0 || files != [] ==> ret >= 0
      decreases MAX_RECURSE - recurses, 1
    {
      ghost var depth := MAX_RECURSE - 1 - recurses;
      ghost var live := reliable && (made >= 0 || files != []) && Hopeful(s, entries, source, target, files, 0, depth, complete);
      ret, missed := made, Children(s, source);
      var i := 0;
      while i < |files|
        invariant 0 <= i <= |files| && Valid() && |cuts| <= |old(cuts)|
        invariant Copying(s, entries, source, target, files, i, missed, depth)
        invariant Tracked(s, source, files, i, missed, full)
        invariant live ==> Awaiting(s, entries, target, files, i) && (ret >= 0 || (i == 0 && files != []))
      {
        ret, missed := CopyNext(target, source, files, i, recurses, block, s, missed, full, complete);
        if ret < 0 {
          break;
        }
        i := i + 1;
      }
      ret := if ret < 0 then -1 else 0;
    }

    /** Copies the listed file at i. */
    method CopyNext(target: Path, source: Path, files: seq<FileInfo>, i: nat, recurses: nat, block: nat,
                    ghost s: Entries, ghost missed: set<Path>, ghost full: bool, ghost complete: bool)
      returns (ret: int, ghost left: set<Path>)
      requires Valid() && block > 0 && Apart(source, target) && recurses + 1 < MAX_RECURSE && i < |files| && UniqueNames(files)
      requires Copying(s, entries, source, target, files, i, missed, MAX_RECURSE - 1 - recurses)
      requires Tracked(s, source, files, i, missed, full) && (full ==> cuts == [] && Bounded(s, source)) && (complete ==> cuts == [])
      modifies `entries, `cuts
      ensures Valid() && OnlyUnder(s, entries, target) && |cuts| <= |old(cuts)|
      ensures ret < 0 ==> ret == -1 && left == missed
      ensures ret >= 0 ==> Copying(s, entries, source, target, files, i + 1, left, MAX_RECURSE - 1 - recurses)
      ensures ret >= 0 ==> Tracked(s, source, files, i + 1, left, full)
      ensures Hopeful(s, old(entries), source, target, files, i, MAX_RECURSE - 1 - recurses, complete) && reliable ==>
        ret >= 0 && Awaiting(s, entries, target, files, i + 1)
      decreases MAX_RECURSE - recurses, 0
    {
      ghost var before, depth, shown := entries, MAX_RECURSE - 1 - recurses, cuts == [];
      ghost var hopeful := Hopeful(s, before, source, target, files, i, depth, complete);
      ChildrenApart(source, target, files[i].name, files[i].name);
      PendingUntouched(s, entries, target, source, missed, files[i]);
      if hopeful {
        ChildTransferable(s, before, target, source, missed, files, i, depth, complete);
        FitsMore(before, source + [files[i].name], target + [files[i].name], complete, shown);
      }
      ghost var more;
      ret, more := Copy(target, source, files[i], recurses + 1, block);
      OnlyUnderChild(s, before, entries, target, files[i].name);
      if ret < 0 {
        return -1, missed;
      }
      left := missed - {source + [files[i].name]} + more;
      CopyingStep(s, before, entries, source, target, files, i, missed, more, depth);
      TrackedStep(s, before, target, source, files, i, missed, more, full, shown);
      if hopeful {
        AwaitingNext(s, before, entries, target, files, i);
      }
    }

    // ----- deleting -----

    /** Deletes a file, or a folder after everything a listing shows of it. Success means all of it is gone, and
        that no folder in it was too large to be listed. */
    method Delete(path: Path, file: FileInfo) returns (ret: int)
      requires Valid()
      modifies `entries, `cuts
      ensures Valid() && OnlyUnder(old(entries), entries, path + [file.name]) && Kept(old(entries), entries)
      ensures |cuts| <= |old(cuts)|
      ensures ret >= 0 ==>
        Gone(entries, path + [file.name]) && Current(old(entries), path, file) && Bounded(old(entries), path + [file.name])
      ensures reliable && old(cuts) == [] && Current(old(entries), path, file) && Bounded(old(entries), path + [file.name]) ==>
        ret >= 0
      decreases |EntriesUnder(entries, path + [file.name])|, 1
    {
      var target := path + [file.name];
      var ready: bool := *;
      if !ready && !reliable {
        return -1;
      }
      if file.isFolder {
        ret := DeleteFolder(target);
      } else {
        FileAlone(entries, target);
        if target in entries && entries[target].File? {
          BoundedFile(entries, target);
        }
        var ok := Remove(target);
        ret := if ok then 0 else -1;
      }
    }

    method DeleteFolder(target: Path) returns (ret: int)
      requires Valid() && |target| > 0
      modifies `entries, `cuts
      ensures Valid() && OnlyUnder(old(entries), entries, target) && Kept(old(entries), entries) && |cuts| <= |old(cuts)|
      ensures ret >= 0 ==> Gone(entries, target) && IsFolder(old(entries), target) && Bounded(old(entries), target)
      ensures reliable && old(cuts) == [] && IsFolder(old(entries), target) && Bounded(old(entries), target) ==> ret >= 0
      decreases |EntriesUnder(entries, target)|, 0
    {
      ghost var s := entries;
      ghost var live := reliable && cuts == [] && IsFolder(s, target) && Bounded(s, target);
      var files := List(target);
      StartEmptying(s, target, files);
      if live {
        ShownAll(s, target, files);
      }
      for i := 0 to |files|
        invariant Valid() && OnlyUnder(s, entries, target) && Kept(s, entries) && |cuts| <= |old(cuts)|
        invariant Emptying(s, entries, target, files, i)
      {
        ghost var t := entries;
        EmptyingChild(s, t, target, files, i);
        FewerUnder(s, t, target, files[i].name);
        ret := Delete(target, files[i]);
        OnlyUnderChild(s, t, entries, target, files[i].name);
        if ret < 0 {
          return -1;
        }
        EmptyingNext(s, t, entries, target, files, i);
      }
      if live {
        Emptied(s, entries, target, files);
      }
      ghost var t := entries;
      var ok := RemoveFolder(target);
      if ok {
        NothingUnlisted(s, t, target, files);
      }
      ret := if ok then 0 else -1;
    }

    // ----- pasting -----

    /** Copies the clipboard's entries one after the other, up to the first failure. */
    method CopyAll(path: Path, clipPath: Path, items: seq<FileInfo>, block: nat) returns (ret: int, ghost missed: set<Path>)
      requires Valid() && block > 0 && path != clipPath && AllApart(clipPath, path, items)
      modifies `entries, `cuts
      ensures Valid() && OnlyUnderItems(old(entries), entries, path, items) && |cuts| <= |old(cuts)|
      ensures ret >= 0 ==> CopiedSoFar(old(entries), entries, clipPath, path, items, |items|, missed, old(cuts) == [])
      ensures reliable && AllTransferable(old(entries), clipPath, path, items, 0, old(cuts) == []) ==> ret >= 0
      ensures ret >= 0 && BlindOnce(old(entries), old(cuts), clipPath, items) ==>
        cuts == [] && missed == Children(old(entries), clipPath + [items[0].name])
    {
      ret, missed := 0, {};
      ghost var s, complete := entries, cuts == [];
      for i := 0 to |items|
        invariant Valid() && CopiedSoFar(s, entries, clipPath, path, items, i, missed, complete)
        invariant |cuts| <= |old(cuts)| && ret >= 0
        invariant reliable && AllTransferable(s, clipPath, path, items, 0, complete) ==>
                    AllTransferable(entries, clipPath, path, items, i, complete)
        invariant i == 0 ==> missed == {} && cuts == old(cuts) && entries == s
        invariant i == 1 && BlindOnce(s, old(cuts), clipPath, items) ==>
          cuts == [] && missed == Children(s, clipPath + [items[0].name])
      {
        ret, missed := CopyItem(path, clipPath, items, i, block, s, missed, complete);
        if ret < 0 {
          return;
        }
      }
    }

    /** Copies the clipboard's entry at i. */
    method CopyItem(path: Path, clipPath: Path, items: seq<FileInfo>, i: nat, block: nat,
                    ghost s: Entries, ghost missed: set<Path>, ghost complete: bool) returns (ret: int, ghost left: set<Path>)
      requires Valid() && block > 0 && path != clipPath && AllApart(clipPath, path, items) && i < |items|
      requires CopiedSoFar(s, entries, clipPath, path, items, i, missed, complete) && (complete ==> cuts == [])
      modifies `entries, `cuts
      ensures Valid() && OnlyUnderItems(s, entries, path, items) && |cuts| <= |old(cuts)|
      ensures ret >= 0 ==> CopiedSoFar(s, entries, clipPath, path, items, i + 1, left, complete)
      ensures reliable && AllTransferable(old(entries), clipPath, path, items, i, complete) ==>
        ret >= 0 && AllTransferable(entries, clipPath, path, items, i + 1, complete)
      ensures ret >= 0 && items[i].isFolder && IsFolder(old(entries), clipPath + [items[i].name]) && NextUnread(old(cuts)) ==>
        |cuts| <= |Later(old(cuts))| && left == missed + Children(old(entries), clipPath + [items[i].name])
    {
      ghost var t, live, more := entries, reliable && AllTransferable(entries, clipPath, path, items, i, complete), {};
      if live {
        FitsMore(t, clipPath + [items[i].name], path + [items[i].name], complete, cuts == []);
      }
      ret, more := Copy(path, clipPath, items[i], 0, block);
      OnlyUnderItem(s, t, entries, path, items, i);
      left := missed;
      if ret < 0 {
        return;
      }
      if live {
        StillTransferable(t, entries, clipPath, path, items, i, complete);
      }
      if items[i].isFolder && !IsFolder(t, clipPath + [items[i].name]) {
        more := {clipPath + [items[i].name]};
      }
      CopiedNext(s, t, entries, clipPath, path, items, i, missed, more, complete);
      left := missed + more;
    }

    /** Deletes the clipboard's entries one after the other, unless the user objects to one. */
    method DeleteAll(clipPath: Path, items: seq<FileInfo>) returns (ret: int)
      requires Valid() && UniqueNames(items)
      modifies `entries, `cuts
      ensures Valid() && OnlyUnderItems(old(entries), entries, clipPath, items) && Kept(old(entries), entries)
      ensures ret >= 0 ==> Removing(old(entries), entries, clipPath, items, |items|)
      ensures reliable && FullyListed(old(entries), old(cuts), clipPath, items) ==> ret >= 0
    {
      ret := 0;
      ghost var s := entries;
      for i := 0 to |items|
        invariant Valid() && OnlyUnderItems(s, entries, clipPath, items) && Kept(s, entries)
        invariant Removing(s, entries, clipPath, items, i) && |cuts| <= |old(cuts)| && ret >= 0
      {
        var confirmed: bool := *;
        if !confirmed && !reliable {
          return -1;
        }
        ghost var t := entries;
        RemovingItem(s, t, clipPath, items, i);
        ret := Delete(clipPath, items[i]);
        OnlyUnderItem(s, t, entries, clipPath, items, i);
        if ret < 0 {
          return;
        }
        RemovingNext(s, t, entries, clipPath, items, i);
      }
    }

    /** Pastes the clipboard; after a cut the originals are deleted once everything has been copied. Either
        the originals are all as before, or every one of their entries has been copied, save those a
        listing left out. With complete listings and folders that they can show, nothing is lost, whatever fails. */
    method Paste(path: Path, clipPath: Path, items: seq<FileInfo>, cut: bool, block: nat)
      returns (ret: int, ghost copied: bool, ghost missed: set<Path>)
      requires Valid() && block > 0 && (path != clipPath ==> AllApart(clipPath, path, items))
      modifies `entries, `cuts
      ensures Valid()
      ensures forall q :: !InItems(clipPath, items, q) && !InItems(path, items, q) ==> SameAt(old(entries), entries, q)
      ensures copied ==> AllCopied(old(entries), entries, clipPath, path, items, |items|, missed)
      ensures copied && AllCurrent(old(entries), clipPath, items, 0) ==>
        && PastedAside(old(entries), entries, clipPath, path, items, missed)
        && AllLeftOut(old(entries), clipPath, items, |items|, missed, old(cuts) == [])
      ensures !copied || !cut ==> Intact(old(entries), entries, clipPath, items)
      ensures ret >= 0 ==> copied && path != clipPath
      ensures ret >= 0 && cut ==>
        && AllCurrent(old(entries), clipPath, items, 0) && AllBounded(old(entries), clipPath, items, |items|)
        && forall i :: 0 <= i < |items| ==> Gone(entries, clipPath + [items[i].name])
      ensures FullyListed(old(entries), old(cuts), clipPath, items) ==>
                Preserved(old(entries), entries, clipPath, path, items)
      ensures reliable && path != clipPath && AllTransferable(old(entries), clipPath, path, items, 0, old(cuts) == []) ==>
                (cut ==> FullyListed(old(entries), old(cuts), clipPath, items)
                         || BlindOnce(old(entries), old(cuts), clipPath, items)) ==> ret >= 0
      ensures copied && BlindOnce(old(entries), old(cuts), clipPath, items) ==>
        missed == Children(old(entries), clipPath + [items[0].name])
    {
      ret, copied, missed := -1, false, {};
      var ready: bool := *;
      ghost var s, complete, full := entries, cuts == [], FullyListed(entries, cuts, clipPath, items);
      if path == clipPath || !(ready || reliable) {
        if full { NothingLost(s, entries, clipPath, path, items, copied, missed); }
        return;
      }
      ret, missed := CopyAll(path, clipPath, items, block);
      ghost var t := entries;
      SourcesIntact(s, t, clipPath, path, items);
      if ret < 0 {
        if full { NothingLost(s, entries, clipPath, path, items, copied, missed); }
        return;
      }
      copied := true;
      if cut {
        ItemsIntact(s, t, clipPath, items);
        if AllTransferable(s, clipPath, path, items, 0, complete) {
          TransferableIsCurrent(s, s, clipPath, path, items, complete);
        }
        ret := DeleteAll(clipPath, items);
      }
      PasteDone(s, t, entries, clipPath, path, items, missed, complete);
      if full {
        NothingLost(s, entries, clipPath, path, items, copied, missed);
      }
    }
  }

  /** A listing that fails at the wrong moment loses data: the folder is copied empty and then deleted, and
      every step reports success. */
  method CutWithUnreadFolder(storage: Storage, path: Path, clipPath: Path, folder: FileInfo, block: nat) returns (ret: int)
    requires storage.Valid() && storage.reliable && storage.cuts == [0] && block > 0 && folder.isFolder && path != clipPath
    requires AllApart(clipPath, path, [folder]) && AllTransferable(storage.entries, clipPath, path, [folder], 0, false)
    requires Bounded(storage.entries, clipPath + [folder.name])
    modifies storage
    ensures ret >= 0 && IsFolder(storage.entries, path + [folder.name])
    ensures forall p :: Under(clipPath + [folder.name], p) ==> p !in storage.entries
    ensures forall q :: Under(path + [folder.name], q) && q != path + [folder.name] ==> q !in storage.entries
  {
    ghost var s, copied, missed := storage.entries, false, {};
    ret, copied, missed := storage.Paste(path, clipPath, [folder], true, block);
    UnreadIsLost(s, storage.entries, path, clipPath, folder, missed);
  }
}
