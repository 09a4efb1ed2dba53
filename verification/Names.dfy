/** Case-insensitive comparison of folder names, as the C library does it byte by byte. */
module Names {

  function Lower(c: char): int {
    if 'A' <= c <= 'Z' then c as int + 32 else c as int
  }

  function Upper(c: char): char {
    if 'a' <= c <= 'z' then (c as int - 32) as char else c
  }

  /** The sign of stricmp on NUL-free strings: a proper prefix comes first. */
  function StrICmp(a: string, b: string): int
    decreases |a|
  {
    if |a| == 0 then if |b| == 0 then 0 else -1
    else if |b| == 0 then 1
    else if Lower(a[0]) != Lower(b[0]) then Lower(a[0]) - Lower(b[0])
    else StrICmp(a[1..], b[1..])
  }

  lemma {:induction false} StrICmpAntisymmetric(a: string, b: string)
    ensures StrICmp(a, b) < 0 <==> StrICmp(b, a) > 0
    ensures StrICmp(a, b) == 0 <==> StrICmp(b, a) == 0
    decreases |a|
  {
    if |a| > 0 && |b| > 0 {
      StrICmpAntisymmetric(a[1..], b[1..]);
    }
  }

  lemma {:induction false} StrICmpTransitive(a: string, b: string, c: string)
    requires StrICmp(a, b) <= 0 && StrICmp(b, c) <= 0
    ensures StrICmp(a, c) <= 0
    ensures StrICmp(a, c) == 0 <==> StrICmp(a, b) == 0 && StrICmp(b, c) == 0
    decreases |a|
  {
    if |a| > 0 && |b| > 0 && |c| > 0 && Lower(a[0]) == Lower(b[0]) && Lower(b[0]) == Lower(c[0]) {
      StrICmpTransitive(a[1..], b[1..], c[1..]);
    }
  }

  // ----- what the comparison means -----

  /** A letter in its small form; every other byte is itself. */
  function Small(c: char): char {
    if 'A' <= c <= 'Z' then (c as int - 'A' as int + 'a' as int) as char else c
  }

  /** Raising keeps the letter, leaves no small one, and leaves alone what is none. */
  lemma UpperIsCapital(c: char)
    ensures Small(Upper(c)) == Small(c) && !('a' <= Upper(c) <= 'z')
    ensures !('a' <= c <= 'z') ==> Upper(c) == c
  {
  }

  /** The names agree in their first n letters, whatever their case. */
  predicate AgreeUpto(a: string, b: string, n: nat) {
    n <= |a| && n <= |b| && forall j :: 0 <= j < n ==> Small(a[j]) == Small(b[j])
  }

  /** They agree up to some place, and there a ends or has the smaller letter. */
  ghost predicate Precedes(a: string, b: string) {
    exists i: nat :: AgreeUpto(a, b, i) && i < |b| && (i == |a| || Small(a[i]) < Small(b[i]))
  }

  predicate SameName(a: string, b: string) {
    |a| == |b| && AgreeUpto(a, b, |a|)
  }

  lemma AgreeTail(a: string, b: string, n: nat)
    requires a != [] && b != [] && n > 0
    ensures AgreeUpto(a, b, n) <==> Small(a[0]) == Small(b[0]) && AgreeUpto(a[1..], b[1..], n - 1)
  {
    if Small(a[0]) == Small(b[0]) && AgreeUpto(a[1..], b[1..], n - 1) {
      forall j | 0 <= j < n ensures Small(a[j]) == Small(b[j]) {
        if j > 0 { assert a[j] == a[1..][j - 1] && b[j] == b[1..][j - 1]; }
      }
    }
  }

  lemma PrecedesTail(a: string, b: string)
    requires a != [] && b != [] && Small(a[0]) == Small(b[0])
    ensures Precedes(a, b) <==> Precedes(a[1..], b[1..])
    ensures SameName(a, b) <==> SameName(a[1..], b[1..])
  {
    AgreeTail(a, b, |a|);
    if i: nat :| AgreeUpto(a, b, i) && i < |b| && (i == |a| || Small(a[i]) < Small(b[i])) {
      AgreeTail(a, b, i);
      assert AgreeUpto(a[1..], b[1..], i - 1);
    }
    if i: nat :| AgreeUpto(a[1..], b[1..], i) && i < |b| - 1 && (i == |a| - 1 || Small(a[1..][i]) < Small(b[1..][i])) {
      AgreeTail(a, b, i + 1);
      assert AgreeUpto(a, b, i + 1);
    }
  }

  /** The sign is that of dictionary order without regard to case. */
  lemma {:induction false} StrICmpIsDictionary(a: string, b: string)
    ensures StrICmp(a, b) < 0 <==> Precedes(a, b)
    ensures StrICmp(a, b) == 0 <==> SameName(a, b)
    ensures StrICmp(a, b) > 0 <==> Precedes(b, a)
    decreases |a|
  {
    if |a| == 0 || |b| == 0 {
      assert AgreeUpto(a, b, 0) && AgreeUpto(b, a, 0);
    } else if Small(a[0]) != Small(b[0]) {
      assert AgreeUpto(a, b, 0) && AgreeUpto(b, a, 0);
    } else {
      StrICmpIsDictionary(a[1..], b[1..]);
      PrecedesTail(a, b);
      PrecedesTail(b, a);
    }
  }

  /** "alpha" and "ALPHA" are one name, and come ahead of "BETA". */
  lemma CaseDoesNotMatter()
    ensures StrICmp("alpha", "ALPHA") == 0 && StrICmp("alpha", "BETA") < 0 && StrICmp("BETA", "ALPHA") > 0
  {
    StrICmpIsDictionary("alpha", "ALPHA");
    StrICmpIsDictionary("alpha", "BETA");
    StrICmpIsDictionary("BETA", "ALPHA");
    assert AgreeUpto("alpha", "ALPHA", 5) && AgreeUpto("alpha", "BETA", 0) && AgreeUpto("ALPHA", "BETA", 0);
  }

  lemma {:induction false} StrICmpReflexive(a: string)
    ensures StrICmp(a, a) == 0
    decreases |a|
  {
    if |a| > 0 {
      StrICmpReflexive(a[1..]);
    }
  }
}
