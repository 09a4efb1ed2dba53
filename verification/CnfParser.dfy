/** The configuration parser at work on its buffer: it writes terminators into it and hands out positions
    of the strings it has cut off. */
module CnfParser {
  import opened CnfText

  /** The terminated string at a position of the buffer. */
  ghost predicate Holds(s: seq<char>, pos: nat, text: string)
    decreases |text|
  {
    pos < |s| && if text == [] then s[pos] == '\0' else s[pos] == text[0] != '\0' && Holds(s, pos + 1, text[1..])
  }

  lemma {:induction false} HoldsTail(s: seq<char>, pos: nat, text: string, n: nat)
    requires Holds(s, pos, text) && n <= |text|
    ensures Holds(s, pos + n, text[n..])
    ensures pos + |text| < |s|
    decreases |text|
  {
    if n > 0 {
      HoldsTail(s, pos + 1, text[1..], n - 1);
      assert text[1..][n - 1..] == text[n..];
    } else {
      assert text[0..] == text;
      if text != [] {
        HoldsTail(s, pos + 1, text[1..], 0);
      }
    }
  }

  ghost predicate SameFrom(s: seq<char>, t: seq<char>, pos: nat) {
    |s| == |t| && forall i :: pos <= i < |s| ==> t[i] == s[i]
  }

  ghost predicate SameUpto(s: seq<char>, t: seq<char>, pos: nat) {
    |s| == |t| && forall i :: 0 <= i < pos && i < |s| ==> t[i] == s[i]
  }

  /** Writing in front of a string leaves it alone. */
  lemma {:induction false} HoldsBehind(s: seq<char>, t: seq<char>, pos: nat, text: string)
    requires Holds(s, pos, text) && SameFrom(s, t, pos)
    ensures Holds(t, pos, text)
    decreases |text|
  {
    if text != [] {
      HoldsBehind(s, t, pos + 1, text[1..]);
    }
  }

  /** A terminator cuts a string short; writing behind that does not matter. */
  lemma {:induction false} HoldsCut(s: seq<char>, t: seq<char>, pos: nat, text: string, n: nat)
    requires Holds(s, pos, text) && n <= |text| && SameUpto(s, t, pos + n) && pos + n < |t| && t[pos + n] == '\0'
    ensures Holds(t, pos, text[..n])
    decreases |text|
  {
    if n > 0 {
      HoldsCut(s, t, pos + 1, text[1..], n - 1);
      assert text[..n][1..] == text[1..][..n - 1];
    }
  }

  /** Passes over letters of a class, up to the end of the string at most. */
  method SkipWhile(buffer: array<char>, start: nat, k: Class, ghost text: string) returns (tp: nat)
    requires Holds(buffer[..], start, text)
    ensures tp == start + Span(text, k) && Holds(buffer[..], tp, Skip(text, k)) && tp < buffer.Length
  {
    tp := start;
    ghost var n := 0;
    ghost var b := buffer[..];
    assert text[0..] == text;
    while buffer[tp] != '\0' && In(buffer[tp], k)
      invariant n <= |text| && tp == start + n && tp < buffer.Length && b == buffer[..]
      invariant Holds(b, tp, text[n..])
      invariant n + Span(text[n..], k) == Span(text, k)
      decreases |text| - n
    {
      assert text[n..][1..] == text[n + 1..];
      n := n + 1;
      tp := tp + 1;
    }
  }

  /** Overwrites white space with terminators. */
  method ZeroWhite(buffer: array<char>, start: nat, ghost text: string) returns (tp: nat)
    requires Holds(buffer[..], start, text)
    modifies buffer
    ensures tp == start + Span(text, White) && Holds(buffer[..], tp, Skip(text, White)) && tp < buffer.Length
    ensures SameUpto(old(buffer[..]), buffer[..], start)
    ensures start < tp ==> buffer[start] == '\0'
  {
    tp := start;
    ghost var n, b := 0, buffer[..];
    assert text[0..] == text;
    while buffer[tp] != '\0' && IsWhite(buffer[tp])
      invariant n <= |text| && tp == start + n && tp < buffer.Length && b == buffer[..]
      invariant Holds(b, tp, text[n..])
      invariant n + Span(text[n..], White) == Span(text, White)
      invariant SameUpto(old(buffer[..]), b, start) && (start < tp ==> b[start] == '\0')
      decreases |text| - n
    {
      assert text[n..][1..] == text[n + 1..];
      HoldsBehind(b, b[tp := '\0'], tp + 1, text[n + 1..]);
      buffer[tp] := '\0';
      b := b[tp := '\0'];
      n := n + 1;
      tp := tp + 1;
    }
  }

  /** Skips white space and comment lines, up to the start of a name or the end. Before a negative char the
      program's loop turns forever; here it is left with hung. */
  method FindName(buffer: array<char>, start: nat, ghost text: string) returns (tp: nat, hung: bool, ghost s: string)
    requires Holds(buffer[..], start, text)
    ensures start <= tp < buffer.Length && Holds(buffer[..], tp, s)
    ensures hung <==> Next(text).Hangs?
    ensures !hung && s == [] ==> Next(text) == Nothing
    ensures !hung && s != [] ==> StartsName(s[0]) && Next(text) == AfterName(s[..Span(s, Name)], s[Span(s, Name)..])
  {
    tp := SkipWhile(buffer, start, White, text);
    s := Skip(text, White);
    hung := false;
    ghost var u := text;
    while buffer[tp] != '\0' && !StartsName(buffer[tp])
      invariant start <= tp < buffer.Length && Holds(buffer[..], tp, s)
      invariant s == Skip(u, White) && Next(text) == Next(u)
      decreases |s|
    {
      if IsHigh(buffer[tp]) {
        return tp, true, s;
      }
      CommentStep(u);
      tp := PassComment(buffer, tp, s);
      u := Skip(s, Comment);
      s := Turn(s);
    }
  }

  /** The rest of a comment line, and the white space in front of the next line. */
  method PassComment(buffer: array<char>, start: nat, ghost s: string) returns (tp: nat)
    requires Holds(buffer[..], start, s)
    ensures start <= tp < buffer.Length && Holds(buffer[..], tp, Turn(s))
  {
    tp := SkipWhile(buffer, start, Comment, s);
    tp := SkipWhile(buffer, tp, White, Skip(s, Comment));
  }

  lemma CommentStep(u: string)
    requires !Leaves(Skip(u, White)) && !IsHigh(Skip(u, White)[0])
    ensures var s := Skip(u, White);
      Next(u) == Next(Skip(s, Comment)) && |Turn(s)| < |s|
  {
    SpanStops(u, White);
  }

  /** Cuts off the name and passes over the equals sign behind it, if there is one. */
  method CutName(buffer: array<char>, np: nat, ghost s: string) returns (ok: bool, tp: nat)
    requires Holds(buffer[..], np, s)
    modifies buffer
    ensures ghost var t := Skip(Skip(s, Name), White);
      (ok <==> t != [] && t[0] == '=') && (ok ==> tp < buffer.Length && Holds(buffer[..], tp, t[1..]))
    ensures ok ==> np + Span(s, Name) < tp && Holds(buffer[..], np, s[..Span(s, Name)])
  {
    ghost var b := buffer[..];
    var end := SkipWhile(buffer, np, Name, s);
    tp := ZeroWhite(buffer, end, Skip(s, Name));
    ok := buffer[tp] == '=';
    if ok {
      NameCut(b, buffer[..], np, s, Span(s, Name), tp, Skip(Skip(s, Name), White));
      Terminate(buffer, tp);
      tp := tp + 1;
    }
  }

  /** Terminating at tp, behind the name, leaves the name and what stands behind tp as strings. */
  lemma NameCut(b: seq<char>, c: seq<char>, np: nat, s: string, n: nat, tp: nat, t: string)
    requires Holds(b, np, s) && n <= |s| && SameUpto(b, c, np + n) && np + n <= tp < |c|
    requires (np + n < tp ==> c[np + n] == '\0') && Holds(c, tp, t) && t != []
    ensures Holds(Terminated(c, tp), np, s[..n]) && Holds(Terminated(c, tp), tp + 1, t[1..])
  {
    HoldsBehind(c, Terminated(c, tp), tp + 1, t[1..]);
    HoldsCut(b, Terminated(c, tp), np, s, n);
  }

  ghost function Terminated(s: seq<char>, i: nat): (r: seq<char>)
    requires i < |s|
    ensures |r| == |s|
  {
    s[i := '\0']
  }

  method Terminate(buffer: array<char>, i: nat)
    requires i < buffer.Length
    modifies buffer
    ensures buffer[..] == Terminated(old(buffer[..]), i)
  {
    buffer[i] := '\0';
  }

  /** From a name on: cuts off the name, and finds the value behind an equals sign. */
  method TakeName(buffer: array<char>, np: nat, ghost s: string) returns (ok: bool, vp: nat, ghost v: string)
    requires Holds(buffer[..], np, s)
    modifies buffer
    ensures ok <==> AfterName(s[..Span(s, Name)], s[Span(s, Name)..]).Found?
    ensures ok ==> AfterName(s[..Span(s, Name)], s[Span(s, Name)..]) == ValueOf(s[..Span(s, Name)], v)
    ensures ok ==> v != [] && np + Span(s, Name) < vp < buffer.Length
    ensures ok ==> Holds(buffer[..], np, s[..Span(s, Name)]) && Holds(buffer[..], vp, v)
  {
    v := [];
    ok, vp := CutName(buffer, np, s);
    if ok {
      ghost var t := Skip(Skip(s, Name), White);
      v := Skip(t[1..], Blank);
      vp := SkipWhile(buffer, vp, Blank, t[1..]);
      ok := buffer[vp] != '\0';
    }
  }

  lemma ValueParts(v: string, m: nat)
    requires v != [] && m == Span(v, NotEnd)
    ensures ValueOf([], v).value == v[..m] && ValueOf([], v).rest == if m == |v| then [] else Skip(v[m + 1..], White)
  {
  }

  /** Terminating a string inside leaves what stands on either side as strings. */
  lemma ValueCut(b: seq<char>, vp: nat, v: string, m: nat)
    requires Holds(b, vp, v) && m < |v| && vp + m < |b|
    ensures Holds(Terminated(b, vp + m), vp, v[..m]) && Holds(Terminated(b, vp + m), vp + m + 1, v[m + 1..])
  {
    var c := Terminated(b, vp + m);
    HoldsTail(b, vp, v, m + 1);
    HoldsBehind(b, c, vp + m + 1, v[m + 1..]);
    HoldsCut(b, c, vp, v, m);
  }

  /** The value up to the end of its line, and the white space behind it. */
  method TakeValue(buffer: array<char>, vp: nat, ghost v: string) returns (tp: nat)
    requires Holds(buffer[..], vp, v) && v != []
    modifies buffer
    ensures vp <= tp < buffer.Length && SameUpto(old(buffer[..]), buffer[..], vp)
    ensures Holds(buffer[..], vp, ValueOf([], v).value) && Holds(buffer[..], tp, ValueOf([], v).rest)
  {
    ghost var m, b := Span(v, NotEnd), buffer[..];
    ValueParts(v, m);
    tp := SkipWhile(buffer, vp, NotEnd, v);
    if buffer[tp] != '\0' {
      ValueCut(b, vp, v, m);
      Terminate(buffer, tp);
      tp := SkipWhile(buffer, tp + 1, White, v[m + 1..]);
    } else {
      assert v[..m] == v;
      tp := SkipWhile(buffer, tp, White, []);
    }
  }

  lemma {:induction false} HoldsInFront(s: seq<char>, t: seq<char>, pos: nat, text: string, n: nat)
    requires Holds(s, pos, text) && pos + |text| < n && SameUpto(s, t, n)
    ensures Holds(t, pos, text)
    decreases |text|
  {
    if text != [] {
      HoldsInFront(s, t, pos + 1, text[1..], n);
    }
  }

  /** What a call of the parser comes to; Stuck is a call that does not return. */
  datatype Outcome = Taken | Ended | Stuck

  /** The next variable of a configuration: where its name and its value now stand as strings of their own,
      and where to go on. */
  method GetString(buffer: array<char>, start: nat, ghost text: string) returns (got: Outcome, tp: nat, np: nat, vp: nat)
    requires Holds(buffer[..], start, text)
    modifies buffer
    ensures got == (if Next(text).Found? then Taken else if Next(text).Hangs? then Stuck else Ended)
    ensures got.Taken? ==> Holds(buffer[..], np, Next(text).name) && Holds(buffer[..], vp, Next(text).value)
    ensures got.Taken? ==> Holds(buffer[..], tp, Next(text).rest)
  {
    ghost var s, v;
    var hung;
    np, hung, s := FindName(buffer, start, text);
    if hung {
      return Stuck, start, np, start;
    }
    if buffer[np] == '\0' {
      return Ended, start, np, start;
    }
    var ok;
    ok, vp, v := TakeName(buffer, np, s);
    got, tp := Ended, start;
    if ok {
      ghost var b := buffer[..];
      got := Taken;
      tp := TakeValue(buffer, vp, v);
      HoldsInFront(b, buffer[..], np, s[..Span(s, Name)], vp);
    }
  }

  /** The string at a position, as the string functions read it. */
  method ReadString(buffer: array<char>, start: nat, ghost text: string) returns (s: string)
    requires Holds(buffer[..], start, text)
    ensures s == text
  {
    s := [];
    ghost var n := 0;
    var i := start;
    ghost var b := buffer[..];
    assert text[0..] == text;
    while buffer[i] != '\0'
      invariant n <= |text| && i == start + n && i < buffer.Length && b == buffer[..]
      invariant Holds(b, i, text[n..]) && s == text[..n]
      decreases |text| - n
    {
      assert text[n..][1..] == text[n + 1..];
      s := s + [buffer[i]];
      n := n + 1;
      i := i + 1;
    }
  }

  lemma PairsStep(pairs: seq<(string, string)>, rest: string)
    ensures var found := Next(rest);
      if found.Found? then pairs + Pairs(rest) == pairs + [(found.name, found.value)] + Pairs(found.rest) else Pairs(rest) == []
  {
  }

  lemma HungStep(rest: string)
    ensures Hung(rest) == (Next(rest).Hangs? || (Next(rest).Found? && Hung(Next(rest).rest)))
  {
  }

  /** The next variable with its name and value read out. */
  method ReadPair(buffer: array<char>, start: nat, ghost text: string)
    returns (got: Outcome, tp: nat, name: string, value: string)
    requires Holds(buffer[..], start, text)
    modifies buffer
    ensures got == (if Next(text).Found? then Taken else if Next(text).Hangs? then Stuck else Ended)
    ensures got.Taken? ==> Next(text).name == name && Next(text).value == value && Holds(buffer[..], tp, Next(text).rest)
  {
    var np, vp;
    name, value := [], [];
    got, tp, np, vp := GetString(buffer, start, text);
    if got.Taken? {
      name := ReadString(buffer, np, Next(text).name);
      value := ReadString(buffer, vp, Next(text).value);
    }
  }

  /** Every variable of the file, in order, unless the parser does not return. */
  method ReadAll(buffer: array<char>, ghost text: string) returns (pairs: seq<(string, string)>, returned: bool)
    requires Holds(buffer[..], 0, text)
    modifies buffer
    ensures returned <==> !Hung(text)
    ensures pairs == Pairs(text)
  {
    pairs := [];
    ghost var rest, ahead, all := text, Pairs(text), Pairs(text);
    var tp, got := 0, Taken;
    while got.Taken?
      invariant got.Taken? ==> Holds(buffer[..], tp, rest) && ahead == Pairs(rest) && Hung(rest) == Hung(text)
      invariant !got.Taken? ==> ahead == [] && got.Stuck? == Hung(text)
      invariant pairs + ahead == all
      decreases got.Taken?, |rest|
    {
      got, tp, pairs, rest, ahead := ReadOn(buffer, tp, pairs, rest, ahead);
    }
    returned := got.Ended?;
  }

  /** Adds the next variable to those read so far. */
  method ReadOn(buffer: array<char>, start: nat, pairs: seq<(string, string)>, ghost rest: string, ghost ahead: seq<(string, string)>)
    returns (got: Outcome, tp: nat, more: seq<(string, string)>, ghost left: string, ghost next: seq<(string, string)>)
    requires Holds(buffer[..], start, rest) && ahead == Pairs(rest)
    modifies buffer
    ensures got.Taken? ==> Holds(buffer[..], tp, left) && |left| < |rest| && next == Pairs(left) && Hung(left) == Hung(rest)
    ensures !got.Taken? ==> next == [] && got.Stuck? == Hung(rest)
    ensures more + next == pairs + ahead
  {
    PairsStep(pairs, rest);
    HungStep(rest);
    more, left, next := pairs, rest, [];
    var name, value;
    got, tp, name, value := ReadPair(buffer, start, rest);
    if got.Taken? {
      more := pairs + [(name, value)];
      left := Next(rest).rest;
      next := Pairs(left);
    }
  }
}
