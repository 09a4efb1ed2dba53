/** The text of a configuration file: printing "name = value" lines, and what the parser makes of them
    one at a time. */
module CnfText {
  import opened Common

  // ----- character classes; a byte from 128 up is a negative char -----

  predicate IsWhite(c: char) { '\0' < c <= ' ' }

  predicate IsBlank(c: char) { IsWhite(c) && !IsEnd(c) }

  predicate StartsName(c: char) { 'A' <= c && c as int < 128 }

  predicate InName(c: char) { StartsName(c) || '0' <= c <= '9' }

  /** A negative char. */
  predicate IsHigh(c: char) { c as int >= 128 }

  /** Comment letters are those a comment line is passed over by: a negative char is not one of them. */
  datatype Class = White | Blank | Comment | NotEnd | Name

  predicate In(c: char, k: Class) {
    match k
    case White => IsWhite(c)
    case Blank => IsBlank(c)
    case Comment => c != '\0' && !IsHigh(c) && !IsEnd(c)
    case NotEnd => c != '\0' && !IsEnd(c)
    case Name => InName(c)
  }

  /** How many letters at the front of a text belong to a class. */
  function Span(s: string, k: Class): (n: nat)
    ensures n <= |s|
    ensures s != [] && In(s[0], k) ==> n > 0
  {
    if s == [] || !In(s[0], k) then 0 else 1 + Span(s[1..], k)
  }

  lemma {:induction false} SpanStops(s: string, k: Class)
    ensures forall i :: 0 <= i < Span(s, k) ==> In(s[i], k)
    ensures Span(s, k) < |s| ==> !In(s[Span(s, k)], k)
  {
    if s != [] && In(s[0], k) {
      SpanStops(s[1..], k);
      assert forall i :: 1 <= i < |s| ==> s[i] == s[1..][i - 1];
    }
  }

  lemma {:induction false} SpanIs(s: string, k: Class, n: nat)
    requires n <= |s| && (forall i :: 0 <= i < n ==> In(s[i], k)) && (n < |s| ==> !In(s[n], k))
    ensures Span(s, k) == n
  {
    if n > 0 {
      SpanIs(s[1..], k, n - 1);
    }
  }

  function Skip(s: string, k: Class): (r: string)
    ensures |r| <= |s|
  {
    s[Span(s, k)..]
  }

  // ----- what a parse step finds -----

  datatype Found = Nothing | Hangs | Found(name: string, value: string, rest: string)

  /** The value from its first letter on, up to the end of the line, and what the parser leaves. */
  function ValueOf(name: string, v: string): (r: Found)
    ensures r.Found? ==> |r.rest| < |v|
  {
    if v == [] then Nothing
    else
      var m := Span(v, NotEnd);
      Found(name, v[..m], if m == |v| then [] else Skip(v[m + 1..], White))
  }

  /** What follows a name: an equals sign, or the line is malformed. */
  function AfterName(name: string, s: string): (r: Found)
    ensures r.Found? ==> |r.rest| < |s|
  {
    var t := Skip(s, White);
    if t == [] || t[0] != '=' then Nothing else ValueOf(name, Skip(t[1..], Blank))
  }

  /** The next "name = value" line: comment lines are skipped, anything malformed ends the file, and on a
      negative char the loop over comment lines turns without moving. */
  function Next(text: string): (r: Found)
    ensures r.Found? ==> |r.rest| < |text|
    decreases |text|
  {
    var s := Skip(text, White);
    if s == [] || s[0] == '\0' then Nothing
    else if IsHigh(s[0]) then Hangs
    else if !StartsName(s[0]) then
      SpanStops(text, White);
      Next(Skip(s, Comment))
    else
      var n := Span(s, Name);
      AfterName(s[..n], s[n..])
  }

  /** Every line the parser takes off a text before it stops. */
  function Pairs(text: string): seq<(string, string)>
    decreases |text|
  {
    var found := Next(text);
    if found.Found? then [(found.name, found.value)] + Pairs(found.rest) else []
  }

  /** The parser, called again and again, comes to a call that does not return. */
  predicate Hung(text: string)
    decreases |text|
  {
    var found := Next(text);
    found.Hangs? || (found.Found? && Hung(found.rest))
  }

  // ----- when the parser does not return -----

  /** One turn of the loop over comment lines. */
  function Turn(s: string): string {
    Skip(Skip(s, Comment), White)
  }

  function Turns(s: string, n: nat): string {
    if n == 0 then s else Turns(Turn(s), n - 1)
  }

  /** The loop over comment lines ends here. */
  predicate Leaves(s: string) {
    s == [] || s[0] == '\0' || StartsName(s[0])
  }

  /** Some number of turns ends the loop. */
  ghost predicate LoopEnds(s: string) {
    exists n: nat :: Leaves(Turns(s, n))
  }

  lemma {:induction false} TurnsStandStill(s: string, n: nat)
    requires s != [] && IsHigh(s[0])
    ensures Turns(s, n) == s
  {
    if n > 0 {
      SpanIs(s, Comment, 0);
      SpanIs(s, White, 0);
      assert Turn(s) == s;
      TurnsStandStill(s, n - 1);
    }
  }

  lemma OneTurn(s: string)
    requires !Leaves(s)
    ensures LoopEnds(s) <==> LoopEnds(Turn(s))
  {
    if n: nat :| Leaves(Turns(s, n)) {
      assert Leaves(Turns(Turn(s), n - 1));
    }
    if n: nat :| Leaves(Turns(Turn(s), n)) {
      assert Leaves(Turns(s, n + 1));
    }
  }

  /** A call returns exactly when some number of turns ends the loop over comment lines. */
  lemma {:induction false} ReturnsIfLoopEnds(text: string)
    ensures !Next(text).Hangs? <==> LoopEnds(Skip(text, White))
    decreases |text|
  {
    var s := Skip(text, White);
    if Leaves(s) {
      assert Leaves(Turns(s, 0));
    } else if IsHigh(s[0]) {
      forall n: nat ensures !Leaves(Turns(s, n)) {
        TurnsStandStill(s, n);
      }
    } else {
      SpanStops(text, White);
      ReturnsIfLoopEnds(Skip(s, Comment));
      OneTurn(s);
    }
  }

  /** Only blanks stand between the start of the line and position j. */
  predicate LineFront(text: string, j: nat)
    requires j <= |text|
  {
    j == 0 || IsEnd(text[j - 1]) || (IsBlank(text[j - 1]) && LineFront(text, j - 1))
  }

  /** The text up to n is made of empty lines and comment lines without negative chars. */
  predicate OnlyComments(text: string, n: nat)
    requires n <= |text|
  {
    forall j: nat :: j < n ==> text[j] != '\0' && !IsHigh(text[j]) && !(StartsName(text[j]) && LineFront(text, j))
  }

  /** The first lines are comments, and one of them holds a negative char. */
  predicate HighInComment(text: string) {
    exists i: nat :: i < |text| && IsHigh(text[i]) && OnlyComments(text, i)
  }

  lemma {:induction false} FrontAfterWhite(text: string, j: nat)
    requires j <= |text| && forall k :: 0 <= k < j ==> In(text[k], White)
    ensures LineFront(text, j)
  {
    if j > 0 {
      FrontAfterWhite(text, j - 1);
    }
  }

  lemma {:induction false} NoFrontInComment(text: string, w: nat, j: nat)
    requires w < j <= |text| && !IsWhite(text[w])
    requires forall k :: w <= k < j ==> !IsEnd(text[k])
    ensures !LineFront(text, j)
  {
    if j > w + 1 {
      NoFrontInComment(text, w, j - 1);
    }
  }

  lemma {:induction false} FrontShifts(text: string, m: nat, j: nat)
    requires m < j <= |text| && IsEnd(text[m])
    ensures LineFront(text, j) <==> LineFront(text[m..], j - m)
  {
    if j > m + 1 {
      FrontShifts(text, m, j - 1);
    }
  }

  /** A comment letter on a line that starts with one at w is no obstacle. */
  lemma CommentPassed(text: string, w: nat, m: nat)
    requires w < m <= |text| && (forall j :: 0 <= j < w ==> In(text[j], White))
    requires !IsWhite(text[w]) && !StartsName(text[w]) && (forall j :: w <= j < m ==> In(text[j], Comment))
    ensures OnlyComments(text, m)
  {
    forall j: nat | w < j < m ensures !LineFront(text, j) {
      NoFrontInComment(text, w, j);
    }
  }

  lemma OnlyCommentsShift(text: string, m: nat, i: nat)
    requires m <= i <= |text| && OnlyComments(text, m) && (m < |text| ==> !In(text[m], Comment))
    ensures OnlyComments(text, i) <==> OnlyComments(text[m..], i - m)
  {
    var t := text[m..];
    if i > m && !IsEnd(text[m]) {
      assert t[0] == text[m];
      assert !OnlyComments(text, i) && !OnlyComments(t, i - m);
    } else if i > m {
      forall j: nat | m < j < i ensures LineFront(text, j) <==> LineFront(t, j - m) {
        FrontShifts(text, m, j);
      }
      assert forall j: nat :: m <= j < i ==> text[j] == t[j - m];
      assert forall j: nat :: j < i - m ==> t[j] == text[j + m];
    }
  }

  /** The parser does not return on a text exactly when it starts with comment lines, one of them with a
      negative char. */
  lemma {:induction false} HangsExactly(text: string)
    ensures Next(text).Hangs? <==> HighInComment(text)
    decreases |text|
  {
    var w := Span(text, White);
    var s := Skip(text, White);
    SpanStops(text, White);
    if s == [] {
    } else if s[0] == '\0' || StartsName(s[0]) {
      FrontAfterWhite(text, w);
      assert text[w] == s[0];
      assert forall i: nat :: w < i <= |text| ==> !OnlyComments(text, i);
    } else if IsHigh(s[0]) {
      assert IsHigh(text[w]) && OnlyComments(text, w);
    } else {
      CommentHangs(text, w);
      HangsExactly(Skip(s, Comment));
    }
  }

  lemma HighShifts(text: string, m: nat)
    requires m <= |text| && OnlyComments(text, m) && (m < |text| ==> !In(text[m], Comment))
    ensures HighInComment(text) <==> HighInComment(text[m..])
  {
    var t := text[m..];
    if i: nat :| i < |text| && IsHigh(text[i]) && OnlyComments(text, i) {
      OnlyCommentsShift(text, m, i);
      assert IsHigh(t[i - m]);
    }
    if i: nat :| i < |t| && IsHigh(t[i]) && OnlyComments(t, i) {
      OnlyCommentsShift(text, m, i + m);
      assert IsHigh(text[i + m]);
    }
  }

  /** Letters of a class from w on, and where they end. */
  lemma SpanFrom(text: string, w: nat, k: Class, m: nat)
    requires w <= |text| && m == w + Span(text[w..], k)
    ensures m <= |text| && forall j :: w <= j < m ==> In(text[j], k)
    ensures m < |text| ==> !In(text[m], k)
    ensures Skip(text[w..], k) == text[m..]
  {
    var s := text[w..];
    SpanStops(s, k);
    forall j | w <= j < m ensures In(text[j], k) {
      assert text[j] == s[j - w];
    }
  }

  /** A comment without a negative char is passed over. */
  lemma CommentHangs(text: string, w: nat)
    requires w == Span(text, White) < |text| && !Leaves(text[w..]) && !IsHigh(text[w])
    ensures HighInComment(text) <==> HighInComment(Skip(text[w..], Comment))
  {
    var m := w + Span(text[w..], Comment);
    SpanStops(text, White);
    SpanFrom(text, w, Comment, m);
    CommentPassed(text, w, m);
    HighShifts(text, m);
  }

  /** What is left of a text when the parser has taken n lines off it; nothing if it does not get that far. */
  function After(text: string, n: nat): string
    decreases n
  {
    if n == 0 then text else if Next(text).Found? then After(Next(text).rest, n - 1) else []
  }

  /** The parser's next call but n does not return. */
  predicate CallHangs(text: string, n: nat) {
    Next(After(text, n)).Hangs?
  }

  /** A comment line with a negative char stands ahead when n lines have been taken. */
  predicate HighAhead(text: string, n: nat) {
    HighInComment(After(text, n))
  }

  lemma CallsGoOn(text: string)
    requires Next(text).Found?
    ensures (exists n: nat :: CallHangs(text, n)) <==> (exists n: nat :: CallHangs(Next(text).rest, n))
  {
    if n: nat :| CallHangs(text, n) {
      assert CallHangs(Next(text).rest, n - 1);
    }
    if n: nat :| CallHangs(Next(text).rest, n) {
      assert CallHangs(text, n + 1);
    }
  }

  lemma {:induction false} HungIsSomeCall(text: string)
    ensures Hung(text) <==> exists n: nat :: CallHangs(text, n)
    decreases |text|
  {
    if Next(text).Found? {
      HungIsSomeCall(Next(text).rest);
      CallsGoOn(text);
    } else if Next(text).Hangs? {
      assert CallHangs(text, 0);
    } else {
      forall n: nat ensures !CallHangs(text, n) {
        if n > 0 { assert After(text, n) == []; }
      }
    }
  }

  /** A whole file is read exactly when no comment line that the parser reaches holds a negative char. */
  lemma HungExactly(text: string)
    ensures Hung(text) <==> exists n: nat :: HighAhead(text, n)
  {
    HungIsSomeCall(text);
    forall n: nat ensures CallHangs(text, n) <==> HighAhead(text, n) {
      HangsExactly(After(text, n));
    }
    if n: nat :| CallHangs(text, n) {
      assert HighAhead(text, n);
    }
  }

  predicate Ascii(text: string) {
    forall i :: 0 <= i < |text| ==> !IsHigh(text[i])
  }

  lemma RestOfNameAscii(name: string, s: string)
    requires Ascii(s)
    ensures var found := AfterName(name, s); found.Found? ==> Ascii(found.rest)
  {
    var t := Skip(s, White);
    if t != [] && t[0] == '=' {
      var v := Skip(t[1..], Blank);
      assert Ascii(t) && Ascii(t[1..]) && Ascii(v);
    }
  }

  lemma {:induction false} RestAscii(text: string)
    requires Ascii(text)
    ensures var found := Next(text); found.Found? ==> Ascii(found.rest)
    decreases |text|
  {
    var s := Skip(text, White);
    if s == [] || s[0] == '\0' || IsHigh(s[0]) {
    } else if StartsName(s[0]) {
      RestOfNameAscii(s[..Span(s, Name)], s[Span(s, Name)..]);
    } else {
      SpanStops(text, White);
      RestAscii(Skip(s, Comment));
    }
  }

  /** A text in ASCII is read to its end, or to a malformed line. */
  lemma {:induction false} AsciiReturns(text: string)
    requires Ascii(text)
    ensures !Hung(text)
    decreases |text|
  {
    HangsExactly(text);
    if Next(text).Found? {
      RestAscii(text);
      AsciiReturns(Next(text).rest);
    }
  }

  /** "E9" stands for the letter e with an acute accent in Latin-1: as a comment it hides the setting behind it
      forever. */
  lemma AccentHangs()
    ensures Hung([0xE9 as char, '\n', 'A', '=', '1', '\n'])
    ensures Hung(['#', 0xE9 as char, '\n', 'A', '=', '1', '\n'])
  {
    HangsAt([0xE9 as char, '\n', 'A', '=', '1', '\n'], 0);
    HangsAt(['#', 0xE9 as char, '\n', 'A', '=', '1', '\n'], 1);
  }

  lemma HangsAt(text: string, i: nat)
    requires i < |text| && IsHigh(text[i]) && OnlyComments(text, i)
    ensures Hung(text)
  {
    HangsExactly(text);
  }

  /** 128 is the first byte that hangs a comment. */
  lemma FirstHighByte()
    ensures Hung(['#', 0x80 as char]) && !Hung(['#', 0x7F as char])
  {
    HangsAt(['#', 0x80 as char], 1);
    AsciiReturns(['#', 0x7F as char]);
  }

  // ----- what is written comes back -----

  function Line(name: string, value: string): string {
    name + [' ', '=', ' '] + value + ['\r', '\n']
  }

  /** Further text after a line end. */
  function EndThen(rest: string): (r: string)
    ensures |r| == |rest| + 2 && r[0] == '\r'
  {
    ['\r', '\n'] + rest
  }

  function Lines(pairs: seq<(string, string)>): string {
    if pairs == [] then [] else Line(pairs[0].0, pairs[0].1) + Lines(pairs[1..])
  }

  predicate GoodName(name: string) {
    name != [] && StartsName(name[0]) && forall i :: 0 <= i < |name| ==> InName(name[i])
  }

  /** A value that survives: on one line, and not led in by a blank. */
  predicate GoodValue(value: string) {
    (forall i :: 0 <= i < |value| ==> In(value[i], NotEnd)) && (value != [] ==> !IsBlank(value[0]))
  }

  /** A text that the white space skipped after a value leaves alone. */
  predicate Aligned(text: string) {
    text != [] ==> !IsWhite(text[0])
  }

  lemma NextOfName(name: string, t: string)
    requires GoodName(name) && (t != [] ==> !InName(t[0]))
    ensures Next(name + t) == AfterName(name, t)
  {
    var s := name + t;
    SpanIs(s, White, 0);
    assert Skip(s, White) == s;
    SpanIs(s, Name, |name|);
    assert s[..|name|] == name && s[|name|..] == t;
  }

  lemma SkipOne(c: char, s: string, k: Class)
    requires In(c, k)
    ensures Skip([c] + s, k) == Skip(s, k)
  {
    assert ([c] + s)[1..] == s;
  }

  lemma AfterNameOfEquals(name: string, tail: string)
    ensures AfterName(name, [' ', '=', ' '] + tail) == ValueOf(name, Skip(tail, Blank))
  {
    var t := ['=', ' '] + tail;
    assert [' ', '=', ' '] + tail == [' '] + t;
    SkipOne(' ', t, White);
    SpanIs(t, White, 0);
    assert Skip(t, White) == t;
    assert t[1..] == [' '] + tail;
    SkipOne(' ', tail, Blank);
  }

  lemma LineParts(name: string, value: string, rest: string)
    ensures Line(name, value) + rest == name + ([' ', '=', ' '] + (value + EndThen(rest)))
  {
  }

  /** Which value a written line gives back. */
  lemma NextOfLine(name: string, value: string, rest: string)
    requires GoodName(name)
    ensures Next(Line(name, value) + rest) == ValueOf(name, Skip(value + EndThen(rest), Blank))
  {
    LineParts(name, value, rest);
    NextOfName(name, [' ', '=', ' '] + (value + EndThen(rest)));
    AfterNameOfEquals(name, value + EndThen(rest));
  }

  lemma ValueUpTo(name: string, value: string, e: string)
    requires (forall i :: 0 <= i < |value| ==> In(value[i], NotEnd)) && e != [] && IsEnd(e[0])
    ensures ValueOf(name, value + e) == Found(name, value, Skip(e[1..], White))
  {
    var v := value + e;
    SpanIs(v, NotEnd, |value|);
    assert v[..|value|] == value && v[|value| + 1..] == e[1..];
  }

  lemma EndSkipped(rest: string)
    requires Aligned(rest)
    ensures Skip(EndThen(rest)[1..], White) == rest
  {
    assert EndThen(rest)[1..] == ['\n'] + rest;
    SkipOne('\n', rest, White);
    SpanIs(rest, White, 0);
    assert Skip(rest, White) == rest;
  }

  lemma NothingBlank(value: string, e: string)
    requires GoodValue(value) && e != [] && IsEnd(e[0])
    ensures Skip(value + e, Blank) == value + e
  {
    SpanIs(value + e, Blank, 0);
  }

  /** A good value comes back, and the parser stands before what follows. */
  lemma GoodLineRead(name: string, value: string, rest: string)
    requires GoodName(name) && GoodValue(value) && Aligned(rest)
    ensures Next(Line(name, value) + rest) == Found(name, value, rest)
  {
    NextOfLine(name, value, rest);
    EndSkipped(rest);
    GoodValueUpTo(name, value, EndThen(rest));
  }

  lemma GoodValueUpTo(name: string, value: string, e: string)
    requires GoodValue(value) && e != [] && IsEnd(e[0])
    ensures ValueOf(name, Skip(value + e, Blank)) == Found(name, value, Skip(e[1..], White))
  {
    NothingBlank(value, e);
    ValueUpTo(name, value, e);
  }

  /** A value that is not good is not what comes back. */
  lemma BadValueRead(name: string, value: string, s: string)
    requires !GoodValue(value)
    ensures var r := ValueOf(name, Skip(s, Blank)); r.Found? ==> r.value != value
  {
    var v := Skip(s, Blank);
    var m := Span(v, NotEnd);
    SpanStops(s, Blank);
    SpanStops(v, NotEnd);
    assert forall i :: 0 <= i < m ==> In(v[..m][i], NotEnd);
    if m > 0 {
      assert !IsBlank(v[..m][0]);
    }
  }

  /** A written value comes back if and only if it is good. */
  lemma ValueSurvives(name: string, value: string, rest: string)
    requires GoodName(name) && Aligned(rest)
    ensures Next(Line(name, value) + rest) == Found(name, value, rest) <==> GoodValue(value)
  {
    if GoodValue(value) {
      GoodLineRead(name, value, rest);
    } else {
      NextOfLine(name, value, rest);
      BadValueRead(name, value, value + EndThen(rest));
    }
  }

  predicate GoodPairs(pairs: seq<(string, string)>) {
    forall i :: 0 <= i < |pairs| ==> GoodName(pairs[i].0) && GoodValue(pairs[i].1)
  }

  lemma LinesAligned(pairs: seq<(string, string)>)
    requires GoodPairs(pairs)
    ensures Aligned(Lines(pairs))
  {
    if pairs != [] {
      assert Lines(pairs)[0] == pairs[0].0[0];
    }
  }

  /** Exactly the written pairs come back, in order, and then the parser stops. */
  lemma {:induction false} LinesRoundTrip(pairs: seq<(string, string)>)
    requires GoodPairs(pairs)
    ensures Pairs(Lines(pairs)) == pairs && !Hung(Lines(pairs))
  {
    if pairs != [] {
      LinesRoundTrip(pairs[1..]);
      LinesAligned(pairs[1..]);
      GoodLineRead(pairs[0].0, pairs[0].1, Lines(pairs[1..]));
    }
  }
}
