/** The cache of launch arguments and the parser that fills it, one character at a time, from a buffer or
    from a file read in chunks. */
module LaunchArguments {
  import opened Common

  const MAX_COUNT := 12
  const MAX_LINE := 255
  const MAX_BYTES := 2048

  // ----- what the lines of a text are -----

  /** The lines closed so far, none of them empty, and the line in progress. */
  datatype Cut = Cut(lines: seq<string>, tail: string)
  {
    function All(): seq<string> {
      if tail == "" then lines else lines + [tail]
    }

    function Push(c: char): Cut {
      if IsEnd(c) then Cut(All(), "") else Cut(lines, tail + [c])
    }
  }

  function Split(text: string): Cut {
    if text == "" then Cut([], "") else Split(text[..|text| - 1]).Push(text[|text| - 1])
  }

  /** The non-empty lines of a text. */
  function Lines(text: string): seq<string> {
    Split(text).All()
  }

  lemma SplitPush(text: string, c: char)
    ensures Split(text + [c]) == Split(text).Push(c)
  {
    assert (text + [c])[..|text|] == text;
  }

  function Flat(lines: seq<string>): string {
    if lines == [] then "" else Flat(lines[..|lines| - 1]) + lines[|lines| - 1]
  }

  function WithoutEnds(text: string): string {
    if text == "" then ""
    else
      var c := text[|text| - 1];
      WithoutEnds(text[..|text| - 1]) + if IsEnd(c) then "" else [c]
  }

  predicate NoEnds(line: string) {
    forall i :: 0 <= i < |line| ==> !IsEnd(line[i])
  }

  predicate NoNul(text: string) {
    forall i :: 0 <= i < |text| ==> text[i] != '\0'
  }

  ghost predicate AreLines(c: Cut) {
    (forall i :: 0 <= i < |c.lines| ==> c.lines[i] != "" && NoEnds(c.lines[i])) && NoEnds(c.tail)
  }

  lemma PushKeepsLines(s: Cut, c: char)
    requires AreLines(s)
    ensures AreLines(s.Push(c))
  {
  }

  lemma PushKeepsText(s: Cut, c: char)
    ensures Flat(s.Push(c).All()) == Flat(s.All()) + if IsEnd(c) then "" else [c]
  {
    if IsEnd(c) {
      assert s.Push(c).All() == s.All();
    } else {
      FlatSnoc(s.lines, s.tail);
      FlatSnoc(s.lines, s.tail + [c]);
      assert Flat(s.All()) == Flat(s.lines) + s.tail;
      assert Flat(s.lines) + (s.tail + [c]) == Flat(s.lines) + s.tail + [c];
    }
  }

  /** The lines are non-empty, hold no line end, and together are the text without its line ends. */
  lemma {:induction false} LinesHoldTheText(text: string)
    ensures AreLines(Split(text))
    ensures Flat(Lines(text)) == WithoutEnds(text)
  {
    if text != "" {
      LinesHoldTheText(text[..|text| - 1]);
      PushKeepsLines(Split(text[..|text| - 1]), text[|text| - 1]);
      PushKeepsText(Split(text[..|text| - 1]), text[|text| - 1]);
    }
  }

  lemma FlatSnoc(lines: seq<string>, tail: string)
    ensures Flat(lines + [tail]) == Flat(lines) + tail
  {
    assert (lines + [tail])[..|lines|] == lines;
  }

  /** Lines with any run of line ends after each. */
  function Weave(lines: seq<string>, ends: seq<string>): string
    requires |ends| == |lines|
  {
    if lines == [] then ""
    else
      var n := |lines| - 1;
      Weave(lines[..n], ends[..n]) + lines[n] + ends[n]
  }

  predicate AreEnds(s: string) {
    forall i :: 0 <= i < |s| ==> IsEnd(s[i])
  }

  /** Whatever line ends separate them, and with or without one at the end, the same lines come back. */
  lemma {:induction false} LinesRoundTrip(lines: seq<string>, ends: seq<string>)
    requires |ends| == |lines| && forall i :: 0 <= i < |lines| ==> lines[i] != "" && NoEnds(lines[i])
    requires forall i :: 0 <= i < |ends| ==> AreEnds(ends[i])
    requires forall i :: 0 <= i < |ends| - 1 ==> ends[i] != ""
    ensures Lines(Weave(lines, ends)) == lines
    ensures |lines| > 0 && ends[|lines| - 1] != "" ==> Split(Weave(lines, ends)).tail == ""
  {
    if lines != [] {
      var n := |lines| - 1;
      LinesRoundTrip(lines[..n], ends[..n]);
      var w := Weave(lines[..n], ends[..n]);
      PushLine(w, lines[n], |lines[n]|);
      UptoEnds(w, lines[n]);
      PushEnds(w + lines[n], ends[n], |ends[n]|);
      UptoEnds(w + lines[n], ends[n]);
      assert lines[n][..|lines[n]|] == lines[n];
      assert lines[..n] + [lines[n]] == lines;
    }
  }

  /** The first i characters of a chunk after what came before it. */
  function Upto(before: string, chunk: string, i: nat): string
    requires i <= |chunk|
  {
    before + chunk[..i]
  }

  lemma UptoNext(before: string, chunk: string, i: nat)
    requires i < |chunk|
    ensures Upto(before, chunk, i + 1) == Upto(before, chunk, i) + [chunk[i]]
    ensures Upto(before, chunk, i) + [chunk[i]] <= before + chunk
    ensures Split(Upto(before, chunk, i + 1)) == Split(Upto(before, chunk, i)).Push(chunk[i])
  {
    SplitPush(Upto(before, chunk, i), chunk[i]);
    assert Upto(before, chunk, i + 1) == Upto(before, chunk, i) + [chunk[i]];
  }

  lemma UptoEnds(before: string, chunk: string)
    ensures Upto(before, chunk, 0) == before && Upto(before, chunk, |chunk|) == before + chunk
  {
    assert chunk[..|chunk|] == chunk;
  }

  lemma {:induction false} PushLine(text: string, line: string, i: nat)
    requires Split(text).tail == "" && NoEnds(line) && i <= |line|
    ensures Split(Upto(text, line, i)) == Cut(Lines(text), line[..i])
  {
    if i == 0 {
      UptoEnds(text, line);
    } else {
      PushLine(text, line, i - 1);
      UptoNext(text, line, i - 1);
      assert line[..i - 1] + [line[i - 1]] == line[..i];
    }
  }

  lemma {:induction false} PushEnds(text: string, ends: string, i: nat)
    requires AreEnds(ends) && i <= |ends|
    ensures Lines(Upto(text, ends, i)) == Lines(text)
    ensures i > 0 ==> Split(Upto(text, ends, i)).tail == ""
  {
    if i == 0 {
      UptoEnds(text, ends);
    } else {
      PushEnds(text, ends, i - 1);
      UptoNext(text, ends, i - 1);
    }
  }

  // ----- which texts are accepted -----

  /** What the lines take in the store, each with its terminator. */
  function Bytes(lines: seq<string>): nat {
    if lines == [] then 0 else Bytes(lines[..|lines| - 1]) + |lines[|lines| - 1]| + 1
  }

  predicate Fit(lines: seq<string>) {
    && |lines| <= MAX_COUNT
    && (forall i :: 0 <= i < |lines| ==> |lines[i]| <= MAX_LINE)
    && Bytes(lines) <= MAX_BYTES
  }

  predicate Accepted(text: string) {
    NoNul(text) && Lines(text) != [] && Fit(Lines(text))
  }

  lemma {:induction false} BytesCount(lines: seq<string>)
    ensures Bytes(lines) == |Flat(lines)| + |lines|
  {
    if lines != [] {
      BytesCount(lines[..|lines| - 1]);
    }
  }

  /** The limits: twelve arguments of at most 255 characters, and 2048 bytes with a terminator for each. */
  lemma FitMeans(lines: seq<string>)
    ensures Fit(lines) <==> |lines| <= 12 && (forall line :: line in lines ==> |line| < 256) && |Flat(lines)| + |lines| <= 2048
  {
    BytesCount(lines);
    if forall line :: line in lines ==> |line| < 256 {
      forall i | 0 <= i < |lines| ensures |lines[i]| <= MAX_LINE {
        assert lines[i] in lines;
      }
    }
  }

  /** Accepted is what holds some character that ends no line, no NUL, and lines within the limits. */
  lemma AcceptedMeans(text: string)
    ensures Accepted(text) <==> '\0' !in text && !AreEnds(text) && Fit(Lines(text))
  {
    SomeLine(text);
  }

  lemma {:induction false} SomeLine(text: string)
    ensures Lines(text) == [] <==> AreEnds(text)
  {
    if text != "" {
      var front, c := text[..|text| - 1], text[|text| - 1];
      SomeLine(front);
      assert text == front + [c];
    }
  }

  lemma BytesSnoc(lines: seq<string>, line: string)
    ensures Bytes(lines + [line]) == Bytes(lines) + |line| + 1
  {
    assert (lines + [line])[..|lines|] == lines;
  }

  lemma {:induction false} FitPrefix(few: seq<string>, many: seq<string>)
    requires few <= many && Fit(many)
    ensures Fit(few)
  {
    if |few| < |many| {
      var shorter := many[..|many| - 1];
      assert forall i :: 0 <= i < |shorter| ==> shorter[i] == many[i];
      FitPrefix(few, shorter);
    } else {
      assert few == many;
    }
  }

  /** Text that follows leaves the closed lines alone and only lengthens the line in progress. */
  predicate Grown(c: Cut, d: Cut) {
    && c.lines <= d.lines
    && (c.tail == "" || (|d.lines| > |c.lines| && c.tail <= d.lines[|c.lines|]) || (d.lines == c.lines && c.tail <= d.tail))
  }

  lemma {:induction false} SplitGrows(p: string, text: string)
    requires p <= text
    ensures Grown(Split(p), Split(text))
  {
    if |p| < |text| {
      var shorter := text[..|text| - 1];
      assert p <= shorter;
      SplitGrows(p, shorter);
      var d, e := Split(shorter), Split(text);
      assert e == d.Push(text[|text| - 1]);
      assert d.lines <= e.lines;
    } else {
      assert p == text;
    }
  }

  /** Too much already, at some point of a text, is too much for the whole text. */
  lemma NeverFits(p: string, text: string)
    requires p <= text && (!Fit(Split(p).lines) || |Split(p).tail| > MAX_LINE)
    ensures !Accepted(text)
  {
    SplitGrows(p, text);
    var c, all := Split(p), Lines(text);
    assert c.lines <= all;
    if Fit(all) {
      FitPrefix(c.lines, all);
      assert false;
    }
  }

  /** The character after p that the parser stops at. */
  predicate Stops(lines: seq<string>, tail: string, c: char) {
    if IsEnd(c) then tail != "" && !Fit(lines + [tail])
    else c == '\0' || |tail| >= MAX_LINE
  }

  lemma StopIsFinal(p: string, c: char, text: string)
    requires p + [c] <= text && Stops(Split(p).lines, Split(p).tail, c)
    ensures !Accepted(text)
  {
    SplitPush(p, c);
    if c == '\0' {
      assert text[|p|] == (p + [c])[|p|];
    } else {
      NeverFits(p + [c], text);
    }
  }

  lemma StopsChunk(before: string, chunk: string, i: nat)
    requires i < |chunk|
    requires var s := Split(Upto(before, chunk, i)); Stops(s.lines, s.tail, chunk[i])
    ensures forall text :: before + chunk <= text ==> !Accepted(text)
  {
    UptoNext(before, chunk, i);
    forall text | before + chunk <= text ensures !Accepted(text) {
      StopIsFinal(Upto(before, chunk, i), chunk[i], text);
    }
  }

  // ----- the cache -----

  lemma {:induction false} FlatPrefix(chunks: seq<string>, i: nat)
    requires i <= |chunks|
    ensures Flat(chunks[..i]) <= Flat(chunks)
    decreases |chunks|
  {
    if i < |chunks| {
      var n := |chunks| - 1;
      FlatPrefix(chunks[..n], i);
      assert chunks[..n][..i] == chunks[..i];
    } else {
      assert chunks[..i] == chunks;
    }
  }

  class LaunchArgs {
    var args: seq<string>
    var bytes: int
    var source: string

    ghost predicate Valid()
      reads this
    {
      Fit(args) && bytes == Bytes(args)
    }

    method Clear()
      modifies this
      ensures Valid() && args == [] && source == ""
    {
      args, bytes, source := [], 0, "";
    }

    /** Stores a line unless a limit forbids it; an empty line is skipped. */
    method CommitLine(line: string) returns (ok: bool)
      requires Valid() && |line| <= MAX_LINE
      modifies this
      ensures Valid()
      ensures ok <==> line == "" || Fit(old(args) + [line])
      ensures ok ==> source == old(source) && args == Cut(old(args), line).All()
      ensures !ok ==> args == [] && source == ""
    {
      if |line| <= 0 {
        return true;
      }
      BytesSnoc(args, line);
      if |args| >= MAX_COUNT || |line| > MAX_LINE || bytes + |line| + 1 > MAX_BYTES {
        Clear();
        return false;
      }
      args := args + [line];
      bytes := bytes + |line| + 1;
      return true;
    }

    method ParseChar(c: char, line: string, skipLf: bool) returns (ok: bool, newLine: string, newSkip: bool)
      requires Valid() && |line| <= MAX_LINE && (skipLf ==> line == "")
      modifies this
      ensures Valid() && |newLine| <= MAX_LINE && (newSkip ==> newLine == "")
      ensures ok <==> !Stops(old(args), line, c)
      ensures ok ==> Cut(args, newLine) == Cut(old(args), line).Push(c)
      ensures !ok ==> args == [] && source == ""
    {
      newLine, newSkip := line, skipLf;
      if newSkip {
        newSkip := false;
        if c == '\n' {
          return true, newLine, newSkip;
        }
      }
      if c == '\r' || c == '\n' {
        ok := CommitLine(line);
        newLine, newSkip := "", c == '\r';
        return;
      }
      if c == '\0' || |line| >= MAX_LINE {
        Clear();
        return false, newLine, newSkip;
      }
      return true, line + [c], newSkip;
    }

    /** Closes the last line; the number of arguments, or -1 with an empty cache. */
    method FinishParse(name: string, line: string, ghost text: string) returns (r: int)
      requires Valid() && |line| <= MAX_LINE && NoNul(text) && Split(text) == Cut(args, line)
      modifies this
      ensures Loaded(text, name, r)
    {
      var ok := CommitLine(line);
      if !ok {
        return -1;
      }
      if |args| <= 0 {
        Clear();
        return -1;
      }
      source := if |name| < MAX_PATH then name else name[..MAX_PATH - 1];
      return |args|;
    }

    /** An accepted text leaves exactly its lines; any other leaves nothing. */
    ghost predicate Loaded(text: string, name: string, r: int)
      reads this
    {
      && Valid()
      && r == (if Accepted(text) then |Lines(text)| else -1)
      && args == (if Accepted(text) then Lines(text) else [])
      && source == (if !Accepted(text) then "" else if |name| < MAX_PATH then name else name[..MAX_PATH - 1])
    }

    /** One stretch of input after what has been read already; -1 as soon as the text cannot be accepted. */
    method ParseChunk(chunk: string, line: string, skipLf: bool, ghost before: string)
      returns (ok: bool, newLine: string, newSkip: bool)
      requires Valid() && |line| <= MAX_LINE && (skipLf ==> line == "")
      requires NoNul(before) && Split(before) == Cut(args, line)
      modifies this
      ensures Valid() && |newLine| <= MAX_LINE && (newSkip ==> newLine == "")
      ensures ok ==> NoNul(before + chunk) && Split(before + chunk) == Cut(args, newLine)
      ensures !ok ==> args == [] && source == "" && forall text :: before + chunk <= text ==> !Accepted(text)
    {
      newLine, newSkip := line, skipLf;
      var i := 0;
      UptoEnds(before, chunk);
      while i < |chunk|
        invariant 0 <= i <= |chunk| && Valid() && |newLine| <= MAX_LINE && (newSkip ==> newLine == "")
        invariant NoNul(Upto(before, chunk, i)) && Split(Upto(before, chunk, i)) == Cut(args, newLine)
      {
        UptoNext(before, chunk, i);
        ok, newLine, newSkip := ParseChar(chunk[i], newLine, newSkip);
        if !ok {
          StopsChunk(before, chunk, i);
          return;
        }
        i := i + 1;
      }
      ok := true;
    }

    method LoadFromBuffer(name: string, buffer: string) returns (r: int)
      modifies this
      ensures Loaded(buffer, name, r)
    {
      Clear();
      var ok, line, skipLf := ParseChunk(buffer, "", false, "");
      assert "" + buffer == buffer;
      if !ok {
        return -1;
      }
      r := FinishParse(name, line, buffer);
    }

    /** Reads the file in whatever chunks the device delivers; a read error leaves the cache empty. The
        result depends on the text alone, not on how it was cut up. */
    method ReadFromFd(name: string, chunks: seq<string>, failed: bool) returns (r: int)
      requires Valid() && args == [] && source == ""
      modifies this
      ensures !failed ==> Loaded(Flat(chunks), name, r)
      ensures failed ==> Valid() && r == -1 && args == []
    {
      var line, skipLf, ok := "", false, true;
      var i := 0;
      while i < |chunks|
        invariant 0 <= i <= |chunks| && Valid() && |line| <= MAX_LINE && (skipLf ==> line == "")
        invariant NoNul(Flat(chunks[..i])) && Split(Flat(chunks[..i])) == Cut(args, line)
      {
        assert chunks[..i + 1] == chunks[..i] + [chunks[i]];
        FlatSnoc(chunks[..i], chunks[i]);
        ok, line, skipLf := ParseChunk(chunks[i], line, skipLf, Flat(chunks[..i]));
        i := i + 1;
        if !ok {
          FlatPrefix(chunks, i);
          return -1;
        }
      }
      assert chunks[..|chunks|] == chunks;
      if failed {
        Clear();
        return -1;
      }
      r := FinishParse(name, line, Flat(chunks));
    }

    /** The arguments for the program to start, at most so many. */
    method CopyToArgv(maxArgs: nat) returns (copied: seq<string>)
      ensures copied == if |args| <= maxArgs then args else args[..maxArgs]
    {
      var count := |args|;
      if count > maxArgs {
        count := maxArgs;
      }
      copied := [];
      for i := 0 to count
        invariant copied == args[..i]
      {
        copied := copied + [args[i]];
      }
    }
  }
}
