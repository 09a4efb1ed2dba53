/** The text editor's edit operations on its NUL-terminated buffer. Every operation is a table of
    offsets from the cursor applied by two string routines, one that removes and one that inserts. */
module EditorInput {
  import opened Common
  import opened EditorRules
  import opened Options

  const MARGIN := 256

  // ----- texts as sequences -----

  /** s with the characters from lo up to hi replaced. */
  function Spliced(s: seq<char>, lo: int, hi: int, ins: seq<char>): (r: seq<char>)
    requires 0 <= lo <= hi <= |s|
    ensures |r| == |s| - (hi - lo) + |ins|
  {
    s[..lo] + ins + s[hi..]
  }

  /** In CR/LF mode, c is the LF of a CR/LF pair. */
  predicate OnPairLF(s: seq<char>, mode: TextMode, c: int) {
    mode == Other && 0 < c < |s| && s[c] == LF && s[c - 1] == CR
  }

  predicate OnPairCR(s: seq<char>, mode: TextMode, c: int) {
    mode == Other && 0 <= c && c + 1 < |s| && s[c] == CR && s[c + 1] == LF
  }

  predicate OnLF(s: seq<char>, mode: TextMode, c: int) {
    mode == Other && 0 <= c < |s| && s[c] == LF
  }

  /** Typing on the LF of a pair happens at its CR. */
  function EntryPoint(s: seq<char>, mode: TextMode, c: int): int {
    if OnPairLF(s, mode, c) then c - 1 else c
  }

  /** Erasing or marking up to the LF of a pair takes the LF as well. */
  function ExitPoint(s: seq<char>, mode: TextMode, c: int): int {
    if OnPairLF(s, mode, c) then c + 1 else c
  }

  // ----- C strings -----

  ghost predicate CString(a: array<char>, s: seq<char>)
    reads a
  {
    |s| < a.Length && a[|s|] == NUL && forall k :: 0 <= k < |s| ==> a[k] == s[k] && s[k] != NUL
  }

  method StrCpy(dst: array<char>, src: array<char>, ghost s: seq<char>)
    requires dst != src && CString(src, s) && |s| < dst.Length
    modifies dst
    ensures CString(dst, s)
  {
    var i := 0;
    while src[i] != NUL
      invariant 0 <= i <= |s| && CString(src, s)
      invariant forall k :: 0 <= k < i ==> dst[k] == s[k]
      decreases |s| - i
    {
      dst[i] := src[i];
      i := i + 1;
    }
    dst[i] := NUL;
  }

  /** Appends the string that starts at src + from. */
  method StrCat(dst: array<char>, src: array<char>, from: int, ghost d: seq<char>, ghost s: seq<char>)
    requires dst != src && CString(dst, d) && CString(src, s)
    requires 0 <= from <= |s| && |d| + |s| - from < dst.Length
    modifies dst
    ensures CString(dst, d + s[from..])
  {
    var end := 0;
    while dst[end] != NUL
      invariant 0 <= end <= |d|
      decreases |d| - end
    {
      end := end + 1;
    }
    var i := from;
    while src[i] != NUL
      invariant from <= i <= |s| && CString(src, s) && end == |d|
      invariant forall k :: 0 <= k < |d| ==> dst[k] == d[k]
      invariant forall k :: from <= k < i ==> dst[end + k - from] == s[k]
      decreases |s| - i
    {
      dst[end + i - from] := src[i];
      i := i + 1;
    }
    dst[end + i - from] := NUL;
    ghost var r := d + s[from..];
    assert forall k :: |d| <= k < |r| ==> r[k] == s[from + k - |d|] && dst[k] == dst[end + (from + k - |d|) - from];
  }

  /** Cuts the string at lo and joins on what followed hi, by way of a second buffer. */
  method EraseInPlace(text: array<char>, tmp: array<char>, lo: int, hi: int, ghost s: seq<char>)
    requires text != tmp && CString(text, s) && |s| < tmp.Length && 0 <= lo <= hi <= |s|
    modifies text, tmp
    ensures CString(text, Spliced(s, lo, hi, [])) && CString(tmp, Spliced(s, lo, hi, []))
  {
    StrCpy(tmp, text, s);
    text[lo] := NUL;
    StrCat(text, tmp, hi, s[..lo], s);
    assert Spliced(s, lo, hi, []) == s[..lo] + s[hi..];
    StrCpy(tmp, text, Spliced(s, lo, hi, []));
  }

  // ----- what the offset tables amount to -----

  /** Return modes 1 to 3 write CR/LF, CR and LF. Mode 4, which the mode key also reaches, writes nothing. */
  function LineBreak(retMode: int): seq<char> {
    if retMode == 1 then [CR, LF] else if retMode == 2 then [CR] else if retMode == 3 then [LF] else []
  }

  /** What typing makes of the text: inserted, or written over the character or CR/LF pair it replaces. */
  function Typed(s: seq<char>, mode: TextMode, insert: bool, p: int, ins: seq<char>): seq<char>
    requires 0 <= p <= |s|
  {
    Spliced(s, p, p + Overwritten(s, mode, insert, p), ins)
  }

  function Overwritten(s: seq<char>, mode: TextMode, insert: bool, p: int): (n: int)
    requires 0 <= p <= |s|
    ensures 0 <= n && p + n <= |s|
  {
    if insert || p == |s| then 0 else if OnPairCR(s, mode, p) then 2 else 1
  }

  /** How many characters Backspace takes when nothing is marked. */
  function Erased(s: seq<char>, mode: TextMode, p: int): (n: int)
    requires 0 < p <= |s|
    ensures 1 <= n <= p
  {
    if mode == Other && s[p - 1] == LF && p > 1 && s[p - 2] == CR then 2 else 1
  }

  /** What Backspace makes of the text without a mark. */
  function Backspaced(s: seq<char>, mode: TextMode, c: int): seq<char>
    requires 0 < c <= |s|
  {
    var p := ExitPoint(s, mode, c);
    Spliced(s, p - Erased(s, mode, p), p, [])
  }

  function Distance(a: int, b: int): nat {
    if a < b then b - a else a - b
  }

  /** What erasing a marked stretch makes of the text: as many characters as are marked go, those before
      the cursor. */
  function CutFrom(s: seq<char>, c: int, mark: int): seq<char>
    requires 0 <= c <= |s| && 0 <= mark <= |s| && mark - c <= c
  {
    Spliced(s, c - Distance(c, mark), c, [])
  }

  function Pasted(s: seq<char>, mode: TextMode, c: int, clip: seq<char>): seq<char>
    requires 0 <= c <= |s| && (OnLF(s, mode, c) ==> c > 0 && clip != [])
  {
    if OnLF(s, mode, c) then Spliced(s, c - 1, c - 1, clip[..|clip| - 1]) else Spliced(s, c, c, clip)
  }

  /** What a user can do to the text. */
  datatype Edit =
    | Key(c: char)
    | Enter
    | EraseBefore
    | EraseHere
    | GoTo(p: int)
    | InsertKey
    | ReturnModeKey
    | MarkKey
    | CopyKey
    | CutKey
    | PasteKey

  // ----- the editor as a value -----

  /** What a paste would insert. */
  datatype Held = Nothing | Copied(chars: seq<char>) | Taken(chars: seq<char>)

  /** All that an edit depends on and can change. */
  datatype Page = Page(text: seq<char>, cur: int, insert: bool, retMode: int, mark: Option<int>, held: Held)

  predicate Sound(p: Page) {
    && 0 <= p.cur <= |p.text| && 1 <= p.retMode <= 4
    && (p.mark.Some? ==> 0 <= p.mark.value <= |p.text| && p.held.Nothing?)
  }

  /** The edit stays inside the buffer and does not leave half of a CR/LF pair overwritten. */
  predicate CanApply(p: Page, mode: TextMode, e: Edit) {
    var entry, exit := EntryPoint(p.text, mode, p.cur), ExitPoint(p.text, mode, p.cur);
    match e
    case Key(c) => c != NUL && (p.insert || !OnPairCR(p.text, mode, entry))
    case Enter => p.retMode <= 3 && (p.insert || !OnPairCR(p.text, mode, entry) || p.retMode == 1)
    case EraseBefore => p.mark.Some? && p.cur > 0 ==> p.mark.value - exit <= exit
    case EraseHere =>
      if p.mark.Some? then p.mark.value - entry <= entry
      else p.cur < |p.text| && (OnLF(p.text, mode, p.cur) ==> p.cur > 0)
    case GoTo(q) => 0 <= q <= |p.text|
    case CutKey => p.mark.Some? ==> p.mark.value - exit <= exit
    case PasteKey => !p.held.Nothing? && OnLF(p.text, mode, p.cur) ==> p.cur > 0 && p.held.chars != []
    case _ => true
  }

  function EnterPage(p: Page, mode: TextMode, ins: seq<char>): (r: Page)
    requires Sound(p)
    ensures ins != [] && (p.insert || !OnPairCR(p.text, mode, EntryPoint(p.text, mode, p.cur)) || |ins| == 2) ==> Sound(r)
  {
    var at := EntryPoint(p.text, mode, p.cur);
    p.(text := Typed(p.text, mode, p.insert, at, ins), cur := at + |ins|)
  }

  function BackspacePage(p: Page, mode: TextMode): (r: Page)
    requires Sound(p) && p.cur > 0
    ensures p.mark.None? ==> Sound(r)
  {
    var c := ExitPoint(p.text, mode, p.cur);
    p.(text := Backspaced(p.text, mode, p.cur), cur := c - Erased(p.text, mode, c))
  }

  function DeletePage(p: Page, mode: TextMode): (r: Page)
    requires Sound(p) && p.cur < |p.text| && (OnLF(p.text, mode, p.cur) ==> p.cur > 0)
    ensures p.mark.None? ==> Sound(r)
  {
    var s, c := p.text, EntryPoint(p.text, mode, p.cur);
    if OnPairCR(s, mode, c) then p.(text := Spliced(s, c, c + 2, []), cur := c)
    else if OnLF(s, mode, c) then p.(text := Spliced(s, c - 1, c + 1, []), cur := c - 1)
    else p.(text := Spliced(s, c, c + 1, []), cur := c)
  }

  /** An empty mark stays. */
  function ErasePage(p: Page, c: int): (r: Page)
    requires Sound(p) && p.mark.Some? && 0 <= c <= |p.text| && p.mark.value - c <= c
    ensures Sound(r)
  {
    var m := p.mark.value;
    p.(text := CutFrom(p.text, c, m), cur := c - Distance(c, m), mark := if c == m then p.mark else None)
  }

  function MarkPage(p: Page, mode: TextMode): (r: Page)
    requires Sound(p)
    ensures Sound(r)
  {
    var c := EntryPoint(p.text, mode, p.cur);
    if p.mark.Some? then p.(mark := None) else p.(cur := c, mark := Some(c), held := Nothing)
  }

  /** The characters between two places, in either order. */
  function Between(s: seq<char>, a: int, b: int): seq<char>
    requires 0 <= a <= |s| && 0 <= b <= |s|
  {
    if a < b then s[a..b] else s[b..a]
  }

  function CopyPage(p: Page, mode: TextMode): (r: Page)
    requires Sound(p)
    ensures Sound(r)
  {
    var c := ExitPoint(p.text, mode, p.cur);
    if p.mark.None? then p
    else if c == p.mark.value then p.(cur := c)
    else p.(cur := c, mark := None, held := Copied(Between(p.text, c, p.mark.value)))
  }

  function CutPage(p: Page, mode: TextMode): (r: Page)
    requires Sound(p) && CanApply(p, mode, CutKey)
    ensures Sound(r)
  {
    var c := ExitPoint(p.text, mode, p.cur);
    if p.mark.None? then p
    else if c == p.mark.value then p.(cur := c)
    else ErasePage(p, c).(held := Taken(Between(p.text, c, p.mark.value)))
  }

  function PastePage(p: Page, mode: TextMode): (r: Page)
    requires Sound(p) && CanApply(p, mode, PasteKey)
    ensures Sound(r)
  {
    if p.held.Nothing? then p
    else
      var onLF := OnLF(p.text, mode, p.cur);
      var chars := if onLF then p.held.chars[..|p.held.chars| - 1] else p.held.chars;
      p.(text := Pasted(p.text, mode, p.cur, p.held.chars), held := p.held.(chars := chars),
         cur := (if onLF then p.cur - 1 else p.cur) + |chars|)
  }

  /** What one edit makes of the page. */
  function AfterEdit(p: Page, mode: TextMode, e: Edit): (r: Page)
    requires Sound(p) && CanApply(p, mode, e)
  {
    match e
    case Key(c) => EnterPage(p, mode, [c])
    case Enter => EnterPage(p, mode, LineBreak(p.retMode))
    case EraseBefore =>
      if p.cur == 0 then p
      else if p.mark.Some? then ErasePage(p, ExitPoint(p.text, mode, p.cur)) else BackspacePage(p, mode)
    case EraseHere =>
      if p.mark.Some? then ErasePage(p, EntryPoint(p.text, mode, p.cur)) else DeletePage(p, mode)
    case GoTo(q) => p.(cur := q)
    case InsertKey => p.(insert := !p.insert)
    case ReturnModeKey => p.(retMode := if p.retMode == 4 then 1 else p.retMode + 1)
    case MarkKey => MarkPage(p, mode)
    case CopyKey => CopyPage(p, mode)
    case CutKey => CutPage(p, mode)
    case PasteKey => PastePage(p, mode)
  }

  /** One edit that can be applied, and what it makes of the page. */
  predicate Turn(p: Page, mode: TextMode, e: Edit, q: Page) {
    Sound(p) && CanApply(p, mode, e) && q == AfterEdit(p, mode, e)
  }

  /** The pages of a run, before the first edit, between the edits and after the last one. */
  ghost predicate Trail(pages: seq<Page>, mode: TextMode, edits: seq<Edit>) {
    |pages| == |edits| + 1 && forall i :: 0 <= i < |edits| ==> Turn(pages[i], mode, edits[i], pages[i + 1])
  }

  lemma TrailTo(pages: seq<Page>, mode: TextMode, edits: seq<Edit>, n: nat)
    requires Trail(pages, mode, edits) && n <= |edits|
    ensures Trail(pages[..n + 1], mode, edits[..n])
  {
  }

  lemma TrailGrows(pages: seq<Page>, mode: TextMode, edits: seq<Edit>, n: nat, q: Page)
    requires n < |edits| && Trail(pages, mode, edits[..n]) && Turn(pages[n], mode, edits[n], q)
    ensures Trail(pages + [q], mode, edits[..n + 1])
  {
  }

  class TextWindow {
    var text: array<char>
    var textSize: int
    var mode: TextMode
    var cur: int
    var insert: bool
    var retMode: int
    /** The copied or cut characters; not NUL-terminated, markSize of them. */
    var clip: array<char>
    var markOn: bool
    var markCopy: bool
    var markCut: bool
    var markIn: int
    var markOut: int
    var markSize: int
    /** The string in the buffer. */
    ghost var content: seq<char>

    ghost predicate Holding()
      reads `text, `content, `cur, text
    {
      CString(text, content) && 0 <= cur <= |content|
    }

    /** The recorded size is the length of the string. */
    ghost predicate Valid()
      reads `text, `content, `cur, `textSize, text
    {
      Holding() && textSize == |content|
    }

    ghost predicate HasClip()
      reads `text, `clip, `markSize, clip
    {
      text != clip && 0 <= markSize <= clip.Length && forall k :: 0 <= k < markSize ==> clip[k] != NUL
    }

    ghost function Clip(): seq<char>
      reads `clip, `markSize, clip
      requires 0 <= markSize <= clip.Length
    {
      clip[..markSize]
    }

    /** Between two edits: the size is right, the return mode is one of the four, a mark lies in the text, and
        there is a clip whenever one may be pasted. Marking has given up any earlier clip. */
    ghost predicate Ready()
      reads this, text, clip
    {
      && Valid() && 1 <= retMode <= 4
      && (markOn ==> 0 <= markIn <= |content| && !markCopy && !markCut)
      && (markCopy || markCut ==> HasClip())
    }

    /** The window as a page. */
    ghost function View(): (p: Page)
      reads this, text, clip
      requires Ready()
      ensures Sound(p)
    {
      Page(content, cur, insert, retMode, if markOn then Some(markIn) else None,
        if markCut then Taken(Clip()) else if markCopy then Copied(Clip()) else Nothing)
    }

    constructor (mode: TextMode)
      ensures Ready() && content == [] && this.mode == mode && insert && !markOn && fresh(text) && fresh(clip)
    {
      text := new char[MARGIN](_ => NUL);
      clip := new char[0];
      textSize, this.mode, cur, insert := 0, mode, 0, true;
      retMode := if mode == Other then 1 else if mode == Unix then 2 else 3;
      markOn, markCopy, markCut, markIn, markOut, markSize := false, false, false, 0, 0, 0;
      content := [];
    }

    // ----- the two routines under every edit -----

    /** Cuts the string at cur + del1 and appends what followed cur + del2. */
    method Remove(del1: int, del2: int, del3: int, del4: int)
      requires Valid() && 0 <= cur + del1 <= cur + del2 <= |content|
      requires 0 <= cur + del3 <= |content| - (del2 - del1) && del1 - del2 <= del3
      modifies `text, `content, `cur, `textSize, text
      ensures Holding() && fresh(text)
      ensures content == Spliced(old(content), old(cur) + del1, old(cur) + del2, [])
      ensures cur == old(cur) + del3 && textSize == old(textSize) + del4
    {
      var tmp := new char[textSize + MARGIN];
      EraseInPlace(text, tmp, cur + del1, cur + del2, content);
      content := Spliced(content, cur + del1, cur + del2, []);
      text := new char[textSize + del3 + MARGIN];
      StrCpy(text, tmp, content);
      cur, textSize := cur + del3, textSize + del4;
    }

    /** Takes out the n characters before the cursor. */
    method TakeBefore(n: int)
      requires Valid() && 0 <= n <= cur
      modifies `text, `content, `cur, `textSize, text
      ensures Valid() && fresh(text) && cur == old(cur) - n
      ensures content == Spliced(old(content), old(cur) - n, old(cur), [])
    {
      Remove(-n, 0, -n, -n);
    }

    /** Moves the string to a larger buffer, keeping a second copy for its tail. */
    method Enlarge(ins1: int) returns (tmp: array<char>)
      requires Valid() && ins1 >= 0
      modifies `text
      ensures Valid() && fresh(text) && text.Length == textSize + ins1 + MARGIN
      ensures fresh(tmp) && tmp != text && CString(tmp, content)
    {
      tmp := new char[textSize + ins1 + MARGIN];
      StrCpy(tmp, text, content);
      text := new char[textSize + ins1 + MARGIN];
      StrCpy(text, tmp, content);
    }

    /** Ends the string after the written characters and appends what followed cur + ins4. */
    method Rejoin(tmp: array<char>, ins1: int, ins3: int, ins4: int, ins5: int, ghost ins: seq<char>)
      requires tmp != text && CString(tmp, content) && 0 <= cur <= |content|
      requires |ins| == ins3 && NUL !in ins && 0 <= ins4 && cur + ins4 <= |content|
      requires |content| + ins3 - ins4 < text.Length
      requires forall k :: 0 <= k < cur ==> text[k] == content[k]
      requires forall k :: 0 <= k < ins3 ==> text[cur + k] == ins[k]
      requires 0 <= ins5 <= ins3
      modifies `content, `cur, `textSize, text
      ensures Holding() && content == Spliced(old(content), old(cur), old(cur) + ins4, ins)
      ensures cur == old(cur) + ins5 && textSize == old(textSize) + ins1
    {
      ghost var s := content;
      ghost var head := s[..cur] + ins;
      text[cur + ins3] := NUL;
      assert CString(text, head);
      StrCat(text, tmp, cur + ins4, head, s);
      content := Spliced(s, cur, cur + ins4, ins);
      cur, textSize := cur + ins5, textSize + ins1;
    }

    // ----- typing -----

    /** Moves off the LF of a pair, so that an entry there happens at its CR. */
    method MoveToEntry()
      requires Valid()
      modifies `cur
      ensures Valid() && cur == EntryPoint(content, mode, old(cur))
    {
      if mode == Other && text[cur] == LF && cur > 0 && text[cur - 1] == CR {
        cur := cur - 1;
      }
    }

    /** How many characters an entry at the cursor replaces. */
    method CountOverwritten() returns (n: int)
      requires Valid()
      ensures n == Overwritten(content, mode, insert, cur)
    {
      if insert || text[cur] == NUL {
        return 0;
      }
      if mode == Other && text[cur] == CR && text[cur + 1] == LF {
        return 2;
      }
      return 1;
    }

    /** An ordinary character, a tab or a special character. */
    method Type(c: char)
      requires Valid() && c != NUL
      modifies `text, `content, `cur, `textSize, text
      ensures fresh(text)
      ensures var p := EntryPoint(old(content), mode, old(cur));
        && Holding() && cur == p + 1
        && content == Typed(old(content), mode, insert, p, [c])
        && (textSize == |content| <==> !(!insert && OnPairCR(old(content), mode, p)))
    {
      MoveToEntry();
      var ins4 := CountOverwritten();
      var ins1 := if ins4 == 0 then 1 else 0;
      var tmp := Enlarge(ins1);
      text[cur] := c;
      Rejoin(tmp, ins1, 1, ins4, 1, [c]);
    }

    /** Writes the line break of the return mode over the buffer at the cursor. */
    method WriteLineBreak()
      requires Holding() && 1 <= retMode <= 3 && cur + 2 < text.Length
      modifies text
      ensures forall k :: 0 <= k < cur ==> text[k] == content[k]
      ensures forall k :: 0 <= k < |LineBreak(retMode)| ==> text[cur + k] == LineBreak(retMode)[k]
    {
      if retMode == 1 {
        text[cur] := CR;
        text[cur + 1] := LF;
      } else if retMode == 2 {
        text[cur] := CR;
      } else {
        text[cur] := LF;
      }
    }

    /** The Return key in the three modes that write a line break. */
    method Return()
      requires Valid() && 1 <= retMode <= 3
      modifies `text, `content, `cur, `textSize, text
      ensures fresh(text)
      ensures var p := EntryPoint(old(content), mode, old(cur));
        && Holding() && cur == p + |LineBreak(retMode)|
        && content == Typed(old(content), mode, insert, p, LineBreak(retMode))
        && (textSize == |content| <==> !(!insert && OnPairCR(old(content), mode, p) && retMode != 1))
    {
      MoveToEntry();
      EnterLineBreak();
    }

    method EnterLineBreak()
      requires Valid() && 1 <= retMode <= 3
      modifies `text, `content, `cur, `textSize, text
      ensures Holding() && fresh(text) && cur == old(cur) + |LineBreak(retMode)|
      ensures content == Typed(old(content), mode, insert, old(cur), LineBreak(retMode))
      ensures textSize == |content| <==> !(!insert && OnPairCR(old(content), mode, old(cur)) && retMode != 1)
    {
      var ins4 := CountOverwritten();
      var ins3 := if retMode == 1 then 2 else 1;
      var ins1 := if ins4 == 0 then ins3 else if ins4 == 1 then ins3 - 1 else 0;
      PutLineBreak(ins1, ins3, ins4);
    }

    method PutLineBreak(ins1: int, ins3: int, ins4: int)
      requires Valid() && 1 <= retMode <= 3 && ins1 >= 0 && ins3 == |LineBreak(retMode)|
      requires 0 <= ins4 && cur + ins4 <= |content|
      modifies `text, `content, `cur, `textSize, text
      ensures Holding() && fresh(text) && cur == old(cur) + ins3 && textSize == old(textSize) + ins1
      ensures content == Spliced(old(content), old(cur), old(cur) + ins4, LineBreak(retMode))
    {
      var tmp := Enlarge(ins1);
      WriteLineBreak();
      Rejoin(tmp, ins1, ins3, ins4, ins3, LineBreak(retMode));
    }

    // ----- erasing -----

    /** Takes the LF of a pair along when erasing or marking from it. */
    method MoveToExit()
      requires Valid()
      modifies `cur
      ensures Valid() && cur == ExitPoint(content, mode, old(cur))
    {
      if mode == Other && text[cur] == LF && cur > 0 && text[cur - 1] == CR {
        cur := cur + 1;
      }
    }

    /** Backspace without a mark: one character, or a whole CR/LF pair, before the cursor. */
    method Backspace()
      requires Valid() && !markOn
      modifies `text, `content, `cur, `textSize, text
      ensures Valid() && (text == old(text) || fresh(text))
      ensures old(cur) == 0 ==> content == old(content) && cur == 0
      ensures old(cur) > 0 ==>
                var p := ExitPoint(old(content), mode, old(cur));
                content == Backspaced(old(content), mode, old(cur)) && cur == p - Erased(old(content), mode, p)
    {
      if cur > 0 {
        MoveToExit();
        if mode == Other && text[cur - 1] == LF && cur > 1 && text[cur - 2] == CR {
          TakeBefore(2);
        } else {
          TakeBefore(1);
        }
      }
    }

    /** Delete without a mark, before the end of the text: the character at the cursor or the CR/LF pair there;
        a lone LF in CR/LF mode takes the character before it as well. */
    method Delete()
      requires Valid() && !markOn && cur < |content|
      requires OnLF(content, mode, cur) ==> cur > 0
      modifies `text, `content, `cur, `textSize, text
      ensures Valid() && fresh(text)
      ensures var s, p := old(content), EntryPoint(old(content), mode, old(cur));
        if OnPairCR(s, mode, p) then content == Spliced(s, p, p + 2, []) && cur == p
        else if OnLF(s, mode, p) then content == Spliced(s, p - 1, p + 1, []) && cur == p - 1
        else content == Spliced(s, p, p + 1, []) && cur == p
    {
      MoveToEntry();
      if mode == Other && text[cur] == CR && text[cur + 1] == LF {
        Remove(0, 2, 0, -2);
      } else if mode == Other && text[cur] == LF {
        Remove(-1, 1, -1, -2);
      } else {
        Remove(0, 1, 0, -1);
      }
    }

    // ----- marking, copying, cutting, pasting -----

    /** The mark key: on an unmarked text, starts a mark and forgets the clip. */
    method ToggleMark()
      requires Valid()
      modifies `cur, `markOn, `markCopy, `markCut, `markIn, `markOut, `markSize
      ensures Valid() && markOn == !old(markOn)
      ensures markOn ==> cur == EntryPoint(content, mode, old(cur)) && markIn == cur && markSize == 0 && !markCopy && !markCut
      ensures !markOn ==> cur == old(cur) && markSize == old(markSize) && markCopy == old(markCopy) && markCut == old(markCut)
    {
      markOn := !markOn;
      if markOn {
        MoveToEntry();
        markCopy, markCut := false, false;
        markIn, markOut, markSize := cur, cur, 0;
      }
    }

    /** The stretch between the mark and the cursor, with the mark put first. */
    method CloseMark() returns (empty: bool)
      requires Valid() && 0 <= markIn <= |content|
      modifies `cur, `markIn, `markOut
      ensures Valid() && cur == ExitPoint(content, mode, old(cur))
      ensures 0 <= markIn <= markOut <= |content|
      ensures markIn == (if cur < old(markIn) then cur else old(markIn))
      ensures markOut == (if cur < old(markIn) then old(markIn) else cur)
      ensures empty <==> markIn == markOut
    {
      MoveToExit();
      markOut := cur;
      if markOut < markIn {
        markIn, markOut := markOut, markIn;
      }
      empty := markIn == markOut;
    }

    /** As many characters before the cursor as are marked. */
    method EraseMarked()
      requires Valid() && 0 <= markIn <= |content| && markIn - cur <= cur
      modifies `text, `content, `cur, `textSize, `markIn, `markOut, `markSize, `markOn, text
      ensures Valid() && (text == old(text) || fresh(text))
      ensures content == CutFrom(old(content), old(cur), old(markIn))
      ensures cur == old(cur) - Distance(old(cur), old(markIn))
      ensures markOn == (old(cur) == old(markIn) && old(markOn)) && (markOn ==> markIn == old(markIn))
    {
      markOut := cur;
      if markOut < markIn {
        markIn, markOut := markOut, markIn;
      } else if markIn == markOut {
        assert CutFrom(content, cur, cur) == content;
        return;
      }
      markSize := markOut - markIn;
      markOn := false;
      TakeBefore(markSize);
    }

    method BackspaceMarked()
      requires Valid() && markOn && 0 <= markIn <= |content| && 0 < cur
      requires markIn - ExitPoint(content, mode, cur) <= ExitPoint(content, mode, cur)
      modifies `text, `content, `cur, `textSize, `markIn, `markOut, `markSize, `markOn, text
      ensures Valid() && (text == old(text) || fresh(text))
      ensures var c := ExitPoint(old(content), mode, old(cur));
        && content == CutFrom(old(content), c, old(markIn)) && cur == c - Distance(c, old(markIn))
        && markOn == (c == old(markIn)) && (markOn ==> markIn == old(markIn))
    {
      MoveToExit();
      EraseMarked();
    }

    method DeleteMarked()
      requires Valid() && markOn && 0 <= markIn <= |content|
      requires markIn - EntryPoint(content, mode, cur) <= EntryPoint(content, mode, cur)
      modifies `text, `content, `cur, `textSize, `markIn, `markOut, `markSize, `markOn, text
      ensures Valid() && (text == old(text) || fresh(text))
      ensures var c := EntryPoint(old(content), mode, old(cur));
        && content == CutFrom(old(content), c, old(markIn)) && cur == c - Distance(c, old(markIn))
        && markOn == (c == old(markIn)) && (markOn ==> markIn == old(markIn))
    {
      MoveToEntry();
      EraseMarked();
    }

    /** Fills the clip with the marked characters. */
    method FillClip()
      requires Valid() && 0 <= markIn < markOut <= |content|
      modifies `clip, `markSize
      ensures fresh(clip) && HasClip() && markSize == markOut - markIn && Clip() == content[markIn..markOut]
    {
      markSize := markOut - markIn;
      clip := new char[markSize + MARGIN];
      CopyMarked();
    }

    method CopyMarked()
      requires Valid() && 0 <= markIn && 0 <= markSize <= clip.Length && markIn + markSize <= |content| && text != clip
      modifies clip
      ensures forall k :: 0 <= k < markSize ==> clip[k] == content[markIn + k]
    {
      var i := 0;
      while i < markSize
        invariant 0 <= i <= markSize && Valid()
        invariant forall k :: 0 <= k < i ==> clip[k] == content[markIn + k]
      {
        clip[i] := text[i + markIn];
        i := i + 1;
      }
    }

    /** Copy: the marked stretch goes to the clip and the text stays. */
    method Copy()
      requires Valid() && markOn && 0 <= markIn <= |content|
      modifies `cur, `markIn, `markOut, `markSize, `clip, `markOn, `markCopy, `markCut
      ensures Valid() && content == old(content)
      ensures var c := ExitPoint(content, mode, old(cur));
        var lo, hi := if c < old(markIn) then c else old(markIn), if c < old(markIn) then old(markIn) else c;
        && cur == c
        && (lo < hi ==> HasClip() && Clip() == content[lo..hi] && markCopy && !markCut && !markOn)
        && (lo == hi ==> markOn && markIn == old(markIn) && markCopy == old(markCopy) && markCut == old(markCut))
    {
      var empty := CloseMark();
      if empty { return; }
      FillClip();
      markCopy, markCut, markOn := true, false, false;
    }

    /** Cut: the marked stretch goes to the clip, and as many characters before the cursor are erased. */
    method Cut()
      requires Valid() && markOn && 0 <= markIn <= |content|
      requires markIn - ExitPoint(content, mode, cur) <= ExitPoint(content, mode, cur)
      modifies `text, `content, `cur, `textSize, `markIn, `markOut, `markSize, `clip, `markOn, `markCopy, `markCut, text
      ensures Valid() && (text == old(text) || fresh(text))
      ensures var s, c := old(content), ExitPoint(old(content), mode, old(cur));
        var lo, hi := if c < old(markIn) then c else old(markIn), if c < old(markIn) then old(markIn) else c;
        && (lo < hi ==> HasClip() && Clip() == s[lo..hi] && markCut && !markCopy && !markOn)
        && (lo == hi ==> markOn && markIn == old(markIn) && markCopy == old(markCopy) && markCut == old(markCut))
        && content == CutFrom(s, c, old(markIn)) && cur == c - (hi - lo)
    {
      var empty := CloseMark();
      if empty {
        assert CutFrom(content, cur, cur) == content;
        return;
      }
      CutMarked();
    }

    method CutMarked()
      requires Valid() && 0 <= markIn < markOut <= |content| && markOut - markIn <= cur
      modifies `text, `content, `cur, `textSize, `markSize, `clip, `markOn, `markCopy, `markCut, text
      ensures Valid() && fresh(text) && cur == old(cur) - (markOut - markIn)
      ensures content == Spliced(old(content), cur, old(cur), [])
      ensures HasClip() && Clip() == old(content)[markIn..markOut] && markCut && !markCopy && !markOn
    {
      FillClip();
      markCut, markCopy, markOn := true, false, false;
      TakeBefore(markSize);
    }

    /** Paste: the clip at the cursor. On an LF in CR/LF mode the last character of the clip is lost
        and the rest goes in one place earlier. */
    method Paste()
      requires Valid() && HasClip() && (markCopy || markCut)
      requires OnLF(content, mode, cur) ==> cur > 0 && markSize > 0
      modifies `text, `content, `cur, `textSize, `markSize, text
      ensures Valid() && fresh(text)
      ensures content == Pasted(old(content), mode, old(cur), old(Clip()))
      ensures markSize == if OnLF(old(content), mode, old(cur)) then old(markSize) - 1 else old(markSize)
      ensures cur == (if OnLF(old(content), mode, old(cur)) then old(cur) - 1 else old(cur)) + markSize
      ensures HasClip() && Clip() == old(Clip())[..markSize]
    {
      if mode == Other && text[cur] == LF {
        cur := cur - 1;
        markSize := markSize - 1;
      }
      assert Clip() == old(Clip())[..markSize];
      InsertClip();
    }

    /** The clip at the cursor. */
    method InsertClip()
      requires Valid() && HasClip()
      modifies `text, `content, `cur, `textSize, text
      ensures Valid() && fresh(text) && HasClip() && Clip() == old(Clip()) && cur == old(cur) + markSize
      ensures content == Spliced(old(content), old(cur), old(cur), Clip())
    {
      var size := markSize;
      var tmp := Enlarge(size);
      OverlayClip(size);
      Rejoin(tmp, size, size, 0, size, clip[..size]);
    }

    /** Writes the clip over the buffer at the cursor. */
    method OverlayClip(size: int)
      requires Holding() && text != clip && 0 <= size <= clip.Length && cur + size < text.Length
      modifies text
      ensures forall k :: 0 <= k < cur ==> text[k] == content[k]
      ensures forall k :: 0 <= k < size ==> text[cur + k] == clip[k]
    {
      var i := 0;
      while i < size
        invariant 0 <= i <= size
        invariant forall k :: 0 <= k < cur ==> text[k] == content[k]
        invariant forall k :: 0 <= k < i ==> text[cur + k] == clip[k]
      {
        text[i + cur] := clip[i];
        i := i + 1;
      }
    }

    // ----- every run -----

    method EntryHere() returns (p: int)
      requires Valid()
      ensures p == EntryPoint(content, mode, cur)
    {
      p := if mode == Other && text[cur] == LF && cur > 0 && text[cur - 1] == CR then cur - 1 else cur;
    }

    method PairAt(p: int) returns (pair: bool)
      requires Valid() && 0 <= p <= |content|
      ensures pair == OnPairCR(content, mode, p)
    {
      pair := mode == Other && text[p] == CR && text[p + 1] == LF;
    }

    method CheckApplies(e: Edit) returns (ok: bool)
      requires Ready()
      ensures ok == CanApply(View(), mode, e)
    {
      var entry := EntryHere();
      var pair := PairAt(entry);
      var onLF := mode == Other && text[cur] == LF;
      var exit := if entry == cur then cur else cur + 1;
      match e {
        case Key(c) => ok := c != NUL && (insert || !pair);
        case Enter => ok := 1 <= retMode <= 3 && (insert || !pair || retMode == 1);
        case EraseBefore => ok := !markOn || cur == 0 || markIn - exit <= exit;
        case EraseHere => ok := if markOn then markIn - entry <= entry else cur < textSize && (!onLF || cur > 0);
        case GoTo(p) => ok := 0 <= p <= textSize;
        case CutKey => ok := !markOn || markIn - exit <= exit;
        case PasteKey => ok := !(markCopy || markCut) || !onLF || (cur > 0 && markSize > 0);
        case _ => ok := true;
      }
    }

    method EraseMarkedBefore()
      requires Ready() && CanApply(View(), mode, EraseBefore) && markOn && cur > 0
      modifies this, text
      ensures Ready() && (text == old(text) || fresh(text)) && mode == old(mode)
      ensures View() == AfterEdit(old(View()), mode, EraseBefore)
    {
      BackspaceMarked();
    }

    method EraseOneBefore()
      requires Ready() && CanApply(View(), mode, EraseBefore) && !markOn
      modifies this, text
      ensures Ready() && (text == old(text) || fresh(text)) && mode == old(mode)
      ensures View() == AfterEdit(old(View()), mode, EraseBefore)
    {
      Backspace();
    }

    method BackspaceKey()
      requires Ready() && CanApply(View(), mode, EraseBefore)
      modifies this, text
      ensures Ready() && (text == old(text) || fresh(text)) && mode == old(mode)
      ensures View() == AfterEdit(old(View()), mode, EraseBefore)
    {
      if markOn && cur > 0 {
        EraseMarkedBefore();
      } else if !markOn {
        EraseOneBefore();
      }
    }

    method EraseMarkedHere()
      requires Ready() && CanApply(View(), mode, EraseHere) && markOn
      modifies this, text
      ensures Ready() && (text == old(text) || fresh(text)) && mode == old(mode)
      ensures View() == AfterEdit(old(View()), mode, EraseHere)
    {
      DeleteMarked();
    }

    method EraseOneHere()
      requires Ready() && CanApply(View(), mode, EraseHere) && !markOn
      modifies this, text
      ensures Ready() && (text == old(text) || fresh(text)) && mode == old(mode)
      ensures View() == AfterEdit(old(View()), mode, EraseHere)
    {
      Delete();
    }

    method DeleteKey()
      requires Ready() && CanApply(View(), mode, EraseHere)
      modifies this, text
      ensures Ready() && (text == old(text) || fresh(text)) && mode == old(mode)
      ensures View() == AfterEdit(old(View()), mode, EraseHere)
    {
      if markOn {
        EraseMarkedHere();
      } else {
        EraseOneHere();
      }
    }

    method PressCopy()
      requires Ready() && CanApply(View(), mode, CopyKey)
      modifies this, text
      ensures Ready() && (text == old(text) || fresh(text)) && mode == old(mode)
      ensures View() == AfterEdit(old(View()), mode, CopyKey)
    {
      if markOn {
        Copy();
      }
    }

    method PressCut()
      requires Ready() && CanApply(View(), mode, CutKey)
      modifies this, text
      ensures Ready() && (text == old(text) || fresh(text)) && mode == old(mode)
      ensures View() == AfterEdit(old(View()), mode, CutKey)
    {
      ghost var before := View();
      if markOn {
        Cut();
        assert View() == CutPage(before, mode);
      }
    }

    method PressPaste()
      requires Ready() && CanApply(View(), mode, PasteKey)
      modifies this, text
      ensures Ready() && (text == old(text) || fresh(text)) && mode == old(mode)
      ensures View() == AfterEdit(old(View()), mode, PasteKey)
    {
      if markCopy || markCut {
        Paste();
      }
    }

    method PressKey(c: char)
      requires Ready() && CanApply(View(), mode, Key(c))
      modifies this, text
      ensures Ready() && (text == old(text) || fresh(text)) && mode == old(mode)
      ensures View() == AfterEdit(old(View()), mode, Key(c))
    {
      Type(c);
    }

    method PressEnter()
      requires Ready() && CanApply(View(), mode, Enter)
      modifies this, text
      ensures Ready() && (text == old(text) || fresh(text)) && mode == old(mode)
      ensures View() == AfterEdit(old(View()), mode, Enter)
    {
      Return();
    }

    method Apply(e: Edit)
      requires Ready() && CanApply(View(), mode, e)
      modifies this, text
      ensures Ready() && (text == old(text) || fresh(text)) && mode == old(mode)
      ensures View() == AfterEdit(old(View()), mode, e)
    {
      match e {
        case EraseBefore => BackspaceKey();
        case EraseHere => DeleteKey();
        case GoTo(p) => cur := p;
        case InsertKey => insert := !insert;
        case ReturnModeKey => retMode := if retMode >= 4 then 1 else retMode + 1;
        case MarkKey => ToggleMark();
        case CopyKey => PressCopy();
        case CutKey => PressCut();
        case PasteKey => PressPaste();
        case Key(c) => PressKey(c);
        case Enter => PressEnter();
      }
    }

    /** However a text is edited, the recorded size stays the length of the string, and the text, cursor, mark and
        clip are what the edits make of them one by one, up to the first edit that would leave the buffer or
        overwrite half of a CR/LF pair. */
    method Run(edits: seq<Edit>) returns (done: nat, ghost pages: seq<Page>)
      requires Ready()
      modifies this, text
      ensures Ready() && textSize == |content| && mode == old(mode)
      ensures done <= |edits| && Trail(pages, mode, edits[..done]) && pages[0] == old(View()) && pages[done] == View()
      ensures done < |edits| ==> !CanApply(View(), mode, edits[done])
    {
      done, pages := 0, [View()];
      while done < |edits|
        invariant done <= |edits| && Ready() && (text == old(text) || fresh(text)) && mode == old(mode)
        invariant Trail(pages, mode, edits[..done]) && pages[0] == old(View()) && pages[done] == View()
      {
        var ok := Advance(edits[done]);
        if !ok {
          return;
        }
        TrailGrows(pages, mode, edits, done, View());
        pages := pages + [View()];
        done := done + 1;
      }
    }

    /** The next edit of a run, if it can be applied. */
    method Advance(e: Edit) returns (ok: bool)
      requires Ready()
      modifies this, text
      ensures Ready() && (text == old(text) || fresh(text)) && mode == old(mode)
      ensures if ok then Turn(old(View()), mode, e, View()) else View() == old(View()) && !CanApply(View(), mode, e)
    {
      ok := CheckApplies(e);
      if ok {
        Apply(e);
      }
    }
  }

  /** In overwrite mode what is typed replaces one character, or a whole CR/LF pair; otherwise, and at the end of
      the text, it goes in between. */
  lemma TypingReplaces(s: seq<char>, mode: TextMode, insert: bool, p: int, ins: seq<char>)
    requires 0 <= p <= |s|
    ensures Typed(s, mode, insert, p, ins) ==
      if insert || p == |s| then s[..p] + ins + s[p..]
      else if mode == Other && s[p] == '\r' && p + 1 < |s| && s[p + 1] == '\n' then s[..p] + ins + s[p + 2..]
      else s[..p] + ins + s[p + 1..]
  {
  }

  /** The three line breaks, and the places an entry or an erasure moves to from the LF of a pair. */
  lemma LineEnds(s: seq<char>, mode: TextMode, c: int)
    requires 0 <= c <= |s|
    ensures LineBreak(1) == "\r\n" && LineBreak(2) == "\r" && LineBreak(3) == "\n"
    ensures var onLF := mode == Other && 0 < c < |s| && s[c - 1] == '\r' && s[c] == '\n';
      EntryPoint(s, mode, c) == (if onLF then c - 1 else c) && ExitPoint(s, mode, c) == (if onLF then c + 1 else c)
  {
  }

  /** Backspace takes the character before the cursor, or the CR/LF pair; from within a pair, the pair. */
  lemma BackspaceTakes(s: seq<char>, mode: TextMode, c: int)
    requires 0 < c <= |s|
    ensures Backspaced(s, mode, c) ==
      if mode == Other && c < |s| && s[c - 1] == '\r' && s[c] == '\n' then s[..c - 1] + s[c + 1..]
      else if mode == Other && c > 1 && s[c - 2] == '\r' && s[c - 1] == '\n' then s[..c - 2] + s[c..]
      else s[..c - 1] + s[c..]
  {
  }

  /** On an LF in CR/LF mode a paste drops the clip's last character and goes in one place earlier. */
  lemma PasteOnLF(s: seq<char>, mode: TextMode, c: int, clip: seq<char>)
    requires 0 < c < |s| && mode == Other && s[c] == '\n' && clip != []
    ensures Pasted(s, mode, c, clip) == s[..c - 1] + clip[..|clip| - 1] + s[c - 1..]
  {
  }

  /** A paste inserts the whole clip at the cursor exactly when the cursor is not on an LF in CR/LF mode. */
  lemma PasteIsExact(s: seq<char>, mode: TextMode, c: int, clip: seq<char>)
    requires 0 <= c <= |s| && (OnLF(s, mode, c) ==> c > 0 && clip != [])
    ensures Pasted(s, mode, c, clip) == Spliced(s, c, c, clip) <==> !OnLF(s, mode, c)
  {
  }

  /** Cut, Backspace and Delete erase the marked stretch exactly when the cursor is not before the mark, or
      the characters they take instead happen to be the same. */
  lemma ErasedIsMarked(s: seq<char>, c: int, mark: int)
    requires 0 <= c <= |s| && 0 <= mark <= |s| && mark - c <= c
    ensures var lo, hi := if c < mark then c else mark, if c < mark then mark else c;
      CutFrom(s, c, mark) == Spliced(s, lo, hi, []) <==> c >= mark || s[c - (mark - c)..c] == s[c..mark]
  {
    if c < mark {
      var n := mark - c;
      var t, u := CutFrom(s, c, mark), Spliced(s, c, mark, []);
      assert s[..c] == s[..c - n] + s[c - n..c] && s[c..] == s[c..mark] + s[mark..];
      assert t == s[..c - n] + s[c..mark] + s[mark..];
      assert u == s[..c - n] + s[c - n..c] + s[mark..];
      assert t[c - n..c] == s[c..mark] && u[c - n..c] == s[c - n..c];
    }
  }

  /** With the mark after "abcde" and the cursor after "abc", the cut takes "bc" and not "de". */
  lemma BackwardCutTakesOthers()
    ensures CutFrom("abcdef", 3, 5) == "adef" && Spliced("abcdef", 3, 5, []) == "abcf"
    ensures exists s: seq<char>, c, mark ::
      0 <= c < mark <= |s| && mark - c <= c && CutFrom(s, c, mark) != Spliced(s, c, mark, [])
  {
    var s: seq<char>, c, mark := "abcdef", 3, 5;
    assert CutFrom(s, c, mark)[1] == 'd' && Spliced(s, c, mark, [])[1] == 'b';
  }

  /** Cutting from the mark to a later cursor and pasting back restores the text exactly when the
      cursor was not left on an LF in CR/LF mode. */
  lemma CutThenPaste(s: seq<char>, mode: TextMode, lo: int, hi: int)
    requires 0 <= lo < hi <= |s|
    requires OnLF(s, mode, hi) ==> lo > 0
    ensures var t := CutFrom(s, hi, lo);
      (OnLF(t, mode, lo) <==> OnLF(s, mode, hi)) &&
      (Pasted(t, mode, lo, s[lo..hi]) == s <==> !OnLF(s, mode, hi))
  {
    var t := CutFrom(s, hi, lo);
    assert t == s[..lo] + s[hi..];
    assert s == s[..lo] + s[lo..hi] + s[hi..];
    assert t[..lo] == s[..lo] && t[lo..] == s[hi..];
  }

  /** The character typed at p becomes half of a CR/LF pair with its neighbour. */
  predicate MakesPair(s: seq<char>, mode: TextMode, p: int, c: char)
    requires 0 <= p <= |s|
  {
    mode == Other && ((c == LF && p > 0 && s[p - 1] == CR) || (c == CR && p < |s| && s[p] == LF))
  }

  /** Typing a character and erasing it restores the text exactly when it does not make a CR/LF pair. */
  lemma TypeThenBackspace(s: seq<char>, mode: TextMode, p: int, c: char)
    requires 0 <= p <= |s| && p == EntryPoint(s, mode, p)
    ensures Backspaced(Typed(s, mode, true, p, [c]), mode, p + 1) == s <==> !MakesPair(s, mode, p, c)
  {
    var t := Typed(s, mode, true, p, [c]);
    assert t[p] == c && (p > 0 ==> t[p - 1] == s[p - 1]) && (p < |s| ==> t[p + 1] == s[p]);
    assert t[..p] == s[..p] && t[p + 1..] == s[p..];
    assert s == s[..p] + s[p..];
    if MakesPair(s, mode, p, c) {
      assert |Backspaced(t, mode, p + 1)| == |s| - 1;
    } else {
      assert Backspaced(t, mode, p + 1) == t[..p] + t[p + 1..];
    }
  }

  /** Which keys can always be applied: a character in insert mode or outside of CR/LF mode, a line break if the
      return mode writes one, an erasure with the mark not behind the cursor, a paste off the start of the text. */
  lemma KeysApply(p: Page, mode: TextMode, c: char, q: int)
    requires Sound(p)
    ensures (p.insert || mode != Other) && c != NUL ==> CanApply(p, mode, Key(c))
    ensures p.insert || mode != Other || p.retMode == 1 ==> (CanApply(p, mode, Enter) <==> p.retMode != 4)
    ensures p.mark.None? || p.cur == 0 || p.mark.value <= p.cur ==> CanApply(p, mode, EraseBefore)
    ensures p.mark.None? && (0 < p.cur || mode != Other) ==> (CanApply(p, mode, EraseHere) <==> p.cur < |p.text|)
    ensures p.mark.Some? && p.mark.value <= EntryPoint(p.text, mode, p.cur) ==> CanApply(p, mode, EraseHere)
    ensures p.mark.None? || p.mark.value <= p.cur ==> CanApply(p, mode, CutKey)
    ensures p.held.Nothing? || mode != Other || (p.held.chars != [] && 0 < p.cur) ==> CanApply(p, mode, PasteKey)
    ensures CanApply(p, mode, GoTo(q)) <==> 0 <= q <= |p.text|
    ensures forall e: Edit :: e in {InsertKey, ReturnModeKey, MarkKey, CopyKey} ==> CanApply(p, mode, e)
  {
  }

  // ----- runs of edits -----

  predicate Typing(edits: seq<Edit>, str: seq<char>) {
    |edits| == |str| && forall i :: 0 <= i < |str| ==> edits[i] == Key(str[i])
  }

  predicate Pressing(edits: seq<Edit>, e: Edit) {
    forall i :: 0 <= i < |edits| ==> edits[i] == e
  }

  function TypedPage(p: Page, str: seq<char>): Page
    requires Sound(p)
  {
    p.(text := Spliced(p.text, p.cur, p.cur, str), cur := p.cur + |str|)
  }

  function ErasedPage(p: Page, n: nat): Page
    requires Sound(p) && n <= p.cur
  {
    p.(text := Spliced(p.text, p.cur - n, p.cur, []), cur := p.cur - n)
  }

  /** In insert mode, typing characters other than CR puts exactly these in, and the cursor behind them. */
  lemma {:induction false} TypedText(pages: seq<Page>, mode: TextMode, edits: seq<Edit>, str: seq<char>)
    requires Trail(pages, mode, edits) && Typing(edits, str) && Sound(pages[0])
    requires pages[0].insert && pages[0].cur == EntryPoint(pages[0].text, mode, pages[0].cur) && CR !in str
    ensures pages[|str|] == TypedPage(pages[0], str)
    decreases |str|
  {
    var p := pages[0];
    if str == [] {
      assert Spliced(p.text, p.cur, p.cur, []) == p.text;
    } else {
      var n := |str| - 1;
      TrailTo(pages, mode, edits, n);
      TypedText(pages[..n + 1], mode, edits[..n], str[..n]);
      TypedOn(p, pages[n], mode, str, pages[n + 1]);
    }
  }

  lemma TypedOn(p: Page, q: Page, mode: TextMode, str: seq<char>, r: Page)
    requires Sound(p) && p.insert && p.cur == EntryPoint(p.text, mode, p.cur) && CR !in str && str != []
    requires q == TypedPage(p, str[..|str| - 1]) && Turn(q, mode, Key(str[|str| - 1]), r)
    ensures r == TypedPage(p, str)
  {
    SplicedOn(p.text, p.cur, str);
    assert !OnPairLF(q.text, mode, q.cur);
    assert r == EnterPage(q, mode, [str[|str| - 1]]);
  }

  lemma SplicedOn(s: seq<char>, at: int, str: seq<char>)
    requires 0 <= at <= |s| && str != []
    ensures var n, t := |str| - 1, Spliced(s, at, at, str[..|str| - 1]);
      && Spliced(t, at + n, at + n, [str[n]]) == Spliced(s, at, at, str)
      && (if n > 0 then t[at + n - 1] == str[n - 1] && str[n - 1] in str else t == s)
  {
  }

  /** Without a mark, Backspace pressed n times behind n characters without line ends takes exactly these. */
  lemma {:induction false} ErasedText(pages: seq<Page>, mode: TextMode, edits: seq<Edit>, n: nat)
    requires Trail(pages, mode, edits) && |edits| == n && Pressing(edits, EraseBefore)
    requires Sound(pages[0]) && pages[0].mark.None? && n <= pages[0].cur
    requires forall i :: pages[0].cur - n <= i < pages[0].cur ==> !IsEnd(pages[0].text[i])
    ensures pages[n] == ErasedPage(pages[0], n)
    decreases n
  {
    var p := pages[0];
    if n == 0 {
      assert Spliced(p.text, p.cur, p.cur, []) == p.text;
    } else {
      TrailTo(pages, mode, edits, n - 1);
      ErasedText(pages[..n], mode, edits[..n - 1], n - 1);
      ErasedOn(p, pages[n - 1], mode, n, pages[n]);
    }
  }

  lemma ErasedOn(p: Page, q: Page, mode: TextMode, n: nat, r: Page)
    requires Sound(p) && p.mark.None? && 0 < n <= p.cur && !IsEnd(p.text[p.cur - n])
    requires q == ErasedPage(p, n - 1) && Turn(q, mode, EraseBefore, r)
    ensures r == ErasedPage(p, n)
  {
    assert q.text[q.cur - 1] == p.text[p.cur - n];
    assert Spliced(q.text, q.cur - 1, q.cur, []) == Spliced(p.text, p.cur - n, p.cur, []);
  }

  /** Typing a text without line ends and pressing Backspace as often restores the page. */
  lemma TypeThenErase(typed: seq<Page>, keys: seq<Edit>, erased: seq<Page>, edits: seq<Edit>, mode: TextMode, str: seq<char>)
    requires Trail(typed, mode, keys) && Typing(keys, str) && Trail(erased, mode, edits) && Pressing(edits, EraseBefore)
    requires erased[0] == typed[|str|] && |edits| == |str| && Sound(typed[0]) && typed[0].mark.None?
    requires typed[0].insert && typed[0].cur == EntryPoint(typed[0].text, mode, typed[0].cur) && CR !in str && LF !in str
    ensures erased[|str|] == typed[0]
  {
    TypedText(typed, mode, keys, str);
    var p, q := typed[0], typed[|str|];
    forall i | p.cur <= i < q.cur
      ensures !IsEnd(q.text[i])
    {
      assert q.text[i] == str[i - p.cur] && str[i - p.cur] in str;
    }
    ErasedText(erased, mode, edits, |str|);
    assert Spliced(q.text, p.cur, q.cur, []) == p.text;
  }

  /** Marking, moving on, cutting and pasting restores the text, with the cursor behind the stretch, exactly when
      that is not on an LF in CR/LF mode. */
  lemma CutAndPaste(p: Page, marked: Page, q: int, moved: Page, cut: Page, r: Page, mode: TextMode)
    requires Turn(p, mode, MarkKey, marked) && Turn(marked, mode, GoTo(q), moved)
    requires Turn(moved, mode, CutKey, cut) && Turn(cut, mode, PasteKey, r)
    requires p.mark.None? && EntryPoint(p.text, mode, p.cur) < ExitPoint(p.text, mode, q)
    ensures var lo, hi := EntryPoint(p.text, mode, p.cur), ExitPoint(p.text, mode, q);
      && (r.text == p.text <==> !OnLF(p.text, mode, hi))
      && (r.text == p.text ==> hi <= |p.text| && r == p.(cur := hi, held := Taken(p.text[lo..hi])))
  {
    var lo, hi := EntryPoint(p.text, mode, p.cur), ExitPoint(p.text, mode, q);
    var s, t := p.text, CutFrom(p.text, hi, lo);
    assert marked == p.(cur := lo, mark := Some(lo), held := Nothing);
    assert moved == marked.(cur := q);
    assert cut == p.(text := t, cur := lo, held := Taken(s[lo..hi]));
    assert t == s[..lo] + s[hi..];
    CutThenPaste(s, mode, lo, hi);
  }

  /** Marking, moving on, copying and pasting doubles the stretch, exactly when the cursor is then not on an LF in
      CR/LF mode. */
  lemma CopyAndPaste(p: Page, marked: Page, q: int, moved: Page, copied: Page, r: Page, mode: TextMode)
    requires Turn(p, mode, MarkKey, marked) && Turn(marked, mode, GoTo(q), moved)
    requires Turn(moved, mode, CopyKey, copied) && Turn(copied, mode, PasteKey, r)
    requires p.mark.None? && EntryPoint(p.text, mode, p.cur) < ExitPoint(p.text, mode, q)
    ensures var s, lo, hi := p.text, EntryPoint(p.text, mode, p.cur), ExitPoint(p.text, mode, q);
      hi <= |s| && (r.text == s[..hi] + s[lo..hi] + s[hi..] <==> !OnLF(s, mode, hi))
  {
    var s, lo, hi := p.text, EntryPoint(p.text, mode, p.cur), ExitPoint(p.text, mode, q);
    assert moved == p.(cur := q, mark := Some(lo), held := Nothing);
    assert copied == p.(cur := hi, held := Copied(s[lo..hi]));
    PasteIsExact(s, mode, hi, s[lo..hi]);
  }

  /** The insert key changes to and fro, and the return-mode key goes round the four modes. */
  lemma {:induction false} ModeKeys(pages: seq<Page>, mode: TextMode, edits: seq<Edit>, e: Edit)
    requires Trail(pages, mode, edits) && Pressing(edits, e) && (e == InsertKey || e == ReturnModeKey) && Sound(pages[0])
    ensures pages[|edits|] == Switched(pages[0], e, |edits|)
    decreases |edits|
  {
    if edits != [] {
      var n := |edits| - 1;
      TrailTo(pages, mode, edits, n);
      ModeKeys(pages[..n + 1], mode, edits[..n], e);
      SwitchedOn(pages[0], pages[n], mode, e, n, pages[n + 1]);
    }
  }

  /** The return mode after n turns. */
  function TurnedMode(mode: int, n: nat): int {
    (mode - 1 + n) % 4 + 1
  }

  function Swapped(on: bool, n: nat): bool {
    (n % 2 == 0) == on
  }

  lemma OneMore(mode: int, on: bool, n: nat)
    ensures TurnedMode(mode, n + 1) == if TurnedMode(mode, n) == 4 then 1 else TurnedMode(mode, n) + 1
    ensures Swapped(on, n + 1) == !Swapped(on, n)
  {
  }

  function Switched(p: Page, e: Edit, n: nat): Page {
    if e == InsertKey then p.(insert := Swapped(p.insert, n)) else p.(retMode := TurnedMode(p.retMode, n))
  }

  lemma SwitchedOn(p: Page, q: Page, mode: TextMode, e: Edit, n: nat, r: Page)
    requires (e == InsertKey || e == ReturnModeKey) && q == Switched(p, e, n) && Turn(q, mode, e, r)
    ensures r == Switched(p, e, n + 1)
  {
    OneMore(p.retMode, p.insert, n);
  }
}
