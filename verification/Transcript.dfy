/** Incremental reading of a session transcript: assistant prose after a byte cursor, line by line. */
module Transcript {
  import opened GraphTypes
  import opened Chars

  const NEWLINE: Byte := 10
  const OPEN_BRACE: Byte := 123

  /** A content block whose type is the text type, or another one; the text is absent when it is not a string. */
  datatype Block = Block(isText: bool, text: Option<string>)

  datatype Content = Bare(text: string) | Blocks(blocks: seq<Block>) | Other

  datatype EntryKind = Assistant | AnotherKind

  datatype Entry = Entry(kind: EntryKind, sidechain: bool, message: Option<Content>)

  datatype Tail = Tail(texts: seq<string>, newCursor: nat, reset: bool)

  /** Decodes one line; None when it is not a transcript entry. */
  type Decoder = seq<Byte> -> Option<Entry>

  // ---------- What a line contributes ----------

  function BlockTexts(blocks: seq<Block>): seq<string> {
    if blocks == [] then [] else
      var b := blocks[|blocks| - 1];
      BlockTexts(blocks[..|blocks| - 1])
      + (if b.isText && b.text.Some? && !IsBlank(b.text.value) then [b.text.value] else [])
  }

  function ContentTexts(c: Content): seq<string> {
    match c
    case Bare(text) => if IsBlank(text) then [] else [text]
    case Blocks(blocks) => BlockTexts(blocks)
    case Other => []
  }

  /** The assistant entry of a line, unless it is of another kind, a side chain or not an entry at all. */
  function AssistantEntry(line: seq<Byte>, decode: Decoder): Option<Entry> {
    if line == [] || line[0] != OPEN_BRACE then None
    else match decode(line)
      case None => None
      case Some(e) => if e.sidechain || e.kind != Assistant then None else Some(e)
  }

  function LineTexts(line: seq<Byte>, decode: Decoder): seq<string> {
    match AssistantEntry(line, decode)
    case None => []
    case Some(e) => if e.message.Some? then ContentTexts(e.message.value) else []
  }

  /** The texts are those at exactly the text blocks that are not blank, among the first n, in order. */
  ghost predicate PickedFrom(blocks: seq<Block>, n: nat, texts: seq<string>, at: seq<nat>) {
    && |texts| == |at| && n <= |blocks|
    && (forall i, j | 0 <= i < j < |at| :: at[i] < at[j])
    && (forall k: nat :: k in at <==> k < n && Yields(blocks[k]))
    && (forall i | 0 <= i < |at| :: at[i] < n && blocks[at[i]].text == Some(texts[i]))
  }

  ghost predicate Yields(b: Block) { b.isText && b.text.Some? && exists c | c in b.text.value :: !IsWhite(c) }

  lemma BlankOrNot(s: string)
    ensures IsBlank(s) <==> !exists c | c in s :: !IsWhite(c)
  {
    if !IsBlank(s) {
      var i :| 0 <= i < |s| && !IsWhite(s[i]);
      assert s[i] in s;
    }
  }

  lemma {:induction false} BlockTextsExactly(blocks: seq<Block>, n: nat) returns (at: seq<nat>)
    requires n <= |blocks|
    ensures PickedFrom(blocks, n, BlockTexts(blocks[..n]), at)
  {
    if n == 0 {
      at := [];
    } else {
      at := BlockTextsExactly(blocks, n - 1);
      var b := blocks[n - 1];
      if b.text.Some? { BlankOrNot(b.text.value); }
      assert blocks[..n][..n - 1] == blocks[..n - 1];
      PickedStep(blocks, n - 1, BlockTexts(blocks[..n - 1]), at);
      if Yields(b) { at := at + [n - 1]; }
    }
  }

  lemma PickedStep(blocks: seq<Block>, n: nat, texts: seq<string>, at: seq<nat>)
    requires n < |blocks| && PickedFrom(blocks, n, texts, at)
    ensures if Yields(blocks[n]) then PickedFrom(blocks, n + 1, texts + [blocks[n].text.value], at + [n])
            else PickedFrom(blocks, n + 1, texts, at)
  {
  }

  /** What a line yields: nothing unless it begins with an opening brace and is an assistant entry outside side
      chains with a message; else the bare text or the texts of its blocks, without the blank ones. */
  lemma LineYields(line: seq<Byte>, decode: Decoder) returns (at: seq<nat>)
    ensures var e, texts := decode(line), LineTexts(line, decode);
      if line != [] && line[0] == 123 && e.Some? && e.value.kind == Assistant && !e.value.sidechain
         && e.value.message.Some?
      then match e.value.message.value
        case Bare(text) => texts == if exists c | c in text :: !IsWhite(c) then [text] else []
        case Blocks(blocks) => PickedFrom(blocks, |blocks|, texts, at)
        case Other => texts == []
      else texts == []
  {
    at := [];
    var e := AssistantEntry(line, decode);
    if e.Some? && e.value.message.Some? {
      match e.value.message.value
      case Bare(text) => BlankOrNot(text);
      case Blocks(blocks) =>
        at := BlockTextsExactly(blocks, |blocks|);
        assert blocks[..|blocks|] == blocks;
      case Other =>
    }
  }

  // ---------- Lines ----------

  /** The length of the first line with its newline, or of everything when there is none. */
  function LineEnd(bytes: seq<Byte>): (k: nat)
    ensures k <= |bytes| && (bytes != [] ==> k > 0)
  {
    LineEndFrom(bytes, 0)
  }

  /** The end of the line that holds position i, when no newline comes earlier on it. */
  function LineEndFrom(bytes: seq<Byte>, i: nat): (k: nat)
    requires i <= |bytes|
    ensures i <= k <= |bytes| && (i < |bytes| ==> i < k)
    decreases |bytes| - i
  {
    if i == |bytes| then i else if bytes[i] == NEWLINE then i + 1 else LineEndFrom(bytes, i + 1)
  }

  /** Ends in a newline. */
  predicate Terminated(bytes: seq<Byte>) { bytes != [] && bytes[|bytes| - 1] == NEWLINE }

  /** One complete line: a newline at its end and nowhere else. */
  ghost predicate IsLine(line: seq<Byte>) { Terminated(line) && LineEnd(line) == |line| }

  /** There is a newline, that is, a complete line. */
  predicate HasLine(bytes: seq<Byte>) { Terminated(bytes[..LineEnd(bytes)]) }

  lemma {:induction false} LineEndStops(bytes: seq<Byte>, i: nat)
    requires i <= |bytes|
    ensures var k := LineEndFrom(bytes, i);
      && (forall j | i <= j < k - 1 :: bytes[j] != NEWLINE)
      && (k > i && bytes[k - 1] != NEWLINE ==> k == |bytes|)
    decreases |bytes| - i
  {
    if i == |bytes| || bytes[i] == NEWLINE {
    } else {
      LineEndStops(bytes, i + 1);
    }
  }

  lemma LinesByNewlines(bytes: seq<Byte>)
    ensures HasLine(bytes) <==> 10 in bytes
    ensures IsLine(bytes) <==> bytes != [] && bytes[|bytes| - 1] == 10 && 10 !in bytes[..|bytes| - 1]
  {
    LineEndStops(bytes, 0);
  }

  /** What follows a complete line, or comes between its start and its end, does not move its end. */
  lemma {:induction false} SameLineEnd(bytes: seq<Byte>, other: seq<Byte>, i: nat)
    requires i < LineEndFrom(bytes, 0) <= |other|
    requires forall j | 0 <= j < LineEndFrom(bytes, 0) :: other[j] == bytes[j]
    requires bytes[LineEndFrom(bytes, 0) - 1] == NEWLINE
    ensures LineEndFrom(other, i) == LineEndFrom(bytes, 0)
    decreases LineEndFrom(bytes, 0) - i
  {
    LineEndStops(bytes, 0);
    if i < LineEndFrom(bytes, 0) - 1 { SameLineEnd(bytes, other, i + 1); }
  }

  /** The first line is a complete line when there is one. */
  lemma FirstLine(bytes: seq<Byte>)
    requires HasLine(bytes)
    ensures IsLine(bytes[..LineEnd(bytes)])
  {
    SameLineEnd(bytes, bytes[..LineEnd(bytes)], 0);
  }

  /** A complete line is the first line of whatever it begins. */
  lemma LineEndIs(line: seq<Byte>, rest: seq<Byte>)
    requires IsLine(line)
    ensures LineEnd(line + rest) == |line|
  {
    SameLineEnd(line, line + rest, 0);
  }

  // ---------- Files as lists of lines ----------

  type Line = seq<Byte>

  /** The complete lines; an unfinished last one is left out. */
  ghost function Lines(bytes: seq<Byte>): seq<Line> {
    if !HasLine(bytes) then [] else [bytes[..LineEnd(bytes)]] + Lines(bytes[LineEnd(bytes)..])
  }

  ghost function Flat(lines: seq<Line>): seq<Byte> {
    if lines == [] then [] else lines[0] + Flat(lines[1..])
  }

  ghost predicate AreLines(lines: seq<Line>) { forall i | 0 <= i < |lines| :: IsLine(lines[i]) }

  /** Complete lines only: the end is a line boundary. */
  ghost predicate WholeLines(bytes: seq<Byte>) { Flat(Lines(bytes)) == bytes }

  lemma LinesOfLine(line: Line, rest: seq<Byte>)
    requires IsLine(line)
    ensures Lines(line + rest) == [line] + Lines(rest)
  {
    LineEndIs(line, rest);
    assert (line + rest)[..|line|] == line && (line + rest)[|line|..] == rest;
  }

  lemma {:induction false} LinesAreLines(bytes: seq<Byte>)
    ensures AreLines(Lines(bytes))
  {
    if !HasLine(bytes) {
    } else {
      FirstLine(bytes);
      LinesAreLines(bytes[LineEnd(bytes)..]);
    }
  }

  /** Complete lines are found again, whatever follows them. */
  lemma {:induction false} LinesOfFlat(lines: seq<Line>, rest: seq<Byte>)
    requires AreLines(lines)
    ensures Lines(Flat(lines) + rest) == lines + Lines(rest)
  {
    if lines == [] {
      assert Flat(lines) + rest == rest;
    } else {
      var others := lines[1..];
      LinesOfFlat(others, rest);
      LinesOfLine(lines[0], Flat(others) + rest);
      Associates(lines[0], Flat(others), rest);
      Associates([lines[0]], others, Lines(rest));
      assert [lines[0]] + others == lines;
    }
  }

  lemma LinesOnly(lines: seq<Line>)
    requires AreLines(lines)
    ensures Lines(Flat(lines)) == lines && WholeLines(Flat(lines))
  {
    LinesOfFlat(lines, []);
    assert Flat(lines) + [] == Flat(lines) && Lines([]) == [] && lines + [] == lines;
  }

  lemma LinesOfConcat(a: seq<Byte>, b: seq<Byte>)
    requires WholeLines(a)
    ensures Lines(a + b) == Lines(a) + Lines(b)
  {
    LinesAreLines(a);
    LinesOfFlat(Lines(a), b);
  }

  lemma {:induction false} FlatOfConcat(a: seq<Line>, b: seq<Line>)
    ensures Flat(a + b) == Flat(a) + Flat(b)
  {
    if a == [] {
      assert a + b == b;
    } else {
      assert (a + b)[1..] == a[1..] + b;
      FlatOfConcat(a[1..], b);
      Associates(a[0], Flat(a[1..]), Flat(b));
    }
  }

  lemma WholeConcat(a: seq<Byte>, b: seq<Byte>)
    requires WholeLines(a) && WholeLines(b)
    ensures WholeLines(a + b)
  {
    LinesOfConcat(a, b);
    FlatOfConcat(Lines(a), Lines(b));
  }

  // ---------- One read ----------

  /** The texts the lines contribute, in order. */
  ghost function Prose(lines: seq<Line>, decode: Decoder): seq<string> {
    if lines == [] then [] else Prose(lines[..|lines| - 1], decode) + LineTexts(lines[|lines| - 1], decode)
  }

  lemma {:induction false} ProseOfConcat(a: seq<Line>, b: seq<Line>, decode: Decoder)
    ensures Prose(a + b, decode) == Prose(a, decode) + Prose(b, decode)
  {
    if b == [] {
      assert a + b == a;
    } else {
      assert (a + b)[..|a + b| - 1] == a + b[..|b| - 1];
      ProseOfConcat(a, b[..|b| - 1], decode);
      Associates(Prose(a, decode), Prose(b[..|b| - 1], decode), LineTexts(b[|b| - 1], decode));
    }
  }

  predicate BelowCap(texts: seq<string>, maxTexts: nat) { texts == [] || |texts| < maxTexts }

  /** Reading stops after an assistant entry that reaches the cap, or when no complete line is left; only the last
      line read may reach the cap, and a line is read whenever there is one. */
  ghost predicate StopsRight(lines: seq<Line>, left: seq<Line>, maxTexts: nat, decode: Decoder) {
    && (left == [] || |Prose(lines, decode)| >= maxTexts)
    && (left == [] || lines == [] || AssistantEntry(lines[|lines| - 1], decode).Some?)
    && (lines == [] ==> left == [])
    && (lines != [] ==> BelowCap(Prose(lines[..|lines| - 1], decode), maxTexts))
  }

  /** What one read of a file promises: the prose of whole lines from the start on. */
  ghost predicate IsRead(file: seq<Byte>, cursor: nat, maxTexts: nat, decode: Decoder, tail: Tail) {
    var start := if |file| < cursor then 0 else cursor;
    && tail.reset == (|file| < cursor)
    && start <= tail.newCursor <= |file|
    && WholeLines(file[start..tail.newCursor])
    && tail.texts == Prose(Lines(file[start..tail.newCursor]), decode)
    && StopsRight(Lines(file[start..tail.newCursor]), Lines(file[tail.newCursor..]), maxTexts, decode)
  }

  /** The lines read so far end at the offset, and only the last of them may have reached the cap. */
  ghost predicate Reading(file: seq<Byte>, start: nat, offset: nat, lines: seq<Line>, maxTexts: nat, decode: Decoder) {
    && start <= offset <= |file| && file[start..offset] == Flat(lines) && AreLines(lines)
    && (lines != [] ==> BelowCap(Prose(lines[..|lines| - 1], decode), maxTexts))
  }

  lemma ReadingStep(file: seq<Byte>, start: nat, offset: nat, lines: seq<Line>, maxTexts: nat, decode: Decoder)
    requires Reading(file, start, offset, lines, maxTexts, decode) && HasLine(file[offset..])
    requires BelowCap(Prose(lines, decode), maxTexts)
    ensures var line := file[offset..][..LineEnd(file[offset..])];
      Reading(file, start, offset + |line|, lines + [line], maxTexts, decode)
  {
    var n := LineEnd(file[offset..]);
    var line := file[offset..][..n];
    FirstLine(file[offset..]);
    FlatOfAppend(lines, line);
    Resplit(file, start, offset, n);
    assert (lines + [line])[..|lines|] == lines;
  }

  lemma ProseOfAppend(lines: seq<Line>, line: Line, decode: Decoder)
    ensures Prose(lines + [line], decode) == Prose(lines, decode) + LineTexts(line, decode)
  {
    assert (lines + [line])[..|lines|] == lines;
  }

  lemma FlatOfAppend(lines: seq<Line>, line: Line)
    ensures Flat(lines + [line]) == Flat(lines) + line
  {
    FlatOfConcat(lines, [line]);
    assert Flat([line]) == line + Flat([]) == line;
  }

  lemma Resplit(file: seq<Byte>, start: nat, offset: nat, n: nat)
    requires start <= offset && offset + n <= |file|
    ensures file[start..offset + n] == file[start..offset] + file[offset..][..n]
  {
  }

  lemma ReadingEnds(file: seq<Byte>, cursor: nat, lines: seq<Line>, maxTexts: nat, decode: Decoder, tail: Tail)
    requires tail.reset == (|file| < cursor)
    requires Reading(file, if tail.reset then 0 else cursor, tail.newCursor, lines, maxTexts, decode)
    requires tail.texts == Prose(lines, decode)
    requires (lines != [] && |tail.texts| >= maxTexts && AssistantEntry(lines[|lines| - 1], decode).Some?)
             || !HasLine(file[tail.newCursor..])
    ensures IsRead(file, cursor, maxTexts, decode, tail)
  {
    LinesOnly(lines);
  }

  method TextsFromContent(content: Content) returns (out: seq<string>)
    ensures out == ContentTexts(content)
  {
    out := [];
    match content
    case Bare(text) => if !IsBlank(text) { out := [text]; }
    case Blocks(blocks) =>
      for i := 0 to |blocks|
        invariant out == BlockTexts(blocks[..i])
      {
        var b := blocks[i];
        assert blocks[..i + 1][..i] == blocks[..i];
        if b.isText && b.text.Some? && !IsBlank(b.text.value) { out := out + [b.text.value]; }
      }
      assert blocks[..|blocks|] == blocks;
    case Other =>
  }

  /** None when the file cannot be opened; otherwise assistant prose from the cursor on. */
  method ReadNew(file: Option<seq<Byte>>, cursor: nat, maxTexts: nat, decode: Decoder) returns (r: Option<Tail>)
    ensures r.None? <==> file.None?
    ensures r.Some? ==> IsRead(file.value, cursor, maxTexts, decode, r.value)
  {
    if file.None? { return None; }
    var start, reset := cursor, false;
    if |file.value| < cursor { start, reset := 0, true; }
    ghost var lines;
    var texts, offset, full;
    texts, offset, full, lines := ReadLines(file.value, start, maxTexts, decode);
    var tail := Tail(texts, offset, reset);
    ReadingEnds(file.value, cursor, lines, maxTexts, decode, tail);
    r := Some(tail);
  }

  /** The texts are those of the lines read; full when the cap has been reached. */
  ghost predicate Gathered(file: seq<Byte>, start: nat, offset: nat, lines: seq<Line>, texts: seq<string>, full: bool,
                           maxTexts: nat, decode: Decoder) {
    && Reading(file, start, offset, lines, maxTexts, decode) && texts == Prose(lines, decode)
    && if full then lines != [] && |texts| >= maxTexts && AssistantEntry(lines[|lines| - 1], decode).Some?
       else BelowCap(texts, maxTexts)
  }

  /** What a line adds; only an assistant entry adds texts and can fill the read. */
  ghost predicate Adds(line: Line, texts: seq<string>, allTexts: seq<string>, full: bool, maxTexts: nat,
                       decode: Decoder) {
    if AssistantEntry(line, decode).None? then allTexts == texts && !full
    else allTexts == texts + LineTexts(line, decode) && full == (|allTexts| >= maxTexts)
  }

  /** A complete line read on. */
  lemma GatheringStep(file: seq<Byte>, start: nat, offset: nat, lines: seq<Line>, texts: seq<string>,
                      allTexts: seq<string>, full: bool, maxTexts: nat, decode: Decoder)
    requires Gathered(file, start, offset, lines, texts, false, maxTexts, decode) && HasLine(file[offset..])
    requires var line := file[offset..][..LineEnd(file[offset..])];
      Adds(line, texts, allTexts, full, maxTexts, decode)
    ensures var line := file[offset..][..LineEnd(file[offset..])];
      Gathered(file, start, offset + |line|, lines + [line], allTexts, full, maxTexts, decode)
  {
    var line := file[offset..][..LineEnd(file[offset..])];
    ReadingStep(file, start, offset, lines, maxTexts, decode);
    ProseOfAppend(lines, line, decode);
    assert texts + [] == texts;
  }

  method TextsOfEntry(entry: Entry) returns (out: seq<string>)
    ensures out == if entry.message.Some? then ContentTexts(entry.message.value) else []
  {
    out := [];
    if entry.message.Some? { out := TextsFromContent(entry.message.value); }
  }

  /** Reads on over one complete line. */
  method ReadLine(file: seq<Byte>, ghost start: nat, offset: nat, ghost lines: seq<Line>, texts: seq<string>,
                  maxTexts: nat, decode: Decoder)
    returns (allTexts: seq<string>, next: nat, full: bool, ghost allLines: seq<Line>)
    requires Gathered(file, start, offset, lines, texts, false, maxTexts, decode) && HasLine(file[offset..])
    ensures Gathered(file, start, next, allLines, allTexts, full, maxTexts, decode) && offset < next <= |file|
  {
    var line := file[offset..][..LineEnd(file[offset..])];
    allTexts, full := AddTexts(line, texts, maxTexts, decode);
    next, allLines := offset + |line|, lines + [line];
    GatheringStep(file, start, offset, lines, texts, allTexts, full, maxTexts, decode);
  }

  method AddTexts(line: Line, texts: seq<string>, maxTexts: nat, decode: Decoder)
    returns (allTexts: seq<string>, full: bool)
    ensures Adds(line, texts, allTexts, full, maxTexts, decode)
  {
    allTexts, full := texts, false;
    var entry := AssistantEntry(line, decode);
    if entry.Some? {
      var blockTexts := TextsOfEntry(entry.value);
      allTexts := texts + blockTexts;
      full := |allTexts| >= maxTexts;
    }
  }

  method ReadLines(file: seq<Byte>, start: nat, maxTexts: nat, decode: Decoder)
    returns (texts: seq<string>, offset: nat, full: bool, ghost lines: seq<Line>)
    requires start <= |file|
    ensures Gathered(file, start, offset, lines, texts, full, maxTexts, decode) && (full || !HasLine(file[offset..]))
  {
    texts, offset, lines, full := [], start, [], false;
    while !full && HasLine(file[offset..])
      invariant start <= offset <= |file| && Gathered(file, start, offset, lines, texts, full, maxTexts, decode)
      decreases |file| - offset
    {
      texts, offset, full, lines := ReadLine(file, start, offset, lines, texts, maxTexts, decode);
    }
  }

  // ---------- Runs of reads ----------

  /** Successive calls, with the file as each found it. */
  datatype Calls = NoCall | Then(before: Calls, file: seq<Byte>, maxTexts: nat, tail: Tail)

  ghost function Cursor(calls: Calls): nat { if calls.NoCall? then 0 else calls.tail.newCursor }

  ghost function LastFile(calls: Calls): seq<Byte> { if calls.NoCall? then [] else calls.file }

  ghost function Delivered(calls: Calls): seq<string> {
    if calls.NoCall? then [] else Delivered(calls.before) + calls.tail.texts
  }

  /** Each call reads from the cursor the previous one returned, from a file that has only grown. */
  ghost predicate Session(calls: Calls, decode: Decoder) {
    calls.Then? ==>
      && Session(calls.before, decode)
      && LastFile(calls.before) <= calls.file
      && IsRead(calls.file, Cursor(calls.before), calls.maxTexts, decode, calls.tail)
  }

  /** The cursor is a line boundary, and the texts are those of the complete lines before it. */
  ghost predicate Delivers(file: seq<Byte>, cursor: nat, texts: seq<string>, decode: Decoder) {
    cursor <= |file| && WholeLines(file[..cursor]) && texts == Prose(Lines(file[..cursor]), decode)
  }

  lemma ReadExtends(earlier: seq<Byte>, file: seq<Byte>, cursor: nat, maxTexts: nat, tail: Tail, texts: seq<string>,
                    decode: Decoder)
    requires earlier <= file
    requires IsRead(file, cursor, maxTexts, decode, tail) && Delivers(earlier, cursor, texts, decode)
    ensures Delivers(file, tail.newCursor, texts + tail.texts, decode)
  {
    assert file[..cursor] == earlier[..cursor];
    var before, read := file[..cursor], file[cursor..tail.newCursor];
    assert file[..tail.newCursor] == before + read;
    WholeConcat(before, read);
    LinesOfConcat(before, read);
    ProseOfConcat(Lines(before), Lines(read), decode);
  }

  /** Whatever the growth and the caps: the texts delivered so far are exactly those of the complete lines before
      the cursor, which is always a line boundary. */
  lemma {:induction false} ReadsAreChunkIndependent(calls: Calls, decode: Decoder)
    requires Session(calls, decode)
    ensures Delivers(LastFile(calls), Cursor(calls), Delivered(calls), decode)
  {
    match calls
    case NoCall =>
    case Then(before, file, maxTexts, tail) =>
      ReadsAreChunkIndependent(before, decode);
      ReadExtends(LastFile(before), file, Cursor(before), maxTexts, tail, Delivered(before), decode);
  }

  /** A file that only grows never makes a call start over. */
  lemma NeverResets(calls: Calls, decode: Decoder)
    requires Session(calls, decode) && calls.Then?
    ensures !calls.tail.reset
  {
    ReadsAreChunkIndependent(calls.before, decode);
  }

  /** A call that stays below its cap has caught up: everything complete in the file has been delivered, so any
      two such sessions on the same file have delivered the same texts. */
  lemma CaughtUp(calls: Calls, decode: Decoder)
    requires Session(calls, decode) && calls.Then? && |calls.tail.texts| < calls.maxTexts
    ensures Delivered(calls) == Prose(Lines(calls.file), decode)
  {
    ReadsAreChunkIndependent(calls, decode);
    ReadsAreChunkIndependent(calls.before, decode);
    NothingLeft(calls.file, Cursor(calls.before), calls.maxTexts, calls.tail, decode);
  }

  lemma NothingLeft(file: seq<Byte>, cursor: nat, maxTexts: nat, tail: Tail, decode: Decoder)
    requires IsRead(file, cursor, maxTexts, decode, tail) && |tail.texts| < maxTexts
    requires WholeLines(file[..tail.newCursor])
    ensures Lines(file) == Lines(file[..tail.newCursor])
  {
    BelowCapIsAll(file, cursor, maxTexts, tail, decode);
    LinesBefore(file, tail.newCursor);
  }

  lemma BelowCapIsAll(file: seq<Byte>, cursor: nat, maxTexts: nat, tail: Tail, decode: Decoder)
    requires IsRead(file, cursor, maxTexts, decode, tail) && |tail.texts| < maxTexts
    ensures Lines(file[tail.newCursor..]) == []
  {
  }

  lemma LinesBefore(file: seq<Byte>, n: nat)
    requires n <= |file| && WholeLines(file[..n]) && Lines(file[n..]) == []
    ensures Lines(file) == Lines(file[..n])
  {
    LinesOfConcat(file[..n], file[n..]);
    assert file == file[..n] + file[n..];
    assert Lines(file[..n]) + [] == Lines(file[..n]);
  }
}
