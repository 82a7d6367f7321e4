/** The reader accepts exactly the texts of the grammar: what has been read is always a begun layout. */
module JsonGrammar {
  import opened GraphTypes
  import opened JsonText
  import opened JsonLayout

  /** The containers that are open, innermost first, as they are written: the gap before the bracket and the elements
      so far; an object also has its current name. */
  datatype Opened =
    | Nothing
    | OpenArray(below: Opened, gap: string, items: seq<Slot>)
    | OpenObject(below: Opened, gap: string, fields: seq<Field>, name: Name)

  /** A layout begun, with the gap since its last token; or a whole document. */
  datatype Begun = Within(open: Opened, gap: string) | Whole(doc: Slot)

  // ---------- The text so far ----------

  /** Up to the place of the next value. */
  function ToValue(open: Opened): string {
    match open
    case Nothing => []
    case OpenArray(_, _, items) => ToElements(open) + Separated(WriteItems(items), |items| + 1)
    case OpenObject(_, _, _, name) => ToName(open) + WriteName(name)
  }

  /** Up to the first element of the innermost container. */
  function ToElements(open: Opened): string
    requires !open.Nothing?
    decreases open, 0
  {
    ToValue(open.below) + open.gap + (if open.OpenArray? then ['['] else ['{'])
  }

  /** Up to the place of the next name. */
  function ToName(open: Opened): string
    requires open.OpenObject?
    decreases open, 1
  {
    ToElements(open) + Separated(WriteFields(open.fields), |open.fields| + 1)
  }

  /** Up to the end of the elements so far. */
  function ToEnd(open: Opened): string
    requires !open.Nothing?
  {
    ToElements(open) + (if open.OpenArray? then WriteItems(open.items) else WriteFields(open.fields))
  }

  /** Up to the closing quote of the name. */
  function ToNameEnd(open: Opened): string
    requires open.OpenObject?
  {
    ToName(open) + open.name.before + ['"'] + open.name.raw + ['"']
  }

  // ---------- The state so far ----------

  /** The stack holds the values of the open containers; with a current name, also that. */
  ghost predicate Shows(g: Lexis, open: Opened, stack: Stack, named: bool) {
    match open
    case Nothing => stack.Bottom?
    case OpenArray(below, gap, items) =>
      && stack.InArray? && Shows(g, below, stack.below, true) && IsGap(gap)
      && AreSlots(g, items) && stack.items == PlainItems(g, items)
    case OpenObject(below, gap, fields, name) =>
      && stack.InObject? && Shows(g, below, stack.below, true) && IsGap(gap)
      && AreFields(g, fields) && stack.members == PlainFields(g, fields)
      && (named ==> IsName(g, name) && stack.key == TextOf(g, name.raw))
  }

  /** The text is the open containers and what the mode says has been read since, and the state shows them. */
  ghost predicate ReadInside(g: Lexis, open: Opened, gap: string, st: State, text: string) {
    IsGap(gap) &&
    match st.mode
    case Value => Shows(g, open, st.stack, true) && text == ToValue(open) + gap
    case FirstItem =>
      Shows(g, open, st.stack, true) && open.OpenArray? && open.items == [] && text == ToValue(open) + gap
    case FirstKey =>
      Shows(g, open, st.stack, false) && open.OpenObject? && open.fields == [] && text == ToName(open) + gap
    case Key => Shows(g, open, st.stack, false) && open.OpenObject? && text == ToName(open) + gap
    case Colon =>
      Shows(g, open, st.stack, true) && open.OpenObject? && open.name.after == [] && text == ToNameEnd(open) + gap
    case After =>
      Shows(g, open, st.stack, false) && !open.Nothing? && LastIsTight(open) && text == ToEnd(open) + gap
    case Text(isKey, escaped, raw) =>
      && Shows(g, open, st.stack, !isKey) && (isKey ==> open.OpenObject?)
      && QuotesEscaped(raw) && escaped == EscapingAt(raw, |raw|)
      && text == (if isKey then ToName(open) else ToValue(open)) + gap + ['"'] + raw
    case Token(raw) =>
      && Shows(g, open, st.stack, true) && raw != [] && (forall i | 0 <= i < |raw| :: IsPlain(raw[i]))
      && text == ToValue(open) + gap + raw
    case _ => false
  }

  /** There is a last element, and no gap has been put behind it yet. */
  ghost predicate LastIsTight(open: Opened)
    requires !open.Nothing?
  {
    if open.OpenArray? then open.items != [] && open.items[|open.items| - 1].after == []
    else open.fields != [] && open.fields[|open.fields| - 1].slot.after == []
  }

  /** The text is the begun layout, and the state is where reading it leads. */
  ghost predicate Reads(g: Lexis, b: Begun, st: State, text: string) {
    match b
    case Within(open, gap) => ReadInside(g, open, gap, st, text)
    case Whole(doc) => IsSlot(g, doc) && st == State(Bottom, Done(Plain(g, doc.value))) && text == WriteSlot(doc)
  }

  // ---------- Every step goes on in the layout ----------

  lemma GapGrows(gap: string, c: char)
    requires IsGap(gap) && IsSpace(c)
    ensures IsGap(gap + [c])
  {
  }

  /** A value is complete. */
  lemma Completes(g: Lexis, open: Opened, stack: Stack, gap: string, l: Layout, text: string) returns (b: Begun)
    requires Shows(g, open, stack, true) && IsGap(gap) && IsLayout(g, l)
    requires text == ToValue(open) + gap + Write(l)
    ensures Reads(g, b, Complete(stack, Plain(g, l)), text)
  {
    var slot := Slot(gap, l, []);
    assert WriteSlot(slot) == gap + Write(l);
    assert text == ToValue(open) + WriteSlot(slot);
    match open
    case Nothing => b := Whole(slot);
    case OpenArray(below, before, items) => b := ItemAdded(g, open, stack, slot, text);
    case OpenObject(below, before, fields, name) => b := FieldAdded(g, open, stack, slot, text);
  }

  lemma ItemAdded(g: Lexis, open: Opened, stack: Stack, slot: Slot, text: string) returns (b: Begun)
    requires open.OpenArray? && Shows(g, open, stack, true) && IsSlot(g, slot) && slot.after == []
    requires text == ToValue(open) + WriteSlot(slot)
    ensures Reads(g, b, Complete(stack, Plain(g, slot.value)), text)
  {
    ItemsSnoc(g, open.items, slot);
    ItemText(open, open.items + [slot], slot);
    b := Within(OpenArray(open.below, open.gap, open.items + [slot]), []);
  }

  lemma ItemText(open: Opened, items: seq<Slot>, slot: Slot)
    requires open.OpenArray?
    requires WriteItems(items) == Separated(WriteItems(open.items), |open.items| + 1) + WriteSlot(slot)
    ensures ToEnd(OpenArray(open.below, open.gap, items)) == ToValue(open) + WriteSlot(slot)
  {
    Associates(ToElements(open), Separated(WriteItems(open.items), |open.items| + 1), WriteSlot(slot));
  }

  lemma FieldAdded(g: Lexis, open: Opened, stack: Stack, slot: Slot, text: string) returns (b: Begun)
    requires open.OpenObject? && Shows(g, open, stack, true) && IsSlot(g, slot) && slot.after == []
    requires text == ToValue(open) + WriteSlot(slot)
    ensures Reads(g, b, Complete(stack, Plain(g, slot.value)), text)
  {
    var field := Field(open.name, slot);
    assert IsField(g, field);
    FieldsSnoc(g, open.fields, field);
    FieldText(open, open.fields + [field], slot);
    b := Within(OpenObject(open.below, open.gap, open.fields + [field], open.name), []);
  }

  lemma FieldText(open: Opened, fields: seq<Field>, slot: Slot)
    requires open.OpenObject?
    requires WriteFields(fields)
          == Separated(WriteFields(open.fields), |open.fields| + 1) + WriteField(Field(open.name, slot))
    ensures ToEnd(OpenObject(open.below, open.gap, fields, open.name)) == ToValue(open) + WriteSlot(slot)
  {
    var separated := Separated(WriteFields(open.fields), |open.fields| + 1);
    Associates(ToElements(open), separated, WriteField(Field(open.name, slot)));
    Associates(ToElements(open) + separated, WriteName(open.name), WriteSlot(slot));
  }

  lemma CommaInArray(g: Lexis, open: Opened, stack: Stack, gap: string, text: string) returns (b: Begun)
    requires open.OpenArray? && Shows(g, open, stack, false) && LastIsTight(open) && IsGap(gap)
    requires text == ToEnd(open) + gap
    ensures Reads(g, b, State(stack, Value), text + [','])
  {
    var items := WithGap(g, open.items, gap);
    ItemsThenComma(open, items, gap);
    b := Within(OpenArray(open.below, open.gap, items), []);
  }

  lemma ItemsThenComma(open: Opened, items: seq<Slot>, gap: string)
    requires open.OpenArray? && items != [] && WriteItems(items) == WriteItems(open.items) + gap
    ensures ToValue(OpenArray(open.below, open.gap, items)) == ToEnd(open) + gap + [',']
  {
    assert ToValue(OpenArray(open.below, open.gap, items)) == ToElements(open) + (WriteItems(items) + [',']);
  }

  /** The gap before a comma belongs to the element before it. */
  lemma WithGap(g: Lexis, items: seq<Slot>, gap: string) returns (longer: seq<Slot>)
    requires AreSlots(g, items) && items != [] && items[|items| - 1].after == [] && IsGap(gap)
    ensures |longer| == |items| && AreSlots(g, longer) && PlainItems(g, longer) == PlainItems(g, items)
    ensures WriteItems(longer) == WriteItems(items) + gap
  {
    var k, last := |items| - 1, items[|items| - 1];
    assert IsSlot(g, last);
    longer := items[..k] + [last.(after := gap)];
    assert longer[..k] == items[..k];
    assert WriteSlot(last.(after := gap)) == WriteSlot(last) + gap;
  }

  lemma CommaInObject(g: Lexis, open: Opened, stack: Stack, gap: string, text: string) returns (b: Begun)
    requires open.OpenObject? && Shows(g, open, stack, false) && LastIsTight(open) && IsGap(gap)
    requires text == ToEnd(open) + gap
    ensures Reads(g, b, State(stack, Key), text + [','])
  {
    var fields := FieldsWithGap(g, open.fields, gap);
    FieldsThenComma(open, fields, gap);
    b := Within(OpenObject(open.below, open.gap, fields, open.name), []);
  }

  lemma FieldsThenComma(open: Opened, fields: seq<Field>, gap: string)
    requires open.OpenObject? && fields != [] && WriteFields(fields) == WriteFields(open.fields) + gap
    ensures ToName(OpenObject(open.below, open.gap, fields, open.name)) == ToEnd(open) + gap + [',']
  {
    assert ToName(OpenObject(open.below, open.gap, fields, open.name))
        == ToElements(open) + (WriteFields(fields) + [',']);
  }

  lemma FieldsWithGap(g: Lexis, fields: seq<Field>, gap: string) returns (longer: seq<Field>)
    requires AreFields(g, fields) && fields != [] && fields[|fields| - 1].slot.after == [] && IsGap(gap)
    ensures |longer| == |fields| && AreFields(g, longer) && PlainFields(g, longer) == PlainFields(g, fields)
    ensures WriteFields(longer) == WriteFields(fields) + gap
  {
    var k, last := |fields| - 1, fields[|fields| - 1];
    assert IsField(g, last);
    var spaced := last.(slot := last.slot.(after := gap));
    longer := fields[..k] + [spaced];
    assert longer[..k] == fields[..k];
    assert IsSlot(g, last.slot) && IsField(g, spaced);
    assert WriteField(spaced) == WriteField(last) + gap;
  }

  lemma Enclosed(front: string, before: string, bracket: char, inside: string, gap: string, close: char)
    ensures front + before + [bracket] + inside + gap + [close]
         == front + before + ([bracket] + inside + gap + [close])
  {
  }

  lemma ClosesArray(g: Lexis, open: Opened, stack: Stack, gap: string, text: string) returns (b: Begun)
    requires open.OpenArray? && Shows(g, open, stack, false) && IsGap(gap) && text == ToEnd(open) + gap
    ensures Reads(g, b, Complete(stack.below, Arr(stack.items)), text + [']'])
  {
    var l := LArr(open.items, gap);
    Enclosed(ToValue(open.below), open.gap, '[', WriteItems(open.items), gap, ']');
    b := Completes(g, open.below, stack.below, open.gap, l, text + [']']);
  }

  lemma ClosesObject(g: Lexis, open: Opened, stack: Stack, gap: string, text: string) returns (b: Begun)
    requires open.OpenObject? && Shows(g, open, stack, false) && IsGap(gap) && text == ToEnd(open) + gap
    ensures Reads(g, b, Complete(stack.below, Obj(stack.members)), text + ['}'])
  {
    var l := LObj(open.fields, gap);
    Enclosed(ToValue(open.below), open.gap, '{', WriteFields(open.fields), gap, '}');
    b := Completes(g, open.below, stack.below, open.gap, l, text + ['}']);
  }

  lemma Opens(g: Lexis, open: Opened, gap: string, st: State, text: string, c: char) returns (b: Begun)
    requires st.mode == Value || st.mode == FirstItem
    requires ReadInside(g, open, gap, st, text) && Open(st.stack, c, st.mode == FirstItem).mode != Fail
    ensures Reads(g, b, Open(st.stack, c, st.mode == FirstItem), text + [c])
  {
    if c == '[' {
      b := Within(OpenArray(open, gap, []), []);
      assert ToValue(b.open) == ToValue(open) + gap + ['['];
    } else if c == '{' {
      b := Within(OpenObject(open, gap, [], Name([], [], [])), []);
      assert ToName(b.open) == ToValue(open) + gap + ['{'];
    } else if c == ']' {
      assert ToEnd(open) == ToValue(open);
      b := ClosesArray(g, open, st.stack, gap, text);
    } else {
      b := Within(open, gap);
    }
  }

  lemma OutsideText(g: Lexis, b: Begun, st: State, text: string, c: char) returns (next: Begun)
    requires Reads(g, b, st, text) && !st.mode.Text? && !st.mode.Token? && Between(st, c).mode != Fail
    ensures Reads(g, next, Between(st, c), text + [c])
  {
    if IsSpace(c) {
      next := Spaced(g, b, st, text, c);
    } else {
      match st.mode
      case Value => next := Opens(g, b.open, b.gap, st, text, c);
      case FirstItem => next := Opens(g, b.open, b.gap, st, text, c);
      case FirstKey => next := Names(g, b.open, b.gap, st, text, c);
      case Key => next := Names(g, b.open, b.gap, st, text, c);
      case Colon => next := ColonRead(g, b.open, b.gap, st, text);
      case After =>
        if c == ']' { next := ClosesArray(g, b.open, st.stack, b.gap, text); }
        else if c == '}' { next := ClosesObject(g, b.open, st.stack, b.gap, text); }
        else if b.open.OpenArray? { next := CommaInArray(g, b.open, st.stack, b.gap, text); }
        else { next := CommaInObject(g, b.open, st.stack, b.gap, text); }
    }
  }

  /** A name begins, or the object ends without any. */
  lemma Names(g: Lexis, open: Opened, gap: string, st: State, text: string, c: char) returns (b: Begun)
    requires ReadInside(g, open, gap, st, text) && !IsSpace(c) && Between(st, c).mode != Fail
    requires st.mode == FirstKey || st.mode == Key
    ensures Reads(g, b, Between(st, c), text + [c])
  {
    if c == '}' {
      assert ToEnd(open) == ToName(open);
      b := ClosesObject(g, open, st.stack, gap, text);
    } else {
      b := Within(open, gap);
    }
  }

  lemma ColonRead(g: Lexis, open: Opened, gap: string, st: State, text: string) returns (b: Begun)
    requires st.mode == Colon && ReadInside(g, open, gap, st, text)
    ensures Reads(g, b, State(st.stack, Value), text + [':'])
  {
    b := Within(OpenObject(open.below, open.gap, open.fields, open.name.(after := gap)), []);
    assert ToName(b.open) == ToName(open);
    assert ToValue(b.open) == ToNameEnd(open) + gap + [':'];
  }

  lemma Spaced(g: Lexis, b: Begun, st: State, text: string, c: char) returns (next: Begun)
    requires Reads(g, b, st, text) && !st.mode.Text? && !st.mode.Token? && IsSpace(c)
    ensures Reads(g, next, st, text + [c])
  {
    match b
    case Within(open, gap) =>
      GapGrows(gap, c);
      next := Within(open, gap + [c]);
    case Whole(doc) =>
      GapGrows(doc.after, c);
      next := Whole(doc.(after := doc.after + [c]));
  }

  lemma InText(g: Lexis, b: Begun, st: State, text: string, c: char) returns (next: Begun)
    requires Reads(g, b, st, text) && st.mode.Text? && Step(g, st, c).mode != Fail
    ensures Reads(g, next, Step(g, st, c), text + [c])
  {
    var raw := st.mode.raw;
    if st.mode.escaped || c != '"' {
      TextGrows(g, b.open, b.gap, st, text, c);
      next := b;
    } else if st.mode.isKey {
      next := NameRead(g, b.open, b.gap, st, text);
    } else {
      next := StringRead(g, b.open, b.gap, st, text);
    }
  }

  lemma StringRead(g: Lexis, open: Opened, gap: string, st: State, text: string) returns (b: Begun)
    requires ReadInside(g, open, gap, st, text) && st.mode.Text? && !st.mode.isKey && IsText(g, st.mode.raw)
    ensures Reads(g, b, Complete(st.stack, Str(TextOf(g, st.mode.raw))), text + ['"'])
  {
    var raw := st.mode.raw;
    Enclosed(ToValue(open), gap, '"', raw, [], '"');
    assert raw + [] == raw;
    b := Completes(g, open, st.stack, gap, LStr(raw), text + ['"']);
  }

  lemma TextGrows(g: Lexis, open: Opened, gap: string, st: State, text: string, c: char)
    requires ReadInside(g, open, gap, st, text) && st.mode.Text? && (st.mode.escaped || c != '"')
    ensures ReadInside(g, open, gap, Step(g, st, c), text + [c])
  {
    var raw := st.mode.raw;
    EscapingStays(raw, c);
    Associates((if st.mode.isKey then ToName(open) else ToValue(open)) + gap + ['"'], raw, [c]);
  }

  lemma NameRead(g: Lexis, open: Opened, gap: string, st: State, text: string) returns (b: Begun)
    requires ReadInside(g, open, gap, st, text) && st.mode.Text? && st.mode.isKey
    requires IsText(g, st.mode.raw) && st.stack.InObject?
    ensures Reads(g, b, State(InObject(st.stack.below, st.stack.members, TextOf(g, st.mode.raw)), Colon), text + ['"'])
  {
    b := Within(OpenObject(open.below, open.gap, open.fields, Name(gap, st.mode.raw, [])), []);
    assert ToName(b.open) == ToName(open);
  }

  lemma EscapingStays(raw: string, c: char)
    requires QuotesEscaped(raw) && (EscapingAt(raw, |raw|) || c != '"')
    ensures QuotesEscaped(raw + [c])
    ensures EscapingAt(raw + [c], |raw| + 1) == (!EscapingAt(raw, |raw|) && c == '\\')
  {
    forall i | 0 <= i <= |raw| ensures EscapingAt(raw + [c], i) == EscapingAt(raw, i) { SameEscaping(raw, c, i); }
  }

  lemma {:induction false} SameEscaping(raw: string, c: char, i: nat)
    requires i <= |raw|
    ensures EscapingAt(raw + [c], i) == EscapingAt(raw, i)
  {
    if i == 0 {
    } else {
      SameEscaping(raw, c, i - 1);
    }
  }

  lemma InToken(g: Lexis, b: Begun, st: State, text: string, c: char) returns (next: Begun)
    requires Reads(g, b, st, text) && st.mode.Token? && Step(g, st, c).mode != Fail
    ensures Reads(g, next, Step(g, st, c), text + [c])
  {
    var raw := st.mode.raw;
    if IsDelimiter(c) {
      var done := Completes(g, b.open, st.stack, b.gap, LScalar(raw), text);
      next := OutsideText(g, done, Complete(st.stack, Scalar(raw)), text, c);
    } else {
      next := b;
    }
  }

  lemma {:induction false} ReadSoFar(g: Lexis, s: string, i: nat) returns (b: Begun)
    requires i <= |s| && StateAt(g, s, i).mode != Fail
    ensures Reads(g, b, StateAt(g, s, i), s[..i])
  {
    if i == 0 {
      b := Within(Nothing, []);
    } else {
      var st, c := StateAt(g, s, i - 1), s[i - 1];
      assert s[..i] == s[..i - 1] + [c];
      var before := ReadSoFar(g, s, i - 1);
      if st.mode.Text? { b := InText(g, before, st, s[..i - 1], c); }
      else if st.mode.Token? { b := InToken(g, before, st, s[..i - 1], c); }
      else { b := OutsideText(g, before, st, s[..i - 1], c); }
    }
  }

  // ---------- The grammar ----------

  /** A text is read as v exactly when it is a layout of v, white space around its tokens included. */
  lemma ParsesExactly(g: Lexis, s: string, v: Json)
    ensures Parse(g, s) == Some(v) <==> exists doc :: IsSlot(g, doc) && s == WriteSlot(doc) && Plain(g, doc.value) == v
  {
    if Parse(g, s) == Some(v) {
      var st := StateAt(g, s, |s|);
      var b := ReadSoFar(g, s, |s|);
      assert s[..|s|] == s;
      if st.mode.Token? {
        var raw := st.mode.raw;
        var done := Completes(g, b.open, st.stack, b.gap, LScalar(raw), s);
        assert Plain(g, done.doc.value) == v;
      }
    }
    if doc :| IsSlot(g, doc) && s == WriteSlot(doc) && Plain(g, doc.value) == v { ParseOfLayout(g, doc); }
  }
}
