/** JSON text as laid out by its grammar, with white space wherever it is allowed: the reader reads every layout. */
module JsonLayout {
  import opened GraphTypes
  import opened JsonText

  /** A value as it is written: a number or literal; the text between the quotes of a string; an array or an object,
      whose gap stands before the closing bracket. */
  datatype Layout =
    | LScalar(text: string)
    | LStr(raw: string)
    | LArr(items: seq<Slot>, gap: string)
    | LObj(fields: seq<Field>, gap: string)

  /** A value with what stands before and after it. */
  datatype Slot = Slot(before: string, value: Layout, after: string)

  /** A name with what stands before and after it, and its value. */
  datatype Field = Field(name: Name, slot: Slot)

  datatype Name = Name(before: string, raw: string, after: string)

  // ---------- The text ----------

  function Write(l: Layout): string {
    match l
    case LScalar(text) => text
    case LStr(raw) => ['"'] + raw + ['"']
    case LArr(items, gap) => ['['] + WriteItems(items) + gap + [']']
    case LObj(fields, gap) => ['{'] + WriteFields(fields) + gap + ['}']
  }

  function WriteSlot(slot: Slot): string { slot.before + Write(slot.value) + slot.after }

  function WriteItems(items: seq<Slot>): string {
    if items == [] then [] else
      Separated(WriteItems(items[..|items| - 1]), |items|) + WriteSlot(items[|items| - 1])
  }

  function WriteName(name: Name): string { name.before + ['"'] + name.raw + ['"'] + name.after + [':'] }

  function WriteFields(fields: seq<Field>): string {
    if fields == [] then [] else
      Separated(WriteFields(fields[..|fields| - 1]), |fields|) + WriteField(fields[|fields| - 1])
  }

  function WriteField(field: Field): string { WriteName(field.name) + WriteSlot(field.slot) }

  /** What comes before element number n: nothing, or the earlier elements and a comma. */
  function Separated(before: string, n: nat): string { if n <= 1 then before else before + [','] }

  // ---------- What is allowed ----------

  /** White space between tokens: blanks, tabs, line feeds and carriage returns. */
  ghost predicate IsGap(s: string) {
    forall i | 0 <= i < |s| :: s[i] == ' ' || s[i] == '\t' || s[i] == '\n' || s[i] == '\r'
  }

  /** A character that can be part of a number or a literal: neither white space, nor structural, nor a quote. */
  ghost predicate IsPlain(c: char) {
    && c != ' ' && c != '\t' && c != '\n' && c != '\r'
    && c != ',' && c != ':' && c != '[' && c != ']' && c != '{' && c != '}' && c != '"'
  }

  function EscapingAt(raw: string, i: nat): bool
    requires i <= |raw|
  {
    i > 0 && !EscapingAt(raw, i - 1) && raw[i - 1] == '\\'
  }

  ghost predicate QuotesEscaped(raw: string) { forall i | 0 <= i < |raw| && raw[i] == '"' :: EscapingAt(raw, i) }

  /** Quotes are escaped, and the last escape is complete. */
  ghost predicate Contained(raw: string) { !EscapingAt(raw, |raw|) && QuotesEscaped(raw) }

  ghost predicate IsScalar(g: Lexis, text: string) {
    text != [] && g.scalar(text) && forall i | 0 <= i < |text| :: IsPlain(text[i])
  }

  ghost predicate IsText(g: Lexis, raw: string) { Contained(raw) && g.unescape(raw).Some? }

  ghost predicate IsLayout(g: Lexis, l: Layout) {
    match l
    case LScalar(text) => IsScalar(g, text)
    case LStr(raw) => IsText(g, raw)
    case LArr(items, gap) => IsGap(gap) && forall i | 0 <= i < |items| :: IsSlot(g, items[i])
    case LObj(fields, gap) => IsGap(gap) && forall i | 0 <= i < |fields| :: IsField(g, fields[i])
  }

  ghost predicate IsSlot(g: Lexis, slot: Slot) { IsGap(slot.before) && IsLayout(g, slot.value) && IsGap(slot.after) }

  ghost predicate IsName(g: Lexis, name: Name) { IsGap(name.before) && IsText(g, name.raw) && IsGap(name.after) }

  ghost predicate IsField(g: Lexis, field: Field) { IsName(g, field.name) && IsSlot(g, field.slot) }

  ghost predicate AreSlots(g: Lexis, items: seq<Slot>) { forall i | 0 <= i < |items| :: IsSlot(g, items[i]) }

  ghost predicate AreFields(g: Lexis, fields: seq<Field>) { forall i | 0 <= i < |fields| :: IsField(g, fields[i]) }

  // ---------- The value ----------

  function TextOf(g: Lexis, raw: string): string {
    match g.unescape(raw)
    case Some(t) => t
    case None => []
  }

  /** The value without the white space. */
  function Plain(g: Lexis, l: Layout): Json {
    match l
    case LScalar(text) => Scalar(text)
    case LStr(raw) => Str(TextOf(g, raw))
    case LArr(items, _) => Arr(PlainItems(g, items))
    case LObj(fields, _) => Obj(PlainFields(g, fields))
  }

  function PlainItems(g: Lexis, items: seq<Slot>): seq<Json> {
    if items == [] then [] else PlainItems(g, items[..|items| - 1]) + [Plain(g, items[|items| - 1].value)]
  }

  function PlainFields(g: Lexis, fields: seq<Field>): seq<Member> {
    if fields == [] then [] else PlainFields(g, fields[..|fields| - 1]) + [PlainField(g, fields[|fields| - 1])]
  }

  function PlainField(g: Lexis, field: Field): Member {
    Member(TextOf(g, field.name.raw), Plain(g, field.slot.value))
  }

  lemma ItemsSnoc(g: Lexis, items: seq<Slot>, slot: Slot)
    requires AreSlots(g, items) && IsSlot(g, slot)
    ensures AreSlots(g, items + [slot])
    ensures PlainItems(g, items + [slot]) == PlainItems(g, items) + [Plain(g, slot.value)]
    ensures WriteItems(items + [slot]) == Separated(WriteItems(items), |items| + 1) + WriteSlot(slot)
  {
    assert (items + [slot])[..|items|] == items;
  }

  lemma FieldsSnoc(g: Lexis, fields: seq<Field>, field: Field)
    requires AreFields(g, fields) && IsField(g, field)
    ensures AreFields(g, fields + [field])
    ensures PlainFields(g, fields + [field]) == PlainFields(g, fields) + [PlainField(g, field)]
    ensures WriteFields(fields + [field]) == Separated(WriteFields(fields), |fields| + 1) + WriteField(field)
  {
    assert (fields + [field])[..|fields|] == fields;
  }

  // ---------- Reading on ----------

  ghost function Steps(g: Lexis, st: State, s: string): State {
    if s == [] then st else Step(g, Steps(g, st, s[..|s| - 1]), s[|s| - 1])
  }

  lemma {:induction false} StepsConcat(g: Lexis, st: State, a: string, b: string)
    ensures Steps(g, st, a + b) == Steps(g, Steps(g, st, a), b)
  {
    if b == [] {
      assert a + b == a;
    } else {
      assert (a + b)[..|a + b| - 1] == a + b[..|b| - 1];
      StepsConcat(g, st, a, b[..|b| - 1]);
    }
  }

  lemma OneStep(g: Lexis, st: State, c: char)
    ensures Steps(g, st, [c]) == Step(g, st, c)
  {
    assert [c][..0] == [];
    assert Steps(g, st, []) == st;
  }

  lemma StepsSnoc(g: Lexis, st: State, s: string, c: char)
    ensures Steps(g, st, s + [c]) == Step(g, Steps(g, st, s), c)
  {
    assert (s + [c])[..|s|] == s;
  }

  lemma {:induction false} StateIsSteps(g: Lexis, s: string, i: nat)
    requires i <= |s|
    ensures StateAt(g, s, i) == Steps(g, State(Bottom, Value), s[..i])
  {
    if i == 0 {
    } else {
      assert s[..i][..i - 1] == s[..i - 1];
      StateIsSteps(g, s, i - 1);
    }
  }

  /** White space outside strings and scalars changes nothing. */
  lemma {:induction false} ReadGap(g: Lexis, st: State, gap: string)
    requires IsGap(gap) && !st.mode.Text? && !st.mode.Token?
    ensures Steps(g, st, gap) == st
  {
    if gap == [] {
    } else {
      ReadGap(g, st, gap[..|gap| - 1]);
    }
  }

  /** After the text of a value: a scalar is still open to more characters. */
  function Pending(stack: Stack, j: Json): State {
    if j.Scalar? then State(stack, Token(j.text)) else Complete(stack, j)
  }

  /** After a value and what follows it. */
  ghost predicate Ended(g: Lexis, st: State, stack: Stack, j: Json) {
    (st == Pending(stack, j) || st == Complete(stack, j)) && (j.Scalar? ==> g.scalar(j.text))
  }

  /** The next delimiter finds the value complete. */
  lemma Delimited(g: Lexis, st: State, stack: Stack, j: Json, c: char)
    requires Ended(g, st, stack, j) && IsDelimiter(c)
    ensures Step(g, st, c) == Between(Complete(stack, j), c)
  {
  }

  lemma {:induction false} GapEnds(g: Lexis, stack: Stack, j: Json, gap: string)
    requires IsGap(gap) && (j.Scalar? ==> g.scalar(j.text))
    ensures Ended(g, Steps(g, Pending(stack, j), gap), stack, j)
  {
    if gap == [] {
    } else {
      var front, c := gap[..|gap| - 1], gap[|gap| - 1];
      GapEnds(g, stack, j, front);
      Delimited(g, Steps(g, Pending(stack, j), front), stack, j, c);
    }
  }

  lemma {:induction false} ReadText(g: Lexis, stack: Stack, isKey: bool, raw: string, i: nat)
    requires i <= |raw| && Contained(raw)
    ensures Steps(g, State(stack, Text(isKey, false, [])), raw[..i])
         == State(stack, Text(isKey, EscapingAt(raw, i), raw[..i]))
  {
    if i == 0 {
      assert raw[..i] == [];
    } else {
      assert raw[..i][..i - 1] == raw[..i - 1] && raw[..i] == raw[..i - 1] + [raw[i - 1]];
      ReadText(g, stack, isKey, raw, i - 1);
    }
  }

  /** A quoted string, from its opening quote on. */
  lemma ReadQuoted(g: Lexis, st: State, isKey: bool, raw: string)
    requires Contained(raw) && Step(g, st, '"') == State(st.stack, Text(isKey, false, []))
    ensures Steps(g, st, ['"'] + raw + ['"']) == EndText(g, st.stack, isKey, raw)
  {
    ReadText(g, st.stack, isKey, raw, |raw|);
    assert raw[..|raw|] == raw;
    OneStep(g, st, '"');
    StepsConcat(g, st, ['"'], raw);
    StepsConcat(g, st, ['"'] + raw, ['"']);
    OneStep(g, State(st.stack, Text(isKey, false, raw)), '"');
  }

  lemma TokenStarts(g: Lexis, stack: Stack, first: bool, c: char)
    requires IsPlain(c)
    ensures Step(g, Expecting(stack, first), c) == State(stack, Token([c]))
  {
  }

  lemma TokenGrows(g: Lexis, stack: Stack, raw: string, c: char)
    requires IsPlain(c)
    ensures Step(g, State(stack, Token(raw)), c) == State(stack, Token(raw + [c]))
  {
  }

  lemma {:induction false} ReadScalar(g: Lexis, stack: Stack, first: bool, text: string, i: nat)
    requires 0 < i <= |text| && forall k | 0 <= k < |text| :: IsPlain(text[k])
    ensures Steps(g, Expecting(stack, first), text[..i]) == State(stack, Token(text[..i]))
  {
    if i == 1 {
      assert text[..1] == [text[0]];
      OneStep(g, Expecting(stack, first), text[0]);
      TokenStarts(g, stack, first, text[0]);
    } else {
      assert text[..i] == text[..i - 1] + [text[i - 1]];
      ReadScalar(g, stack, first, text, i - 1);
      StepsSnoc(g, Expecting(stack, first), text[..i - 1], text[i - 1]);
      TokenGrows(g, stack, text[..i - 1], text[i - 1]);
    }
  }

  /** A value may come: the first of an array, or another one. */
  function Expecting(stack: Stack, first: bool): State { State(stack, if first then FirstItem else Value) }

  // ---------- Reading a layout ----------

  lemma {:induction false} ReadValue(g: Lexis, l: Layout, stack: Stack, first: bool)
    requires IsLayout(g, l)
    ensures Steps(g, Expecting(stack, first), Write(l)) == Pending(stack, Plain(g, l))
    decreases l, 1
  {
    var st := Expecting(stack, first);
    match l
    case LScalar(text) =>
      ReadScalar(g, stack, first, text, |text|);
      assert text[..|text|] == text;
    case LStr(raw) => ReadQuoted(g, st, false, raw);
    case LArr(items, gap) =>
      ReadItems(g, items, stack);
      Bracketed(g, st, '[', WriteItems(items), gap, ']');
      CloseItems(g, Steps(g, State(InArray(stack, []), FirstItem), WriteItems(items)), items, gap, stack);
    case LObj(fields, gap) =>
      ReadFields(g, fields, stack);
      Bracketed(g, st, '{', WriteFields(fields), gap, '}');
      CloseFields(g, Steps(g, State(InObject(stack, [], []), FirstKey), WriteFields(fields)), fields, gap, stack);
  }

  lemma Bracketed(g: Lexis, st: State, open: char, inside: string, gap: string, close: char)
    ensures Steps(g, st, [open] + inside + gap + [close])
         == Step(g, Steps(g, Steps(g, Step(g, st, open), inside), gap), close)
  {
    StepsConcat(g, st, [open] + inside + gap, [close]);
    StepsConcat(g, st, [open] + inside, gap);
    StepsConcat(g, st, [open], inside);
    OneStep(g, st, open);
    OneStep(g, Steps(g, st, [open] + inside + gap), close);
  }

  lemma {:induction false} ReadSlot(g: Lexis, slot: Slot, stack: Stack, first: bool)
    requires IsSlot(g, slot)
    ensures Ended(g, Steps(g, Expecting(stack, first), WriteSlot(slot)), stack, Plain(g, slot.value))
    decreases slot, 2
  {
    var st := Expecting(stack, first);
    StepsConcat(g, st, slot.before + Write(slot.value), slot.after);
    StepsConcat(g, st, slot.before, Write(slot.value));
    ReadGap(g, st, slot.before);
    ReadValue(g, slot.value, stack, first);
    GapEnds(g, stack, Plain(g, slot.value), slot.after);
  }

  /** After the items of an array. */
  ghost predicate ItemsRead(g: Lexis, st: State, items: seq<Slot>, stack: Stack) {
    if items == [] then st == State(InArray(stack, []), FirstItem)
    else Ended(g, st, InArray(stack, PlainItems(g, items[..|items| - 1])), Plain(g, items[|items| - 1].value))
  }

  lemma CloseItems(g: Lexis, st: State, items: seq<Slot>, gap: string, stack: Stack)
    requires ItemsRead(g, st, items, stack) && IsGap(gap)
    ensures Step(g, Steps(g, st, gap), ']') == Complete(stack, Arr(PlainItems(g, items)))
  {
    if items == [] {
      ReadGap(g, st, gap);
    } else {
      GapAgain(g, st, InArray(stack, PlainItems(g, items[..|items| - 1])), Plain(g, items[|items| - 1].value), gap);
      Delimited(g, Steps(g, st, gap), InArray(stack, PlainItems(g, items[..|items| - 1])),
                Plain(g, items[|items| - 1].value), ']');
    }
  }

  lemma GapAgain(g: Lexis, st: State, stack: Stack, j: Json, gap: string)
    requires Ended(g, st, stack, j) && IsGap(gap)
    ensures Ended(g, Steps(g, st, gap), stack, j)
  {
    if st == Pending(stack, j) { GapEnds(g, stack, j, gap); } else { ReadGap(g, st, gap); }
  }

  lemma CommaAfterItems(g: Lexis, st: State, items: seq<Slot>, stack: Stack)
    requires items != [] && ItemsRead(g, st, items, stack)
    ensures Step(g, st, ',') == Expecting(InArray(stack, PlainItems(g, items)), false)
  {
    Delimited(g, st, InArray(stack, PlainItems(g, items[..|items| - 1])), Plain(g, items[|items| - 1].value), ',');
  }

  lemma {:induction false} ReadItems(g: Lexis, items: seq<Slot>, stack: Stack)
    requires AreSlots(g, items)
    ensures ItemsRead(g, Steps(g, State(InArray(stack, []), FirstItem), WriteItems(items)), items, stack)
    decreases items, 0
  {
    if items == [] {
    } else {
      var st, before, last := State(InArray(stack, []), FirstItem), items[..|items| - 1], items[|items| - 1];
      ReadItems(g, before, stack);
      StepsConcat(g, st, Separated(WriteItems(before), |items|), WriteSlot(last));
      if before == [] {
        assert Separated(WriteItems(before), |items|) == [];
        ReadSlot(g, last, InArray(stack, []), true);
      } else {
        StepsSnoc(g, st, WriteItems(before), ',');
        CommaAfterItems(g, Steps(g, st, WriteItems(before)), before, stack);
        ReadSlot(g, last, InArray(stack, PlainItems(g, before)), false);
      }
    }
  }

  /** After the members of an object. */
  ghost predicate FieldsRead(g: Lexis, st: State, fields: seq<Field>, stack: Stack) {
    if fields == [] then st == State(InObject(stack, [], []), FirstKey)
    else
      var before, last := PlainFields(g, fields[..|fields| - 1]), PlainField(g, fields[|fields| - 1]);
      Ended(g, st, InObject(stack, before, last.key), last.value)
  }

  lemma CloseFields(g: Lexis, st: State, fields: seq<Field>, gap: string, stack: Stack)
    requires FieldsRead(g, st, fields, stack) && IsGap(gap)
    ensures Step(g, Steps(g, st, gap), '}') == Complete(stack, Obj(PlainFields(g, fields)))
  {
    if fields == [] {
      ReadGap(g, st, gap);
    } else {
      var before, last := PlainFields(g, fields[..|fields| - 1]), PlainField(g, fields[|fields| - 1]);
      GapAgain(g, st, InObject(stack, before, last.key), last.value, gap);
      Delimited(g, Steps(g, st, gap), InObject(stack, before, last.key), last.value, '}');
    }
  }

  lemma CommaAfterFields(g: Lexis, st: State, fields: seq<Field>, stack: Stack)
    requires fields != [] && FieldsRead(g, st, fields, stack)
    ensures Step(g, st, ',')
         == State(InObject(stack, PlainFields(g, fields), PlainField(g, fields[|fields| - 1]).key), Key)
  {
    var before, last := PlainFields(g, fields[..|fields| - 1]), PlainField(g, fields[|fields| - 1]);
    Delimited(g, st, InObject(stack, before, last.key), last.value, ',');
  }

  lemma {:induction false} ReadFields(g: Lexis, fields: seq<Field>, stack: Stack)
    requires AreFields(g, fields)
    ensures FieldsRead(g, Steps(g, State(InObject(stack, [], []), FirstKey), WriteFields(fields)), fields, stack)
    decreases fields, 0
  {
    if fields == [] {
    } else {
      var st := State(InObject(stack, [], []), FirstKey);
      var before, last := fields[..|fields| - 1], fields[|fields| - 1];
      ReadFields(g, before, stack);
      var front := Separated(WriteFields(before), |fields|);
      StepsConcat(g, st, front, WriteField(last));
      if before == [] {
        assert front == [];
      } else {
        StepsSnoc(g, st, WriteFields(before), ',');
        CommaAfterFields(g, Steps(g, st, WriteFields(before)), before, stack);
      }
      ReadField(g, Steps(g, st, front), stack, PlainFields(g, before), last);
    }
  }

  lemma {:induction false} ReadField(g: Lexis, st: State, stack: Stack, before: seq<Member>, field: Field)
    requires IsField(g, field) && st.stack.InObject? && st.stack.below == stack && st.stack.members == before
    requires st.mode == FirstKey || st.mode == Key
    ensures var m := PlainField(g, field);
      Ended(g, Steps(g, st, WriteField(field)), InObject(stack, before, m.key), m.value)
    decreases field, 3
  {
    StepsConcat(g, st, WriteName(field.name), WriteSlot(field.slot));
    ReadName(g, st, stack, before, field.name);
    ReadSlot(g, field.slot, InObject(stack, before, TextOf(g, field.name.raw)), false);
  }

  /** A name and its colon; the value is next. */
  lemma ReadName(g: Lexis, st: State, stack: Stack, before: seq<Member>, name: Name)
    requires IsName(g, name) && st.stack.InObject? && st.stack.below == stack && st.stack.members == before
    requires st.mode == FirstKey || st.mode == Key
    ensures Steps(g, st, WriteName(name)) == Expecting(InObject(stack, before, TextOf(g, name.raw)), false)
  {
    var named := State(InObject(stack, before, TextOf(g, name.raw)), Colon);
    StepsConcat(g, st, name.before + (['"'] + name.raw + ['"']) + name.after, [':']);
    StepsConcat(g, st, name.before + (['"'] + name.raw + ['"']), name.after);
    StepsConcat(g, st, name.before, ['"'] + name.raw + ['"']);
    NameText(name.before, name.raw);
    ReadGap(g, st, name.before);
    ReadQuoted(g, st, true, name.raw);
    ReadGap(g, named, name.after);
    OneStep(g, named, ':');
  }

  lemma NameText(before: string, raw: string)
    ensures before + ['"'] + raw + ['"'] == before + (['"'] + raw + ['"'])
  {
  }

  /** A document in any layout is read. */
  lemma ParseOfLayout(g: Lexis, doc: Slot)
    requires IsSlot(g, doc)
    ensures Parse(g, WriteSlot(doc)) == Some(Plain(g, doc.value))
  {
    var s := WriteSlot(doc);
    StateIsSteps(g, s, |s|);
    assert s[..|s|] == s;
    ReadSlot(g, doc, Bottom, false);
  }
}
