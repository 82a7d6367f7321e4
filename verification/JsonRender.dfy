/** Writing values as JSON text without white space: the reader gives every written value back. */
module JsonRender {
  import opened GraphTypes
  import opened JsonText
  import opened JsonLayout

  /** How the characters of a string are written between its quotes. */
  type Quoting = string -> string

  // ---------- Writing ----------

  function Quoted(quote: Quoting, t: string): string { ['"'] + quote(t) + ['"'] }

  function Render(quote: Quoting, j: Json): string {
    match j
    case Scalar(text) => text
    case Str(t) => Quoted(quote, t)
    case Arr(items) => ['['] + RenderItems(quote, items) + [']']
    case Obj(members) => ['{'] + RenderMembers(quote, members) + ['}']
  }

  function RenderItems(quote: Quoting, items: seq<Json>): string {
    if items == [] then [] else
      Separated(RenderItems(quote, items[..|items| - 1]), |items|) + Render(quote, items[|items| - 1])
  }

  function RenderMembers(quote: Quoting, members: seq<Member>): string {
    if members == [] then [] else
      var last := members[|members| - 1];
      Separated(RenderMembers(quote, members[..|members| - 1]), |members|)
      + (Quoted(quote, last.key) + [':'] + Render(quote, last.value))
  }

  // ---------- What can be written ----------

  ghost predicate Writable(g: Lexis, quote: Quoting, t: string) {
    Contained(quote(t)) && g.unescape(quote(t)) == Some(t)
  }

  /** Scalars are runs of their own characters, strings and names can be written. */
  ghost predicate Legible(g: Lexis, quote: Quoting, j: Json) {
    match j
    case Scalar(text) => IsScalar(g, text)
    case Str(t) => Writable(g, quote, t)
    case Arr(items) => forall i | 0 <= i < |items| :: Legible(g, quote, items[i])
    case Obj(members) =>
      forall i | 0 <= i < |members| :: Writable(g, quote, members[i].key) && Legible(g, quote, members[i].value)
  }

  // ---------- The layout without white space ----------

  function Compact(quote: Quoting, j: Json): Layout {
    match j
    case Scalar(text) => LScalar(text)
    case Str(t) => LStr(quote(t))
    case Arr(items) => LArr(CompactItems(quote, items), [])
    case Obj(members) => LObj(CompactFields(quote, members), [])
  }

  function CompactItems(quote: Quoting, items: seq<Json>): seq<Slot> {
    if items == [] then [] else
      CompactItems(quote, items[..|items| - 1]) + [Tight(Compact(quote, items[|items| - 1]))]
  }

  function CompactFields(quote: Quoting, members: seq<Member>): seq<Field> {
    if members == [] then [] else
      CompactFields(quote, members[..|members| - 1]) + [CompactField(quote, members[|members| - 1])]
  }

  function CompactField(quote: Quoting, m: Member): Field {
    Field(Name([], quote(m.key), []), Tight(Compact(quote, m.value)))
  }

  function Tight(l: Layout): Slot { Slot([], l, []) }

  lemma TightText(l: Layout)
    ensures WriteSlot(Tight(l)) == Write(l)
  {
  }

  /** The layout is one of the value, and its text is what is written. */
  ghost predicate Fits(g: Lexis, quote: Quoting, j: Json, l: Layout) {
    IsLayout(g, l) && Plain(g, l) == j && Write(l) == Render(quote, j)
  }

  ghost predicate ItemsFit(g: Lexis, quote: Quoting, items: seq<Json>, slots: seq<Slot>) {
    && |slots| == |items| && AreSlots(g, slots) && PlainItems(g, slots) == items
    && WriteItems(slots) == RenderItems(quote, items)
  }

  ghost predicate FieldsFit(g: Lexis, quote: Quoting, members: seq<Member>, fields: seq<Field>) {
    && |fields| == |members| && AreFields(g, fields) && PlainFields(g, fields) == members
    && WriteFields(fields) == RenderMembers(quote, members)
  }

  lemma OneMoreItem(g: Lexis, quote: Quoting, items: seq<Json>, slots: seq<Slot>, j: Json, l: Layout)
    requires ItemsFit(g, quote, items, slots) && Fits(g, quote, j, l)
    ensures ItemsFit(g, quote, items + [j], slots + [Tight(l)])
  {
    TightText(l);
    ItemsSnoc(g, slots, Tight(l));
    assert (items + [j])[..|items|] == items;
  }

  lemma OneMoreField(g: Lexis, quote: Quoting, members: seq<Member>, fields: seq<Field>, m: Member)
    requires FieldsFit(g, quote, members, fields)
    requires Writable(g, quote, m.key) && Fits(g, quote, m.value, Compact(quote, m.value))
    ensures FieldsFit(g, quote, members + [m], fields + [CompactField(quote, m)])
  {
    CompactFieldFacts(g, quote, m);
    FieldsSnoc(g, fields, CompactField(quote, m));
    assert (members + [m])[..|members|] == members;
  }

  /** What is written is the layout without white space, and it is a layout of the value. */
  lemma {:induction false} CompactIsRender(g: Lexis, quote: Quoting, j: Json)
    requires Legible(g, quote, j)
    ensures Fits(g, quote, j, Compact(quote, j))
    decreases j, 2
  {
    match j
    case Scalar(text) =>
    case Str(t) =>
    case Arr(items) =>
      CompactItemsFit(g, quote, items);
      NoGap('[', RenderItems(quote, items), ']');
    case Obj(members) =>
      CompactFieldsFit(g, quote, members);
      NoGap('{', RenderMembers(quote, members), '}');
  }

  lemma NoGap(open: char, inside: string, close: char)
    ensures [open] + inside + [] + [close] == [open] + inside + [close]
  {
  }

  lemma {:induction false} CompactItemsFit(g: Lexis, quote: Quoting, items: seq<Json>)
    requires forall i | 0 <= i < |items| :: Legible(g, quote, items[i])
    ensures ItemsFit(g, quote, items, CompactItems(quote, items))
    decreases items, 0
  {
    NothingFits(g, quote);
    if items == [] {
    } else {
      var front, last := items[..|items| - 1], items[|items| - 1];
      CompactItemsFit(g, quote, front);
      CompactIsRender(g, quote, last);
      OneMoreItem(g, quote, front, CompactItems(quote, front), last, Compact(quote, last));
      assert items == front + [last];
    }
  }

  lemma {:induction false} CompactFieldsFit(g: Lexis, quote: Quoting, members: seq<Member>)
    requires forall i | 0 <= i < |members| :: Writable(g, quote, members[i].key) && Legible(g, quote, members[i].value)
    ensures FieldsFit(g, quote, members, CompactFields(quote, members))
    decreases members, 1
  {
    NothingFits(g, quote);
    if members == [] {
    } else {
      var front, last := members[..|members| - 1], members[|members| - 1];
      CompactFieldsFit(g, quote, front);
      OneMoreMember(g, quote, members, front, CompactFields(quote, front), last);
    }
  }

  lemma {:induction false} OneMoreMember(g: Lexis, quote: Quoting, members: seq<Member>, front: seq<Member>,
                                         fields: seq<Field>, last: Member)
    requires Writable(g, quote, last.key) && Legible(g, quote, last.value)
    requires members != [] && front == members[..|members| - 1] && last == members[|members| - 1]
    requires FieldsFit(g, quote, front, fields)
    ensures FieldsFit(g, quote, members, fields + [CompactField(quote, last)])
    decreases members, 0
  {
    assert members == front + [last];
    CompactIsRender(g, quote, last.value);
    OneMoreField(g, quote, front, fields, last);
  }

  lemma NothingFits(g: Lexis, quote: Quoting)
    ensures ItemsFit(g, quote, [], CompactItems(quote, [])) && FieldsFit(g, quote, [], CompactFields(quote, []))
  {
  }

  lemma CompactFieldFacts(g: Lexis, quote: Quoting, m: Member)
    requires Writable(g, quote, m.key)
    requires Fits(g, quote, m.value, Compact(quote, m.value))
    ensures IsField(g, CompactField(quote, m)) && PlainField(g, CompactField(quote, m)) == m
    ensures WriteField(CompactField(quote, m)) == Quoted(quote, m.key) + [':'] + Render(quote, m.value)
  {
    var name := Name([], quote(m.key), []);
    assert WriteName(name) == Quoted(quote, m.key) + [':'];
    TightText(Compact(quote, m.value));
  }

  /** Reading what was written gives the value back. */
  lemma ParseOfRendered(g: Lexis, quote: Quoting, j: Json)
    requires Legible(g, quote, j)
    ensures Parse(g, Render(quote, j)) == Some(j)
  {
    CompactIsRender(g, quote, j);
    var doc := Tight(Compact(quote, j));
    ParseOfLayout(g, doc);
    TightText(Compact(quote, j));
  }
}
