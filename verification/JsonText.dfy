/** JSON text (RFC 8259) read character by character: a stack of open arrays and objects, and what may come next. */
module JsonText {
  import opened GraphTypes

  datatype Json = Scalar(text: string) | Str(text: string) | Arr(items: seq<Json>) | Obj(members: seq<Member>)

  datatype Member = Member(key: string, value: Json)

  /** What strings and other scalars mean: the text of a string's characters, None when an escape or a control
      character is invalid, and which character runs are numbers or literals. */
  datatype Lexis = Lexis(unescape: string -> Option<string>, scalar: string -> bool)

  /** The open containers, innermost first, with what they hold so far; an object also knows its current name. */
  datatype Stack =
    | Bottom
    | InArray(below: Stack, items: seq<Json>)
    | InObject(below: Stack, members: seq<Member>, key: string)

  /** What may come next: a value; a first item or the end of an array; a first name or the end of an object; a
      name; a colon; a comma or a closer. Or the middle of a string or scalar, the end of the text, an error. */
  datatype Mode = Value | FirstItem | FirstKey | Key | Colon | After
                  | Text(isKey: bool, escaped: bool, raw: string) | Token(raw: string) | Done(value: Json) | Fail

  datatype State = State(stack: Stack, mode: Mode)

  const FAILED: State := State(Bottom, Fail)

  predicate IsSpace(c: char) { c == ' ' || c == '\t' || c == '\n' || c == '\r' }

  predicate IsDelimiter(c: char) {
    IsSpace(c) || c == ',' || c == ':' || c == '[' || c == ']' || c == '{' || c == '}' || c == '"'
  }

  /** A value is complete: it goes into the innermost open container. */
  function Complete(stack: Stack, w: Json): State {
    match stack
    case Bottom => State(Bottom, Done(w))
    case InArray(below, items) => State(InArray(below, items + [w]), After)
    case InObject(below, members, key) => State(InObject(below, members + [Member(key, w)], key), After)
  }

  function Open(stack: Stack, c: char, first: bool): State {
    if c == '"' then State(stack, Text(false, false, []))
    else if c == '[' then State(InArray(stack, []), FirstItem)
    else if c == '{' then State(InObject(stack, [], []), FirstKey)
    else if c == ']' && first && stack.InArray? then Complete(stack.below, Arr(stack.items))
    else if IsDelimiter(c) then FAILED
    else State(stack, Token([c]))
  }

  function Next(stack: Stack, c: char): State {
    if stack.InArray? && c == ',' then State(stack, Value)
    else if stack.InArray? && c == ']' then Complete(stack.below, Arr(stack.items))
    else if stack.InObject? && c == ',' then State(stack, Key)
    else if stack.InObject? && c == '}' then Complete(stack.below, Obj(stack.members))
    else FAILED
  }

  function FirstName(stack: Stack, c: char): State {
    if c == '"' then State(stack, Text(true, false, []))
    else if c == '}' && stack.InObject? then Complete(stack.below, Obj(stack.members))
    else FAILED
  }

  /** Outside strings and scalars. */
  function Between(st: State, c: char): State {
    if IsSpace(c) then st else
      match st.mode
      case Value => Open(st.stack, c, false)
      case FirstItem => Open(st.stack, c, true)
      case FirstKey => FirstName(st.stack, c)
      case Key => if c == '"' then State(st.stack, Text(true, false, [])) else FAILED
      case Colon => if c == ':' then State(st.stack, Value) else FAILED
      case After => Next(st.stack, c)
      case _ => FAILED
  }

  function EndText(g: Lexis, stack: Stack, isKey: bool, raw: string): State {
    match g.unescape(raw)
    case None => FAILED
    case Some(t) =>
      if !isKey then Complete(stack, Str(t))
      else if stack.InObject? then State(InObject(stack.below, stack.members, t), Colon)
      else FAILED
  }

  function Step(g: Lexis, st: State, c: char): State {
    match st.mode
    case Text(isKey, escaped, raw) =>
      if !escaped && c == '"' then EndText(g, st.stack, isKey, raw)
      else State(st.stack, Text(isKey, !escaped && c == '\\', raw + [c]))
    case Token(raw) =>
      if !IsDelimiter(c) then State(st.stack, Token(raw + [c]))
      else if g.scalar(raw) then Between(Complete(st.stack, Scalar(raw)), c)
      else FAILED
    case _ => Between(st, c)
  }

  /** After the first i characters. */
  function StateAt(g: Lexis, s: string, i: nat): State
    requires i <= |s|
  {
    if i == 0 then State(Bottom, Value) else Step(g, StateAt(g, s, i - 1), s[i - 1])
  }

  /** At the end of the text. */
  function Finish(g: Lexis, st: State): Option<Json> {
    match st.mode
    case Done(v) => Some(v)
    case Token(raw) => if st.stack.Bottom? && g.scalar(raw) then Some(Scalar(raw)) else None
    case _ => None
  }

  function Parse(g: Lexis, s: string): Option<Json> { Finish(g, StateAt(g, s, |s|)) }

  lemma {:induction false} StateOfPrefix(g: Lexis, a: string, b: string, i: nat)
    requires i <= |a| && i <= |b| && a[..i] == b[..i]
    ensures StateAt(g, a, i) == StateAt(g, b, i)
  {
    if i == 0 {
    } else {
      assert a[..i - 1] == a[..i][..i - 1] && b[..i - 1] == b[..i][..i - 1];
      assert a[i - 1] == a[..i][i - 1] && b[i - 1] == b[..i][i - 1];
      StateOfPrefix(g, a, b, i - 1);
    }
  }

  // ---------- What an open stack says about the finished value ----------

  /** What finally fills the place where the innermost open container goes on, when the whole text becomes v and
      the containers have been read so far as part of v. */
  function Final(stack: Stack, v: Json): Option<Json> {
    match stack
    case Bottom => Some(v)
    case InArray(below, items) =>
      var x := Final(below, v);
      if x.Some? && x.value.Arr? && items <= x.value.items && |items| < |x.value.items|
      then Some(x.value.items[|items|]) else None
    case InObject(below, members, key) =>
      var x := Final(below, v);
      if x.Some? && x.value.Obj? && members <= x.value.members && |members| < |x.value.members|
         && x.value.members[|members|].key == key
      then Some(x.value.members[|members|].value) else None
  }

  /** The innermost open container has been read as a beginning of its final value. */
  predicate Begins(stack: Stack, v: Json) {
    match stack
    case Bottom => true
    case InArray(below, items) =>
      var x := Final(below, v); x.Some? && x.value.Arr? && items <= x.value.items
    case InObject(below, members, _) =>
      var x := Final(below, v); x.Some? && x.value.Obj? && members <= x.value.members
  }

  /** A state on the way to v. */
  predicate LeadsTo(st: State, v: Json) {
    match st.mode
    case Value => Final(st.stack, v).Some?
    case Colon => Final(st.stack, v).Some?
    case Text(isKey, _, _) => if isKey then Begins(st.stack, v) else Final(st.stack, v).Some?
    case Token(_) => Final(st.stack, v).Some? && Final(st.stack, v).value.Scalar?
    case Done(w) => w == v
    case Fail => false
    case _ => Begins(st.stack, v)
  }

  lemma CompletesTo(stack: Stack, w: Json, v: Json)
    requires LeadsTo(Complete(stack, w), v)
    ensures Final(stack, v) == Some(w)
  {
    match stack
    case Bottom =>
    case InArray(below, items) =>
      var xs := Final(below, v).value.items;
      assert items + [w] <= xs && (items + [w])[|items|] == xs[|items|];
      assert items <= xs;
    case InObject(below, members, key) =>
      var ms := Final(below, v).value.members;
      assert members + [Member(key, w)] <= ms && (members + [Member(key, w)])[|members|] == ms[|members|];
      assert members <= ms;
  }

  lemma BetweenBack(st: State, c: char, v: Json)
    requires LeadsTo(Between(st, c), v)
    ensures LeadsTo(st, v)
  {
    if !IsSpace(c) {
      match st.mode
      case FirstKey => if c == '}' { CompletesTo(st.stack.below, Obj(st.stack.members), v); }
      case FirstItem => OpenBack(st.stack, c, true, v);
      case Value => OpenBack(st.stack, c, false, v);
      case After =>
        if c == ']' { CompletesTo(st.stack.below, Arr(st.stack.items), v); }
        else if c == '}' { CompletesTo(st.stack.below, Obj(st.stack.members), v); }
      case _ =>
    }
  }

  lemma OpenBack(stack: Stack, c: char, first: bool, v: Json)
    requires LeadsTo(Open(stack, c, first), v)
    ensures if first then Begins(stack, v) else Final(stack, v).Some?
  {
    if c == ']' { CompletesTo(stack.below, Arr(stack.items), v); }
  }

  lemma StepBack(g: Lexis, st: State, c: char, v: Json)
    requires LeadsTo(Step(g, st, c), v)
    ensures LeadsTo(st, v)
  {
    match st.mode
    case Text(isKey, escaped, raw) =>
      if !escaped && c == '"' && !isKey { CompletesTo(st.stack, Str(g.unescape(raw).value), v); }
    case Token(raw) =>
      if IsDelimiter(c) {
        BetweenBack(Complete(st.stack, Scalar(raw)), c, v);
        CompletesTo(st.stack, Scalar(raw), v);
      }
    case _ => BetweenBack(st, c, v);
  }

  /** Every state on the way to a document leads to its value. */
  lemma {:induction false} EveryStateLeadsOn(g: Lexis, d: string, i: nat, v: Json)
    requires Parse(g, d) == Some(v) && i <= |d|
    ensures LeadsTo(StateAt(g, d, i), v)
    decreases |d| - i
  {
    if i == |d| {
    } else {
      EveryStateLeadsOn(g, d, i + 1, v);
      StepBack(g, StateAt(g, d, i), d[i], v);
    }
  }
}
