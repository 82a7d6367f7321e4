/** A payload from which nothing is salvaged although an object is complete: closing braces inside a string. */
module SalvageExamples {
  import opened GraphTypes
  import opened JsonText
  import opened JsonLayout
  import opened JsonRender
  import opened Salvage
  import opened SalvageFacts
  import opened SalvageLists
  import Scan = FenceScanner
  import FenceFacts

  function Braces(): string { seq(ATTEMPTS, _ => '}') }

  /** One complete node, then one with the braces as its text; no edges. */
  function Buried(): Json {
    Obj([Member(NODES, Arr([Obj([]), Obj([Member([], Str(Braces()))])])), Member(EDGES, Arr([]))])
  }

  /** The strings of the document are written as they are. */
  ghost predicate Verbatim(g: Lexis, quote: Quoting) {
    forall t | t == NODES || t == EDGES || t == [] || t == Braces() :: quote(t) == t && g.unescape(t) == Some(t)
  }

  // ---------- The document ----------

  lemma {:induction false} PlainIsContained(t: string, i: nat)
    requires i <= |t| && forall k | 0 <= k < |t| :: t[k] != '\\' && t[k] != '"'
    ensures !EscapingAt(t, i)
  {
    if i == 0 {
    } else {
      PlainIsContained(t, i - 1);
    }
  }

  lemma NamesArePlain()
    ensures forall t, k | (t == NODES || t == EDGES || t == [] || t == Braces()) && 0 <= k < |t| ::
              t[k] != '\\' && t[k] != '"'
  {
  }

  lemma BuriedIsLegible(g: Lexis, quote: Quoting)
    requires Verbatim(g, quote)
    ensures Legible(g, quote, Buried())
  {
    NamesArePlain();
    PlainIsContained(NODES, |NODES|);
    PlainIsContained(EDGES, |EDGES|);
    PlainIsContained([], 0);
    PlainIsContained(Braces(), |Braces()|);
    var second := Obj([Member([], Str(Braces()))]);
    assert Legible(g, quote, Str(Braces())) && Legible(g, quote, second) && Legible(g, quote, Obj([]));
    assert Legible(g, quote, Arr([Obj([]), second])) && Legible(g, quote, Arr([]));
  }

  lemma BuriedIsPayload()
    ensures IsPayload(Buried())
  {
    TwoNames();
    var second := Obj([Member([], Str(Braces()))]);
    assert IsFlat(Obj([])) && IsFlat(second) && IsFlatList(Arr([Obj([]), second])) && IsFlatList(Arr([]));
  }

  // ---------- How it begins ----------

  /** The text of the first node and all before it, and the text on to the opening quote of the braces. */
  function FirstNode(): string { ['{'] + (['"'] + NODES + ['"']) + [':', '[', '{', '}'] }

  function Head(): string { FirstNode() + [',', '{'] + ['"', '"'] + [':'] + ['"'] }

  lemma OneMember(quote: Quoting, m: Member)
    ensures RenderMembers(quote, [m]) == Quoted(quote, m.key) + [':'] + Render(quote, m.value)
  {
    assert [m][..0] == [];
    assert RenderMembers(quote, []) == [];
  }

  lemma TwoMembers(quote: Quoting, m: Member, n: Member)
    ensures RenderMembers(quote, [m, n])
         == RenderMembers(quote, [m]) + [','] + (Quoted(quote, n.key) + [':'] + Render(quote, n.value))
  {
    assert [m, n][..1] == [m];
  }

  lemma TwoItems(quote: Quoting, a: Json, b: Json)
    ensures RenderItems(quote, [a, b]) == Render(quote, a) + [','] + Render(quote, b)
  {
    assert [a, b][..1] == [a] && [a][..0] == [];
    assert RenderItems(quote, []) == [] && RenderItems(quote, [a]) == Render(quote, a);
  }

  lemma SecondBegins(g: Lexis, quote: Quoting)
    requires Verbatim(g, quote)
    ensures ['{'] + (['"', '"'] + [':'] + ['"'] + Braces()) <= Render(quote, Obj([Member([], Str(Braces()))]))
  {
    var m := Member([], Str(Braces()));
    OneMember(quote, m);
    assert Quoted(quote, []) == ['"', '"'];
    SecondAssembled(Braces());
  }

  lemma SecondAssembled(b: string)
    ensures ['{'] + (['"', '"'] + [':'] + ['"'] + b) <= ['{'] + (['"', '"'] + [':'] + (['"'] + b + ['"'])) + ['}']
  {
    assert ['{'] + (['"', '"'] + [':'] + (['"'] + b + ['"'])) + ['}']
        == (['{'] + (['"', '"'] + [':'] + ['"'] + b)) + ['"', '}'];
  }

  lemma ListBegins(g: Lexis, quote: Quoting)
    requires Verbatim(g, quote)
    ensures ['[', '{', '}', ',', '{'] + (['"', '"'] + [':'] + ['"'] + Braces())
         <= Render(quote, Arr([Obj([]), Obj([Member([], Str(Braces()))])]))
  {
    var second := Obj([Member([], Str(Braces()))]);
    SecondBegins(g, quote);
    TwoItems(quote, Obj([]), second);
    assert Render(quote, Obj([])) == ['{', '}'] by { assert RenderMembers(quote, []) == []; }
    var begin := ['"', '"'] + [':'] + ['"'] + Braces();
    Longer(['[', '{', '}', ','], ['{'] + begin, Render(quote, second), [']']);
    ListAssembled(Render(quote, second), begin);
  }

  lemma ListAssembled(item: string, rest: string)
    ensures ['['] + (['{', '}'] + [','] + item) + [']'] == ['[', '{', '}', ','] + item + [']']
    ensures ['[', '{', '}', ','] + (['{'] + rest) == ['[', '{', '}', ',', '{'] + rest
  {
    assert ['[', '{', '}', ','] == ['['] + ['{', '}'] + [','];
    assert ['[', '{', '}', ',', '{'] == ['[', '{', '}', ','] + ['{'];
  }

  lemma Longer(a: string, b: string, c: string, d: string)
    requires b <= c
    ensures a + b <= a + c + d
  {
    assert forall k | 0 <= k < |a + b| :: (a + b)[k] == (a + c + d)[k];
  }

  lemma BuriedBegins(g: Lexis, quote: Quoting)
    requires Verbatim(g, quote)
    ensures Head() + Braces() <= Render(quote, Buried())
  {
    var list := Arr([Obj([]), Obj([Member([], Str(Braces()))])]);
    var m, n := Member(NODES, list), Member(EDGES, Arr([]));
    var tail := ['[', '{', '}', ',', '{'] + (['"', '"'] + [':'] + ['"'] + Braces());
    ListBegins(g, quote);
    OneMember(quote, m);
    TwoMembers(quote, m, n);
    var name := ['{'] + (['"'] + NODES + ['"']) + [':'];
    var rest := [','] + (Quoted(quote, EDGES) + [':'] + Render(quote, Arr([]))) + ['}'];
    Longer(name, tail, Render(quote, list), rest);
    Assembled(['"'] + NODES + ['"'], Render(quote, list), Quoted(quote, EDGES) + [':'] + Render(quote, Arr([])));
    HeadSplits(['"'] + NODES + ['"'], Braces());
  }

  lemma Assembled(name: string, list: string, other: string)
    ensures ['{'] + ((name + [':'] + list) + [','] + other) + ['}']
         == (['{'] + name + [':']) + list + ([','] + other + ['}'])
  {
  }

  lemma HeadSplits(name: string, b: string)
    ensures ['{'] + name + [':', '[', '{', '}'] + [',', '{'] + ['"', '"'] + [':'] + ['"'] + b
         == (['{'] + name + [':']) + (['[', '{', '}', ',', '{'] + (['"', '"'] + [':'] + ['"'] + b))
  {
    assert [':', '[', '{', '}'] == [':'] + ['[', '{', '}'];
    assert ['[', '{', '}', ',', '{'] == ['[', '{', '}'] + [',', '{'];
  }

  // ---------- What lies inside strings ----------

  ghost predicate EndsOutside(s: string) { Scan.ModeAt(s, |s|) == Scan.Outside }

  lemma OutsideConcat(a: string, b: string, k: nat)
    requires EndsOutside(a) && k <= |b|
    ensures Scan.ModeAt(a + b, |a| + k) == Scan.ModeAt(b, k)
  {
    FenceFacts.ModeWithin(a, b, [], k);
    assert a + b + [] == a + b;
  }

  lemma {:induction false} NoQuotesOutside(s: string, k: nat)
    requires k <= |s| && forall i | 0 <= i < |s| :: s[i] != '"'
    ensures Scan.ModeAt(s, k) == Scan.Outside
  {
    if k == 0 {
    } else {
      NoQuotesOutside(s, k - 1);
    }
  }

  lemma {:induction false} PlainInside(t: string, k: nat)
    requires k <= |t| && forall i | 0 <= i < |t| :: t[i] != '\\' && t[i] != '"'
    ensures Scan.ModeAt(['"'] + t + ['"'], k + 1) == Scan.Inside
  {
    if k > 0 {
      PlainInside(t, k - 1);
      assert (['"'] + t + ['"'])[k] == t[k - 1];
    } else {
      assert Scan.ModeAt(['"'] + t + ['"'], 0) == Scan.Outside;
    }
  }

  lemma QuotedOutside(t: string)
    requires forall i | 0 <= i < |t| :: t[i] != '\\' && t[i] != '"'
    ensures EndsOutside(['"'] + t + ['"'])
  {
    PlainInside(t, |t|);
  }

  lemma FirstNodeOutside()
    ensures EndsOutside(FirstNode()) && IsOuterBrace(FirstNode(), |FirstNode()| - 1)
  {
    var name, tail := ['"'] + NODES + ['"'], [':', '[', '{', '}'];
    NamesArePlain();
    NoQuotesOutside(['{'], 1);
    QuotedOutside(NODES);
    OutsideConcat(['{'], name, |name|);
    NoQuotesOutside(tail, 3);
    NoQuotesOutside(tail, 4);
    OutsideConcat(['{'] + name, tail, 3);
    OutsideConcat(['{'] + name, tail, 4);
  }

  lemma HeadInside()
    ensures Scan.ModeAt(Head(), |Head()|) == Scan.Inside
  {
    var first, second, third := FirstNode(), FirstNode() + [',', '{'], FirstNode() + [',', '{'] + ['"', '"'];
    FirstNodeOutside();
    NoQuotesOutside([',', '{'], 2);
    OutsideConcat(first, [',', '{'], 2);
    QuotedOutside([]);
    assert ['"'] + [] + ['"'] == ['"', '"'];
    OutsideConcat(second, ['"', '"'], 2);
    NoQuotesOutside([':'], 1);
    OutsideConcat(third, [':'], 1);
    OutsideConcat(third + [':'], ['"'], 1);
    assert Scan.ModeAt(['"'], 0) == Scan.Outside;
  }

  lemma {:induction false} ModesOfPrefix(s: string, d: string, k: nat)
    requires k <= |s| && s <= d
    ensures Scan.ModeAt(s, k) == Scan.ModeAt(d, k)
  {
    if k == 0 {
    } else {
      ModesOfPrefix(s, d, k - 1);
    }
  }

  /** A document and a cut of it with a complete object before, from which nothing is salvaged. */
  lemma NothingSalvaged(g: Lexis, quote: Quoting)
    requires Verbatim(g, quote)
    ensures var d, cut := Render(quote, Buried()), |Head()| + ATTEMPTS;
      && cut <= |d| && Parse(g, d) == Some(Buried()) && IsPayload(Buried())
      && IsOuterBrace(d[..cut], |FirstNode()| - 1)
      && forall r | IsSalvaged(g, d[..cut], r) :: r == None
  {
    var d, begun := Render(quote, Buried()), Head() + Braces();
    BuriedBegins(g, quote);
    BuriedIsLegible(g, quote);
    BuriedIsPayload();
    ParseOfRendered(g, quote, Buried());
    assert d[..|begun|] == begun;
    NodeComplete(begun);
    forall r | IsSalvaged(g, begun, r) ensures r == None { NoneFromBegun(g, d, r); }
  }

  lemma NodeComplete(begun: string)
    requires begun == Head() + Braces()
    ensures IsOuterBrace(begun, |FirstNode()| - 1)
  {
    FirstNodeOutside();
    assert FirstNode() <= begun;
    ModesOfPrefix(FirstNode(), begun, |FirstNode()| - 1);
  }

  lemma NoneFromBegun(g: Lexis, d: string, r: Option<Json>)
    requires Parse(g, d) == Some(Buried()) && IsPayload(Buried())
    requires Head() + Braces() <= d && IsSalvaged(g, Head() + Braces(), r)
    ensures r == None
  {
    var begun, a := Head() + Braces(), |Head()|;
    HeadInside();
    assert Head() <= d && d[..a + ATTEMPTS] == begun;
    ModesOfPrefix(Head(), d, a);
    forall k | a <= k < a + ATTEMPTS ensures d[k] == '}' { assert begun[k] == '}'; }
    BuriedByBraces(g, d, a, Buried(), r);
  }
}
