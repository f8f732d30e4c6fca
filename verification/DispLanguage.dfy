/** The display filter's primitives: comparisons of a decoded field with a literal of its kind. */
module DispLanguage {
  import opened Words
  import opened Literals
  import G = Grammar

  datatype Layer = Eth | Ipv4L | Ipv6L | Tcp | Udp

  /** Which end of the conversation: source, destination, or either. */
  datatype Side = Source | Destination | Either

  /** df_field_t: five layers with three fields each. */
  datatype Field = Field(layer: Layer, side: Side)

  /** A literal; in df_node the cases share one union. */
  datatype Value = MacValue(mac: Bytes6) | Ipv4Value(ipv4: Bytes4) | Ipv6Value(ipv6: Bytes16) | PortValue(port: u16)

  /** Numbers are 32 bits wide until parse_primitive has checked them. */
  datatype DispWord =
    | FieldName(field: Field)
    | EqOp
    | NeOp
    | Number(n: u32)
    | Ipv4(ipv4: Bytes4)
    | Ipv6(ipv6: Bytes16)
    | Mac(mac: Bytes6)

  type Token = G.Tok<DispWord>

  datatype Comparison = Comparison(field: Field, equal: bool, value: Value)

  type Filter = G.Expr<Comparison>

  /** The union member in use is the one the field's layer calls for. */
  predicate Typed(c: Comparison) {
    match c.field.layer
    case Eth => c.value.MacValue?
    case Ipv4L => c.value.Ipv4Value?
    case Ipv6L => c.value.Ipv6Value?
    case Tcp => c.value.PortValue?
    case Udp => c.value.PortValue?
  }

  function ValueWord(v: Value): DispWord {
    match v
    case MacValue(m) => Mac(m)
    case Ipv4Value(a) => Ipv4(a)
    case Ipv6Value(a) => Ipv6(a)
    case PortValue(p) => Number(p)
  }

  function ComparisonWords(c: Comparison): (ws: seq<DispWord>)
    ensures |ws| == 3
  {
    [FieldName(c.field), if c.equal then EqOp else NeOp, ValueWord(c.value)]
  }

  /** The value part of parse_primitive: the literal must be of the layer's kind, a port at most 65535. */
  function ValueOf(layer: Layer, w: DispWord): Option<Value> {
    match layer
    case Eth => if w.Mac? then Some(MacValue(w.mac)) else None
    case Ipv4L => if w.Ipv4? then Some(Ipv4Value(w.ipv4)) else None
    case Ipv6L => if w.Ipv6? then Some(Ipv6Value(w.ipv6)) else None
    case _ => if w.Number? && w.n <= 65535 then Some(PortValue(w.n)) else None
  }

  /** parse_primitive */
  function ReadComparison(ts: seq<Token>, i: nat): Option<(Comparison, nat)> {
    if i + 3 <= |ts| && ts[i].Word? && ts[i + 1].Word? && ts[i + 2].Word?
       && ts[i].w.FieldName? && (ts[i + 1].w.EqOp? || ts[i + 1].w.NeOp?)
    then
      var f := ts[i].w.field;
      match ValueOf(f.layer, ts[i + 2].w)
      case None => None
      case Some(v) => Some((Comparison(f, ts[i + 1].w.EqOp?, v), i + 3))
    else None
  }

  const DISPLAY: G.Language<DispWord, Comparison> :=
    G.Language(ReadComparison, ComparisonWords, Typed)

  lemma SpellAt3(ts: seq<Token>, i: nat, ws: seq<DispWord>)
    requires |ws| == 3
    ensures G.At(ts, i, G.Spell(ws)) <==>
            && i + 3 <= |ts|
            && ts[i] == G.Word(ws[0]) && ts[i + 1] == G.Word(ws[1]) && ts[i + 2] == G.Word(ws[2])
  {
    if i + 3 <= |ts| {
      var s := ts[i..i + 3];
      assert s == [ts[i], ts[i + 1], ts[i + 2]];
      assert G.Spell(ws) == [G.Word(ws[0]), G.Word(ws[1]), G.Word(ws[2])];
      if s == G.Spell(ws) {
        assert s[0] == G.Spell(ws)[0] && s[1] == G.Spell(ws)[1] && s[2] == G.Spell(ws)[2];
      }
    }
  }

  lemma DisplayIsLawful()
    ensures G.Lawful(DISPLAY)
  {
    forall ts: seq<Token>, i: nat | DISPLAY.read(ts, i).Some?
      ensures var (p, j) := DISPLAY.read(ts, i).value;
              && DISPLAY.valid(p) && j == i + |DISPLAY.words(p)|
              && G.At(ts, i, G.Spell(DISPLAY.words(p)))
    {
      var (p, j) := ReadComparison(ts, i).value;
      SpellAt3(ts, i, ComparisonWords(p));
    }
    forall ts: seq<Token>, i: nat, p | DISPLAY.valid(p) && G.At(ts, i, G.Spell(DISPLAY.words(p)))
      ensures DISPLAY.read(ts, i) == Some((p, i + |DISPLAY.words(p)|))
    {
      SpellAt3(ts, i, ComparisonWords(p));
    }
  }

  /** Every comparison in an expression reads the union member that was written. */
  predicate WellTyped(e: Filter) {
    G.AllValid(e, Typed)
  }

  function Nodes(e: Filter): nat {
    match e
    case And(l, r) => 1 + Nodes(l) + Nodes(r)
    case Or(l, r) => 1 + Nodes(l) + Nodes(r)
    case Not(x) => 1 + Nodes(x)
    case Prim(_) => 1
  }
}
