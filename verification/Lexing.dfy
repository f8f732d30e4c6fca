/**
  What both lexers share: the loop over tokens, the 256-token buffer, writing tokens out. A lexer is
  how one token is read, how a token is written, and which spellings are a token's.
 */
module Lexing {
  import opened Words
  import opened Scanning
  import G = Grammar

  datatype Lexer<!L> = Lexer(read: (string, nat) -> Option<(G.Tok<L>, nat)>,
                             text: G.Tok<L> -> string,
                             spells: (string, G.Tok<L>) -> bool,
                             sticks: (string, char) -> bool)

  /** The word from a to b ends there: the next character does not stick to it. */
  predicate Apart<L>(x: Lexer<L>, s: string, a: nat, b: nat)
    requires a <= b <= |s|
  {
    b < |s| ==> !x.sticks(s[a..b], s[b])
  }

  /** What is read is a token that the text spells there, and no less of it ... */
  ghost predicate ReadsSpellings<L(!new)>(x: Lexer<L>) {
    forall s: string, i: nat :: x.read(s, i).Some? ==>
      var (t, j) := x.read(s, i).value; i < j <= |s| && !t.End? && x.spells(s[i..j], t) && Apart(x, s, i, j)
  }

  /** ... every spelling that stands apart is read, whether or not a blank follows ... */
  ghost predicate SpellingsAreRead<L(!new)>(x: Lexer<L>) {
    forall s: string, i: nat, j: nat, t: G.Tok<L> | i < j <= |s| && x.spells(s[i..j], t) && Apart(x, s, i, j) ::
      !IsBlank(s[i]) && x.read(s, i) == Some((t, j))
  }

  /** ... and a token's text is a spelling of it that no blank sticks to. */
  ghost predicate WritesSpellings<L(!new)>(x: Lexer<L>) {
    forall t: G.Tok<L> | !t.End? :: |x.text(t)| > 0 && x.spells(x.text(t), t) && !x.sticks(x.text(t), ' ')
  }

  ghost predicate Lawful<L(!new)>(x: Lexer<L>) {
    ReadsSpellings(x) && SpellingsAreRead(x) && WritesSpellings(x)
  }

  /** All the tokens of s from i on, without any limit on their number. */
  function Tokens<L>(x: Lexer<L>, s: string, i: nat): Option<seq<G.Tok<L>>>
    requires i <= |s|
    decreases |s| - i
  {
    if i == |s| then Some([])
    else if IsBlank(s[i]) then Tokens(x, s, i + 1)
    else match x.read(s, i)
      case None => None
      case Some((t, j)) => if i < j <= |s| then Prefixed([t], Tokens(x, s, j)) else None
  }

  /** Tokens found so far in front of those still to come. */
  function Prefixed<T>(toks: seq<T>, rest: Option<seq<T>>): Option<seq<T>> {
    match rest
    case None => None
    case Some(ts) => Some(toks + ts)
  }

  lemma PrefixedStep<T>(toks: seq<T>, t: T, rest: Option<seq<T>>)
    ensures Prefixed(toks, Prefixed([t], rest)) == Prefixed(toks + [t], rest)
  {
    if rest.Some? {
      assert toks + ([t] + rest.value) == toks + [t] + rest.value;
    }
  }

  // ----- the token buffer -----

  /** What a lexer returns: tokens closed by End, an error, or a write behind the token buffer. */
  datatype LexResult<T> = Lexed(toks: seq<T>) | BadInput | Overrun

  const MAX_TOKENS := 256

  /** The outcome, given all the tokens of the text: 255 fit with the End, 256 overrun the buffer by it. */
  function Outcome<L>(all: Option<seq<G.Tok<L>>>): LexResult<G.Tok<L>> {
    match all
    case None => BadInput
    case Some(ts) =>
      if |ts| < MAX_TOKENS then Lexed(ts + [G.End])
      else if |ts| == MAX_TOKENS then Overrun
      else BadInput
  }

  /** The buffer is overrun exactly by 256 tokens; up to 255 the result is closed by its only End. */
  lemma StaysInsideUnless256<L(!new)>(x: Lexer<L>, s: string)
    requires Lawful(x)
    ensures Outcome(Tokens(x, s, 0)) == Overrun <==> Tokens(x, s, 0).Some? && |Tokens(x, s, 0).value| == MAX_TOKENS
    ensures Outcome(Tokens(x, s, 0)).Lexed? <==> Tokens(x, s, 0).Some? && |Tokens(x, s, 0).value| < MAX_TOKENS
    ensures Outcome(Tokens(x, s, 0)).Lexed? ==> G.Closed(Outcome(Tokens(x, s, 0)).toks)
  {
    if Tokens(x, s, 0).Some? { TokensHaveNoEnd(x, s, 0); }
  }

  /** Token lists that can be written out: End has no text. */
  predicate Writable<L>(ts: seq<G.Tok<L>>) {
    forall k | 0 <= k < |ts| :: !ts[k].End?
  }

  lemma WritableTail<L>(ts: seq<G.Tok<L>>)
    requires Writable(ts) && |ts| > 0
    ensures Writable(ts[1..]) && !ts[0].End?
  {
  }

  lemma {:induction false} TokensHaveNoEnd<L(!new)>(x: Lexer<L>, s: string, i: nat)
    requires Lawful(x) && i <= |s| && Tokens(x, s, i).Some?
    ensures Writable(Tokens(x, s, i).value)
    decreases |s| - i
  {
    if i < |s| {
      if IsBlank(s[i]) {
        TokensHaveNoEnd(x, s, i + 1);
      } else {
        TokensHaveNoEnd(x, s, x.read(s, i).value.1);
      }
    }
  }

  // ----- exactly which texts lex -----

  predicate Blanks(s: string, i: nat, j: nat)
    requires i <= j <= |s|
  {
    forall k | i <= k < j :: s[k] in " \t\n\r"
  }

  /** From i on the text is made of the spans, which spell the tokens and stand apart, and of blanks. */
  predicate Covered<L>(x: Lexer<L>, s: string, i: nat, spans: seq<(nat, nat)>, ts: seq<G.Tok<L>>)
    decreases |spans|
  {
    && i <= |s| && |spans| == |ts|
    && if |spans| == 0 then Blanks(s, i, |s|)
       else
         var (a, b) := spans[0];
         && i <= a < b <= |s| && Blanks(s, i, a) && x.spells(s[a..b], ts[0]) && Apart(x, s, a, b)
         && Covered(x, s, b, spans[1..], ts[1..])
  }

  lemma CoveredBehindBlank<L>(x: Lexer<L>, s: string, i: nat, spans: seq<(nat, nat)>, ts: seq<G.Tok<L>>)
    requires i < |s| && s[i] in " \t\n\r" && Covered(x, s, i + 1, spans, ts)
    ensures Covered(x, s, i, spans, ts)
  {
  }

  lemma CoveredByToken<L>(
      x: Lexer<L>, s: string, i: nat, j: nat, t: G.Tok<L>, spans: seq<(nat, nat)>, ts: seq<G.Tok<L>>)
    requires i < j <= |s| && x.spells(s[i..j], t) && Apart(x, s, i, j) && Covered(x, s, j, spans, ts)
    ensures Covered(x, s, i, [(i, j)] + spans, [t] + ts)
  {
    assert ([(i, j)] + spans)[1..] == spans && ([t] + ts)[1..] == ts;
  }

  /** Nothing is invented and nothing skipped: a text that lexes is its tokens' spellings and blanks. */
  lemma {:induction false} TokensAreSpelled<L(!new)>(x: Lexer<L>, s: string, i: nat) returns (spans: seq<(nat, nat)>)
    requires Lawful(x) && i <= |s| && Tokens(x, s, i).Some?
    ensures Covered(x, s, i, spans, Tokens(x, s, i).value)
    decreases |s| - i
  {
    hide SpellingsAreRead, WritesSpellings, Apart;
    if i == |s| {
      spans := [];
    } else if IsBlank(s[i]) {
      spans := TokensAreSpelled(x, s, i + 1);
      CoveredBehindBlank(x, s, i, spans, Tokens(x, s, i).value);
    } else {
      var (t, j) := x.read(s, i).value;
      var rest := TokensAreSpelled(x, s, j);
      spans := [(i, j)] + rest;
      CoveredByToken(x, s, i, j, t, rest, Tokens(x, s, j).value);
    }
  }

  lemma {:induction false} SkipBlanks<L>(x: Lexer<L>, s: string, i: nat, j: nat)
    requires i <= j <= |s| && Blanks(s, i, j)
    ensures Tokens(x, s, i) == Tokens(x, s, j)
    decreases j - i
  {
    if i < j {
      assert IsBlank(s[i]);
      SkipBlanks(x, s, i + 1, j);
    }
  }

  /** One token, and the rest behind it. */
  lemma ReadToken<L(!new)>(x: Lexer<L>, s: string, a: nat, b: nat, t: G.Tok<L>)
    requires Lawful(x) && a < b <= |s| && x.spells(s[a..b], t) && Apart(x, s, a, b)
    ensures Tokens(x, s, a) == Prefixed([t], Tokens(x, s, b))
  {
    hide ReadsSpellings, WritesSpellings, Apart;
    assert !IsBlank(s[a]) && x.read(s, a) == Some((t, b));
  }

  /** Conversely, a text made of spellings that stand apart lexes to their tokens. */
  lemma {:induction false} SpelledLexes<L(!new)>(
      x: Lexer<L>, s: string, i: nat, spans: seq<(nat, nat)>, ts: seq<G.Tok<L>>)
    requires Lawful(x) && Covered(x, s, i, spans, ts)
    ensures Tokens(x, s, i) == Some(ts)
    decreases |spans|
  {
    hide Lawful, Tokens, Apart, Blanks;
    if |spans| == 0 {
      SkipBlanks(x, s, i, |s|);
      TokensAtEnd(x, s);
    } else {
      var (a, b) := spans[0];
      SkipBlanks(x, s, i, a);
      ReadToken(x, s, a, b, ts[0]);
      SpelledLexes(x, s, b, spans[1..], ts[1..]);
      assert [ts[0]] + ts[1..] == ts;
    }
  }

  lemma TokensAtEnd<L>(x: Lexer<L>, s: string)
    ensures Tokens(x, s, |s|) == Some([])
  {
  }

  /** So the lexer reads exactly the texts made of spellings that stand apart. */
  lemma LexesExactly<L(!new)>(x: Lexer<L>, s: string, ts: seq<G.Tok<L>>)
    requires Lawful(x)
    ensures Tokens(x, s, 0) == Some(ts) <==> exists spans :: Covered(x, s, 0, spans, ts)
  {
    hide Covered, Lawful, Tokens;
    if Tokens(x, s, 0) == Some(ts) {
      var spans := TokensAreSpelled(x, s, 0);
    }
    if spans :| Covered(x, s, 0, spans, ts) {
      SpelledLexes(x, s, 0, spans, ts);
    }
  }

  // ----- texts put together -----

  lemma {:induction false} LexesBehind<L(!new)>(x: Lexer<L>, u: string, v: string, k: nat)
    requires Lawful(x) && k <= |v| && Tokens(x, v, k).Some?
    ensures Tokens(x, u + v, |u| + k) == Tokens(x, v, k)
    decreases |v| - k
  {
    hide SpellingsAreRead, WritesSpellings;
    var s := u + v;
    if k == |v| {
    } else if IsBlank(v[k]) {
      assert s[|u| + k] == v[k];
      LexesBehind(x, u, v, k + 1);
    } else {
      var (t, j) := x.read(v, k).value;
      assert s[|u| + k..|u| + j] == v[k..j] && (j < |v| ==> s[|u| + j] == v[j]);
      LexesBehind(x, u, v, j);
      ReadToken(x, s, |u| + k, |u| + j, t);
    }
  }

  /** A word in front of a text that does not stick to it. */
  lemma WordThen<L(!new)>(x: Lexer<L>, w: string, t: G.Tok<L>, v: string)
    requires Lawful(x) && |w| > 0 && x.spells(w, t) && (|v| > 0 ==> !x.sticks(w, v[0])) && Tokens(x, v, 0).Some?
    ensures Tokens(x, w + v, 0) == Some([t] + Tokens(x, v, 0).value)
  {
    var s := w + v;
    assert s[0..|w|] == w && (|v| > 0 ==> s[|w|] == v[0]);
    hide Lawful;
    LexesBehind(x, w, v, 0);
    ReadToken(x, s, 0, |w|, t);
  }

  lemma {:induction false} LexesInFront<L(!new)>(x: Lexer<L>, u: string, v: string, i: nat)
    requires Lawful(x) && i <= |u| && Tokens(x, u, i).Some? && (|v| > 0 ==> forall w :: !x.sticks(w, v[0]))
    ensures Tokens(x, u + v, i) == Prefixed(Tokens(x, u, i).value, Tokens(x, u + v, |u|))
    decreases |u| - i
  {
    hide SpellingsAreRead, WritesSpellings;
    var s := u + v;
    if i == |u| {
      NothingPrefixed(Tokens(x, s, i));
    } else if IsBlank(u[i]) {
      LexesInFront(x, u, v, i + 1);
    } else {
      var (t, j) := x.read(u, i).value;
      assert s[i..j] == u[i..j] && (j < |u| ==> s[j] == u[j]) && (j == |u| && |v| > 0 ==> s[j] == v[0]);
      LexesInFront(x, u, v, j);
      ReadToken(x, s, i, j, t);
      PrefixedMore(t, Tokens(x, u, j).value, Tokens(x, s, |u|));
    }
  }

  lemma NothingPrefixed<T>(rest: Option<seq<T>>)
    ensures Prefixed([], rest) == rest
  {
    if rest.Some? { assert [] + rest.value == rest.value; }
  }

  lemma PrefixedMore<T>(t: T, ts: seq<T>, rest: Option<seq<T>>)
    ensures Prefixed([t], Prefixed(ts, rest)) == Prefixed([t] + ts, rest)
  {
    if rest.Some? { assert [t] + (ts + rest.value) == [t] + ts + rest.value; }
  }

  /** Any text in front of one whose first character sticks to nothing. */
  lemma TextThen<L(!new)>(x: Lexer<L>, u: string, v: string)
    requires Lawful(x) && Tokens(x, u, 0).Some? && Tokens(x, v, 0).Some? && (|v| > 0 ==> forall w :: !x.sticks(w, v[0]))
    ensures Tokens(x, u + v, 0) == Some(Tokens(x, u, 0).value + Tokens(x, v, 0).value)
  {
    hide Lawful, Tokens;
    LexesInFront(x, u, v, 0);
    LexesBehind(x, u, v, 0);
  }

  /** A blank in front changes nothing. */
  lemma BlankThen<L(!new)>(x: Lexer<L>, v: string)
    requires Lawful(x) && Tokens(x, v, 0).Some?
    ensures Tokens(x, " " + v, 0) == Tokens(x, v, 0)
  {
    var s := " " + v;
    SkipBlanks(x, s, 0, 1);
    LexesBehind(x, " ", v, 0);
  }

  /** A spelling by itself. */
  lemma LoneSpelling<L(!new)>(x: Lexer<L>, w: string, t: G.Tok<L>)
    requires Lawful(x) && |w| > 0 && x.spells(w, t)
    ensures Tokens(x, w, 0) == Some([t])
  {
    assert w[0..|w|] == w;
    hide Lawful;
    ReadToken(x, w, 0, |w|, t);
    TokensAtEnd(x, w);
    assert [t] + [] == [t];
  }

  // ----- writing tokens -----

  /** Tokens as text, each followed by a blank. */
  function Render<L>(x: Lexer<L>, ts: seq<G.Tok<L>>): string {
    if |ts| == 0 then "" else x.text(ts[0]) + " " + Render(x, ts[1..])
  }

  /** Text that starts with a token and a blank. */
  lemma RenderHead<L>(x: Lexer<L>, s: string, i: nat, ts: seq<G.Tok<L>>)
    requires |ts| > 0 && EndsIn(s, i, Render(x, ts))
    ensures SpelledAt(s, i, x.text(ts[0])) && EndsIn(s, i + |x.text(ts[0])| + 1, Render(x, ts[1..]))
    ensures i + |x.text(ts[0])| < |s| && s[i + |x.text(ts[0])|] == ' '
  {
    var w, rest, u := x.text(ts[0]), Render(x, ts[1..]), s[i..];
    assert u == w + " " + rest;
    assert s[i..i + |w|] == u[..|w|] == w;
    assert s[i + |w|] == u[|w|];
    assert s[i + |w| + 1..] == u[|w| + 1..];
  }

  /** A token that is read, and the blank behind it. */
  lemma TokensStep<L>(x: Lexer<L>, s: string, i: nat, t: G.Tok<L>, n: nat, rest: seq<G.Tok<L>>)
    requires i < n < |s| && !IsBlank(s[i]) && x.read(s, i) == Some((t, n)) && s[n] == ' '
    requires Tokens(x, s, n + 1) == Some(rest)
    ensures Tokens(x, s, i) == Some([t] + rest)
  {
    assert Tokens(x, s, n) == Some(rest);
  }

  lemma NothingLexes<L>(x: Lexer<L>, s: string, i: nat, ts: seq<G.Tok<L>>)
    requires |ts| == 0 && EndsIn(s, i, Render(x, ts))
    ensures Tokens(x, s, i) == Some(ts)
  {
    assert |s[i..]| == 0;
  }

  lemma ReadBack<L(!new)>(x: Lexer<L>, s: string, i: nat, t: G.Tok<L>)
    requires Lawful(x) && !t.End? && SpelledAt(s, i, x.text(t))
    ensures i < i + |x.text(t)| <= |s| && !IsBlank(s[i]) && x.read(s, i) == Some((t, i + |x.text(t)|))
  {
    hide IsBlank, ReadsSpellings;
    var j := i + |x.text(t)|;
    assert s[i..j] == x.text(t);
    assert Apart(x, s, i, j);
  }

  /** Lexing rendered tokens gives the tokens back. */
  lemma {:induction false} RenderLexes<L(!new)>(x: Lexer<L>, s: string, i: nat, ts: seq<G.Tok<L>>)
    requires Lawful(x) && Writable(ts) && EndsIn(s, i, Render(x, ts))
    ensures Tokens(x, s, i) == Some(ts)
    decreases |ts|
  {
    hide *;
    if |ts| == 0 {
      NothingLexes(x, s, i, ts);
    } else {
      WritableTail(ts);
      RenderHead(x, s, i, ts);
      ReadBack(x, s, i, ts[0]);
      var n := i + |x.text(ts[0])|;
      RenderLexes(x, s, n + 1, ts[1..]);
      TokensStep(x, s, i, ts[0], n, ts[1..]);
      assert [ts[0]] + ts[1..] == ts;
    }
  }
}
