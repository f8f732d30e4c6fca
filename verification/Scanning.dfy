/** Maximal runs of characters, as both lexers scan words. */
module Scanning {
  import opened Words

  predicate IsBlank(c: char) {
    c == ' ' || c == '\t' || c == '\n' || c == '\r'
  }

  predicate IsLetter(c: char) {
    'a' <= c <= 'z' || 'A' <= c <= 'Z'
  }

  /** The end of the run of p-characters that starts at i. */
  function SpanEnd(s: string, i: nat, p: char -> bool): (j: nat)
    requires i <= |s|
    ensures i <= j <= |s|
    ensures forall k | i <= k < j :: p(s[k])
    ensures j < |s| ==> !p(s[j])
    decreases |s| - i
  {
    if i < |s| && p(s[i]) then SpanEnd(s, i + 1, p) else i
  }

  /** A run is determined by its characters and what stops it. */
  lemma {:induction false} SpanIs(s: string, i: nat, j: nat, p: char -> bool)
    requires i <= j <= |s| && (forall k | i <= k < j :: p(s[k])) && (j < |s| ==> !p(s[j]))
    ensures SpanEnd(s, i, p) == j
    decreases j - i
  {
    if i < j { SpanIs(s, i + 1, j, p); }
  }

  /** w stands in s at i, followed by a blank or the end. */
  predicate SpelledAt(s: string, i: nat, w: string) {
    i + |w| <= |s| && s[i..i + |w|] == w && (i + |w| < |s| ==> s[i + |w|] == ' ')
  }

  /** s ends in x, from i on. */
  predicate EndsIn(s: string, i: nat, x: string) {
    i <= |s| && s[i..] == x
  }

  /** A keyword table is searched front to back. */
  function Lookup<T>(table: seq<(string, T)>, w: string, k: nat): Option<T>
    requires k <= |table|
    decreases |table| - k
  {
    if k == |table| then None
    else if table[k].0 == w then Some(table[k].1)
    else Lookup(table, w, k + 1)
  }

  method LookupWord<T>(table: seq<(string, T)>, w: string) returns (r: Option<T>)
    ensures r == Lookup(table, w, 0)
  {
    var k := 0;
    while k < |table|
      invariant 0 <= k <= |table| && Lookup(table, w, 0) == Lookup(table, w, k)
    {
      if |table[k].0| == |w| && table[k].0 == w {
        return Some(table[k].1);
      }
      k := k + 1;
    }
    return None;
  }

  /** In a table without repeated words every entry is found. */
  lemma {:induction false} LookupFinds<T>(table: seq<(string, T)>, k: nat, from: nat)
    requires from <= k < |table| && forall i, j | 0 <= i < j < |table| :: table[i].0 != table[j].0
    ensures Lookup(table, table[k].0, from) == Some(table[k].1)
    decreases k - from
  {
    if from < k { LookupFinds(table, k, from + 1); }
  }

  /** What is found stands in the table with its word. */
  lemma {:induction false} FoundIsListed<T>(table: seq<(string, T)>, w: string, k: nat)
    requires k <= |table| && Lookup(table, w, k).Some?
    ensures (w, Lookup(table, w, k).value) in table
    decreases |table| - k
  {
    if table[k].0 != w { FoundIsListed(table, w, k + 1); }
  }
}
