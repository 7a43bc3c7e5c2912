/**
 Removal of the "terminal shape" decoration from a node token:
 `token.replace(/\(\(.+\)\)/, "")`. Without the `g` flag only the first match is
 replaced. The engine takes the leftmost `((` that can start a match and, because
 `.+` is greedy, the LAST `))` that the run of non-line-terminator characters after
 it reaches; at least one character must sit between the two pairs.
 */
module Decoration {
  import opened Wrappers
  import opened Strings

  /** `s[p..e + 2]` matches `\(\(.+\)\)`. */
  predicate IsDecoration(s: string, p: int, e: int) {
    && 0 <= p && p + 3 <= e && e + 2 <= |s|
    && s[p] == '(' && s[p + 1] == '('
    && AllIn(s, p + 2, e, AnyButEol)
    && s[e] == ')' && s[e + 1] == ')'
  }

  /** `s` contains the two characters `((` somewhere. */
  predicate HasDoubleOpen(s: string) {
    exists i :: 0 <= i < |s| - 1 && s[i] == '(' && s[i + 1] == '('
  }

  /** Backtracking `.+` from its greedy end: the largest closing position at most `e`. */
  function CloseFrom(s: string, p: nat, e: int): (r: Option<nat>)
    requires p + 2 <= |s| && e + 2 <= |s|
    requires s[p] == '(' && s[p + 1] == '('
    requires AllIn(s, p + 2, if e + 2 < p + 2 then p + 2 else e + 2, AnyButEol)
    ensures r.Some? ==> r.value <= e && IsDecoration(s, p, r.value)
    ensures r.Some? ==> forall e' :: IsDecoration(s, p, e') && e' <= e ==> e' <= r.value
    ensures r.None? ==> forall e' :: IsDecoration(s, p, e') ==> e' > e
    decreases e
  {
    if e < p + 3 then None
    else if s[e] == ')' && s[e + 1] == ')' then Some(e)
    else CloseFrom(s, p, e - 1)
  }

  /** The engine's scan over start positions `p`, `p + 1`, ... */
  function DecorationFrom(s: string, p: nat): (r: Option<(nat, nat)>)
    requires p <= |s|
    ensures r.Some? ==> p <= r.value.0 && IsDecoration(s, r.value.0, r.value.1)
    ensures r.Some? ==> forall p', e' :: IsDecoration(s, p', e') && p <= p' ==>
      r.value.0 < p' || (r.value.0 == p' && e' <= r.value.1)
    ensures r.None? ==> forall p', e' :: IsDecoration(s, p', e') ==> p' < p
    decreases |s| - p
  {
    if p + 2 > |s| then None
    else if s[p] == '(' && s[p + 1] == '(' then
      var dotEnd := RunEnd(s, p + 2, AnyButEol);
      match CloseFrom(s, p, dotEnd - 2)
      case Some(e) => Some((p, e))
      case None => DecorationFrom(s, p + 1)
    else DecorationFrom(s, p + 1)
  }

  /** The decoration `replace` removes: leftmost start, and the longest one at that start. */
  function FindDecoration(s: string): (r: Option<(nat, nat)>)
    ensures r.None? <==> forall p, e :: !IsDecoration(s, p, e)
    ensures r.Some? ==> IsDecoration(s, r.value.0, r.value.1)
    ensures r.Some? ==> forall p, e :: IsDecoration(s, p, e) ==>
      r.value.0 < p || (r.value.0 == p && e <= r.value.1)
  {
    DecorationFrom(s, 0)
  }

  /**
   The node identifier left after removing the decoration: the token itself when
   it holds no decoration, otherwise the token with the leftmost-longest
   `((...))` cut out.
   */
  function Strip(s: string): (r: string)
    ensures (forall p, e :: !IsDecoration(s, p, e)) ==> r == s
    ensures forall p, e ::
      (IsDecoration(s, p, e) && forall p', e' :: IsDecoration(s, p', e') ==> p < p' || (p == p' && e' <= e))
      ==> r == s[..p] + s[e + 2..]
    ensures |r| <= |s|
  {
    match FindDecoration(s)
    case None => s
    case Some((p, e)) => s[..p] + s[e + 2..]
  }

  /** A token that never has `(` followed by `(` is left unchanged. */
  lemma StripWithoutDoubleOpen(s: string)
    requires !HasDoubleOpen(s)
    ensures Strip(s) == s
  {
  }

  /** Stripping removes at least the five characters of a shortest `((x))` whenever a decoration is present. */
  lemma StripShortens(s: string, p: int, e: int)
    requires IsDecoration(s, p, e)
    ensures |Strip(s)| + 5 <= |s|
  {
    var found := FindDecoration(s);
    assert found.Some?;
  }
}
