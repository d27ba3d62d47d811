/** Character-entity encodings and the chains of global `replace` calls that
    decode them. An entity table lists (entity, character) pairs in the order
    the decoder replaces them; `Encode(t, k, s)` writes every character that
    passes k.. would decode as its entity, so it is the text a decoder sees
    after its first k passes. */
module Entities {
  import opened Text

  type Table = seq<(string, char)>

  /** What makes a pass-by-pass decoder exact: every entity starts with `&`
      and holds no other `&`; entities differ in their second character;
      each character has one entity; and only the last pass yields `&`. */
  predicate WellFormed(t: Table, ignoreCase: bool)
  {
    && |t| > 0
    && t[|t| - 1].1 == '&'
    && EntitiesShaped(t)
    && SecondsDiffer(t, ignoreCase)
    && CharsDiffer(t)
  }

  /** Every entity starts with `&` and holds no other `&`. */
  predicate EntitiesShaped(t: Table)
  {
    forall j :: 0 <= j < |t| ==> |t[j].0| >= 2 && t[j].0[0] == '&' && '&' !in t[j].0[1..]
  }

  /** Entities differ in their second character. */
  predicate SecondsDiffer(t: Table, ignoreCase: bool)
    requires EntitiesShaped(t)
  {
    forall j, k :: 0 <= j < k < |t| ==> !SameChar(t[j].0[1], t[k].0[1], ignoreCase)
  }

  /** Each character has one entity. */
  predicate CharsDiffer(t: Table)
  {
    forall j, k :: 0 <= j < k < |t| ==> t[j].1 != t[k].1
  }

  /** The first entry at or after k that encodes `c`, or |t| if none. */
  function EntryFor(t: Table, k: nat, c: char): (r: nat)
    requires k <= |t|
    ensures k <= r <= |t|
    ensures r < |t| ==> t[r].1 == c
    ensures forall j :: k <= j < r ==> t[j].1 != c
    decreases |t| - k
  {
    if k == |t| then k
    else if t[k].1 == c then k
    else EntryFor(t, k + 1, c)
  }

  /** How `c` is written once passes 0..k-1 have run. */
  function EncodeChar(t: Table, k: nat, c: char): string
    requires k <= |t|
  {
    var r := EntryFor(t, k, c);
    if r < |t| then t[r].0 else [c]
  }

  /** How `s` is written once passes 0..k-1 have run. */
  function Encode(t: Table, k: nat, s: string): string
    requires k <= |t|
  {
    if |s| == 0 then "" else EncodeChar(t, k, s[0]) + Encode(t, k, s[1..])
  }

  /** After every pass nothing is left encoded. */
  lemma {:induction false} EncodeAfterAllPasses(t: Table, s: string)
    ensures Encode(t, |t|, s) == s
    decreases |s|
  {
    if |s| > 0 {
      EncodeAfterAllPasses(t, s[1..]);
      assert [s[0]] + s[1..] == s;
    }
  }

  /** Pass k of the decoder turns the text encoded for passes k.. into the
      text encoded for passes k+1..: it decodes exactly its own entity and
      leaves every other entity and every plain character alone. */
  lemma {:induction false} PassStep(t: Table, ignoreCase: bool, k: nat, s: string)
    requires WellFormed(t, ignoreCase)
    requires k < |t|
    ensures ReplaceAll(Encode(t, k, s), t[k].0, [t[k].1], ignoreCase) == Encode(t, k + 1, s)
    decreases |s|
  {
    var pat, rep := t[k].0, [t[k].1];
    if |s| > 0 {
      var c := s[0];
      var rest := Encode(t, k, s[1..]);
      PassStep(t, ignoreCase, k, s[1..]);
      var r := EntryFor(t, k, c);
      if r == k {
        assert EntryFor(t, k + 1, c) == |t|;
        ReplaceAllAtMatch(rest, pat, rep, ignoreCase);
      } else if r < |t| {
        assert EntryFor(t, k + 1, c) == r;
        ReplaceAllSkipsEntity(t[r].0, rest, pat, rep, ignoreCase);
      } else {
        assert EntryFor(t, k + 1, c) == |t|;
        assert c != '&';
        ReplaceAllSkipsPlain([c], rest, pat, rep, ignoreCase);
      }
    }
  }

  /** Passes k.. of the decoder: each entity of the table, in order,
      replaced globally by its character. */
  function Decode(t: Table, ignoreCase: bool, k: nat, s: string): string
    requires k <= |t|
    requires forall j :: 0 <= j < |t| ==> |t[j].0| > 0
    decreases |t| - k
  {
    if k == |t| then s else Decode(t, ignoreCase, k + 1, ReplaceAll(s, t[k].0, [t[k].1], ignoreCase))
  }

  /** The decoder of a well-formed table undoes the encoding exactly. */
  lemma {:induction false} DecodeEncode(t: Table, ignoreCase: bool, k: nat, s: string)
    requires WellFormed(t, ignoreCase)
    requires k <= |t|
    ensures Decode(t, ignoreCase, k, Encode(t, k, s)) == s
    decreases |t| - k
  {
    if k == |t| {
      EncodeAfterAllPasses(t, s);
    } else {
      var e := Encode(t, k, s);
      assert Decode(t, ignoreCase, k, e) == Decode(t, ignoreCase, k + 1, ReplaceAll(e, t[k].0, [t[k].1], ignoreCase));
      PassStep(t, ignoreCase, k, s);
      DecodeEncode(t, ignoreCase, k + 1, s);
    }
  }
}
