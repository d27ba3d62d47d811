/** The document-upload panel (`Component_Documents`): an ordered list of
    entries, one per document panel, reconciled against the ordered list of
    document ids the server reports after each action. */
module ComponentDocuments {
  import opened Wrappers

  type DocId = string

  /** Stands for the panel's `div` element. */
  type Div = nat

  /** One entry of `this.documents`: `{id, div, placement}`; `placement` is
      unset until a reconciliation gives it the entry's index on the server. */
  datatype Doc = Doc(id: DocId, div: Div, placement: Option<nat>)

  /** The ids of a list of entries, in order. */
  function Ids(docs: seq<Doc>): seq<DocId>
  {
    seq(|docs|, k requires 0 <= k < |docs| => docs[k].id)
  }

  predicate Distinct<T(==)>(s: seq<T>)
  {
    forall j, k :: 0 <= j < k < |s| ==> s[j] != s[k]
  }

  /** No two entries share an id. */
  predicate DistinctIds(docs: seq<Doc>)
  {
    forall j, k :: 0 <= j < k < |docs| ==> docs[j].id != docs[k].id
  }

  /** A list has at most as many distinct elements as positions, and exactly
      as many when it has no repeats. */
  lemma {:induction false} DistinctCardinality<T>(s: seq<T>)
    ensures |set x | x in s| <= |s|
    ensures Distinct(s) <==> |set x | x in s| == |s|
    decreases |s|
  {
    if |s| == 0 {
      assert (set x | x in s) == {};
    } else {
      var init, last := s[..|s| - 1], s[|s| - 1];
      DistinctCardinality(init);
      var si := set x | x in init;
      assert (set x | x in s) == si + {last};
      if last in init {
        var j :| 0 <= j < |init| && init[j] == last;
        assert s[j] == s[|s| - 1];
        assert (set x | x in s) == si;
      } else {
        forall j, k | 0 <= j < k < |s| && Distinct(init) ensures s[j] != s[k] {
          assert s[j] == init[j];
          if k < |s| - 1 {
            assert s[k] == init[k];
          }
        }
        forall j, k | 0 <= j < k < |init| && Distinct(s) ensures init[j] != init[k] {
          assert s[j] == init[j] && s[k] == init[k];
        }
      }
    }
  }

  /** The index of the first entry with id `docid`, or |docs| if there is none. */
  function Find(docs: seq<Doc>, docid: DocId): (r: nat)
    ensures r <= |docs|
    ensures r < |docs| ==> docs[r].id == docid
    ensures forall q :: 0 <= q < r ==> docs[q].id != docid
  {
    if |docs| == 0 then 0
    else if docs[0].id == docid then 0
    else 1 + Find(docs[1..], docid)
  }

  /** Dropping an entry keeps the ids distinct. */
  lemma RemoveKeepsDistinct(docs: seq<Doc>, i: nat)
    requires i < |docs|
    requires DistinctIds(docs)
    ensures DistinctIds(docs[..i] + docs[i + 1..])
  {
    var t := docs[..i] + docs[i + 1..];
    forall j, k | 0 <= j < k < |t| ensures t[j].id != t[k].id {
      var j', k' := if j < i then j else j + 1, if k < i then k else k + 1;
      assert t[j] == docs[j'] && t[k] == docs[k'];
    }
  }

  /** The entries the removal phase keeps: those whose id the server still
      lists, in their original order. */
  function Retained(docs: seq<Doc>, json: seq<DocId>): (r: seq<Doc>)
    ensures |r| <= |docs|
  {
    if |docs| == 0 then []
    else
      var last := docs[|docs| - 1];
      Retained(docs[..|docs| - 1], json) + (if last.id in json then [last] else [])
  }

  /** The kept entries are exactly the entries whose id the server lists. */
  lemma {:induction false} RetainedMembers(docs: seq<Doc>, json: seq<DocId>)
    ensures forall d :: d in Retained(docs, json) <==> d in docs && d.id in json
    decreases |docs|
  {
    if |docs| > 0 {
      var init := docs[..|docs| - 1];
      RetainedMembers(init, json);
      assert docs == init + [docs[|docs| - 1]];
    }
  }

  /** Removal works piecewise: the order of the kept entries is the order
      they had. */
  lemma {:induction false} RetainedAppend(a: seq<Doc>, b: seq<Doc>, json: seq<DocId>)
    ensures Retained(a + b, json) == Retained(a, json) + Retained(b, json)
    decreases |b|
  {
    if |b| == 0 {
      assert a + b == a;
    } else {
      var init := b[..|b| - 1];
      assert (a + b)[..|a + b| - 1] == a + init;
      assert (a + b)[|a + b| - 1] == b[|b| - 1];
      RetainedAppend(a, init, json);
    }
  }

  /** The removal phase's step: the kept prefix grows by the next entry
      exactly when the server lists its id. */
  lemma RetainedStep(docs: seq<Doc>, n: nat, json: seq<DocId>)
    requires n < |docs|
    ensures Retained(docs[..n + 1], json)
            == Retained(docs[..n], json) + (if docs[n].id in json then [docs[n]] else [])
  {
    assert docs[..n + 1][..n] == docs[..n];
  }

  /** Splicing out the element between two pieces leaves the pieces. */
  lemma SpliceOut<T>(a: seq<T>, x: T, b: seq<T>)
    ensures (a + ([x] + b))[|a|] == x
    ensures (a + ([x] + b))[..|a|] + (a + ([x] + b))[|a| + 1..] == a + b
  {
    assert (a + ([x] + b))[..|a|] == a;
    assert (a + ([x] + b))[|a| + 1..] == b;
  }

  /** A suffix starting inside a list is its first element and the rest. */
  lemma SuffixCons<T>(s: seq<T>, n: nat)
    requires n < |s|
    ensures s[n..] == [s[n]] + s[n + 1..]
  {
  }

  /** Every entry is kept when the server lists every id. */
  lemma {:induction false} RetainedAll(docs: seq<Doc>, json: seq<DocId>)
    requires forall k :: 0 <= k < |docs| ==> docs[k].id in json
    ensures Retained(docs, json) == docs
    decreases |docs|
  {
    if |docs| > 0 {
      RetainedAll(docs[..|docs| - 1], json);
      assert docs[..|docs| - 1] + [docs[|docs| - 1]] == docs;
    }
  }

  /** The removal phase keeps ids distinct. */
  lemma {:induction false} RetainedKeepsDistinct(docs: seq<Doc>, json: seq<DocId>)
    requires DistinctIds(docs)
    ensures DistinctIds(Retained(docs, json))
    decreases |docs|
  {
    if |docs| > 0 {
      var init, last := docs[..|docs| - 1], docs[|docs| - 1];
      assert DistinctIds(init) by {
        forall j, k | 0 <= j < k < |init| ensures init[j].id != init[k].id {
          assert init[j] == docs[j] && init[k] == docs[k];
        }
      }
      RetainedKeepsDistinct(init, json);
      var r := Retained(init, json);
      if last.id in json {
        RetainedMembers(init, json);
        forall j | 0 <= j < |r| ensures r[j].id != last.id {
          assert r[j] in init;
          var m :| 0 <= m < |init| && init[m] == r[j];
          assert docs[m] == r[j];
        }
        var r' := r + [last];
        assert Retained(docs, json) == r';
        forall j, k | 0 <= j < k < |r'| ensures r'[j].id != r'[k].id {
          if k < |r| {
            assert r'[j] == r[j] && r'[k] == r[k];
          }
        }
      } else {
        assert Retained(docs, json) == r;
      }
    }
  }

  /** Every id the removal phase keeps is one the server lists. */
  lemma RetainedIdsListed(docs: seq<Doc>, json: seq<DocId>)
    ensures forall x :: x in Ids(Retained(docs, json)) ==> x in json
  {
    var kept := Retained(docs, json);
    RetainedMembers(docs, json);
    forall x | x in Ids(kept) ensures x in json {
      var k :| 0 <= k < |kept| && Ids(kept)[k] == x;
      assert kept[k] in kept;
    }
  }

  /** The server ids the client does not hold, in server order: one refresh
      request is issued for each. */
  function Missing(json: seq<DocId>, held: seq<DocId>): (r: seq<DocId>)
    ensures |r| <= |json|
  {
    if |json| == 0 then []
    else
      var last := json[|json| - 1];
      Missing(json[..|json| - 1], held) + (if last in held then [] else [last])
  }

  /** The requested ids are exactly the server ids not held. */
  lemma {:induction false} MissingMembers(json: seq<DocId>, held: seq<DocId>)
    ensures forall x :: x in Missing(json, held) <==> x in json && x !in held
    decreases |json|
  {
    if |json| > 0 {
      MissingMembers(json[..|json| - 1], held);
      assert json == json[..|json| - 1] + [json[|json| - 1]];
    }
  }

  /** Entries with distinct ids have a list of ids without repeats. */
  lemma DistinctIdsList(docs: seq<Doc>)
    ensures DistinctIds(docs) <==> Distinct(Ids(docs))
  {
    if DistinctIds(docs) {
      forall j, k | 0 <= j < k < |docs| ensures Ids(docs)[j] != Ids(docs)[k] {
      }
    }
    if Distinct(Ids(docs)) {
      forall j, k | 0 <= j < k < |docs| ensures docs[j].id != docs[k].id {
        assert Ids(docs)[j] != Ids(docs)[k];
      }
    }
  }

  /** A list without repeats whose elements all occur in a list lacking one
      further element is shorter than that list. */
  lemma ShorterWhenSubset<T>(held: seq<T>, json: seq<T>, x: T)
    requires Distinct(held)
    requires forall y :: y in held ==> y in json
    requires x in json && x !in held
    ensures |held| < |json|
  {
    var sh, sj := set y | y in held, set y | y in json;
    assert sh <= sj;
    assert x in sj - sh;
    assert sj == sh + (sj - sh);
    assert |sj| == |sh| + |sj - sh|;
    DistinctCardinality(held);
    DistinctCardinality(json);
  }

  /** When the client holds distinct ids, all of them listed by the server, a
      server id it lacks makes the server's list longer: the length check
      then fails. */
  lemma NewIdForcesMismatch(held: seq<DocId>, json: seq<DocId>)
    requires Distinct(held)
    requires forall x :: x in held ==> x in json
    requires Missing(json, held) != []
    ensures |held| < |json|
  {
    MissingMembers(json, held);
    var x := Missing(json, held)[0];
    assert x in Missing(json, held);
    ShorterWhenSubset(held, json, x);
  }

  /** With distinct held ids all listed by the server, none missing and the
      lengths equal, the server's ids are distinct too. */
  lemma MatchingListsAreDistinct(held: seq<DocId>, json: seq<DocId>)
    requires Distinct(held)
    requires forall x :: x in held ==> x in json
    requires Missing(json, held) == []
    requires |held| == |json|
    ensures Distinct(json)
  {
    MissingMembers(json, held);
    var sh, sj := set y | y in held, set y | y in json;
    assert sh == sj;
    DistinctCardinality(held);
    DistinctCardinality(json);
  }

  function Pow2(n: nat): (r: nat)
    ensures r >= 1
  {
    if n == 0 then 1 else 2 * Pow2(n - 1)
  }

  /** Progress measure of the reorder loop: the sum of 2^j over the positions
      j < n whose entry already has placement j. */
  function Weight(s: seq<Doc>, n: nat): nat
    requires n <= |s|
  {
    if n == 0 then 0
    else Weight(s, n - 1) + (if s[n - 1].placement == Some(n - 1) then Pow2(n - 1) else 0)
  }

  /** Positions m..n-1 add nothing negative and at most 2^n - 2^m. */
  lemma {:induction false} WeightBounds(s: seq<Doc>, m: nat, n: nat)
    requires m <= n <= |s|
    ensures Weight(s, m) <= Weight(s, n) <= Weight(s, m) + Pow2(n) - Pow2(m)
    decreases n - m
  {
    if m < n {
      WeightBounds(s, m, n - 1);
    }
  }

  /** The weight of a range depends only on the entries in it. */
  lemma {:induction false} WeightSameRange(s: seq<Doc>, t: seq<Doc>, m: nat, n: nat)
    requires m <= n <= |s| && n <= |t|
    requires forall j :: m <= j < n ==> s[j].placement == t[j].placement
    ensures Weight(s, n) - Weight(s, m) == Weight(t, n) - Weight(t, m)
    decreases n - m
  {
    if m < n {
      WeightSameRange(s, t, m, n - 1);
    }
  }

  /** The list after the reorder loop's two splices moved entry i to p. */
  function Move(s: seq<Doc>, i: nat, p: nat): (t: seq<Doc>)
    requires i < p < |s|
    ensures |t| == |s|
  {
    s[..i] + s[i + 1..p + 1] + [s[i]] + s[p + 1..]
  }

  /** `splice(i, 1)` followed by `splice(p, 0, s[i])` is the move. */
  lemma SplicesAreMove(s: seq<Doc>, i: nat, p: nat)
    requires i < p < |s|
    ensures var r := s[..i] + s[i + 1..];
            p <= |r| && r[..p] + [s[i]] + r[p..] == Move(s, i, p)
  {
    var r := s[..i] + s[i + 1..];
    assert r[..p] == s[..i] + s[i + 1..p + 1];
    assert r[p..] == s[p + 1..];
  }

  /** Where each entry of `Move(s, i, p)` came from. */
  function MoveSource(i: nat, p: nat, k: nat): nat
  {
    if k < i || k > p then k else if k < p then k + 1 else i
  }

  lemma MoveAt(s: seq<Doc>, i: nat, p: nat, k: nat)
    requires i < p < |s| && k < |s|
    ensures MoveSource(i, p, k) < |s| && Move(s, i, p)[k] == s[MoveSource(i, p, k)]
  {
    var t := Move(s, i, p);
    if k < i {
      assert t[k] == s[..i][k];
    } else if k < p {
      assert t[k] == s[i + 1..p + 1][k - i];
    } else if k == p {
    } else {
      assert t[k] == s[p + 1..][k - p - 1];
    }
  }

  /** The move only rearranges the entries. */
  lemma MoveIsPermutation(s: seq<Doc>, i: nat, p: nat)
    requires i < p < |s|
    ensures multiset(Move(s, i, p)) == multiset(s)
  {
    assert s == s[..i] + [s[i]] + s[i + 1..p + 1] + s[p + 1..];
  }

  /** Two lists that differ in placement only between i and p, where the
      second has position p in place and the first does not, are ordered by
      weight. */
  lemma PlacementGain(s: seq<Doc>, t: seq<Doc>, i: nat, p: nat)
    requires |s| == |t| && i < p < |s|
    requires forall k :: 0 <= k < |s| && (k < i || k > p) ==> t[k].placement == s[k].placement
    requires t[p].placement == Some(p) && s[p].placement != Some(p)
    ensures Weight(s, |s|) < Weight(t, |t|)
  {
    var n := |s|;
    WeightSameRange(s, t, 0, i);
    WeightBounds(t, i, p);
    WeightBounds(s, i, p);
    assert Weight(s, p + 1) == Weight(s, p);
    assert Weight(t, p + 1) == Weight(t, p) + Pow2(p);
    WeightSameRange(s, t, p + 1, n);
  }

  /** The move leaves the placements outside i..p where they were and puts
      entry i at p. */
  lemma MovePlacements(s: seq<Doc>, i: nat, p: nat)
    requires i < p < |s|
    ensures forall k :: 0 <= k < |s| && (k < i || k > p) ==> Move(s, i, p)[k].placement == s[k].placement
    ensures Move(s, i, p)[p] == s[i]
  {
    forall k | 0 <= k < |s| && (k < i || k > p) ensures Move(s, i, p)[k].placement == s[k].placement {
      MoveAt(s, i, p, k);
    }
    MoveAt(s, i, p, p);
  }

  /** Moving the entry at i, whose placement is p > i, to position p strictly
      increases the weight, provided no other entry claims placement p. */
  lemma MoveIncreasesWeight(s: seq<Doc>, i: nat, p: nat)
    requires i < p < |s|
    requires s[i].placement == Some(p)
    requires s[p].placement != Some(p)
    ensures Weight(s, |s|) < Weight(Move(s, i, p), |s|)
  {
    MovePlacements(s, i, p);
    PlacementGain(s, Move(s, i, p), i, p);
  }

  /** The placements form a permutation of the positions. */
  ghost predicate PlacementsArePermutation(s: seq<Doc>)
  {
    && (forall k :: 0 <= k < |s| ==> s[k].placement.Some? && s[k].placement.value < |s|)
    && (forall j, k :: 0 <= j < |s| && 0 <= k < |s| && j != k ==> s[j].placement != s[k].placement)
  }

  /** The reorder loop's move keeps the placements a permutation. */
  lemma MoveKeepsPermutation(s: seq<Doc>, i: nat, p: nat)
    requires i < p < |s|
    requires PlacementsArePermutation(s)
    ensures PlacementsArePermutation(Move(s, i, p))
  {
    var t := Move(s, i, p);
    forall k | 0 <= k < |t| ensures t[k].placement == s[MoveSource(i, p, k)].placement {
      MoveAt(s, i, p, k);
    }
  }

  /** In a permutation whose first i entries are in place, an entry not
      placed past its index is in place too. */
  lemma NotAheadIsInPlace(s: seq<Doc>, i: nat)
    requires i < |s|
    requires PlacementsArePermutation(s)
    requires forall k :: 0 <= k < i ==> s[k].placement == Some(k)
    requires !(s[i].placement.Some? && s[i].placement.value > i)
    ensures s[i].placement == Some(i)
  {
  }

  /** An entry whose id the server lists, placed at the last server index
      holding that id. */
  ghost predicate PlacedAt(d: Doc, json: seq<DocId>)
  {
    && d.placement.Some?
    && d.placement.value < |json|
    && json[d.placement.value] == d.id
    && forall q :: d.placement.value < q < |json| ==> json[q] != d.id
  }

  /** Entries with distinct ids, each placed at an index of a server list as
      long as themselves, have placements forming a permutation. */
  lemma PlacedIsPermutation(docs: seq<Doc>, json: seq<DocId>)
    requires |docs| == |json|
    requires DistinctIds(docs)
    requires forall k :: 0 <= k < |docs| ==> PlacedAt(docs[k], json)
    ensures PlacementsArePermutation(docs)
  {
    forall j, k | 0 <= j < |docs| && 0 <= k < |docs| && j != k
      ensures docs[j].placement != docs[k].placement
    {
      if j > k {
        assert docs[k].id != docs[j].id;
      }
    }
  }

  /** The first entry with an id is the only one when ids are distinct. */
  lemma FindUnique(docs: seq<Doc>, m: nat)
    requires DistinctIds(docs)
    requires m < |docs|
    ensures Find(docs, docs[m].id) == m
  {
  }

  /** Reordering the placed copy of the kept entries by placement puts the
      entry for server id k at index k, with the div it had. */
  lemma ReorderedMatchesServer(kept: seq<Doc>, placed: seq<Doc>, docs: seq<Doc>, json: seq<DocId>)
    requires |placed| == |kept| && DistinctIds(kept) && Distinct(json)
    requires forall k :: 0 <= k < |placed| ==> placed[k].id == kept[k].id && placed[k].div == kept[k].div
    requires forall k :: 0 <= k < |placed| ==> PlacedAt(placed[k], json)
    requires multiset(docs) == multiset(placed)
    requires forall k :: 0 <= k < |docs| ==> docs[k].placement == Some(k)
    requires |docs| == |json|
    ensures Ids(docs) == json
    ensures DistinctIds(docs)
    ensures forall k :: 0 <= k < |docs| ==>
              Find(kept, json[k]) < |kept| && docs[k].div == kept[Find(kept, json[k])].div
  {
    forall k | 0 <= k < |docs|
      ensures docs[k].id == json[k]
      ensures Find(kept, json[k]) < |kept| && docs[k].div == kept[Find(kept, json[k])].div
    {
      assert docs[k] in multiset(placed);
      var m :| 0 <= m < |placed| && placed[m] == docs[k];
      assert PlacedAt(placed[m], json);
      FindUnique(kept, m);
    }
  }

  class DocumentList {
    var documents: seq<Doc>

    /** The constructor's loop over the panels: one entry per panel, in panel
        order, with the id `initialize_panel` read from it. */
    constructor (panels: seq<(DocId, Div)>)
      ensures |documents| == |panels|
      ensures forall k :: 0 <= k < |panels| ==> documents[k] == Doc(panels[k].0, panels[k].1, None)
      ensures Valid() <==> forall j, k :: 0 <= j < k < |panels| ==> panels[j].0 != panels[k].0
    {
      var docs := [];
      for k := 0 to |panels|
        invariant |docs| == k
        invariant forall j :: 0 <= j < k ==> docs[j] == Doc(panels[j].0, panels[j].1, None)
      {
        docs := docs + [Doc(panels[k].0, panels[k].1, None)];
      }
      documents := docs;
    }

    /** The entries are told apart by id: a panel is never listed twice. */
    ghost predicate Valid()
      reads this
    {
      DistinctIds(documents)
    }

    /** `remove_document(i)`: drops entry i; the others keep their order. */
    method RemoveDocument(i: nat)
      requires i < |documents|
      modifies this
      ensures documents == old(documents[..i] + documents[i + 1..])
    {
      documents := documents[..i] + documents[i + 1..];
    }

    /** The inner loop of the removal phase for entry i: the server's ids are
        scanned, and past their end the entry is removed and the index
        stepped back so that the next entry is examined at the same index. */
    method ScanForRemoval(i: nat, json: seq<DocId>) returns (next: int)
      requires i < |documents|
      modifies this
      ensures old(documents[i].id) in json ==> documents == old(documents) && next == i
      ensures old(documents[i].id) !in json ==>
                documents == old(documents[..i] + documents[i + 1..]) && next == i - 1
    {
      next := i;
      var j := 0;
      while j <= |json|
        invariant 0 <= j <= |json| + 1
        invariant j <= |json| ==> documents == old(documents) && next == i
        invariant j <= |json| ==> forall q :: 0 <= q < j ==> json[q] != documents[i].id
        invariant j == |json| + 1 ==> old(documents[i].id) !in json
        invariant j == |json| + 1 ==> documents == old(documents[..i] + documents[i + 1..]) && next == i - 1
      {
        if j == |json| {
          RemoveDocument(i);
          next := i - 1;
        } else if documents[i].id == json[j] {
          break;
        }
        j := j + 1;
      }
    }

    /** One pass of the removal phase over entry `done` of the original
        list, which follows the entries already kept: it stays when the
        server lists its id. Returns the index of the next entry to examine. */
    method RemovalStep(i: nat, json: seq<DocId>, ghost orig: seq<Doc>, ghost done: nat) returns (next: nat)
      requires done < |orig| && i == |Retained(orig[..done], json)|
      requires documents == Retained(orig[..done], json) + orig[done..]
      modifies this
      ensures next == |Retained(orig[..done + 1], json)|
      ensures documents == Retained(orig[..done + 1], json) + orig[done + 1..]
    {
      ghost var kept, d, rest := Retained(orig[..done], json), orig[done], orig[done + 1..];
      RetainedStep(orig, done, json);
      SuffixCons(orig, done);
      SpliceOut(kept, d, rest);
      assert kept + ([d] + rest) == (kept + [d]) + rest;
      var j := ScanForRemoval(i, json);
      next := j + 1;
    }

    /** Removal phase of `update_documents`: every entry whose id is not
        among the server's is removed. */
    method RemoveDeleted(json: seq<DocId>)
      modifies this
      ensures documents == Retained(old(documents), json)
    {
      ghost var orig := documents;
      ghost var done := 0;
      var i: int := 0;
      while i < |documents|
        invariant 0 <= done <= |orig|
        invariant i == |Retained(orig[..done], json)|
        invariant documents == Retained(orig[..done], json) + orig[done..]
        decreases |orig| - done
      {
        i := RemovalStep(i, json, orig, done);
        done := done + 1;
      }
      assert orig[..done] == orig;
    }

    /** Add phase of `update_documents`: one `refresh_document` request per
        server id not held. The requests answer later, so the list itself is
        left as it is. */
    method RequestMissing(json: seq<DocId>) returns (refreshes: seq<DocId>)
      ensures refreshes == Missing(json, Ids(documents))
    {
      refreshes := [];
      for i := 0 to |json|
        invariant refreshes == Missing(json[..i], Ids(documents))
      {
        assert json[..i + 1][..i] == json[..i];
        var j := 0;
        while j <= |documents|
          invariant 0 <= j <= |documents| + 1
          invariant j <= |documents| ==> refreshes == Missing(json[..i], Ids(documents))
          invariant j <= |documents| ==> forall q :: 0 <= q < j ==> documents[q].id != json[i]
          invariant j == |documents| + 1 ==> refreshes == Missing(json[..i + 1], Ids(documents))
        {
          if j == |documents| {
            assert json[i] !in Ids(documents);
            refreshes := refreshes + [json[i]];
          } else if json[i] == documents[j].id {
            break;
          }
          j := j + 1;
        }
        if j <= |documents| {
          assert Ids(documents)[j] == json[i];
        }
      }
      assert json[..|json|] == json;
    }

    /** Placement phase of `update_documents`: for each server index i, the
        first entry with that id gets placement i. With distinct ids each
        listed entry ends up placed at the last server index with its id. */
    method AssignPlacements(json: seq<DocId>)
      requires Valid()
      modifies this
      ensures |documents| == |old(documents)|
      ensures forall k :: 0 <= k < |documents| ==>
                documents[k].id == old(documents[k].id) && documents[k].div == old(documents[k].div)
      ensures forall k :: 0 <= k < |documents| && documents[k].id in json ==> PlacedAt(documents[k], json)
      ensures forall k :: 0 <= k < |documents| && documents[k].id !in json ==> documents[k] == old(documents[k])
    {
      ghost var orig := documents;
      for i := 0 to |json|
        invariant |documents| == |orig|
        invariant forall k :: 0 <= k < |documents| ==>
                    documents[k].id == orig[k].id && documents[k].div == orig[k].div
        invariant forall k :: 0 <= k < |documents| && documents[k].id in json[..i] ==> PlacedAt(documents[k], json[..i])
        invariant forall k :: 0 <= k < |documents| && documents[k].id !in json[..i] ==> documents[k] == orig[k]
      {
        assert json[..i + 1] == json[..i] + [json[i]];
        for j := 0 to |documents|
          invariant |documents| == |orig|
          invariant forall k :: 0 <= k < |documents| ==>
                      documents[k].id == orig[k].id && documents[k].div == orig[k].div
          invariant forall k :: 0 <= k < |documents| && documents[k].id in json[..i] ==> PlacedAt(documents[k], json[..i])
          invariant forall k :: 0 <= k < |documents| && documents[k].id !in json[..i] ==> documents[k] == orig[k]
          invariant forall q :: 0 <= q < j ==> documents[q].id != json[i]
        {
          if json[i] == documents[j].id {
            documents := documents[j := documents[j].(placement := Some(i))];
            assert forall k :: 0 <= k < |documents| && k != j ==> documents[k].id != json[i] by {
              forall k | 0 <= k < |documents| && k != j ensures documents[k].id != json[i] {
                if k < j {
                  assert orig[k].id != orig[j].id;
                } else {
                  assert orig[j].id != orig[k].id;
                }
              }
            }
            break;
          }
        }
        forall k | 0 <= k < |documents| && documents[k].id in json[..i + 1]
          ensures PlacedAt(documents[k], json[..i + 1])
        {
          if documents[k].id != json[i] {
            assert documents[k].id in json[..i];
          }
        }
      }
      assert json[..|json|] == json;
    }

    /** One splice of the reorder phase: entry i, placed past its index, is
        taken out and put back at its placement. The placements stay a
        permutation, the entries before i keep theirs, and the weight grows
        (it never exceeds 2^n - 1). */
    method MoveToPlacement(i: nat)
      requires i < |documents| && PlacementsArePermutation(documents)
      requires documents[i].placement.Some? && documents[i].placement.value > i
      modifies this
      ensures |documents| == |old(documents)|
      ensures PlacementsArePermutation(documents)
      ensures forall k :: 0 <= k < i ==> documents[k].placement == old(documents[k].placement)
      ensures multiset(documents) == multiset(old(documents))
      ensures Weight(old(documents), |documents|) < Weight(documents, |documents|) < Pow2(|documents|)
    {
      var left := documents[i];
      ghost var s := documents;
      ghost var p := left.placement.value;
      SplicesAreMove(s, i, p);
      documents := documents[..i] + documents[i + 1..];
      documents := documents[..left.placement.value] + [left] + documents[left.placement.value..];
      MovePlacements(s, i, p);
      MoveIncreasesWeight(s, i, p);
      MoveKeepsPermutation(s, i, p);
      MoveIsPermutation(s, i, p);
      WeightBounds(documents, 0, |documents|);
    }

    /** Reorder phase of `update_documents`: an entry whose placement is past
        its index is spliced out and back in at its placement, and the same
        index is examined again. When the placements are a permutation of the
        indices this terminates with every entry at its placement. */
    method Reorder()
      requires PlacementsArePermutation(documents)
      modifies this
      ensures forall k :: 0 <= k < |documents| ==> documents[k].placement == Some(k)
      ensures multiset(documents) == multiset(old(documents))
    {
      var n := |documents|;
      var i := 0;
      while i < |documents|
        invariant |documents| == n
        invariant 0 <= i <= n
        invariant PlacementsArePermutation(documents)
        invariant forall k :: 0 <= k < i ==> documents[k].placement == Some(k)
        invariant multiset(documents) == multiset(old(documents))
        decreases Pow2(n) - Weight(documents, n), n - i
      {
        if documents[i].placement.Some? && documents[i].placement.value > i {
          MoveToPlacement(i);
        } else {
          NotAheadIsInPlace(documents, i);
          i := i + 1;
        }
      }
    }

    /** `update_documents(json)` with the server's ids in order. Returns the
        refresh requests of the add phase and whether the length check
        passed (false is the thrown 'length mismatch'). */
    method UpdateDocuments(json: seq<DocId>) returns (refreshes: seq<DocId>, ok: bool)
      requires Valid()
      modifies this
      ensures refreshes == Missing(json, Ids(Retained(old(documents), json)))
      ensures ok <==> |Retained(old(documents), json)| == |json|
      ensures !ok ==> documents == Retained(old(documents), json)
      ensures ok ==> refreshes == [] && Ids(documents) == json
      ensures ok ==> forall k :: 0 <= k < |documents| ==> documents[k].placement == Some(k)
      ensures ok ==> forall k :: 0 <= k < |documents| ==>
                var r := Retained(old(documents), json);
                Find(r, json[k]) < |r| && documents[k].div == r[Find(r, json[k])].div
      ensures Valid()
    {
      ghost var kept := Retained(documents, json);
      RetainedKeepsDistinct(documents, json);
      RetainedIdsListed(documents, json);
      RemoveDeleted(json);
      refreshes := RequestMissing(json);
      DistinctIdsList(kept);
      if |documents| != |json| {
        return refreshes, false;
      }
      if refreshes != [] {
        NewIdForcesMismatch(Ids(kept), json);
      }
      MatchingListsAreDistinct(Ids(kept), json);
      AssignPlacements(json);
      ghost var placed := documents;
      forall k | 0 <= k < |placed| ensures PlacedAt(placed[k], json) {
        assert Ids(kept)[k] == placed[k].id;
      }
      PlacedIsPermutation(placed, json);
      Reorder();
      ReorderedMatchesServer(kept, placed, documents, json);
      ok := true;
    }

    /** `refresh_document(docid)` answered with a new panel `div`: the first
        entry with that id gets the new div; an unknown id is appended. */
    method RefreshSucceeded(docid: DocId, div: Div)
      modifies this
      ensures var k := Find(old(documents), docid);
              documents == if k < |old(documents)|
                           then old(documents)[k := old(documents)[k].(div := div)]
                           else old(documents) + [Doc(docid, div, None)]
      ensures old(Valid()) ==> Valid()
    {
      var i := 0;
      while i < |documents|
        invariant 0 <= i <= |documents|
        invariant forall q :: 0 <= q < i ==> documents[q].id != docid
      {
        if documents[i].id == docid {
          documents := documents[i := documents[i].(div := div)];
          assert Ids(documents) == Ids(old(documents));
          return;
        }
        i := i + 1;
      }
      documents := documents + [Doc(docid, div, None)];
      assert Ids(documents) == Ids(old(documents)) + [docid];
      assert docid !in Ids(old(documents));
    }

    /** `refresh_document(docid)` failed: a 404 removes the first entry with
        that id; any other status changes nothing. */
    method RefreshFailed(docid: DocId, status: int)
      modifies this
      ensures var k := Find(old(documents), docid);
              documents == if status == 404 && k < |old(documents)|
                           then old(documents[..k] + documents[k + 1..])
                           else old(documents)
      ensures old(Valid()) ==> Valid()
    {
      if status == 404 {
        var i := 0;
        while i < |documents|
          invariant 0 <= i <= |documents|
          invariant forall q :: 0 <= q < i ==> documents[q].id != docid
        {
          if documents[i].id == docid {
            if DistinctIds(documents) {
              RemoveKeepsDistinct(documents, i);
            }
            RemoveDocument(i);
            return;
          }
          i := i + 1;
        }
      }
    }
  }

}
