/** `ep_autocompleter`: the glue around the script.aculo.us autocompleter.
    70_autocomplete.js builds the query string from the fields to send,
    sizes the popup to the sum of some cells' widths, and on selection reads
    each `li` of the chosen entry: its id `for:<value|block>:<basename>:<id>`
    names an element that receives the `li`'s text (unescaped) or its
    children. z_autocomplete.js has a simpler `updateElement` that only knows
    `value`, applies no defaults and copies the raw text. */
module Autocomplete {
  import opened Text
  import opened Entities
  import opened Wrappers

  // ----- the query string -----------------------------------------------

  /** `fields_to_send.inject(entry, …)`: for each field, in order,
      `&<rel_id>=<value>` is appended, the value read with
      `$F(basenames.relative + rel_id)`. */
  function InjectParams(acc: string, fields: seq<string>, relative: string, values: map<string, string>): string
    requires forall k :: 0 <= k < |fields| ==> relative + fields[k] in values
    decreases |fields|
  {
    if |fields| == 0 then acc
    else InjectParams(acc + "&" + fields[0] + "=" + values[relative + fields[0]], fields[1..], relative, values)
  }

  /** The `callback` option: the query string sent with the typed `entry`. */
  function CallbackParams(entry: string, fields: seq<string>, relative: string, values: map<string, string>,
                          extraParams: string): string
    requires forall k :: 0 <= k < |fields| ==> relative + fields[k] in values
  {
    InjectParams(entry, fields, relative, values) + extraParams
  }

  /** One `&<rel_id>=<value>` pair per field. */
  function Pair(field: string, relative: string, values: map<string, string>): string
    requires relative + field in values
  {
    field + "=" + values[relative + field]
  }

  function Pairs(fields: seq<string>, relative: string, values: map<string, string>): string
    requires forall k :: 0 <= k < |fields| ==> relative + fields[k] in values
    decreases |fields|
  {
    if |fields| == 0 then "" else ['&'] + Pair(fields[0], relative, values) + Pairs(fields[1..], relative, values)
  }

  /** The fold appends the pairs, in field order, after the entry. */
  lemma {:induction false} InjectIsPairs(acc: string, fields: seq<string>, relative: string, values: map<string, string>)
    requires forall k :: 0 <= k < |fields| ==> relative + fields[k] in values
    ensures InjectParams(acc, fields, relative, values) == acc + Pairs(fields, relative, values)
    decreases |fields|
  {
    if |fields| > 0 {
      var p := Pair(fields[0], relative, values);
      InjectIsPairs(acc + "&" + fields[0] + "=" + values[relative + fields[0]], fields[1..], relative, values);
      assert acc + "&" + fields[0] + "=" + values[relative + fields[0]] == acc + (['&'] + p);
    }
  }

  /** The `<rel_id>=<value>` pieces, one per field, in field order. */
  function PairList(fields: seq<string>, relative: string, values: map<string, string>): (r: seq<string>)
    requires forall k :: 0 <= k < |fields| ==> relative + fields[k] in values
    ensures |r| == |fields|
    ensures forall k :: 0 <= k < |fields| ==> r[k] == Pair(fields[k], relative, values)
    decreases |fields|
  {
    if |fields| == 0 then [] else [Pair(fields[0], relative, values)] + PairList(fields[1..], relative, values)
  }

  /** Splitting the pairs back at `&` recovers the piece before them and then
      one `<rel_id>=<value>` per field, in order, as long as no name or value
      holds a `&` (nothing is URL-encoded). */
  lemma {:induction false} SplitPairs(piece: string, fields: seq<string>, relative: string, values: map<string, string>)
    requires forall k :: 0 <= k < |fields| ==> relative + fields[k] in values
    requires '&' !in piece
    requires forall k :: 0 <= k < |fields| ==> '&' !in Pair(fields[k], relative, values)
    ensures Split(piece + Pairs(fields, relative, values), '&') == [piece] + PairList(fields, relative, values)
    decreases |fields|
  {
    if |fields| == 0 {
      assert piece + "" == piece;
      SplitWithoutSeparator(piece, '&');
    } else {
      var p := Pair(fields[0], relative, values);
      var rest := Pairs(fields[1..], relative, values);
      assert piece + Pairs(fields, relative, values) == piece + ['&'] + (p + rest);
      SplitAfterPiece(piece, '&', p + rest);
      SplitPairs(p, fields[1..], relative, values);
    }
  }

  /** The query string is the entry, the pairs, and `extra_params`. */
  lemma CallbackParamsShape(entry: string, fields: seq<string>, relative: string, values: map<string, string>,
                            extraParams: string)
    requires forall k :: 0 <= k < |fields| ==> relative + fields[k] in values
    ensures CallbackParams(entry, fields, relative, values, extraParams)
            == entry + Pairs(fields, relative, values) + extraParams
  {
    InjectIsPairs(entry, fields, relative, values);
  }

  // ----- the popup width --------------------------------------------------

  /** `width_of_these.inject(0, …)` over the measured widths. */
  function InjectWidths(acc: int, widths: seq<nat>): int
    decreases |widths|
  {
    if |widths| == 0 then acc else InjectWidths(acc + widths[0], widths[1..])
  }

  function Sum(widths: seq<nat>): nat
    decreases |widths|
  {
    if |widths| == 0 then 0 else widths[0] + Sum(widths[1..])
  }

  /** The `width` style `onShow` gives the popup. */
  function PopupWidth(widths: seq<nat>): string
  {
    Decimal(InjectWidths(0, widths)) + "px"
  }

  /** The fold adds every width to its start value. */
  lemma {:induction false} InjectWidthsIsSum(acc: int, widths: seq<nat>)
    ensures InjectWidths(acc, widths) == acc + Sum(widths)
    decreases |widths|
  {
    if |widths| > 0 {
      InjectWidthsIsSum(acc + widths[0], widths[1..]);
    }
  }

  /** Widths of two groups of cells add up. */
  lemma {:induction false} SumAppend(a: seq<nat>, b: seq<nat>)
    ensures Sum(a + b) == Sum(a) + Sum(b)
    decreases |a|
  {
    if |a| > 0 {
      assert (a + b)[1..] == a[1..] + b;
      SumAppend(a[1..], b);
    } else {
      assert a + b == b;
    }
  }

  /** No width exceeds the sum. */
  lemma {:induction false} SumAtLeastEach(widths: seq<nat>, k: nat)
    requires k < |widths|
    ensures widths[k] <= Sum(widths)
    decreases k
  {
    if k > 0 {
      SumAtLeastEach(widths[1..], k - 1);
    }
  }

  /** The popup is as wide as its cells together, and at least as wide as
      any one of them. */
  lemma PopupWidthIsSum(widths: seq<nat>, k: nat)
    requires k < |widths|
    ensures PopupWidth(widths) == Decimal(Sum(widths)) + "px"
    ensures widths[k] <= Sum(widths)
  {
    InjectWidthsIsSum(0, widths);
    SumAtLeastEach(widths, k);
  }

  // ----- unescaping ------------------------------------------------------

  /** The entities of the `value` mode, in replacement order. */
  const ValueEntities: Table := [("&gt;", '>'), ("&lt;", '<'), ("&amp;", '&')]

  /** `&gt;`, `&lt;` then `&amp;` replaced globally, ignoring case. */
  function Unescape(s: string): string
  {
    var s1 := ReplaceAll(s, "&gt;", ">", true);
    var s2 := ReplaceAll(s1, "&lt;", "<", true);
    ReplaceAll(s2, "&amp;", "&", true)
  }

  lemma ValueEntitiesWellFormed()
    ensures WellFormed(ValueEntities, true)
  {
    var t := ValueEntities;
    assert EntitiesShaped(t) by {
      assert t[0].0[1..] == "gt;";
      assert t[1].0[1..] == "lt;";
      assert t[2].0[1..] == "amp;";
    }
    assert SecondsDiffer(t, true) by {
      assert t[0].0[1] == 'g' && t[1].0[1] == 'l' && t[2].0[1] == 'a';
      assert LowerAscii('g') == 'g' && LowerAscii('l') == 'l' && LowerAscii('a') == 'a';
    }
    assert CharsDiffer(t) by {
      assert t[0].1 == '>' && t[1].1 == '<' && t[2].1 == '&';
    }
  }

  /** The three replaces are the table's decoder. */
  lemma UnescapeIsDecode(s: string)
    ensures Unescape(s) == Decode(ValueEntities, true, 0, s)
  {
    var t := ValueEntities;
    var s1 := ReplaceAll(s, "&gt;", ">", true);
    var s2 := ReplaceAll(s1, "&lt;", "<", true);
    var s3 := ReplaceAll(s2, "&amp;", "&", true);
    assert Decode(t, true, 3, s3) == s3;
    assert Decode(t, true, 2, s2) == s3;
    assert Decode(t, true, 1, s1) == s3;
  }

  /** Unescaping undoes the HTML escaping of `>`, `<` and `&`, and since
      `&amp;` goes last nothing is unescaped twice. */
  lemma UnescapeEscaped(s: string)
    ensures Unescape(Encode(ValueEntities, 0, s)) == s
  {
    ValueEntitiesWellFormed();
    DecodeEncode(ValueEntities, true, 0, s);
    UnescapeIsDecode(Encode(ValueEntities, 0, s));
  }

  // ----- the `li` ids -------------------------------------------------------

  /** An `li` of the chosen entry: its id and its inner HTML. */
  datatype Li = Li(id: string, innerHtml: string)

  /** What an `li` id says in 70_autocomplete.js: an alert, or a target and
      whether its text (`value`) or its children (`block`) go there. */
  datatype Reference = Alert(message: string) | Target(isValue: bool, targetId: string)

  /** `attr[k]` of the split id; an index past the end is `undefined`. */
  function Part(attr: seq<string>, k: nat): Option<string>
  {
    if k < |attr| then Some(attr[k]) else None
  }

  /** `basenames[key]`: an `undefined` key is looked up as the string
      "undefined". */
  function Basename(basenames: map<string, string>, key: Option<string>): Option<string>
  {
    var k := if key.Some? then key.value else "undefined";
    if k in basenames then Some(basenames[k]) else None
  }

  /** The parsing in 70_autocomplete.js: part 0 must be `for` and part 1
      `value` or `block`, each failure alerting with the id; a missing
      basename and a missing id part both count as empty. */
  function Parse70(myid: string, basenames: map<string, string>): Reference
  {
    var attr := Split(myid, ':');
    if attr[0] != "for" then
      Alert("Autocomplete id reference did not start with 'for': " + myid)
    else if Part(attr, 1) != Some("value") && Part(attr, 1) != Some("block") then
      Alert("Autocomplete id reference did not contain 'block' or 'value': " + myid)
    else
      var id := Part(attr, 3);
      var prefix := Basename(basenames, Part(attr, 2));
      Target(Part(attr, 1) == Some("value"),
             (if prefix.Some? then prefix.value else "") + (if id.Some? then id.value else ""))
  }

  /** How JavaScript's `+` joins two values that may be `undefined`:
      `undefined` is written out as text, and two of them add up to the
      number `NaN`, which `$` hands back unchanged and which is falsy, so no
      element is looked up (None). */
  function JsConcat(a: Option<string>, b: Option<string>): Option<string>
  {
    if a.None? && b.None? then None
    else Some((if a.Some? then a.value else "undefined") + (if b.Some? then b.value else "undefined"))
  }

  /** The parsing in z_autocomplete.js: only `for:value:…` ids are used, and
      the target is `basenames[part 2] + part 3` as JavaScript writes it;
      None when nothing is looked up. */
  function ParseZ(myid: string, basenames: map<string, string>): Option<string>
  {
    var attr := Split(myid, ':');
    if attr[0] != "for" || Part(attr, 1) != Some("value") then None
    else JsConcat(Basename(basenames, Part(attr, 2)), Part(attr, 3))
  }

  /** z_autocomplete.js looks up a target exactly for a `for:value` id with a
      basename or an id part; every other mode, `block` included, is skipped. */
  lemma ParseZLooksUp(myid: string, basenames: map<string, string>)
    ensures var attr := Split(myid, ':');
            ParseZ(myid, basenames).Some? <==>
              attr[0] == "for" && Part(attr, 1) == Some("value") &&
              (Basename(basenames, Part(attr, 2)).Some? || Part(attr, 3).Some?)
  {
  }

  /** Splitting peels the colon-free parts off one at a time. */
  lemma SplitFourNested(a: string, b: string, c: string, d: string)
    requires ':' !in a && ':' !in b && ':' !in c && ':' !in d
    ensures Split(a + [':'] + (b + [':'] + (c + [':'] + d)), ':') == [a] + ([b] + ([c] + [d]))
  {
    SplitWithoutSeparator(d, ':');
    SplitAfterPiece(c, ':', d);
    SplitAfterPiece(b, ':', c + [':'] + d);
    SplitAfterPiece(a, ':', b + [':'] + (c + [':'] + d));
  }

  lemma FourList<T>(a: T, b: T, c: T, d: T)
    ensures [a] + ([b] + ([c] + [d])) == [a, b, c, d]
  {
  }

  lemma FourJoined(a: string, b: string, c: string, d: string)
    ensures a + [':'] + b + [':'] + c + [':'] + d == a + [':'] + (b + [':'] + (c + [':'] + d))
  {
  }

  /** Four colon-free parts joined by colons split back into them. */
  lemma SplitFour(a: string, b: string, c: string, d: string)
    requires ':' !in a && ':' !in b && ':' !in c && ':' !in d
    ensures Split(a + [':'] + b + [':'] + c + [':'] + d, ':') == [a, b, c, d]
  {
    FourJoined(a, b, c, d);
    SplitFourNested(a, b, c, d);
    FourList(a, b, c, d);
  }

  /** An id built from four colon-free parts splits back into them. */
  lemma SplitId(mode: string, base: string, id: string)
    requires ':' !in mode && ':' !in base && ':' !in id
    ensures Split("for:" + mode + ":" + base + ":" + id, ':') == ["for", mode, base, id]
  {
    assert "for:" + mode + ":" + base + ":" + id == "for" + [':'] + mode + [':'] + base + [':'] + id by {
      assert "for:" == "for" + [':'];
    }
    SplitFour("for", mode, base, id);
  }

  /** A four-part id names the basename's prefix followed by the id part, in
      both versions; 70_autocomplete.js also accepts `block`. */
  lemma ParseWellFormedId(mode: string, base: string, id: string, basenames: map<string, string>)
    requires mode == "value" || mode == "block"
    requires ':' !in base && ':' !in id && base in basenames
    ensures Parse70("for:" + mode + ":" + base + ":" + id, basenames) == Target(mode == "value", basenames[base] + id)
    ensures mode == "value" ==> ParseZ("for:" + mode + ":" + base + ":" + id, basenames) == Some(basenames[base] + id)
  {
    assert ':' !in mode;
    SplitId(mode, base, id);
  }

  /** Without the id part the versions differ: 70_autocomplete.js uses the
      prefix alone, z_autocomplete.js appends the text "undefined". */
  lemma MissingIdPart(base: string, basenames: map<string, string>)
    requires ':' !in base && base in basenames
    ensures Parse70("for:value:" + base, basenames) == Target(true, basenames[base])
    ensures ParseZ("for:value:" + base, basenames) == Some(basenames[base] + "undefined")
  {
    var myid := "for:value:" + base;
    assert ':' !in "for" && ':' !in "value";
    assert myid == "for" + [':'] + ("value" + [':'] + base);
    SplitAfterPiece("for", ':', "value" + [':'] + base);
    SplitAfterPiece("value", ':', base);
    SplitWithoutSeparator(base, ':');
  }

  /** An id not starting with `for` is reported in 70_autocomplete.js and
      silently skipped in z_autocomplete.js. */
  lemma NotForRejected(myid: string, basenames: map<string, string>)
    requires Split(myid, ':')[0] != "for"
    ensures Parse70(myid, basenames).Alert?
    ensures ParseZ(myid, basenames).None?
  {
  }

  // ----- applying the `li`s ------------------------------------------------

  /** A page element an `li` can target: its form value and its content. */
  datatype Element = Element(value: string, content: string)

  /** `$(t)` finds an element: it is on the page, and the empty id, which
      `getElementById` never matches, finds nothing. */
  predicate Found(t: string, page: map<string, Element>)
  {
    t != "" && t in page
  }

  /** One `li` in 70_autocomplete.js: its alert, if any, and the page after
      it. A target that is not on the page is skipped. */
  function Step70(li: Li, basenames: map<string, string>, page: map<string, Element>): (map<string, Element>, seq<string>)
  {
    match Parse70(li.id, basenames)
    case Alert(m) => (page, [m])
    case Target(isValue, t) =>
      if !Found(t, page) then (page, [])
      else if isValue then (page[t := page[t].(value := Unescape(li.innerHtml))], [])
      else (page[t := page[t].(content := li.innerHtml)], [])
  }

  /** `lis.each(…)` in 70_autocomplete.js: the page after every `li`, and
      the alerts raised, in order. */
  function Run70(lis: seq<Li>, basenames: map<string, string>, page: map<string, Element>): (map<string, Element>, seq<string>)
    decreases |lis|
  {
    if |lis| == 0 then (page, [])
    else
      var (p, a) := Run70(lis[..|lis| - 1], basenames, page);
      var (p2, a2) := Step70(lis[|lis| - 1], basenames, p);
      (p2, a + a2)
  }

  /** One `li` in z_autocomplete.js: the raw inner HTML goes to the target. */
  function StepZ(li: Li, basenames: map<string, string>, page: map<string, Element>): map<string, Element>
  {
    match ParseZ(li.id, basenames)
    case None => page
    case Some(t) => if Found(t, page) then page[t := page[t].(value := li.innerHtml)] else page
  }

  function RunZ(lis: seq<Li>, basenames: map<string, string>, page: map<string, Element>): map<string, Element>
    decreases |lis|
  {
    if |lis| == 0 then page else StepZ(lis[|lis| - 1], basenames, RunZ(lis[..|lis| - 1], basenames, page))
  }

  /** The target an `li` would write to, whether or not it is on the page. */
  function Target70(li: Li, basenames: map<string, string>): Option<string>
  {
    match Parse70(li.id, basenames)
    case Alert(_) => None
    case Target(_, t) => Some(t)
  }

  /** `updateElement(selected)` of 70_autocomplete.js. */
  method UpdateElement70(lis: seq<Li>, basenames: map<string, string>, page: map<string, Element>)
    returns (out: map<string, Element>, alerts: seq<string>)
    ensures (out, alerts) == Run70(lis, basenames, page)
  {
    out, alerts := page, [];
    for i := 0 to |lis|
      invariant (out, alerts) == Run70(lis[..i], basenames, page)
    {
      assert lis[..i + 1][..i] == lis[..i];
      var li := lis[i];
      ghost var step := Step70(li, basenames, out);
      ghost var before := alerts;
      match Parse70(li.id, basenames) {
        case Alert(m) =>
          alerts := alerts + [m];
        case Target(isValue, t) =>
          if Found(t, out) {
            if isValue {
              out := out[t := out[t].(value := Unescape(li.innerHtml))];
            } else {
              out := out[t := out[t].(content := li.innerHtml)];
            }
          }
          assert before + [] == before;
      }
      assert (out, alerts) == (step.0, before + step.1);
    }
    assert lis[..|lis|] == lis;
  }

  /** `updateElement(selected)` of z_autocomplete.js. */
  method UpdateElementZ(lis: seq<Li>, basenames: map<string, string>, page: map<string, Element>)
    returns (out: map<string, Element>)
    ensures out == RunZ(lis, basenames, page)
  {
    out := page;
    for i := 0 to |lis|
      invariant out == RunZ(lis[..i], basenames, page)
    {
      assert lis[..i + 1][..i] == lis[..i];
      var t := ParseZ(lis[i].id, basenames);
      if t.Some? && Found(t.value, out) {
        out := out[t.value := out[t.value].(value := lis[i].innerHtml)];
      }
    }
    assert lis[..|lis|] == lis;
  }

  /** No element is created or removed. */
  lemma {:induction false} RunKeepsElements(lis: seq<Li>, basenames: map<string, string>, page: map<string, Element>)
    ensures Run70(lis, basenames, page).0.Keys == page.Keys
    ensures RunZ(lis, basenames, page).Keys == page.Keys
    decreases |lis|
  {
    if |lis| > 0 {
      RunKeepsElements(lis[..|lis| - 1], basenames, page);
    }
  }

  /** An element no `li` names is left exactly as it was. */
  lemma {:induction false} RunLeavesOthers(lis: seq<Li>, basenames: map<string, string>, page: map<string, Element>, x: string)
    requires x in page
    requires forall k :: 0 <= k < |lis| ==> Target70(lis[k], basenames) != Some(x)
    ensures x in Run70(lis, basenames, page).0 && Run70(lis, basenames, page).0[x] == page[x]
    decreases |lis|
  {
    if |lis| > 0 {
      RunLeavesOthers(lis[..|lis| - 1], basenames, page, x);
      RunKeepsElements(lis[..|lis| - 1], basenames, page);
      assert Target70(lis[|lis| - 1], basenames) != Some(x);
    }
  }

  /** The alerts of the ill-formed ids, in order. */
  function AlertsOf(lis: seq<Li>, basenames: map<string, string>): seq<string>
    decreases |lis|
  {
    if |lis| == 0 then []
    else
      var r := Parse70(lis[|lis| - 1].id, basenames);
      AlertsOf(lis[..|lis| - 1], basenames) + (if r.Alert? then [r.message] else [])
  }

  /** Each ill-formed id raises its alert whatever the page holds, and a bad
      `li` does not stop the ones after it. */
  lemma {:induction false} RunAlerts(lis: seq<Li>, basenames: map<string, string>, page: map<string, Element>)
    ensures Run70(lis, basenames, page).1 == AlertsOf(lis, basenames)
    decreases |lis|
  {
    if |lis| > 0 {
      RunAlerts(lis[..|lis| - 1], basenames, page);
    }
  }

  /** A value-mode `li` whose target is on the page leaves that target holding
      its unescaped text, unless a later `li` writes the same target. */
  lemma LastValueWins(lis: seq<Li>, basenames: map<string, string>, page: map<string, Element>)
    requires |lis| > 0
    requires var r := Parse70(lis[|lis| - 1].id, basenames); r.Target? && r.isValue && Found(r.targetId, page)
    ensures var t := Parse70(lis[|lis| - 1].id, basenames).targetId;
            t in Run70(lis, basenames, page).0 &&
            Run70(lis, basenames, page).0[t].value == Unescape(lis[|lis| - 1].innerHtml)
  {
    RunKeepsElements(lis[..|lis| - 1], basenames, page);
  }

  /** The target an `li` would write to in z_autocomplete.js. */
  function TargetZ(li: Li, basenames: map<string, string>): Option<string>
  {
    ParseZ(li.id, basenames)
  }

  /** In z_autocomplete.js too, an element no `li` names is left exactly as
      it was. */
  lemma {:induction false} RunZLeavesOthers(lis: seq<Li>, basenames: map<string, string>, page: map<string, Element>, x: string)
    requires x in page
    requires forall k :: 0 <= k < |lis| ==> TargetZ(lis[k], basenames) != Some(x)
    ensures x in RunZ(lis, basenames, page) && RunZ(lis, basenames, page)[x] == page[x]
    decreases |lis|
  {
    if |lis| > 0 {
      RunZLeavesOthers(lis[..|lis| - 1], basenames, page, x);
      RunKeepsElements(lis[..|lis| - 1], basenames, page);
      assert TargetZ(lis[|lis| - 1], basenames) != Some(x);
    }
  }

  /** A `for:value` `li` whose target is on the page leaves that target
      holding its inner HTML as it is, not unescaped, unless a later `li`
      writes the same target. */
  lemma LastValueWinsZ(lis: seq<Li>, basenames: map<string, string>, page: map<string, Element>)
    requires |lis| > 0
    requires var r := ParseZ(lis[|lis| - 1].id, basenames); r.Some? && Found(r.value, page)
    ensures var t := ParseZ(lis[|lis| - 1].id, basenames).value;
            t in RunZ(lis, basenames, page) &&
            RunZ(lis, basenames, page)[t].value == lis[|lis| - 1].innerHtml
  {
    RunKeepsElements(lis[..|lis| - 1], basenames, page);
  }

  /** An id split into just `for` and `value` names nothing in either
      version: in z_autocomplete.js two `undefined`s add up to NaN, and in
      70_autocomplete.js the empty id is looked up. */
  lemma BareValueParse(myid: string, basenames: map<string, string>)
    requires Split(myid, ':') == ["for", "value"]
    requires "undefined" !in basenames
    ensures ParseZ(myid, basenames) == None
    ensures Parse70(myid, basenames) == Target(true, "")
  {
    var attr := Split(myid, ':');
    assert Part(attr, 1) == Some("value");
    assert Part(attr, 2) == None && Part(attr, 3) == None;
  }

  /** Two colon-free parts joined by a colon split back into them. */
  lemma SplitTwoParts(a: string, b: string)
    requires ':' !in a && ':' !in b
    ensures Split(a + [':'] + b, ':') == [a, b]
  {
    SplitAfterPiece(a, ':', b);
    SplitWithoutSeparator(b, ':');
  }

  lemma BareValueParts()
    ensures Split("for:value", ':') == ["for", "value"]
  {
    assert "for:value" == "for" + [':'] + "value";
    SplitTwoParts("for", "value");
  }

  /** The `li` with id `for:value` leaves the page unchanged in both
      versions, and raises no alert. */
  lemma BareValueIdSkipped(html: string, basenames: map<string, string>, page: map<string, Element>)
    requires "undefined" !in basenames
    ensures Step70(Li("for:value", html), basenames, page) == (page, [])
    ensures StepZ(Li("for:value", html), basenames, page) == page
  {
    BareValueParts();
    BareValueParse("for:value", basenames);
  }
}
