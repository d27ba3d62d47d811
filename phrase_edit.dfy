/** The phrase editor of the administration screen: decoding the HTML entities
    of a phrase for editing, the guards of "add phrase", disabling and
    re-enabling an edit form while a save is in flight, and the reset button. */
module PhraseEdit {
  import opened Text
  import opened Entities
  import opened Dom

  /** The entities `ep_decode_html_entities` knows, in the order it replaces them. */
  const HtmlEntities: Table := [("&quot;", '"'), ("&squot;", '\''), ("&lt;", '<'), ("&gt;", '>'), ("&amp;", '&')]

  /** The encoding the decoder inverts: each of `"`, `'`, `<`, `>` and `&` written
      as its entity. */
  function Escape(s: string): string
  {
    Encode(HtmlEntities, 0, s)
  }

  /** `ep_decode_html_entities`: five global replaces, `&amp;` last. */
  function DecodeHtmlEntities(s: string): string
  {
    var s1 := ReplaceAll(s, "&quot;", "\"", false);
    var s2 := ReplaceAll(s1, "&squot;", "'", false);
    var s3 := ReplaceAll(s2, "&lt;", "<", false);
    var s4 := ReplaceAll(s3, "&gt;", ">", false);
    ReplaceAll(s4, "&amp;", "&", false)
  }

  lemma HtmlEntitiesShaped()
    ensures EntitiesShaped(HtmlEntities)
  {
    var t := HtmlEntities;
    assert t[0].0[1..] == "quot;";
    assert t[1].0[1..] == "squot;";
    assert t[2].0[1..] == "lt;";
    assert t[3].0[1..] == "gt;";
    assert t[4].0[1..] == "amp;";
  }

  lemma HtmlEntitiesWellFormed()
    ensures WellFormed(HtmlEntities, false)
  {
    var t := HtmlEntities;
    HtmlEntitiesShaped();
    assert SecondsDiffer(t, false) by {
      assert t[0].0[1] == 'q' && t[1].0[1] == 's' && t[2].0[1] == 'l' && t[3].0[1] == 'g' && t[4].0[1] == 'a';
    }
    assert CharsDiffer(t) by {
      assert t[0].1 == '"' && t[1].1 == '\'' && t[2].1 == '<' && t[3].1 == '>' && t[4].1 == '&';
    }
  }

  /** The five replaces are the table's decoder. */
  lemma DecodeIsTableDecode(s: string)
    ensures DecodeHtmlEntities(s) == Decode(HtmlEntities, false, 0, s)
  {
    var t := HtmlEntities;
    var s1 := ReplaceAll(s, "&quot;", "\"", false);
    var s2 := ReplaceAll(s1, "&squot;", "'", false);
    var s3 := ReplaceAll(s2, "&lt;", "<", false);
    var s4 := ReplaceAll(s3, "&gt;", ">", false);
    var s5 := ReplaceAll(s4, "&amp;", "&", false);
    assert Decode(t, false, 5, s5) == s5;
    assert Decode(t, false, 4, s4) == s5;
    assert Decode(t, false, 3, s3) == s5;
    assert Decode(t, false, 2, s2) == s5;
    assert Decode(t, false, 1, s1) == s5;
  }

  /** Decoding undoes the encoding exactly: each pass decodes only its own
      entity, and because `&amp;` goes last an escaped `&` is never decoded
      twice. */
  lemma DecodeEscape(s: string)
    ensures DecodeHtmlEntities(Escape(s)) == s
  {
    HtmlEntitiesWellFormed();
    DecodeEncode(HtmlEntities, false, 0, s);
    DecodeIsTableDecode(Escape(s));
  }

  /** `&amp;lt;` decodes to `&lt;`, not to `<`. */
  lemma NoDoubleDecoding()
    ensures DecodeHtmlEntities("&amp;lt;") == "&lt;"
  {
    assert Escape("&lt;") == "&amp;lt;" by {
      assert Encode(HtmlEntities, 0, "&lt;") == "&amp;" + Encode(HtmlEntities, 0, "lt;");
      assert Encode(HtmlEntities, 0, "lt;") == "lt;";
    }
    DecodeEscape("&lt;");
  }

  /** Text without `&` is returned unchanged. */
  lemma DecodeWithoutAmpersand(s: string)
    requires '&' !in s
    ensures DecodeHtmlEntities(s) == s
  {
    ReplaceAllNoAmp(s, "&quot;", "\"", false);
    ReplaceAllNoAmp(s, "&squot;", "'", false);
    ReplaceAllNoAmp(s, "&lt;", "<", false);
    ReplaceAllNoAmp(s, "&gt;", ">", false);
    ReplaceAllNoAmp(s, "&amp;", "&", false);
  }

  /** Decoding never makes the text longer. */
  lemma DecodeShrinks(s: string)
    ensures |DecodeHtmlEntities(s)| <= |s|
  {
    var s1 := ReplaceAll(s, "&quot;", "\"", false);
    var s2 := ReplaceAll(s1, "&squot;", "'", false);
    var s3 := ReplaceAll(s2, "&lt;", "<", false);
    var s4 := ReplaceAll(s3, "&gt;", ">", false);
    ReplaceAllShrinks(s, "&quot;", "\"", false);
    ReplaceAllShrinks(s1, "&squot;", "'", false);
    ReplaceAllShrinks(s2, "&lt;", "<", false);
    ReplaceAllShrinks(s3, "&gt;", ">", false);
    ReplaceAllShrinks(s4, "&amp;", "&", false);
  }

  /** What `ep_phraseedit_addphrase` did with the click. */
  datatype AddOutcome =
    | NoPhraseId                      // alert "No phrase ID specified"
    | PhraseExists                    // alert "The phrase ... already exists."
    | Sent(phraseId: string, phrase: string)  // request to screen Admin::Phrases

  /** The "add phrase" controls: the add button and the new-id input. */
  class PhraseAdder {
    var addDisabled: bool
    var newIdDisabled: bool
    var newIdValue: string

    constructor (newIdValue: string)
      ensures !addDisabled && !newIdDisabled && this.newIdValue == newIdValue
    {
      addDisabled := false;
      newIdDisabled := false;
      this.newIdValue := newIdValue;
    }

    /** `ep_phraseedit_addphrase(event, baseId)`; `existing` holds the ids of
        the elements on the page. Always returns false (the link is not
        followed). */
    method AddPhrase(baseId: string, existing: set<string>) returns (outcome: AddOutcome, r: bool)
      modifies this
      ensures !r
      ensures baseId == "" ==> outcome == NoPhraseId
      ensures baseId != "" && "ep_phraseedit_" + baseId in existing ==> outcome == PhraseExists
      ensures baseId != "" && "ep_phraseedit_" + baseId !in existing ==> outcome == Sent(baseId, old(newIdValue))
      ensures !outcome.Sent? ==> addDisabled == old(addDisabled) && newIdDisabled == old(newIdDisabled)
      ensures outcome.Sent? ==> addDisabled && newIdDisabled
      ensures newIdValue == old(newIdValue)
    {
      if baseId == "" {
        return NoPhraseId, false;
      }
      if "ep_phraseedit_" + baseId in existing {
        return PhraseExists, false;
      }
      addDisabled := true;
      newIdDisabled := true;
      outcome := Sent(baseId, newIdValue);
      r := false;
    }

    /** The add request's failure and exception callbacks. */
    method AddFailed()
      modifies this
      ensures !addDisabled && !newIdDisabled && newIdValue == old(newIdValue)
    {
      addDisabled := false;
      newIdDisabled := false;
    }

    /** The add request's success callback: the controls come back, and a
        non-empty response (the new table row) also clears the new-id input. */
    method AddSucceeded(responseText: string)
      modifies this
      ensures !addDisabled && !newIdDisabled
      ensures newIdValue == if responseText == "" then old(newIdValue) else ""
    {
      addDisabled := false;
      newIdDisabled := false;
      if |responseText| != 0 {
        newIdValue := "";
      }
    }
  }

  /** `ep_phraseedit_disableform`: every child node of the form is disabled. */
  method DisableForm(children: seq<Node>)
    modifies (set n | n in children)`disabled
    ensures forall n :: n in children ==> n.disabled
  {
    for i := 0 to |children|
      invariant forall k :: 0 <= k < i ==> children[k].disabled
    {
      children[i].disabled := true;
    }
  }

  /** `ep_phraseedit_enableform`: every child node of the form is enabled. */
  method EnableForm(children: seq<Node>)
    modifies (set n | n in children)`disabled
    ensures forall n :: n in children ==> !n.disabled
  {
    for i := 0 to |children|
      invariant forall k :: 0 <= k < i ==> !children[k].disabled
    {
      children[i].disabled := false;
    }
  }

  /** The edit form `ep_phraseedit_edit` puts in place of a phrase's div: it
      remembers the decoded original text and its textarea starts with it. */
  class PhraseEditor {
    const original: string
    var text: string

    constructor (innerHtml: string)
      ensures original == DecodeHtmlEntities(innerHtml) && text == original
    {
      original := DecodeHtmlEntities(innerHtml);
      text := DecodeHtmlEntities(innerHtml);
    }

    /** The reset button. */
    method Reset()
      modifies this
      ensures text == original
    {
      text := original;
    }
  }
}
