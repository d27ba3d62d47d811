/** The live search of the package screen `Admin::EPM::Available`: a timer
    calls the update every two seconds; it sends the query when the input's
    value differs from the last completed query and no request is in flight,
    and the request's completion records the value it was sent with. */
module EpmAvailable {
  import opened Wrappers

  const ScreenId := "Admin::EPM::Available"

  /** The search input with the two properties the script adds to it. */
  class SearchInput {
    var value: string
    /** `_pvalue`: the last completed query; absent until first set. */
    var pvalue: Option<string>
    /** `_inprogress`. */
    var inProgress: bool
    /** The queries sent whose completion has not yet run. */
    ghost var pending: seq<string>

    ghost predicate Valid()
      reads this
    {
      |pending| <= 1 && (inProgress <==> |pending| == 1)
    }

    constructor (value: string)
      ensures this.value == value && pvalue == None && !inProgress && pending == []
      ensures Valid()
    {
      this.value := value;
      pvalue := None;
      inProgress := false;
      pending := [];
    }

    /** The request's completion, holding the query it was sent with:
        `_pvalue` becomes that query, whatever the input holds now, and the
        input is free again. */
    method Complete(query: string)
      requires Valid() && pending == [query]
      modifies this
      ensures pvalue == Some(query) && !inProgress && pending == []
      ensures value == old(value)
      ensures Valid()
    {
      pvalue := Some(query);
      inProgress := false;
      pending := [];
    }
  }

  /** The parameters of the search request. */
  function SearchParams(q: string): (params: map<string, string>)
    ensures params.Keys == {"screen", "ajax", ScreenId + "_q"}
    ensures params["screen"] == ScreenId && params["ajax"] == "1" && params[ScreenId + "_q"] == q
  {
    map["screen" := ScreenId, "ajax" := "1", ScreenId + "_q" := q]
  }

  /** `js_admin_epm_available_update(pe)`: the request sent, if any. Nothing
      happens without the input; an absent or empty `_pvalue` becomes the
      empty string; nothing is sent while the value equals it or while a
      request is in flight; otherwise the input is marked busy and the
      current value is sent. */
  method Update(input: SearchInput?) returns (sent: Option<map<string, string>>)
    requires input != null ==> input.Valid()
    modifies input
    ensures input == null ==> sent == None
    ensures input != null ==> input.Valid() && input.value == old(input.value)
    ensures input != null ==>
              input.pvalue == (if old(input.pvalue) == None || old(input.pvalue) == Some("") then Some("") else old(input.pvalue))
    ensures input != null && (input.value == input.pvalue.value || old(input.inProgress)) ==>
              sent == None && input.inProgress == old(input.inProgress) && input.pending == old(input.pending)
    ensures input != null && input.value != input.pvalue.value && !old(input.inProgress) ==>
              && sent == Some(SearchParams(input.value))
              && input.inProgress
              && input.pending == [input.value]
  {
    if input == null {
      return None;
    }
    if input.pvalue == None || input.pvalue == Some("") {
      input.pvalue := Some("");
    }
    if input.value == input.pvalue.value {
      return None;
    }
    if input.inProgress {
      return None;
    }
    input.inProgress := true;
    var qvalue := input.value;
    input.pending := input.pending + [qvalue];
    sent := Some(SearchParams(qvalue));
  }
}
