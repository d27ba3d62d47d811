/** The file upload method: the form's action URL gets a `progress_id`
    parameter while the file is posted into a hidden frame, and a poller
    shows the server's `{received, size}` report as a percentage and as the
    offset of a 200-pixel progress bar image. */
module UploadMethodFile {
  import opened Wrappers
  import opened Text

  /** `s.split(sep, 2)`: at most the first two pieces. */
  function SplitTwo(s: string, sep: char): (parts: seq<string>)
    ensures 1 <= |parts| <= 2
  {
    var all := Split(s, sep);
    if |all| <= 2 then all else all[..2]
  }

  /** `?` when the address has no query yet, `&` otherwise. */
  function QuerySeparator(path: string): char
  {
    if '?' in path then '&' else '?'
  }

  /** The address part with the progress parameter appended. */
  function WithProgressId(path: string, uuid: string): string
  {
    path + [QuerySeparator(path)] + "progress_id=" + uuid
  }

  /** The rewritten form action: `progress_id=<uuid>` appended to the part
      before the first `#`, then the pieces rejoined with `#`. */
  function RewriteAction(action: string, uuid: string): string
  {
    var parts := SplitTwo(action, '#');
    WithProgressId(parts[0], uuid) + (if |parts| == 1 then [] else ['#'] + parts[1])
  }

  /** An action without a fragment gets the parameter at its end. */
  lemma RewriteWithoutFragment(action: string, uuid: string)
    requires '#' !in action
    ensures RewriteAction(action, uuid) == WithProgressId(action, uuid)
  {
    SplitWithoutSeparator(action, '#');
  }

  /** The parameter goes right before the fragment, which is kept. */
  lemma RewriteKeepsFragment(path: string, fragment: string, uuid: string)
    requires '#' !in path && '#' !in fragment
    ensures RewriteAction(path + ['#'] + fragment, uuid) == WithProgressId(path, uuid) + ['#'] + fragment
  {
    SplitAfterPiece(path, '#', fragment);
    SplitWithoutSeparator(fragment, '#');
  }

  /** The first two pieces of an action with two `#`s. */
  lemma SplitTwoOfTwoHashes(path: string, fragment: string, tail: string)
    requires '#' !in path && '#' !in fragment
    ensures SplitTwo(path + ['#'] + fragment + ['#'] + tail, '#') == [path, fragment]
  {
    var action := path + ['#'] + fragment + ['#'] + tail;
    assert action == path + ['#'] + (fragment + ['#'] + tail);
    SplitAfterPiece(path, '#', fragment + ['#'] + tail);
    SplitAfterPiece(fragment, '#', tail);
    var all := Split(action, '#');
    assert all == [path] + ([fragment] + Split(tail, '#'));
    assert all[..2] == [path, fragment];
  }

  /** An action whose first two pieces are known is rewritten from them. */
  lemma RewriteOfTwoPieces(action: string, path: string, fragment: string, uuid: string)
    requires SplitTwo(action, '#') == [path, fragment]
    ensures RewriteAction(action, uuid) == WithProgressId(path, uuid) + ['#'] + fragment
  {
    var w := WithProgressId(path, uuid);
    assert RewriteAction(action, uuid) == w + (['#'] + fragment);
  }

  /** A second `#` and everything after it are dropped. */
  lemma RewriteDropsAfterSecondHash(path: string, fragment: string, tail: string, uuid: string)
    requires '#' !in path && '#' !in fragment
    ensures RewriteAction(path + ['#'] + fragment + ['#'] + tail, uuid)
            == WithProgressId(path, uuid) + ['#'] + fragment
  {
    SplitTwoOfTwoHashes(path, fragment, tail);
    RewriteOfTwoPieces(path + ['#'] + fragment + ['#'] + tail, path, fragment, uuid);
  }

  /** The address is kept, followed by `?` exactly when it has no query yet
      (`&` otherwise) and then `progress_id=<uuid>`. */
  lemma SeparatorChoice(path: string, uuid: string)
    ensures var r := WithProgressId(path, uuid);
            && r[..|path|] == path
            && (r[|path|] == '?' <==> '?' !in path)
            && (r[|path|] == '&' <==> '?' in path)
            && r[|path| + 1..] == "progress_id=" + uuid
  {
  }

  /** The frame the form is posted into. */
  function IframeName(uuid: string): string
  {
    uuid + "_iframe"
  }

  /** What the hidden submit button sends: the chosen file and the form's
      target, action and extra inputs at the moment of the click. */
  datatype Submission = Submission(file: string, target: Option<string>, action: string, inputs: seq<(string, string)>)

  /** The upload form: the value of its file input, its `target` and
      `action` attributes and the hidden inputs appended to it. */
  class UploadForm {
    var file: string
    var target: Option<string>
    var action: string
    var inputs: seq<(string, string)>

    constructor (file: string, target: Option<string>, action: string, inputs: seq<(string, string)>)
      ensures this.file == file && this.target == target && this.action == action && this.inputs == inputs
    {
      this.file := file;
      this.target := target;
      this.action := action;
      this.inputs := inputs;
    }

    /** `UploadMethod_file_change` as written: the form is pointed at the
        hidden frame, given the progress id and the `component` input,
        submitted, and then put back; the file input is cleared, and the
        target attribute is removed rather than set back to the value
        saved beforehand. */
    method FileChangeAsWritten(uuid: string, component: string) returns (sent: Submission)
      modifies this
      ensures sent == Submission(old(file), Some(IframeName(uuid)), RewriteAction(old(action), uuid),
                                 old(inputs) + [("component", component)])
      ensures file == "" && target == None && action == old(action) && inputs == old(inputs)
    {
      var origAction := action;
      target := Some(IframeName(uuid));
      action := RewriteAction(action, uuid);
      inputs := inputs + [("component", component)];
      sent := Submission(file, target, action, inputs);
      file := "";
      target := None;
      action := origAction;
      inputs := inputs[..|inputs| - 1];
    }

    /** The same with the saved target put back: the file input is cleared
        and the form's target, action and inputs are left as they were found. */
    method FileChange(uuid: string, component: string) returns (sent: Submission)
      modifies this
      ensures sent == Submission(old(file), Some(IframeName(uuid)), RewriteAction(old(action), uuid),
                                 old(inputs) + [("component", component)])
      ensures file == "" && target == old(target) && action == old(action) && inputs == old(inputs)
    {
      var origTarget := target;
      var origAction := action;
      target := Some(IframeName(uuid));
      action := RewriteAction(action, uuid);
      inputs := inputs + [("component", component)];
      sent := Submission(file, target, action, inputs);
      file := "";
      target := origTarget;
      action := origAction;
      inputs := inputs[..|inputs| - 1];
    }
  }

  /** A form whose target was `_blank` loses that target after an upload. */
  method TargetLostExample() returns (before: Option<string>, after: Option<string>)
    ensures before == Some("_blank") && after == None
  {
    var form := new UploadForm("thesis.pdf", Some("_blank"), "/cgi/users/home", []);
    before := form.target;
    var _ := form.FileChangeAsWritten("0F3A", "Documents");
    after := form.target;
  }

  /** The corrected upload keeps a `_blank` target. */
  method TargetKeptExample() returns (before: Option<string>, after: Option<string>)
    ensures before == Some("_blank") && after == before
  {
    var form := new UploadForm("thesis.pdf", Some("_blank"), "/cgi/users/home", []);
    before := form.target;
    var _ := form.FileChange("0F3A", "Documents");
    after := form.target;
  }

  /** The report of the upload-progress request. */
  datatype Report = Report(received: nat, size: nat)

  /** `Math.floor(received / size * 100)` for a non-zero size, taking the
      division exactly. */
  function Percent(received: nat, size: nat): (p: int)
    requires size > 0
    ensures p * size <= 100 * received < (p + 1) * size
  {
    (100 * received) / size
  }

  /** `Math.floor(received / size * 200 - 200)`: the bar image's offset. */
  function Offset(received: nat, size: nat): (o: int)
    requires size > 0
    ensures (o + 200) * size <= 200 * received < (o + 201) * size
  {
    (200 * received) / size - 200
  }

  /** How a floored ratio is written: a zero size makes the quotient `NaN`
      (0/0) or `Infinity`, and those are what is shown. */
  function RatioText(received: nat, size: nat, value: int): string
  {
    if size == 0 then (if received == 0 then "NaN" else "Infinity") else Decimal(value)
  }

  function PercentText(received: nat, size: nat): string
  {
    RatioText(received, size, if size == 0 then 0 else Percent(received, size))
  }

  function OffsetText(received: nat, size: nat): string
  {
    RatioText(received, size, if size == 0 then 0 else Offset(received, size))
  }

  /** The text of the info line. */
  function InfoText(report: Report, filename: string): string
  {
    PercentText(report.received, report.size) + "% " + filename + " [" + Decimal(report.size) + " bytes]"
  }

  /** The bar's style for an offset. */
  function BarStyle(baseStyle: string, offsetText: string): string
  {
    baseStyle + "background-position:" + offsetText + "px 0px;"
  }

  /** Of a complete upload nothing is missing. */
  lemma PercentBounds(received: nat, size: nat)
    requires 0 < size && received <= size
    ensures 0 <= Percent(received, size) <= 100
    ensures Percent(received, size) == 100 <==> received == size
  {
    var p := Percent(received, size);
    assert 0 * size < (p + 1) * size;
    CancelLess(0, p + 1, size);
    assert 100 * received < 101 * size;
    CancelLess(p, 101, size);
    if received == size {
      CancelLess(100, p + 1, size);
    }
  }

  /** The offset stays within the 200-pixel image and reaches 0 exactly on
      completion. */
  lemma OffsetBounds(received: nat, size: nat)
    requires 0 < size && received <= size
    ensures -200 <= Offset(received, size) <= 0
    ensures Offset(received, size) == 0 <==> received == size
  {
    var o := Offset(received, size);
    assert 0 * size < (o + 201) * size;
    CancelLess(0, o + 201, size);
    assert 200 * received < 201 * size;
    CancelLess(o + 200, 201, size);
    if received == size {
      CancelLess(200, o + 201, size);
    }
  }

  /** Cancelling a positive factor from a strict inequality. */
  lemma CancelLess(a: int, b: int, s: int)
    requires s > 0 && a * s < b * s
    ensures a < b
  {
  }

  /** The bar and the percentage agree: the offset is twice the percentage,
      less 200, up to one pixel of rounding. */
  lemma OffsetTracksPercent(received: nat, size: nat)
    requires size > 0
    ensures 2 * Percent(received, size) - 200 <= Offset(received, size) <= 2 * Percent(received, size) - 199
  {
    var p, o := Percent(received, size), Offset(received, size);
    assert (2 * p) * size <= 200 * received;
    CancelLess(2 * p, o + 201, size);
    assert 200 * received < (2 * p + 2) * size;
    CancelLess(o + 200, 2 * p + 2, size);
  }

  /** The bar never moves backwards as more bytes arrive. */
  lemma OffsetMonotone(r1: nat, r2: nat, size: nat)
    requires size > 0 && r1 <= r2
    ensures Offset(r1, size) <= Offset(r2, size)
  {
    var o1, o2 := Offset(r1, size), Offset(r2, size);
    assert (o1 + 200) * size <= 200 * r2;
    CancelLess(o1 + 200, o2 + 201, size);
  }

  /** What became of one answer to the progress request. */
  datatype PollOutcome =
    | Shown(stopped: bool)   // info and bar updated; whether the poller was stopped
    | NotJson                // not JSON: reported, and the handler then fails

  /** The progress display of one upload: the bar's style attribute, the
      info line, and whether its poller is still running. */
  class UploadProgress {
    const filename: string
    var barStyle: Option<string>
    var info: string
    var polling: bool

    constructor (filename: string)
      ensures this.filename == filename && barStyle == None && info == "" && polling
    {
      this.filename := filename;
      barStyle := None;
      info := "";
      polling := true;
    }

    /** Before each request: the bar gets the base style, at offset -200,
        only if it has no style yet. */
    method StartRequest(baseStyle: string)
      modifies this
      ensures old(barStyle) == None ==> barStyle == Some(BarStyle(baseStyle, "-200"))
      ensures old(barStyle) != None ==> barStyle == old(barStyle)
      ensures info == old(info) && polling == old(polling)
    {
      if barStyle == None {
        barStyle := Some(BarStyle(baseStyle, "-200"));
      }
    }

    /** The request's success callback. `fromPoller` tells whether the call
        came from the periodic poller (the first call does not). A missing
        report stops the poller when there is one and then fails on the
        missing fields, changing nothing else. */
    method Answered(json: Option<Report>, fromPoller: bool, baseStyle: string) returns (outcome: PollOutcome)
      modifies this
      ensures json == None ==> outcome == NotJson && barStyle == old(barStyle) && info == old(info)
      ensures json == None ==> polling == (old(polling) && !fromPoller)
      ensures json.Some? ==> outcome == Shown(fromPoller && json.value.received == json.value.size)
      ensures json.Some? ==> info == InfoText(json.value, filename)
      ensures json.Some? ==> barStyle == Some(BarStyle(baseStyle, OffsetText(json.value.received, json.value.size)))
      ensures json.Some? ==> polling == (old(polling) && !outcome.stopped)
    {
      if json == None {
        if fromPoller {
          polling := false;
        }
        return NotJson;
      }
      var r := json.value;
      info := InfoText(r, filename);
      barStyle := Some(BarStyle(baseStyle, OffsetText(r.received, r.size)));
      var stop := fromPoller && r.received == r.size;
      if stop {
        polling := false;
      }
      outcome := Shown(stop);
    }
  }

  /** JavaScript truthiness of an optional string: absent and empty are false. */
  predicate Truthy(s: Option<string>)
  {
    s.Some? && s.value != ""
  }

  /** `UploadMethod_file_stop(uuid, docid)`: the progress element, if there is
      one, has its poller stopped and is removed; a document id asks every
      documents component for a refresh of it. */
  method FileStop(progress: UploadProgress?, docid: Option<string>, instances: nat)
    returns (removed: bool, refreshes: seq<string>)
    modifies progress
    ensures removed <==> progress != null
    ensures progress != null ==> !progress.polling
    ensures progress != null ==> progress.barStyle == old(progress.barStyle) && progress.info == old(progress.info)
    ensures Truthy(docid) ==> |refreshes| == instances && forall k :: 0 <= k < |refreshes| ==> refreshes[k] == docid.value
    ensures !Truthy(docid) ==> refreshes == []
  {
    removed := false;
    if progress != null {
      progress.polling := false;
      removed := true;
    }
    refreshes := [];
    if Truthy(docid) {
      for k := 0 to instances
        invariant |refreshes| == k
        invariant forall m :: 0 <= m < k ==> refreshes[m] == docid.value
      {
        refreshes := refreshes + [docid.value];
      }
    }
  }
}
