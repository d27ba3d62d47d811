/** The registry of checks a submit button runs before it is allowed to
    submit: each button id has a list of callbacks, run in registration
    order; pushing the button is allowed only when all of them agree, and
    the first refusal stops the rest from running. */
module ButtonPushed {

  /** A registered callback, named by a handle; what it answers when called
      is given to `Pushed` from outside. */
  type Callback = nat

  /** The longest prefix of `cbs` whose callbacks all answer true. */
  function Approving(cbs: seq<Callback>, answer: Callback -> bool): (n: nat)
    ensures n <= |cbs|
    ensures forall k :: 0 <= k < n ==> answer(cbs[k])
    ensures n < |cbs| ==> !answer(cbs[n])
    decreases |cbs|
  {
    if |cbs| == 0 || !answer(cbs[0]) then 0 else 1 + Approving(cbs[1..], answer)
  }

  class Registry {
    /** `epjs_button_code`: the callbacks of each button id. */
    var code: map<string, seq<Callback>>

    constructor ()
      ensures code == map[]
    {
      code := map[];
    }

    /** `EPJS_register_button_code(buttonid, coderef)`: the first registration
        creates the button's list; every registration appends to it. */
    method Register(buttonid: string, cb: Callback)
      modifies this
      ensures buttonid in code && code[buttonid] == (if buttonid in old(code) then old(code)[buttonid] else []) + [cb]
      ensures forall b :: b in old(code) && b != buttonid ==> b in code && code[b] == old(code)[b]
      ensures code.Keys == old(code).Keys + {buttonid}
    {
      if buttonid !in code {
        code := code[buttonid := []];
      }
      code := code[buttonid := code[buttonid] + [cb]];
    }

    /** `EPJS_button_pushed(buttonid)`: whether the push may go ahead, and the
        callbacks called, in order. A button nobody registered for is
        allowed. Otherwise the callbacks run until one refuses (`ok && …`
        does not call the rest), and the push is allowed only if none did. */
    method Pushed(buttonid: string, answer: Callback -> bool) returns (ok: bool, invoked: seq<Callback>)
      ensures buttonid !in code ==> ok && invoked == []
      ensures buttonid in code ==>
                var cbs := code[buttonid];
                && (ok <==> forall k :: 0 <= k < |cbs| ==> answer(cbs[k]))
                && invoked == cbs[..if ok then |cbs| else Approving(cbs, answer) + 1]
    {
      if buttonid !in code {
        return true, [];
      }
      var cbs := code[buttonid];
      ok := true;
      invoked := [];
      for i := 0 to |cbs|
        invariant ok <==> forall k :: 0 <= k < i ==> answer(cbs[k])
        invariant invoked == cbs[..if ok then i else Approving(cbs, answer) + 1]
      {
        if ok {
          invoked := invoked + [cbs[i]];
          ok := answer(cbs[i]);
        }
      }
    }
  }
}
