/** `Component_Field`: a component of the submission form whose buttons post
    internal actions back to the server, possibly through a modal box. The
    model covers the request parameters each kind of action sends, the
    action-name scheme, the wiring of the modal box's action elements, and
    the registry of client-side action handlers. Form serialisation is an
    input (`serialized`); numbers sent as parameters are written as text. */
module ComponentField {
  import opened Wrappers

  /** A client-side handler, named by a handle. */
  type Handler = nat

  /** The internal action name: `_internal_<prefix>_<action>`, followed by
      `_<param>` when a parameter is given. */
  function ActionName(prefix: string, action: string, param: Option<string>): (r: string)
    ensures |r| >= 10 && r[..10] == "_internal_"
  {
    "_internal_" + prefix + "_" + action + (if param.Some? then "_" + param.value else "")
  }

  /** With the prefix and action fixed, the name tells the parameter apart:
      no parameter and each parameter give different names. */
  lemma ActionNameDistinguishesParam(prefix: string, action: string, p: Option<string>, q: Option<string>)
    requires p != q
    ensures ActionName(prefix, action, p) != ActionName(prefix, action, q)
  {
    var base := "_internal_" + prefix + "_" + action;
    if p.Some? && q.Some? {
      assert ActionName(prefix, action, p)[|base| + 1..] == p.value;
      assert ActionName(prefix, action, q)[|base| + 1..] == q.value;
    }
  }

  /** How `initialize_modal_action` wires an element of the modal box: the
      event it listens to, the action, its parameter and the element handed
      to the action's handler. */
  datatype Wiring = Wiring(event: string, action: string, param: Option<string>, handlerElement: string)

  /** `initialize_modal_action(el)` given the element's `data-internal…`
      attributes and the ids on the page: without `data-internal` nothing is
      wired; the event defaults to `click`; the handler gets the element
      named by `data-internal-element` when that exists, else `el`. */
  function ModalActionWiring(el: string, action: Option<string>, param: Option<string>, extraElementId: Option<string>,
                             event: Option<string>, present: set<string>): (w: Option<Wiring>)
    ensures action.None? <==> w.None?
    ensures w.Some? ==> w.value.action == action.value && w.value.param == param
    ensures w.Some? ==> w.value.event == (if event.Some? then event.value else "click")
    ensures w.Some? ==> (w.value.handlerElement != el ==> extraElementId.Some? && w.value.handlerElement == extraElementId.value)
    ensures w.Some? && extraElementId.Some? && extraElementId.value in present ==> w.value.handlerElement == extraElementId.value
    ensures w.Some? && (extraElementId.None? || extraElementId.value !in present) ==> w.value.handlerElement == el
  {
    var ievent := if event.None? then "click" else event.value;
    if action.None? then None
    else
      var extra := if extraElementId.Some? && extraElementId.value in present then extraElementId else None;
      Some(Wiring(ievent, action.value, param, if extra.Some? then extra.value else el))
  }

  /** The table of action handlers. `handlers: []` sits on the class's
      prototype, so one table is shared by every field on the page. */
  class HandlerTable {
    var handlers: map<string, Handler>

    constructor ()
      ensures handlers == map[]
    {
      handlers := map[];
    }
  }

  class Field {
    const prefix: string
    /** `handlers`: the prototype's table, shared with every other field. */
    const table: HandlerTable

    /** `initialize(prefix)`: the field keeps its prefix and uses the shared
        table as it finds it. */
    constructor (prefix: string, table: HandlerTable)
      ensures this.prefix == prefix && this.table == table
    {
      this.prefix := prefix;
      this.table := table;
    }

    /** `get_params(form)`: the serialised form with `component` set to the
        prefix and `<prefix>_export` set to 1, whatever the form held. */
    method GetParams(serialized: map<string, string>) returns (params: map<string, string>)
      ensures params.Keys == serialized.Keys + {"component", prefix + "_export"}
      ensures params[prefix + "_export"] == "1"
      ensures prefix + "_export" != "component" ==> params["component"] == prefix
      ensures forall k :: k in serialized && k != "component" && k != prefix + "_export" ==> params[k] == serialized[k]
    {
      params := serialized;
      params := params["component" := prefix];
      params := params[prefix + "_export" := "1"];
    }

    /** `internal(e, input)`: the component's parameters with the input's
        name set to 1. */
    method Internal(serialized: map<string, string>, inputName: string) returns (params: map<string, string>)
      ensures params.Keys == serialized.Keys + {"component", prefix + "_export", inputName}
      ensures params[inputName] == "1" && params[prefix + "_export"] == "1"
      ensures inputName != "component" && prefix + "_export" != "component" ==> params["component"] == prefix
      ensures forall k :: k in serialized && k !in {"component", prefix + "_export", inputName} ==> params[k] == serialized[k]
    {
      params := GetParams(serialized);
      params := params[inputName := "1"];
    }

    /** `reload_component()`: an internal request for `_action_null`. */
    method ReloadComponent(serialized: map<string, string>) returns (params: map<string, string>)
      ensures params.Keys == serialized.Keys + {"component", prefix + "_export", "_action_null"}
      ensures params["_action_null"] == "1" && params[prefix + "_export"] == "1"
      ensures prefix + "_export" != "component" ==> params["component"] == prefix
      ensures forall k :: k in serialized && k !in {"component", prefix + "_export", "_action_null"} ==> params[k] == serialized[k]
    {
      params := Internal(serialized, "_action_null");
    }

    /** `save()`: an internal request for `_internal_save`. */
    method Save(serialized: map<string, string>) returns (params: map<string, string>)
      ensures params.Keys == serialized.Keys + {"component", prefix + "_export", "_internal_save"}
      ensures params["_internal_save"] == "1" && params[prefix + "_export"] == "1"
      ensures prefix + "_export" != "component" ==> params["component"] == prefix
      ensures forall k :: k in serialized && k !in {"component", prefix + "_export", "_internal_save"} ==> params[k] == serialized[k]
    {
      params := Internal(serialized, "_internal_save");
    }

    /** `registerActionHandler(action, handler)`: only a present action and
        handler are stored, replacing any earlier handler of the action. */
    method RegisterActionHandler(action: Option<string>, handler: Option<Handler>)
      modifies table
      ensures action.Some? && handler.Some? ==> table.handlers == old(table.handlers)[action.value := handler.value]
      ensures action.None? || handler.None? ==> table.handlers == old(table.handlers)
    {
      if action.Some? && handler.Some? {
        table.handlers := table.handlers[action.value := handler.value];
      }
    }

    /** `callActionHandler(action, el)`: the handler called, with the element
        it is given, if the action has one. */
    method CallActionHandler(action: string, el: string) returns (call: Option<(Handler, string)>)
      ensures action in table.handlers <==> call.Some?
      ensures call.Some? ==> call.value == (table.handlers[action], el)
    {
      if action in table.handlers {
        call := Some((table.handlers[action], el));
      } else {
        call := None;
      }
    }

    /** `modal_internal(event, el, action, param, element)`: the parameters
        of the request (the component's, plus the action name, `modal` and
        `export`, all 1) and the handler called with `element`, or `el` when
        no element is given. */
    method ModalInternal(serialized: map<string, string>, el: string, action: string, param: Option<string>,
                         actionElement: Option<string>)
      returns (params: map<string, string>, call: Option<(Handler, string)>)
      ensures var name := ActionName(prefix, action, param);
              && params.Keys == serialized.Keys + {"component", prefix + "_export", name, "modal", "export"}
              && params[name] == "1" && params["modal"] == "1" && params["export"] == "1"
              && params[prefix + "_export"] == "1"
              && (prefix + "_export" != "component" ==> params["component"] == prefix)
              && (forall k :: k in serialized && k !in {"component", prefix + "_export", name, "modal", "export"} ==> params[k] == serialized[k])
      ensures action in table.handlers <==> call.Some?
      ensures call.Some? ==> call.value == (table.handlers[action], if actionElement.Some? then actionElement.value else el)
    {
      var name := ActionName(prefix, action, param);
      assert name != "component" && name != "modal" && name != "export" by {
        assert name[..10] == "_internal_";
        assert name[0] == '_' && "component"[0] != '_' && "modal"[0] != '_' && "export"[0] != '_';
      }
      params := GetParams(serialized);
      params := params[name := "1"];
      params := params["modal" := "1"];
      params := params["export" := "1"];
      var target := if actionElement.None? then el else actionElement.value;
      call := CallActionHandler(action, target);
    }
  }

  /** Because the table is shared, a handler registered through one field is
      called when another field performs that action. */
  method SharedHandlerExample(h: Handler) returns (call: Option<(Handler, string)>)
    ensures call == Some((h, "el"))
  {
    var table := new HandlerTable();
    var first := new Field("c1", table);
    var second := new Field("c2", table);
    first.RegisterActionHandler(Some("save"), Some(h));
    call := second.CallActionHandler("save", "el");
  }
}
