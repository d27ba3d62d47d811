/** The set-up of a metadata field's lookup: which of the field's inputs take
    part in the lookup (their id suffixes, the "input bits") and which rows
    are prepared for it. */
module Metafield {
  import opened Wrappers
  import Text

  predicate StartsWith(s: string, prefix: string)
  {
    |prefix| <= |s| && s[..|prefix|] == prefix
  }

  /** The bit an input id contributes: the part after `basename`, when the id
      starts with `basename_`. */
  function BitOf(basename: string, id: string): (bit: Option<string>)
    ensures bit.Some? <==> StartsWith(id, basename + "_")
    ensures bit.Some? ==> basename + bit.value == id && |bit.value| > 0 && bit.value[0] == '_'
  {
    if StartsWith(id, basename + "_") then
      assert id[|basename|] == (basename + "_")[|basename|];
      assert id[..|basename|] == (basename + "_")[..|basename|];
      Some(id[|basename|..])
    else None
  }

  /** The bits of a list of input ids, in document order. */
  function InputBits(basename: string, ids: seq<string>): (bits: seq<string>)
    ensures |bits| <= |ids|
    ensures forall k :: 0 <= k < |bits| ==> |bits[k]| > 0 && bits[k][0] == '_'
  {
    if |ids| == 0 then []
    else
      var b := BitOf(basename, ids[|ids| - 1]);
      InputBits(basename, ids[..|ids| - 1]) + (if b.Some? then [b.value] else [])
  }

  /** The bits keep the document order of the inputs: the bits of two runs
      of inputs are the bits of the first followed by those of the second. */
  lemma {:induction false} InputBitsAppend(basename: string, a: seq<string>, b: seq<string>)
    ensures InputBits(basename, a + b) == InputBits(basename, a) + InputBits(basename, b)
    decreases |b|
  {
    if |b| == 0 {
      assert a + b == a;
    } else {
      var ab := a + b;
      assert ab[..|ab| - 1] == a + b[..|b| - 1];
      assert ab[|ab| - 1] == b[|b| - 1];
      InputBitsAppend(basename, a, b[..|b| - 1]);
    }
  }

  /** A bit is recorded exactly for each input whose id starts with
      `basename_`, and it is that id with `basename` taken off. */
  lemma {:induction false} InputBitsMembers(basename: string, ids: seq<string>, bit: string)
    ensures bit in InputBits(basename, ids) <==>
              exists k :: 0 <= k < |ids| && StartsWith(ids[k], basename + "_") && basename + bit == ids[k]
    decreases |ids|
  {
    if |ids| > 0 {
      var init := ids[..|ids| - 1];
      var last := ids[|ids| - 1];
      InputBitsMembers(basename, init, bit);
      var b := BitOf(basename, last);
      if bit in InputBits(basename, ids) {
        if bit in InputBits(basename, init) {
          var k :| 0 <= k < |init| && StartsWith(init[k], basename + "_") && basename + bit == init[k];
          assert ids[k] == init[k];
        } else {
          assert b.Some? && bit == b.value;
          assert ids[|ids| - 1] == last;
        }
      } else {
        forall k | 0 <= k < |ids| && StartsWith(ids[k], basename + "_")
          ensures basename + bit != ids[k]
        {
          if k < |ids| - 1 {
            assert ids[k] == init[k];
          }
        }
      }
    }
  }

  /** A row prepared for the lookup: its base name and the bits it was set
      up with. */
  datatype Row = Row(basename: string, bits: seq<string>)

  /** The base name of row `i` (counting from 1) of a multiple field. */
  function RowName(basename: string, i: nat): (name: string)
    ensures |name| > |basename| + 1 && name[..|basename| + 1] == basename + "_"
  {
    var name := basename + "_" + Text.Decimal(i);
    assert name[..|basename| + 1] == basename + "_";
    name
  }

  /** Different rows have different base names. */
  lemma RowNamesDistinct(basename: string, i: nat, j: nat)
    requires i != j
    ensures RowName(basename, i) != RowName(basename, j)
  {
    if RowName(basename, i) == RowName(basename, j) {
      var n := |basename| + 1;
      assert RowName(basename, i)[n..] == Text.Decimal(i);
      assert RowName(basename, j)[n..] == Text.Decimal(j);
      Text.DecimalInjective(i, j);
    }
  }

  /** JavaScript truthiness of an optional string option. */
  predicate Truthy(s: Option<string>)
  {
    s.Some? && s.value != ""
  }

  /** Rows `basename_1` … `basename_n`, each with its own bits. */
  function NumberedRows(basename: string, n: nat, ids: seq<string>): (rows: seq<Row>)
    ensures |rows| == n
    ensures forall k :: 0 <= k < n ==> rows[k] == Row(RowName(basename, k + 1), InputBits(RowName(basename, k + 1), ids))
  {
    if n == 0 then [] else NumberedRows(basename, n - 1, ids) + [Row(RowName(basename, n), InputBits(RowName(basename, n), ids))]
  }

  /** The rows `initialize` sets up: none without a lookup URL; rows
      `basename_1` … `basename_n` for a field with `n` spaces; otherwise one
      row named after the field itself. */
  function ExpectedRows(basename: string, lookupUrl: Option<string>, spaces: Option<nat>, ids: seq<string>): (rows: seq<Row>)
    ensures !Truthy(lookupUrl) ==> rows == []
    ensures Truthy(lookupUrl) && spaces.None? ==> rows == [Row(basename, InputBits(basename, ids))]
    ensures Truthy(lookupUrl) && spaces.Some? ==> |rows| == spaces.value
    ensures forall k :: 0 <= k < |rows| ==> rows[k].bits == InputBits(rows[k].basename, ids)
  {
    if !Truthy(lookupUrl) then []
    else if spaces.None? then [Row(basename, InputBits(basename, ids))]
    else NumberedRows(basename, spaces.value, ids)
  }

  /** The rows of a multiple field are numbered from 1 in order, and no two
      share a base name. */
  lemma MultipleRows(basename: string, lookupUrl: Option<string>, n: nat, ids: seq<string>)
    requires Truthy(lookupUrl)
    ensures forall k :: 0 <= k < n ==> ExpectedRows(basename, lookupUrl, Some(n), ids)[k].basename == RowName(basename, k + 1)
    ensures forall k, m :: 0 <= k < m < n ==>
              ExpectedRows(basename, lookupUrl, Some(n), ids)[k].basename != ExpectedRows(basename, lookupUrl, Some(n), ids)[m].basename
  {
    var rows := ExpectedRows(basename, lookupUrl, Some(n), ids);
    forall k, m | 0 <= k < m < n
      ensures rows[k].basename != rows[m].basename
    {
      RowNamesDistinct(basename, k + 1, m + 1);
    }
  }

  /** A metadata field's lookup set-up. */
  class Field {
    const prefix: string
    const name: string
    const basename: string
    /** The element the inputs are looked for in: the prefix's own element,
        or `prefix_block` when there is none. */
    const rootId: string
    const lookupUrl: Option<string>
    var lookupParams: string
    var spaces: Option<nat>
    var isMultiple: bool
    /** `input_bits`: null until the first row is set up. */
    var inputBits: Option<seq<string>>
    var rows: seq<Row>

    /** `initialize(prefix, name, opts)`. `hasPrefixElement` says whether the
        document has an element with id `prefix`; `spaces` is the value of the
        `basename_spaces` element when it exists; `inputIds` are the ids of
        the text inputs and textareas under the root, in document order. */
    constructor (prefix: string, name: string, lookupParams: Option<string>, lookupUrl: Option<string>,
                 hasPrefixElement: bool, spaces: Option<nat>, inputIds: seq<string>)
      ensures this.prefix == prefix && this.name == name && basename == prefix + "_" + name
      ensures rootId == (if hasPrefixElement then prefix else prefix + "_block")
      ensures this.lookupUrl == lookupUrl
      ensures this.lookupParams == (if lookupParams.None? then "" else lookupParams.value)
      ensures this.spaces == spaces && isMultiple == spaces.Some?
      ensures rows == ExpectedRows(basename, lookupUrl, spaces, inputIds)
      ensures inputBits == (if rows == [] then None else Some(rows[|rows| - 1].bits))
    {
      this.prefix := prefix;
      this.name := name;
      basename := prefix + "_" + name;
      rootId := if hasPrefixElement then prefix else prefix + "_block";
      this.lookupUrl := lookupUrl;
      this.lookupParams := if lookupParams.None? then "" else lookupParams.value;
      this.spaces := spaces;
      isMultiple := spaces.Some?;
      inputBits := None;
      rows := [];
      new;
      if Truthy(lookupUrl) {
        if isMultiple {
          SetUpRows(spaces.value, inputIds);
        } else {
          InitializeInputBits(basename, inputIds);
          InitializeRow(basename);
        }
      }
    }

    /** The loop of `initialize` over the spaces of a multiple field: rows
        `basename_1` … `basename_n`, each after its own bits. */
    method SetUpRows(n: nat, inputIds: seq<string>)
      requires rows == [] && inputBits == None
      modifies this`rows, this`inputBits
      ensures rows == NumberedRows(basename, n, inputIds)
      ensures inputBits == (if rows == [] then None else Some(rows[|rows| - 1].bits))
    {
      var i := 1;
      while i <= n
        invariant 1 <= i <= n + 1
        invariant rows == NumberedRows(basename, i - 1, inputIds)
        invariant inputBits == (if rows == [] then None else Some(rows[|rows| - 1].bits))
      {
        var rowName := RowName(basename, i);
        InitializeInputBits(rowName, inputIds);
        InitializeRow(rowName);
        i := i + 1;
      }
    }

    /** `initialize_input_bits(basename)`: resets `input_bits`, then records
        the bit of each input in turn. */
    method InitializeInputBits(basename: string, inputIds: seq<string>)
      modifies this`inputBits
      ensures inputBits == Some(InputBits(basename, inputIds))
    {
      var bits: seq<string> := [];
      for i := 0 to |inputIds|
        invariant bits == InputBits(basename, inputIds[..i])
      {
        assert inputIds[..i + 1][..i] == inputIds[..i];
        var b := BitOf(basename, inputIds[i]);
        if b.Some? && |b.value| > 0 {
          bits := bits + [b.value];
        }
      }
      assert inputIds[..|inputIds|] == inputIds;
      inputBits := Some(bits);
    }

    /** `initialize_row(basename)`, as far as this model follows it: the row
        is set up with the current bits. */
    method InitializeRow(basename: string)
      requires inputBits.Some?
      modifies this`rows
      ensures rows == old(rows) + [Row(basename, inputBits.value)]
    {
      rows := rows + [Row(basename, inputBits.value)];
    }
  }
}
