/** The logic the two device drivers share line for line: resolving a write's
    parameters and a read's opcode through the registry, and mapping a
    received payload back to a named value. */
module Commands {
  import opened Base
  import opened Text
  import opened Bytes
  import opened Registry

  /** The driver options that matter to the codec: the default write and read
      durations in milliseconds. */
  datatype Options = Options(wDuration: nat, rDuration: nat)

  /** Both drivers default the durations to 1000 ms. */
  const DefaultOptions := Options(1000, 1000)

  /** An encoded frame and how long to wait after sending it. A duration of
      `None` is the NaN that `Number` gives for a non-numeric override. */
  datatype Encoded = Encoded(frame: seq<byte>, duration: Option<nat>)

  /** The command object `encode` returns: the driver's name, the command
      text, and the encoding when there is one. */
  datatype CommandObject = CommandObject(name: string, command: string, encoded: Option<Encoded>)

  /** What `encode` yields: a special command handed to the base driver, no
      object at all when the scanner finds nothing, or a command object. */
  datatype Encoding = Special | Unparsed | Parsed(obj: CommandObject)

  /** A duration override: a truthy attribute is read by `Number`, an absent
      or empty one leaves the default. */
  function Duration(dur: string, default: nat): (r: Option<nat>)
    ensures dur == "" ==> r == Some(default)
    ensures dur != "" ==> (r.None? <==> !AllDigits(Trim(dur)))
    ensures dur != "" && r.Some? ==> r.value == DecimalValue(Trim(dur))
  {
    if dur != "" then JsNumber(dur) else Some(default)
  }

  /** What a write or read resolves to before framing: opcode, parameter
      numbers (untruncated) and duration. */
  datatype Plan = Plan(code: nat, params: seq<nat>, duration: Option<nat>)

  /** The items a value def offers to lookups: only an array of items takes
      part (`Array.isArray(sel)`). */
  function ListItems(d: ValueDef): seq<Item>
  {
    if d.item.ItemList? then d.item.items else []
  }

  /** Item `j` is the first whose aliases contain the parameter. */
  ghost predicate FirstAlias(items: seq<Item>, p: string, j: nat)
  {
    j < |items| && AliasMatches(items[j], p) && forall i :: 0 <= i < j ==> !AliasMatches(items[i], p)
  }

  /** A non-numeric parameter can be looked up only when there is a value def
      at its position; otherwise the source dereferences `undefined`. */
  predicate ParamDefined(defs: seq<Option<ValueDef>>, params: seq<string>, ind: nat)
    requires ind < |params|
  {
    JsNumber(params[ind]).Some? || (ind < |defs| && defs[ind].Some?)
  }

  /** The number parameter `ind` of a registered write resolves to: the
      parameter itself when numeric, else the value of the first item one of
      whose aliases it names, else nothing. */
  function ParamValue(defs: seq<Option<ValueDef>>, params: seq<string>, ind: nat): (r: Option<nat>)
    requires ind < |params| && ParamDefined(defs, params, ind)
    ensures JsNumber(params[ind]).Some? ==> r == JsNumber(params[ind])
    ensures JsNumber(params[ind]).None? ==>
      var items := ListItems(defs[ind].value);
      && (forall j: nat :: FirstAlias(items, params[ind], j) ==> r == AttrNumber(items[j].value))
      && ((forall j :: 0 <= j < |items| ==> !AliasMatches(items[j], params[ind])) ==> r.None?)
  {
    var n := JsNumber(params[ind]);
    if n.Some? then n
    else
      var items := ListItems(defs[ind].value);
      var j := FindItemByAlias(items, params[ind]);
      FirstAliasFound(items, params[ind]);
      if j.Some? then AttrNumber(items[j.value].value) else None
  }

  /** The search finds exactly the first item with the alias. */
  lemma FirstAliasFound(items: seq<Item>, p: string)
    ensures forall j: nat :: FirstAlias(items, p, j) ==> FindItemByAlias(items, p) == Some(j)
  {
    forall j: nat | FirstAlias(items, p, j) ensures FindItemByAlias(items, p) == Some(j) {
    }
  }

  /** Every element present. */
  predicate AllSome(s: seq<Option<nat>>)
  {
    forall k :: 0 <= k < |s| ==> s[k].Some?
  }

  function Unwrap(s: seq<Option<nat>>): (r: seq<nat>)
    requires AllSome(s)
    ensures |r| == |s| && forall k :: 0 <= k < |s| ==> Some(r[k]) == s[k]
  {
    seq(|s|, k requires 0 <= k < |s| => s[k].value)
  }

  /** A write's inputs are free of the source's TypeError: when the named
      entry exists and allows writing, every non-numeric parameter has a value
      def at its position. */
  predicate WriteDefined(reg: Registry, name: string, params: seq<string>)
  {
    var found := FindByName(reg, name);
    found.Some? && 'w' in reg[found.value].mode ==>
      forall ind :: 0 <= ind < |params| ==> ParamDefined(DefArr(reg[found.value].value), params, ind)
  }

  /** `setCommand` up to the framing: a registered command must allow writing
      and gives the opcode, the parameters (numbers or aliases) and the
      duration override; an unregistered name must itself be numeric, as must
      its parameters. Any non-numeric part makes the whole write fail. */
  function WritePlan(reg: Registry, default: nat, name: string, params: seq<string>): (r: Option<Plan>)
    requires WriteDefined(reg, name, params)
    ensures r.Some? ==> |r.value.params| == |params|
    ensures FindByName(reg, name).Some? ==>
      var c := reg[FindByName(reg, name).value];
      var defs := DefArr(c.value);
      && ('w' !in c.mode ==> r.None?)
      && ('w' in c.mode ==>
            (r.Some? <==> AttrNumber(c.code).Some? && forall k :: 0 <= k < |params| ==> ParamValue(defs, params, k).Some?))
      && (r.Some? ==>
            && r.value.code == AttrNumber(c.code).value
            && (forall k :: 0 <= k < |params| ==> Some(r.value.params[k]) == ParamValue(defs, params, k))
            && r.value.duration == Duration(c.wDuration, default))
    ensures FindByName(reg, name).None? ==>
      && (r.Some? <==> JsNumber(name).Some? && forall k :: 0 <= k < |params| ==> JsNumber(params[k]).Some?)
      && (r.Some? ==>
            && r.value.code == JsNumber(name).value
            && (forall k :: 0 <= k < |params| ==> Some(r.value.params[k]) == JsNumber(params[k]))
            && r.value.duration == Some(default))
  {
    match FindByName(reg, name)
    case Some(k) =>
      var c := reg[k];
      if 'w' !in c.mode then None
      else
        var defs := DefArr(c.value);
        var vals := seq(|params|, ind requires 0 <= ind < |params| => ParamValue(defs, params, ind));
        assert forall ind :: 0 <= ind < |params| ==> vals[ind] == ParamValue(defs, params, ind);
        Planned(AttrNumber(c.code), vals, Duration(c.wDuration, default))
    case None =>
      var vals := seq(|params|, ind requires 0 <= ind < |params| => JsNumber(params[ind]));
      assert forall ind :: 0 <= ind < |params| ==> vals[ind] == JsNumber(params[ind]);
      Planned(JsNumber(name), vals, Some(default))
  }

  /** The checks `isNaN(code)` and `params.some(isNaN or undefined)`: a plan
      exactly when the opcode and every parameter are numbers. */
  function Planned(code: Option<nat>, vals: seq<Option<nat>>, duration: Option<nat>): (r: Option<Plan>)
    ensures r.Some? <==> code.Some? && forall k :: 0 <= k < |vals| ==> vals[k].Some?
    ensures r.Some? ==> && r.value.code == code.value && r.value.duration == duration
                        && |r.value.params| == |vals|
                        && forall k :: 0 <= k < |vals| ==> Some(r.value.params[k]) == vals[k]
  {
    if code.None? || !AllSome(vals) then None
    else Some(Plan(code.value, Unwrap(vals), duration))
  }

  /** `getCommand` up to the framing: the mode is never consulted; the
      registered opcode, or the name read as a number, and the read duration
      override. */
  function ReadPlan(reg: Registry, default: nat, name: string): (r: Option<Plan>)
    ensures r.Some? ==> r.value.params == []
    ensures FindByName(reg, name).Some? ==>
      var c := reg[FindByName(reg, name).value];
      && (r.Some? <==> AttrNumber(c.code).Some?)
      && (r.Some? ==> r.value.code == AttrNumber(c.code).value && r.value.duration == Duration(c.rDuration, default))
    ensures FindByName(reg, name).None? ==>
      && (r.Some? <==> JsNumber(name).Some?)
      && (r.Some? ==> r.value.code == JsNumber(name).value && r.value.duration == Some(default))
  {
    match FindByName(reg, name)
    case Some(k) =>
      var code := AttrNumber(reg[k].code);
      if code.None? then None else Some(Plan(code.value, [], Duration(reg[k].rDuration, default)))
    case None =>
      var code := JsNumber(name);
      if code.None? then None else Some(Plan(code.value, [], Some(default)))
  }

  /** A registered command whose mode lacks 'w' is never written, whatever
      the parameters; the same name can still be read. */
  lemma ReadIgnoresMode(reg: Registry, d: nat, name: string, params: seq<string>)
    requires FindByName(reg, name).Some?
    requires AttrNumber(reg[FindByName(reg, name).value].code).Some?
    requires 'w' !in reg[FindByName(reg, name).value].mode
    ensures WriteDefined(reg, name, params) && WritePlan(reg, d, name, params).None?
    ensures ReadPlan(reg, d, name).Some?
  {
  }

  /** `Number("")` is 0, so a value written with no parameter text sends one
      0x00 parameter: the empty parameter is numeric and resolves to 0. */
  lemma EmptyParameterIsZero(defs: seq<Option<ValueDef>>)
    ensures ParamDefined(defs, [""], 0) && ParamValue(defs, [""], 0) == Some(0)
  {
    assert TrimLeft("") == "";
  }

  // ---------------------------------------------------------------- decoding

  datatype Status = OK | ERR

  /** The `req` of a response: the opcode byte of an unregistered reply, the
      command name of a registered one, or `undefined` when the buffer is too
      short to hold an opcode. */
  datatype Req = NoReq | Code(code: byte) | Name(name: string)

  /** One field of a multi-value response: the byte or its alias. */
  datatype Field = FieldNum(n: byte) | FieldStr(s: string)

  /** The `value` of a response. */
  datatype Value = Num(n: byte) | Arr(bytes: seq<byte>) | Str(s: string) | Obj(fields: map<string, Field>)

  datatype Reading = Reading(req: Req, value: Value)

  /** The result `decode` returns and emits: the driver's name, the buffer as
      received, the acknowledgement status where the protocol has one, and
      the request and value. */
  datatype Response = Response(name: string, raw: seq<byte>, status: Option<Status>, req: Req, value: Value)

  /** An unregistered reply shows its payload: one byte as a number, any other
      length as the byte array. */
  function RawValue(payload: seq<byte>): (v: Value)
    ensures |payload| == 1 <==> v.Num?
    ensures v.Num? ==> v.n == payload[0]
    ensures v.Arr? ==> v.bytes == payload
  {
    if |payload| == 1 then Num(payload[0]) else Arr(payload)
  }

  /** Item `j` is the first whose value reads as the byte. */
  ghost predicate FirstValue(items: seq<Item>, v: byte, j: nat)
  {
    j < |items| && ValueMatches(items[j], v) && forall i :: 0 <= i < j ==> !ValueMatches(items[i], v)
  }

  /** The alias a byte is shown as: the first alias of the first item whose
      value reads as the byte, and none when no item's value does. */
  function AliasOf(items: seq<Item>, v: byte): (a: Option<string>)
    ensures forall j: nat :: FirstValue(items, v, j) ==> a == Some(CanonicalAlias(items[j]))
    ensures (forall j :: 0 <= j < |items| ==> !ValueMatches(items[j], v)) ==> a.None?
  {
    FirstValueFound(items, v);
    match FindItemByValue(items, v)
    case Some(j) => Some(CanonicalAlias(items[j]))
    case None => None
  }

  /** The search finds exactly the first item with the value. */
  lemma FirstValueFound(items: seq<Item>, v: byte)
    ensures forall j: nat :: FirstValue(items, v, j) ==> FindItemByValue(items, v) == Some(j)
  {
    forall j: nat | FirstValue(items, v, j) ensures FindItemByValue(items, v) == Some(j) {
    }
  }

  /** Single-value mapping: the byte, or its alias when the def lists items. */
  function SingleValue(d: Option<ValueDef>, v: byte): (r: Value)
    requires d.Some? ==> !d.value.item.OneItem?
    ensures r.Num? || r.Str?
    ensures r.Num? ==> r.n == v
    ensures r.Str? <==> d.Some? && d.value.item.ItemList? && AliasOf(d.value.item.items, v).Some?
    ensures r.Str? ==> Some(r.s) == AliasOf(d.value.item.items, v)
  {
    if d.Some? && d.value.item.ItemList? then
      match AliasOf(d.value.item.items, v)
      case Some(a) => Str(a)
      case None => Num(v)
    else Num(v)
  }

  /** The key of field `ind`: the def's name, or the index as text. */
  function Key(d: ValueDef, ind: nat): string
  {
    if d.name != "" then d.name else NatToString(ind)
  }

  /** The field shown for one byte: the alias when the def has an item array
      with a matching value, else the byte. */
  function FieldOf(d: ValueDef, v: byte): Field
  {
    match AliasOf(ListItems(d), v)
    case Some(a) => FieldStr(a)
    case None => FieldNum(v)
  }

  /** The keys the defs give their fields, in order. */
  function Keys(defs: seq<ValueDef>): (ks: seq<string>)
    ensures |ks| == |defs| && forall k :: 0 <= k < |defs| ==> ks[k] == Key(defs[k], k)
  {
    seq(|defs|, k requires 0 <= k < |defs| => Key(defs[k], k))
  }

  /** The field each def shows for its byte, in order. */
  function Fields(defs: seq<ValueDef>, payload: seq<byte>): (fs: seq<Field>)
    requires |defs| == |payload|
    ensures |fs| == |defs| && forall k :: 0 <= k < |defs| ==> fs[k] == FieldOf(defs[k], payload[k])
  {
    seq(|defs|, k requires 0 <= k < |defs| => FieldOf(defs[k], payload[k]))
  }

  /** `valObj` after the first `n` assignments `valObj[keys[i]] = fields[i]`:
      a later assignment overwrites an earlier one with the same key. */
  function FieldMap(keys: seq<string>, fields: seq<Field>, n: nat): map<string, Field>
    requires n <= |keys| && n <= |fields|
  {
    if n == 0 then map[]
    else FieldMap(keys, fields, n - 1)[keys[n - 1] := fields[n - 1]]
  }

  /** The keys of `valObj` are exactly the keys assigned. */
  lemma {:induction false} FieldMapKeys(keys: seq<string>, fields: seq<Field>, n: nat)
    requires n <= |keys| && n <= |fields|
    ensures FieldMap(keys, fields, n).Keys == set k | 0 <= k < n :: keys[k]
  {
    if n > 0 {
      FieldMapKeys(keys, fields, n - 1);
      var prev := set k | 0 <= k < n - 1 :: keys[k];
      var all := set k | 0 <= k < n :: keys[k];
      assert all == prev + {keys[n - 1]} by {
        forall x | x in all ensures x in prev + {keys[n - 1]} {
          var k :| 0 <= k < n && x == keys[k];
          if k < n - 1 { assert x in prev; }
        }
      }
    }
  }

  /** A key holds what its last assignment wrote: with no later assignment to
      the same key, key `k` holds field `k`. */
  lemma {:induction false} FieldMapLast(keys: seq<string>, fields: seq<Field>, n: nat, k: nat)
    requires n <= |keys| && n <= |fields| && k < n
    requires forall i :: k < i < n ==> keys[i] != keys[k]
    ensures keys[k] in FieldMap(keys, fields, n)
    ensures FieldMap(keys, fields, n)[keys[k]] == fields[k]
  {
    if k < n - 1 {
      FieldMapLast(keys, fields, n - 1, k);
    }
  }

  /** With pairwise distinct keys, every def's key holds its own byte or alias. */
  lemma FieldMapDistinct(defs: seq<ValueDef>, payload: seq<byte>)
    requires |defs| == |payload|
    requires forall i, j :: 0 <= i < j < |defs| ==> Key(defs[i], i) != Key(defs[j], j)
    ensures forall k :: 0 <= k < |defs| ==>
      Key(defs[k], k) in FieldMap(Keys(defs), Fields(defs, payload), |defs|) &&
      FieldMap(Keys(defs), Fields(defs, payload), |defs|)[Key(defs[k], k)] == FieldOf(defs[k], payload[k])
  {
    var keys, fields := Keys(defs), Fields(defs, payload);
    forall k | 0 <= k < |defs|
      ensures Key(defs[k], k) in FieldMap(keys, fields, |defs|)
      ensures FieldMap(keys, fields, |defs|)[Key(defs[k], k)] == FieldOf(defs[k], payload[k])
    {
      FieldMapLast(keys, fields, |defs|, k);
    }
  }

  /** The entry a reply's opcode byte selects, if any. */
  function ReplyEntry(reg: Registry, rcmd: Option<byte>): (r: Option<nat>)
    ensures rcmd.None? ==> r.None?
    ensures rcmd.Some? ==> r == FindByCode(reg, rcmd.value)
    ensures r.Some? <==> rcmd.Some? && exists i :: 0 <= i < |reg| && CodeMatches(reg[i], rcmd.value)
  {
    if rcmd.Some? then FindByCode(reg, rcmd.value) else None
  }

  /** The payload can be mapped without the TypeError the source raises when a
      single def holds a single (non-array) item. */
  predicate ReadingDefined(reg: Registry, rcmd: Option<byte>, payload: seq<byte>)
  {
    var e := ReplyEntry(reg, rcmd);
    e.Some? && |payload| == 1 && |DefArr(reg[e.value].value)| == 1 && DefArr(reg[e.value].value)[0].Some? ==>
      !DefArr(reg[e.value].value)[0].value.item.OneItem?
  }

  /** The value part of `decode`, after the opcode and payload are cut out;
      the four rules it follows are the lemmas below. */
  function Interpret(reg: Registry, rcmd: Option<byte>, payload: seq<byte>): (r: Reading)
    requires ReadingDefined(reg, rcmd, payload)
    ensures r.req.NoReq? <==> rcmd.None?
    ensures r.req.Code? <==> rcmd.Some? && FindByCode(reg, rcmd.value).None?
    ensures r.req.Code? ==> rcmd == Some(r.req.code) && r.value == RawValue(payload)
    ensures r.req.Name? ==> r.req.name == reg[FindByCode(reg, rcmd.value).value].name
  {
    match ReplyEntry(reg, rcmd)
    case None => Reading(if rcmd.Some? then Code(rcmd.value) else NoReq, RawValue(payload))
    case Some(k) =>
      var c := reg[k];
      var defs := DefArr(c.value);
      var v :=
        if |payload| != |defs| then Str(AsciiText(payload))
        else if |defs| == 1 then SingleValue(defs[0], payload[0])
        else Obj(FieldMap(Keys(c.value.defs), Fields(c.value.defs, payload), |payload|));
      Reading(Name(c.name), v)
  }

  /** An unregistered opcode (or none at all) keeps the number and shows the
      raw payload. */
  lemma InterpretUnregistered(reg: Registry, rcmd: Option<byte>, payload: seq<byte>)
    requires ReplyEntry(reg, rcmd).None?
    ensures ReadingDefined(reg, rcmd, payload)
    ensures Interpret(reg, rcmd, payload) ==
      Reading(if rcmd.Some? then Code(rcmd.value) else NoReq, RawValue(payload))
  {
  }

  /** A registered reply whose payload length differs from the number of defs
      is shown as text. */
  lemma InterpretText(reg: Registry, rcmd: Option<byte>, payload: seq<byte>)
    requires ReplyEntry(reg, rcmd).Some?
    requires |payload| != |DefArr(reg[ReplyEntry(reg, rcmd).value].value)|
    ensures ReadingDefined(reg, rcmd, payload)
    ensures Interpret(reg, rcmd, payload) ==
      Reading(Name(reg[ReplyEntry(reg, rcmd).value].name), Str(AsciiText(payload)))
  {
  }

  /** A registered reply with one def and one byte shows the byte or its
      alias. */
  lemma InterpretSingle(reg: Registry, rcmd: Option<byte>, payload: seq<byte>)
    requires ReplyEntry(reg, rcmd).Some? && ReadingDefined(reg, rcmd, payload)
    requires |payload| == |DefArr(reg[ReplyEntry(reg, rcmd).value].value)| == 1
    ensures var c := reg[ReplyEntry(reg, rcmd).value];
      Interpret(reg, rcmd, payload) == Reading(Name(c.name), SingleValue(DefArr(c.value)[0], payload[0]))
  {
  }

  /** A registered reply with as many bytes as there are defs, other than one,
      shows a field per def. */
  lemma InterpretFields(reg: Registry, rcmd: Option<byte>, payload: seq<byte>)
    requires ReplyEntry(reg, rcmd).Some?
    requires |payload| == |DefArr(reg[ReplyEntry(reg, rcmd).value].value)| != 1
    ensures ReadingDefined(reg, rcmd, payload)
    ensures var c := reg[ReplyEntry(reg, rcmd).value];
      && c.value.ValueList?
      && Interpret(reg, rcmd, payload) ==
           Reading(Name(c.name), Obj(FieldMap(Keys(c.value.defs), Fields(c.value.defs, payload), |payload|)))
  {
  }

  /** One step of the `forEach`: the byte, replaced by its alias when the def
      has an item array with a matching value. */
  method ShowField(d: ValueDef, v: byte) returns (field: Field)
    ensures field == FieldOf(d, v)
  {
    field := FieldNum(v);
    if d.item.ItemList? {
      var item := FindItemByValue(d.item.items, v);
      if item.Some? {
        field := FieldStr(CanonicalAlias(d.item.items[item.value]));
      }
    }
  }

  /** The `forEach` that fills `valObj`. */
  method FillFields(defs: seq<ValueDef>, payload: seq<byte>) returns (obj: map<string, Field>)
    requires |defs| == |payload|
    ensures obj == FieldMap(Keys(defs), Fields(defs, payload), |defs|)
  {
    ghost var keys, fields := Keys(defs), Fields(defs, payload);
    obj := map[];
    for ind := 0 to |defs|
      invariant obj == FieldMap(keys, fields, ind)
    {
      var vname := Key(defs[ind], ind);
      var v := payload[ind];
      var field := ShowField(defs[ind], v);
      obj := obj[vname := field];
    }
  }

  /** The single-value branch: the byte, replaced by its alias when the def
      has items and one of them has the byte as value. */
  method ShowSingle(d: Option<ValueDef>, v: byte) returns (value: Value)
    requires d.Some? ==> !d.value.item.OneItem?
    ensures value == SingleValue(d, v)
  {
    value := Num(v);
    if d.Some? && d.value.item.ItemList? {
      var sel := d.value.item.items;
      var item := FindItemByValue(sel, v);
      if item.Some? {
        value := Str(CanonicalAlias(sel[item.value]));
      }
    }
  }

  /** The value mapping of `decode`, step by step as the source assigns
      `result['req']` and `result['value']`. */
  method MapReading(reg: Registry, rcmd: Option<byte>, payload: seq<byte>) returns (r: Reading)
    requires ReadingDefined(reg, rcmd, payload)
    ensures r == Interpret(reg, rcmd, payload)
  {
    var req := if rcmd.Some? then Code(rcmd.value) else NoReq;
    var value := RawValue(payload);
    var cmdef := ReplyEntry(reg, rcmd);
    if cmdef.None? {
      InterpretUnregistered(reg, rcmd, payload);
      return Reading(req, value);
    }
    var c := reg[cmdef.value];
    req := Name(c.name);
    var valDefArr := DefArr(c.value);
    if |payload| != |valDefArr| {
      value := Str(AsciiText(payload));
      InterpretText(reg, rcmd, payload);
    } else if |valDefArr| == 1 {
      value := ShowSingle(valDefArr[0], payload[0]);
      InterpretSingle(reg, rcmd, payload);
    } else {
      InterpretFields(reg, rcmd, payload);
      var valObj := FillFields(c.value.defs, payload);
      value := Obj(valObj);
    }
    r := Reading(req, value);
  }

  /** Alias round trip: a parameter written by alias comes back as the first
      alias of the same item, provided its value fits a byte and no earlier
      item claims the same value. */
  lemma AliasRoundTrip(items: seq<Item>, p: string, j: nat, v: byte)
    requires FindItemByAlias(items, p) == Some(j)
    requires items[j].value.Some? && JsNumber(items[j].value.value) == Some(v) && Trim(items[j].value.value) != ""
    requires forall i :: 0 <= i < j ==> !ValueMatches(items[i], v)
    ensures AliasOf(items, v) == Some(CanonicalAlias(items[j]))
  {
    ParseIntOfNumber(items[j].value.value);
    assert FirstValue(items, v, j);
  }

  /** Text round trip: a reply of 7-bit non-NUL characters whose length
      differs from the number of defs reads back as that text. */
  lemma TextRoundTrip(reg: Registry, rcmd: byte, t: string)
    requires forall k :: 0 <= k < |t| ==> '\0' < t[k] < 128 as char
    requires FindByCode(reg, rcmd).Some?
    requires |t| != |DefArr(reg[FindByCode(reg, rcmd).value].value)|
    ensures ReadingDefined(reg, Some(rcmd), AsciiBytes(t))
    ensures Interpret(reg, Some(rcmd), AsciiBytes(t)).value == Str(t)
  {
    AsciiRoundTrip(t);
  }
}
