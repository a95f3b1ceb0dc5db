/** The command registry both devices load from their XML data file, in the
    shape the XML parser gives it (attributes merged into the element, and a
    repeated child element becoming an array while a single one stays an
    object), and the lookups the codec performs on it. Every attribute is a
    string. The numeric attributes (`code`, an item's `value`) may be absent,
    which is `undefined` and reads as NaN. The durations and a value def's
    `name` only meet truth tests, where an absent one and the empty string
    are alike false, so they are strings with "" for absent. A command's
    `name` and `mode` and an item's `name` have string methods called on
    them, which throw when they are absent, so they are taken to be present. */
module Registry {
  import opened Base
  import opened Text

  /** An `item` of a value def: comma-joined alias names and the value. */
  datatype Item = Item(name: string, value: Option<string>)

  /** The `item` children of a value def: none, a single object, or an array. */
  datatype Items = NoItems | OneItem(item: Item) | ItemList(items: seq<Item>)

  /** A `value` def of a command: an optional field name and its items. */
  datatype ValueDef = ValueDef(name: string, item: Items)

  /** The `value` children of a command: none, one object, or an array. */
  datatype Values = NoValue | OneValue(def: ValueDef) | ValueList(defs: seq<ValueDef>)

  /** A `dev.command` entry. */
  datatype Command = Command(name: string, code: Option<string>, mode: string,
                             wDuration: string, rDuration: string, value: Values)

  type Registry = seq<Command>

  /** `Number(attr)`: an absent attribute is `undefined`, whose number is NaN. */
  function AttrNumber(a: Option<string>): Option<nat>
  {
    if a.None? then None else JsNumber(a.value)
  }

  /** `parseInt(attr)`: again NaN for an absent attribute. */
  function AttrParseInt(a: Option<string>): Option<nat>
  {
    if a.None? then None else ParseInt(a.value)
  }

  /** The source's `valDefArr`/`parDefArr`: the value defs as an array, an
      absent `value` giving the one-element array `[undefined]`. */
  function DefArr(v: Values): (ds: seq<Option<ValueDef>>)
    ensures v.NoValue? ==> ds == [None]
    ensures v.OneValue? ==> ds == [Some(v.def)]
    ensures v.ValueList? ==> |ds| == |v.defs| && forall k :: 0 <= k < |ds| ==> ds[k] == Some(v.defs[k])
  {
    match v
    case NoValue => [None]
    case OneValue(d) => [Some(d)]
    case ValueList(defs) => seq(|defs|, k requires 0 <= k < |defs| => Some(defs[k]))
  }

  /** Names are compared after `toLowerCase` on both sides. */
  predicate NameMatches(c: Command, name: string)
  {
    Lower(c.name) == Lower(name)
  }

  /** `dev.command.find(el => el.name.toLowerCase() == name.toLowerCase())`:
      the index of the first entry with that name, ignoring ASCII case. */
  function FindByName(reg: Registry, name: string): (r: Option<nat>)
    ensures r.Some? ==> r.value < |reg| && NameMatches(reg[r.value], name)
    ensures r.Some? ==> forall j :: 0 <= j < r.value ==> !NameMatches(reg[j], name)
    ensures r.None? ==> forall j :: 0 <= j < |reg| ==> !NameMatches(reg[j], name)
  {
    FindFirst(reg, c => NameMatches(c, name))
  }

  /** Opcodes are compared as `Number(el.code) == rcmd`. */
  predicate CodeMatches(c: Command, rcmd: nat)
  {
    AttrNumber(c.code) == Some(rcmd)
  }

  /** `dev.command.find(el => Number(el.code) == rcmd)`. */
  function FindByCode(reg: Registry, rcmd: nat): (r: Option<nat>)
    ensures r.Some? ==> r.value < |reg| && CodeMatches(reg[r.value], rcmd)
    ensures r.Some? ==> forall j :: 0 <= j < r.value ==> !CodeMatches(reg[j], rcmd)
    ensures r.None? ==> forall j :: 0 <= j < |reg| ==> !CodeMatches(reg[j], rcmd)
  {
    FindFirst(reg, c => CodeMatches(c, rcmd))
  }

  /** The aliases of an item, each trimmed and upper-cased. */
  function Aliases(it: Item): (al: seq<string>)
    ensures |al| == |Split(it.name, ',')|
    ensures forall k :: 0 <= k < |al| ==> al[k] == Upper(Trim(Split(it.name, ',')[k]))
  {
    var parts := Split(it.name, ',');
    seq(|parts|, k requires 0 <= k < |parts| => Upper(Trim(parts[k])))
  }

  /** The alias test of a write parameter: some alias equals the parameter
      upper-cased, and the alias found is truthy, that is non-empty. */
  predicate AliasMatches(it: Item, p: string)
  {
    p != "" && Upper(p) in Aliases(it)
  }

  /** The first item one of whose aliases is the parameter. */
  function FindItemByAlias(items: seq<Item>, p: string): (r: Option<nat>)
    ensures r.Some? ==> r.value < |items| && AliasMatches(items[r.value], p)
    ensures r.Some? ==> forall j :: 0 <= j < r.value ==> !AliasMatches(items[j], p)
    ensures r.None? ==> forall j :: 0 <= j < |items| ==> !AliasMatches(items[j], p)
  {
    FindFirst(items, it => AliasMatches(it, p))
  }

  /** The value test of a received byte: `parseInt(it.value) == v`. */
  predicate ValueMatches(it: Item, v: nat)
  {
    AttrParseInt(it.value) == Some(v)
  }

  /** The first item whose value reads as the byte. */
  function FindItemByValue(items: seq<Item>, v: nat): (r: Option<nat>)
    ensures r.Some? ==> r.value < |items| && ValueMatches(items[r.value], v)
    ensures r.Some? ==> forall j :: 0 <= j < r.value ==> !ValueMatches(items[j], v)
    ensures r.None? ==> forall j :: 0 <= j < |items| ==> !ValueMatches(items[j], v)
  {
    FindFirst(items, it => ValueMatches(it, v))
  }

  /** What a decoded byte is shown as: the first alias, trimmed. */
  function CanonicalAlias(it: Item): string
  {
    Trim(Split(it.name, ',')[0])
  }

  /** The alias shown is one of the item's aliases as written: it matches the
      item on the way back, provided it is not empty. */
  lemma CanonicalAliasMatches(it: Item)
    requires CanonicalAlias(it) != ""
    ensures AliasMatches(it, CanonicalAlias(it))
  {
    assert Aliases(it)[0] == Upper(CanonicalAlias(it));
  }

  /** Lookup by name depends only on the name's lower-case form, so the same
      entry is found however the user capitalises the command. */
  lemma FindByNameIgnoresCase(reg: Registry, a: string, b: string)
    requires Lower(a) == Lower(b)
    ensures FindByName(reg, a) == FindByName(reg, b)
  {
    forall c: Command ensures NameMatches(c, a) == NameMatches(c, b) { }
    var ra, rb := FindByName(reg, a), FindByName(reg, b);
    if ra.Some? {
      assert NameMatches(reg[ra.value], b);
    }
    if rb.Some? {
      assert NameMatches(reg[rb.value], a);
    }
  }

  /** The first entry wins: when an entry with the name exists, lookup lands
      on one at or before it, and on an entry with the name. */
  lemma FirstByNameWins(reg: Registry, name: string, k: nat)
    requires k < |reg| && NameMatches(reg[k], name)
    ensures FindByName(reg, name).Some? && FindByName(reg, name).value <= k
  {
  }
}
