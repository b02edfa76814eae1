/** Resolved ABI types as a graph (chain/Abi.ts), and the values that are written along it. */
module Types {
  import opened Bytes

  datatype Field = Field(name: Text, typ: nat)

  datatype EnumValue = EnumValue(name: Text, value: int)

  /** What the ABI defines a bare type name to be; the numbers are ids of other resolved types. */
  datatype Shape =
    | Bare
    | Alias(ref: nat)
    | Struct(base: Option<nat>, fields: seq<Field>)
    | Variant(cases: seq<nat>)
    | Enum(underlying: Text, values: seq<EnumValue>)

  datatype ResolvedType = ResolvedType(
    name: Text, isArray: bool, isOptional: bool, isExtension: bool, shape: Shape)
  {
    /** The name with its suffixes. */
    function TypeName(): Text {
      name + (if isArray then ARRAY else []) + (if isOptional then OPTIONAL else [])
      + if isExtension then EXTENSION else []
    }
  }

  // "[]", "?" and "$" as bytes
  const ARRAY: Text := [91, 93]
  const OPTIONAL: Text := [63]
  const EXTENSION: Text := [36]

  /** A resolved type is its id; ids link the possibly cyclic graph. */
  type Graph = map<nat, ResolvedType>

  ghost predicate LinksInside(g: Graph, shape: Shape)
  {
    match shape
    case Alias(ref) => ref in g
    case Struct(base, fields) =>
      (base.Some? ==> base.value in g) && forall i :: 0 <= i < |fields| ==> fields[i].typ in g
    case Variant(cases) => forall i :: 0 <= i < |cases| ==> cases[i] in g
    case _ => true
  }

  ghost predicate Closed(g: Graph)
  {
    forall id :: id in g ==> LinksInside(g, g[id].shape)
  }

  /** How a builtin class reads and writes itself. Strings and byte strings share a layout. */
  datatype LeafType =
    | BoolType
    | IntType(width: nat, signed: bool)
    | VarUIntType
    | VarIntType
    | TextType
    | FixedType(size: nat)

  /**
   Values as JavaScript sees them: `null`, booleans, numbers, strings or byte strings, arrays,
   plain objects, and variants as a tag and a value. An enum is a string or a number.
   */
  datatype Value =
    | Null
    | Bool(b: bool)
    | Num(n: int)
    | Blob(data: bytes)
    | Arr(elems: seq<Value>)
    | Obj(fields: map<Text, Value>)
    | Tagged(tag: Text, value: Value)

  /** `value[field]`: a missing property reads as absent. */
  function Property(v: Value, name: Text): (p: Value)
    requires v.Obj?
    ensures p == Null || p < v
  {
    if name in v.fields then v.fields[name] else Null
  }

  /** The fields of a struct, base fields first; none for a broken or circular base chain. */
  function AllFieldsFrom(g: Graph, id: nat, seen: set<Text>): (fs: Option<seq<Field>>)
    requires Closed(g) && id in g && seen <= Names(g)
    ensures fs.Some? ==> forall i :: 0 <= i < |fs.value| ==> fs.value[i].typ in g
    decreases Names(g) - seen
  {
    var t := g[id];
    if !t.shape.Struct? || t.name in seen then None
    else if t.shape.base.None? then Some(t.shape.fields)
    else
      assert t.name in Names(g);
      var inherited := AllFieldsFrom(g, t.shape.base.value, seen + {t.name});
      if inherited.None? then None else Some(inherited.value + t.shape.fields)
  }

  function Names(g: Graph): set<Text> {
    set id | id in g :: g[id].name
  }

  function AllFields(g: Graph, id: nat): (fs: Option<seq<Field>>)
    requires Closed(g) && id in g
    ensures fs.Some? ==> forall i :: 0 <= i < |fs.value| ==> fs.value[i].typ in g
  {
    AllFieldsFrom(g, id, {})
  }

  /** The getter's loop: walks up the bases, putting each one's fields in front. */
  method CollectFields(g: Graph, id: nat) returns (rv: Option<seq<Field>>)
    requires Closed(g) && id in g
    ensures rv == AllFields(g, id)
  {
    var current := id;
    var fields: seq<Field> := [];
    var seen: set<Text> := {};
    assert forall fs: seq<Field> :: fs + fields == fs;
    while true
      invariant current in g && seen <= Names(g)
      invariant match AllFieldsFrom(g, current, seen)
                case None => AllFields(g, id).None?
                case Some(fs) => AllFields(g, id) == Some(fs + fields)
      decreases Names(g) - seen
    {
      var t := g[current];
      if !t.shape.Struct? {
        return None;
      }
      if t.name in seen {
        return None;
      }
      ghost var below := fields;
      fields := t.shape.fields + fields;
      assert t.name in Names(g);
      ghost var before := seen;
      seen := seen + {t.name};
      if t.shape.base.None? {
        break;
      }
      current := t.shape.base.value;
      assert forall fs: seq<Field> :: fs + t.shape.fields + below == fs + fields;
    }
    rv := Some(fields);
  }

  // ---- What the fields are ----

  /** A struct, its base, the base of that, and so on to one that has none, no name twice. */
  ghost predicate BaseChain(g: Graph, chain: seq<nat>) {
    && chain != []
    && (forall i :: 0 <= i < |chain| ==> chain[i] in g && g[chain[i]].shape.Struct?)
    && (forall i :: 0 <= i < |chain| - 1 ==> g[chain[i]].shape.base == Some(chain[i + 1]))
    && g[chain[|chain| - 1]].shape.base == None
    && forall i, j :: 0 <= i < j < |chain| ==> g[chain[i]].name != g[chain[j]].name
  }

  /** The fields along a chain, those of the last one first. */
  function ChainFields(g: Graph, chain: seq<nat>): seq<Field>
    requires forall i :: 0 <= i < |chain| ==> chain[i] in g && g[chain[i]].shape.Struct?
  {
    if chain == [] then [] else ChainFields(g, chain[1..]) + g[chain[0]].shape.fields
  }

  ghost predicate Unseen(g: Graph, chain: seq<nat>, seen: set<Text>) {
    forall i :: 0 <= i < |chain| && chain[i] in g ==> g[chain[i]].name !in seen
  }

  lemma {:induction false} FieldsOfChain(g: Graph, chain: seq<nat>, seen: set<Text>)
    requires Closed(g) && BaseChain(g, chain) && Unseen(g, chain, seen) && seen <= Names(g)
    ensures AllFieldsFrom(g, chain[0], seen) == Some(ChainFields(g, chain))
    decreases |chain|
  {
    var name := g[chain[0]].name;
    if |chain| == 1 {
      assert chain[1..] == [];
      assert [] + g[chain[0]].shape.fields == g[chain[0]].shape.fields;
    } else {
      var rest := chain[1..];
      assert name in Names(g) && rest[0] == chain[1];
      assert g[chain[0]].shape.base == Some(chain[0 + 1]);
      assert forall i :: 0 <= i < |rest| ==> rest[i] == chain[i + 1];
      FieldsOfChain(g, rest, seen + {name});
    }
  }

  lemma {:induction false} ChainOfFields(g: Graph, id: nat, seen: set<Text>) returns (chain: seq<nat>)
    requires Closed(g) && id in g && seen <= Names(g) && AllFieldsFrom(g, id, seen).Some?
    ensures BaseChain(g, chain) && chain[0] == id && Unseen(g, chain, seen)
    decreases Names(g) - seen
  {
    var t := g[id];
    if t.shape.base.None? {
      chain := [id];
    } else {
      assert t.name in Names(g);
      var rest := ChainOfFields(g, t.shape.base.value, seen + {t.name});
      chain := [id] + rest;
      assert forall i :: 0 < i < |chain| ==> chain[i] == rest[i - 1];
    }
  }

  /** A type has fields exactly when its bases form such a chain, and then they are those along it. */
  lemma AllFieldsAlong(g: Graph, id: nat, fs: seq<Field>)
    requires Closed(g) && id in g
    ensures AllFields(g, id) == Some(fs)
            <==> exists chain :: BaseChain(g, chain) && chain[0] == id && ChainFields(g, chain) == fs
  {
    if AllFields(g, id) == Some(fs) {
      var chain := ChainOfFields(g, id, {});
      FieldsOfChain(g, chain, {});
    }
    forall chain | BaseChain(g, chain) && chain[0] == id ensures AllFields(g, id) == Some(ChainFields(g, chain)) {
      FieldsOfChain(g, chain, {});
    }
  }
}
