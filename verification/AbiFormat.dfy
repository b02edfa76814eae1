/** The binary form of ABI definitions (`ABI.toABI` and `ABI.fromABI` of chain/Abi.ts). */
module AbiFormat {
  import opened Bytes
  import opened Varint
  import opened Types
  import opened Decoder
  import opened Leaf
  import opened Abi

  // ---- Lists ----

  function PutEach<T>(put: T -> bytes, xs: seq<T>): bytes {
    if xs == [] then [] else put(xs[0]) + PutEach(put, xs[1..])
  }

  function PutList<T>(put: T -> bytes, xs: seq<T>): bytes {
    Varuint(ToUint32(|xs|)) + PutEach(put, xs)
  }

  /** `n` more items after those in `read`. */
  function GetEach<T>(get: bytes -> Parsed<T>, n: nat, read: seq<T>, s: bytes): Parsed<seq<T>>
    decreases n
  {
    if n == 0 then Done(read, s)
    else
      var x :- get(s);
      GetEach(get, n - 1, read + [x.value], x.rest)
  }

  function GetList<T>(get: bytes -> Parsed<T>, s: bytes): Parsed<seq<T>> {
    var n :- ReadVaruint(s);
    GetEach(get, n.value, [], n.rest)
  }

  /** A section that is not there when the input ends before it. */
  function GetOptional<T>(get: bytes -> Parsed<T>, s: bytes): Parsed<seq<T>> {
    if s == [] then Done([], s) else GetList(get, s)
  }

  lemma {:induction false} EachRoundTrip<T, U>(
    put: T -> bytes, get: bytes -> Parsed<U>, xs: seq<T>, ys: seq<U>, read: seq<U>, rest: bytes)
    requires |ys| == |xs|
    requires forall i, s: bytes :: 0 <= i < |xs| ==> get(put(xs[i]) + s) == Done(ys[i], s)
    ensures GetEach(get, |xs|, read, PutEach(put, xs) + rest) == Done(read + ys, rest)
    decreases |xs|
  {
    if xs == [] {
      assert read + ys == read && PutEach(put, xs) + rest == rest;
    } else {
      ConcatAssociates(put(xs[0]), PutEach(put, xs[1..]), rest);
      assert get(put(xs[0]) + (PutEach(put, xs[1..]) + rest)) == Done(ys[0], PutEach(put, xs[1..]) + rest);
      EachRoundTrip(put, get, xs[1..], ys[1..], read + [ys[0]], rest);
      assert read + [ys[0]] + ys[1..] == read + ys;
    }
  }

  /** When every item reads back as intended in front of anything, so does the list. */
  lemma ListRoundTrip<T, U>(put: T -> bytes, get: bytes -> Parsed<U>, xs: seq<T>, ys: seq<U>, rest: bytes)
    requires |ys| == |xs| < TWO32
    requires forall i, s: bytes :: 0 <= i < |xs| ==> get(put(xs[i]) + s) == Done(ys[i], s)
    ensures GetList(get, PutList(put, xs) + rest) == Done(ys, rest)
    ensures PutList(put, xs) != []
  {
    hide ToUint32, Varuint, ReadVaruint, GetEach, PutEach;
    var n := ToUint32(|xs|);
    ToUint32Small(|xs|);
    VaruintLength(n, 0);
    ReadVaruintOfVaruint(n, PutEach(put, xs) + rest);
    ConcatAssociates(Varuint(n), PutEach(put, xs), rest);
    EachRoundTrip(put, get, xs, ys, [], rest);
    assert [] + ys == ys;
  }

  /** One item more written in a loop over a list. */
  lemma PutEachStep<T>(put: T -> bytes, xs: seq<T>, i: nat, before: bytes, after: bytes)
    requires i < |xs| && after == before + put(xs[i])
    ensures before + PutEach(put, xs[i..]) == after + PutEach(put, xs[i + 1..])
  {
    assert xs[i..][0] == xs[i] && xs[i..][1..] == xs[i + 1..];
    ConcatAssociates(before, put(xs[i]), PutEach(put, xs[i + 1..]));
  }

  // ---- Records ----

  function PutText(t: Text): bytes {
    Varuint(ToUint32(|t|)) + t
  }

  function PutTypeDef(t: TypeDef): bytes {
    PutText(t.newTypeName) + PutText(t.typ)
  }

  function GetTypeDef(s: bytes): Parsed<TypeDef> {
    var newTypeName :- ReadText(s);
    var typ :- ReadText(newTypeName.rest);
    Done(TypeDef(newTypeName.value, typ.value), typ.rest)
  }

  function PutField(f: FieldDef): bytes {
    PutText(f.name) + PutText(f.typ)
  }

  function GetField(s: bytes): Parsed<FieldDef> {
    var name :- ReadText(s);
    var typ :- ReadText(name.rest);
    Done(FieldDef(name.value, typ.value), typ.rest)
  }

  function PutStruct(d: StructDef): bytes {
    PutText(d.name) + (PutText(d.base) + PutList(PutField, d.fields))
  }

  function GetStruct(s: bytes): Parsed<StructDef> {
    var name :- ReadText(s);
    var base :- ReadText(name.rest);
    var fields :- GetList(GetField, base.rest);
    Done(StructDef(name.value, base.value, fields.value), fields.rest)
  }

  /** `UInt64` in eight bytes. */
  function PutName(n: PackedName): bytes {
    ToLe(n, 8)
  }

  function GetName(s: bytes): Parsed<PackedName> {
    var bs :- Take(s, 8);
    Pow256Of8();
    Done(FromLe(bs.value), bs.rest)
  }

  function PutAction(a: ActionDef): bytes {
    PutName(a.name) + (PutText(a.typ) + PutText(a.ricardianContract))
  }

  function GetAction(s: bytes): Parsed<ActionDef> {
    var name :- GetName(s);
    var typ :- ReadText(name.rest);
    var contract :- ReadText(typ.rest);
    Done(ActionDef(name.value, typ.value, contract.value), contract.rest)
  }

  function OrZero(id: Option<int>): int {
    if id.Some? then id.value else 0
  }

  predicate IsUint16(n: int) {
    0 <= n <= 0xFFFF
  }

  function PutUint16(n: int): bytes {
    [n % 256, n / 256 % 256]
  }

  function GetUint16(s: bytes): Parsed<int> {
    var bs :- Take(s, 2);
    var lo: int, hi: int := bs.value[0], bs.value[1];
    Done(lo + 256 * hi, bs.rest)
  }

  function PutIndex(x: IndexDef): bytes {
    PutText(x.name) + (PutText(x.keyType) + PutUint16(OrZero(x.tableId)))
  }

  function GetIndex(s: bytes): Parsed<IndexDef> {
    var name :- ReadText(s);
    var keyType :- ReadText(name.rest);
    var id :- GetUint16(keyType.rest);
    Done(IndexDef(name.value, keyType.value, Some(id.value)), id.rest)
  }

  function OrEmpty(indexes: Option<seq<IndexDef>>): seq<IndexDef> {
    if indexes.Some? then indexes.value else []
  }

  function PutTable(t: TableDef): bytes {
    PutText(t.name) + (PutText(t.indexType) + (PutList(PutText, t.keyNames) + (PutList(PutText, t.keyTypes) +
      (PutText(t.typ) + (PutUint16(OrZero(t.tableId)) + PutList(PutIndex, OrEmpty(t.secondaryIndexes)))))))
  }

  function GetTable(s: bytes): Parsed<TableDef> {
    var name :- ReadText(s);
    var indexType :- ReadText(name.rest);
    var keyNames :- GetList(ReadText, indexType.rest);
    var keyTypes :- GetList(ReadText, keyNames.rest);
    var typ :- ReadText(keyTypes.rest);
    var id :- GetUint16(typ.rest);
    var indexes :- GetList(GetIndex, id.rest);
    Done(TableDef(name.value, indexType.value, keyNames.value, keyTypes.value, typ.value,
                  Some(id.value), Some(indexes.value)), indexes.rest)
  }

  function PutClause(c: ClauseDef): bytes {
    PutText(c.id) + PutText(c.body)
  }

  function GetClause(s: bytes): Parsed<ClauseDef> {
    var id :- ReadText(s);
    var body :- ReadText(id.rest);
    Done(ClauseDef(id.value, body.value), body.rest)
  }

  /** An entry that is passed over: `fixed` bytes, then as many as a length says. */
  function Skip(fixed: nat, s: bytes): Parsed<()> {
    var head :- Take(s, fixed);
    var n :- ReadVaruint(head.rest);
    var body :- Take(n.rest, n.value);
    Done((), body.rest)
  }

  /** An error message: a uint64 code and a text. */
  function GetErrorMessage(s: bytes): Parsed<()> {
    Skip(8, s)
  }

  /** An extension: a uint16 type and its data. */
  function GetExtension(s: bytes): Parsed<()> {
    Skip(2, s)
  }

  function PutVariant(v: VariantDef): bytes {
    PutText(v.name) + PutList(PutText, v.types)
  }

  function GetVariant(s: bytes): Parsed<VariantDef> {
    var name :- ReadText(s);
    var types :- GetList(ReadText, name.rest);
    Done(VariantDef(name.value, types.value), types.rest)
  }

  function PutActionResult(a: ActionResultDef): bytes {
    PutName(a.name) + PutText(a.resultType)
  }

  function GetActionResult(s: bytes): Parsed<ActionResultDef> {
    var name :- GetName(s);
    var resultType :- ReadText(name.rest);
    Done(ActionResultDef(name.value, resultType.value), resultType.rest)
  }

  predicate IsSafe(n: int) {
    -SAFE < n < SAFE
  }

  function Int64Bytes(n: int): bytes
    requires IsSafe(n)
  {
    Pow256Of8();
    ToLe(ToTwos(n, 8), 8)
  }

  /** An unsafe number is never written. */
  function PutEnumValue(v: EnumValue): bytes {
    PutText(v.name) + if IsSafe(v.value) then Int64Bytes(v.value) else []
  }

  function GetSafe(s: bytes): Parsed<int> {
    var bs :- Take(s, 8);
    var n := FromTwos(FromLe(bs.value), 8, true);
    if IsSafe(n) then Done(n, bs.rest) else Fail(UnsafeNumber)
  }

  function GetEnumValue(s: bytes): Parsed<EnumValue> {
    var name :- ReadText(s);
    var value :- GetSafe(name.rest);
    Done(EnumValue(name.value, value.value), value.rest)
  }

  function PutEnum(e: EnumDef): bytes {
    PutText(e.name) + (PutText(e.typ) + PutList(PutEnumValue, e.values))
  }

  function GetEnum(s: bytes): Parsed<EnumDef> {
    var name :- ReadText(s);
    var typ :- ReadText(name.rest);
    var values :- GetList(GetEnumValue, typ.rest);
    Done(EnumDef(name.value, typ.value, values.value), values.rest)
  }

  // ---- The whole definition ----

  /** "sysio::abi/1." */
  const ONE_DOT: Text := [115, 121, 115, 105, 111, 58, 58, 97, 98, 105, 47, 49, 46]

  /** "sysio::abi/1.1" */
  const DEFAULT_VERSION: Text := ONE_DOT + [49]

  /** The versions whose trailers are known to be texts. */
  predicate IsOneX(version: Text) {
    ONE_DOT <= version
  }

  function PutTrailer(version: Text): bytes {
    if IsOneX(version) then PutText([]) else []
  }

  function PutExtensions(a: ABI): bytes {
    PutList(PutVariant, a.variants) + (PutList(PutActionResult, a.actionResults) +
      (PutList(PutEnum, a.enums) + PutTrailer(a.version)))
  }

  /** With empty lists of error messages and extensions before the optional sections. */
  function ToAbi(a: ABI): bytes {
    PutText(a.version) + (PutList(PutTypeDef, a.types) + (PutList(PutStruct, a.structs) +
      (PutList(PutAction, a.actions) + (PutList(PutTable, a.tables) + (PutList(PutClause, a.clauses) +
        (Varuint(0) + (Varuint(0) + PutExtensions(a))))))))
  }

  /** Reads texts until the input ends. */
  function Drain(s: bytes): Parsed<()>
    decreases |s|
  {
    if s == [] then Done((), s)
    else
      var t :- ReadText(s);
      Drain(t.rest)
  }

  datatype Extensions = Extensions(variants: seq<VariantDef>, actionResults: seq<ActionResultDef>, enums: seq<EnumDef>)

  function GetSections(s: bytes): Parsed<Extensions> {
    var variants :- GetOptional(GetVariant, s);
    var actionResults :- GetOptional(GetActionResult, variants.rest);
    var enums :- GetOptional(GetEnum, actionResults.rest);
    Done(Extensions(variants.value, actionResults.value, enums.value), enums.rest)
  }

  /** The constructor's default. */
  function OrDefault(version: Text): Text {
    if version == [] then DEFAULT_VERSION else version
  }

  /** Everything up to the trailers. */
  function GetDefinition(s: bytes): Parsed<ABI> {
    var version :- ReadText(s);
    var types :- GetList(GetTypeDef, version.rest);
    var structs :- GetList(GetStruct, types.rest);
    var actions :- GetList(GetAction, structs.rest);
    var tables :- GetList(GetTable, actions.rest);
    var clauses :- GetList(GetClause, tables.rest);
    var errors :- GetList(GetErrorMessage, clauses.rest);
    var extensions :- GetList(GetExtension, errors.rest);
    var more :- GetSections(extensions.rest);
    Done(ABI(version.value, types.value, structs.value, actions.value, tables.value, clauses.value,
             more.value.variants, more.value.actionResults, more.value.enums), more.rest)
  }

  /** What a reader of version `version` leaves of the bytes after a definition, if it accepts them. */
  function After(version: Text, s: bytes): Parsed<()> {
    if IsOneX(version) then Drain(s) else Done((), s)
  }

  function FromAbi(s: bytes): Parsed<ABI> {
    var a :- GetDefinition(s);
    var end :- After(a.value.version, a.rest);
    Done(a.value.(version := OrDefault(a.value.version)), end.rest)
  }

  // ---- What can be written ----

  /** Shorter than 2^32, as every JavaScript string and array is. */
  predicate Short<T>(xs: seq<T>) {
    |xs| < TWO32
  }

  predicate ShortTexts(ts: seq<Text>) {
    Short(ts) && forall i :: 0 <= i < |ts| ==> Short(ts[i])
  }

  predicate ShortTypeDef(t: TypeDef) {
    Short(t.newTypeName) && Short(t.typ)
  }

  predicate ShortField(f: FieldDef) {
    Short(f.name) && Short(f.typ)
  }

  predicate ShortStruct(d: StructDef) {
    && Short(d.name) && Short(d.base) && Short(d.fields)
    && forall i :: 0 <= i < |d.fields| ==> ShortField(d.fields[i])
  }

  predicate ShortAction(a: ActionDef) {
    Short(a.typ) && Short(a.ricardianContract)
  }

  predicate ShortIndex(x: IndexDef) {
    Short(x.name) && Short(x.keyType)
  }

  predicate ShortTable(t: TableDef) {
    var xs := OrEmpty(t.secondaryIndexes);
    && Short(t.name) && Short(t.indexType) && ShortTexts(t.keyNames) && ShortTexts(t.keyTypes) && Short(t.typ)
    && Short(xs) && forall i :: 0 <= i < |xs| ==> ShortIndex(xs[i])
  }

  predicate ShortClause(c: ClauseDef) {
    Short(c.id) && Short(c.body)
  }

  predicate ShortVariant(v: VariantDef) {
    Short(v.name) && ShortTexts(v.types)
  }

  predicate ShortEnum(e: EnumDef) {
    Short(e.name) && Short(e.typ) && Short(e.values) && forall i :: 0 <= i < |e.values| ==> Short(e.values[i].name)
  }

  predicate ShortAbi(a: ABI) {
    && Short(a.version)
    && (Short(a.types) && forall i :: 0 <= i < |a.types| ==> ShortTypeDef(a.types[i]))
    && (Short(a.structs) && forall i :: 0 <= i < |a.structs| ==> ShortStruct(a.structs[i]))
    && (Short(a.actions) && forall i :: 0 <= i < |a.actions| ==> ShortAction(a.actions[i]))
    && (Short(a.tables) && forall i :: 0 <= i < |a.tables| ==> ShortTable(a.tables[i]))
    && (Short(a.clauses) && forall i :: 0 <= i < |a.clauses| ==> ShortClause(a.clauses[i]))
    && (Short(a.variants) && forall i :: 0 <= i < |a.variants| ==> ShortVariant(a.variants[i]))
    && (Short(a.actionResults) && forall i :: 0 <= i < |a.actionResults| ==> Short(a.actionResults[i].resultType))
    && (Short(a.enums) && forall i :: 0 <= i < |a.enums| ==> ShortEnum(a.enums[i]))
  }

  predicate IdFits(id: Option<int>) {
    IsUint16(OrZero(id))
  }

  predicate TableFits(t: TableDef) {
    var xs := OrEmpty(t.secondaryIndexes);
    IdFits(t.tableId) && forall i :: 0 <= i < |xs| ==> IdFits(xs[i].tableId)
  }

  predicate TablesFit(a: ABI) {
    forall i :: 0 <= i < |a.tables| ==> TableFits(a.tables[i])
  }

  predicate EnumFits(e: EnumDef) {
    forall i :: 0 <= i < |e.values| ==> IsSafe(e.values[i].value)
  }

  predicate EnumsFit(a: ABI) {
    forall i :: 0 <= i < |a.enums| ==> EnumFits(a.enums[i])
  }

  /** What is read back: omitted ids are 0, omitted indexes empty, an empty version the default one. */
  function FilledIndex(x: IndexDef): IndexDef {
    x.(tableId := Some(OrZero(x.tableId)))
  }

  function FilledTable(t: TableDef): TableDef {
    var xs := OrEmpty(t.secondaryIndexes);
    t.(tableId := Some(OrZero(t.tableId)),
       secondaryIndexes := Some(seq(|xs|, i requires 0 <= i < |xs| => FilledIndex(xs[i]))))
  }

  function Filled(a: ABI): ABI {
    a.(version := OrDefault(a.version),
       tables := seq(|a.tables|, i requires 0 <= i < |a.tables| => FilledTable(a.tables[i])))
  }

  // ---- Round trips ----

  lemma TextBack(t: Text, s: bytes)
    requires Short(t)
    ensures ReadText(PutText(t) + s) == Done(t, s)
  {
    TextRoundTrip(t, s);
  }

  lemma TwoTextsBack(a: Text, b: Text, s: bytes)
    requires Short(a) && Short(b)
    ensures ReadText(PutText(a) + PutText(b) + s) == Done(a, PutText(b) + s)
    ensures ReadText(PutText(b) + s) == Done(b, s)
  {
    hide PutText, ReadText;
    ConcatAssociates(PutText(a), PutText(b), s);
    TextBack(a, PutText(b) + s);
    TextBack(b, s);
  }

  lemma TextsBack(ts: seq<Text>, s: bytes)
    requires ShortTexts(ts)
    ensures GetList(ReadText, PutList(PutText, ts) + s) == Done(ts, s)
  {
    hide PutText, ReadText, PutList, GetList;
    forall i, s: bytes | 0 <= i < |ts| ensures ReadText(PutText(ts[i]) + s) == Done(ts[i], s) {
      TextBack(ts[i], s);
    }
    ListRoundTrip(PutText, ReadText, ts, ts, s);
  }

  lemma TypeDefsBack(ts: seq<TypeDef>, s: bytes)
    requires Short(ts) && forall i :: 0 <= i < |ts| ==> ShortTypeDef(ts[i])
    ensures GetList(GetTypeDef, PutList(PutTypeDef, ts) + s) == Done(ts, s)
  {
    hide PutText, ReadText, PutList, GetList;
    forall i, s: bytes | 0 <= i < |ts| ensures GetTypeDef(PutTypeDef(ts[i]) + s) == Done(ts[i], s) {
      TwoTextsBack(ts[i].newTypeName, ts[i].typ, s);
    }
    ListRoundTrip(PutTypeDef, GetTypeDef, ts, ts, s);
  }

  lemma FieldsBack(fs: seq<FieldDef>, s: bytes)
    requires Short(fs) && forall i :: 0 <= i < |fs| ==> ShortField(fs[i])
    ensures GetList(GetField, PutList(PutField, fs) + s) == Done(fs, s)
  {
    hide PutText, ReadText, PutList, GetList;
    forall i, s: bytes | 0 <= i < |fs| ensures GetField(PutField(fs[i]) + s) == Done(fs[i], s) {
      TwoTextsBack(fs[i].name, fs[i].typ, s);
    }
    ListRoundTrip(PutField, GetField, fs, fs, s);
  }

  lemma StructBack(d: StructDef, s: bytes)
    requires ShortStruct(d)
    ensures GetStruct(PutStruct(d) + s) == Done(d, s)
  {
    hide PutText, ReadText, PutList, GetList;
    var fields := PutList(PutField, d.fields);
    ConcatAssociates(PutText(d.name), PutText(d.base) + fields, s);
    ConcatAssociates(PutText(d.base), fields, s);
    TextBack(d.name, PutText(d.base) + fields + s);
    TextBack(d.base, fields + s);
    FieldsBack(d.fields, s);
  }

  lemma StructsBack(ds: seq<StructDef>, s: bytes)
    requires Short(ds) && forall i :: 0 <= i < |ds| ==> ShortStruct(ds[i])
    ensures GetList(GetStruct, PutList(PutStruct, ds) + s) == Done(ds, s)
  {
    hide PutStruct, GetStruct, PutList, GetList;
    forall i, s: bytes | 0 <= i < |ds| ensures GetStruct(PutStruct(ds[i]) + s) == Done(ds[i], s) {
      StructBack(ds[i], s);
    }
    ListRoundTrip(PutStruct, GetStruct, ds, ds, s);
  }

  lemma NameBack(n: PackedName, s: bytes)
    ensures GetName(PutName(n) + s) == Done(n, s)
  {
    hide ToLe, FromLe;
    Pow256Of8();
    FromLeToLe(n, 8);
    TakeFront(ToLe(n, 8), s);
  }

  lemma ActionBack(a: ActionDef, s: bytes)
    requires ShortAction(a)
    ensures GetAction(PutAction(a) + s) == Done(a, s)
  {
    hide PutText, ReadText, PutName, GetName;
    ConcatAssociates(PutName(a.name), PutText(a.typ) + PutText(a.ricardianContract), s);
    NameBack(a.name, PutText(a.typ) + PutText(a.ricardianContract) + s);
    TwoTextsBack(a.typ, a.ricardianContract, s);
  }

  lemma ActionsBack(cs: seq<ActionDef>, s: bytes)
    requires Short(cs) && forall i :: 0 <= i < |cs| ==> ShortAction(cs[i])
    ensures GetList(GetAction, PutList(PutAction, cs) + s) == Done(cs, s)
  {
    hide PutAction, GetAction, PutList, GetList;
    forall i, s: bytes | 0 <= i < |cs| ensures GetAction(PutAction(cs[i]) + s) == Done(cs[i], s) {
      ActionBack(cs[i], s);
    }
    ListRoundTrip(PutAction, GetAction, cs, cs, s);
  }

  lemma Uint16Back(n: int, s: bytes)
    requires IsUint16(n)
    ensures GetUint16(PutUint16(n) + s) == Done(n, s)
  {
    TakeFront(PutUint16(n), s);
  }

  lemma IndexBack(x: IndexDef, s: bytes)
    requires ShortIndex(x) && IdFits(x.tableId)
    ensures GetIndex(PutIndex(x) + s) == Done(FilledIndex(x), s)
  {
    hide PutText, ReadText, PutUint16, GetUint16;
    var id := PutUint16(OrZero(x.tableId));
    ConcatAssociates(PutText(x.name), PutText(x.keyType) + id, s);
    ConcatAssociates(PutText(x.keyType), id, s);
    TextBack(x.name, PutText(x.keyType) + id + s);
    TextBack(x.keyType, id + s);
    Uint16Back(OrZero(x.tableId), s);
  }

  lemma IndexesBack(t: TableDef, s: bytes)
    requires ShortTable(t) && TableFits(t)
    ensures GetList(GetIndex, PutList(PutIndex, OrEmpty(t.secondaryIndexes)) + s)
            == Done(FilledTable(t).secondaryIndexes.value, s)
  {
    hide PutIndex, GetIndex, PutList, GetList;
    var xs, ys := OrEmpty(t.secondaryIndexes), FilledTable(t).secondaryIndexes.value;
    forall i, s: bytes | 0 <= i < |xs| ensures GetIndex(PutIndex(xs[i]) + s) == Done(ys[i], s) {
      IndexBack(xs[i], s);
    }
    ListRoundTrip(PutIndex, GetIndex, xs, ys, s);
  }

  lemma TableBack(t: TableDef, s: bytes)
    requires ShortTable(t) && TableFits(t)
    ensures GetTable(PutTable(t) + s) == Done(FilledTable(t), s)
  {
    hide PutText, ReadText, PutUint16, GetUint16, PutList, GetList;
    var p7 := PutList(PutIndex, OrEmpty(t.secondaryIndexes));
    var p6 := PutUint16(OrZero(t.tableId)) + p7;
    var p5 := PutText(t.typ) + p6;
    var p4 := PutList(PutText, t.keyTypes) + p5;
    var p3 := PutList(PutText, t.keyNames) + p4;
    var p2 := PutText(t.indexType) + p3;
    ConcatAssociates(PutText(t.name), p2, s);
    ConcatAssociates(PutText(t.indexType), p3, s);
    ConcatAssociates(PutList(PutText, t.keyNames), p4, s);
    ConcatAssociates(PutList(PutText, t.keyTypes), p5, s);
    ConcatAssociates(PutText(t.typ), p6, s);
    ConcatAssociates(PutUint16(OrZero(t.tableId)), p7, s);
    TextBack(t.name, p2 + s);
    TextBack(t.indexType, p3 + s);
    TextsBack(t.keyNames, p4 + s);
    TextsBack(t.keyTypes, p5 + s);
    TextBack(t.typ, p6 + s);
    Uint16Back(OrZero(t.tableId), p7 + s);
    IndexesBack(t, s);
  }

  lemma TablesBack(a: ABI, s: bytes)
    requires ShortAbi(a) && TablesFit(a)
    ensures GetList(GetTable, PutList(PutTable, a.tables) + s) == Done(Filled(a).tables, s)
  {
    hide PutTable, GetTable, PutList, GetList, FilledTable;
    var ts, ts' := a.tables, Filled(a).tables;
    forall i, s: bytes | 0 <= i < |ts| ensures GetTable(PutTable(ts[i]) + s) == Done(ts'[i], s) {
      TableBack(ts[i], s);
    }
    ListRoundTrip(PutTable, GetTable, ts, ts', s);
  }

  lemma ClausesBack(cs: seq<ClauseDef>, s: bytes)
    requires Short(cs) && forall i :: 0 <= i < |cs| ==> ShortClause(cs[i])
    ensures GetList(GetClause, PutList(PutClause, cs) + s) == Done(cs, s)
  {
    hide PutText, ReadText, PutList, GetList;
    forall i, s: bytes | 0 <= i < |cs| ensures GetClause(PutClause(cs[i]) + s) == Done(cs[i], s) {
      TwoTextsBack(cs[i].id, cs[i].body, s);
    }
    ListRoundTrip(PutClause, GetClause, cs, cs, s);
  }

  /** An empty list. */
  lemma NoneBack<U>(get: bytes -> Parsed<U>, s: bytes)
    ensures GetList(get, Varuint(0) + s) == Done([], s)
  {
    hide Varuint, ReadVaruint;
    ReadVaruintOfVaruint(0, s);
  }

  lemma OptionalIsList<T>(get: bytes -> Parsed<T>, bs: bytes, s: bytes)
    requires bs != []
    ensures GetOptional(get, bs + s) == GetList(get, bs + s)
  {
  }

  lemma VariantsBack(vs: seq<VariantDef>, s: bytes)
    requires Short(vs) && forall i :: 0 <= i < |vs| ==> ShortVariant(vs[i])
    ensures GetOptional(GetVariant, PutList(PutVariant, vs) + s) == Done(vs, s)
  {
    hide PutText, ReadText, PutList, GetList;
    forall i, s: bytes | 0 <= i < |vs| ensures GetVariant(PutVariant(vs[i]) + s) == Done(vs[i], s) {
      var v := vs[i];
      ConcatAssociates(PutText(v.name), PutList(PutText, v.types), s);
      TextBack(v.name, PutList(PutText, v.types) + s);
      TextsBack(v.types, s);
    }
    ListRoundTrip(PutVariant, GetVariant, vs, vs, s);
    OptionalIsList(GetVariant, PutList(PutVariant, vs), s);
  }

  lemma ActionResultsBack(rs: seq<ActionResultDef>, s: bytes)
    requires Short(rs) && forall i :: 0 <= i < |rs| ==> Short(rs[i].resultType)
    ensures GetOptional(GetActionResult, PutList(PutActionResult, rs) + s) == Done(rs, s)
  {
    hide PutText, ReadText, PutName, GetName, PutList, GetList;
    forall i, s: bytes | 0 <= i < |rs|
      ensures GetActionResult(PutActionResult(rs[i]) + s) == Done(rs[i], s)
    {
      var r := rs[i];
      ConcatAssociates(PutName(r.name), PutText(r.resultType), s);
      NameBack(r.name, PutText(r.resultType) + s);
      TextBack(r.resultType, s);
    }
    ListRoundTrip(PutActionResult, GetActionResult, rs, rs, s);
    OptionalIsList(GetActionResult, PutList(PutActionResult, rs), s);
  }

  lemma SafeBack(n: int, s: bytes)
    requires IsSafe(n)
    ensures GetSafe(Int64Bytes(n) + s) == Done(n, s)
  {
    Pow256Of8();
    hide ToLe, FromLe, Pow256;
    TwosRoundTrip(n, 8, true);
    FromLeToLe(ToTwos(n, 8), 8);
    TakeFront(Int64Bytes(n), s);
  }

  lemma EnumValueBack(v: EnumValue, s: bytes)
    requires Short(v.name) && IsSafe(v.value)
    ensures GetEnumValue(PutEnumValue(v) + s) == Done(v, s)
  {
    hide PutText, ReadText, Int64Bytes, GetSafe;
    ConcatAssociates(PutText(v.name), Int64Bytes(v.value), s);
    TextBack(v.name, Int64Bytes(v.value) + s);
    SafeBack(v.value, s);
  }

  lemma EnumBack(e: EnumDef, s: bytes)
    requires ShortEnum(e) && EnumFits(e)
    ensures GetEnum(PutEnum(e) + s) == Done(e, s)
  {
    hide PutText, ReadText, PutList, GetList, PutEnumValue, GetEnumValue;
    forall i, s: bytes | 0 <= i < |e.values|
      ensures GetEnumValue(PutEnumValue(e.values[i]) + s) == Done(e.values[i], s)
    {
      EnumValueBack(e.values[i], s);
    }
    var values := PutList(PutEnumValue, e.values);
    ConcatAssociates(PutText(e.name), PutText(e.typ) + values, s);
    ConcatAssociates(PutText(e.typ), values, s);
    TextBack(e.name, PutText(e.typ) + values + s);
    TextBack(e.typ, values + s);
    ListRoundTrip(PutEnumValue, GetEnumValue, e.values, e.values, s);
  }

  lemma EnumsBack(es: seq<EnumDef>, s: bytes)
    requires Short(es) && forall i :: 0 <= i < |es| ==> ShortEnum(es[i]) && EnumFits(es[i])
    ensures GetOptional(GetEnum, PutList(PutEnum, es) + s) == Done(es, s)
  {
    hide PutEnum, GetEnum, PutList, GetList;
    forall i, s: bytes | 0 <= i < |es| ensures GetEnum(PutEnum(es[i]) + s) == Done(es[i], s) {
      EnumBack(es[i], s);
    }
    ListRoundTrip(PutEnum, GetEnum, es, es, s);
    OptionalIsList(GetEnum, PutList(PutEnum, es), s);
  }

  lemma TrailerBytes(version: Text)
    ensures PutTrailer(version)
            == if [115, 121, 115, 105, 111, 58, 58, 97, 98, 105, 47, 49, 46] <= version then [0] else []
  {
    assert ToUint32(0) == 0 && Varuint(0) == [0];
    var zero: bytes := [0];
    assert zero + [] == zero;
  }

  lemma SectionsBack(a: ABI, s: bytes)
    requires ShortAbi(a) && EnumsFit(a)
    ensures GetSections(PutExtensions(a) + s)
            == Done(Extensions(a.variants, a.actionResults, a.enums), PutTrailer(a.version) + s)
  {
    hide PutList, GetOptional, PutTrailer;
    var p4 := PutTrailer(a.version);
    var p3 := PutList(PutEnum, a.enums) + p4;
    var p2 := PutList(PutActionResult, a.actionResults) + p3;
    ConcatAssociates(PutList(PutVariant, a.variants), p2, s);
    ConcatAssociates(PutList(PutActionResult, a.actionResults), p3, s);
    ConcatAssociates(PutList(PutEnum, a.enums), p4, s);
    VariantsBack(a.variants, p2 + s);
    ActionResultsBack(a.actionResults, p3 + s);
    EnumsBack(a.enums, p4 + s);
  }

  /** Definitions that end before a section, as older ones do, have none of it. */
  lemma SectionsOptional(a: ABI)
    requires ShortAbi(a)
    ensures GetSections([]) == Done(Extensions([], [], []), [])
    ensures GetSections(PutList(PutVariant, a.variants)) == Done(Extensions(a.variants, [], []), [])
    ensures GetSections(PutList(PutVariant, a.variants) + PutList(PutActionResult, a.actionResults))
            == Done(Extensions(a.variants, a.actionResults, []), [])
  {
    var vs, rs := PutList(PutVariant, a.variants), PutList(PutActionResult, a.actionResults);
    assert vs + [] == vs && rs + [] == rs;
    hide PutList, GetList;
    VariantsBack(a.variants, []);
    VariantsBack(a.variants, rs);
    ActionResultsBack(a.actionResults, []);
  }

  // What is never written but read: error codes with their texts, and extensions.

  function PutErrorMessage(m: (nat, Text)): bytes {
    ToLe(m.0, 8) + PutText(m.1)
  }

  function PutExtension(x: (nat, bytes)): bytes {
    ToLe(x.0, 2) + PutText(x.1)
  }

  lemma SkipBack(head: bytes, t: Text, s: bytes)
    requires Short(t)
    ensures Skip(|head|, head + PutText(t) + s) == Done((), s)
  {
    hide Varuint, ReadVaruintAt, ToUint32;
    var n := Varuint(ToUint32(|t|));
    ToUint32Small(|t|);
    ConcatAssociates(head, PutText(t), s);
    TakeFront(head, PutText(t) + s);
    ConcatAssociates(n, t, s);
    ReadVaruintOfVaruint(|t|, t + s);
    TakeFront(t, s);
  }

  lemma MessagesBack(ms: seq<(nat, Text)>, s: bytes)
    requires Short(ms) && forall i :: 0 <= i < |ms| ==> Short(ms[i].1)
    ensures exists units :: GetList(GetErrorMessage, PutList(PutErrorMessage, ms) + s) == Done(units, s)
  {
    hide PutList, GetList, PutText, Skip, ToLe;
    var units := seq(|ms|, _ => ());
    forall i, s: bytes | 0 <= i < |ms| ensures GetErrorMessage(PutErrorMessage(ms[i]) + s) == Done(units[i], s) {
      SkipBack(ToLe(ms[i].0, 8), ms[i].1, s);
    }
    ListRoundTrip(PutErrorMessage, GetErrorMessage, ms, units, s);
  }

  lemma PassedBack(xs: seq<(nat, bytes)>, s: bytes)
    requires Short(xs) && forall i :: 0 <= i < |xs| ==> Short(xs[i].1)
    ensures exists units :: GetList(GetExtension, PutList(PutExtension, xs) + s) == Done(units, s)
  {
    hide PutList, GetList, PutText, Skip, ToLe;
    var units := seq(|xs|, _ => ());
    forall i, s: bytes | 0 <= i < |xs| ensures GetExtension(PutExtension(xs[i]) + s) == Done(units[i], s) {
      SkipBack(ToLe(xs[i].0, 2), xs[i].1, s);
    }
    ListRoundTrip(PutExtension, GetExtension, xs, units, s);
  }

  /** A definition around those two lists; `toABI` leaves both empty. */
  function Laid(a: ABI, messages: bytes, extensions: bytes): bytes {
    PutText(a.version) + (PutList(PutTypeDef, a.types) + (PutList(PutStruct, a.structs) +
      (PutList(PutAction, a.actions) + (PutList(PutTable, a.tables) + (PutList(PutClause, a.clauses) +
        (messages + (extensions + PutExtensions(a))))))))
  }

  /**
   Up to the trailers: any error messages and extensions are passed over, and what follows is left, an
   empty text first where `toABI` put one, for versions that start with "sysio::abi/1." and no others.
   */
  lemma DefinitionBack(a: ABI, ms: seq<(nat, Text)>, xs: seq<(nat, bytes)>, s: bytes)
    requires ShortAbi(a) && TablesFit(a) && EnumsFit(a)
    requires Short(ms) && Short(xs)
    requires (forall i :: 0 <= i < |ms| ==> Short(ms[i].1)) && forall i :: 0 <= i < |xs| ==> Short(xs[i].1)
    ensures GetDefinition(Laid(a, PutList(PutErrorMessage, ms), PutList(PutExtension, xs)) + s)
            == Done(Filled(a).(version := a.version),
                    (if [115, 121, 115, 105, 111, 58, 58, 97, 98, 105, 47, 49, 46] <= a.version then [0] else []) + s)
  {
    TrailerBytes(a.version);
    var m, x := PutList(PutErrorMessage, ms), PutList(PutExtension, xs);
    hide PutText, ReadText, PutList, GetList, PutExtensions, GetSections, FilledTable, PutTrailer;
    var p8 := x + PutExtensions(a);
    var p7 := m + p8;
    var p6 := PutList(PutClause, a.clauses) + p7;
    var p5 := PutList(PutTable, a.tables) + p6;
    var p4 := PutList(PutAction, a.actions) + p5;
    var p3 := PutList(PutStruct, a.structs) + p4;
    var p2 := PutList(PutTypeDef, a.types) + p3;
    ConcatAssociates(PutText(a.version), p2, s);
    ConcatAssociates(PutList(PutTypeDef, a.types), p3, s);
    ConcatAssociates(PutList(PutStruct, a.structs), p4, s);
    ConcatAssociates(PutList(PutAction, a.actions), p5, s);
    ConcatAssociates(PutList(PutTable, a.tables), p6, s);
    ConcatAssociates(PutList(PutClause, a.clauses), p7, s);
    ConcatAssociates(m, p8, s);
    ConcatAssociates(x, PutExtensions(a), s);
    TextBack(a.version, p2 + s);
    TypeDefsBack(a.types, p3 + s);
    StructsBack(a.structs, p4 + s);
    ActionsBack(a.actions, p5 + s);
    TablesBack(a, p6 + s);
    ClausesBack(a.clauses, p7 + s);
    MessagesBack(ms, p8 + s);
    PassedBack(xs, PutExtensions(a) + s);
    SectionsBack(a, s);
  }

  lemma ToAbiLaid(a: ABI)
    ensures ToAbi(a) == Laid(a, PutList(PutErrorMessage, []), PutList(PutExtension, []))
  {
    assert Varuint(ToUint32(0)) + [] == Varuint(0);
    hide PutText, PutExtensions;
  }

  /**
   A definition that `toABI` writes, in front of any bytes, reads back as itself with its omissions
   filled in; the reader leaves what comes after, or for 1.x versions takes it for trailers.
   */
  lemma FromToAbi(a: ABI, s: bytes)
    requires ShortAbi(a) && TablesFit(a) && EnumsFit(a)
    ensures FromAbi(ToAbi(a) + s) ==
            match After(a.version, s)
            case Done(_, rest) => Done(Filled(a), rest)
            case Fail(e) => Fail(e)
  {
    ToAbiLaid(a);
    DefinitionBack(a, [], [], s);
    hide GetDefinition, ToAbi, Laid, PutList, FilledTable;
    assert IsOneX(a.version) <==> [115, 121, 115, 105, 111, 58, 58, 97, 98, 105, 47, 49, 46] <= a.version;
    EmptyTextDrained(s);
  }

  lemma EmptyTextDrained(s: bytes)
    ensures Drain([0] + s) == Drain(s) && [] + s == s
  {
    var zero: bytes := [0];
    ReadVaruintOfVaruint(0, s);
    assert Varuint(0) == zero;
    TakeFront([], s);
    assert [] + s == s;
    hide Varuint, ReadVaruintAt;
    assert ReadText(zero + s) == Done([], s);
  }

  /**
   The definition alone always reads back; in front of other bytes the reader stops at its end,
   unless the version is 1.x and drains them.
   */
  lemma StopsAtEnd(a: ABI, s: bytes)
    requires ShortAbi(a) && TablesFit(a) && EnumsFit(a)
    ensures FromAbi(ToAbi(a) + s) == Done(Filled(a), s) <==> !IsOneX(a.version) || s == []
  {
    FromToAbi(a, s);
    hide FromAbi, ToAbi, Filled;
    DrainsAll(s);
  }

  /** A definition without content, of the default version, in front of a zero byte: the byte is gone. */
  lemma TakenForTrailer()
    ensures var a := ABI(DEFAULT_VERSION, [], [], [], [], [], [], [], []);
            FromAbi(ToAbi(a) + [0]) == Done(a, [])
  {
    var a := ABI(DEFAULT_VERSION, [], [], [], [], [], [], [], []);
    var zero: bytes := [0];
    ShortEmpty();
    FromToAbi(a, zero);
    assert ReadVaruint(zero) == Done(0, []) && ReadText(zero) == Done([], []);
    assert Drain(zero) == Drain([]) == Done((), []);
    hide FromAbi, ToAbi;
    assert Filled(a) == a;
  }

  lemma ShortEmpty()
    ensures var a := ABI(DEFAULT_VERSION, [], [], [], [], [], [], [], []);
            ShortAbi(a) && TablesFit(a) && EnumsFit(a) && IsOneX(a.version)
  {
    hide ShortTypeDef, ShortStruct, ShortAction, ShortTable, ShortClause, ShortVariant, ShortEnum, TableFits, EnumFits;
  }

  lemma {:induction false} DrainsAll(s: bytes)
    ensures Drain(s).Done? ==> Drain(s).rest == []
    decreases |s|
  {
    if s != [] && ReadText(s).Done? {
      DrainsAll(ReadText(s).rest);
    }
  }

  // ---- What is accepted can be written again ----

  lemma {:induction false} EachAll<T>(get: bytes -> Parsed<T>, n: nat, read: seq<T>, s: bytes, good: T -> bool)
    requires forall s: bytes :: get(s).Done? ==> good(get(s).value)
    requires forall i :: 0 <= i < |read| ==> good(read[i])
    ensures var p := GetEach(get, n, read, s);
            p.Done? ==> |p.value| == |read| + n && forall i :: 0 <= i < |p.value| ==> good(p.value[i])
    decreases n
  {
    if n > 0 && get(s).Done? {
      EachAll(get, n - 1, read + [get(s).value], get(s).rest, good);
    }
  }

  lemma ListAll<T>(get: bytes -> Parsed<T>, s: bytes, good: T -> bool)
    requires forall s: bytes :: get(s).Done? ==> good(get(s).value)
    ensures var p := GetList(get, s);
            p.Done? ==> Short(p.value) && forall i :: 0 <= i < |p.value| ==> good(p.value[i])
  {
    hide GetEach, ReadVaruintAt;
    var n := ReadVaruint(s);
    if n.Done? {
      EachAll(get, n.value, [], n.rest, good);
    }
  }

  lemma TextShort(s: bytes)
    ensures ReadText(s).Done? ==> Short(ReadText(s).value)
  {
    hide ReadVaruintAt;
  }

  lemma TextsShort(s: bytes)
    ensures GetList(ReadText, s).Done? ==> ShortTexts(GetList(ReadText, s).value)
  {
    hide ReadText, GetList;
    forall s: bytes | ReadText(s).Done? ensures Short(ReadText(s).value) {
      TextShort(s);
    }
    ListAll(ReadText, s, t => Short(t));
  }

  lemma AllTextsShort()
    ensures forall s: bytes :: ReadText(s).Done? ==> Short(ReadText(s).value)
    ensures forall s: bytes :: GetList(ReadText, s).Done? ==> ShortTexts(GetList(ReadText, s).value)
  {
    forall s: bytes { TextShort(s); }
    forall s: bytes { TextsShort(s); }
  }

  /** A table read has its ids, and they and its parts fit. */
  predicate GoodTable(t: TableDef) {
    ShortTable(t) && TableFits(t) && FilledTable(t) == t
  }

  lemma TableGood(s: bytes)
    ensures GetTable(s).Done? ==> GoodTable(GetTable(s).value)
  {
    hide ReadText, GetList, ShortTexts;
    AllTextsShort();
    if GetTable(s).Done? {
      var t := GetTable(s).value;
      var xs := t.secondaryIndexes.value;
      forall s: bytes { ListAll(GetIndex, s, (x: IndexDef) => ShortIndex(x) && IdFits(x.tableId) && x.tableId.Some?); }
      assert FilledTable(t).secondaryIndexes.value == xs;
    }
  }

  lemma StructGood(s: bytes)
    ensures GetStruct(s).Done? ==> ShortStruct(GetStruct(s).value)
  {
    hide ReadText, GetList;
    AllTextsShort();
    forall s: bytes { ListAll(GetField, s, (f: FieldDef) => ShortField(f)); }
  }

  lemma EnumGood(s: bytes)
    ensures GetEnum(s).Done? ==> ShortEnum(GetEnum(s).value) && EnumFits(GetEnum(s).value)
  {
    hide ReadText, GetList;
    AllTextsShort();
    forall s: bytes { ListAll(GetEnumValue, s, (v: EnumValue) => Short(v.name) && IsSafe(v.value)); }
  }

  lemma OptionalAll<T>(get: bytes -> Parsed<T>, s: bytes, good: T -> bool)
    requires forall s: bytes :: get(s).Done? ==> good(get(s).value)
    ensures var p := GetOptional(get, s);
            p.Done? ==> Short(p.value) && forall i :: 0 <= i < |p.value| ==> good(p.value[i])
  {
    hide GetList;
    ListAll(get, s, good);
  }

  lemma SectionsGood(s: bytes)
    ensures var p := GetSections(s);
            p.Done? ==>
              var x := p.value;
              && (Short(x.variants) && forall i :: 0 <= i < |x.variants| ==> ShortVariant(x.variants[i]))
              && (Short(x.actionResults) &&
                  forall i :: 0 <= i < |x.actionResults| ==> Short(x.actionResults[i].resultType))
              && (Short(x.enums) && forall i :: 0 <= i < |x.enums| ==> ShortEnum(x.enums[i]) && EnumFits(x.enums[i]))
  {
    hide ReadText, GetList, GetOptional, GetEnum, ShortEnum, EnumFits, ShortTexts, Short;
    AllTextsShort();
    forall s: bytes { EnumGood(s); }
    forall s: bytes { OptionalAll(GetVariant, s, (v: VariantDef) => ShortVariant(v)); }
    forall s: bytes { OptionalAll(GetActionResult, s, (r: ActionResultDef) => Short(r.resultType)); }
    forall s: bytes { OptionalAll(GetEnum, s, (e: EnumDef) => ShortEnum(e) && EnumFits(e)); }
  }

  /** Whatever `fromABI` returns is filled in, and `toABI` can write it. */
  lemma AbiGood(s: bytes)
    requires FromAbi(s).Done?
    ensures var a := FromAbi(s).value; ShortAbi(a) && TablesFit(a) && EnumsFit(a) && Filled(a) == a
  {
    hide ReadText, GetList, GetSections, After, GetStruct, GetTable, ShortStruct, ShortTable, TableFits, FilledTable;
    hide ShortTexts, ShortEnum, EnumFits;
    AllTextsShort();
    forall s: bytes { StructGood(s); }
    forall s: bytes { TableGood(s); }
    forall s: bytes { ListAll(GetTypeDef, s, (t: TypeDef) => ShortTypeDef(t)); }
    forall s: bytes { ListAll(GetStruct, s, (d: StructDef) => ShortStruct(d)); }
    forall s: bytes { ListAll(GetAction, s, (c: ActionDef) => ShortAction(c)); }
    forall s: bytes { ListAll(GetTable, s, (t: TableDef) => GoodTable(t)); }
    forall s: bytes { ListAll(GetClause, s, (c: ClauseDef) => ShortClause(c)); }
    forall s: bytes { SectionsGood(s); }
    var a := FromAbi(s).value;
    forall i | 0 <= i < |a.tables| ensures FilledTable(a.tables[i]) == a.tables[i] {
      assert GoodTable(a.tables[i]);
    }
    assert Filled(a).tables == a.tables;
  }

  /** Written again, it reads back as the same definition, though error messages, extensions and trailers are gone. */
  lemma ReadAgain(s: bytes)
    requires FromAbi(s).Done?
    ensures FromAbi(ToAbi(FromAbi(s).value)) == Done(FromAbi(s).value, [])
  {
    hide FromAbi, ToAbi, Filled, ShortAbi, TablesFit, EnumsFit;
    var a := FromAbi(s).value;
    AbiGood(s);
    StopsAtEnd(a, []);
    assert ToAbi(a) + [] == ToAbi(a);
  }
}
