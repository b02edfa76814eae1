/**
 `ABI.fromABI` as it runs: loops over one decoder, proved against the functions of `AbiFormat`.
 */
module AbiReading {
  import opened Bytes
  import opened Varint
  import opened Types
  import opened Decoder
  import opened Leaf
  import opened Abi
  import opened AbiFormat

  method ReadName(decoder: ABIDecoder) returns (r: Result<PackedName>)
    requires decoder.Valid()
    modifies decoder`pos
    ensures decoder.Valid() && Follows(GetName(old(decoder.Rest())), r, decoder.Rest())
  {
    var bs :- decoder.ReadArray(8);
    Pow256Of8();
    return Ok(FromLe(bs));
  }

  method ReadUint16LE(decoder: ABIDecoder) returns (r: Result<int>)
    requires decoder.Valid()
    modifies decoder`pos
    ensures decoder.Valid() && Follows(GetUint16(old(decoder.Rest())), r, decoder.Rest())
  {
    var lo :- decoder.ReadByte();
    var hi :- decoder.ReadByte();
    var low: int, high: int := lo, hi;
    return Ok(low + 256 * high);
  }

  method ReadEnumValue(decoder: ABIDecoder) returns (r: Result<int>)
    requires decoder.Valid()
    modifies decoder`pos
    ensures decoder.Valid() && Follows(GetSafe(old(decoder.Rest())), r, decoder.Rest())
  {
    var bs :- decoder.ReadArray(8);
    var n := FromTwos(FromLe(bs), 8, true);
    if !IsSafe(n) {
      return Err(UnsafeNumber);
    }
    return Ok(n);
  }

  /** `Follows` for a reader that keeps nothing. */
  ghost predicate Passes<T>(p: Parsed<T>, r: Result<()>, rest: bytes) {
    match p
    case Done(_, s) => r == Ok(()) && rest == s
    case Fail(e) => r == Err(e)
  }

  method ReadTexts(decoder: ABIDecoder) returns (r: Result<seq<Text>>)
    requires decoder.Valid()
    modifies decoder`pos
    ensures decoder.Valid() && Follows(GetList(ReadText, old(decoder.Rest())), r, decoder.Rest())
  {
    hide ReadText, ReadVaruintAt;
    var n :- decoder.ReadVaruint32();
    ghost var start := decoder.Rest();
    var texts: seq<Text> := [];
    for i := 0 to n
      invariant decoder.Valid()
      invariant GetEach(ReadText, n, [], start)
                == GetEach(ReadText, n - i, texts, decoder.Rest())
    {
      var text :- decoder.ReadString();
      texts := texts + [text];
    }
    return Ok(texts);
  }

  method ReadTypeDefs(decoder: ABIDecoder) returns (r: Result<seq<TypeDef>>)
    requires decoder.Valid()
    modifies decoder`pos
    ensures decoder.Valid() && Follows(GetList(GetTypeDef, old(decoder.Rest())), r, decoder.Rest())
  {
    hide ReadText, ReadVaruintAt;
    var n :- decoder.ReadVaruint32();
    ghost var start := decoder.Rest();
    var types: seq<TypeDef> := [];
    for i := 0 to n
      invariant decoder.Valid()
      invariant GetEach(GetTypeDef, n, [], start)
                == GetEach(GetTypeDef, n - i, types, decoder.Rest())
    {
      var newTypeName :- decoder.ReadString();
      var typ :- decoder.ReadString();
      types := types + [TypeDef(newTypeName, typ)];
    }
    return Ok(types);
  }

  method ReadFields(decoder: ABIDecoder) returns (r: Result<seq<FieldDef>>)
    requires decoder.Valid()
    modifies decoder`pos
    ensures decoder.Valid() && Follows(GetList(GetField, old(decoder.Rest())), r, decoder.Rest())
  {
    hide ReadText, ReadVaruintAt;
    var n :- decoder.ReadVaruint32();
    ghost var start := decoder.Rest();
    var fields: seq<FieldDef> := [];
    for i := 0 to n
      invariant decoder.Valid()
      invariant GetEach(GetField, n, [], start)
                == GetEach(GetField, n - i, fields, decoder.Rest())
    {
      var name :- decoder.ReadString();
      var typ :- decoder.ReadString();
      fields := fields + [FieldDef(name, typ)];
    }
    return Ok(fields);
  }

  method ReadStructs(decoder: ABIDecoder) returns (r: Result<seq<StructDef>>)
    requires decoder.Valid()
    modifies decoder`pos
    ensures decoder.Valid() && Follows(GetList(GetStruct, old(decoder.Rest())), r, decoder.Rest())
  {
    hide ReadText, ReadVaruintAt;
    var n :- decoder.ReadVaruint32();
    ghost var start := decoder.Rest();
    var structs: seq<StructDef> := [];
    for i := 0 to n
      invariant decoder.Valid()
      invariant GetEach(GetStruct, n, [], start)
                == GetEach(GetStruct, n - i, structs, decoder.Rest())
    {
      var name :- decoder.ReadString();
      var base :- decoder.ReadString();
      var fields :- ReadFields(decoder);
      structs := structs + [StructDef(name, base, fields)];
    }
    return Ok(structs);
  }

  method ReadActions(decoder: ABIDecoder) returns (r: Result<seq<ActionDef>>)
    requires decoder.Valid()
    modifies decoder`pos
    ensures decoder.Valid() && Follows(GetList(GetAction, old(decoder.Rest())), r, decoder.Rest())
  {
    hide ReadText, ReadVaruintAt, GetName;
    var n :- decoder.ReadVaruint32();
    ghost var start := decoder.Rest();
    var actions: seq<ActionDef> := [];
    for i := 0 to n
      invariant decoder.Valid()
      invariant GetEach(GetAction, n, [], start)
                == GetEach(GetAction, n - i, actions, decoder.Rest())
    {
      var name :- ReadName(decoder);
      var typ :- decoder.ReadString();
      var ricardianContract :- decoder.ReadString();
      actions := actions + [ActionDef(name, typ, ricardianContract)];
    }
    return Ok(actions);
  }

  method ReadIndexes(decoder: ABIDecoder) returns (r: Result<seq<IndexDef>>)
    requires decoder.Valid()
    modifies decoder`pos
    ensures decoder.Valid() && Follows(GetList(GetIndex, old(decoder.Rest())), r, decoder.Rest())
  {
    hide ReadText, ReadVaruintAt;
    var n :- decoder.ReadVaruint32();
    ghost var start := decoder.Rest();
    var indexes: seq<IndexDef> := [];
    for i := 0 to n
      invariant decoder.Valid()
      invariant GetEach(GetIndex, n, [], start)
                == GetEach(GetIndex, n - i, indexes, decoder.Rest())
    {
      var name :- decoder.ReadString();
      var keyType :- decoder.ReadString();
      var id :- ReadUint16LE(decoder);
      indexes := indexes + [IndexDef(name, keyType, Some(id))];
    }
    return Ok(indexes);
  }

  method ReadTable(decoder: ABIDecoder) returns (r: Result<TableDef>)
    requires decoder.Valid()
    modifies decoder`pos
    ensures decoder.Valid() && Follows(GetTable(old(decoder.Rest())), r, decoder.Rest())
  {
    hide ReadText, GetList, GetUint16;
    var name :- decoder.ReadString();
    var indexType :- decoder.ReadString();
    var keyNames :- ReadTexts(decoder);
    var keyTypes :- ReadTexts(decoder);
    var typ :- decoder.ReadString();
    var id :- ReadUint16LE(decoder);
    var indexes :- ReadIndexes(decoder);
    return Ok(TableDef(name, indexType, keyNames, keyTypes, typ, Some(id), Some(indexes)));
  }

  method ReadTables(decoder: ABIDecoder) returns (r: Result<seq<TableDef>>)
    requires decoder.Valid()
    modifies decoder`pos
    ensures decoder.Valid() && Follows(GetList(GetTable, old(decoder.Rest())), r, decoder.Rest())
  {
    hide ReadVaruintAt, GetTable;
    var n :- decoder.ReadVaruint32();
    ghost var start := decoder.Rest();
    var tables: seq<TableDef> := [];
    for i := 0 to n
      invariant decoder.Valid()
      invariant GetEach(GetTable, n, [], start)
                == GetEach(GetTable, n - i, tables, decoder.Rest())
    {
      var table :- ReadTable(decoder);
      tables := tables + [table];
    }
    return Ok(tables);
  }

  method ReadClauses(decoder: ABIDecoder) returns (r: Result<seq<ClauseDef>>)
    requires decoder.Valid()
    modifies decoder`pos
    ensures decoder.Valid() && Follows(GetList(GetClause, old(decoder.Rest())), r, decoder.Rest())
  {
    hide ReadText, ReadVaruintAt;
    var n :- decoder.ReadVaruint32();
    ghost var start := decoder.Rest();
    var clauses: seq<ClauseDef> := [];
    for i := 0 to n
      invariant decoder.Valid()
      invariant GetEach(GetClause, n, [], start)
                == GetEach(GetClause, n - i, clauses, decoder.Rest())
    {
      var id :- decoder.ReadString();
      var body :- decoder.ReadString();
      clauses := clauses + [ClauseDef(id, body)];
    }
    return Ok(clauses);
  }

  method SkipEntry(decoder: ABIDecoder, fixed: nat) returns (r: Result<()>)
    requires decoder.Valid()
    modifies decoder`pos
    ensures decoder.Valid() && Follows(Skip(fixed, old(decoder.Rest())), r, decoder.Rest())
  {
    hide ReadVaruintAt, Take;
    var _ :- decoder.Advance(fixed);
    var size :- decoder.ReadVaruint32();
    var _ :- decoder.Advance(size);
    return Ok(());
  }

  method SkipErrorMessages(decoder: ABIDecoder) returns (r: Result<()>)
    requires decoder.Valid()
    modifies decoder`pos
    ensures decoder.Valid() && Passes(GetList(GetErrorMessage, old(decoder.Rest())), r, decoder.Rest())
  {
    hide ReadVaruintAt, Skip;
    var n :- decoder.ReadVaruint32();
    ghost var start := decoder.Rest();
    ghost var passed: seq<()> := [];
    for i := 0 to n
      invariant decoder.Valid()
      invariant GetEach(GetErrorMessage, n, [], start)
                == GetEach(GetErrorMessage, n - i, passed, decoder.Rest())
    {
      var entry :- SkipEntry(decoder, 8);
      passed := passed + [entry];
    }
    return Ok(());
  }

  method SkipExtensions(decoder: ABIDecoder) returns (r: Result<()>)
    requires decoder.Valid()
    modifies decoder`pos
    ensures decoder.Valid() && Passes(GetList(GetExtension, old(decoder.Rest())), r, decoder.Rest())
  {
    hide ReadVaruintAt, Skip;
    var n :- decoder.ReadVaruint32();
    ghost var start := decoder.Rest();
    ghost var passed: seq<()> := [];
    for i := 0 to n
      invariant decoder.Valid()
      invariant GetEach(GetExtension, n, [], start)
                == GetEach(GetExtension, n - i, passed, decoder.Rest())
    {
      var entry :- SkipEntry(decoder, 2);
      passed := passed + [entry];
    }
    return Ok(());
  }

  method ReadVariants(decoder: ABIDecoder) returns (r: Result<seq<VariantDef>>)
    requires decoder.Valid()
    modifies decoder`pos
    ensures decoder.Valid() && Follows(GetList(GetVariant, old(decoder.Rest())), r, decoder.Rest())
  {
    hide ReadText, ReadVaruintAt;
    var n :- decoder.ReadVaruint32();
    ghost var start := decoder.Rest();
    var variants: seq<VariantDef> := [];
    for i := 0 to n
      invariant decoder.Valid()
      invariant GetEach(GetVariant, n, [], start)
                == GetEach(GetVariant, n - i, variants, decoder.Rest())
    {
      var name :- decoder.ReadString();
      var types :- ReadTexts(decoder);
      variants := variants + [VariantDef(name, types)];
    }
    return Ok(variants);
  }

  method ReadActionResults(decoder: ABIDecoder) returns (r: Result<seq<ActionResultDef>>)
    requires decoder.Valid()
    modifies decoder`pos
    ensures decoder.Valid() && Follows(GetList(GetActionResult, old(decoder.Rest())), r, decoder.Rest())
  {
    hide ReadText, ReadVaruintAt, GetName;
    var n :- decoder.ReadVaruint32();
    ghost var start := decoder.Rest();
    var actionResults: seq<ActionResultDef> := [];
    for i := 0 to n
      invariant decoder.Valid()
      invariant GetEach(GetActionResult, n, [], start)
                == GetEach(GetActionResult, n - i, actionResults, decoder.Rest())
    {
      var name :- ReadName(decoder);
      var resultType :- decoder.ReadString();
      actionResults := actionResults + [ActionResultDef(name, resultType)];
    }
    return Ok(actionResults);
  }

  method ReadEnumValues(decoder: ABIDecoder) returns (r: Result<seq<EnumValue>>)
    requires decoder.Valid()
    modifies decoder`pos
    ensures decoder.Valid() && Follows(GetList(GetEnumValue, old(decoder.Rest())), r, decoder.Rest())
  {
    hide ReadText, ReadVaruintAt, GetSafe;
    var n :- decoder.ReadVaruint32();
    ghost var start := decoder.Rest();
    var values: seq<EnumValue> := [];
    for i := 0 to n
      invariant decoder.Valid()
      invariant GetEach(GetEnumValue, n, [], start)
                == GetEach(GetEnumValue, n - i, values, decoder.Rest())
    {
      var name :- decoder.ReadString();
      var value :- ReadEnumValue(decoder);
      values := values + [EnumValue(name, value)];
    }
    return Ok(values);
  }

  method ReadEnums(decoder: ABIDecoder) returns (r: Result<seq<EnumDef>>)
    requires decoder.Valid()
    modifies decoder`pos
    ensures decoder.Valid() && Follows(GetList(GetEnum, old(decoder.Rest())), r, decoder.Rest())
  {
    hide ReadText, ReadVaruintAt;
    var n :- decoder.ReadVaruint32();
    ghost var start := decoder.Rest();
    var enums: seq<EnumDef> := [];
    for i := 0 to n
      invariant decoder.Valid()
      invariant GetEach(GetEnum, n, [], start)
                == GetEach(GetEnum, n - i, enums, decoder.Rest())
    {
      var name :- decoder.ReadString();
      var typ :- decoder.ReadString();
      var values :- ReadEnumValues(decoder);
      enums := enums + [EnumDef(name, typ, values)];
    }
    return Ok(enums);
  }

  /** The optional sections: each is read only while there is input. */
  method ReadSections(decoder: ABIDecoder) returns (r: Result<Extensions>)
    requires decoder.Valid()
    modifies decoder`pos
    ensures decoder.Valid() && Follows(GetSections(old(decoder.Rest())), r, decoder.Rest())
  {
    hide GetList;
    var variants: seq<VariantDef> := [];
    if decoder.CanRead(1) {
      variants :- ReadVariants(decoder);
    }
    var actionResults: seq<ActionResultDef> := [];
    if decoder.CanRead(1) {
      actionResults :- ReadActionResults(decoder);
    }
    var enums: seq<EnumDef> := [];
    if decoder.CanRead(1) {
      enums :- ReadEnums(decoder);
    }
    return Ok(Extensions(variants, actionResults, enums));
  }

  method DrainTexts(decoder: ABIDecoder) returns (r: Result<()>)
    requires decoder.Valid()
    modifies decoder`pos
    ensures decoder.Valid() && Follows(Drain(old(decoder.Rest())), r, decoder.Rest())
  {
    hide ReadText;
    while decoder.CanRead(1)
      invariant decoder.Valid() && Drain(decoder.Rest()) == Drain(old(decoder.Rest()))
      decreases |decoder.Rest()|
    {
      ReadTextShrinks(decoder.Rest());
      var _ :- decoder.ReadString();
    }
    return Ok(());
  }

  lemma ReadTextShrinks(s: bytes)
    ensures ReadText(s).Done? ==> |ReadText(s).rest| < |s|
  {
  }

  method ReadAbi(decoder: ABIDecoder) returns (r: Result<ABI>)
    requires decoder.Valid()
    modifies decoder`pos
    ensures decoder.Valid() && Follows(FromAbi(old(decoder.Rest())), r, decoder.Rest())
  {
    hide ReadText, GetList, GetSections, Drain;
    var version :- decoder.ReadString();
    var types :- ReadTypeDefs(decoder);
    var structs :- ReadStructs(decoder);
    var actions :- ReadActions(decoder);
    var tables :- ReadTables(decoder);
    var clauses :- ReadClauses(decoder);
    var _ :- SkipErrorMessages(decoder);
    var _ :- SkipExtensions(decoder);
    var more :- ReadSections(decoder);
    if IsOneX(version) {
      var _ :- DrainTexts(decoder);
    }
    return Ok(ABI(OrDefault(version), types, structs, actions, tables, clauses,
                  more.variants, more.actionResults, more.enums));
  }
}
