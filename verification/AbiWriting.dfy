/**
 `ABI.toABI` as it runs: loops over one encoder, proved against the functions of `AbiFormat`.
 */
module AbiWriting {
  import opened Bytes
  import opened Varint
  import opened Types
  import opened Encoder
  import opened Leaf
  import opened Abi
  import opened AbiFormat

  method WriteText(text: Text, encoder: ABIEncoder)
    requires encoder.Valid()
    modifies encoder, encoder.buffer
    ensures encoder.Valid() && (encoder.buffer == old(encoder.buffer) || fresh(encoder.buffer))
    ensures encoder.Contents() == old(encoder.Contents()) + PutText(text)
  {
    encoder.WriteString(text);
  }

  method WriteTexts(texts: seq<Text>, encoder: ABIEncoder)
    requires encoder.Valid()
    modifies encoder, encoder.buffer
    ensures encoder.Valid() && (encoder.buffer == old(encoder.buffer) || fresh(encoder.buffer))
    ensures encoder.Contents() == old(encoder.Contents()) + PutList(PutText, texts)
  {
    hide ToUint32, Varuint, PutText;
    encoder.WriteVaruint32(|texts|);
    assert texts[0..] == texts;
    ConcatAssociates(old(encoder.Contents()), Varuint(ToUint32(|texts|)), PutEach(PutText, texts));
    for i := 0 to |texts|
      invariant encoder.Valid() && (encoder.buffer == old(encoder.buffer) || fresh(encoder.buffer))
      invariant encoder.Contents() + PutEach(PutText, texts[i..])
                == old(encoder.Contents()) + PutList(PutText, texts)
    {
      ghost var before := encoder.Contents();
      var text := texts[i];
      WriteText(text, encoder);
      PutEachStep(PutText, texts, i, before, encoder.Contents());
    }
  }

  method WriteTypeDefs(types: seq<TypeDef>, encoder: ABIEncoder)
    requires encoder.Valid()
    modifies encoder, encoder.buffer
    ensures encoder.Valid() && (encoder.buffer == old(encoder.buffer) || fresh(encoder.buffer))
    ensures encoder.Contents() == old(encoder.Contents()) + PutList(PutTypeDef, types)
  {
    hide ToUint32, Varuint, PutText;
    encoder.WriteVaruint32(|types|);
    assert types[0..] == types;
    ConcatAssociates(old(encoder.Contents()), Varuint(ToUint32(|types|)), PutEach(PutTypeDef, types));
    for i := 0 to |types|
      invariant encoder.Valid() && (encoder.buffer == old(encoder.buffer) || fresh(encoder.buffer))
      invariant encoder.Contents() + PutEach(PutTypeDef, types[i..])
                == old(encoder.Contents()) + PutList(PutTypeDef, types)
    {
      ghost var before := encoder.Contents();
      var t := types[i];
      WriteText(t.newTypeName, encoder);
      WriteText(t.typ, encoder);
      ghost var p0, p1 := PutText(t.newTypeName), PutText(t.typ);
      ConcatAssociates(before, p0, p1);
      PutEachStep(PutTypeDef, types, i, before, encoder.Contents());
    }
  }

  method WriteFields(fields: seq<FieldDef>, encoder: ABIEncoder)
    requires encoder.Valid()
    modifies encoder, encoder.buffer
    ensures encoder.Valid() && (encoder.buffer == old(encoder.buffer) || fresh(encoder.buffer))
    ensures encoder.Contents() == old(encoder.Contents()) + PutList(PutField, fields)
  {
    hide ToUint32, Varuint, PutText;
    encoder.WriteVaruint32(|fields|);
    assert fields[0..] == fields;
    ConcatAssociates(old(encoder.Contents()), Varuint(ToUint32(|fields|)), PutEach(PutField, fields));
    for i := 0 to |fields|
      invariant encoder.Valid() && (encoder.buffer == old(encoder.buffer) || fresh(encoder.buffer))
      invariant encoder.Contents() + PutEach(PutField, fields[i..])
                == old(encoder.Contents()) + PutList(PutField, fields)
    {
      ghost var before := encoder.Contents();
      var f := fields[i];
      WriteText(f.name, encoder);
      WriteText(f.typ, encoder);
      ghost var p0, p1 := PutText(f.name), PutText(f.typ);
      ConcatAssociates(before, p0, p1);
      PutEachStep(PutField, fields, i, before, encoder.Contents());
    }
  }

  method WriteStructs(structs: seq<StructDef>, encoder: ABIEncoder)
    requires encoder.Valid()
    modifies encoder, encoder.buffer
    ensures encoder.Valid() && (encoder.buffer == old(encoder.buffer) || fresh(encoder.buffer))
    ensures encoder.Contents() == old(encoder.Contents()) + PutList(PutStruct, structs)
  {
    hide ToUint32, Varuint, PutText;
    encoder.WriteVaruint32(|structs|);
    assert structs[0..] == structs;
    ConcatAssociates(old(encoder.Contents()), Varuint(ToUint32(|structs|)), PutEach(PutStruct, structs));
    for i := 0 to |structs|
      invariant encoder.Valid() && (encoder.buffer == old(encoder.buffer) || fresh(encoder.buffer))
      invariant encoder.Contents() + PutEach(PutStruct, structs[i..])
                == old(encoder.Contents()) + PutList(PutStruct, structs)
    {
      ghost var before := encoder.Contents();
      var d := structs[i];
      WriteText(d.name, encoder);
      WriteText(d.base, encoder);
      WriteFields(d.fields, encoder);
      ghost var p0, p1, p2 := PutText(d.name), PutText(d.base), PutList(PutField, d.fields);
      ConcatAssociates(before + p0, p1, p2);
      ConcatAssociates(before, p0, p1 + p2);
      PutEachStep(PutStruct, structs, i, before, encoder.Contents());
    }
  }

  method WriteActions(actions: seq<ActionDef>, encoder: ABIEncoder)
    requires encoder.Valid()
    modifies encoder, encoder.buffer
    ensures encoder.Valid() && (encoder.buffer == old(encoder.buffer) || fresh(encoder.buffer))
    ensures encoder.Contents() == old(encoder.Contents()) + PutList(PutAction, actions)
  {
    hide ToUint32, Varuint, PutText;
    encoder.WriteVaruint32(|actions|);
    assert actions[0..] == actions;
    ConcatAssociates(old(encoder.Contents()), Varuint(ToUint32(|actions|)), PutEach(PutAction, actions));
    for i := 0 to |actions|
      invariant encoder.Valid() && (encoder.buffer == old(encoder.buffer) || fresh(encoder.buffer))
      invariant encoder.Contents() + PutEach(PutAction, actions[i..])
                == old(encoder.Contents()) + PutList(PutAction, actions)
    {
      ghost var before := encoder.Contents();
      var a := actions[i];
      encoder.WriteArray(ToLe(a.name, 8));
      WriteText(a.typ, encoder);
      WriteText(a.ricardianContract, encoder);
      ghost var p0, p1, p2 := PutName(a.name), PutText(a.typ), PutText(a.ricardianContract);
      ConcatAssociates(before + p0, p1, p2);
      ConcatAssociates(before, p0, p1 + p2);
      PutEachStep(PutAction, actions, i, before, encoder.Contents());
    }
  }

  method WriteClauses(clauses: seq<ClauseDef>, encoder: ABIEncoder)
    requires encoder.Valid()
    modifies encoder, encoder.buffer
    ensures encoder.Valid() && (encoder.buffer == old(encoder.buffer) || fresh(encoder.buffer))
    ensures encoder.Contents() == old(encoder.Contents()) + PutList(PutClause, clauses)
  {
    hide ToUint32, Varuint, PutText;
    encoder.WriteVaruint32(|clauses|);
    assert clauses[0..] == clauses;
    ConcatAssociates(old(encoder.Contents()), Varuint(ToUint32(|clauses|)), PutEach(PutClause, clauses));
    for i := 0 to |clauses|
      invariant encoder.Valid() && (encoder.buffer == old(encoder.buffer) || fresh(encoder.buffer))
      invariant encoder.Contents() + PutEach(PutClause, clauses[i..])
                == old(encoder.Contents()) + PutList(PutClause, clauses)
    {
      ghost var before := encoder.Contents();
      var c := clauses[i];
      WriteText(c.id, encoder);
      WriteText(c.body, encoder);
      ghost var p0, p1 := PutText(c.id), PutText(c.body);
      ConcatAssociates(before, p0, p1);
      PutEachStep(PutClause, clauses, i, before, encoder.Contents());
    }
  }

  method WriteVariants(variants: seq<VariantDef>, encoder: ABIEncoder)
    requires encoder.Valid()
    modifies encoder, encoder.buffer
    ensures encoder.Valid() && (encoder.buffer == old(encoder.buffer) || fresh(encoder.buffer))
    ensures encoder.Contents() == old(encoder.Contents()) + PutList(PutVariant, variants)
  {
    hide ToUint32, Varuint, PutText;
    encoder.WriteVaruint32(|variants|);
    assert variants[0..] == variants;
    ConcatAssociates(old(encoder.Contents()), Varuint(ToUint32(|variants|)), PutEach(PutVariant, variants));
    for i := 0 to |variants|
      invariant encoder.Valid() && (encoder.buffer == old(encoder.buffer) || fresh(encoder.buffer))
      invariant encoder.Contents() + PutEach(PutVariant, variants[i..])
                == old(encoder.Contents()) + PutList(PutVariant, variants)
    {
      ghost var before := encoder.Contents();
      var v := variants[i];
      WriteText(v.name, encoder);
      WriteTexts(v.types, encoder);
      ghost var p0, p1 := PutText(v.name), PutList(PutText, v.types);
      ConcatAssociates(before, p0, p1);
      PutEachStep(PutVariant, variants, i, before, encoder.Contents());
    }
  }

  method WriteActionResults(results: seq<ActionResultDef>, encoder: ABIEncoder)
    requires encoder.Valid()
    modifies encoder, encoder.buffer
    ensures encoder.Valid() && (encoder.buffer == old(encoder.buffer) || fresh(encoder.buffer))
    ensures encoder.Contents() == old(encoder.Contents()) + PutList(PutActionResult, results)
  {
    hide ToUint32, Varuint, PutText;
    encoder.WriteVaruint32(|results|);
    assert results[0..] == results;
    ConcatAssociates(old(encoder.Contents()), Varuint(ToUint32(|results|)), PutEach(PutActionResult, results));
    for i := 0 to |results|
      invariant encoder.Valid() && (encoder.buffer == old(encoder.buffer) || fresh(encoder.buffer))
      invariant encoder.Contents() + PutEach(PutActionResult, results[i..])
                == old(encoder.Contents()) + PutList(PutActionResult, results)
    {
      ghost var before := encoder.Contents();
      var a := results[i];
      encoder.WriteArray(ToLe(a.name, 8));
      WriteText(a.resultType, encoder);
      ghost var p0, p1 := PutName(a.name), PutText(a.resultType);
      ConcatAssociates(before, p0, p1);
      PutEachStep(PutActionResult, results, i, before, encoder.Contents());
    }
  }

  /** `assertUint16`, then two bytes. */
  method WriteUint16LE(n: int, encoder: ABIEncoder) returns (r: Result<()>)
    requires encoder.Valid()
    modifies encoder, encoder.buffer
    ensures encoder.Valid() && (encoder.buffer == old(encoder.buffer) || fresh(encoder.buffer))
    ensures r == if IsUint16(n) then Ok(()) else Err(OutOfRange)
    ensures r.Ok? ==> encoder.Contents() == old(encoder.Contents()) + PutUint16(n)
  {
    if n < 0 || n > 0xFFFF {
      return Err(OutOfRange);
    }
    encoder.WriteByte(n % 256);
    encoder.WriteByte(n / 256 % 256);
    return Ok(());
  }

  /** Refused unless a JavaScript number holds it exactly. */
  method WriteEnumValue(n: int, encoder: ABIEncoder) returns (r: Result<()>)
    requires encoder.Valid()
    modifies encoder, encoder.buffer
    ensures encoder.Valid() && (encoder.buffer == old(encoder.buffer) || fresh(encoder.buffer))
    ensures r == if IsSafe(n) then Ok(()) else Err(UnsafeNumber)
    ensures r.Ok? ==> encoder.Contents() == old(encoder.Contents()) + Int64Bytes(n)
  {
    if !IsSafe(n) {
      return Err(UnsafeNumber);
    }
    encoder.WriteArray(Int64Bytes(n));
    return Ok(());
  }

  method WriteIndex(x: IndexDef, encoder: ABIEncoder) returns (r: Result<()>)
    requires encoder.Valid()
    modifies encoder, encoder.buffer
    ensures encoder.Valid() && (encoder.buffer == old(encoder.buffer) || fresh(encoder.buffer))
    ensures r == if IdFits(x.tableId) then Ok(()) else Err(OutOfRange)
    ensures r.Ok? ==> encoder.Contents() == old(encoder.Contents()) + PutIndex(x)
  {
    hide PutText, PutUint16, IsUint16;
    ghost var before := encoder.Contents();
    WriteText(x.name, encoder);
    WriteText(x.keyType, encoder);
    var _ :- WriteUint16LE(OrZero(x.tableId), encoder);
    ghost var p0, p1, p2 := PutText(x.name), PutText(x.keyType), PutUint16(OrZero(x.tableId));
    ConcatAssociates(before + p0, p1, p2);
    ConcatAssociates(before, p0, p1 + p2);
    return Ok(());
  }

  method WriteIndexes(indexes: seq<IndexDef>, encoder: ABIEncoder) returns (r: Result<()>)
    requires encoder.Valid()
    modifies encoder, encoder.buffer
    ensures encoder.Valid() && (encoder.buffer == old(encoder.buffer) || fresh(encoder.buffer))
    ensures r == if forall j :: 0 <= j < |indexes| ==> IdFits(indexes[j].tableId) then Ok(()) else Err(OutOfRange)
    ensures r.Ok? ==> encoder.Contents() == old(encoder.Contents()) + PutList(PutIndex, indexes)
  {
    hide ToUint32, Varuint, PutIndex, IdFits;
    encoder.WriteVaruint32(|indexes|);
    assert indexes[0..] == indexes;
    ConcatAssociates(old(encoder.Contents()), Varuint(ToUint32(|indexes|)), PutEach(PutIndex, indexes));
    for i := 0 to |indexes|
      invariant encoder.Valid() && (encoder.buffer == old(encoder.buffer) || fresh(encoder.buffer))
      invariant forall j :: 0 <= j < i ==> IdFits(indexes[j].tableId)
      invariant encoder.Contents() + PutEach(PutIndex, indexes[i..])
                == old(encoder.Contents()) + PutList(PutIndex, indexes)
    {
      ghost var before := encoder.Contents();
      var x := indexes[i];
      var _ :- WriteIndex(x, encoder);
      PutEachStep(PutIndex, indexes, i, before, encoder.Contents());
    }
    return Ok(());
  }

  method WriteTable(t: TableDef, encoder: ABIEncoder) returns (r: Result<()>)
    requires encoder.Valid()
    modifies encoder, encoder.buffer
    ensures encoder.Valid() && (encoder.buffer == old(encoder.buffer) || fresh(encoder.buffer))
    ensures r == if TableFits(t) then Ok(()) else Err(OutOfRange)
    ensures r.Ok? ==> encoder.Contents() == old(encoder.Contents()) + PutTable(t)
  {
    hide PutText, PutList, PutUint16;
    ghost var before := encoder.Contents();
    WriteText(t.name, encoder);
    WriteText(t.indexType, encoder);
    WriteTexts(t.keyNames, encoder);
    WriteTexts(t.keyTypes, encoder);
    WriteText(t.typ, encoder);
    var _ :- WriteUint16LE(OrZero(t.tableId), encoder);
    var _ :- WriteIndexes(OrEmpty(t.secondaryIndexes), encoder);
    ghost var p0, p1, p2 := PutText(t.name), PutText(t.indexType), PutList(PutText, t.keyNames);
    ghost var p3, p4, p5 := PutList(PutText, t.keyTypes), PutText(t.typ), PutUint16(OrZero(t.tableId));
    ghost var p6 := PutList(PutIndex, OrEmpty(t.secondaryIndexes));
    ConcatAssociates(before + p0 + p1 + p2 + p3 + p4, p5, p6);
    ConcatAssociates(before + p0 + p1 + p2 + p3, p4, p5 + p6);
    ConcatAssociates(before + p0 + p1 + p2, p3, p4 + (p5 + p6));
    ConcatAssociates(before + p0 + p1, p2, p3 + (p4 + (p5 + p6)));
    ConcatAssociates(before + p0, p1, p2 + (p3 + (p4 + (p5 + p6))));
    ConcatAssociates(before, p0, p1 + (p2 + (p3 + (p4 + (p5 + p6)))));
    return Ok(());
  }

  method WriteTables(tables: seq<TableDef>, encoder: ABIEncoder) returns (r: Result<()>)
    requires encoder.Valid()
    modifies encoder, encoder.buffer
    ensures encoder.Valid() && (encoder.buffer == old(encoder.buffer) || fresh(encoder.buffer))
    ensures r == if forall j :: 0 <= j < |tables| ==> TableFits(tables[j]) then Ok(()) else Err(OutOfRange)
    ensures r.Ok? ==> encoder.Contents() == old(encoder.Contents()) + PutList(PutTable, tables)
  {
    hide ToUint32, Varuint, PutTable, TableFits;
    encoder.WriteVaruint32(|tables|);
    assert tables[0..] == tables;
    ConcatAssociates(old(encoder.Contents()), Varuint(ToUint32(|tables|)), PutEach(PutTable, tables));
    for i := 0 to |tables|
      invariant encoder.Valid() && (encoder.buffer == old(encoder.buffer) || fresh(encoder.buffer))
      invariant forall j :: 0 <= j < i ==> TableFits(tables[j])
      invariant encoder.Contents() + PutEach(PutTable, tables[i..])
                == old(encoder.Contents()) + PutList(PutTable, tables)
    {
      ghost var before := encoder.Contents();
      var t := tables[i];
      var _ :- WriteTable(t, encoder);
      PutEachStep(PutTable, tables, i, before, encoder.Contents());
    }
    return Ok(());
  }

  method WriteEnumValues(values: seq<EnumValue>, encoder: ABIEncoder) returns (r: Result<()>)
    requires encoder.Valid()
    modifies encoder, encoder.buffer
    ensures encoder.Valid() && (encoder.buffer == old(encoder.buffer) || fresh(encoder.buffer))
    ensures r == if forall j :: 0 <= j < |values| ==> IsSafe(values[j].value) then Ok(()) else Err(UnsafeNumber)
    ensures r.Ok? ==> encoder.Contents() == old(encoder.Contents()) + PutList(PutEnumValue, values)
  {
    hide ToUint32, Varuint, PutText, PutUint16, Int64Bytes, IsUint16;
    encoder.WriteVaruint32(|values|);
    assert values[0..] == values;
    ConcatAssociates(old(encoder.Contents()), Varuint(ToUint32(|values|)), PutEach(PutEnumValue, values));
    for i := 0 to |values|
      invariant encoder.Valid() && (encoder.buffer == old(encoder.buffer) || fresh(encoder.buffer))
      invariant forall j :: 0 <= j < i ==> IsSafe(values[j].value)
      invariant encoder.Contents() + PutEach(PutEnumValue, values[i..])
                == old(encoder.Contents()) + PutList(PutEnumValue, values)
    {
      ghost var before := encoder.Contents();
      var v := values[i];
      WriteText(v.name, encoder);
      var _ :- WriteEnumValue(v.value, encoder);
      ghost var p0, p1 := PutText(v.name), Int64Bytes(v.value);
      ConcatAssociates(before, p0, p1);
      PutEachStep(PutEnumValue, values, i, before, encoder.Contents());
    }
    return Ok(());
  }

  method WriteEnums(enums: seq<EnumDef>, encoder: ABIEncoder) returns (r: Result<()>)
    requires encoder.Valid()
    modifies encoder, encoder.buffer
    ensures encoder.Valid() && (encoder.buffer == old(encoder.buffer) || fresh(encoder.buffer))
    ensures r == if forall j :: 0 <= j < |enums| ==> EnumFits(enums[j]) then Ok(()) else Err(UnsafeNumber)
    ensures r.Ok? ==> encoder.Contents() == old(encoder.Contents()) + PutList(PutEnum, enums)
  {
    hide ToUint32, Varuint, PutText, PutUint16, Int64Bytes, IsUint16;
    encoder.WriteVaruint32(|enums|);
    assert enums[0..] == enums;
    ConcatAssociates(old(encoder.Contents()), Varuint(ToUint32(|enums|)), PutEach(PutEnum, enums));
    for i := 0 to |enums|
      invariant encoder.Valid() && (encoder.buffer == old(encoder.buffer) || fresh(encoder.buffer))
      invariant forall j :: 0 <= j < i ==> EnumFits(enums[j])
      invariant encoder.Contents() + PutEach(PutEnum, enums[i..])
                == old(encoder.Contents()) + PutList(PutEnum, enums)
    {
      ghost var before := encoder.Contents();
      var e := enums[i];
      WriteText(e.name, encoder);
      WriteText(e.typ, encoder);
      var _ :- WriteEnumValues(e.values, encoder);
      ghost var p0, p1, p2 := PutText(e.name), PutText(e.typ), PutList(PutEnumValue, e.values);
      ConcatAssociates(before + p0, p1, p2);
      ConcatAssociates(before, p0, p1 + p2);
      PutEachStep(PutEnum, enums, i, before, encoder.Contents());
    }
    return Ok(());
  }

  method WriteExtensions(a: ABI, encoder: ABIEncoder) returns (r: Result<()>)
    requires encoder.Valid()
    modifies encoder, encoder.buffer
    ensures encoder.Valid() && (encoder.buffer == old(encoder.buffer) || fresh(encoder.buffer))
    ensures r == if EnumsFit(a) then Ok(()) else Err(UnsafeNumber)
    ensures r.Ok? ==> encoder.Contents() == old(encoder.Contents()) + PutExtensions(a)
  {
    hide PutText, PutList, IsOneX;
    ghost var before := encoder.Contents();
    WriteVariants(a.variants, encoder);
    WriteActionResults(a.actionResults, encoder);
    var _ :- WriteEnums(a.enums, encoder);
    ghost var p0, p1 := PutList(PutVariant, a.variants), PutList(PutActionResult, a.actionResults);
    ghost var p2, p3 := PutList(PutEnum, a.enums), PutTrailer(a.version);
    ghost var written := encoder.Contents();
    if IsOneX(a.version) {
      WriteText([], encoder);
    } else {
      assert written + [] == written;
    }
    ConcatAssociates(before + p0 + p1, p2, p3);
    ConcatAssociates(before + p0, p1, p2 + p3);
    ConcatAssociates(before, p0, p1 + (p2 + p3));
    return Ok(());
  }

  /** Tables come before enums, so an id out of range is what a definition with both faults reports. */
  method WriteAbi(a: ABI, encoder: ABIEncoder) returns (r: Result<()>)
    requires encoder.Valid()
    modifies encoder, encoder.buffer
    ensures encoder.Valid() && (encoder.buffer == old(encoder.buffer) || fresh(encoder.buffer))
    ensures r == if !TablesFit(a) then Err(OutOfRange) else if !EnumsFit(a) then Err(UnsafeNumber) else Ok(())
    ensures r.Ok? ==> encoder.Contents() == old(encoder.Contents()) + ToAbi(a)
  {
    hide PutText, PutList, PutExtensions, Varuint;
    ghost var before := encoder.Contents();
    WriteText(a.version, encoder);
    WriteTypeDefs(a.types, encoder);
    WriteStructs(a.structs, encoder);
    WriteActions(a.actions, encoder);
    var _ :- WriteTables(a.tables, encoder);
    WriteClauses(a.clauses, encoder);
    encoder.WriteVaruint32(0);
    encoder.WriteVaruint32(0);
    var _ :- WriteExtensions(a, encoder);
    ghost var p0, p1, p2 := PutText(a.version), PutList(PutTypeDef, a.types), PutList(PutStruct, a.structs);
    ghost var p3, p4, p5 := PutList(PutAction, a.actions), PutList(PutTable, a.tables), PutList(PutClause, a.clauses);
    ghost var p6, p7, p8 := Varuint(0), Varuint(0), PutExtensions(a);
    ConcatAssociates(before + p0 + p1 + p2 + p3 + p4 + p5 + p6, p7, p8);
    ConcatAssociates(before + p0 + p1 + p2 + p3 + p4 + p5, p6, p7 + p8);
    ConcatAssociates(before + p0 + p1 + p2 + p3 + p4, p5, p6 + (p7 + p8));
    ConcatAssociates(before + p0 + p1 + p2 + p3, p4, p5 + (p6 + (p7 + p8)));
    ConcatAssociates(before + p0 + p1 + p2, p3, p4 + (p5 + (p6 + (p7 + p8))));
    ConcatAssociates(before + p0 + p1, p2, p3 + (p4 + (p5 + (p6 + (p7 + p8)))));
    ConcatAssociates(before + p0, p1, p2 + (p3 + (p4 + (p5 + (p6 + (p7 + p8))))));
    ConcatAssociates(before, p0, p1 + (p2 + (p3 + (p4 + (p5 + (p6 + (p7 + p8)))))));
    return Ok(());
  }
}
