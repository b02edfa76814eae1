/** One definition with one of everything, byte for byte: the order and widths of the binary form (chain/Abi.ts). */
module AbiSample {
  import opened Bytes
  import opened Varint
  import opened Types
  import opened Leaf
  import opened Abi
  import opened AbiFormat

  /** Every text is another letter, every number shows the order of its bytes. */
  function Sample(): ABI {
    ABI([49],
        [TypeDef([97], [98])],
        [StructDef([99], [100], [FieldDef([101], [102])])],
        [ActionDef(0x0201, [103], [104])],
        [SampleTable()],
        [ClauseDef([112], [113])],
        [VariantDef([114], [[115]])],
        [ActionResultDef(0x0605, [116])],
        [EnumDef([117], [118], [EnumValue([119], -2)])])
  }

  function SampleTable(): TableDef {
    TableDef([105], [106], [[107]], [[108]], [109], Some(0x0403), Some([IndexDef([110], [111], Some(0x0807))]))
  }

  lemma OneText(b: byte)
    ensures PutText([b]) == [1, b]
  {
    assert ToUint32(1) == 1 && Varuint(1) == [1];
  }

  lemma OneItem<T>(put: T -> bytes, x: T)
    ensures PutList(put, [x]) == [1] + put(x)
  {
    assert ToUint32(1) == 1 && Varuint(1) == [1];
    assert PutEach(put, [x][1..]) == [];
  }

  lemma LittleEndian(n: nat)
    requires n < 0x1_0000
    ensures ToLe(n, 8) == [n % 256, n / 256, 0, 0, 0, 0, 0, 0]
  {
    assert ToLe(0, 3) == [0, 0, 0];
    assert ToLe(0, 6) == [0, 0, 0] + ToLe(0, 3);
    assert ToLe(n, 8) == [n % 256] + ToLe(n / 256, 7) && ToLe(n / 256, 7) == [n / 256] + ToLe(0, 6);
  }

  lemma MinusTwo()
    ensures Int64Bytes(-2) == [254, 255, 255, 255, 255, 255, 255, 255]
  {
    Pow256Of8();
    hide Pow256;
    ToLeStep(0xFF, 0);
    ToLeStep(0xFFFF, 1);
    ToLeStep(0xFF_FFFF, 2);
    ToLeStep(0xFFFF_FFFF, 3);
    ToLeStep(0xFF_FFFF_FFFF, 4);
    ToLeStep(0xFFFF_FFFF_FFFF, 5);
    ToLeStep(0xFF_FFFF_FFFF_FFFF, 6);
    ToLeStep(0xFFFF_FFFF_FFFF_FFFE, 7);
    hide ToLe;
  }

  lemma ToLeStep(n: nat, w: nat)
    ensures ToLe(n, w + 1) == [n % 256] + ToLe(n / 256, w)
    ensures w == 0 ==> ToLe(n, w) == []
  {
  }

  lemma TypeDefs()
    ensures PutList(PutTypeDef, Sample().types) == [1, 1, 97, 1, 98]
  {
    OneText(97);
    OneText(98);
    OneItem(PutTypeDef, Sample().types[0]);
    hide PutText, PutList;
  }

  lemma Structs()
    ensures PutList(PutStruct, Sample().structs) == [1, 1, 99, 1, 100, 1, 1, 101, 1, 102]
  {
    forall b: byte { OneText(b); }
    OneItem(PutField, FieldDef([101], [102]));
    OneItem(PutStruct, Sample().structs[0]);
    hide PutText, PutList;
  }

  lemma Actions()
    ensures PutList(PutAction, Sample().actions) == [1, 1, 2, 0, 0, 0, 0, 0, 0, 1, 103, 1, 104]
  {
    OneText(103);
    OneText(104);
    LittleEndian(0x0201);
    OneItem(PutAction, Sample().actions[0]);
    hide PutText, PutList, ToLe;
  }

  lemma Clauses()
    ensures PutList(PutClause, Sample().clauses) == [1, 1, 112, 1, 113]
  {
    OneText(112);
    OneText(113);
    OneItem(PutClause, Sample().clauses[0]);
    hide PutText, PutList;
  }

  lemma Table()
    ensures PutTable(SampleTable())
            == [1, 105] + ([1, 106] + ([1, 1, 107] + ([1, 1, 108] + ([1, 109] + ([3, 4] + [1, 1, 110, 1, 111, 7, 8])))))
  {
    var t := SampleTable();
    forall b: byte { OneText(b); }
    OneItem(PutText, t.keyNames[0]);
    OneItem(PutText, t.keyTypes[0]);
    Index();
    hide PutText, PutList, PutIndex;
    OneItem(PutIndex, t.secondaryIndexes.value[0]);
  }

  lemma Index()
    ensures PutIndex(IndexDef([110], [111], Some(0x0807))) == [1, 110, 1, 111, 7, 8]
  {
    OneText(110);
    OneText(111);
    hide PutText;
  }

  lemma Variants()
    ensures PutList(PutVariant, Sample().variants) == [1, 1, 114, 1, 1, 115]
  {
    var v := Sample().variants[0];
    OneText(114);
    OneText(115);
    OneItem(PutText, v.types[0]);
    OneItem(PutVariant, v);
    hide PutText, PutList;
  }

  lemma Results()
    ensures PutList(PutActionResult, Sample().actionResults) == [1, 5, 6, 0, 0, 0, 0, 0, 0, 1, 116]
  {
    OneText(116);
    LittleEndian(0x0605);
    OneItem(PutActionResult, Sample().actionResults[0]);
    hide PutText, PutList, ToLe;
  }

  lemma Enums()
    ensures PutList(PutEnum, Sample().enums)
            == [1] + ([1, 117] + ([1, 118] + ([1] + ([1, 119] + [254, 255, 255, 255, 255, 255, 255, 255]))))
  {
    var e := Sample().enums[0];
    forall b: byte { OneText(b); }
    MinusTwo();
    OneItem(PutEnumValue, e.values[0]);
    OneItem(PutEnum, e);
    hide PutText, PutList, Int64Bytes;
  }

  /** Version, aliases, structs, actions, tables, clauses, two empty lists, variants, action results, enums. */
  lemma SampleBytes()
    ensures ToAbi(Sample())
            == [1, 49] + ([1, 1, 97, 1, 98] + ([1, 1, 99, 1, 100, 1, 1, 101, 1, 102] +
                 ([1, 1, 2, 0, 0, 0, 0, 0, 0, 1, 103, 1, 104] + (([1] + PutTable(SampleTable())) +
                   ([1, 1, 112, 1, 113] + ([0] + ([0] +
                     ([1, 1, 114, 1, 1, 115] + ([1, 5, 6, 0, 0, 0, 0, 0, 0, 1, 116] +
                       (PutList(PutEnum, Sample().enums) + []))))))))))
  {
    OneText(49);
    TypeDefs();
    Structs();
    Actions();
    OneItem(PutTable, SampleTable());
    Clauses();
    Variants();
    Results();
    var version: Text := [49];
    assert !IsOneX(version);
    assert Varuint(0) == [0];
    hide PutText, PutList, Varuint, IsOneX, PutTable;
  }
}
