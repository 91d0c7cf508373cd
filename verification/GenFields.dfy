/**
 The field half of the table generator: field specifications from several
 documents are merged by tag, and the list of length fields is drawn from the
 result. The reader's length-tag table is built over that list.
 */
module GenFields {
  import opened KeyOrder
  import opened LengthTags

  /** A `<field>` element; the number is 0 when absent or not a number. */
  datatype FieldSpec = FieldSpec(number: int, name: string, typeName: string)

  datatype Field = Field(tag: int, name: string, typeName: string, aliases: seq<string>)

  // the table of type names, in four stretches

  const TypeNames1: map<string, string> := map[
    "INT" := "int",
    "LENGTH" := "Length",
    "NUMINGROUP" := "NumInGroup",
    "SEQNUM" := "SeqNum",
    "TAGNUM" := "TagNum",
    "FLOAT" := "float",
    "QTY" := "Qty",
    "PRICE" := "Price"
  ]

  const TypeNames2: map<string, string> := map[
    "PRICEOFFSET" := "PriceOffset",
    "AMT" := "Amt",
    "PERCENTAGE" := "Percentage",
    "CHAR" := "char",
    "BOOLEAN" := "Boolean",
    "STRING" := "String",
    "MULTIPLECHARVALUE" := "MultipleCharValue",
    "MULTIPLESTRINGVALUE" := "MultipleStringValue"
  ]

  const TypeNames3: map<string, string> := map[
    "COUNTRY" := "Country",
    "CURRENCY" := "Currency",
    "EXCHANGE" := "Exchange",
    "MONTHYEAR" := "MonthYear",
    "UTCTIMESTAMP" := "UTCTimestamp",
    "UTCTIMEONLY" := "UTCTimeOnly",
    "UTCDATEONLY" := "UTCDateOnly",
    "LOCALMKTDATE" := "LocalMktDate"
  ]

  const TypeNames4: map<string, string> := map[
    "LOCALMKTTIME" := "LocalMktTime",
    "TZTIMEONLY" := "TZTimeOnly",
    "TZTIMESTAMP" := "TZTimestamp",
    "DATA" := "data",
    "XMLDATA" := "XMLData",
    "LANGUAGE" := "Language",
    "XID" := "XID",
    "XIDREF" := "XIDREF"
  ]

  const TypeNames: map<string, string> := TypeNames1 + TypeNames2 + TypeNames3 + TypeNames4

  function NormalizeType(qf: string): (r: string) {
    if qf in TypeNames then TypeNames[qf] else qf
  }

  /** Where a stretch of the table has `Length`. */
  ghost predicate LengthOnlyAt(names: map<string, string>, at: set<string>) {
    forall k | k in names :: names[k] == "Length" <==> k in at
  }

  lemma LengthInTable()
    ensures LengthOnlyAt(TypeNames1, {"LENGTH"}) && "LENGTH" in TypeNames1
    ensures LengthOnlyAt(TypeNames2, {}) && LengthOnlyAt(TypeNames3, {}) && LengthOnlyAt(TypeNames4, {})
    ensures "Length" !in TypeNames
    ensures "LENGTH" !in TypeNames2 && "LENGTH" !in TypeNames3 && "LENGTH" !in TypeNames4
  {
    LengthIn1();
    LengthIn2();
    LengthIn3();
    LengthIn4();
  }

  lemma LengthIn1()
    ensures LengthOnlyAt(TypeNames1, {"LENGTH"}) && "Length" !in TypeNames1 && "LENGTH" in TypeNames1
  {
  }

  lemma LengthIn2()
    ensures LengthOnlyAt(TypeNames2, {}) && "Length" !in TypeNames2 && "LENGTH" !in TypeNames2
  {
  }

  lemma LengthIn3()
    ensures LengthOnlyAt(TypeNames3, {}) && "Length" !in TypeNames3 && "LENGTH" !in TypeNames3
  {
  }

  lemma LengthIn4()
    ensures LengthOnlyAt(TypeNames4, {}) && "Length" !in TypeNames4 && "LENGTH" !in TypeNames4
  {
  }

  /** Only two spellings of a type become `Length`. */
  lemma LengthSpellings(qf: string)
    ensures NormalizeType(qf) == "Length" <==> qf == "LENGTH" || qf == "Length"
  {
    hide TypeNames1, TypeNames2, TypeNames3, TypeNames4;
    LengthInTable();
  }

  ghost predicate Apart(a: map<string, string>, b: map<string, string>) {
    forall k | k in a :: k !in b
  }

  lemma StretchesApart()
    ensures Apart(TypeNames1, TypeNames2) && Apart(TypeNames1, TypeNames3) && Apart(TypeNames1, TypeNames4)
    ensures Apart(TypeNames2, TypeNames3) && Apart(TypeNames2, TypeNames4) && Apart(TypeNames3, TypeNames4)
  {
    Apart12();
    Apart13();
    Apart14();
    Apart23();
    Apart24();
    Apart34();
  }

  lemma Apart12()
    ensures Apart(TypeNames1, TypeNames2)
  {
  }

  lemma Apart13()
    ensures Apart(TypeNames1, TypeNames3)
  {
  }

  lemma Apart14()
    ensures Apart(TypeNames1, TypeNames4)
  {
  }

  lemma Apart23()
    ensures Apart(TypeNames2, TypeNames3)
  {
  }

  lemma Apart24()
    ensures Apart(TypeNames2, TypeNames4)
  {
  }

  lemma Apart34()
    ensures Apart(TypeNames3, TypeNames4)
  {
  }

  /** A name is looked up in the stretch that has it. */
  lemma InStretch(k: string)
    ensures k in TypeNames1 ==> NormalizeType(k) == TypeNames1[k]
    ensures k in TypeNames2 ==> NormalizeType(k) == TypeNames2[k]
    ensures k in TypeNames3 ==> NormalizeType(k) == TypeNames3[k]
    ensures k in TypeNames4 ==> NormalizeType(k) == TypeNames4[k]
    ensures k !in TypeNames1 && k !in TypeNames2 && k !in TypeNames3 && k !in TypeNames4 ==> NormalizeType(k) == k
  {
    hide TypeNames1, TypeNames2, TypeNames3, TypeNames4;
    StretchesApart();
  }

  lemma Spellings1()
    ensures NormalizeType("INT") == "int" && NormalizeType("LENGTH") == "Length"
    ensures NormalizeType("NUMINGROUP") == "NumInGroup" && NormalizeType("SEQNUM") == "SeqNum"
    ensures NormalizeType("TAGNUM") == "TagNum" && NormalizeType("FLOAT") == "float"
    ensures NormalizeType("QTY") == "Qty" && NormalizeType("PRICE") == "Price"
  {
    hide TypeNames, NormalizeType, TypeNames2, TypeNames3, TypeNames4;
    forall name | name in TypeNames1 ensures NormalizeType(name) == TypeNames1[name] {
      InStretch(name);
    }
  }

  lemma Spellings2()
    ensures NormalizeType("PRICEOFFSET") == "PriceOffset" && NormalizeType("AMT") == "Amt"
    ensures NormalizeType("PERCENTAGE") == "Percentage" && NormalizeType("CHAR") == "char"
    ensures NormalizeType("BOOLEAN") == "Boolean" && NormalizeType("STRING") == "String"
    ensures NormalizeType("MULTIPLECHARVALUE") == "MultipleCharValue"
    ensures NormalizeType("MULTIPLESTRINGVALUE") == "MultipleStringValue"
  {
    hide TypeNames, NormalizeType, TypeNames1, TypeNames3, TypeNames4;
    forall name | name in TypeNames2 ensures NormalizeType(name) == TypeNames2[name] {
      InStretch(name);
    }
  }

  lemma Spellings3()
    ensures NormalizeType("COUNTRY") == "Country" && NormalizeType("CURRENCY") == "Currency"
    ensures NormalizeType("EXCHANGE") == "Exchange" && NormalizeType("MONTHYEAR") == "MonthYear"
    ensures NormalizeType("UTCTIMESTAMP") == "UTCTimestamp" && NormalizeType("UTCTIMEONLY") == "UTCTimeOnly"
    ensures NormalizeType("UTCDATEONLY") == "UTCDateOnly" && NormalizeType("LOCALMKTDATE") == "LocalMktDate"
  {
    hide TypeNames, NormalizeType, TypeNames1, TypeNames2, TypeNames4;
    forall name | name in TypeNames3 ensures NormalizeType(name) == TypeNames3[name] {
      InStretch(name);
    }
  }

  lemma Spellings4()
    ensures NormalizeType("LOCALMKTTIME") == "LocalMktTime" && NormalizeType("TZTIMEONLY") == "TZTimeOnly"
    ensures NormalizeType("TZTIMESTAMP") == "TZTimestamp" && NormalizeType("DATA") == "data"
    ensures NormalizeType("XMLDATA") == "XMLData" && NormalizeType("LANGUAGE") == "Language"
    ensures NormalizeType("XID") == "XID" && NormalizeType("XIDREF") == "XIDREF"
  {
    hide TypeNames, NormalizeType, TypeNames1, TypeNames2, TypeNames3;
    forall name | name in TypeNames4 ensures NormalizeType(name) == TypeNames4[name] {
      InStretch(name);
    }
  }

  /** The type names are given their mixed-case spelling, and any other text is kept. */
  lemma OtherTypesKept(qf: string)
    requires qf !in ["INT", "LENGTH", "NUMINGROUP", "SEQNUM"]
    requires qf !in ["TAGNUM", "FLOAT", "QTY", "PRICE"]
    requires qf !in ["PRICEOFFSET", "AMT", "PERCENTAGE", "CHAR"]
    requires qf !in ["BOOLEAN", "STRING", "MULTIPLECHARVALUE", "MULTIPLESTRINGVALUE"]
    requires qf !in ["COUNTRY", "CURRENCY", "EXCHANGE", "MONTHYEAR"]
    requires qf !in ["UTCTIMESTAMP", "UTCTIMEONLY", "UTCDATEONLY", "LOCALMKTDATE"]
    requires qf !in ["LOCALMKTTIME", "TZTIMEONLY", "TZTIMESTAMP", "DATA"]
    requires qf !in ["XMLDATA", "LANGUAGE", "XID", "XIDREF"]
    ensures NormalizeType(qf) == qf
  {
    hide TypeNames, NormalizeType;
    InStretch(qf);
  }

  predicate Usable(spec: FieldSpec) {
    spec.name != "" && spec.typeName != "" && spec.number > 0
  }

  /** The usable specifications of one tag, in order. */
  function SpecsOf(specs: seq<FieldSpec>, tag: int): (r: seq<FieldSpec>) {
    if |specs| == 0 then []
    else
      var last := specs[|specs| - 1];
      SpecsOf(specs[..|specs| - 1], tag) + if Usable(last) && last.number == tag then [last] else []
  }

  function NamesOf(specs: seq<FieldSpec>): (r: seq<string>)
    ensures |r| == |specs|
  {
    seq(|specs|, i requires 0 <= i < |specs| => specs[i].name)
  }

  /** What the specifications of a tag merge to: the first names and types the field, the
      other names are aliases, each once. */
  predicate Merges(f: Field, tag: int, specs: seq<FieldSpec>) {
    && |specs| > 0
    && f.tag == tag
    && [f.name] + f.aliases == Distinct(NamesOf(specs))
    && f.typeName == NormalizeType(specs[0].typeName)
  }

  ghost predicate Describes(fields: map<int, Field>, specs: seq<FieldSpec>) {
    forall tag: int ::
      if SpecsOf(specs, tag) == [] then tag !in fields
      else tag in fields && Merges(fields[tag], tag, SpecsOf(specs, tag))
  }

  lemma SpecsOfAppend(specs: seq<FieldSpec>, f: FieldSpec, tag: int)
    ensures SpecsOf(specs + [f], tag) ==
            if Usable(f) && f.number == tag then SpecsOf(specs, tag) + [f] else SpecsOf(specs, tag)
  {
    assert (specs + [f])[..|specs|] == specs;
  }

  /** A further specification adds its name unless the field has it. */
  lemma MergeOne(f: Field, tag: int, specs: seq<FieldSpec>, next: FieldSpec)
    requires Merges(f, tag, specs)
    ensures Merges(if next.name in [f.name] + f.aliases then f else f.(aliases := f.aliases + [next.name]),
                   tag, specs + [next])
  {
    assert NamesOf(specs + [next]) == NamesOf(specs) + [next.name];
    DistinctAppend(NamesOf(specs), next.name);
    assert [f.name] + (f.aliases + [next.name]) == ([f.name] + f.aliases) + [next.name];
  }

  lemma MergeFirst(tag: int, next: FieldSpec)
    ensures Merges(Field(tag, next.name, NormalizeType(next.typeName), []), tag, [next])
  {
    assert NamesOf([next]) == [next.name];
  }

  class FieldTable {
    var fields: map<int, Field>
    ghost var loaded: seq<FieldSpec>

    ghost predicate Valid()
      reads this
    {
      Describes(fields, loaded)
    }

    constructor ()
      ensures Valid() && loaded == []
    {
      fields := map[];
      loaded := [];
    }

    /** One pass of the loop in `load_fields`. */
    method LoadField(f: FieldSpec)
      requires Valid()
      modifies this
      ensures Valid() && loaded == old(loaded) + [f]
    {
      hide SpecsOf, Merges, NormalizeType;
      ghost var was := fields;
      loaded := loaded + [f];
      forall tag: int
        ensures SpecsOf(loaded, tag) ==
                if Usable(f) && f.number == tag then SpecsOf(old(loaded), tag) + [f] else SpecsOf(old(loaded), tag)
      {
        SpecsOfAppend(old(loaded), f, tag);
      }
      if f.name == "" || f.typeName == "" || f.number <= 0 {
        return;
      }
      var normalized := NormalizeType(f.typeName);
      if f.number !in fields {
        fields := fields[f.number := Field(f.number, f.name, normalized, [])];
        MergeFirst(f.number, f);
        assert [] + [f] == [f];
        return;
      }
      var existing := fields[f.number];
      MergeOne(existing, f.number, SpecsOf(old(loaded), f.number), f);
      if existing.name != f.name && f.name !in existing.aliases {
        fields := fields[f.number := existing.(aliases := existing.aliases + [f.name])];
      }
    }

    /** `load_fields` */
    method LoadFields(specs: seq<FieldSpec>)
      requires Valid()
      modifies this
      ensures Valid() && loaded == old(loaded) + specs
    {
      var i := 0;
      while i < |specs|
        invariant 0 <= i <= |specs|
        invariant Valid() && loaded == old(loaded) + specs[..i]
      {
        LoadField(specs[i]);
        assert specs[..i + 1] == specs[..i] + [specs[i]];
        i := i + 1;
      }
      assert specs[..i] == specs;
    }

    /** The list of length fields in `emit_fields`. */
    method LengthFields() returns (lengths: seq<int>)
      requires Valid()
      ensures StrictlyAscending(lengths, IntLeq)
      ensures forall tag :: tag in lengths <==> NamesLengthTag(loaded, tag)
    {
      hide Describes, NamesLengthTag, IsDataLength;
      var order := KeysInOrder(fields.Keys, IntLeq);
      lengths := [];
      var i := 0;
      while i < |order|
        invariant 0 <= i <= |order|
        invariant StrictlyAscending(lengths, IntLeq)
        invariant forall tag :: tag in lengths <==> tag in order[..i] && IsDataLength(fields[tag])
      {
        ghost var seen := order[..i];
        assert forall tag :: tag in lengths ==> tag in seen;
        assert forall j | 0 <= j < |lengths| :: lengths[j] in lengths;
        assert forall j | 0 <= j < |lengths| :: lengths[j] in seen;
        assert order[..i + 1] == order[..i] + [order[i]];
        if IsDataLength(fields[order[i]]) {
          lengths := lengths + [order[i]];
        }
        i := i + 1;
      }
      assert order[..i] == order;
      forall tag
        ensures tag in lengths <==> NamesLengthTag(loaded, tag)
      {
        LengthTagOfField(fields, loaded, tag);
      }
    }
  }

  predicate IsDataLength(f: Field) {
    f.typeName == "Length" && f.tag != 9 && f.tag != 383
  }

  /** A tag's first specification that has a name and a type is of type Length, and the tag is
      neither BodyLength nor MaxMessageSize. */
  ghost predicate NamesLengthTag(specs: seq<FieldSpec>, tag: int) {
    && tag != 9
    && tag != 383
    && exists i ::
         && 0 <= i < |specs|
         && specs[i].number == tag > 0
         && specs[i].name != ""
         && specs[i].typeName in ["LENGTH", "Length"]
         && forall j | 0 <= j < i && specs[j].number == tag :: specs[j].name == "" || specs[j].typeName == ""
  }

  /** The first of a tag's usable specifications, by its position in the whole list. */
  lemma {:induction false} FirstSpec(specs: seq<FieldSpec>, tag: int) returns (i: nat)
    ensures SpecsOf(specs, tag) == [] ==> forall j | 0 <= j < |specs| :: !(Usable(specs[j]) && specs[j].number == tag)
    ensures SpecsOf(specs, tag) != [] ==>
              && i < |specs|
              && SpecsOf(specs, tag)[0] == specs[i]
              && Usable(specs[i])
              && specs[i].number == tag
              && forall j | 0 <= j < i :: !(Usable(specs[j]) && specs[j].number == tag)
  {
    i := 0;
    if |specs| > 0 {
      var n := |specs| - 1;
      i := FirstSpec(specs[..n], tag);
      if SpecsOf(specs[..n], tag) == [] {
        i := n;
      }
    }
  }

  /** The specifications of a tag are those of the list with this number, a name and a type. */
  lemma {:induction false} SpecsAre(specs: seq<FieldSpec>, tag: int, spec: FieldSpec)
    ensures spec in SpecsOf(specs, tag) <==>
            spec in specs && spec.number == tag > 0 && spec.name != "" && spec.typeName != ""
  {
    if |specs| > 0 {
      var n := |specs| - 1;
      SpecsAre(specs[..n], tag, spec);
      assert specs == specs[..n] + [specs[n]];
    }
  }

  /** They keep their order. */
  lemma {:induction false} SpecsInOrder(a: seq<FieldSpec>, b: seq<FieldSpec>, tag: int)
    ensures SpecsOf(a + b, tag) == SpecsOf(a, tag) + SpecsOf(b, tag)
  {
    if |b| == 0 {
      assert a + b == a;
    } else {
      var n := |b| - 1;
      SpecsInOrder(a, b[..n], tag);
      SpecsOfAppend(a + b[..n], b[n], tag);
      assert a + b == (a + b[..n]) + [b[n]];
    }
  }

  /** Somewhere in the list the tag has this name. */
  ghost predicate IsNamed(specs: seq<FieldSpec>, tag: int, name: string) {
    exists spec :: spec in specs && spec.number == tag > 0 && spec.name == name != "" && spec.typeName != ""
  }

  /** A tag is in the table if it has a name; its names are the field's name and the aliases, each
      once; and the first specification with this number, a name and a type decides name and type. */
  lemma FieldMeaning(fields: map<int, Field>, specs: seq<FieldSpec>, tag: int, name: string)
    requires Describes(fields, specs)
    ensures IsNamed(specs, tag, name) <==> tag in fields && name in [fields[tag].name] + fields[tag].aliases
    ensures tag in fields ==> fields[tag].tag == tag && NoRepeats([fields[tag].name] + fields[tag].aliases)
    ensures tag in fields ==> exists i: nat ::
              && i < |specs|
              && fields[tag].name == specs[i].name
              && fields[tag].typeName == NormalizeType(specs[i].typeName)
              && specs[i].number == tag > 0 && specs[i].name != "" && specs[i].typeName != ""
              && forall j | 0 <= j < i && specs[j].number == tag :: specs[j].name == "" || specs[j].typeName == ""
  {
    hide SpecsOf, NormalizeType;
    var own := SpecsOf(specs, tag);
    var i := FirstSpec(specs, tag);
    forall spec
      ensures spec in own <==> spec in specs && spec.number == tag > 0 && spec.name != "" && spec.typeName != ""
    {
      SpecsAre(specs, tag, spec);
    }
    if own != [] {
      assert own[0].name == NamesOf(own)[0] == fields[tag].name;
      if name in NamesOf(own) {
        var k :| 0 <= k < |own| && NamesOf(own)[k] == name;
        assert own[k] in own;
      }
      forall spec | spec in own ensures spec.name in NamesOf(own) {
        var k :| 0 <= k < |own| && own[k] == spec;
        assert NamesOf(own)[k] == spec.name;
      }
    }
  }

  lemma LengthTagOfField(fields: map<int, Field>, specs: seq<FieldSpec>, tag: int)
    requires Describes(fields, specs)
    ensures tag in fields && IsDataLength(fields[tag]) <==> NamesLengthTag(specs, tag)
  {
    hide SpecsOf, NormalizeType;
    var i := FirstSpec(specs, tag);
    if SpecsOf(specs, tag) != [] {
      LengthSpellings(specs[i].typeName);
    }
  }

  function Flatten(docs: seq<seq<FieldSpec>>): (r: seq<FieldSpec>) {
    if |docs| == 0 then [] else docs[0] + Flatten(docs[1..])
  }

  /** From the documents to the answer the reader gets: an integer is a length tag exactly when
      the first usable specification of it, over all documents in order, has type Length and it
      is neither 9 nor 383. */
  method IsTagADataLength(docs: seq<seq<FieldSpec>>, tag: int) returns (answer: bool)
    ensures answer <==> NamesLengthTag(Flatten(docs), tag)
  {
    var table := new FieldTable();
    var i := 0;
    assert docs[0..] == docs;
    while i < |docs|
      invariant 0 <= i <= |docs|
      invariant table.Valid() && fresh(table)
      invariant table.loaded + Flatten(docs[i..]) == Flatten(docs)
    {
      table.LoadFields(docs[i]);
      assert docs[i..][1..] == docs[i + 1..];
      i := i + 1;
    }
    assert table.loaded == Flatten(docs);
    var lengths := table.LengthFields();
    assert forall j | 0 <= j < |lengths| :: lengths[j] in lengths;
    assert Ascending(lengths);
    var index := new LengthTagIndex(lengths);
    answer := index.Contains(tag);
  }
}
