/**
 * The schema extraction of the Keycloak REST API reference transformer.
 * Each definition section of the generated HTML reference becomes an OpenAPI
 * object schema keyed by the section's title; the schema's properties are
 * the rows of the section's table, each row's type text resolved to an
 * OpenAPI type.
 *
 * The HTML document is given as the text its selectors find: per section the
 * text of its first `h3` heading, and per table row the text of the property
 * name and of the type cell, each absent when the selector matches nothing.
 * Where the transformer unwraps an absent node and panics, the model returns
 * an error naming that node.
 */
module Schemas {
  import opened Wrappers
  import opened Strings
  import opened OpenApi
  import IndexMap
  import BTreeMap

  // ---------------------------------------------------------------------
  // Type resolution
  // ---------------------------------------------------------------------

  const EnumStart := "enum ("
  const EnumEnd := ")"
  const EnumSeparator := ", "

  /** The raw type text reads `enum (`...`)`. */
  predicate HasEnumShape(rawType: string) {
    StartsWith(rawType, EnumStart) && EndsWith(rawType, EnumEnd)
  }

  /** The prefix ends in `(`, not `)`, so an enum-shaped text holds both. */
  lemma EnumShapeLength(rawType: string)
    requires HasEnumShape(rawType)
    ensures |EnumStart| + |EnumEnd| <= |rawType|
  {
    assert rawType[5] == '(' by {
      assert rawType[..|EnumStart|][5] == rawType[5];
    }
    assert rawType[|rawType| - 1] == ')' by {
      assert rawType[|rawType| - |EnumEnd|..][0] == rawType[|rawType| - 1];
    }
  }

  /** A text that does not open with `e` is not enum-shaped. */
  lemma NotEnumShape(rawType: string)
    requires rawType == [] || rawType[0] != 'e'
    ensures !HasEnumShape(rawType)
  {
  }

  /** The text between `enum (` and the final `)`. */
  function EnumBody(rawType: string): (body: string)
    requires HasEnumShape(rawType)
    ensures |body| == |rawType| - |EnumStart| - |EnumEnd|
    ensures rawType == EnumStart + body + EnumEnd
  {
    EnumShapeLength(rawType);
    var body := rawType[|EnumStart|..|rawType| - |EnumEnd|];
    assert rawType == rawType[..|EnumStart|] + body + rawType[|rawType| - |EnumEnd|..];
    body
  }

  /** Wrapping a body in `enum (` and `)` gives enum-shaped text with that body. */
  lemma EnumBodyOf(body: string)
    ensures HasEnumShape(EnumStart + body + EnumEnd)
    ensures EnumBody(EnumStart + body + EnumEnd) == body
  {
    var raw := EnumStart + body + EnumEnd;
    assert raw[..|EnumStart|] == EnumStart;
    assert raw[|raw| - |EnumEnd|..] == EnumEnd;
    var b := EnumBody(raw);
    assert b == raw[|EnumStart|..|EnumStart| + |b|];
    assert body == raw[|EnumStart|..|EnumStart| + |body|];
  }

  /**
   * `values` are the literals written in `body`: at least one, none holding
   * the separator, and joined with the separator they give `body` verbatim.
   */
  predicate EnumValuesOf(body: string, values: seq<string>) {
    && values != []
    && Join(values, EnumSeparator) == body
    && forall i :: 0 <= i < |values| ==> !Contains(values[i], EnumSeparator)
  }

  /** The literals of an enumeration body are determined by it. */
  lemma EnumValuesUnique(body: string, values: seq<string>, others: seq<string>)
    requires EnumValuesOf(body, values) && EnumValuesOf(body, others)
    ensures values == others
  {
    SplitUnique(values, EnumSeparator);
    SplitUnique(others, EnumSeparator);
  }

  /** `enum_type`: the enumerated string type of an `enum (a, b, c)` text. */
  function EnumType(rawType: string): (r: Option<Type>)
    ensures r.Some? <==> HasEnumShape(rawType)
    ensures r.Some? ==> r.value.Str? && r.value.stringType.(enumeration := []) == DefaultStringType
    ensures r.Some? ==> EnumValuesOf(EnumBody(rawType), r.value.stringType.enumeration)
  {
    if StartsWith(rawType, EnumStart) && EndsWith(rawType, EnumEnd) then
      EnumShapeLength(rawType);
      if |rawType| - |EnumEnd| < |EnumStart| then
        // `str::get` yields nothing for a reversed range
        None
      else
        var body := rawType[|EnumStart|..|rawType| - |EnumEnd|];
        var enumerations := Split(body, EnumSeparator);
        JoinSplit(body, EnumSeparator);
        SplitPiecesAvoidSep(body, EnumSeparator);
        Some(Str(DefaultStringType.(enumeration := enumerations)))
    else
      None
  }

  /** The raw type texts that the fixed table recognises. */
  predicate IsKnownTypeName(rawType: string) {
    rawType in {"integer(int32)", "integer(int64)", "number(float)", "boolean", "< string > array", "Map", "Object"}
  }

  /** A plain string schema: no enumeration, no format. */
  const PlainString := Schema(DefaultSchemaData, Str(DefaultStringType))

  /**
   * `parse_type`: an enum-shaped text is an enumerated string; otherwise the
   * fixed table decides, and any other text is a plain string.
   */
  function ParseType(rawType: string): (r: ReferenceOr<Schema>)
    ensures r.Item? && r.item.schemaData == DefaultSchemaData
  {
    var schemaType :=
      match EnumType(rawType)
      case Some(t) => t
      case None =>
        match rawType
        case "integer(int32)" => Integer(DefaultIntegerType.(format := Variant(Int32)))
        case "integer(int64)" => Integer(DefaultIntegerType.(format := Variant(Int64)))
        case "number(float)" => Number(DefaultNumberType.(format := Variant(Float)))
        case "boolean" => Boolean
        case "< string > array" => Array(ArrayType(Item(PlainString), None, None, false))
        case "Map" => Object(DefaultObjectType)
        case "Object" => Object(DefaultObjectType)
        case _ => Str(DefaultStringType);
    Item(Schema(DefaultSchemaData, schemaType))
  }

  /** The enum check comes first: an enum-shaped text is always an enumerated string. */
  lemma ParseTypeEnum(rawType: string)
    requires HasEnumShape(rawType)
    ensures var t := ParseType(rawType).item.schemaKind;
      && t.Str?
      && t.stringType.(enumeration := []) == DefaultStringType
      && EnumValuesOf(EnumBody(rawType), t.stringType.enumeration)
  {
  }

  /** No text of the fixed table is enum-shaped, so every table entry is reachable. */
  lemma KnownTypeNamesNotEnums(rawType: string)
    requires IsKnownTypeName(rawType)
    ensures !HasEnumShape(rawType)
  {
    NotEnumShape(rawType);
  }

  /** The fixed table, entry by entry. */
  lemma ParseTypeKnown()
    ensures ParseType("integer(int32)") == Item(Schema(DefaultSchemaData, Integer(IntegerType(Variant(Int32), None, false, false, None, None))))
    ensures ParseType("integer(int64)") == Item(Schema(DefaultSchemaData, Integer(IntegerType(Variant(Int64), None, false, false, None, None))))
    ensures ParseType("number(float)") == Item(Schema(DefaultSchemaData, Number(NumberType(Variant(Float), false, false))))
    ensures ParseType("boolean") == Item(Schema(DefaultSchemaData, Boolean))
    ensures ParseType("< string > array") == Item(Schema(DefaultSchemaData, Array(ArrayType(
      Item(Schema(DefaultSchemaData, Str(StringType(Empty, None, [], None, None)))), None, None, false))))
    ensures ParseType("Map") == Item(Schema(DefaultSchemaData, Object(ObjectType([], [], None, None))))
    ensures ParseType("Object") == Item(Schema(DefaultSchemaData, Object(ObjectType([], [], None, None))))
  {
    KnownTypeNamesNotEnums("integer(int32)");
    KnownTypeNamesNotEnums("integer(int64)");
    KnownTypeNamesNotEnums("number(float)");
    KnownTypeNamesNotEnums("boolean");
    KnownTypeNamesNotEnums("< string > array");
    KnownTypeNamesNotEnums("Map");
    KnownTypeNamesNotEnums("Object");
  }

  /** Any other text falls back to a plain string; resolution never fails. */
  lemma ParseTypeFallback(rawType: string)
    requires !HasEnumShape(rawType) && !IsKnownTypeName(rawType)
    ensures ParseType(rawType) == Item(PlainString)
  {
  }

  /**
   * Where each kind of result comes from: an enumeration only from an
   * enum-shaped text, a non-string type only from the fixed table.
   */
  lemma ParseTypeOrigin(rawType: string)
    ensures var t := ParseType(rawType).item.schemaKind;
      && (t.Str? && t.stringType.enumeration != [] <==> HasEnumShape(rawType))
      && (!t.Str? <==> IsKnownTypeName(rawType))
      && (t.Str? ==> t.stringType.(enumeration := []) == DefaultStringType)
  {
    if IsKnownTypeName(rawType) {
      KnownTypeNamesNotEnums(rawType);
      ParseTypeKnown();
    } else if !HasEnumShape(rawType) {
      ParseTypeFallback(rawType);
    }
  }

  /**
   * Writing separator-free values as `enum (v1, v2, ...)` and resolving the
   * text gives back exactly those values, in that order.
   */
  lemma EnumTypeOfValues(values: seq<string>)
    requires values != []
    requires forall i :: 0 <= i < |values| ==> !Contains(values[i], EnumSeparator)
    ensures EnumType(EnumStart + Join(values, EnumSeparator) + EnumEnd)
         == Some(Str(DefaultStringType.(enumeration := values)))
  {
    var body := Join(values, EnumSeparator);
    var raw := EnumStart + body + EnumEnd;
    EnumBodyOf(body);
    EnumValuesUnique(body, values, EnumType(raw).value.stringType.enumeration);
  }

  /** Enumerations keep the order and the spelling of the text. */
  lemma EnumTypeExampleList()
    ensures EnumType("enum (A, B, C)") == Some(Str(DefaultStringType.(enumeration := ["A", "B", "C"])))
  {
    var values := ["A", "B", "C"];
    assert Join(values, EnumSeparator) == "A, B, C";
    assert "enum (A, B, C)" == EnumStart + "A, B, C" + EnumEnd;
    EnumTypeOfValues(values);
  }

  /** `enum ()` has the one value `""`. */
  lemma EnumTypeExampleEmpty()
    ensures EnumType("enum ()") == Some(Str(DefaultStringType.(enumeration := [""])))
  {
  }

  /** Only the two characters `, ` separate values; a bare comma does not. */
  lemma EnumTypeExampleBareComma()
    ensures EnumType("enum (a,b)") == Some(Str(DefaultStringType.(enumeration := ["a,b"])))
  {
    var raw := "enum (a,b)";
    assert raw == EnumStart + "a,b" + EnumEnd;
    EnumBodyOf("a,b");
    assert !Contains("a,b", EnumSeparator) by {
      assert "a,b"[..2][0] != EnumSeparator[0];
      assert "a,b"[1..][..2][1] != EnumSeparator[1];
    }
    EnumValuesUnique("a,b", ["a,b"], EnumType(raw).value.stringType.enumeration);
  }

  /** Without the closing parenthesis the text is no enumeration. */
  lemma EnumTypeExampleUnclosed()
    ensures EnumType("enum (A, B") == None
  {
  }

  /** Near misses of the table are plain strings. */
  lemma ParseTypeFallbackExamples()
    ensures ParseType("integer") == Item(PlainString)
    ensures ParseType("< integer > array") == Item(PlainString)
    ensures ParseType("number(double)") == Item(PlainString)
    ensures ParseType("map") == Item(PlainString)
  {
    NotEnumShape("integer");
    NotEnumShape("< integer > array");
    NotEnumShape("number(double)");
    NotEnumShape("map");
  }

  // ---------------------------------------------------------------------
  // The document as its selectors see it
  // ---------------------------------------------------------------------

  /** One table row: the text of the property name and of the type cell. */
  datatype RawRow = RawRow(name: Option<string>, typeText: Option<string>)

  /** One definition section: the text of its heading and its table rows. */
  datatype RawSection = RawSection(title: Option<string>, rows: seq<RawRow>)

  /** A row whose two cells were found. */
  datatype Row = Row(name: string, typeText: string)

  /** A section whose heading and row cells were all found. */
  datatype Section = Section(title: string, rows: seq<Row>)

  /** The node whose absence stops the transformer: section and row positions. */
  datatype MissingNode =
    | MissingTitle(section: nat)
    | MissingName(section: nat, row: nat)
    | MissingTypeCell(section: nat, row: nat)

  predicate RowComplete(row: RawRow) {
    row.name.Some? && row.typeText.Some?
  }

  predicate SectionComplete(section: RawSection) {
    section.title.Some? && forall j :: 0 <= j < |section.rows| ==> RowComplete(section.rows[j])
  }

  /** `rows` are the complete `raw` rows with their text taken out. */
  predicate RowsUnwrap(raw: seq<RawRow>, rows: seq<Row>) {
    |raw| == |rows| && forall j :: 0 <= j < |raw| ==> raw[j] == RawRow(Some(rows[j].name), Some(rows[j].typeText))
  }

  /** `sections` are the complete `doc` sections with their text taken out. */
  predicate SectionsUnwrap(doc: seq<RawSection>, sections: seq<Section>) {
    && |doc| == |sections|
    && forall i :: 0 <= i < |doc| ==>
         doc[i].title == Some(sections[i].title) && RowsUnwrap(doc[i].rows, sections[i].rows)
  }

  /**
   * `e` names a cell of row `e.row` of `rows` in section `section` that is
   * absent, and every row before it is complete: the first unwrap to fail.
   */
  predicate LocatesInRows(rows: seq<RawRow>, section: nat, e: MissingNode) {
    match e
    case MissingTitle(_) => false
    case MissingName(s, j) =>
      s == section && j < |rows| && rows[j].name.None?
      && forall k :: 0 <= k < j ==> RowComplete(rows[k])
    case MissingTypeCell(s, j) =>
      s == section && j < |rows| && rows[j].name.Some? && rows[j].typeText.None?
      && forall k :: 0 <= k < j ==> RowComplete(rows[k])
  }

  /** `e` names the first absent node of `doc`, in the order the transformer reads them. */
  predicate Locates(doc: seq<RawSection>, e: MissingNode) {
    && e.section < |doc|
    && (forall k :: 0 <= k < e.section ==> SectionComplete(doc[k]))
    && match e
       case MissingTitle(i) => doc[i].title.None?
       case _ => doc[e.section].title.Some? && LocatesInRows(doc[e.section].rows, e.section, e)
  }

  /** The `unwrap` of each row's name and type cell, row by row. */
  function ExtractRows(raw: seq<RawRow>, section: nat): (r: Result<seq<Row>, MissingNode>)
    ensures r.Ok? <==> forall j :: 0 <= j < |raw| ==> RowComplete(raw[j])
    ensures r.Ok? ==> RowsUnwrap(raw, r.value)
    ensures r.Err? ==> LocatesInRows(raw, section, r.error)
  {
    if raw == [] then Ok([])
    else
      var n := |raw| - 1;
      match ExtractRows(raw[..n], section)
      case Err(e) => Err(e)
      case Ok(rows) =>
        if raw[n].name.None? then Err(MissingName(section, n))
        else if raw[n].typeText.None? then Err(MissingTypeCell(section, n))
        else Ok(rows + [Row(raw[n].name.value, raw[n].typeText.value)])
  }

  /** The `unwrap` of each section's heading and then of its rows, section by section. */
  function ExtractSections(doc: seq<RawSection>): (r: Result<seq<Section>, MissingNode>)
    ensures r.Ok? <==> forall i :: 0 <= i < |doc| ==> SectionComplete(doc[i])
    ensures r.Ok? ==> SectionsUnwrap(doc, r.value)
    ensures r.Err? ==> Locates(doc, r.error)
  {
    if doc == [] then Ok([])
    else
      var n := |doc| - 1;
      match ExtractSections(doc[..n])
      case Err(e) => Err(e)
      case Ok(sections) =>
        match doc[n].title
        case None => Err(MissingTitle(n))
        case Some(title) =>
          match ExtractRows(doc[n].rows, n)
          case Err(e) => Err(e)
          case Ok(rows) => Ok(sections + [Section(title, rows)])
  }

  // ---------------------------------------------------------------------
  // Folding rows into a schema, and sections into the schema map
  // ---------------------------------------------------------------------

  /** The row names in document order. */
  function Names(rows: seq<Row>): (names: seq<string>)
    ensures |names| == |rows|
  {
    seq(|rows|, j requires 0 <= j < |rows| => rows[j].name)
  }

  /** Each row as a property: its name and its resolved type. */
  function PropertyEntries(rows: seq<Row>): (entries: seq<(string, ReferenceOr<Schema>)>)
    ensures IndexMap.Keys(entries) == Names(rows)
    ensures forall j :: 0 <= j < |rows| ==> entries[j].1 == ParseType(rows[j].typeText)
  {
    var entries := seq(|rows|, j requires 0 <= j < |rows| => (rows[j].name, ParseType(rows[j].typeText)));
    forall j | 0 <= j < |rows| ensures IndexMap.Keys(entries)[j] == Names(rows)[j] {
      IndexMap.KeysAt(entries, j);
    }
    entries
  }

  /** `parse_schema`: an object schema whose properties are the rows collected into an `IndexMap`. */
  function ParseSchema(rows: seq<Row>): (schema: Schema)
    ensures schema.schemaData == DefaultSchemaData && schema.schemaKind.Object?
    ensures schema.schemaKind.objectType.(properties := []) == DefaultObjectType
  {
    var properties := IndexMap.FromSeq(PropertyEntries(rows));
    Schema(DefaultSchemaData, Object(DefaultObjectType.(properties := properties)))
  }

  /** The properties of the schema of `rows`. */
  function Properties(rows: seq<Row>): seq<(string, ReferenceOr<Schema>)> {
    ParseSchema(rows).schemaKind.objectType.properties
  }

  /**
   * The property names are the distinct row names in the order of their
   * first appearance, each once.
   */
  lemma ParseSchemaKeys(rows: seq<Row>)
    ensures IndexMap.Keys(Properties(rows)) == IndexMap.FirstOccurrences(Names(rows), {})
    ensures IndexMap.Distinct(IndexMap.Keys(Properties(rows)))
  {
    IndexMap.FromSeqKeys(PropertyEntries(rows));
  }

  /** A property's type is resolved from the last row that carries its name. */
  lemma ParseSchemaLastRowWins(rows: seq<Row>, j: nat)
    requires j < |rows|
    requires forall k :: j < k < |rows| ==> rows[k].name != rows[j].name
    ensures IndexMap.Get(Properties(rows), rows[j].name) == Some(ParseType(rows[j].typeText))
  {
    IndexMap.FromSeqLastWins(PropertyEntries(rows), j);
  }

  /** A name no row carries is not a property. */
  lemma ParseSchemaAbsent(rows: seq<Row>, name: string)
    requires forall k :: 0 <= k < |rows| ==> rows[k].name != name
    ensures IndexMap.Get(Properties(rows), name) == None
  {
    IndexMap.FromSeqAbsent(PropertyEntries(rows), name);
  }

  /**
   * Each section as a map entry: its title and its inline schema. The
   * entries carry exactly the section titles as keys.
   */
  function SchemaEntries(sections: seq<Section>): (entries: seq<(string, ReferenceOr<Schema>)>)
    ensures |entries| == |sections|
    ensures forall i :: 0 <= i < |sections| ==>
      entries[i].0 == sections[i].title && entries[i].1 == Item(ParseSchema(sections[i].rows))
    ensures forall t :: t in BTreeMap.Keys(entries) <==> exists i :: 0 <= i < |sections| && sections[i].title == t
  {
    var entries := seq(|sections|, i requires 0 <= i < |sections| => (sections[i].title, Item(ParseSchema(sections[i].rows))));
    assert forall t :: t in BTreeMap.Keys(entries) ==> exists i :: 0 <= i < |sections| && sections[i].title == t by {
      forall t | t in BTreeMap.Keys(entries) ensures exists i :: 0 <= i < |sections| && sections[i].title == t {
        var i := BTreeMap.KeyIndex(entries, t);
        assert sections[i].title == t;
      }
    }
    assert forall t :: (exists i :: 0 <= i < |sections| && sections[i].title == t) ==> t in BTreeMap.Keys(entries) by {
      forall t | exists i :: 0 <= i < |sections| && sections[i].title == t ensures t in BTreeMap.Keys(entries) {
        var i :| 0 <= i < |sections| && sections[i].title == t;
        BTreeMap.KeysAt(entries, i);
      }
    }
    entries
  }

  /**
   * `parse_schemas`: every section's schema collected into a `BTreeMap` keyed
   * by title, or the first node whose absence makes the transformer panic.
   */
  function ParseSchemas(doc: seq<RawSection>): (r: Result<seq<(string, ReferenceOr<Schema>)>, MissingNode>)
    ensures r.Ok? <==> forall i :: 0 <= i < |doc| ==> SectionComplete(doc[i])
    ensures r.Err? ==> Locates(doc, r.error)
    ensures r.Ok? ==> BTreeMap.Sorted(r.value)
  {
    match ExtractSections(doc)
    case Err(e) => Err(e)
    case Ok(sections) => Ok(BTreeMap.FromSeq(SchemaEntries(sections)))
  }

  /** The schema names are exactly the section titles. */
  lemma ParseSchemasKeys(doc: seq<RawSection>)
    requires ParseSchemas(doc).Ok?
    ensures BTreeMap.Keys(ParseSchemas(doc).value) == set i | 0 <= i < |doc| :: doc[i].title.value
  {
    var sections := ExtractSections(doc).value;
    var entries := SchemaEntries(sections);
    assert ParseSchemas(doc).value == BTreeMap.FromSeq(entries);
    BTreeMap.FromSeqKeys(entries);
    assert SectionsUnwrap(doc, sections);
    var titles := set i | 0 <= i < |doc| :: doc[i].title.value;
    forall t | t in BTreeMap.Keys(entries) ensures t in titles {
      var i :| 0 <= i < |sections| && sections[i].title == t;
      assert doc[i].title == Some(t);
    }
    forall t | t in titles ensures t in BTreeMap.Keys(entries) {
      var i :| 0 <= i < |doc| && doc[i].title.value == t;
      assert doc[i].title == Some(sections[i].title);
    }
  }

  /**
   * The schema of a title is the inline object schema of the last section
   * with that title, built from that section's rows.
   */
  lemma ParseSchemasLastSectionWins(doc: seq<RawSection>, i: nat, rows: seq<Row>)
    requires ParseSchemas(doc).Ok?
    requires i < |doc|
    requires forall k :: i < k < |doc| ==> doc[k].title != doc[i].title
    requires RowsUnwrap(doc[i].rows, rows)
    ensures BTreeMap.Get(ParseSchemas(doc).value, doc[i].title.value) == Some(Item(ParseSchema(rows)))
  {
    var sections := ExtractSections(doc).value;
    assert sections[i].rows == rows by {
      assert RowsUnwrap(doc[i].rows, sections[i].rows);
      assert forall j :: 0 <= j < |rows| ==> sections[i].rows[j] == rows[j];
    }
    BTreeMap.FromSeqLastWins(SchemaEntries(sections), i);
  }

  /** The `PolicyRepresentation` enumeration text is `enum (` + its values joined by `, ` + `)`. */
  lemma PolicyEnumText()
    ensures "enum (POSITIVE, NEGATIVE)" == EnumStart + Join(["POSITIVE", "NEGATIVE"], EnumSeparator) + EnumEnd
  {
    assert Join(["NEGATIVE"], EnumSeparator) == "NEGATIVE";
    assert ["POSITIVE", "NEGATIVE"][1..] == ["NEGATIVE"];
  }

  /** Neither `PolicyRepresentation` value holds the separator. */
  lemma PolicyValuesSeparatorFree()
    ensures !Contains("POSITIVE", EnumSeparator) && !Contains("NEGATIVE", EnumSeparator)
  {
    if Contains("POSITIVE", EnumSeparator) { ContainsFirstChar("POSITIVE", EnumSeparator); }
    if Contains("NEGATIVE", EnumSeparator) { ContainsFirstChar("NEGATIVE", EnumSeparator); }
  }

  /** The enumeration of the `PolicyRepresentation` example below. */
  lemma EnumTypeExamplePolicy()
    ensures EnumType("enum (POSITIVE, NEGATIVE)") == Some(Str(DefaultStringType.(enumeration := ["POSITIVE", "NEGATIVE"])))
  {
    PolicyEnumText();
    PolicyValuesSeparatorFree();
    EnumTypeOfValues(["POSITIVE", "NEGATIVE"]);
  }

  /** The `PolicyRepresentation` example's one row, folded into its schema. */
  lemma ParseSchemaExamplePolicy()
    ensures ParseSchema([Row("logic", "enum (POSITIVE, NEGATIVE)")])
         == Schema(DefaultSchemaData, Object(DefaultObjectType.(properties := [
              ("logic", Item(Schema(DefaultSchemaData, Str(DefaultStringType.(enumeration := ["POSITIVE", "NEGATIVE"])))))])))
  {
    var raw := "enum (POSITIVE, NEGATIVE)";
    var rows := [Row("logic", raw)];
    EnumTypeExamplePolicy();
    var property := Item(Schema(DefaultSchemaData, Str(DefaultStringType.(enumeration := ["POSITIVE", "NEGATIVE"]))));
    assert ParseType(raw) == property;
    assert PropertyEntries(rows) == [("logic", property)];
    assert [("logic", property)][..0] == [];
    assert IndexMap.FromSeq([("logic", property)]) == [("logic", property)];
  }

  /**
   * A section with a type cell reading `enum (POSITIVE, NEGATIVE)` yields a
   * string property with exactly those two values.
   */
  lemma PolicyRepresentationExample()
    ensures var r := ParseSchemas([RawSection(Some("PolicyRepresentation"), [RawRow(Some("logic"), Some("enum (POSITIVE, NEGATIVE)"))])]);
      && r.Ok?
      && r.value == [("PolicyRepresentation", Item(ParseSchema([Row("logic", "enum (POSITIVE, NEGATIVE)")])))]
      && Properties([Row("logic", "enum (POSITIVE, NEGATIVE)")])
         == [("logic", Item(Schema(DefaultSchemaData, Str(DefaultStringType.(enumeration := ["POSITIVE", "NEGATIVE"])))))]
  {
    var raw := "enum (POSITIVE, NEGATIVE)";
    var rawRows := [RawRow(Some("logic"), Some(raw))];
    var doc := [RawSection(Some("PolicyRepresentation"), rawRows)];
    var rows := [Row("logic", raw)];
    var sections := [Section("PolicyRepresentation", rows)];
    assert rawRows[..0] == [] && ExtractRows(rawRows[..0], 0) == Ok([]);
    assert ExtractRows(rawRows, 0).Ok? && ExtractRows(rawRows, 0).value == rows;
    assert doc[..0] == [] && ExtractSections(doc[..0]) == Ok([]);
    assert ExtractSections(doc).Ok? && ExtractSections(doc).value == sections;
    var schema := Item(ParseSchema(rows));
    assert SchemaEntries(sections) == [("PolicyRepresentation", schema)];
    assert [("PolicyRepresentation", schema)][..0] == [];
    assert BTreeMap.FromSeq([("PolicyRepresentation", schema)]) == [("PolicyRepresentation", schema)];
    ParseSchemaExamplePolicy();
  }

  /** A second section without a heading stops the run: no schema of the first survives. */
  lemma MissingHeadingExample()
    ensures ParseSchemas([RawSection(Some("A"), []), RawSection(None, [RawRow(Some("x"), Some("boolean"))])])
         == Err(MissingTitle(1))
  {
  }
}
