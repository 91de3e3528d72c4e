# Keycloak REST reference to OpenAPI schemas: a Dafny model

This project models the schema extraction of `keycloak-openapi-transformer`.
It reads the definitions part of Keycloak's generated REST API reference (HTML).
Every definition section becomes an OpenAPI object schema, keyed by the section's heading.
The schema's properties are the rows of the section's table.
Each row's free-text type cell is resolved to an OpenAPI type.

Type resolution (`enum_type`, `parse_type`) is an ordered set of checks:
1. Text shaped `enum (a, b, c)` becomes a string type whose enumeration is the text inside the parentheses, split on `, `.
2. Otherwise, seven exact texts map to fixed types: `integer(int32)`, `integer(int64)`, `number(float)`, `boolean`, `< string > array`, `Map` and `Object`.
3. Any other text becomes a plain string.

`parse_schema` collects one section's rows into an `IndexMap` of properties.
`parse_schemas` collects the sections into a `BTreeMap` keyed by title.

The files are:
- `strings.dfy` (module `Strings`): `starts_with`, `ends_with`, `contains`, `split` on a string pattern and `join`, with their meaning in Rust. It also holds the ordering of `String` keys.
- `index_map.dfy` (module `IndexMap`): an `IndexMap` as its entries in iteration order. Inserting a present key keeps its place and replaces its value. `FromSeq` is `collect`.
- `btree_map.dfy` (module `BTreeMap`): a `BTreeMap<String, _>` as its entries in ascending key order. `FromSeq` is `collect`, and the last pair with a key wins.
- `openapi.dfy` (module `OpenApi`): the part of the OpenAPI object model that the transformer builds, with its `Default` values.
- `schemas.dfy` (module `Schemas`): the transformer itself.
- `wrappers.dfy` (module `Wrappers`): `Option` and `Result`.

The HTML document is given as the text its selectors find, section by section:
- the text of the section's first `h3`;
- for each table row, the text of the property-name cell and of the type cell.

Each of these is `None` when its selector matches nothing.
Where the transformer would `unwrap` such a `None` and panic, `ParseSchemas` returns `Err` with the first missing node, in the order the transformer reads them.
No map is produced in that case, which matches the panic: the run stops with no partial output.
Every function is deterministic, so resolving the same text twice gives the same value.

Three behaviours of `schemas.rs` shape the model:
- The schema map is a `BTreeMap`, so it iterates in ascending (lexicographic) title order, not in document order. A later section with the same title replaces an earlier one.
- An enumeration is a `Vec<String>`: the values keep the order of the text and any duplicates. It is not a set.
- `enum ()` yields the single value `""`, because `split` always yields at least one piece.

## Model

| member | source | states |
|---|---|---|
| `Strings.StartsWith` | keycloak-openapi-transformer/src/components/schemas.rs:31 | `starts_with` holds exactly when the text is the prefix followed by some text |
| `Strings.EndsWith` | keycloak-openapi-transformer/src/components/schemas.rs:31 | `ends_with` holds exactly when the text is some text followed by the suffix |
| `Schemas.EnumShapeLength` | keycloak-openapi-transformer/src/components/schemas.rs:29-33 | text that starts with `enum (` and ends with `)` has room for both, so the slice of line 33 is always in range |
| `Schemas.EnumBody` | keycloak-openapi-transformer/src/components/schemas.rs:32-33 | the text is exactly `enum (` + body + `)` |
| `Schemas.EnumType` | keycloak-openapi-transformer/src/components/schemas.rs:28-44 | returns a value if and only if the text starts with `enum (` and ends with `)`; the value is a string type with only its enumeration set; the enumeration is non-empty, no value contains `, `, and the values joined with `, ` give the body back verbatim |
| `Schemas.EnumBodyOf` | keycloak-openapi-transformer/src/components/schemas.rs:31-33 | any text `enum (` + body + `)` has the enumeration shape, and the slice taken out of it is exactly that body |
| `Schemas.EnumTypeOfValues` | keycloak-openapi-transformer/src/components/schemas.rs:32-40 | for any non-empty list of values none of which contains `, `, resolving `enum (` + the values joined by `, ` + `)` gives exactly those values, in order |
| `Schemas.EnumValuesUnique` | keycloak-openapi-transformer/src/components/schemas.rs:34-36 | these conditions fix the enumeration: only one value list meets them |
| `Strings.Split` | keycloak-openapi-transformer/src/components/schemas.rs:34 | `split` always yields at least one piece |
| `Strings.JoinSplit` | keycloak-openapi-transformer/src/components/schemas.rs:34-36 | joining the pieces of a split with the separator gives the text back |
| `Strings.SplitPiecesAvoidSep` | keycloak-openapi-transformer/src/components/schemas.rs:34 | no piece of a split contains the separator |
| `Strings.SplitUnique` | keycloak-openapi-transformer/src/components/schemas.rs:34 | for a two-character separator with different characters (such as `, `), the split is the only cut into separator-free pieces that join back to the text |
| `Schemas.EnumTypeExampleList` | keycloak-openapi-transformer/src/components/schemas.rs:32-40 | `enum (A, B, C)` gives the enumeration `A`, `B`, `C` in that order |
| `Schemas.EnumTypeExampleEmpty` | keycloak-openapi-transformer/src/components/schemas.rs:32-36 | `enum ()` gives the one value `""` |
| `Schemas.EnumTypeExampleBareComma` | keycloak-openapi-transformer/src/components/schemas.rs:34 | a comma without a following space does not separate: `enum (a,b)` gives the one value `a,b` |
| `Schemas.EnumTypeExampleUnclosed` | keycloak-openapi-transformer/src/components/schemas.rs:31 | text without the closing `)` is no enumeration |
| `Schemas.EnumTypeExamplePolicy` | keycloak-openapi-transformer/src/components/schemas.rs:32-40 | `enum (POSITIVE, NEGATIVE)` gives exactly the enumeration `POSITIVE`, `NEGATIVE` |
| `Schemas.ParseType` | keycloak-openapi-transformer/src/components/schemas.rs:75-78 | the result is always an inline item, never a reference, and its schema data is the default |
| `Schemas.ParseTypeEnum` | keycloak-openapi-transformer/src/components/schemas.rs:47 | the enum check comes first: enum-shaped text always resolves to a string type with that enumeration |
| `Schemas.KnownTypeNamesNotEnums` | keycloak-openapi-transformer/src/components/schemas.rs:47-71 | no text of the fixed table is enum-shaped, so every table entry can be reached |
| `Schemas.ParseTypeKnown` | keycloak-openapi-transformer/src/components/schemas.rs:48-71 | the fixed table entry by entry: int32 and int64 integers, a float number, boolean, an array of plain strings with no item bounds and `unique_items` false, and a default object for both `Map` and `Object` |
| `Schemas.ParseTypeFallback` | keycloak-openapi-transformer/src/components/schemas.rs:72 | any text that is neither enum-shaped nor in the table resolves to a plain string; resolution never fails |
| `Schemas.ParseTypeOrigin` | keycloak-openapi-transformer/src/components/schemas.rs:47-73 | a non-empty enumeration arises if and only if the text is enum-shaped; a type other than string arises if and only if the text is in the table; a string type sets nothing but its enumeration |
| `Schemas.ParseTypeFallbackExamples` | keycloak-openapi-transformer/src/components/schemas.rs:72 | `integer`, `< integer > array`, `number(double)` and `map` are plain strings |
| `Schemas.ExtractRows` | keycloak-openapi-transformer/src/components/schemas.rs:89-99 | succeeds if and only if every row has both cells, and then yields their texts row for row; otherwise it names the first absent cell, checking the name cell before the type cell |
| `Schemas.ExtractSections` | keycloak-openapi-transformer/src/components/schemas.rs:16-22 | succeeds if and only if every section has a heading and complete rows, and then yields their texts; otherwise it names the first absent node, reading a section's heading before its rows |
| `Schemas.ParseSchema` | keycloak-openapi-transformer/src/components/schemas.rs:104-110 | the schema is always an object with default schema data, and every object field other than `properties` is default |
| `IndexMap.Insert` | keycloak-openapi-transformer/src/components/schemas.rs:103 | a present key keeps its position and a new key goes last; the inserted key maps to the new value and every other key is unchanged |
| `IndexMap.FromSeq` | keycloak-openapi-transformer/src/components/schemas.rs:85-103 | the keys of a collected map are the distinct keys of the pairs, in the order of their first appearance |
| `IndexMap.FromSeqKeys` | keycloak-openapi-transformer/src/components/schemas.rs:85-103 | no key of a collected map is repeated |
| `IndexMap.FromSeqLastWins` | keycloak-openapi-transformer/src/components/schemas.rs:85-103 | a key's value is the value of its last pair |
| `Schemas.PropertyEntries` | keycloak-openapi-transformer/src/components/schemas.rs:87-102 | each row becomes one property entry in row order: the keys are the row names, and each value is `parse_type` of that row's type cell |
| `Schemas.ParseSchemaKeys` | keycloak-openapi-transformer/src/components/schemas.rs:85-103 | the property names are exactly the distinct row names, in first-appearance order, each once |
| `Schemas.ParseSchemaLastRowWins` | keycloak-openapi-transformer/src/components/schemas.rs:85-103 | a property's type is `parse_type` of the type cell of the last row with that name |
| `Schemas.ParseSchemaAbsent` | keycloak-openapi-transformer/src/components/schemas.rs:85-103 | a name that no row carries is not a property |
| `BTreeMap.Get` | keycloak-openapi-transformer/src/components/schemas.rs:9 | a lookup (the same one as in an `IndexMap`) finds a value exactly for the keys of the map |
| `BTreeMap.Insert` | keycloak-openapi-transformer/src/components/schemas.rs:25 | keeps keys strictly ascending, adds the key, maps it to the new value and leaves every other key's value unchanged |
| `BTreeMap.FromSeq` | keycloak-openapi-transformer/src/components/schemas.rs:25 | a collected map iterates in strictly ascending key order |
| `BTreeMap.SortedDistinct` | keycloak-openapi-transformer/src/components/schemas.rs:9 | a map in ascending key order holds no key twice |
| `BTreeMap.FromSeqKeys` | keycloak-openapi-transformer/src/components/schemas.rs:12-25 | the keys of a collected map are exactly the keys of the pairs |
| `BTreeMap.FromSeqLastWins` | keycloak-openapi-transformer/src/components/schemas.rs:12-25 | a key's value is the value of its last pair |
| `Strings.LessIrreflexive` | keycloak-openapi-transformer/src/components/schemas.rs:5 | no string key comes before itself |
| `Strings.LessTransitive` | keycloak-openapi-transformer/src/components/schemas.rs:5 | the key order is transitive |
| `Strings.LessTotal` | keycloak-openapi-transformer/src/components/schemas.rs:5 | any two different keys are ordered one way or the other |
| `Schemas.SchemaEntries` | keycloak-openapi-transformer/src/components/schemas.rs:14-24 | each section becomes one map entry in section order, holding the inline `parse_schema` of its rows; the keys of the entries are exactly the section titles |
| `Schemas.ParseSchemas` | keycloak-openapi-transformer/src/components/schemas.rs:7-26 | yields a map if and only if every section has its heading and every row has both cells; otherwise the error names the first absent node and no map is produced; the map iterates in ascending title order |
| `Schemas.ParseSchemasKeys` | keycloak-openapi-transformer/src/components/schemas.rs:12-25 | the schema names are exactly the section titles |
| `Schemas.ParseSchemasLastSectionWins` | keycloak-openapi-transformer/src/components/schemas.rs:12-25 | a title's schema is the inline `parse_schema` of the last section with that title, built from the texts of that section's rows |
| `Schemas.ParseSchemaExamplePolicy` | keycloak-openapi-transformer/src/components/schemas.rs:81-110 | a `logic` row typed `enum (POSITIVE, NEGATIVE)` becomes an object with one string property holding that enumeration |
| `Schemas.PolicyRepresentationExample` | keycloak-openapi-transformer/src/components/schemas.rs:7-26 | a `PolicyRepresentation` section with that row yields a one-entry map whose property has exactly the enumeration `POSITIVE`, `NEGATIVE` |
| `Schemas.MissingHeadingExample` | keycloak-openapi-transformer/src/components/schemas.rs:17-19 | a section without a heading stops the run, even after a complete section |

## Left out

- HTML parsing and the CSS selectors (`Html`, `Selector::parse`, `select`, `text`) are not modelled. The document is given as the text each selector finds, or `None` where it finds nothing.
- The panic of `unwrap` is not modelled as a process abort. It is an `Err` that names the first absent node. The real panic message does not name the node.
- `str::get` works on UTF-8 byte offsets; the model slices a sequence of characters instead. `enum (` and `)` are ASCII, so both give the same text.
- Only part of the OpenAPI object model is included. Left out are: schema data's external docs, example, default value, discriminator and extensions; schema kinds other than a single type (`oneOf`, `allOf`, `anyOf`, any); the floating-point fields of number types (`multiple_of`, `minimum`, `maximum`); the additional properties of object types; `Box`. The transformer only ever leaves these at their defaults.
- Serialization to JSON and the golden-file tests (schemas.rs:113-171) are not modelled. They read external HTML and JSON files.
