/**
 * The part of the OpenAPI 3 object model that the transformer builds: a
 * schema is its common data plus a type, a property or array item is either
 * an inline schema or a reference. Each record carries the fields the
 * transformer sets and enough of the others to say that they keep their
 * default values.
 */
module OpenApi {
  import opened Wrappers

  /** `ReferenceOr<T>`: a `$ref` to a named component, or the value inline. */
  datatype ReferenceOr<T> = Reference(reference: string) | Item(item: T)

  /** `VariantOrUnknownOrEmpty<F>`: a known format, another format name, or none. */
  datatype Format<F> = Variant(variant: F) | Unknown(name: string) | Empty

  datatype IntegerFormat = Int32 | Int64
  datatype NumberFormat = Float | Double
  datatype StringFormat = Date | DateTime | Password | Byte | Binary

  /** The schema fields shared by every kind of schema. */
  datatype SchemaData = SchemaData(
    nullable: bool,
    readOnly: bool,
    writeOnly: bool,
    deprecated: bool,
    title: Option<string>,
    description: Option<string>)

  /** A schema whose kind is a single type. */
  datatype Schema = Schema(schemaData: SchemaData, schemaKind: Type)

  /** `Type`: exactly one of the six OpenAPI types. */
  datatype Type =
    | Str(stringType: StringType)
    | Number(numberType: NumberType)
    | Integer(integerType: IntegerType)
    | Object(objectType: ObjectType)
    | Array(arrayType: ArrayType)
    | Boolean

  datatype StringType = StringType(
    format: Format<StringFormat>,
    pattern: Option<string>,
    enumeration: seq<string>,
    minLength: Option<nat>,
    maxLength: Option<nat>)

  datatype NumberType = NumberType(
    format: Format<NumberFormat>,
    exclusiveMinimum: bool,
    exclusiveMaximum: bool)

  datatype IntegerType = IntegerType(
    format: Format<IntegerFormat>,
    multipleOf: Option<int>,
    exclusiveMinimum: bool,
    exclusiveMaximum: bool,
    minimum: Option<int>,
    maximum: Option<int>)

  /** `properties` is an `IndexMap` held as its entries in iteration order. */
  datatype ObjectType = ObjectType(
    properties: seq<(string, ReferenceOr<Schema>)>,
    required: seq<string>,
    minProperties: Option<nat>,
    maxProperties: Option<nat>)

  datatype ArrayType = ArrayType(
    items: ReferenceOr<Schema>,
    minItems: Option<nat>,
    maxItems: Option<nat>,
    uniqueItems: bool)

  /** The `Default::default()` values. */
  const DefaultSchemaData := SchemaData(false, false, false, false, None, None)
  const DefaultStringType := StringType(Empty, None, [], None, None)
  const DefaultNumberType := NumberType(Empty, false, false)
  const DefaultIntegerType := IntegerType(Empty, None, false, false, None, None)
  const DefaultObjectType := ObjectType([], [], None, None)
}
