/**
 JSON values, handler events and parse outcomes shared by the reader, the document
 and the writer. Numbers are integers: a double never reaches these types.
 */
module Json {
  import opened Bytes

  const MIN_INT64: int := -0x8000_0000_0000_0000
  const MAX_UINT64: int := 0xFFFF_FFFF_FFFF_FFFF

  datatype Option<+T> = None | Some(value: T)

  datatype Value =
    | Null
    | Bool(b: bool)
    | Number(n: int)
    | String(str: bytes)
    | Array(elems: seq<Value>)
    | Object(members: seq<Member>)

  datatype Member = Member(name: bytes, value: Value)

  /** What a reader tells its handler, or a document tells a writer. */
  datatype Event =
    | NullEvent
    | BoolEvent(b: bool)
    | IntEvent(i: int)
    | UintEvent(u: int)
    | Int64Event(i64: int)
    | Uint64Event(u64: int)
    | StringEvent(str: bytes)
    | KeyEvent(name: bytes)
    | StartObjectEvent
    | EndObjectEvent(memberCount: nat)
    | StartArrayEvent
    | EndArrayEvent(elementCount: nat)

  datatype ErrorCode =
    | DocumentEmpty
    | DocumentRootNotSingular
    | ValueInvalid
    | ObjectMissName
    | ObjectMissColon
    | ObjectMissCommaOrCurlyBracket
    | ArrayMissCommaOrSquareBracket
    | StringUnicodeEscapeInvalidHex
    | StringUnicodeSurrogateInvalid
    | StringEscapeInvalid
    | StringMissQuotationMark
    | StringInvalidEncoding
    | NumberNotInteger  // stands for the source's floating-point path, which is not modelled

  /** The numbers the integer part of the reader can deliver. */
  predicate InRange(n: int) {
    MIN_INT64 <= n <= MAX_UINT64
  }

  /** Every number of the value fits one of the four integer kinds. */
  predicate Representable(v: Value) {
    match v
    case Number(n) => InRange(n)
    case Array(elems) => forall e <- elems :: Representable(e)
    case Object(members) => forall m <- members :: Representable(m.value)
    case _ => true
  }
}
