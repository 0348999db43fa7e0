/**
 * The values a settings entry can hold, and an entry seen as a value.
 *
 * The source stores entries as `ValueSet<object>`; the object is inspected
 * with GetType() and compared with Equals. Here the object is a closed
 * datatype whose tag plays the part of the runtime type.
 */
module Values {
  import opened Wrappers
  import opened Text

  /** A boxed object: one of the four supported types, null, or anything else. */
  datatype Value =
    | VString(s: string)
    | VChar(c: char)
    | VInt(i: int32)
    | VBool(b: bool)
    | VNull
    | VOther  // a non-null object of a type the format does not support

  /** The runtime types a caller can ask for with GetValueByArgKey<A>. */
  datatype Kind = KString | KChar | KInt | KBool

  /** GetType() of a non-null value, when it is one of the four supported types. */
  function KindOf(v: Value): Option<Kind>
  {
    match v
    case VString(_) => Some(KString)
    case VChar(_) => Some(KChar)
    case VInt(_) => Some(KInt)
    case VBool(_) => Some(KBool)
    case _ => None
  }

  /** default(A) for each of the four types, boxed. */
  function DefaultOf(k: Kind): (v: Value)
    ensures k == KString <==> v.VNull?
    ensures v.VNull? || KindOf(v) == Some(k)
  {
    match k
    case KString => VNull
    case KChar => VChar(0 as char)
    case KInt => VInt(0)
    case KBool => VBool(false)
  }

  /** The contents of a ValueSet<object>: its key and its value. */
  datatype Entry = Entry(key: string, value: Value)

  /**
   * What the ValueSet constructor stores: the key and the value as given,
   * unless the key is null or empty, in which case the entry keeps its
   * initial key "" and default(object), that is null.
   */
  function MakeEntry(key: Option<string>, value: Value): (e: Entry)
    ensures e.key == "" ==> e.value == VNull
    ensures e.key != "" ==> key == Some(e.key) && e.value == value
    ensures key.Some? && key.value != "" ==> e.key == key.value
  {
    if key.None? || key.value == "" then Entry("", VNull) else Entry(key.value, value)
  }
}
