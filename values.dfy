/**
 * The values the codec moves between Java objects and XML-RPC markup.
 *
 * Native is what the encoder is handed (a Java Object); Value is what the decoder builds
 * (String, Integer, Double, Boolean, byte[], Date, ArrayList and HashMap).
 */
module Values {
  import opened Wrappers
  import opened Decimal
  import opened Base64
  import opened DateTime

  /** A key of a Java Map: a String, or any other object (including null). */
  datatype Key = StrKey(s: string) | OtherKey(id: int)

  /**
   * An object handed to the encoder. A Map is its entries in iteration order; NOther stands for
   * null and for every class outside the supported eight.
   */
  datatype Native =
    | NStr(s: string)
    | NMap(entries: seq<Entry>)
    | NList(items: seq<Native>)
    | NBool(b: bool)
    | NInt(i: int32)
    | NDouble(text: string)
    | NDate(m: Moment)
    | NBytes(bytes: seq<byte>)
    | NOther

  datatype Entry = Entry(key: Key, value: Native)

  /**
   * A decoded value. Double values keep their decimal text; a decoded list may hold null
   * entries (None); a decoded struct is a HashMap from member names to values.
   */
  datatype Value =
    | Str(s: string)
    | Int(i: int32)
    | Real(text: string)
    | Bool(b: bool)
    | Bytes(bytes: seq<byte>)
    | Date(m: Moment)
    | Array(items: seq<Option<Value>>)
    | Struct(fields: map<string, Value>)
}
