/** Ruby values as the import engine sees them: the classes that decide a
    column type, records as ordered hashes with string keys, and the column
    types the engine can declare. */
module Values {

  datatype Option<+T> = None | Some(value: T)

  /** A Ruby object, classified by the tests `get_type` applies to it.
      Floats are opaque; `TimeLike` is any object that responds to `strftime`
      (Time, Date, DateTime); `Other` is any object of another class. */
  datatype Value =
    | Nil
    | Str(s: string)
    | Bool(b: bool)
    | Int(i: int)
    | Flt(literal: string)
    | Arr(items: seq<Value>)
    | Hash(fields: seq<Field>)
    | TimeLike(epochSeconds: int)
    | Other(className: string)

  datatype Field = Field(key: string, value: Value)

  /** A record is a Ruby Hash: insertion-ordered fields with distinct keys. */
  type Record = seq<Field>

  /** The column types `get_type` can name. */
  datatype ColumnType = StringType | DatetimeType | BooleanType | IntegerType | FloatType | TextType

  /** `String#to_time` followed by `Time#to_i`: the whole seconds since the
      epoch of the parsed time, or None when it raised or returned nil. */
  type TimeParser = string -> Option<int>

  /** `JSON.parse`: the parsed value, or None for a JSON::ParserError. */
  type JsonParser = string -> Option<Value>

  function Keys(r: Record): (ks: seq<string>)
    ensures |ks| == |r|
    ensures forall i :: 0 <= i < |r| ==> ks[i] == r[i].key
  {
    if r == [] then [] else [r[0].key] + Keys(r[1..])
  }

  predicate UniqueKeys(r: Record) {
    forall i, j :: 0 <= i < j < |r| ==> r[i].key != r[j].key
  }

  predicate HasKey(r: Record, k: string) {
    exists i :: 0 <= i < |r| && r[i].key == k
  }

  /** `record[k]`: the value stored under `k`, or nil when there is none. */
  function Lookup(r: Record, k: string): (v: Value)
    ensures !HasKey(r, k) ==> v == Nil
    ensures forall i :: 0 <= i < |r| && r[i].key == k && UniqueKeys(r) ==> v == r[i].value
  {
    if r == [] then Nil
    else if r[0].key == k then r[0].value
    else Lookup(r[1..], k)
  }

  /** Taking one more element of a sequence appends it. */
  lemma TakeOneMore<T>(s: seq<T>, j: nat)
    requires j < |s|
    ensures s[..j + 1] == s[..j] + [s[j]]
  {
  }
}
