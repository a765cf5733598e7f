/** The PHP values that the response envelopes and the serialised entities carry. */
module Json {

  datatype Json =
    | JNull
    | JBool(b: bool)
    | JNum(x: real)
    | JStr(s: string)
    | JArr(items: seq<Json>)
    | JObj(fields: map<string, Json>)

  /** `array_merge` on two string-keyed arrays: the keys of both, the later array winning on a clash. */
  function Merge(earlier: map<string, Json>, later: map<string, Json>): (r: map<string, Json>)
    ensures r.Keys == earlier.Keys + later.Keys
    ensures forall k :: k in later ==> r[k] == later[k]
    ensures forall k :: k in earlier && k !in later ==> r[k] == earlier[k]
  {
    earlier + later
  }
}
