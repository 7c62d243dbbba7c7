/** The dynamically typed values that the schema validator and the record
    builder inspect: Python's None, bool, int, str, list and dict (with
    string keys). */
module Values {

  datatype Value =
    | VNone
    | VBool(b: bool)
    | VInt(i: int)
    | VStr(s: string)
    | VList(items: seq<Value>)
    | VDict(entries: map<string, Value>)
}
