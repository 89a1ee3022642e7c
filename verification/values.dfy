/** The value model that scopes, events and references share. */
module Values {

  /** Native data, as JSON decodes it. */
  datatype Data =
    | Null
    | Bool(b: bool)
    | Num(n: real)
    | Str(s: string)
    | Arr(items: seq<Data>)
    | Obj(props: map<string, Data>)

  /** A typed value: exactly one of the source's optional fields is set. */
  datatype Value =
    | ArrayValue(items: seq<Data>)
    | BooleanValue(b: bool)
    | DirValue(path: string)
    | FileValue(path: string)
    | NumberValue(n: real)
    | ObjectValue(props: map<string, Data>)
    | SocketValue(address: string)
    | StringValue(s: string)

  type Scope = map<string, Value>
}
