/** The Python values the service passes around after `json.loads`, with the
    parts of Python's behaviour the core depends on: truthiness, `str()`,
    `dict.get`, `d[key]`, iteration, and the exceptions these raise.
    `json.loads` itself is not modelled: it is a `Parser` supplied by the caller,
    which either yields a value or fails with an exception message. */
module PyJson {
  import opened PyText

  datatype Option<T> = None | Some(value: T) {
    function GetOr(default: T): T {
      match this
      case Some(v) => v
      case None => default
    }
  }

  /** A decoded JSON value.  An object keeps its members in insertion order, as a
      Python `dict` does.  The type allows a key to repeat; a Python `dict`
      cannot hold one twice (see `UniqueKeys`).  Numbers are integers. */
  datatype Json =
    | JNull
    | JBool(b: bool)
    | JInt(i: int)
    | JStr(s: string)
    | JArr(items: seq<Json>)
    | JObj(members: seq<(string, Json)>)

  /** Python truthiness: `None`, `False`, `0`, `""`, `[]` and `{}` are false. */
  predicate Truthy(j: Json) {
    match j
    case JNull => false
    case JBool(b) => b
    case JInt(i) => i != 0
    case JStr(s) => s != ""
    case JArr(items) => items != []
    case JObj(members) => members != []
  }

  /** The value stored under `key`, if any. */
  function Lookup(members: seq<(string, Json)>, key: string): (r: Option<Json>)
    ensures r.Some? ==> exists i :: 0 <= i < |members| && members[i] == (key, r.value)
    ensures r.None? ==> forall i :: 0 <= i < |members| ==> members[i].0 != key
  {
    if members == [] then None
    else if members[0].0 == key then Some(members[0].1)
    else Lookup(members[1..], key)
  }

  /** No key occurs twice, as in a Python `dict`. */
  predicate UniqueKeys(members: seq<(string, Json)>) {
    forall i, j :: 0 <= i < j < |members| ==> members[i].0 != members[j].0
  }

  /** With unique keys, the member found is the only one under that key, so
      taking the first occurrence agrees with a `dict`, which keeps the last. */
  lemma {:induction false} LookupUnique(members: seq<(string, Json)>, i: nat)
    requires UniqueKeys(members) && i < |members|
    ensures Lookup(members, members[i].0) == Some(members[i].1)
    decreases i
  {
    if i > 0 {
      var rest := members[1..];
      assert UniqueKeys(rest) by {
        forall a, b | 0 <= a < b < |rest| ensures rest[a].0 != rest[b].0 {
          assert rest[a] == members[a + 1] && rest[b] == members[b + 1];
        }
      }
      assert rest[i - 1] == members[i];
      LookupUnique(rest, i - 1);
    }
  }

  predicate HasKey(j: Json, key: string) {
    j.JObj? && Lookup(j.members, key).Some?
  }

  /** The exceptions the modelled code can raise, and FastAPI's `HTTPException`. */
  datatype Fault =
    | KeyError
    | TypeError
    | AttributeError
    | HttpError(status: int, detail: string)

  /** A computation that returns a value or raises. */
  datatype Result<T> = Ok(value: T) | Err(fault: Fault) {
    predicate IsFailure() {
      Err?
    }

    function PropagateFailure<U>(): Result<U>
      requires Err?
    {
      Err(fault)
    }

    function Extract(): T
      requires Ok?
    {
      value
    }
  }

  /** `j.get(key, default)`: only a dict has `get`. */
  function Get(j: Json, key: string, default: Json): (r: Result<Json>)
    ensures r.Err? <==> !j.JObj?
    ensures r.Err? ==> r.fault == AttributeError
    ensures HasKey(j, key) ==> r == Ok(Lookup(j.members, key).value)
    ensures j.JObj? && !HasKey(j, key) ==> r == Ok(default)
  {
    match j
    case JObj(m) => Ok(Lookup(m, key).GetOr(default))
    case _ => Err(AttributeError)
  }

  /** `j[key]` with a string key: a dict without the key raises `KeyError`,
      any other value `TypeError`. */
  function Index(j: Json, key: string): (r: Result<Json>)
    ensures r.Ok? <==> HasKey(j, key)
    ensures r.Ok? ==> r.value == Lookup(j.members, key).value
    ensures !j.JObj? ==> r == Err(TypeError)
    ensures j.JObj? && !HasKey(j, key) ==> r == Err(KeyError)
  {
    match j
    case JObj(m) =>
      (match Lookup(m, key)
       case Some(v) => Ok(v)
       case None => Err(KeyError))
    case _ => Err(TypeError)
  }

  /** `for x in j`: a list yields its items, a string its characters, a dict its
      keys; anything else raises `TypeError`. */
  function Iterate(j: Json): (r: Result<seq<Json>>)
    ensures r.Err? <==> !(j.JArr? || j.JStr? || j.JObj?)
    ensures j.JArr? ==> r == Ok(j.items)
  {
    match j
    case JArr(items) => Ok(items)
    case JStr(s) => Ok(seq(|s|, i requires 0 <= i < |s| => JStr([s[i]])))
    case JObj(m) => Ok(seq(|m|, i requires 0 <= i < |m| => JStr(m[i].0)))
    case _ => Err(TypeError)
  }

  /** `str(j)`, which is also what an f-string inserts. */
  function Str(j: Json): string {
    if j.JStr? then j.s else Repr(j)
  }

  /** `repr(j)` */
  function Repr(j: Json): string
    decreases j
  {
    match j
    case JNull => "None"
    case JBool(b) => if b then "True" else "False"
    case JInt(i) => IntToString(i)
    case JStr(s) => Quote(s)
    case JArr(items) =>
      "[" + Join(", ", seq(|items|, k requires 0 <= k < |items| => Repr(items[k]))) + "]"
    case JObj(m) =>
      "{" + Join(", ", seq(|m|, k requires 0 <= k < |m| => Quote(m[k].0) + ": " + Repr(m[k].1))) + "}"
  }

  /** `repr(s)` for a string: single quotes unless the text holds a single quote
      and no double quote. */
  function Quote(s: string): string {
    var q := if '\'' in s && '"' !in s then '"' else '\'';
    [q] + Escaped(s, q) + [q]
  }

  function Escaped(s: string, q: char): string {
    if s == [] then []
    else
      var c := s[0];
      var e :=
        if c == '\\' then "\\\\"
        else if c == q then ['\\', q]
        else if c == '\n' then "\\n"
        else if c == '\r' then "\\r"
        else if c == '\t' then "\\t"
        else [c];
      e + Escaped(s[1..], q)
  }

  /** What `json.loads` does with a text: a value, or the message of the exception. */
  datatype ParseResult = Parsed(value: Json) | Failed(message: string)

  type Parser = string -> ParseResult
}
