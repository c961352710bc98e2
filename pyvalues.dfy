/** The Python values that reach the core from configuration: what `json.load` produces
    and what the merged configuration mapping may hold. Dictionaries keep insertion order. */
module PyValues {
  import opened Wrappers
  import opened Strings

  datatype PyValue =
    | PyNone
    | PyBool(b: bool)
    | PyInt(i: int)
    | PyFloat(r: real)
    | PyStr(s: string)
    | PyList(items: seq<PyValue>)
    | PyTuple(elems: seq<PyValue>)
    | PyDict(entries: seq<(string, PyValue)>)

  /** The exception the operations below can raise. */
  datatype PyError = TypeError

  /** `bool(v)` */
  predicate Truthy(v: PyValue) {
    match v
    case PyNone => false
    case PyBool(b) => b
    case PyInt(i) => i != 0
    case PyFloat(r) => r != 0.0
    case PyStr(s) => s != ""
    case PyList(items) => items != []
    case PyTuple(elems) => elems != []
    case PyDict(entries) => entries != []
  }

  /** `d.get(key)` on a dictionary given by its entries. */
  function Get(entries: seq<(string, PyValue)>, key: string): (r: Option<PyValue>)
    ensures r.Some? <==> exists i | 0 <= i < |entries| :: entries[i].0 == key
  {
    if entries == [] then None
    else if entries[0].0 == key then Some(entries[0].1)
    else Get(entries[1..], key)
  }

  /** The first entry with the key is the one `Get` finds. */
  lemma {:induction false} GetFirst(entries: seq<(string, PyValue)>, key: string, i: nat)
    requires i < |entries| && entries[i].0 == key
    requires forall j | 0 <= j < i :: entries[j].0 != key
    ensures Get(entries, key) == Some(entries[i].1)
  {
    if i > 0 {
      GetFirst(entries[1..], key, i - 1);
    }
  }

  /** `list(d)`: the keys in insertion order. */
  function Keys(entries: seq<(string, PyValue)>): (r: seq<string>)
    ensures |r| == |entries|
    ensures forall i | 0 <= i < |entries| :: r[i] == entries[i].0
  {
    if entries == [] then [] else [entries[0].0] + Keys(entries[1..])
  }

  /** `list(s)` for a string: its characters, each a one-character string. */
  function Chars(s: string): (r: seq<PyValue>)
    ensures |r| == |s|
    ensures forall i | 0 <= i < |s| :: r[i] == PyStr([s[i]])
  {
    if s == [] then [] else [PyStr([s[0]])] + Chars(s[1..])
  }

  /** `x in container` for a string `x`; TypeError where Python raises it. */
  function In(x: string, container: PyValue): Result<bool, PyError> {
    match container
    case PyList(items) => Ok(PyStr(x) in items)
    case PyTuple(elems) => Ok(PyStr(x) in elems)
    case PyStr(s) => Ok(Contains(s, x))
    case PyDict(entries) => Ok(x in Keys(entries))
    case _ => Err(TypeError)
  }

  /** `list(v)`; TypeError for a value that is not iterable. */
  function ListOf(v: PyValue): Result<seq<PyValue>, PyError> {
    match v
    case PyList(items) => Ok(items)
    case PyTuple(elems) => Ok(elems)
    case PyStr(s) => Ok(Chars(s))
    case PyDict(entries) => Ok(seq(|entries|, i requires 0 <= i < |entries| => PyStr(entries[i].0)))
    case _ => Err(TypeError)
  }
}
