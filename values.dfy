/** The values a tokenizer hands to the schema: strings, nested string-keyed dicts and lists,
    the subset of Python objects the journal tokens are built from. */
module Values {
  import opened Wrappers
  import opened Strings
  import opened Dicts

  datatype Value = Str(s: string) | Obj(fields: seq<(string, Value)>) | List(items: seq<Value>)

  /** A component's token map, as the tokenizers build it. */
  type Tokens = Dict<Value>

  /** One step of a pydantic error location: a field name or a list index. */
  datatype LocPart = Field(name: string) | Index(i: nat)

  type Loc = seq<LocPart>

  /** Every value of a string-valued dict, wrapped as a token. */
  function Lift(d: Dict<string>): (t: Tokens)
    ensures Keys(t) == Keys(d)
    ensures forall i :: 0 <= i < |d| ==> t[i] == (d[i].0, Str(d[i].1))
  {
    seq(|d|, i requires 0 <= i < |d| => (d[i].0, Str(d[i].1)))
  }

  /** Python's `len` of a token value. */
  function Len(v: Value): nat {
    match v
    case Str(s) => |s|
    case Obj(fs) => |fs|
    case List(xs) => |xs|
  }

  /** `str(v)`: a string as itself, a container as its Python repr with quoted strings. */
  function Show(v: Value): string {
    match v
    case Str(s) => s
    case _ => Repr(v)
  }

  function Repr(v: Value): (r: string)
    ensures |r| >= 2
  {
    match v
    case Str(s) => "'" + s + "'"
    case Obj(fs) =>
      "{" + Join(seq(|fs|, i requires 0 <= i < |fs| => "'" + fs[i].0 + "': " + Repr(fs[i].1)), ", ") + "}"
    case List(xs) => "[" + Join(seq(|xs|, i requires 0 <= i < |xs| => Repr(xs[i])), ", ") + "]"
  }

  /** `reduce(getitem, loc, v)`; `None` where Python would raise a KeyError or IndexError. */
  function Lookup(v: Value, loc: Loc): (r: Option<Value>)
    ensures |loc| == 0 ==> r == Some(v)
    decreases |loc|
  {
    if |loc| == 0 then Some(v)
    else
      match (v, loc[0])
      case (Obj(fs), Field(k)) =>
        if HasKey(fs, k) then Lookup(Get(fs, k), loc[1..]) else None
      case (List(xs), Index(i)) =>
        if i < |xs| then Lookup(xs[i], loc[1..]) else None
      case _ => None
  }

  /** Looking one key up in a dict gives the value stored under it. */
  lemma LookupField(fs: Tokens, k: string)
    requires HasKey(fs, k)
    ensures Lookup(Obj(fs), [Field(k)]) == Some(Get(fs, k))
  {
  }
}
