/** Types shared by the livefeedback-hub model: optional values, bytes, the
    hub's user model, Python call frames and Python's notion of whitespace. */
module Common {

  datatype Option<T> = None | Some(value: T)

  newtype byte = x: int | 0 <= x < 256

  /** The part of a JupyterHub user model the service looks at. */
  datatype User = User(name: string, groups: seq<string>)

  /** A Python value passed as an argument. Only integers are inspected by the
      model; every other object is an opaque reference. */
  datatype Value = Int(n: int) | Str(s: string) | Object(ref: nat)

  /** A call `method(receiver, *args, **kwargs)` as it reaches a decorated method. */
  datatype Call<S> = Call(receiver: S, args: seq<Value>, kwargs: map<string, Value>)

  /** What a guarding decorator does with a call: raise an HTTP error, or forward it. */
  datatype Gate<S> = Forbidden(status: int) | Forward(call: Call<S>)

  /** Python's `str.isspace()` character set, which is also what `\s` matches in
      a `str` regular expression and what `str.strip()` removes. */
  predicate IsSpace(c: char)
  {
    var n := c as int;
    (0x09 <= n <= 0x0D) || (0x1C <= n <= 0x20) || n == 0x85 || n == 0xA0 ||
    n == 0x1680 || (0x2000 <= n <= 0x200A) || n == 0x2028 || n == 0x2029 ||
    n == 0x202F || n == 0x205F || n == 0x3000
  }

  predicate AllSpace(s: string)
  {
    forall i :: 0 <= i < |s| ==> IsSpace(s[i])
  }
}
