/** Option, and the Python dictionaries the pipeline passes around. */
module Wrappers {

  /** A value that may be missing; `None` also stands for "this call raised". */
  datatype Option<+T> = None | Some(value: T)

  /** A Python `dict` from string keys to string values. The empty map is
      the `{}` that a failed parse returns. */
  type Record = map<string, string>

  /** `d.get(key, default)`. */
  function Get(d: Record, key: string, default: string): string
  {
    if key in d then d[key] else default
  }
}
