/**
  The lenient field decoders `_to_str`, `_to_int` and `_to_float` the ISF
  reader and the converters import from `eqcat/parsers/base.py`. That file is
  not part of this model; the decoders are given the behaviour the catalogue
  format calls for: `_to_str` strips surrounding whitespace and returns the
  text, possibly empty; `_to_int` and `_to_float` ignore surrounding
  whitespace and give `None` for a blank or unreadable field instead of
  raising.
 */
module Decoders {
  import opened Base
  import opened Text

  /** `_to_str`: the field without surrounding whitespace, inner spacing kept. */
  function ToStr(s: string): (r: string)
    ensures |r| <= |s|
    ensures r != [] ==> r[0] !in Whitespace && r[|r| - 1] !in Whitespace
  {
    Strip(s, Whitespace)
  }

  /** `_to_int`: `None` for a blank or non-integer field, otherwise the integer `int()` reads. */
  function ToInt(s: string): (r: Option<int>)
    ensures ToStr(s) == [] ==> r.None?
    ensures r.Some? <==> PyInt(s).Ok?
    ensures r.Some? ==> PyInt(s) == Ok(r.value)
  {
    match PyInt(s)
    case Ok(v) => Some(v)
    case Err(_) => None
  }

  /** `_to_float`: `None` for a blank or non-numeric field, otherwise the number `float()` reads. */
  function ToFloat(s: string): (r: Option<real>)
    ensures ToStr(s) == [] ==> r.None?
    ensures r.Some? <==> PyFloat(s).Ok?
    ensures r.Some? ==> PyFloat(s) == Ok(r.value)
  {
    match PyFloat(s)
    case Ok(v) => Some(v)
    case Err(_) => None
  }

  /** A field holding a rendered integer decodes to that integer. */
  lemma ToIntOfRendered(i: int)
    ensures ToInt(IntToString(i)) == Some(i)
  {
    PyIntRoundTrip(i);
  }
}
