/** Reading NUL-terminated strings out of adapter memory: the length scan of
    `pwchar_to_string` (src/windows.rs:180-188), also used for the byte string
    behind `CStr::from_ptr`. The memory a pointer refers to is modelled as the
    sequence of units from that address on. */
module WideString {
  import opened Types

  /** The number of units before the first `nul`, as
      `(0..).take_while(|&i| *p.offset(i) != 0).count()` counts them. When the
      modelled memory holds no terminator the scan stops at its end. */
  function NulLength<T(==)>(units: seq<T>, nul: T): (n: nat)
    ensures n <= |units|
    ensures forall i | 0 <= i < n :: units[i] != nul
    ensures n < |units| ==> units[n] == nul
  {
    if units == [] || units[0] == nul then 0 else 1 + NulLength(units[1..], nul)
  }

  /** The string part of NUL-terminated memory: `slice::from_raw_parts(p, len)`. */
  function Terminated<T(==)>(units: seq<T>, nul: T): (s: seq<T>)
    ensures nul !in s
    ensures s <= units
    ensures nul in units ==> s + [nul] <= units
  {
    units[..NulLength(units, nul)]
  }

  /** The scan stops at the first terminator and nowhere else. */
  lemma {:induction false} TerminatedAtFirstNul<T>(text: seq<T>, nul: T, rest: seq<T>)
    requires nul !in text
    ensures Terminated(text + [nul] + rest, nul) == text
  {
    var units := text + [nul] + rest;
    assert units[|text|] == nul;
    assert units[..|text|] == text;
  }

  /** `pwchar_to_string`: a null pointer fails the `assert!`; otherwise the
      units before the terminator are decoded, and text that does not decode
      is a panic. `decode` stands for `OsString::into_string`, which is not
      part of this model. */
  function PwcharToString(p: Option<seq<u16>>, decode: seq<u16> -> Option<string>): (r: Result<string>)
    ensures p.None? ==> r == Err(NullWideString)
    ensures p.Some? ==> (r.Ok? <==> decode(Terminated(p.value, 0)).Some?)
    ensures r.Ok? ==> p.Some? && decode(Terminated(p.value, 0)) == Some(r.value)
    ensures r.Err? ==> r.panic in {NullWideString, InvalidWideString}
  {
    match p
    case None => Err(NullWideString)
    case Some(units) =>
      match decode(Terminated(units, 0))
      case Some(s) => Ok(s)
      case None => Err(InvalidWideString)
  }
}
