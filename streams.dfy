/** An output stream (std::ostream) as an object whose only state is the
    text written to it so far. */
module Streams {

  class OStream {
    var text: string

    constructor ()
      ensures text == []
    {
      text := [];
    }

    /** `*os << s` */
    method Write(s: string)
      modifies this
      ensures text == old(text) + s
    {
      text := text + s;
    }
  }

  /** Concatenation of a sequence of strings, in order. */
  function Concat(parts: seq<string>): (r: string)
    ensures |parts| == 0 ==> r == []
  {
    if parts == [] then [] else Concat(parts[..|parts| - 1]) + parts[|parts| - 1]
  }

  lemma ConcatAppend(parts: seq<string>, s: string)
    ensures Concat(parts + [s]) == Concat(parts) + s
  {
    assert (parts + [s])[..|parts|] == parts;
  }
}
