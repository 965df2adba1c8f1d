/** File-like objects and the shape of a call into a foreign library. */
module Streams {

  /** What a call into a parsing library or a remote service gives back:
      its value, or an exception it raised. */
  datatype Library<T> = Ok(value: T) | Exn

  /** A readable byte stream with a read position, as an uploaded file or an
      opened temporary file is. `Read` consumes everything from the position
      to the end; `Seek` moves the position. */
  class Stream {
    const data: seq<bv8>
    var pos: nat

    constructor (data: seq<bv8>)
      ensures this.data == data && pos == 0
    {
      this.data := data;
      pos := 0;
    }

    /** The bytes a `read()` returns at the current position. */
    function Remaining(): (r: seq<bv8>)
      reads this
      ensures pos == 0 ==> r == data
      ensures pos >= |data| ==> r == []
    {
      if pos <= |data| then data[pos..] else []
    }

    /** `read()`: everything from the position on; the stream is then at its end. */
    method Read() returns (bytes: seq<bv8>)
      modifies this
      ensures bytes == old(Remaining())
      ensures pos == if old(pos) <= |data| then |data| else old(pos)
    {
      bytes := Remaining();
      if pos <= |data| {
        pos := |data|;
      }
    }

    /** `seek(p)`: move the read position to `p`. */
    method Seek(p: nat)
      modifies this
      ensures pos == p
    {
      pos := p;
    }
  }
}
