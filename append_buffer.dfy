/** `struct abuf`: the buffer a whole frame is assembled in before it goes
    to the terminal in a single write. */
module AppendBuffer {
  import opened Ascii

  class Buffer {
    /** `b[0 .. len)`; the length is `|b|`. */
    var b: seq<Byte>

    /** `ABUF_INIT`. */
    constructor ()
      ensures b == []
    {
      b := [];
    }

    /** `abAppend`: grows the buffer by exactly the appended bytes and keeps
        what was there. */
    method Append(s: seq<Byte>)
      modifies this
      ensures b == old(b) + s
    {
      b := b + s;
    }
  }
}
