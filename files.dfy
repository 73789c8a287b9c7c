/** A binary file opened for reading, as the decoders see it: fixed contents
    and a cursor that `read` advances and `seek` sets. */
module Files {
  import opened Bytes

  class BinaryFile {
    const data: seq<Byte>
    var pos: nat

    /** `Path.open('rb')`: the cursor starts at offset 0. */
    constructor (contents: seq<Byte>)
      ensures data == contents && pos == 0
    {
      data := contents;
      pos := 0;
    }

    /** `read(n)`: the next at most `n` bytes; the cursor moves past them. */
    method Read(n: nat) returns (chunk: seq<Byte>)
      modifies this
      ensures ReadAt(data, old(pos), n) == Parsed(chunk, pos)
    {
      var r := ReadAt(data, pos, n);
      chunk := r.value;
      pos := r.next;
    }

    /** `seek(offset, 0)`: an absolute position, possibly past the end. */
    method Seek(offset: nat)
      modifies this
      ensures pos == offset
    {
      pos := offset;
    }
  }
}
