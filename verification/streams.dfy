/** A readable, seekable binary file object (an uploaded file, or a file
    opened with `open(path, 'rb')`): fixed bytes and a cursor that `seek`
    sets, `read` advances and `tell` reports. */
module Streams {
  import opened Wrappers

  type byte = bv8

  /** The bytes `read(n)` returns from cursor `pos`: up to `n` of them,
      fewer at the end of the content, none past it. */
  function Window(content: seq<byte>, pos: nat, n: nat): (r: seq<byte>)
    ensures |r| <= n
    ensures pos <= |content| ==> r == content[pos..if pos + n <= |content| then pos + n else |content|]
    ensures pos >= |content| ==> r == []
  {
    if pos >= |content| then []
    else if pos + n <= |content| then content[pos..pos + n]
    else content[pos..]
  }

  class FileObject {
    /** `file.name`. */
    const name: string
    /** `file.size`, as the upload declared it. */
    const size: nat
    /** The bytes of the file. */
    const content: seq<byte>
    /** False for a stream whose `tell()` raises. */
    const tellable: bool
    /** The cursor. Python allows it past the end of the content. */
    var pos: nat

    constructor (name: string, size: nat, content: seq<byte>, tellable: bool)
      ensures this.name == name && this.size == size && this.content == content
      ensures this.tellable == tellable && pos == 0
    {
      this.name := name;
      this.size := size;
      this.content := content;
      this.tellable := tellable;
      pos := 0;
    }

    /** `tell()`: the cursor, or `None` where the stream cannot report it. */
    method Tell() returns (p: Option<nat>)
      ensures tellable ==> p == Some(pos)
      ensures !tellable ==> p.None?
    {
      p := if tellable then Some(pos) else None;
    }

    /** `seek(offset)`. */
    method Seek(offset: nat)
      modifies this`pos
      ensures pos == offset
    {
      pos := offset;
    }

    /** `read(n)`: the next bytes, the cursor moved past them. */
    method Read(n: nat) returns (bytes: seq<byte>)
      modifies this`pos
      ensures bytes == Window(content, old(pos), n)
      ensures pos == old(pos) + |bytes|
    {
      bytes := Window(content, pos, n);
      pos := pos + |bytes|;
    }
  }
}
