/** Values shared by every part of the model: optional values, results with
    an error message, bytes, the working-directory sentinel ref and the
    stand-in for the UTF-8 decoder. */
module Common {

  /** A value that may be absent (TypeScript's `T | null | undefined`). */
  datatype Option<T> = None | Some(value: T) {
    function GetOr(default: T): T {
      match this
      case Some(v) => v
      case None => default
    }
  }

  /** A value or the message of the error that was thrown instead. */
  datatype Result<T> = Ok(value: T) | Err(message: string)

  /** The per-path change status shown in the tree and used for copying. */
  datatype FileStatus = Modify | Add | Remove | Unchanged

  type Byte = bv8
  type Bytes = seq<bv8>

  /** A file captured from disk: a '/'-separated relative path and its bytes. */
  datatype FileEntry = FileEntry(path: string, data: Bytes)

  /** The data of the first entry with the given path (`files.find(...)`). */
  function FindFile(files: seq<FileEntry>, path: string): (r: Option<Bytes>)
    ensures r.Some? <==> exists i :: 0 <= i < |files| && files[i].path == path
    ensures r.Some? ==> exists i :: 0 <= i < |files| && files[i].path == path && files[i].data == r.value &&
                          forall j :: 0 <= j < i ==> files[j].path != path
  {
    if files == [] then None
    else if files[0].path == path then Some(files[0].data)
    else
      var r := FindFile(files[1..], path);
      assert forall i :: 1 <= i < |files| ==> files[i] == files[1..][i - 1];
      r
  }

  /** The pseudo-ref that stands for the live working directory. */
  const WORKDIR: string := "__WORKDIR__"

  /** Stand-in for a permissive UTF-8 decoder: ASCII bytes map to the same
      code point, every other byte to U+FFFD. */
  function DecodeByte(b: bv8): char {
    if b < 0x80 then (b as int) as char else 0xFFFD as char
  }

  function Decode(bytes: Bytes): (text: string)
    ensures |text| == |bytes|
    ensures forall i :: 0 <= i < |bytes| ==> text[i] == DecodeByte(bytes[i])
  {
    if bytes == [] then "" else [DecodeByte(bytes[0])] + Decode(bytes[1..])
  }
}
