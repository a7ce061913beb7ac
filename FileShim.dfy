/** The file-stream callbacks that the GIF decoder calls to read the
    animation from flash storage (`gifOpenFile`, `gifReadFile`,
    `gifSeekFile`). The storage layer itself is not modelled: its answers
    are parameters. */
module FileShim {
  import opened Ints

  /** `gifOpenFile` hands storage a path with exactly one leading '/'
      added when the caller's path lacks one. */
  function NormalizePath(path: string): (r: string)
    ensures |r| > 0 && r[0] == '/'
    ensures |path| > 0 && path[0] == '/' ==> r == path
    ensures !(|path| > 0 && path[0] == '/') ==> r == "/" + path
  {
    if |path| > 0 && path[0] == '/' then path else "/" + path
  }

  lemma NormalizePathIdempotent(path: string)
    ensures NormalizePath(NormalizePath(path)) == NormalizePath(path)
  {
  }

  /** The number of bytes `gifReadFile` asks storage for: the request capped
      at what is left between the position and the end of the file. */
  function ReadRequest(iLen: int, size: int, pos: int): (n: int)
    ensures n <= iLen && n <= size - pos
    ensures n == iLen || n == size - pos
  {
    if size - pos < iLen then size - pos else iLen
  }

  /** The position `gifSeekFile` settles on: the request clamped into
      `[0, size - 1]`, which is -1 for an empty file. */
  function SeekTarget(iPosition: int, size: int): (r: int)
    ensures size > 0 ==> 0 <= r < size
    ensures size <= 0 ==> r == size - 1
    ensures 0 <= iPosition < size ==> r == iPosition
    ensures iPosition < 0 && size > 0 ==> r == 0
    ensures iPosition >= size ==> r == size - 1
  {
    var p := if iPosition < 0 then 0 else iPosition;
    if p >= size then size - 1 else p
  }

  /** The decoder's GIFFILE record together with the storage handle it
      carries: `iPos` and `iSize` as the callbacks see them, and whether
      the handle is non-null and open. */
  class GifFile {
    var pos: int
    const size: int
    var handleOpen: bool

    /** Positions the callbacks can produce: `iPos` never passes the end,
        and is -1 only after a seek into an empty file. */
    ghost predicate Valid()
      reads this
    {
      0 <= size && -1 <= pos <= size && (pos == -1 ==> size == 0)
    }

    /** A file as the decoder opens it: position 0. */
    constructor (fileSize: int32, isOpen: bool)
      requires 0 <= fileSize
      ensures Valid()
      ensures pos == 0 && size == fileSize && handleOpen == isOpen
    {
      pos := 0;
      size := fileSize;
      handleOpen := isOpen;
    }

    /** `gifReadFile`. `delivered` is the count storage returns for the
        capped request; storage never returns more than it was asked for. */
    method ReadFile(iLen: int32, delivered: int) returns (r: int)
      requires Valid()
      requires 0 <= delivered
      requires 0 < ReadRequest(iLen, size, pos) ==> delivered <= ReadRequest(iLen, size, pos)
      modifies this`pos
      ensures Valid()
      ensures !handleOpen || ReadRequest(iLen, size, old(pos)) <= 0 ==> r == 0 && pos == old(pos)
      ensures handleOpen && 0 < ReadRequest(iLen, size, old(pos)) ==> r == delivered
      ensures pos == old(pos) + r
      ensures 0 <= r && (r <= iLen || r == 0)
      ensures pos <= size
    {
      if !handleOpen {
        return 0;
      }
      var bytesToRead := iLen;
      var remaining := size - pos;
      if remaining < bytesToRead {
        bytesToRead := remaining;
      }
      if bytesToRead <= 0 {
        return 0;
      }
      r := delivered;
      if r > 0 {
        pos := pos + r;
      }
    }

    /** `gifSeekFile`: clamps, records and returns the new position; on a
        missing or closed handle returns 0 and leaves the position. */
    method SeekFile(iPosition: int32) returns (r: int)
      requires Valid()
      modifies this`pos
      ensures Valid()
      ensures !handleOpen ==> r == 0 && pos == old(pos)
      ensures handleOpen ==> r == SeekTarget(iPosition, size) && pos == r
    {
      if !handleOpen {
        return 0;
      }
      var p: int := iPosition;
      if p < 0 {
        p := 0;
      }
      if p >= size {
        p := size - 1;
      }
      pos := p;
      r := p;
    }
  }
}
