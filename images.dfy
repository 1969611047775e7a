/**
 * The image reader: a decoded grayscale matrix flattened row by row into
 * one input vector. The image library is a parameter of the model: a
 * function from a path to the decoded matrix, or None when decoding fails.
 */
module Images {
  import opened Results

  type Matrix = seq<seq<int>>

  /** The rows of `m` concatenated in order (row-major): one entry per pixel. */
  function Flatten(m: Matrix): (v: seq<int>)
    ensures |v| == Size(m)
  {
    if m == [] then [] else Flatten(m[..|m| - 1]) + m[|m| - 1]
  }

  /** Total number of entries of `m`. */
  function Size(m: Matrix): nat {
    if m == [] then 0 else Size(m[..|m| - 1]) + |m[|m| - 1]|
  }

  /** Row `i` starts at the number of entries in the rows before it. */
  lemma {:induction false} FlattenAt(m: Matrix, i: nat, j: nat)
    requires i < |m| && j < |m[i]|
    ensures Size(m[..i]) + j < |Flatten(m)|
    ensures Flatten(m)[Size(m[..i]) + j] == m[i][j]
  {
    var p := m[..|m| - 1];
    if i < |p| {
      FlattenAt(p, i, j);
      assert p[..i] == m[..i];
    } else {
      assert p == m[..i];
    }
  }

  /**
   * The vector `converter_np_array` returns: the flattened matrix when the
   * file decodes, an empty vector when it does not.
   */
  function Vector(decoded: Option<Matrix>): (v: seq<int>)
    ensures decoded.Some? ==> |v| == Size(decoded.value)
    ensures decoded.None? ==> v == []
  {
    match decoded
    case Some(m) => Flatten(m)
    case None => []
  }

  /** What `data` holds after one attempt to open a file: the decoded matrix, or the old value when decoding fails. */
  function Opened(data: Option<Matrix>, decoded: Option<Matrix>): Option<Matrix> {
    if decoded.Some? then decoded else data
  }

  /** `Imagem`: keeps the last matrix it managed to decode. */
  class Image {
    /** The image library: decoded grayscale matrix of a path, or None. */
    const decoder: string -> Option<Matrix>
    /** `self.data`: None until a file has been decoded. */
    var data: Option<Matrix>

    constructor (decoder: string -> Option<Matrix>)
      ensures this.decoder == decoder && data == None
    {
      this.decoder := decoder;
      data := None;
    }

    /** `_abrir_imagem`: on success the decoded matrix replaces `data`; on failure `data` is kept. */
    method Open(path: string) returns (ok: bool)
      modifies this`data
      ensures ok <==> decoder(path).Some?
      ensures data == Opened(old(data), decoder(path))
    {
      var decoded := decoder(path);
      ok := decoded.Some?;
      if ok {
        data := decoded;
      }
    }

    /** `converter_np_array`: appends the decoded rows one after another. */
    method ToVector(path: string) returns (total: seq<int>)
      modifies this`data
      ensures total == Vector(decoder(path))
      ensures data == Opened(old(data), decoder(path))
    {
      total := [];
      var ok := Open(path);
      if ok {
        var rows := data.value;
        var i := 0;
        while i < |rows|
          invariant 0 <= i <= |rows|
          invariant total == Flatten(rows[..i])
        {
          total := total + rows[i];
          assert rows[..i + 1][..i] == rows[..i];
          i := i + 1;
        }
        assert rows[..i] == rows;
      }
    }
  }
}
