/** The dataset download of loadDatabase: reading the response body chunk by
    chunk while reporting progress, then copying the chunks into one
    Uint8Array for the database engine. */
module Loader {
  import opened JsBuiltins

  // ---------------------------------------------------------------------
  // Chunks

  /** The sum of the chunk lengths: what `loaded += value.length` reaches.
      It is zero exactly when no chunk carries a byte. */
  function TotalLength(chunks: seq<seq<byte>>): (r: nat)
    ensures r == 0 <==> forall i :: 0 <= i < |chunks| ==> chunks[i] == []
  {
    if chunks == [] then 0 else TotalLength(chunks[..|chunks| - 1]) + |chunks[|chunks| - 1]|
  }

  /** The chunks laid end to end, in arrival order: exactly as many bytes as
      the `loaded` counter. */
  function Flatten(chunks: seq<seq<byte>>): (r: seq<byte>)
    ensures |r| == TotalLength(chunks)
  {
    if chunks == [] then [] else Flatten(chunks[..|chunks| - 1]) + chunks[|chunks| - 1]
  }

  /** `loaded` only grows: a prefix of the chunks is never longer than all of them. */
  lemma {:induction false} PrefixLength(chunks: seq<seq<byte>>, c: int)
    requires 0 <= c <= |chunks|
    ensures TotalLength(chunks[..c]) <= TotalLength(chunks)
  {
    if c < |chunks| {
      var n := |chunks| - 1;
      PrefixLength(chunks[..n], c);
      assert chunks[..n][..c] == chunks[..c];
    } else {
      assert chunks[..c] == chunks;
    }
  }

  // ---------------------------------------------------------------------
  // Progress

  /** `total > 0 ? Math.min((loaded / total) * 100, 100)
                  : Math.min(loaded / 1000000 * 10, 90)`, over the reals.
      A missing or unparseable content-length makes `total` 0. */
  function Percent(loaded: nat, total: int): (r: real)
    ensures 0.0 <= r <= 100.0
    ensures total <= 0 ==> r <= 90.0
  {
    if total > 0 then MinReal(loaded as real / total as real * 100.0, 100.0)
    else MinReal(loaded as real / 1000000.0 * 10.0, 90.0)
  }

  /** With a known size, progress lies in [0, 100] and is 100 once every
      advertised byte has arrived. */
  lemma PercentKnownTotal(loaded: nat, total: int)
    requires total > 0
    ensures 0.0 <= Percent(loaded, total) <= 100.0
    ensures loaded >= total ==> Percent(loaded, total) == 100.0
    ensures loaded < total ==> Percent(loaded, total) < 100.0
  {
    var q := loaded as real / total as real;
    assert q * total as real == loaded as real;
    if loaded >= total {
      assert q >= 1.0;
    } else {
      assert q < 1.0;
    }
  }

  /** With an unknown size, progress is one percent per 100000 bytes and
      stops at 90, so it never claims completion. */
  lemma PercentUnknownTotal(loaded: nat, total: int)
    requires total <= 0
    ensures Percent(loaded, total) == MinReal(loaded as real / 100000.0, 90.0)
    ensures 0.0 <= Percent(loaded, total) <= 90.0
  {
  }

  /** More bytes never mean less progress. */
  lemma PercentMonotone(earlier: nat, later: nat, total: int)
    requires earlier <= later
    ensures Percent(earlier, total) <= Percent(later, total)
  {
    if total > 0 {
      var t := total as real;
      assert earlier as real / t <= later as real / t by {
        assert (earlier as real / t) * t == earlier as real;
        assert (later as real / t) * t == later as real;
      }
    }
  }

  // ---------------------------------------------------------------------
  // The two loops

  /** The `while (true)` read loop: each `reader.read()` yields the next chunk
      of `stream` until it reports done. Returns the collected chunks, the
      byte count, and the percent passed to `setProgress` after each chunk. */
  method ReadChunks(stream: seq<seq<byte>>, total: int) returns (chunks: seq<seq<byte>>, loaded: nat, progress: seq<real>)
    ensures chunks == stream
    ensures loaded == TotalLength(stream)
    ensures |progress| == |stream|
    ensures forall i :: 0 <= i < |stream| ==> progress[i] == Percent(TotalLength(stream[..i + 1]), total)
    ensures forall i, j :: 0 <= i <= j < |progress| ==> progress[i] <= progress[j]
  {
    chunks, loaded, progress := [], 0, [];
    var next := 0;
    while true
      invariant 0 <= next <= |stream|
      invariant chunks == stream[..next]
      invariant loaded == TotalLength(chunks)
      invariant |progress| == next
      invariant forall i :: 0 <= i < next ==> progress[i] == Percent(TotalLength(stream[..i + 1]), total)
      invariant forall i, j :: 0 <= i <= j < next ==> progress[i] <= progress[j]
      invariant forall i :: 0 <= i < next ==> progress[i] <= Percent(loaded, total)
      decreases |stream| - next
    {
      if next == |stream| {
        break;
      }
      var value := stream[next];
      next := next + 1;
      chunks := chunks + [value];
      assert chunks[..next - 1] == stream[..next - 1];
      ghost var before := loaded;
      loaded := loaded + |value|;
      var percent := Percent(loaded, total);
      PercentMonotone(before, loaded, total);
      assert chunks == stream[..next];
      progress := progress + [percent];
    }
    assert stream[..next] == stream;
  }

  /** `buffer.set(chunk, offset)`: copies `chunk` into `buffer` at `offset`. */
  method SetAt(buffer: array<byte>, chunk: seq<byte>, offset: nat)
    requires offset + |chunk| <= buffer.Length
    modifies buffer
    ensures buffer[..offset] == old(buffer[..offset])
    ensures buffer[offset..offset + |chunk|] == chunk
    ensures buffer[offset + |chunk|..] == old(buffer[offset + |chunk|..])
  {
    for k := 0 to |chunk|
      invariant buffer[..offset] == old(buffer[..offset])
      invariant buffer[offset..offset + k] == chunk[..k]
      invariant buffer[offset + k..] == old(buffer[offset + k..])
    {
      buffer[offset + k] := chunk[k];
      assert buffer[offset..offset + k + 1] == buffer[offset..offset + k] + [chunk[k]];
    }
  }

  /** `new Uint8Array(loaded)` filled by the `for (const chunk of chunks)`
      loop: the buffer is the chunks end to end and the final offset is
      `loaded`. */
  method Assemble(chunks: seq<seq<byte>>, loaded: nat) returns (buffer: array<byte>, offset: nat)
    requires loaded == TotalLength(chunks)
    ensures fresh(buffer)
    ensures buffer.Length == loaded && offset == loaded
    ensures buffer[..] == Flatten(chunks)
  {
    buffer := new byte[loaded];
    offset := 0;
    for c := 0 to |chunks|
      invariant offset == TotalLength(chunks[..c])
      invariant offset <= loaded
      invariant buffer[..offset] == Flatten(chunks[..c])
    {
      var chunk := chunks[c];
      assert chunks[..c + 1][..c] == chunks[..c];
      assert Flatten(chunks[..c + 1]) == Flatten(chunks[..c]) + chunk;
      PrefixLength(chunks, c + 1);
      ghost var filled := buffer[..offset];
      SetAt(buffer, chunk, offset);
      assert buffer[..offset + |chunk|] == filled + chunk by {
        assert buffer[..offset + |chunk|] == buffer[..offset] + buffer[offset..offset + |chunk|];
      }
      offset := offset + |chunk|;
    }
    assert chunks[..|chunks|] == chunks;
  }
}
