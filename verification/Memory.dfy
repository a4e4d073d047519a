/** Writing into a block of memory. */
module Memory {
  import opened Words

  /** m with data written at index at. */
  function Patched<T>(m: seq<T>, at: nat, data: seq<T>): (r: seq<T>)
    requires at + |data| <= |m|
    ensures |r| == |m|
  {
    m[..at] + data + m[at + |data|..]
  }

  /** m with data written over its start, as far as it fits. */
  function Overlay(m: seq<byte>, data: seq<byte>): (r: seq<byte>)
    ensures |r| == |m|
  {
    if |data| <= |m| then data + m[|data|..] else data[..|m|]
  }

  lemma OverlayNone(m: seq<byte>)
    ensures Overlay(m, []) == m
  {
  }

  /** Writing the next piece after what has been written so far. */
  lemma OverlayGrow(m: seq<byte>, data: seq<byte>, piece: seq<byte>)
    requires |data| + |piece| <= |m|
    ensures Patched(Overlay(m, data), |data|, piece) == Overlay(m, data + piece)
  {
  }

  lemma OverlayPatched(m: seq<byte>, data: seq<byte>)
    ensures Patched(m, 0, if |data| <= |m| then data else data[..|m|]) == Overlay(m, data)
  {
  }

  /** memcpy. */
  method Store(a: array<byte>, at: nat, data: seq<byte>)
    requires at + |data| <= a.Length
    modifies a
    ensures a[..] == Patched(old(a[..]), at, data)
  {
    forall k | 0 <= k < |data| {
      a[at + k] := data[k];
    }
  }
}
