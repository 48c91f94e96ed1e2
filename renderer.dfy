/**
 * One frame of `display`, with the GL calls replaced by the sequence of
 * immediate-mode events they issue: `Normal(n)` for a normal call and
 * `Vertex(p)` for a vertex call. The frame also records whether lighting is
 * on and the rotation it applies.
 */
module Renderer {
  import opened Wrappers
  import opened Gltf

  datatype Vec3 = Vec3(x: Word, y: Word, z: Word)

  datatype Event = Normal(normal: Vec3) | Vertex(position: Vec3)

  /**
   * A frame: `lit` is the headlight (on) or the flat grey fallback (off);
   * the rotation is the two accumulated pixel sums (degrees are half of them);
   * `events` is what the triangle list submits, every three vertices one triangle.
   */
  datatype Frame = Frame(lit: bool, pitchPixels: int, yawPixels: int, events: seq<Event>)

  /** One submitted vertex with the normal issued just before it, if any. */
  datatype Draw = Draw(normal: Option<Vec3>, position: Vec3)

  /** The bounds check: vertex `idx` has all three of its components in a buffer of `length` words. */
  predicate HasVertex(length: nat, idx: int) {
    idx * 3 + 2 < length
  }

  /** Vertex `idx` of a flattened buffer. */
  function VertexAt(s: seq<Word>, idx: u32): Vec3
    requires HasVertex(|s|, idx)
  {
    Vec3(s[idx * 3 + 0], s[idx * 3 + 1], s[idx * 3 + 2])
  }

  /** A normal is issued for `idx` when normals were loaded and cover that vertex. */
  predicate NormalApplies(normals: seq<Word>, idx: u32) {
    |normals| > 0 && HasVertex(|normals|, idx)
  }

  /** The events the loop body issues for one index. */
  function Step(positions: seq<Word>, normals: seq<Word>, idx: u32): seq<Event> {
    if !HasVertex(|positions|, idx) then []
    else (if NormalApplies(normals, idx) then [Normal(VertexAt(normals, idx))] else [])
         + [Vertex(VertexAt(positions, idx))]
  }

  /** The events of the drawing loop over `indices`, in index order. */
  function Trace(positions: seq<Word>, normals: seq<Word>, indices: seq<u32>): seq<Event>
    decreases |indices|
  {
    if indices == [] then []
    else Trace(positions, normals, indices[..|indices| - 1]) + Step(positions, normals, indices[|indices| - 1])
  }

  /** The loop's events after one more index. */
  lemma TraceSnoc(positions: seq<Word>, normals: seq<Word>, indices: seq<u32>, idx: u32)
    ensures Trace(positions, normals, indices + [idx]) == Trace(positions, normals, indices) + Step(positions, normals, idx)
  {
    assert (indices + [idx])[..|indices|] == indices;
  }

  /** The frame `display` draws from the viewer's state. */
  function Render(positions: seq<Word>, normals: seq<Word>, indices: seq<u32>, pitchPixels: int, yawPixels: int)
    : (r: Frame)
    ensures r.lit <==> |normals| > 0
    ensures r.pitchPixels == pitchPixels && r.yawPixels == yawPixels
    ensures r.events == Emit(Draws(positions, normals, indices))
    ensures Parse(r.events) == Draws(positions, normals, indices)
  {
    TraceEmitsDraws(positions, normals, indices);
    TraceParses(positions, normals, indices);
    Frame(|normals| > 0, pitchPixels, yawPixels, Trace(positions, normals, indices))
  }

  // ---- The reference: which vertices are drawn, and with which normal ----

  /** The indices that pass the bounds check, in their original order. */
  function InRange(length: nat, indices: seq<u32>): (r: seq<u32>)
    ensures |r| <= |indices|
    ensures forall k :: 0 <= k < |r| ==> HasVertex(length, r[k])
  {
    if indices == [] then []
    else (if HasVertex(length, indices[0]) then [indices[0]] else []) + InRange(length, indices[1..])
  }

  function DrawOf(positions: seq<Word>, normals: seq<Word>, idx: u32): Draw
    requires HasVertex(|positions|, idx)
  {
    Draw(if NormalApplies(normals, idx) then Some(VertexAt(normals, idx)) else None, VertexAt(positions, idx))
  }

  /**
   * What a frame should draw: for every index in range of the positions, in
   * order, that vertex, with its normal when the normals cover it.
   */
  function Draws(positions: seq<Word>, normals: seq<Word>, indices: seq<u32>): seq<Draw> {
    var kept := InRange(|positions|, indices);
    seq(|kept|, k requires 0 <= k < |kept| => DrawOf(positions, normals, kept[k]))
  }

  /** The GL calls a sequence of draws issues: each normal just before its vertex. */
  function Emit(draws: seq<Draw>): seq<Event> {
    if draws == [] then []
    else (match draws[0].normal
          case Some(n) => [Normal(n)]
          case None => [])
         + [Vertex(draws[0].position)] + Emit(draws[1..])
  }

  /**
   * Reads a sequence of events back as draws: each vertex, paired with the
   * normal that immediately precedes it, if one does.
   */
  function Parse(events: seq<Event>): seq<Draw> {
    if events == [] then []
    else if events[0].Normal? && |events| > 1 && events[1].Vertex? then
      [Draw(Some(events[0].normal), events[1].position)] + Parse(events[2..])
    else if events[0].Vertex? then [Draw(None, events[0].position)] + Parse(events[1..])
    else Parse(events[1..])
  }

  // ---- Lemmas ----

  lemma {:induction false} ParseEmit(draws: seq<Draw>)
    ensures Parse(Emit(draws)) == draws
  {
    if draws != [] {
      ParseEmit(draws[1..]);
      var tail := [Vertex(draws[0].position)] + Emit(draws[1..]);
      match draws[0].normal
      case Some(n) =>
        assert Emit(draws) == [Normal(n)] + tail;
        assert (Emit(draws))[2..] == Emit(draws[1..]);
      case None =>
        assert Emit(draws) == tail;
        assert (Emit(draws))[1..] == Emit(draws[1..]);
    }
  }

  lemma {:induction false} EmitAppend(a: seq<Draw>, b: seq<Draw>)
    ensures Emit(a + b) == Emit(a) + Emit(b)
  {
    if a == [] {
      assert a + b == b;
    } else {
      assert (a + b)[0] == a[0] && (a + b)[1..] == a[1..] + b;
      EmitAppend(a[1..], b);
    }
  }

  lemma {:induction false} InRangeAppend(length: nat, a: seq<u32>, b: seq<u32>)
    ensures InRange(length, a + b) == InRange(length, a) + InRange(length, b)
  {
    if a == [] {
      assert a + b == b;
    } else {
      assert (a + b)[0] == a[0] && (a + b)[1..] == a[1..] + b;
      InRangeAppend(length, a[1..], b);
    }
  }

  /** Draws distribute over concatenation of index lists. */
  lemma DrawsAppend(positions: seq<Word>, normals: seq<Word>, a: seq<u32>, b: seq<u32>)
    ensures Draws(positions, normals, a + b) == Draws(positions, normals, a) + Draws(positions, normals, b)
  {
    InRangeAppend(|positions|, a, b);
  }

  /** The drawing loop issues exactly the events of the reference draws. */
  lemma {:induction false} TraceEmitsDraws(positions: seq<Word>, normals: seq<Word>, indices: seq<u32>)
    ensures Trace(positions, normals, indices) == Emit(Draws(positions, normals, indices))
  {
    if indices != [] {
      var init, last := indices[..|indices| - 1], indices[|indices| - 1];
      assert indices == init + [last];
      TraceEmitsDraws(positions, normals, init);
      DrawsAppend(positions, normals, init, [last]);
      EmitAppend(Draws(positions, normals, init), Draws(positions, normals, [last]));
      assert InRange(|positions|, [last]) == if HasVertex(|positions|, last) then [last] else [];
      if HasVertex(|positions|, last) {
        assert Draws(positions, normals, [last]) == [DrawOf(positions, normals, last)];
      } else {
        assert Draws(positions, normals, [last]) == [];
      }
    }
  }

  /**
   * Normal before position: the `k`-th vertex of the frame is the `k`-th
   * in-range index's position, and it is immediately preceded by a normal
   * call exactly when normals were loaded and cover that index, in which case
   * it is that index's normal.
   */
  lemma TraceParses(positions: seq<Word>, normals: seq<Word>, indices: seq<u32>)
    ensures Parse(Trace(positions, normals, indices)) == Draws(positions, normals, indices)
  {
    TraceEmitsDraws(positions, normals, indices);
    ParseEmit(Draws(positions, normals, indices));
  }

  /**
   * An out-of-range index is skipped and drawing goes on: the draws around it
   * are those of the indices before it followed by those after it.
   */
  lemma SkipOutOfRange(positions: seq<Word>, normals: seq<Word>, before: seq<u32>, bad: u32, after: seq<u32>)
    requires !HasVertex(|positions|, bad)
    ensures Draws(positions, normals, before + [bad] + after)
         == Draws(positions, normals, before) + Draws(positions, normals, after)
  {
    DrawsAppend(positions, normals, before + [bad], after);
    DrawsAppend(positions, normals, before, [bad]);
    assert InRange(|positions|, [bad]) == [];
  }

  /** When every index is in range, the frame draws one vertex per index, in order. */
  lemma {:induction false} AllInRange(positions: seq<Word>, normals: seq<Word>, indices: seq<u32>)
    requires forall k :: 0 <= k < |indices| ==> HasVertex(|positions|, indices[k])
    ensures InRange(|positions|, indices) == indices
    ensures |Draws(positions, normals, indices)| == |indices|
    ensures forall k :: 0 <= k < |indices| ==>
      Draws(positions, normals, indices)[k].position == VertexAt(positions, indices[k])
  {
    if indices != [] {
      AllInRange(positions, normals, indices[1..]);
    }
  }

  /** With no normals loaded, the frame is unlit and issues vertices only. */
  lemma {:induction false} UnlitDrawsNoNormals(positions: seq<Word>, indices: seq<u32>)
    ensures forall k :: 0 <= k < |Trace(positions, [], indices)| ==> Trace(positions, [], indices)[k].Vertex?
  {
    if indices != [] {
      UnlitDrawsNoNormals(positions, indices[..|indices| - 1]);
    }
  }

  // ---- The bounds check as written, in 32-bit unsigned arithmetic ----

  const U32_MODULUS: int := 0x1_0000_0000

  /** `index * 3 + k` evaluated in `unsigned int`, which wraps modulo 2^32. */
  function OffsetAsWritten(idx: u32, k: nat): u32 {
    (idx * 3 + k) % U32_MODULUS
  }

  /**
   * The source's bounds check, `index * 3 + 2 < size` with the left side
   * wrapped: it admits every index the intended check admits, and agrees with
   * it whenever `index * 3 + 2` fits in 32 bits.
   */
  function GuardAsWritten(length: nat, idx: u32): (r: bool)
    ensures HasVertex(length, idx) ==> r
    ensures idx * 3 + 2 < U32_MODULUS ==> (r <==> HasVertex(length, idx))
  {
    OffsetAsWritten(idx, 2) < length
  }

  /**
   * With two vertices (six words) loaded, index 1431655766 passes the
   * as-written check although it has no vertex, and its three components
   * are read at offsets 2, 3 and 4: the last word of vertex 0 and the first
   * two of vertex 1.
   */
  lemma WrappedIndexReadsMisalignedTriple()
    ensures GuardAsWritten(6, 1431655766) && !HasVertex(6, 1431655766)
    ensures OffsetAsWritten(1431655766, 0) == 2
    ensures OffsetAsWritten(1431655766, 1) == 3
    ensures OffsetAsWritten(1431655766, 2) == 4
  {
  }

  /**
   * Index 1431655765 passes the as-written check for any buffer of two or
   * more words, and its first component is then read at offset 2^32 - 1.
   */
  lemma WrappedIndexReadsPastEnd(length: nat)
    requires 2 <= length < U32_MODULUS
    ensures GuardAsWritten(length, 1431655765) && !HasVertex(length, 1431655765)
    ensures OffsetAsWritten(1431655765, 0) == U32_MODULUS - 1 >= length
  {
  }
}
