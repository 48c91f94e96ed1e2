/**
 * The viewer's process-wide state (the source's globals) as one object, and
 * the callbacks that read and update it: loading, drawing a frame, and the
 * two pointer callbacks.
 */
module Viewer {
  import opened Wrappers
  import opened Gltf
  import opened AccessorDecoder
  import opened MeshExtractor
  import Renderer
  import Interaction

  class Viewer {
    var positions: seq<Word>
    var normals: seq<Word>
    var indices: seq<u32>
    /** `angleX` is half of this, in degrees. */
    var pitchPixels: int
    /** `angleY` is half of this, in degrees. */
    var yawPixels: int
    var lastMouseX: int
    var lastMouseY: int
    var isDragging: bool

    function Buffers(): MeshBuffers
      reads this
    {
      MeshBuffers(positions, normals, indices)
    }

    function Drag(): Interaction.DragState
      reads this
    {
      Interaction.DragState(isDragging, lastMouseX, lastMouseY, pitchPixels, yawPixels)
    }

    /** Start-up: empty buffers, no rotation, not dragging, anchor zero. */
    constructor ()
      ensures Buffers() == EMPTY && Drag() == Interaction.INITIAL
    {
      positions, normals, indices := [], [], [];
      pitchPixels, yawPixels := 0, 0;
      lastMouseX, lastMouseY := 0, 0;
      isDragging := false;
    }

    /**
     * `loadGLB` given the parser's result: `Some(EXIT_LOAD_FAILURE)` when the
     * process exits, `None` when loading returns.
     */
    method LoadGlb(parsed: Option<Model>) returns (exitCode: Option<int>)
      requires LoadDefined(parsed)
      modifies this
      ensures exitCode == if Load(parsed, old(Buffers())).None? then Some(EXIT_LOAD_FAILURE) else None
      ensures Buffers() == if exitCode.Some? then old(Buffers()) else Load(parsed, old(Buffers())).value
      ensures Drag() == old(Drag())
    {
      if parsed.None? {
        return Some(EXIT_LOAD_FAILURE);
      }
      var model := parsed.value;
      if |model.meshes| == 0 || |model.meshes[0].primitives| == 0 {
        return Some(EXIT_LOAD_FAILURE);
      }
      var primitive := model.meshes[0].primitives[0];
      if POSITION in primitive.attributes {
        var accessorIndex := primitive.attributes[POSITION];
        positions := GetBufferData(model, model.accessors[accessorIndex], positions);
      }
      if NORMAL in primitive.attributes {
        var accessorIndex := primitive.attributes[NORMAL];
        normals := GetBufferData(model, model.accessors[accessorIndex], normals);
      }
      if primitive.indices > -1 {
        indices := GetIndexData(model, model.accessors[primitive.indices], indices);
      }
      return None;
    }

    /** `display`: one frame, drawn from the current state. */
    method Display() returns (frame: Renderer.Frame)
      ensures frame == Renderer.Render(positions, normals, indices, pitchPixels, yawPixels)
    {
      var ps, ns, xs := positions, normals, indices;
      var lit := |ns| > 0;
      if |xs| == 0 {
        return Renderer.Frame(lit, pitchPixels, yawPixels, []);
      }
      var events: seq<Renderer.Event> := [];
      var i := 0;
      while i < |xs|
        invariant 0 <= i <= |xs|
        invariant events == Renderer.Trace(ps, ns, xs[..i])
      {
        var index := xs[i];
        var issued := IssueVertex(ps, ns, index);
        assert xs[..i + 1] == xs[..i] + [index];
        Renderer.TraceSnoc(ps, ns, xs[..i], index);
        events := events + issued;
        i := i + 1;
      }
      assert xs[..i] == xs;
      frame := Renderer.Frame(lit, pitchPixels, yawPixels, events);
    }

    /** One pass of the drawing loop's body: the calls issued for index `index`. */
    static method IssueVertex(ps: seq<Word>, ns: seq<Word>, index: u32) returns (issued: seq<Renderer.Event>)
      ensures issued == Renderer.Step(ps, ns, index)
    {
      issued := [];
      if index * 3 + 2 < |ps| {
        if |ns| > 0 && index * 3 + 2 < |ns| {
          issued := [Renderer.Normal(Renderer.Vec3(ns[index * 3 + 0], ns[index * 3 + 1], ns[index * 3 + 2]))];
        }
        issued := issued + [Renderer.Vertex(Renderer.Vec3(ps[index * 3 + 0], ps[index * 3 + 1], ps[index * 3 + 2]))];
      }
    }

    /** `mouse(button, state, x, y)`. */
    method Mouse(button: int, state: int, x: int, y: int)
      modifies this
      ensures Drag() == Interaction.Button(old(Drag()), button, state, x, y)
      ensures Buffers() == old(Buffers())
    {
      if button == Interaction.LEFT_BUTTON {
        if state == Interaction.DOWN {
          isDragging := true;
          lastMouseX := x;
          lastMouseY := y;
        } else {
          isDragging := false;
        }
      }
    }

    /** `motion(x, y)`; `redraw` stands for the redisplay request. */
    method Motion(x: int, y: int) returns (redraw: bool)
      modifies this
      ensures (Drag(), redraw) == Interaction.Motion(old(Drag()), x, y)
      ensures Buffers() == old(Buffers())
    {
      redraw := false;
      if isDragging {
        yawPixels := yawPixels + (x - lastMouseX);
        pitchPixels := pitchPixels + (y - lastMouseY);
        lastMouseX := x;
        lastMouseY := y;
        redraw := true;
      }
    }
  }
}
