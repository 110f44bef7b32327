/** cs_render_frame of server/src/render_egl.c as a frame source: its guards,
    and the copy of the drawn picture into the caller's buffer. The picture
    itself (EGL, shaders, the floating-point rotation) is an input: the bytes
    glReadPixels delivers. */
module FrameSource {
  /** The bytes of one RGBA frame. */
  function FrameBytes(width: nat, height: nat): nat {
    width * height * 4
  }

  class Renderer {
    const width: nat
    const height: nat
    /** Frames drawn so far; the rotation angle grows by a fixed step per
        frame, so this count determines it. */
    var frames: nat

    constructor (width: nat, height: nat)
      ensures this.width == width && this.height == height && frames == 0
    {
      this.width := width;
      this.height := height;
      frames := 0;
    }
  }

  /** cs_render_frame: -1 for a NULL renderer or buffer, or a buffer shorter
      than one frame; otherwise the picture is drawn, its bytes fill the
      front of the buffer, and the result is 0. */
  method RenderFrame(r: Renderer?, out: array?<bv8>, len: nat, picture: seq<bv8>) returns (rc: int)
    requires out != null ==> len <= out.Length
    requires r != null ==> |picture| == FrameBytes(r.width, r.height)
    modifies r, out
    ensures rc == (if r != null && out != null && FrameBytes(r.width, r.height) <= len then 0 else -1)
    ensures r != null ==> r.frames == old(r.frames) + (if rc == 0 then 1 else 0)
    ensures rc == 0 ==> out[..|picture|] == picture && out[|picture|..] == old(out[|picture|..])
    ensures rc != 0 && out != null ==> out[..] == old(out[..])
  {
    if r == null || out == null {
      return -1;
    }
    var expected := FrameBytes(r.width, r.height);
    if len < expected {
      return -1;
    }
    r.frames := r.frames + 1;
    forall i | 0 <= i < |picture| {
      out[i] := picture[i];
    }
    rc := 0;
  }
}
