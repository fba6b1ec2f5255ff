/**
 * The image and size record shared by off-screen buffers and layers
 * (src/guacenc/buffer.h). Only the record's fields and the documented
 * contracts of its allocation and resize operations are modelled: the pixel
 * memory behind it belongs to the drawing library.
 */
module GuacBuffer {

  /** Bytes per pixel of the 32-bit ARGB images the buffers hold. */
  const BYTES_PER_PIXEL: int := 4

  /** Width and height in pixels, and the number of bytes in each row. */
  datatype Geometry = Geometry(width: int, height: int, stride: int)

  /**
   * The geometry a newly allocated buffer is taken to have: nothing drawn,
   * no storage (buffer.h says only that a new buffer is initialised).
   */
  const EMPTY: Geometry := Geometry(0, 0, 0)

  /** Bytes in one row of an image `width` pixels wide. */
  function RowBytes(width: int): int {
    BYTES_PER_PIXEL * width
  }

  /** The stride of `g` is the row size its width calls for. */
  predicate WellFormed(g: Geometry) {
    g.stride == RowBytes(g.width)
  }

  /** The geometry left by a resize request, with the status code it returns. */
  datatype ResizeResult = ResizeResult(geometry: Geometry, status: int)

  /**
   * The outcome of asking for a resize to `width` x `height`: status zero and
   * the requested size on success, a non-zero status and the unchanged
   * geometry when the storage cannot be obtained.
   */
  function Resized(g: Geometry, width: int, height: int, succeeds: bool): (r: ResizeResult)
    ensures r.status == 0 <==> succeeds
    ensures r.status == 0 ==> r.geometry.width == width && r.geometry.height == height && WellFormed(r.geometry)
    ensures r.status != 0 ==> r.geometry == g
  {
    if succeeds then ResizeResult(Geometry(width, height, RowBytes(width)), 0) else ResizeResult(g, 1)
  }

  /** Growing (or shrinking) and then resizing back restores a well-formed geometry exactly. */
  lemma ResizeRoundTrip(g: Geometry, width: int, height: int)
    requires WellFormed(g)
    ensures Resized(Resized(g, width, height, true).geometry, g.width, g.height, true) == ResizeResult(g, 0)
  {
  }

  /** Resizing twice to the same size is the same as resizing once. */
  lemma ResizeIdempotent(g: Geometry, width: int, height: int)
    ensures var once := Resized(g, width, height, true).geometry;
            Resized(once, width, height, true) == ResizeResult(once, 0)
  {
  }

  /** One buffer's size record; the methods below change it in place. */
  class Buffer {
    var width: int
    var height: int
    var stride: int

    /** The record as a value. */
    function Shape(): Geometry
      reads this
    {
      Geometry(width, height, stride)
    }

    /** A new buffer is taken to be empty: zero by zero, with zero-length rows. */
    constructor ()
      ensures Shape() == EMPTY
    {
      width, height, stride := 0, 0, 0;
    }

    /**
     * Allocation of a buffer object that belongs to no display yet (it is
     * fresh); `succeeds` stands for whether memory could be obtained.
     */
    static method Alloc(succeeds: bool) returns (buffer: Buffer?)
      ensures buffer != null <==> succeeds
      ensures buffer != null ==> fresh(buffer) && buffer.Shape() == EMPTY
    {
      if succeeds {
        buffer := new Buffer();
      } else {
        buffer := null;
      }
    }

    /**
     * Resizes the buffer to `newWidth` x `newHeight`, updating width, height
     * and stride; returns zero on success and non-zero when the storage
     * cannot be obtained (`succeeds` is false), leaving the record as it was.
     */
    method Resize(newWidth: int, newHeight: int, succeeds: bool) returns (status: int)
      modifies this
      ensures ResizeResult(Shape(), status) == Resized(old(Shape()), newWidth, newHeight, succeeds)
    {
      if !succeeds {
        return 1;
      }
      width, height, stride := newWidth, newHeight, RowBytes(newWidth);
      status := 0;
    }
  }
}
