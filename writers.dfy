/** saveToBINFile and saveToASCIIFile. Both write a head, then one group of
    chunks per facet with a cancellation test after each facet; the ASCII
    writer ends with a tail line. Every fwrite/fprintf call is one chunk
    written to a Sink, whose oracle says whether the call succeeds. The
    writers are specified by the functions SaveBin and SaveAscii, over the
    images BinaryImage and AsciiText of the whole file. */
module Writers {
  import opened StlBase
  import opened MeshModel
  import opened BinaryReader

  /** The open FILE*: what has been written so far and how many write calls
      were made; `accepts(c)` says whether write call number c succeeds. */
  class Sink<T> {
    var written: seq<T>
    var calls: nat
    const accepts: nat -> bool

    constructor (accepts: nat -> bool)
      ensures written == [] && calls == 0 && this.accepts == accepts
    {
      written := [];
      calls := 0;
      this.accepts := accepts;
    }

    /** One fwrite/fprintf call: a failed call writes nothing. */
    method Write(chunk: seq<T>) returns (ok: bool)
      modifies this
      ensures ok == accepts(old(calls)) && calls == old(calls) + 1
      ensures written == old(written) + (if ok then chunk else [])
    {
      ok := accepts(calls);
      if ok {
        written := written + chunk;
      }
      calls := calls + 1;
    }
  }

  /** The outcome of a run of write calls on a sink. */
  datatype Out<T> = Out(written: seq<T>, calls: nat, result: FileError)

  /** One write call; a failure ends the writer with Writing. */
  function Put<T>(o: Out<T>, chunk: seq<T>, accepts: nat -> bool): Out<T>
  {
    if accepts(o.calls) then o.(written := o.written + chunk, calls := o.calls + 1)
    else o.(calls := o.calls + 1, result := Writing)
  }

  /** Write calls for the chunks in order, up to the first failure. */
  function PutAll<T>(o: Out<T>, chunks: seq<seq<T>>, accepts: nat -> bool): (r: Out<T>)
    requires o.result == NoError
    ensures r.result == NoError || r.result == Writing
    decreases |chunks|
  {
    if chunks == [] then o
    else
      var o1 := Put(o, chunks[0], accepts);
      if o1.result == Writing then o1 else PutAll(o1, chunks[1..], accepts)
  }

  /** The facet loop of both writers: the chunks of facet i, then the
      progress step, which ends the writer with CanceledByUser when the user
      has cancelled once i + 1 facets are written. */
  function FacetLoop<T>(facets: seq<seq<seq<T>>>, i: nat, o: Out<T>, accepts: nat -> bool,
                        cancelled: nat -> bool): (r: Out<T>)
    requires i <= |facets| && o.result == NoError
    ensures r.result == NoError || r.result == Writing || r.result == CanceledByUser
    decreases |facets| - i
  {
    if i == |facets| then o
    else
      var o1 := PutAll(o, facets[i], accepts);
      if o1.result == Writing then o1
      else if cancelled(i + 1) then o1.(result := CanceledByUser)
      else FacetLoop(facets, i + 1, o1, accepts, cancelled)
  }

  /** The chunks one after the other. */
  function Concat<T>(chunks: seq<seq<T>>): seq<T>
  {
    if chunks == [] then [] else chunks[0] + Concat(chunks[1..])
  }

  /** The chunks of every facet one after the other. */
  function Flatten<T>(facets: seq<seq<seq<T>>>): seq<T>
  {
    if facets == [] then [] else Concat(facets[0]) + Flatten(facets[1..])
  }

  /** The mesh the writers are given: at least one facet (saveToFile returns
      before calling them otherwise), at most 2^32 - 1 of them (the count is
      an unsigned int), every vertex index valid. */
  predicate Writable(points: seq<Point>, triangles: seq<Triangle>)
  {
    && 0 < |triangles| < 0x1_0000_0000
    && forall k :: 0 <= k < |triangles| ==> InRange(triangles[k], |points|)
  }

  // ---------------------------------------------------------------------
  // Binary

  /** The 80-byte header (lines 111-116): the codes of the 42 characters
      of "Binary STL file generated by CloudCompare!", then 38 zeros. */
  function HeaderBytes(): (r: seq<byte>)
    ensures |r| == HeaderSize && r[0] == 66
  {
    var text: seq<byte> :=
      [66, 105, 110, 97, 114, 121, 32, 83, 84, 76, 32, 102, 105, 108, 101, 32, 103, 101, 110, 101,
       114, 97, 116, 101, 100, 32, 98, 121, 32, 67, 108, 111, 117, 100, 67, 111, 109, 112, 97, 114,
       101, 33];
    text + Zeros(HeaderSize - |text|)
  }

  /** n as four little-endian bytes (the uint32 of lines 119-123). */
  function U32Bytes(n: nat): (r: seq<byte>)
    requires n < 0x1_0000_0000
    ensures |r| == CountSize
  {
    [n % 0x100, n / 0x100 % 0x100, n / 0x1_0000 % 0x100, n / 0x100_0000]
  }

  /** A coordinate as a little-endian float. */
  function F32(x: real, fmt: Format): (r: seq<byte>)
    ensures |r| == 4
  {
    var (b0, b1, b2, b3) := fmt.encodeF32(x);
    [b0, b1, b2, b3]
  }

  /** A point as three little-endian floats. */
  function PointBytes(p: Point, fmt: Format): (r: seq<byte>)
    ensures |r| == 12
  {
    F32(p.x, fmt) + F32(p.y, fmt) + F32(p.z, fmt)
  }

  /** The five writes of one facet (lines 132-164): the face normal, the
      three vertices in local coordinates, two zero attribute bytes. */
  function BinFacetChunks(points: seq<Point>, t: Triangle, fmt: Format): (r: seq<seq<byte>>)
    requires InRange(t, |points|)
    ensures |r| == 5
  {
    var a := points[t.i1];
    var b := points[t.i2];
    var c := points[t.i3];
    [PointBytes(FaceNormal(a, b, c), fmt), PointBytes(a, fmt), PointBytes(b, fmt), PointBytes(c, fmt), [0, 0]]
  }

  function BinFacets(points: seq<Point>, triangles: seq<Triangle>, fmt: Format): (r: seq<seq<seq<byte>>>)
    requires Writable(points, triangles)
    ensures |r| == |triangles|
  {
    seq(|triangles|, k requires 0 <= k < |triangles| => BinFacetChunks(points, triangles[k], fmt))
  }

  /** The whole binary file. */
  function BinaryImage(points: seq<Point>, triangles: seq<Triangle>, fmt: Format): seq<byte>
    requires Writable(points, triangles)
  {
    HeaderBytes() + U32Bytes(|triangles|) + Flatten(BinFacets(points, triangles, fmt))
  }

  /** saveToBINFile (lines 98-179) from the sink state o. */
  function SaveBin(points: seq<Point>, triangles: seq<Triangle>, o: Out<byte>, accepts: nat -> bool,
                   fmt: Format): Out<byte>
    requires Writable(points, triangles) && o.result == NoError
  {
    var o1 := PutAll(o, [HeaderBytes(), U32Bytes(|triangles|)], accepts);
    if o1.result == Writing then o1
    else FacetLoop(BinFacets(points, triangles, fmt), 0, o1, accepts, fmt.cancelled)
  }

  // ---------------------------------------------------------------------
  // ASCII

  /** Three numbers in "%e" notation, separated by single spaces. */
  function Numbers(p: Point, fmt: Format): string
  {
    fmt.formatE(p.x) + " " + fmt.formatE(p.y) + " " + fmt.formatE(p.z)
  }

  /** The six writes of one facet (lines 201-235): the face normal, 'outer
      loop', the three vertices in global coordinates (the cloud's shift
      taken off), then 'endloop' and 'endfacet' in one call. */
  function AsciiFacetChunks(points: seq<Point>, shift: Point, t: Triangle, fmt: Format): (r: seq<string>)
    requires InRange(t, |points|)
    ensures |r| == 6
  {
    var a := points[t.i1];
    var b := points[t.i2];
    var c := points[t.i3];
    ["facet normal " + Numbers(FaceNormal(a, b, c), fmt) + "\n",
     "outer loop\n",
     "vertex " + Numbers(Sub(a, shift), fmt) + "\n",
     "vertex " + Numbers(Sub(b, shift), fmt) + "\n",
     "vertex " + Numbers(Sub(c, shift), fmt) + "\n",
     "endloop\nendfacet\n"]
  }

  function AsciiFacets(points: seq<Point>, shift: Point, triangles: seq<Triangle>, fmt: Format): (r: seq<seq<string>>)
    requires Writable(points, triangles)
    ensures |r| == |triangles|
  {
    seq(|triangles|, k requires 0 <= k < |triangles| => AsciiFacetChunks(points, shift, triangles[k], fmt))
  }

  function SolidText(name: string): string
  {
    "solid " + name + "\n"
  }

  function EndSolidText(name: string): string
  {
    "endsolid " + name + "\n"
  }

  /** The whole ASCII file. */
  function AsciiText(points: seq<Point>, shift: Point, triangles: seq<Triangle>, name: string, fmt: Format): string
    requires Writable(points, triangles)
  {
    SolidText(name) + Flatten(AsciiFacets(points, shift, triangles, fmt)) + EndSolidText(name)
  }

  /** saveToASCIIFile (lines 181-244) from the sink state o. */
  function SaveAscii(points: seq<Point>, shift: Point, triangles: seq<Triangle>, name: string,
                     o: Out<char>, accepts: nat -> bool, fmt: Format): Out<char>
    requires Writable(points, triangles) && o.result == NoError
  {
    var o1 := Put(o, SolidText(name), accepts);
    if o1.result == Writing then o1
    else
      var o2 := FacetLoop(AsciiFacets(points, shift, triangles, fmt), 0, o1, accepts, fmt.cancelled);
      if o2.result != NoError then o2 else Put(o2, EndSolidText(name), accepts)
  }

  // ---------------------------------------------------------------------
  // The writers on the sink in place

  /** Consecutive write calls, stopping at the first failure. */
  method WriteChunks<T>(sink: Sink<T>, chunks: seq<seq<T>>) returns (ok: bool)
    modifies sink
    ensures Out(sink.written, sink.calls, if ok then NoError else Writing)
         == PutAll(Out(old(sink.written), old(sink.calls), NoError), chunks, sink.accepts)
  {
    ghost var goal := PutAll(Out(sink.written, sink.calls, NoError), chunks, sink.accepts);
    var i := 0;
    while i < |chunks|
      invariant i <= |chunks|
      invariant PutAll(Out(sink.written, sink.calls, NoError), chunks[i..], sink.accepts) == goal
    {
      assert chunks[i..][1..] == chunks[i + 1..];
      ok := sink.Write(chunks[i]);
      if !ok {
        return;
      }
      i := i + 1;
    }
    assert chunks[i..] == [];
    ok := true;
  }

  /** The facet loop of both writers on the sink in place. */
  method WriteFacets<T>(sink: Sink<T>, facets: seq<seq<seq<T>>>, cancelled: nat -> bool) returns (result: FileError)
    modifies sink
    ensures Out(sink.written, sink.calls, result)
         == FacetLoop(facets, 0, Out(old(sink.written), old(sink.calls), NoError), sink.accepts, cancelled)
  {
    ghost var goal := FacetLoop(facets, 0, Out(sink.written, sink.calls, NoError), sink.accepts, cancelled);
    var i := 0;
    while i < |facets|
      invariant i <= |facets|
      invariant FacetLoop(facets, i, Out(sink.written, sink.calls, NoError), sink.accepts, cancelled) == goal
    {
      var ok := WriteChunks(sink, facets[i]);
      if !ok {
        return Writing;
      }
      if cancelled(i + 1) {
        return CanceledByUser;
      }
      i := i + 1;
    }
    result := NoError;
  }

  /** saveToBINFile on the mesh and its cloud: the facets' chunks are those
      the source computes in its loop. */
  method SaveToBinFile(mesh: Mesh, sink: Sink<byte>, fmt: Format) returns (result: FileError)
    requires Writable(mesh.cloud.points, mesh.triangles)
    modifies sink
    ensures Out(sink.written, sink.calls, result)
         == SaveBin(mesh.cloud.points, mesh.triangles, Out(old(sink.written), old(sink.calls), NoError),
                    sink.accepts, fmt)
  {
    var ok := WriteChunks(sink, [HeaderBytes(), U32Bytes(|mesh.triangles|)]);
    if !ok {
      return Writing;
    }
    result := WriteFacets(sink, BinFacets(mesh.cloud.points, mesh.triangles, fmt), fmt.cancelled);
  }

  /** saveToASCIIFile on the mesh and its cloud. */
  method SaveToAsciiFile(mesh: Mesh, sink: Sink<char>, fmt: Format) returns (result: FileError)
    requires Writable(mesh.cloud.points, mesh.triangles)
    modifies sink
    ensures Out(sink.written, sink.calls, result)
         == SaveAscii(mesh.cloud.points, mesh.cloud.globalShift, mesh.triangles, mesh.name,
                      Out(old(sink.written), old(sink.calls), NoError), sink.accepts, fmt)
  {
    var ok := sink.Write(SolidText(mesh.name));
    if !ok {
      return Writing;
    }
    result := WriteFacets(sink, AsciiFacets(mesh.cloud.points, mesh.cloud.globalShift, mesh.triangles, fmt), fmt.cancelled);
    if result != NoError {
      return;
    }
    ok := sink.Write(EndSolidText(mesh.name));
    result := if ok then NoError else Writing;
  }
}
