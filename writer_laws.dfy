/** What saveToBINFile and saveToASCIIFile guarantee, proved about the
    functions of Writers: the codes they return; they return NoError exactly
    when every write call succeeds and the user never cancels; whatever they
    return, the file holds a prefix of the full image; and the full image is
    written when they return NoError. The binary image is 84 + 50 bytes per
    facet, the ASCII image 2 + 7 lines per facet. */
module WriterLaws {
  import opened StlBase
  import opened MeshModel
  import opened BinaryReader
  import opened Writers

  ghost predicate Prefix<T>(a: seq<T>, b: seq<T>)
  {
    |a| <= |b| && a == b[..|a|]
  }

  /** Write calls number from, ..., from + n - 1 all succeed. */
  predicate AllAccepted(from: nat, n: nat, accepts: nat -> bool)
  {
    forall c :: from <= c < from + n ==> accepts(c)
  }

  /** No progress step from + 1, ..., to is cancelled. */
  predicate NeverCancelled(from: nat, to: nat, cancelled: nat -> bool)
  {
    forall k :: from < k <= to ==> !cancelled(k)
  }

  /** The number of write calls for all the facets. */
  function ChunkCount<T>(facets: seq<seq<seq<T>>>): nat
  {
    if facets == [] then 0 else |facets[0]| + ChunkCount(facets[1..])
  }

  lemma PrefixTrans<T>(a: seq<T>, b: seq<T>, c: seq<T>)
    requires Prefix(a, b) && Prefix(b, c)
    ensures Prefix(a, c)
  {
  }

  lemma AcceptedSplit(from: nat, m: nat, n: nat, accepts: nat -> bool)
    ensures AllAccepted(from, m + n, accepts) <==> AllAccepted(from, m, accepts) && AllAccepted(from + m, n, accepts)
  {
  }

  /** A run of write calls: it ends with NoError exactly when every call
      succeeds, then having written every chunk; otherwise with Writing,
      having written a prefix of them. */
  lemma {:induction false} PutAllLaw<T>(o: Out<T>, chunks: seq<seq<T>>, accepts: nat -> bool)
    requires o.result == NoError
    ensures var r := PutAll(o, chunks, accepts);
      && Prefix(o.written, r.written) && Prefix(r.written, o.written + Concat(chunks))
      && (r.result == NoError <==> AllAccepted(o.calls, |chunks|, accepts))
      && (r.result == NoError ==> r.written == o.written + Concat(chunks) && r.calls == o.calls + |chunks|)
    decreases |chunks|
  {
    if chunks != [] {
      var o1 := Put(o, chunks[0], accepts);
      assert o.written + Concat(chunks) == o.written + chunks[0] + Concat(chunks[1..]);
      if o1.result == NoError {
        PutAllLaw(o1, chunks[1..], accepts);
        AcceptedSplit(o.calls, 1, |chunks| - 1, accepts);
        var r := PutAll(o1, chunks[1..], accepts);
        PrefixTrans(o.written, o1.written, r.written);
      }
    }
  }

  /** The facet loop from facet i: NoError exactly when every write call
      succeeds and no progress step after facet i is cancelled, then with
      every facet written; otherwise a prefix of them. */
  lemma {:induction false} FacetLoopLaw<T>(facets: seq<seq<seq<T>>>, i: nat, o: Out<T>,
                                           accepts: nat -> bool, cancelled: nat -> bool)
    requires i <= |facets| && o.result == NoError
    ensures var r := FacetLoop(facets, i, o, accepts, cancelled);
      && Prefix(o.written, r.written) && Prefix(r.written, o.written + Flatten(facets[i..]))
      && (r.result == NoError <==>
            AllAccepted(o.calls, ChunkCount(facets[i..]), accepts) && NeverCancelled(i, |facets|, cancelled))
      && (r.result == NoError ==>
            r.written == o.written + Flatten(facets[i..]) && r.calls == o.calls + ChunkCount(facets[i..]))
    decreases |facets| - i
  {
    if i < |facets| {
      var rest := facets[i..];
      assert rest[1..] == facets[i + 1..];
      assert Flatten(rest) == Concat(facets[i]) + Flatten(facets[i + 1..]);
      assert ChunkCount(rest) == |facets[i]| + ChunkCount(facets[i + 1..]);
      var o1 := PutAll(o, facets[i], accepts);
      PutAllLaw(o, facets[i], accepts);
      AcceptedSplit(o.calls, |facets[i]|, ChunkCount(facets[i + 1..]), accepts);
      assert o.written + Flatten(rest) == o.written + Concat(facets[i]) + Flatten(facets[i + 1..]);
      if o1.result == NoError && !cancelled(i + 1) {
        FacetLoopLaw(facets, i + 1, o1, accepts, cancelled);
        var r := FacetLoop(facets, i + 1, o1, accepts, cancelled);
        PrefixTrans(o.written, o1.written, r.written);
      }
    }
  }

  /** Facets of m write calls each make m calls per facet. */
  lemma {:induction false} ChunkCountUniform<T>(facets: seq<seq<seq<T>>>, m: nat)
    requires forall k :: 0 <= k < |facets| ==> |facets[k]| == m
    ensures ChunkCount(facets) == m * |facets|
  {
    if facets != [] {
      ChunkCountUniform(facets[1..], m);
    }
  }

  /** Facets of m elements each flatten to m elements per facet. */
  lemma {:induction false} FlattenUniform<T>(facets: seq<seq<seq<T>>>, m: nat)
    requires forall k :: 0 <= k < |facets| ==> |Concat(facets[k])| == m
    ensures |Flatten(facets)| == m * |facets|
  {
    if facets != [] {
      FlattenUniform(facets[1..], m);
    }
  }

  // ---------------------------------------------------------------------
  // Binary

  lemma ConcatUnfold<T>(cs: seq<seq<T>>, k: nat)
    requires k < |cs|
    ensures Concat(cs[k..]) == cs[k] + Concat(cs[k + 1..])
  {
    assert cs[k..][1..] == cs[k + 1..];
  }

  /** A binary facet is 50 bytes. */
  lemma BinFacetSize(points: seq<Point>, t: Triangle, fmt: Format)
    requires InRange(t, |points|)
    ensures |Concat(BinFacetChunks(points, t, fmt))| == FacetSize
  {
    var cs := BinFacetChunks(points, t, fmt);
    assert cs[0..] == cs && cs[5..] == [];
    ConcatUnfold(cs, 0);
    ConcatUnfold(cs, 1);
    ConcatUnfold(cs, 2);
    ConcatUnfold(cs, 3);
    ConcatUnfold(cs, 4);
  }

  /** The binary file of n facets is 84 + 50n bytes. */
  lemma BinaryImageSize(points: seq<Point>, triangles: seq<Triangle>, fmt: Format)
    requires Writable(points, triangles)
    ensures |BinaryImage(points, triangles, fmt)| == HeaderSize + CountSize + FacetSize * |triangles|
  {
    var facets := BinFacets(points, triangles, fmt);
    forall k | 0 <= k < |facets|
      ensures |Concat(facets[k])| == FacetSize
    {
      BinFacetSize(points, triangles[k], fmt);
    }
    FlattenUniform(facets, FacetSize);
  }

  /** saveToBINFile returns NoError, Writing or CanceledByUser. It returns
      NoError exactly when all 2 + 5n write calls succeed and no progress
      step is cancelled (the last one included), and then the file is the
      whole binary image; whatever it returns, the file holds a prefix of
      that image. */
  lemma SaveBinLaw(points: seq<Point>, triangles: seq<Triangle>, o: Out<byte>, accepts: nat -> bool, fmt: Format)
    requires Writable(points, triangles) && o.result == NoError
    ensures var r := SaveBin(points, triangles, o, accepts, fmt);
      && (r.result == NoError || r.result == Writing || r.result == CanceledByUser)
      && Prefix(o.written, r.written)
      && Prefix(r.written, o.written + BinaryImage(points, triangles, fmt))
      && (r.result == NoError <==>
            AllAccepted(o.calls, 2 + 5 * |triangles|, accepts) && NeverCancelled(0, |triangles|, fmt.cancelled))
      && (r.result == NoError ==>
            r.written == o.written + BinaryImage(points, triangles, fmt) && r.calls == o.calls + 2 + 5 * |triangles|)
  {
    var head := [HeaderBytes(), U32Bytes(|triangles|)];
    var facets := BinFacets(points, triangles, fmt);
    assert Concat(head) == HeaderBytes() + U32Bytes(|triangles|) by {
      assert Concat(head) == head[0] + (head[1] + Concat(head[2..]));
    }
    assert o.written + BinaryImage(points, triangles, fmt) == o.written + Concat(head) + Flatten(facets);
    assert facets[0..] == facets;
    ChunkCountUniform(facets, 5);
    AcceptedSplit(o.calls, 2, 5 * |triangles|, accepts);
    PutAllLaw(o, head, accepts);
    var o1 := PutAll(o, head, accepts);
    if o1.result == NoError {
      FacetLoopLaw(facets, 0, o1, accepts, fmt.cancelled);
      var r := FacetLoop(facets, 0, o1, accepts, fmt.cancelled);
      PrefixTrans(o.written, o1.written, r.written);
    }
  }

  // ---------------------------------------------------------------------
  // ASCII

  /** Lines, each followed by "\n". */
  function Terminated(lines: seq<string>): string
  {
    if lines == [] then [] else lines[0] + "\n" + Terminated(lines[1..])
  }

  /** The seven lines of an ASCII facet. */
  function AsciiFacetLines(points: seq<Point>, shift: Point, t: Triangle, fmt: Format): (r: seq<string>)
    requires InRange(t, |points|)
  {
    var a := points[t.i1];
    var b := points[t.i2];
    var c := points[t.i3];
    ["facet normal " + Numbers(FaceNormal(a, b, c), fmt), "outer loop",
     "vertex " + Numbers(Sub(a, shift), fmt), "vertex " + Numbers(Sub(b, shift), fmt),
     "vertex " + Numbers(Sub(c, shift), fmt), "endloop", "endfacet"]
  }

  function AsciiFacetsLines(points: seq<Point>, shift: Point, triangles: seq<Triangle>, fmt: Format): seq<string>
    requires forall k :: 0 <= k < |triangles| ==> InRange(triangles[k], |points|)
  {
    if triangles == [] then []
    else AsciiFacetLines(points, shift, triangles[0], fmt) + AsciiFacetsLines(points, shift, triangles[1..], fmt)
  }

  /** The lines of the ASCII file. */
  function AsciiLines(points: seq<Point>, shift: Point, triangles: seq<Triangle>, name: string, fmt: Format): seq<string>
    requires Writable(points, triangles)
  {
    ["solid " + name] + AsciiFacetsLines(points, shift, triangles, fmt) + ["endsolid " + name]
  }

  lemma TerminatedUnfold(ls: seq<string>, k: nat)
    requires k < |ls|
    ensures Terminated(ls[k..]) == ls[k] + "\n" + Terminated(ls[k + 1..])
  {
    assert ls[k..][1..] == ls[k + 1..];
  }

  lemma {:induction false} TerminatedAppend(a: seq<string>, b: seq<string>)
    ensures Terminated(a + b) == Terminated(a) + Terminated(b)
  {
    if a != [] {
      assert (a + b)[1..] == a[1..] + b;
      TerminatedAppend(a[1..], b);
    } else {
      assert a + b == b;
    }
  }

  /** Chunks that are the lines one by one, the last chunk holding the
      remaining lines, are the terminated lines. */
  lemma {:induction false} ChunksOfLines(cs: seq<string>, ls: seq<string>)
    requires 1 <= |cs| && |cs| + 1 == |ls|
    requires forall k :: 0 <= k < |cs| - 1 ==> cs[k] == ls[k] + "\n"
    requires cs[|cs| - 1] == Terminated(ls[|cs| - 1..])
    ensures Concat(cs) == Terminated(ls)
    decreases |cs|
  {
    if |cs| == 1 {
      assert ls[0..] == ls;
      assert cs[1..] == [];
    } else {
      assert ls[1..][|cs| - 2..] == ls[|cs| - 1..];
      ChunksOfLines(cs[1..], ls[1..]);
    }
  }

  lemma FacetTail()
    ensures Terminated(["endloop", "endfacet"]) == "endloop\nendfacet\n"
  {
    assert ["endloop", "endfacet"][1..] == ["endfacet"];
    assert ["endfacet"][1..] == [];
  }

  /** An ASCII facet is its seven lines. */
  lemma AsciiFacetText(points: seq<Point>, shift: Point, t: Triangle, fmt: Format)
    requires InRange(t, |points|)
    ensures Concat(AsciiFacetChunks(points, shift, t, fmt)) == Terminated(AsciiFacetLines(points, shift, t, fmt))
  {
    var cs := AsciiFacetChunks(points, shift, t, fmt);
    var ls := AsciiFacetLines(points, shift, t, fmt);
    assert ls[5..] == ["endloop", "endfacet"];
    FacetTail();
    ChunksOfLines(cs, ls);
  }

  lemma {:induction false} AsciiFacetsText(points: seq<Point>, shift: Point, triangles: seq<Triangle>, fmt: Format)
    requires Writable(points, triangles)
    ensures Flatten(AsciiFacets(points, shift, triangles, fmt)) == Terminated(AsciiFacetsLines(points, shift, triangles, fmt))
    ensures |AsciiFacetsLines(points, shift, triangles, fmt)| == 7 * |triangles|
  {
    var facets := AsciiFacets(points, shift, triangles, fmt);
    AsciiFacetText(points, shift, triangles[0], fmt);
    if |triangles| > 1 {
      AsciiFacetsText(points, shift, triangles[1..], fmt);
      assert facets[1..] == AsciiFacets(points, shift, triangles[1..], fmt);
      TerminatedAppend(AsciiFacetLines(points, shift, triangles[0], fmt), AsciiFacetsLines(points, shift, triangles[1..], fmt));
    } else {
      assert facets[1..] == [];
      assert triangles[1..] == [];
      assert AsciiFacetLines(points, shift, triangles[0], fmt) + [] == AsciiFacetLines(points, shift, triangles[0], fmt);
    }
  }

  /** The ASCII file of n facets is 2 + 7n lines: 'solid name', seven per
      facet, 'endsolid name'. */
  lemma AsciiTextLines(points: seq<Point>, shift: Point, triangles: seq<Triangle>, name: string, fmt: Format)
    requires Writable(points, triangles)
    ensures AsciiText(points, shift, triangles, name, fmt) == Terminated(AsciiLines(points, shift, triangles, name, fmt))
    ensures |AsciiLines(points, shift, triangles, name, fmt)| == 2 + 7 * |triangles|
  {
    var body := AsciiFacetsLines(points, shift, triangles, fmt);
    AsciiFacetsText(points, shift, triangles, fmt);
    TerminatedAppend(["solid " + name] + body, ["endsolid " + name]);
    TerminatedAppend(["solid " + name], body);
    assert Terminated(["endsolid " + name]) == EndSolidText(name);
    assert Terminated(["solid " + name]) == SolidText(name);
  }

  /** One opening write, the facet loop, one closing write, as
      saveToASCIIFile runs: NoError exactly when all those calls succeed and
      nothing is cancelled. */
  lemma {:induction false} HeadLoopTail<T>(head: seq<T>, facets: seq<seq<seq<T>>>, tail: seq<T>, o: Out<T>,
                                           accepts: nat -> bool, cancelled: nat -> bool)
    requires o.result == NoError
    ensures var o1 := Put(o, head, accepts);
      var r := if o1.result == Writing then o1
               else var o2 := FacetLoop(facets, 0, o1, accepts, cancelled);
                    if o2.result != NoError then o2 else Put(o2, tail, accepts);
      && (r.result == NoError || r.result == Writing || r.result == CanceledByUser)
      && Prefix(o.written, r.written) && Prefix(r.written, o.written + (head + Flatten(facets) + tail))
      && (r.result == NoError <==>
            AllAccepted(o.calls, ChunkCount(facets) + 2, accepts) && NeverCancelled(0, |facets|, cancelled))
      && (r.result == NoError ==>
            r.written == o.written + (head + Flatten(facets) + tail) && r.calls == o.calls + ChunkCount(facets) + 2)
  {
    assert facets[0..] == facets;
    AcceptedSplit(o.calls, 1, ChunkCount(facets) + 1, accepts);
    var o1 := Put(o, head, accepts);
    if o1.result == NoError {
      FacetLoopLaw(facets, 0, o1, accepts, cancelled);
      AcceptedSplit(o1.calls, ChunkCount(facets), 1, accepts);
      var o2 := FacetLoop(facets, 0, o1, accepts, cancelled);
      assert o.written + (head + Flatten(facets) + tail) == o1.written + Flatten(facets) + tail;
      PrefixTrans(o2.written, o1.written + Flatten(facets), o1.written + Flatten(facets) + tail);
      PrefixTrans(o.written, o1.written, o2.written);
    }
  }

  /** saveToASCIIFile returns NoError, Writing or CanceledByUser. It returns
      NoError exactly when all 2 + 6n write calls succeed and no progress
      step is cancelled, and then the file is the whole ASCII text; whatever
      it returns, the file holds a prefix of that text. */
  lemma SaveAsciiLaw(points: seq<Point>, shift: Point, triangles: seq<Triangle>, name: string,
                     o: Out<char>, accepts: nat -> bool, fmt: Format)
    requires Writable(points, triangles) && o.result == NoError
    ensures var r := SaveAscii(points, shift, triangles, name, o, accepts, fmt);
      && (r.result == NoError || r.result == Writing || r.result == CanceledByUser)
      && Prefix(o.written, r.written)
      && Prefix(r.written, o.written + AsciiText(points, shift, triangles, name, fmt))
      && (r.result == NoError <==>
            AllAccepted(o.calls, 2 + 6 * |triangles|, accepts) && NeverCancelled(0, |triangles|, fmt.cancelled))
      && (r.result == NoError ==>
            r.written == o.written + AsciiText(points, shift, triangles, name, fmt)
            && r.calls == o.calls + 2 + 6 * |triangles|)
  {
    var facets := AsciiFacets(points, shift, triangles, fmt);
    ChunkCountUniform(facets, 6);
    HeadLoopTail(SolidText(name), facets, EndSolidText(name), o, accepts, fmt.cancelled);
  }
}
