/** The geometry helpers of the application (src/geobox_app.cpp and
    src/geobox_app.hpp): the default box, the file's own STL reader, the
    vertex-count guard on loading, the undo/redo stacks and the barycentric
    sampling of a triangle. */
module GeoBoxApp {
  import opened Wrappers
  import opened Geometry
  import opened Primitives
  import opened Stl
  import Mesh

  // The default box

  /** `Indexed_Mesh::Triangle`: three vertex indices. */
  datatype IndexTriple = IndexTriple(i0: nat, i1: nat, i2: nat)

  /** `Indexed_Mesh` without its GPU upload. */
  datatype IndexedTriangles = IndexedTriangles(vertices: seq<Vec3>, triangles: seq<IndexTriple>)

  /** Every coordinate of `v` is the minimum or the maximum of its axis. */
  predicate IsBoxCorner(min: Vec3, max: Vec3, v: Vec3) {
    (v.x == min.x || v.x == max.x) && (v.y == min.y || v.y == max.y) && (v.z == min.z || v.z == max.z)
  }

  /** `generate_box`: the eight corners of the box and two triangles on each
      of its six faces. */
  function GenerateBox(min: Vec3, max: Vec3): (m: IndexedTriangles)
    ensures |m.vertices| == 8 && |m.triangles| == 12
    ensures forall t :: 0 <= t < 12 ==>
              m.triangles[t].i0 < 8 && m.triangles[t].i1 < 8 && m.triangles[t].i2 < 8
    ensures m.vertices[0] == min && m.vertices[6] == max
  {
    IndexedTriangles(
      [min,
       Vec3(max.x, min.y, min.z),
       Vec3(max.x, max.y, min.z),
       Vec3(min.x, max.y, min.z),
       Vec3(min.x, min.y, max.z),
       Vec3(max.x, min.y, max.z),
       max,
       Vec3(min.x, max.y, max.z)],
      [IndexTriple(0, 1, 2), IndexTriple(0, 2, 3), IndexTriple(1, 5, 6), IndexTriple(1, 6, 2),
       IndexTriple(5, 4, 7), IndexTriple(5, 7, 6), IndexTriple(4, 0, 3), IndexTriple(4, 3, 7),
       IndexTriple(3, 2, 6), IndexTriple(3, 6, 7), IndexTriple(4, 5, 1), IndexTriple(4, 1, 0)])
  }

  /** Every vertex of the box is one of its corners. */
  lemma BoxVerticesAreCorners(min: Vec3, max: Vec3)
    ensures forall i :: 0 <= i < 8 ==> IsBoxCorner(min, max, GenerateBox(min, max).vertices[i])
  {
  }

  /** Triangle `t` of the box with its indices resolved. */
  function BoxTriangle(min: Vec3, max: Vec3, t: nat): Triangle
    requires t < 12
  {
    var m := GenerateBox(min, max);
    var ix := m.triangles[t];
    Triangle(m.vertices[ix.i0], m.vertices[ix.i1], m.vertices[ix.i2])
  }

  /** A box with some extent on every axis. */
  predicate IsSolid(min: Vec3, max: Vec3) {
    min.x < max.x && min.y < max.y && min.z < max.z
  }

  /** In a solid box the eight vertices are eight different corners, so every
      corner appears exactly once. */
  lemma BoxCornersDistinct(min: Vec3, max: Vec3)
    requires IsSolid(min, max)
    ensures var vs := GenerateBox(min, max).vertices;
            forall i, j :: 0 <= i < j < 8 ==> vs[i] != vs[j]
  {
  }

  /** The face triangle `t` lies on: the axis and whether it is the maximum
      side. */
  function FaceOf(t: nat): (f: (nat, bool))
    requires t < 12
    ensures f.0 < 3
  {
    [(2, false), (2, false), (0, true), (0, true), (2, true), (2, true),
     (0, false), (0, false), (1, true), (1, true), (1, false), (1, false)][t]
  }

  /** Triangle `t` lies flat on the face `FaceOf(t)`. */
  predicate OnItsFace(min: Vec3, max: Vec3, t: nat)
    requires t < 12
  {
    var tri, f := BoxTriangle(min, max, t), FaceOf(t);
    var side := if f.1 then max.Get(f.0) else min.Get(f.0);
    tri.a.Get(f.0) == side && tri.b.Get(f.0) == side && tri.c.Get(f.0) == side
  }

  /** Every triangle lies flat on its face of the box. */
  lemma BoxTrianglesOnFaces(min: Vec3, max: Vec3, t: nat)
    requires t < 12
    ensures OnItsFace(min, max, t)
  {
    LowFaces(min, max);
    LowFacesToo(min, max);
    HighFaces(min, max);
    HighFacesToo(min, max);
  }

  lemma LowFaces(min: Vec3, max: Vec3)
    ensures OnItsFace(min, max, 0) && OnItsFace(min, max, 1) && OnItsFace(min, max, 6)
  {
  }

  lemma LowFacesToo(min: Vec3, max: Vec3)
    ensures OnItsFace(min, max, 7) && OnItsFace(min, max, 10) && OnItsFace(min, max, 11)
  {
  }

  lemma HighFaces(min: Vec3, max: Vec3)
    ensures OnItsFace(min, max, 2) && OnItsFace(min, max, 3) && OnItsFace(min, max, 4)
  {
  }

  lemma HighFacesToo(min: Vec3, max: Vec3)
    ensures OnItsFace(min, max, 5) && OnItsFace(min, max, 8) && OnItsFace(min, max, 9)
  {
  }

  /** The triangles come in pairs, `2 k` and `2 k + 1`, one pair on each of the
      six faces. */
  lemma TwoTrianglesPerFace()
    ensures forall k :: 0 <= k < 6 ==> FaceOf(2 * k) == FaceOf(2 * k + 1)
    ensures forall k, l :: 0 <= k < l < 6 ==> FaceOf(2 * k) != FaceOf(2 * l)
  {
  }

  // The file's own STL reader

  /** The file's `Triangle` struct: a normal and three corners, 48 bytes. */
  datatype Facet = Facet(normal: Vec3, corners: Triangle)

  /** The facet read from the 48 bytes at `at`. */
  function FacetAt(file: seq<Byte>, at: nat, decode: seq<Byte> -> Vec3): Facet
    requires at + 48 <= |file|
  {
    Facet(VertexAt(file, at, decode),
          Triangle(VertexAt(file, at + 12, decode), VertexAt(file, at + 24, decode), VertexAt(file, at + 36, decode)))
  }

  /** This file's `read_stl_mesh_file_binary`: read a whole facet, skip the
      attribute, append the facet's corners. It reads the same corners as the
      reader of src/read_stl.cpp. */
  method AppReadBinary(file: seq<Byte>, n: nat, decode: seq<Byte> -> Vec3) returns (vs: seq<Vec3>)
    requires n < Uint32Limit && |file| == ExpectedBinarySize(n)
    ensures vs == Flatten(BinaryTriangles(file, n, decode))
  {
    ghost var tris := BinaryTriangles(file, n, decode);
    vs := [];
    var at := HeaderSize + CountSize;
    for i := 0 to n
      invariant at == RecordStart(i)
      invariant vs == Flatten(tris[..i])
    {
      var t := FacetAt(file, at, decode);
      at := at + 48 + AttributeSize;
      assert t.corners == tris[i];
      assert tris[..i + 1][..i] == tris[..i];
      vs := vs + t.corners.Vertices();
    }
    assert tris[..n] == tris;
  }

  /** The number at word `q`, or `prev` when the text ends before it: the
      failed extraction leaves the field as it was. */
  function NumberOr(toks: seq<string>, q: nat, number: string -> real, prev: real): real {
    if q < |toks| then number(toks[q]) else prev
  }

  function CornerOr(toks: seq<string>, q: nat, number: string -> real, prev: Vec3): Vec3 {
    Vec3(NumberOr(toks, q, number, prev.x), NumberOr(toks, q + 1, number, prev.y), NumberOr(toks, q + 2, number, prev.z))
  }

  /** `t` after reading the facet block at word `p` into it: the normal from
      words `p + 2` to `p + 4`, the corners from `p + 8`, `p + 12` and
      `p + 16`. */
  function ReadFacetWords(toks: seq<string>, p: nat, number: string -> real, t: Facet): Facet {
    Facet(CornerOr(toks, p + 2, number, t.normal),
          Triangle(CornerOr(toks, p + 8, number, t.corners.a), CornerOr(toks, p + 12, number, t.corners.b),
                   CornerOr(toks, p + 16, number, t.corners.c)))
  }

  /** The corners this file's ASCII walk appends from word `p` on, with `t`
      the facet read last: a `facet` word reads its block into `t`, and every
      pass, whatever its word, appends the corners of `t`. */
  function AppAsciiFrom(toks: seq<string>, p: nat, number: string -> real, t: Facet): (vs: seq<Vec3>)
    ensures |vs| % 3 == 0
    decreases |toks| - p
  {
    if p >= |toks| then []
    else if toks[p] == "facet" then
      var t' := ReadFacetWords(toks, p, number, t);
      t'.corners.Vertices() + AppAsciiFrom(toks, p + FacetWords, number, t')
    else t.corners.Vertices() + AppAsciiFrom(toks, p + 1, number, t)
  }

  /** This file's `read_stl_mesh_file_ascii`, starting from the uninitialised
      facet `t0`. */
  method AppReadAscii(toks: seq<string>, number: string -> real, t0: Facet) returns (vs: seq<Vec3>)
    ensures vs == AppAsciiFrom(toks, 0, number, t0)
  {
    vs := [];
    var t := t0;
    var p := 0;
    while p < |toks|
      invariant vs + AppAsciiFrom(toks, p, number, t) == AppAsciiFrom(toks, 0, number, t0)
      decreases |toks| - p
    {
      var token := toks[p];
      var start := p;
      p := p + 1;
      if token == "facet" {
        ghost var before := t;
        p := p + 1;
        t := t.(normal := CornerOr(toks, p, number, t.normal));
        p := p + 5;
        var corners := t.corners;
        for i := 0 to 3
          invariant p == start + 7 + 4 * i
          invariant forall j :: 0 <= j < i ==> corners.At(j) == CornerOr(toks, start + 8 + 4 * j, number, before.corners.At(j))
          invariant forall j :: i <= j < 3 ==> corners.At(j) == before.corners.At(j)
        {
          p := p + 1;
          corners := corners.Set(i, CornerOr(toks, p, number, corners.At(i)));
          p := p + 3;
        }
        t := t.(corners := corners);
        p := p + 2;
        assert corners.a == corners.At(0) && corners.b == corners.At(1) && corners.c == corners.At(2);
        assert t == ReadFacetWords(toks, start, number, before);
      }
      vs := vs + t.corners.Vertices();
    }
  }

  /** Text without a `facet` word: the reader above still appends three
      corners per word, where the reader of src/read_stl.cpp appends none. */
  lemma {:induction false} AppAsciiWithoutFacets(toks: seq<string>, p: nat, number: string -> real, t: Facet)
    requires p <= |toks| && forall q :: p <= q < |toks| ==> toks[q] != "facet"
    ensures |AppAsciiFrom(toks, p, number, t)| == 3 * (|toks| - p)
    ensures AsciiFrom(toks, p, number) == []
    decreases |toks| - p
  {
    if p < |toks| {
      AppAsciiWithoutFacets(toks, p + 1, number, t);
    }
  }

  /** The header and footer words of a file holding no facet: four passes,
      twelve corners, where there are none. */
  lemma AppAsciiEmptySolid(number: string -> real, t: Facet, name: string)
    requires name != "facet"
    ensures var toks := ["solid", name, "endsolid", name];
            AsciiFrom(toks, 0, number) == [] && |AppAsciiFrom(toks, 0, number, t)| == 12
  {
    var toks := ["solid", name, "endsolid", name];
    assert "solid" != "facet" && "endsolid" != "facet";
    AppAsciiWithoutFacets(toks, 0, number, t);
  }

  /** The text `solid NAME\r\nendsolid NAME` of a solid without facets, with
      nothing after the footer. */
  function EmptySolidText(name: string): string {
    "solid" + [' '] + (name + ['\r'] + (['\n'] + ("endsolid" + [' '] + name)))
  }

  lemma EmptySolidTokens(name: string)
    requires IsWord(name)
    ensures Tokens(EmptySolidText(name)) == ["solid", name, "endsolid", name]
  {
    var footer := ['\n'] + ("endsolid" + [' '] + name);
    FooterTokens(name);
    TokensAfterWord(name, '\r', footer);
    TokensAfterWord("solid", ' ', name + ['\r'] + footer);
  }

  lemma FooterTokens(name: string)
    requires IsWord(name)
    ensures Tokens(['\n'] + ("endsolid" + [' '] + name)) == ["endsolid", name]
  {
    var footer := "endsolid" + [' '] + name;
    TokensOfWord(name);
    TokensAfterWord("endsolid", ' ', name);
    assert (['\n'] + footer)[1..] == footer;
  }

  /** A file holding an empty solid whose name has 34 characters or more: it
      has an odd size of 85 bytes or more, so it is no binary size and is read
      as ASCII. This file's reader returns twelve corners for it, where the
      reader of src/read_stl.cpp returns none. */
  lemma AppEmptySolidFile(name: string, decode: seq<Byte> -> Vec3, number: string -> real, t0: Facet)
    requires IsWord(name) && |name| >= 34 && forall i :: 0 <= i < |name| ==> name[i] as int < 256
    ensures var file := Latin1(EmptySolidText(name));
            |file| >= 85 && Classify(file) == Ascii && StlVertices(file, decode, number) == Some([]) &&
            AppStlVertices(file, decode, number, t0).Some? && |AppStlVertices(file, decode, number, t0).value| == 12
  {
    var text := EmptySolidText(name);
    assert forall i :: 0 <= i < |text| ==> text[i] as int < 256;
    var file := Latin1(text);
    EmptySolidTokens(name);
    AppAsciiEmptySolid(number, t0, name);
  }

  /** What this file's `read_stl_mesh_file` returns: the same dispatch, with
      its own ASCII walk. */
  function AppStlVertices(file: seq<Byte>, decode: seq<Byte> -> Vec3, number: string -> real, t0: Facet)
    : (r: Option<seq<Vec3>>)
    ensures r.None? <==> |file| == 0
    ensures r.Some? ==> |r.value| % 3 == 0
  {
    match Classify(file)
    case Empty => None
    case Truncated => Some([])
    case Binary(n) => Some(Flatten(BinaryTriangles(file, n, decode)))
    case Ascii => Some(AppAsciiFrom(Tokens(Text(file)), 0, number, t0))
  }

  method AppReadStl(file: seq<Byte>, decode: seq<Byte> -> Vec3, number: string -> real, t0: Facet)
    returns (r: Option<seq<Vec3>>)
    ensures r == AppStlVertices(file, decode, number, t0)
  {
    match Classify(file)
    case Empty =>
      r := None;
    case Truncated =>
      r := Some([]);
    case Binary(n) =>
      var vs := AppReadBinary(file, n, decode);
      r := Some(vs);
    case Ascii =>
      var vs := AppReadAscii(Tokens(Text(file)), number, t0);
      r := Some(vs);
  }

  /** The two readers differ only on ASCII files. */
  lemma AppReaderAgreesOffAscii(file: seq<Byte>, decode: seq<Byte> -> Vec3, number: string -> real, t0: Facet)
    requires !Classify(file).Ascii?
    ensures AppStlVertices(file, decode, number, t0) == StlVertices(file, decode, number)
  {
  }

  // Loading a mesh

  /** The vertex count a loaded mesh is drawn with, or `None` when no mesh is
      added: the read failed, or there are more vertices than an `unsigned
      int` counts. */
  function DrawCount(r: Option<seq<Vec3>>): (c: Option<nat>)
    ensures c.Some? <==> r.Some? && |r.value| <= Mesh.UintMax
    ensures c.Some? ==> c.value == |r.value|
  {
    if r.Some? && |r.value| <= Mesh.UintMax then Some(|r.value|) else None
  }

  /** A binary file of `n` triangles is drawn with `3 n` vertices exactly when
      `3 n` fits an `unsigned int`: the count field admits files the guard
      then refuses. */
  lemma BinaryFileDrawn(file: seq<Byte>, decode: seq<Byte> -> Vec3, number: string -> real, t0: Facet)
    requires Classify(file).Binary?
    ensures var n := Classify(file).triangles;
            DrawCount(AppStlVertices(file, decode, number, t0)) == if 3 * n <= Mesh.UintMax then Some(3 * n) else None
  {
    AppReaderAgreesOffAscii(file, decode, number, t0);
    StlBinary(file, decode, number);
  }

  // Undo and redo

  /** The `std::function` actions of an entry, by name: running one is
      recorded, what it does is not part of this model. */
  type Action = nat

  /** `Undo_Redo_Entry`. */
  datatype Entry = Entry(undo: Action, redo: Action)

  /** Both stacks, tops last, and the actions run so far. */
  datatype History = History(undoStack: seq<Entry>, redoStack: seq<Entry>, performed: seq<Action>)

  /** `undo`: nothing on an empty undo stack; otherwise the top entry's undo
      action runs and the entry moves to the redo stack. */
  function UndoStep(h: History): (h': History)
    ensures |h'.undoStack| + |h'.redoStack| == |h.undoStack| + |h.redoStack|
    ensures h.undoStack == [] ==> h' == h
    ensures h.undoStack != [] ==>
              h'.undoStack + [h.undoStack[|h.undoStack| - 1]] == h.undoStack
              && h'.redoStack == h.redoStack + [h.undoStack[|h.undoStack| - 1]]
              && h'.performed == h.performed + [h.undoStack[|h.undoStack| - 1].undo]
  {
    if h.undoStack == [] then h
    else
      var entry := h.undoStack[|h.undoStack| - 1];
      History(h.undoStack[..|h.undoStack| - 1], h.redoStack + [entry], h.performed + [entry.undo])
  }

  /** `redo`, the mirror image. */
  function RedoStep(h: History): (h': History)
    ensures |h'.undoStack| + |h'.redoStack| == |h.undoStack| + |h.redoStack|
    ensures h.redoStack == [] ==> h' == h
    ensures h.redoStack != [] ==>
              h'.redoStack + [h.redoStack[|h.redoStack| - 1]] == h.redoStack
              && h'.undoStack == h.undoStack + [h.redoStack[|h.redoStack| - 1]]
              && h'.performed == h.performed + [h.redoStack[|h.redoStack| - 1].redo]
  {
    if h.redoStack == [] then h
    else
      var entry := h.redoStack[|h.redoStack| - 1];
      History(h.undoStack + [entry], h.redoStack[..|h.redoStack| - 1], h.performed + [entry.redo])
  }

  /** Undo then redo puts both stacks back, having run the entry's undo and
      then its redo action. */
  lemma RedoAfterUndo(h: History)
    requires h.undoStack != []
    ensures var entry := h.undoStack[|h.undoStack| - 1];
            var h' := RedoStep(UndoStep(h));
            h'.undoStack == h.undoStack && h'.redoStack == h.redoStack
            && h'.performed == h.performed + [entry.undo, entry.redo]
  {
    var entry := h.undoStack[|h.undoStack| - 1];
    assert h.undoStack[..|h.undoStack| - 1] + [entry] == h.undoStack;
    assert (h.redoStack + [entry])[..|h.redoStack|] == h.redoStack;
  }

  /** Redo then undo, the same the other way round. */
  lemma UndoAfterRedo(h: History)
    requires h.redoStack != []
    ensures var entry := h.redoStack[|h.redoStack| - 1];
            var h' := UndoStep(RedoStep(h));
            h'.undoStack == h.undoStack && h'.redoStack == h.redoStack
            && h'.performed == h.performed + [entry.redo, entry.undo]
  {
    var entry := h.redoStack[|h.redoStack| - 1];
    assert h.redoStack[..|h.redoStack| - 1] + [entry] == h.redoStack;
    assert (h.undoStack + [entry])[..|h.undoStack|] == h.undoStack;
  }

  /** The state of `GeoBox_App` this model keeps: the vertex counts of the
      loaded GPU meshes and the undo/redo history. */
  class App {
    var gpuMeshes: seq<nat>
    var undoStack: seq<Entry>
    var redoStack: seq<Entry>
    var performed: seq<Action>

    function Snapshot(): History
      reads this
    {
      History(undoStack, redoStack, performed)
    }

    constructor ()
      ensures gpuMeshes == [] && undoStack == [] && redoStack == [] && performed == []
    {
      gpuMeshes, undoStack, redoStack, performed := [], [], [], [];
    }

    method Undo()
      modifies this
      ensures Snapshot() == UndoStep(old(Snapshot())) && gpuMeshes == old(gpuMeshes)
    {
      if undoStack == [] {
        return;
      }
      var entry := undoStack[|undoStack| - 1];
      performed := performed + [entry.undo];
      redoStack := redoStack + [entry];
      undoStack := undoStack[..|undoStack| - 1];
    }

    method Redo()
      modifies this
      ensures Snapshot() == RedoStep(old(Snapshot())) && gpuMeshes == old(gpuMeshes)
    {
      if redoStack == [] {
        return;
      }
      var entry := redoStack[|redoStack| - 1];
      performed := performed + [entry.redo];
      undoStack := undoStack + [entry];
      redoStack := redoStack[..|redoStack| - 1];
    }

    /** `on_load_stl_dialog_ok`: read the file with this file's own reader,
        starting from the uninitialised facet `t0`, and add a GPU mesh drawing
        all its vertices unless the read failed or the count exceeds an
        `unsigned int`. */
    method OnLoadStl(file: seq<Byte>, decode: seq<Byte> -> Vec3, number: string -> real, t0: Facet)
      modifies this
      ensures var c := DrawCount(AppStlVertices(file, decode, number, t0));
              gpuMeshes == old(gpuMeshes) + (if c.Some? then [c.value] else [])
      ensures Snapshot() == old(Snapshot())
    {
      var vertices := AppReadStl(file, decode, number, t0);
      if vertices.None? {
        return;
      }
      if |vertices.value| <= Mesh.UintMax {
        gpuMeshes := gpuMeshes + [|vertices.value|];
      }
    }
  }

  // Sampling a triangle

  /** `root` is the square root on the non-negative reals. */
  ghost predicate IsSqrt(root: real -> real) {
    forall x :: 0.0 <= x ==> 0.0 <= root(x) && root(x) * root(x) == x
  }

  /** `random_triangle_barycentric_coords` for the draws `u0` and `u1`:
      `(1 - sqrt(u0), u1 * sqrt(u0))`. For draws in `[0, 1]` both weights and
      the third, one minus their sum, are non-negative. */
  function BarycentricCoords(u0: real, u1: real, root: real -> real): (w: (real, real))
    requires IsSqrt(root) && 0.0 <= u0
    ensures u0 <= 1.0 && 0.0 <= u1 <= 1.0 ==> 0.0 <= w.0 <= 1.0 && 0.0 <= w.1 && w.0 + w.1 <= 1.0
  {
    var s := root(u0);
    RootBounds(u0, s, u1);
    (1.0 - s, u1 * s)
  }

  lemma RootBounds(u0: real, s: real, u1: real)
    requires 0.0 <= s && s * s == u0
    ensures u0 <= 1.0 ==> s <= 1.0
    ensures u0 <= 1.0 && 0.0 <= u1 <= 1.0 ==> 0.0 <= u1 * s <= s
  {
    if s > 1.0 {
      ScaleMonotone(1.0, s, s);
    }
    if 0.0 <= u1 <= 1.0 {
      ScaleMonotone(0.0, u1, s);
      ScaleMonotone(u1, 1.0, s);
    }
  }

  /** Multiplying by a non-negative factor keeps an order. */
  lemma ScaleMonotone(a: real, b: real, c: real)
    requires a <= b && 0.0 <= c
    ensures a * c <= b * c
  {
    assert b * c - a * c == (b - a) * c;
  }

  /** The draws that give the weights `w`: `u0 = (1 - w0)^2` and
      `u1 = w1 / (1 - w0)`, with `u1 = 0` at the corner `w0 = 1`. */
  function InverseDraws(w: (real, real)): (real, real) {
    var d := 1.0 - w.0;
    (d * d, if d > 0.0 then w.1 / d else 0.0)
  }

  /** Every point of the triangle is sampled: any weights `(w0, w1)` with
      `w0, w1 >= 0` and `w0 + w1 <= 1` come from draws in `[0, 1]`. */
  lemma BarycentricCovers(w0: real, w1: real, root: real -> real)
    requires IsSqrt(root) && 0.0 <= w0 && 0.0 <= w1 && w0 + w1 <= 1.0
    ensures var u := InverseDraws((w0, w1));
            0.0 <= u.0 <= 1.0 && 0.0 <= u.1 <= 1.0 && BarycentricCoords(u.0, u.1, root) == (w0, w1)
  {
    var u := InverseDraws((w0, w1));
    var d := 1.0 - w0;
    assert u.0 == d * d;
    ScaleMonotone(0.0, d, d);
    ScaleMonotone(d, 1.0, d);
    SquareRootUnique(root(u.0), d);
    if d > 0.0 {
      assert u.1 == w1 / d;
      QuotientBounds(w1, d);
    } else {
      assert u.1 == 0.0 && d == 0.0 && w1 == 0.0;
      assert u.1 * d == 0.0 * 0.0;
    }
    CoordsOfRoot(u.0, u.1, root);
    assert root(u.0) == d && u.1 * d == w1;
    var c := BarycentricCoords(u.0, u.1, root);
    assert c.0 == w0;
    assert c.1 == w1;
  }

  /** Conversely the draws are recovered from the weights, away from
      `u0 = 0` where every `u1` gives the same corner. */
  lemma DrawsRecovered(u0: real, u1: real, root: real -> real)
    requires IsSqrt(root) && 0.0 < u0
    ensures InverseDraws(BarycentricCoords(u0, u1, root)) == (u0, u1)
  {
    var s := root(u0);
    assert s * s == u0;
    assert s != 0.0;
    CoordsOfRoot(u0, u1, root);
    var w := BarycentricCoords(u0, u1, root);
    assert w.0 == 1.0 - s && w.1 == u1 * s;
    assert 1.0 - w.0 == s;
    assert (u1 * s) / s == u1;
    var r := InverseDraws(w);
    assert r.0 == s * s;
    assert r.1 == w.1 / s;
  }

  lemma CoordsOfRoot(u0: real, u1: real, root: real -> real)
    requires IsSqrt(root) && 0.0 <= u0
    ensures BarycentricCoords(u0, u1, root) == (1.0 - root(u0), u1 * root(u0))
  {
  }

  /** `0 <= w / d <= 1` and `(w / d) * d == w` for `0 <= w <= d`. */
  lemma QuotientBounds(w: real, d: real)
    requires 0.0 <= w <= d && 0.0 < d
    ensures 0.0 <= w / d <= 1.0 && (w / d) * d == w
  {
    var q := w / d;
    if q > 1.0 {
      ScaleMonotone(1.0, q, d);
    }
  }

  /** The non-negative square root is unique. */
  lemma SquareRootUnique(s: real, d: real)
    requires 0.0 <= s && 0.0 <= d && s * s == d * d
    ensures s == d
  {
    if s < d {
      SquareStrict(s, d);
    } else if d < s {
      SquareStrict(d, s);
    }
  }

  /** Squaring is strictly increasing on the non-negative reals. */
  lemma SquareStrict(a: real, b: real)
    requires 0.0 <= a < b
    ensures a * a < b * b
  {
    ScaleStrict(0.0, b - a, b + a);
    assert b * b - a * a == (b - a) * (b + a);
  }

  /** Multiplying by a positive factor keeps a strict order. */
  lemma ScaleStrict(a: real, b: real, c: real)
    requires a < b && 0.0 < c
    ensures a * c < b * c
  {
    assert b * c - a * c == (b - a) * c;
  }
}
