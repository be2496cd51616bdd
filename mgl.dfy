/**
 * src/mgl.h: a minimal GL front end. Vertices are pushed onto a global
 * vertex stack (scaled by the global matrix), triangles onto a triangle
 * stack whose entries hold three vertex indexes, and glFlush empties both.
 * mglt_vertex_inside is the edge function a triangle fill tests pixels with.
 */
module Mgl {
  import opened Maug

  /** MGL_VERTEX_STACK_SZ_MAX and MGL_TRI_STACK_SZ_MAX. */
  const VERTEX_STACK_SZ_MAX: nat := 128
  const TRI_STACK_SZ_MAX: nat := 128

  /** GL_TRIANGLES, the only polygon type glBegin accepts. */
  const GL_TRIANGLES: int := 1

  /** MGL_SCALE_MULT and MGL_SCALE_BIT_RIGHT. */
  const SCALE_MULT: int := 0
  const SCALE_BIT_RIGHT: int := 1

  /**
   * mglt_vertex_inside as written: a, b and c are int16_t locals. Their
   * wrapping moves the result away from the edge function only by a
   * multiple of 0x10000.
   */
  function VertexInsideAsWritten(x0: int, y0: int, x1: int, y1: int, tx: int, ty: int): (r: int)
    ensures (r - VertexInside(x0, y0, x1, y1, tx, ty)) % 0x1_0000 == 0
  {
    var a := Wrap16(y0 - y1);
    var b := Wrap16(x1 - x0);
    var c := Wrap16(x0 * y1 - x1 * y0);
    WrappedEdge(x0, y0, x1, y1, tx, ty);
    a * tx + b * ty + c
  }

  /** The int16_t coefficients move the edge function by a multiple of 0x10000. */
  lemma WrappedEdge(x0: int, y0: int, x1: int, y1: int, tx: int, ty: int)
    ensures (Wrap16(y0 - y1) * tx + Wrap16(x1 - x0) * ty + Wrap16(x0 * y1 - x1 * y0)
      - VertexInside(x0, y0, x1, y1, tx, ty)) % 0x1_0000 == 0
  {
    var p, q, k := y0 - y1, x1 - x0, x0 * y1 - x1 * y0;
    Wrap16IsMod(p);
    Wrap16IsMod(q);
    Wrap16IsMod(k);
    ShiftedCoefficients(p, Wrap16(p), q, Wrap16(q), k, Wrap16(k), tx, ty);
  }

  /** A multiple of 0x10000 times anything is a multiple of 0x10000. */
  lemma MultipleTimes(d: int, t: int)
    requires d % 0x1_0000 == 0
    ensures (d * t) % 0x1_0000 == 0
  {
    var k := d / 0x1_0000;
    assert d == k * 0x1_0000;
    assert d * t == (k * t) * 0x1_0000;
  }

  /** Moving a, b and c by multiples of 0x10000 moves a*tx + b*ty + c by one. */
  lemma ShiftedCoefficients(a: int, wa: int, b: int, wb: int, c: int, wc: int, tx: int, ty: int)
    requires (wa - a) % 0x1_0000 == 0 && (wb - b) % 0x1_0000 == 0 && (wc - c) % 0x1_0000 == 0
    ensures (wa * tx + wb * ty + wc - (a * tx + b * ty + c)) % 0x1_0000 == 0
  {
    var da, db, dc := wa - a, wb - b, wc - c;
    MultipleTimes(da, tx);
    MultipleTimes(db, ty);
    assert wa * tx == a * tx + da * tx;
    assert wb * ty == b * ty + db * ty;
    var ka, kb, kc := (da * tx) / 0x1_0000, (db * ty) / 0x1_0000, dc / 0x1_0000;
    assert da * tx + db * ty + dc == (ka + kb + kc) * 0x1_0000;
  }

  /**
   * The edge function with its coefficients at full width: the cross
   * product of the edge with the vector from its first end point to the
   * tested point.
   */
  function VertexInside(x0: int, y0: int, x1: int, y1: int, tx: int, ty: int): (r: int)
    ensures r == (x1 - x0) * (ty - y0) - (y1 - y0) * (tx - x0)
  {
    assert (x1 - x0) * (ty - y0) == (x1 - x0) * ty - (x1 - x0) * y0;
    assert (y1 - y0) * (tx - x0) == (y1 - y0) * tx - (y1 - y0) * x0;
    (y0 - y1) * tx + (x1 - x0) * ty + (x0 * y1 - x1 * y0)
  }

  /**
   * The edge function is zero at both end points of the edge and changes
   * sign when the edge is reversed.
   */
  lemma VertexInsideEdge(x0: int, y0: int, x1: int, y1: int, tx: int, ty: int)
    ensures VertexInside(x0, y0, x1, y1, x0, y0) == 0
    ensures VertexInside(x0, y0, x1, y1, x1, y1) == 0
    ensures VertexInside(x1, y1, x0, y0, tx, ty) == -VertexInside(x0, y0, x1, y1, tx, ty)
  {
    assert (y0 - y1) * x0 + (x1 - x0) * y0 == x1 * y0 - x0 * y1;
    assert (y0 - y1) * x1 + (x1 - x0) * y1 == x1 * y0 - x0 * y1;
    assert (y1 - y0) * tx == -((y0 - y1) * tx);
    assert (x0 - x1) * ty == -((x1 - x0) * ty);
  }

  /** While no int16_t local wraps, the code computes the edge function. */
  lemma VertexInsideAsWrittenAgrees(x0: int, y0: int, x1: int, y1: int, tx: int, ty: int)
    requires -0x8000 <= y0 - y1 < 0x8000 && -0x8000 <= x1 - x0 < 0x8000
    requires -0x8000 <= x0 * y1 - x1 * y0 < 0x8000
    ensures VertexInsideAsWritten(x0, y0, x1, y1, tx, ty) == VertexInside(x0, y0, x1, y1, tx, ty)
  {
  }

  /**
   * The edge from (200, 0) to (0, 200) on a 320x200 screen: c is 40000,
   * which int16_t stores as -25536, so the value at the edge's own first end
   * point is -65536 rather than 0.
   */
  lemma VertexInsideAsWrittenWraps()
    ensures VertexInsideAsWritten(200, 0, 0, 200, 200, 0) == -65536
  {
    assert Wrap16(40000) == -25536;
  }

  /** struct MGL_VERTEX. */
  datatype Vertex = Vertex(x: int, y: int, z: int)

  /** struct MGL_TRIANGLE: three vertex indexes, a colour and the count in use. */
  datatype Triangle = Triangle(v: seq<int>, color: int, sz: int)

  /** struct MGL_MATRIX. */
  datatype Matrix = Matrix(scaleType: int, scaleX: int, scaleY: int, scaleZ: int)

  /**
   * mgl_vertex_set: multiply or shift right by the matrix's scale for the
   * axis, stored into an int16_t; any other scale type leaves the field as
   * it was, since the switch has no default.
   */
  function VertexSet(scaleType: int, scale: int, vi: int, vo: int): (r: int)
    requires scaleType == SCALE_BIT_RIGHT ==> 0 <= scale
    ensures scaleType != SCALE_MULT && scaleType != SCALE_BIT_RIGHT ==> r == vo
    ensures scaleType == SCALE_MULT && scale == 1 && -0x8000 <= vi < 0x8000 ==> r == vi
    ensures scaleType == SCALE_BIT_RIGHT && scale == 0 && -0x8000 <= vi < 0x8000 ==> r == vi
  {
    if scaleType == SCALE_MULT then Wrap16(vi * scale)
    else if scaleType == SCALE_BIT_RIGHT then Wrap16(Shr(vi, scale))
    else vo
  }

  /** The global state of mgl.h (the g_mgl_* variables). */
  class Gl {
    var vertices: array<Vertex>
    var vertexSz: nat
    var tris: array<Triangle>
    var triSz: nat
    var color: int
    var matrix: Matrix

    ghost predicate Valid()
      reads this, tris
    {
      vertices.Length == VERTEX_STACK_SZ_MAX && tris.Length == TRI_STACK_SZ_MAX
      && vertexSz <= VERTEX_STACK_SZ_MAX && triSz <= TRI_STACK_SZ_MAX
      && (forall i :: 0 <= i < tris.Length ==> |tris[i].v| == 3)
    }

    /** Zero-initialised globals. */
    constructor ()
      ensures Valid() && fresh(vertices) && fresh(tris)
      ensures vertexSz == 0 && triSz == 0 && color == 0 && matrix == Matrix(0, 0, 0, 0)
    {
      vertices := new Vertex[VERTEX_STACK_SZ_MAX](_ => Vertex(0, 0, 0));
      tris := new Triangle[TRI_STACK_SZ_MAX](_ => Triangle([0, 0, 0], 0, 0));
      vertexSz := 0;
      triSz := 0;
      color := 0;
      matrix := Matrix(0, 0, 0, 0);
    }

    /** glScaler: shift right by the given amounts from now on. */
    method Scaler(x: int, y: int, z: int)
      modifies this
      ensures matrix == Matrix(SCALE_BIT_RIGHT, x, y, z)
      ensures vertices == old(vertices) && vertexSz == old(vertexSz) && tris == old(tris)
      ensures triSz == old(triSz) && color == old(color)
    {
      matrix := Matrix(SCALE_BIT_RIGHT, x, y, z);
    }

    /** glColorr. */
    method Colorr(c: int)
      modifies this
      ensures color == c
      ensures vertices == old(vertices) && vertexSz == old(vertexSz) && tris == old(tris)
      ensures triSz == old(triSz) && matrix == old(matrix)
    {
      color := c;
    }

    /**
     * glBegin: only GL_TRIANGLES is accepted (an assert in the source);
     * the next triangle slot gets sz 0 and the stack grows by one. The slot's
     * old vertex indexes and colour stay until overwritten.
     */
    method Begin(glPolyType: int)
      requires Valid() && glPolyType == GL_TRIANGLES && triSz < TRI_STACK_SZ_MAX
      modifies this, tris
      ensures Valid() && tris == old(tris) && vertices == old(vertices)
      ensures triSz == old(triSz) + 1
      ensures tris[..] == old(tris[..][triSz := tris[triSz].(sz := 0)])
      ensures vertexSz == old(vertexSz) && color == old(color) && matrix == old(matrix)
    {
      tris[triSz] := tris[triSz].(sz := 0);
      triSz := triSz + 1;
    }

    /**
     * glVertex3i: the scaled vertex goes to the top of the vertex stack and
     * its index into the next slot of the current (last) triangle.
     */
    method Vertex3i(x: int, y: int, z: int)
      requires Valid() && vertexSz < VERTEX_STACK_SZ_MAX && 0 < triSz
      requires 0 <= tris[triSz - 1].sz < 3
      requires matrix.scaleType == SCALE_BIT_RIGHT ==> 0 <= matrix.scaleX && 0 <= matrix.scaleY && 0 <= matrix.scaleZ
      requires vertices != tris as object
      modifies this, vertices, tris
      ensures Valid() && tris == old(tris) && vertices == old(vertices)
      ensures vertexSz == old(vertexSz) + 1 && triSz == old(triSz)
      ensures color == old(color) && matrix == old(matrix)
      ensures var v := old(vertices[vertexSz]);
        vertices[..] == old(vertices[..])[old(vertexSz) := Vertex(
          VertexSet(matrix.scaleType, matrix.scaleX, x, v.x),
          VertexSet(matrix.scaleType, matrix.scaleY, y, v.y),
          VertexSet(matrix.scaleType, matrix.scaleZ, z, v.z))]
      ensures var t := old(tris[triSz - 1]);
        tris[..] == old(tris[..])[triSz - 1 := t.(v := t.v[t.sz := old(vertexSz)], sz := t.sz + 1)]
    {
      var v := vertices[vertexSz];
      vertices[vertexSz] := Vertex(
        VertexSet(matrix.scaleType, matrix.scaleX, x, v.x),
        VertexSet(matrix.scaleType, matrix.scaleY, y, v.y),
        VertexSet(matrix.scaleType, matrix.scaleZ, z, v.z));
      var t := tris[triSz - 1];
      tris[triSz - 1] := t.(v := t.v[t.sz := vertexSz], sz := t.sz + 1);
      vertexSz := vertexSz + 1;
    }

    /** glEnd: the current triangle must hold 3 vertexes (an assert); it takes the current colour. */
    method End()
      requires Valid() && 0 < triSz && tris[triSz - 1].sz == 3
      modifies tris
      ensures Valid()
      ensures tris[..] == old(tris[..])[triSz - 1 := old(tris[triSz - 1]).(color := color)]
    {
      tris[triSz - 1] := tris[triSz - 1].(color := color);
    }

    /** glFlush, after drawing: both stacks are emptied and the matrix zeroed. */
    method Flush()
      requires Valid()
      modifies this
      ensures Valid() && vertices == old(vertices) && tris == old(tris)
      ensures vertexSz == 0 && triSz == 0 && matrix == Matrix(0, 0, 0, 0)
      ensures color == old(color)
    {
      vertexSz := 0;
      triSz := 0;
      matrix := Matrix(0, 0, 0, 0);
    }
  }

  /**
   * glBegin, three glVertex3i and glEnd on a fresh state with an identity
   * multiply matrix: a triangle of the three vertex indexes 0, 1, 2 in the
   * current colour, and the three vertices as given.
   */
  method OneTriangle(c: int, p: seq<Vertex>) returns (g: Gl)
    requires |p| == 3
    requires forall i :: 0 <= i < 3 ==> -0x8000 <= p[i].x < 0x8000 && -0x8000 <= p[i].y < 0x8000 && -0x8000 <= p[i].z < 0x8000
    ensures g.Valid() && g.triSz == 1 && g.vertexSz == 3
    ensures g.tris[0] == Triangle([0, 1, 2], c, 3)
    ensures g.vertices[..3] == p
  {
    g := new Gl();
    g.matrix := Matrix(SCALE_MULT, 1, 1, 1);
    g.Colorr(c);
    g.Begin(GL_TRIANGLES);
    g.Vertex3i(p[0].x, p[0].y, p[0].z);
    g.Vertex3i(p[1].x, p[1].y, p[1].z);
    g.Vertex3i(p[2].x, p[2].y, p[2].z);
    g.End();
  }
}
