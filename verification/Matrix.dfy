/** Matrix4 over the reals: products, inverses and the closed forms of the 2D transformations. */
module Matrix {

  // Column by column: e0 to e3 are the first column.
  datatype Mat = Mat(e0: real, e1: real, e2: real, e3: real, e4: real, e5: real, e6: real, e7: real,
                     e8: real, e9: real, e10: real, e11: real, e12: real, e13: real, e14: real, e15: real)

  datatype Vec4 = Vec4(x: real, y: real, z: real, w: real)

  const IDENTITY: Mat := Mat(1.0, 0.0, 0.0, 0.0, 0.0, 1.0, 0.0, 0.0, 0.0, 0.0, 1.0, 0.0, 0.0, 0.0, 0.0, 1.0)

  function Row0(m: Mat): Vec4 { Vec4(m.e0, m.e4, m.e8, m.e12) }
  function Row1(m: Mat): Vec4 { Vec4(m.e1, m.e5, m.e9, m.e13) }
  function Row2(m: Mat): Vec4 { Vec4(m.e2, m.e6, m.e10, m.e14) }
  function Row3(m: Mat): Vec4 { Vec4(m.e3, m.e7, m.e11, m.e15) }
  function Column0(m: Mat): Vec4 { Vec4(m.e0, m.e1, m.e2, m.e3) }
  function Column1(m: Mat): Vec4 { Vec4(m.e4, m.e5, m.e6, m.e7) }
  function Column2(m: Mat): Vec4 { Vec4(m.e8, m.e9, m.e10, m.e11) }
  function Column3(m: Mat): Vec4 { Vec4(m.e12, m.e13, m.e14, m.e15) }

  function Dot(a: Vec4, b: Vec4): real {
    a.x * b.x + a.y * b.y + a.z * b.z + a.w * b.w
  }

  /** The image of a column vector. */
  function Apply(m: Mat, v: Vec4): Vec4 {
    Vec4(Dot(Row0(m), v), Dot(Row1(m), v), Dot(Row2(m), v), Dot(Row3(m), v))
  }

  /** The matrix whose columns are given. */
  function Columns(a: Vec4, b: Vec4, c: Vec4, d: Vec4): Mat {
    Mat(a.x, a.y, a.z, a.w, b.x, b.y, b.z, b.w, c.x, c.y, c.z, c.w, d.x, d.y, d.z, d.w)
  }

  /** Multiplying applies the left matrix to every column of the right one. */
  function Times(a: Mat, b: Mat): Mat {
    Columns(Apply(a, Column0(b)), Apply(a, Column1(b)), Apply(a, Column2(b)), Apply(a, Column3(b)))
  }

  lemma TimesCells(a: Mat, b: Mat)
    ensures Times(a, b)
         == Mat(
             Dot(Row0(a), Column0(b)), Dot(Row1(a), Column0(b)), Dot(Row2(a), Column0(b)), Dot(Row3(a), Column0(b)),
             Dot(Row0(a), Column1(b)), Dot(Row1(a), Column1(b)), Dot(Row2(a), Column1(b)), Dot(Row3(a), Column1(b)),
             Dot(Row0(a), Column2(b)), Dot(Row1(a), Column2(b)), Dot(Row2(a), Column2(b)), Dot(Row3(a), Column2(b)),
             Dot(Row0(a), Column3(b)), Dot(Row1(a), Column3(b)), Dot(Row2(a), Column3(b)), Dot(Row3(a), Column3(b)))
  {
    hide Dot;
  }

  /** A product is the composition of the two maps. */
  lemma Composition(a: Mat, b: Mat, v: Vec4)
    ensures Apply(Times(a, b), v) == Apply(a, Apply(b, v))
  {
    DotApply(Row0(a), b, v);
    DotApply(Row1(a), b, v);
    DotApply(Row2(a), b, v);
    DotApply(Row3(a), b, v);
  }

  lemma DotApply(r: Vec4, b: Mat, v: Vec4)
    ensures Dot(Vec4(Dot(r, Column0(b)), Dot(r, Column1(b)), Dot(r, Column2(b)), Dot(r, Column3(b))), v)
         == Dot(r, Apply(b, v))
  {
    AcrossColumns(r, b, v);
    AcrossRows(r, b, v);
  }

  /** A row, a matrix and a column multiplied out. */
  function Sandwich(r: Vec4, b: Mat, v: Vec4): real {
    r.x * b.e0 * v.x + r.y * b.e1 * v.x + r.z * b.e2 * v.x + r.w * b.e3 * v.x
    + r.x * b.e4 * v.y + r.y * b.e5 * v.y + r.z * b.e6 * v.y + r.w * b.e7 * v.y
    + r.x * b.e8 * v.z + r.y * b.e9 * v.z + r.z * b.e10 * v.z + r.w * b.e11 * v.z
    + r.x * b.e12 * v.w + r.y * b.e13 * v.w + r.z * b.e14 * v.w + r.w * b.e15 * v.w
  }

  lemma AcrossColumns(r: Vec4, b: Mat, v: Vec4)
    ensures Dot(Vec4(Dot(r, Column0(b)), Dot(r, Column1(b)), Dot(r, Column2(b)), Dot(r, Column3(b))), v)
         == Sandwich(r, b, v)
  {
    hide Dot;
    DotIs(Vec4(Dot(r, Column0(b)), Dot(r, Column1(b)), Dot(r, Column2(b)), Dot(r, Column3(b))), v);
    Distribute(v.x, r, Column0(b));
    Distribute(v.y, r, Column1(b));
    Distribute(v.z, r, Column2(b));
    Distribute(v.w, r, Column3(b));
  }

  lemma AcrossRows(r: Vec4, b: Mat, v: Vec4)
    ensures Dot(r, Apply(b, v)) == Sandwich(r, b, v)
  {
    hide Dot;
    DotIs(r, Apply(b, v));
    Distribute(r.x, Row0(b), v);
    Distribute(r.y, Row1(b), v);
    Distribute(r.z, Row2(b), v);
    Distribute(r.w, Row3(b), v);
  }

  lemma DotIs(a: Vec4, b: Vec4)
    ensures Dot(a, b) == a.x * b.x + a.y * b.y + a.z * b.z + a.w * b.w
  {
  }

  lemma Distribute(k: real, a: Vec4, b: Vec4)
    ensures k * Dot(a, b) == k * a.x * b.x + k * a.y * b.y + k * a.z * b.z + k * a.w * b.w
  {
  }

  lemma Associative(a: Mat, b: Mat, c: Mat)
    ensures Times(Times(a, b), c) == Times(a, Times(b, c))
  {
    Composition(a, b, Column0(c));
    Composition(a, b, Column1(c));
    Composition(a, b, Column2(c));
    Composition(a, b, Column3(c));
  }

  // ---------------------------------------------------------------- determinants

  function Minor(a: real, b: real, c: real, d: real, e: real, f: real, g: real, h: real, i: real): real {
    a * e * i - a * f * h - b * d * i + b * f * g + c * d * h - c * e * g
  }

  /** What the entries of a further vector are weighed with in the determinant. */
  function Weights(p: Vec4, q: Vec4, s: Vec4): Vec4 {
    Vec4(Minor(p.y, p.z, p.w, q.y, q.z, q.w, s.y, s.z, s.w),
         -Minor(p.x, p.z, p.w, q.x, q.z, q.w, s.x, s.z, s.w),
         Minor(p.x, p.y, p.w, q.x, q.y, q.w, s.x, s.y, s.w),
         -Minor(p.x, p.y, p.z, q.x, q.y, q.z, s.x, s.y, s.z))
  }

  /** The determinant of four vectors. */
  function Volume(a: Vec4, p: Vec4, q: Vec4, s: Vec4): real {
    Dot(a, Weights(p, q, s))
  }

  lemma MinorTimes(x: real, a: real, b: real, c: real, d: real, e: real, f: real, g: real, h: real, i: real)
    ensures x * Minor(a, b, c, d, e, f, g, h, i)
         == x * a * e * i - x * a * f * h - x * b * d * i + x * b * f * g + x * c * d * h - x * c * e * g
  {
  }

  /** The determinant written out. */
  function Signed(m: Mat): real {
    m.e0 * m.e5 * m.e10 * m.e15 + m.e0 * m.e6 * m.e11 * m.e13 + m.e0 * m.e7 * m.e9 * m.e14
    - m.e0 * m.e5 * m.e11 * m.e14 - m.e0 * m.e6 * m.e9 * m.e15 - m.e0 * m.e7 * m.e10 * m.e13
    + m.e1 * m.e4 * m.e11 * m.e14 + m.e1 * m.e6 * m.e8 * m.e15 + m.e1 * m.e7 * m.e10 * m.e12
    - m.e1 * m.e4 * m.e10 * m.e15 - m.e1 * m.e6 * m.e11 * m.e12 - m.e1 * m.e7 * m.e8 * m.e14
    + m.e2 * m.e4 * m.e9 * m.e15 + m.e2 * m.e5 * m.e11 * m.e12 + m.e2 * m.e7 * m.e8 * m.e13
    - m.e2 * m.e4 * m.e11 * m.e13 - m.e2 * m.e5 * m.e8 * m.e15 - m.e2 * m.e7 * m.e9 * m.e12
    + m.e3 * m.e4 * m.e10 * m.e13 + m.e3 * m.e5 * m.e8 * m.e14 + m.e3 * m.e6 * m.e9 * m.e12
    - m.e3 * m.e4 * m.e9 * m.e14 - m.e3 * m.e5 * m.e10 * m.e12 - m.e3 * m.e6 * m.e8 * m.e13
  }

  lemma SignedByColumns(m: Mat)
    ensures Volume(Column0(m), Column1(m), Column2(m), Column3(m)) == Signed(m)
  {
    hide Minor;
    MinorTimes(m.e0, m.e5, m.e6, m.e7, m.e9, m.e10, m.e11, m.e13, m.e14, m.e15);
    MinorTimes(m.e1, m.e4, m.e6, m.e7, m.e8, m.e10, m.e11, m.e12, m.e14, m.e15);
    MinorTimes(m.e2, m.e4, m.e5, m.e7, m.e8, m.e9, m.e11, m.e12, m.e13, m.e15);
    MinorTimes(m.e3, m.e4, m.e5, m.e6, m.e8, m.e9, m.e10, m.e12, m.e13, m.e14);
  }

  lemma SignedByRows(m: Mat)
    ensures Volume(Row0(m), Row1(m), Row2(m), Row3(m)) == Signed(m)
  {
    hide Minor;
    MinorTimes(m.e0, m.e5, m.e9, m.e13, m.e6, m.e10, m.e14, m.e7, m.e11, m.e15);
    MinorTimes(m.e4, m.e1, m.e9, m.e13, m.e2, m.e10, m.e14, m.e3, m.e11, m.e15);
    MinorTimes(m.e8, m.e1, m.e5, m.e13, m.e2, m.e6, m.e14, m.e3, m.e7, m.e15);
    MinorTimes(m.e12, m.e1, m.e5, m.e9, m.e2, m.e6, m.e10, m.e3, m.e7, m.e11);
  }

  lemma Repeated(p: Vec4, q: Vec4, s: Vec4)
    ensures Volume(p, p, q, s) == 0.0
    ensures Volume(q, p, q, s) == 0.0
    ensures Volume(s, p, q, s) == 0.0
  {
    hide Volume;
    SignedByColumns(Columns(p, p, q, s));
    SignedByColumns(Columns(q, p, q, s));
    SignedByColumns(Columns(s, p, q, s));
  }

  lemma Swapped(a: Vec4, p: Vec4, q: Vec4, s: Vec4)
    ensures Volume(p, a, q, s) == -Volume(a, p, q, s)
  {
    hide Volume;
    SignedByColumns(Columns(a, p, q, s));
    SignedByColumns(Columns(p, a, q, s));
  }

  lemma WeightsSwapped(p: Vec4, q: Vec4, s: Vec4)
    ensures Weights(q, p, s) == Negated(Weights(p, q, s)) == Weights(p, s, q)
  {
  }

  /** Moving the third or fourth vector to the front. */
  lemma Rotated(a: Vec4, p: Vec4, q: Vec4, s: Vec4)
    ensures Volume(q, a, p, s) == Volume(a, p, q, s)
    ensures Volume(s, a, p, q) == -Volume(a, p, q, s)
  {
    Swapped(a, q, p, s);
    Swapped(a, s, p, q);
    hide Weights;
    WeightsSwapped(p, q, s);
    WeightsSwapped(p, s, q);
    WeightsSwapped(s, p, q);
    DotNegated(a, Weights(p, q, s));
    DotNegated(a, Weights(p, s, q));
  }

  function Negated(v: Vec4): Vec4 {
    Vec4(-v.x, -v.y, -v.z, -v.w)
  }

  lemma DotNegated(a: Vec4, v: Vec4)
    ensures Dot(a, Negated(v)) == -Dot(a, v) == Dot(Negated(v), a)
    ensures Dot(a, v) == Dot(v, a)
  {
  }

  // ---------------------------------------------------------------- the inverse

  function Cofactors0(m: Mat): Vec4 {
    Vec4(
      m.e5 * m.e10 * m.e15 - m.e5 * m.e11 * m.e14 - m.e9 * m.e6 * m.e15
        + m.e9 * m.e7 * m.e14 + m.e13 * m.e6 * m.e11 - m.e13 * m.e7 * m.e10,
      -m.e4 * m.e10 * m.e15 + m.e4 * m.e11 * m.e14 + m.e8 * m.e6 * m.e15
        - m.e8 * m.e7 * m.e14 - m.e12 * m.e6 * m.e11 + m.e12 * m.e7 * m.e10,
      m.e4 * m.e9 * m.e15 - m.e4 * m.e11 * m.e13 - m.e8 * m.e5 * m.e15
        + m.e8 * m.e7 * m.e13 + m.e12 * m.e5 * m.e11 - m.e12 * m.e7 * m.e9,
      -m.e4 * m.e9 * m.e14 + m.e4 * m.e10 * m.e13 + m.e8 * m.e5 * m.e14
        - m.e8 * m.e6 * m.e13 - m.e12 * m.e5 * m.e10 + m.e12 * m.e6 * m.e9)
  }

  function Cofactors1(m: Mat): Vec4 {
    Vec4(
      -m.e1 * m.e10 * m.e15 + m.e1 * m.e11 * m.e14 + m.e9 * m.e2 * m.e15
        - m.e9 * m.e3 * m.e14 - m.e13 * m.e2 * m.e11 + m.e13 * m.e3 * m.e10,
      m.e0 * m.e10 * m.e15 - m.e0 * m.e11 * m.e14 - m.e8 * m.e2 * m.e15
        + m.e8 * m.e3 * m.e14 + m.e12 * m.e2 * m.e11 - m.e12 * m.e3 * m.e10,
      -m.e0 * m.e9 * m.e15 + m.e0 * m.e11 * m.e13 + m.e8 * m.e1 * m.e15
        - m.e8 * m.e3 * m.e13 - m.e12 * m.e1 * m.e11 + m.e12 * m.e3 * m.e9,
      m.e0 * m.e9 * m.e14 - m.e0 * m.e10 * m.e13 - m.e8 * m.e1 * m.e14
        + m.e8 * m.e2 * m.e13 + m.e12 * m.e1 * m.e10 - m.e12 * m.e2 * m.e9)
  }

  function Cofactors2(m: Mat): Vec4 {
    Vec4(
      m.e1 * m.e6 * m.e15 - m.e1 * m.e7 * m.e14 - m.e5 * m.e2 * m.e15
        + m.e5 * m.e3 * m.e14 + m.e13 * m.e2 * m.e7 - m.e13 * m.e3 * m.e6,
      -m.e0 * m.e6 * m.e15 + m.e0 * m.e7 * m.e14 + m.e4 * m.e2 * m.e15
        - m.e4 * m.e3 * m.e14 - m.e12 * m.e2 * m.e7 + m.e12 * m.e3 * m.e6,
      m.e0 * m.e5 * m.e15 - m.e0 * m.e7 * m.e13 - m.e4 * m.e1 * m.e15
        + m.e4 * m.e3 * m.e13 + m.e12 * m.e1 * m.e7 - m.e12 * m.e3 * m.e5,
      -m.e0 * m.e5 * m.e14 + m.e0 * m.e6 * m.e13 + m.e4 * m.e1 * m.e14
        - m.e4 * m.e2 * m.e13 - m.e12 * m.e1 * m.e6 + m.e12 * m.e2 * m.e5)
  }

  function Cofactors3(m: Mat): Vec4 {
    Vec4(
      -m.e1 * m.e6 * m.e11 + m.e1 * m.e7 * m.e10 + m.e5 * m.e2 * m.e11
        - m.e5 * m.e3 * m.e10 - m.e9 * m.e2 * m.e7 + m.e9 * m.e3 * m.e6,
      m.e0 * m.e6 * m.e11 - m.e0 * m.e7 * m.e10 - m.e4 * m.e2 * m.e11
        + m.e4 * m.e3 * m.e10 + m.e8 * m.e2 * m.e7 - m.e8 * m.e3 * m.e6,
      -m.e0 * m.e5 * m.e11 + m.e0 * m.e7 * m.e9 + m.e4 * m.e1 * m.e11
        - m.e4 * m.e3 * m.e9 - m.e8 * m.e1 * m.e7 + m.e8 * m.e3 * m.e5,
      m.e0 * m.e5 * m.e10 - m.e0 * m.e6 * m.e9 - m.e4 * m.e1 * m.e10
        + m.e4 * m.e2 * m.e9 + m.e8 * m.e1 * m.e6 - m.e8 * m.e2 * m.e5)
  }

  /** The sixteen sums of Matrix4::inverse before they are divided by the determinant. */
  function Adjugate(m: Mat): Mat {
    var a, b, c, d := Cofactors0(m), Cofactors1(m), Cofactors2(m), Cofactors3(m);
    Mat(a.x, b.x, c.x, d.x, a.y, b.y, c.y, d.y, a.z, b.z, c.z, d.z, a.w, b.w, c.w, d.w)
  }

  /** The determinant as Matrix4::inverse computes it, from the first row of those sums. */
  function Determinant(m: Mat): real {
    Dot(Column0(m), Row0(Adjugate(m)))
  }

  lemma RowWeights0(m: Mat)
    ensures Cofactors0(m) == Weights(Column1(m), Column2(m), Column3(m))
  {
  }

  lemma RowWeights1(m: Mat)
    ensures Cofactors1(m) == Negated(Weights(Column0(m), Column2(m), Column3(m)))
  {
  }

  lemma RowWeights2(m: Mat)
    ensures Cofactors2(m) == Weights(Column0(m), Column1(m), Column3(m))
  {
  }

  lemma RowWeights3(m: Mat)
    ensures Cofactors3(m) == Negated(Weights(Column0(m), Column1(m), Column2(m)))
  {
  }

  lemma ColumnWeights0(m: Mat)
    ensures Column0(Adjugate(m)) == Weights(Row1(m), Row2(m), Row3(m))
  {
  }

  lemma ColumnWeights1(m: Mat)
    ensures Column1(Adjugate(m)) == Negated(Weights(Row0(m), Row2(m), Row3(m)))
  {
  }

  lemma ColumnWeights2(m: Mat)
    ensures Column2(Adjugate(m)) == Weights(Row0(m), Row1(m), Row3(m))
  {
  }

  lemma ColumnWeights3(m: Mat)
    ensures Column3(Adjugate(m)) == Negated(Weights(Row0(m), Row1(m), Row2(m)))
  {
  }

  lemma ByColumns(m: Mat)
    ensures Determinant(m) == Volume(Column0(m), Column1(m), Column2(m), Column3(m))
  {
    hide Cofactors0, Cofactors1, Cofactors2, Cofactors3, Weights;
    RowWeights0(m);
  }

  /** A vector against the weights of three others, with the sign of the place it is left out of. */
  lemma Expand(a: Vec4, p: Vec4, q: Vec4, s: Vec4)
    ensures Dot(a, Weights(p, q, s)) == Volume(a, p, q, s) == Dot(Weights(p, q, s), a)
    ensures Dot(a, Negated(Weights(p, q, s))) == -Volume(a, p, q, s) == Dot(Negated(Weights(p, q, s)), a)
  {
    hide Weights;
    DotNegated(a, Weights(p, q, s));
  }

  lemma Left0(m: Mat)
    ensures Dot(Cofactors0(m), Column0(m)) == Determinant(m)
    ensures Dot(Cofactors0(m), Column1(m)) == 0.0
    ensures Dot(Cofactors0(m), Column2(m)) == 0.0
    ensures Dot(Cofactors0(m), Column3(m)) == 0.0
  {
    hide Cofactors0, Cofactors1, Cofactors2, Cofactors3, Weights, Volume;
    RowWeights0(m);
    ByColumns(m);
    Expand(Column0(m), Column1(m), Column2(m), Column3(m));
    Expand(Column1(m), Column1(m), Column2(m), Column3(m));
    Expand(Column2(m), Column1(m), Column2(m), Column3(m));
    Expand(Column3(m), Column1(m), Column2(m), Column3(m));
    Repeated(Column1(m), Column2(m), Column3(m));
  }

  lemma Left1(m: Mat)
    ensures Dot(Cofactors1(m), Column0(m)) == 0.0
    ensures Dot(Cofactors1(m), Column1(m)) == Determinant(m)
    ensures Dot(Cofactors1(m), Column2(m)) == 0.0
    ensures Dot(Cofactors1(m), Column3(m)) == 0.0
  {
    hide Cofactors0, Cofactors1, Cofactors2, Cofactors3, Weights, Volume;
    RowWeights1(m);
    ByColumns(m);
    Expand(Column0(m), Column0(m), Column2(m), Column3(m));
    Expand(Column1(m), Column0(m), Column2(m), Column3(m));
    Expand(Column2(m), Column0(m), Column2(m), Column3(m));
    Expand(Column3(m), Column0(m), Column2(m), Column3(m));
    Repeated(Column0(m), Column2(m), Column3(m));
    Swapped(Column0(m), Column1(m), Column2(m), Column3(m));
  }

  lemma Left2(m: Mat)
    ensures Dot(Cofactors2(m), Column0(m)) == 0.0
    ensures Dot(Cofactors2(m), Column1(m)) == 0.0
    ensures Dot(Cofactors2(m), Column2(m)) == Determinant(m)
    ensures Dot(Cofactors2(m), Column3(m)) == 0.0
  {
    hide Cofactors0, Cofactors1, Cofactors2, Cofactors3, Weights, Volume;
    RowWeights2(m);
    ByColumns(m);
    Expand(Column0(m), Column0(m), Column1(m), Column3(m));
    Expand(Column1(m), Column0(m), Column1(m), Column3(m));
    Expand(Column2(m), Column0(m), Column1(m), Column3(m));
    Expand(Column3(m), Column0(m), Column1(m), Column3(m));
    Repeated(Column0(m), Column1(m), Column3(m));
    Rotated(Column0(m), Column1(m), Column2(m), Column3(m));
  }

  lemma Left3(m: Mat)
    ensures Dot(Cofactors3(m), Column0(m)) == 0.0
    ensures Dot(Cofactors3(m), Column1(m)) == 0.0
    ensures Dot(Cofactors3(m), Column2(m)) == 0.0
    ensures Dot(Cofactors3(m), Column3(m)) == Determinant(m)
  {
    hide Cofactors0, Cofactors1, Cofactors2, Cofactors3, Weights, Volume;
    RowWeights3(m);
    ByColumns(m);
    Expand(Column0(m), Column0(m), Column1(m), Column2(m));
    Expand(Column1(m), Column0(m), Column1(m), Column2(m));
    Expand(Column2(m), Column0(m), Column1(m), Column2(m));
    Expand(Column3(m), Column0(m), Column1(m), Column2(m));
    Repeated(Column0(m), Column1(m), Column2(m));
    Rotated(Column0(m), Column1(m), Column2(m), Column3(m));
  }

  lemma Right0(m: Mat)
    ensures Dot(Row0(m), Column0(Adjugate(m))) == Determinant(m)
    ensures Dot(Row1(m), Column0(Adjugate(m))) == 0.0
    ensures Dot(Row2(m), Column0(Adjugate(m))) == 0.0
    ensures Dot(Row3(m), Column0(Adjugate(m))) == 0.0
  {
    hide Cofactors0, Cofactors1, Cofactors2, Cofactors3, Weights, Volume;
    ColumnWeights0(m);
    ByColumns(m);
    SignedByColumns(m);
    SignedByRows(m);
    Expand(Row0(m), Row1(m), Row2(m), Row3(m));
    Expand(Row1(m), Row1(m), Row2(m), Row3(m));
    Expand(Row2(m), Row1(m), Row2(m), Row3(m));
    Expand(Row3(m), Row1(m), Row2(m), Row3(m));
    Repeated(Row1(m), Row2(m), Row3(m));
  }

  lemma Right1(m: Mat)
    ensures Dot(Row0(m), Column1(Adjugate(m))) == 0.0
    ensures Dot(Row1(m), Column1(Adjugate(m))) == Determinant(m)
    ensures Dot(Row2(m), Column1(Adjugate(m))) == 0.0
    ensures Dot(Row3(m), Column1(Adjugate(m))) == 0.0
  {
    hide Cofactors0, Cofactors1, Cofactors2, Cofactors3, Weights, Volume;
    ColumnWeights1(m);
    ByColumns(m);
    SignedByColumns(m);
    SignedByRows(m);
    Expand(Row0(m), Row0(m), Row2(m), Row3(m));
    Expand(Row1(m), Row0(m), Row2(m), Row3(m));
    Expand(Row2(m), Row0(m), Row2(m), Row3(m));
    Expand(Row3(m), Row0(m), Row2(m), Row3(m));
    Repeated(Row0(m), Row2(m), Row3(m));
    Swapped(Row0(m), Row1(m), Row2(m), Row3(m));
  }

  lemma Right2(m: Mat)
    ensures Dot(Row0(m), Column2(Adjugate(m))) == 0.0
    ensures Dot(Row1(m), Column2(Adjugate(m))) == 0.0
    ensures Dot(Row2(m), Column2(Adjugate(m))) == Determinant(m)
    ensures Dot(Row3(m), Column2(Adjugate(m))) == 0.0
  {
    hide Cofactors0, Cofactors1, Cofactors2, Cofactors3, Weights, Volume;
    ColumnWeights2(m);
    ByColumns(m);
    SignedByColumns(m);
    SignedByRows(m);
    Expand(Row0(m), Row0(m), Row1(m), Row3(m));
    Expand(Row1(m), Row0(m), Row1(m), Row3(m));
    Expand(Row2(m), Row0(m), Row1(m), Row3(m));
    Expand(Row3(m), Row0(m), Row1(m), Row3(m));
    Repeated(Row0(m), Row1(m), Row3(m));
    Rotated(Row0(m), Row1(m), Row2(m), Row3(m));
  }

  lemma Right3(m: Mat)
    ensures Dot(Row0(m), Column3(Adjugate(m))) == 0.0
    ensures Dot(Row1(m), Column3(Adjugate(m))) == 0.0
    ensures Dot(Row2(m), Column3(Adjugate(m))) == 0.0
    ensures Dot(Row3(m), Column3(Adjugate(m))) == Determinant(m)
  {
    hide Cofactors0, Cofactors1, Cofactors2, Cofactors3, Weights, Volume;
    ColumnWeights3(m);
    ByColumns(m);
    SignedByColumns(m);
    SignedByRows(m);
    Expand(Row0(m), Row0(m), Row1(m), Row2(m));
    Expand(Row1(m), Row0(m), Row1(m), Row2(m));
    Expand(Row2(m), Row0(m), Row1(m), Row2(m));
    Expand(Row3(m), Row0(m), Row1(m), Row2(m));
    Repeated(Row0(m), Row1(m), Row2(m));
    Rotated(Row0(m), Row1(m), Row2(m), Row3(m));
  }

  function Multiplied(x: real, k: real): real {
    x * k
  }

  function Scaled(v: Vec4, k: real): Vec4 {
    Vec4(Multiplied(v.x, k), Multiplied(v.y, k), Multiplied(v.z, k), Multiplied(v.w, k))
  }

  lemma DotScaled(a: Vec4, v: Vec4, k: real)
    ensures Dot(a, Scaled(v, k)) == Dot(a, v) * k == Dot(Scaled(a, k), v)
  {
  }

  function ScaledBy(m: Mat, k: real): Mat {
    Columns(Scaled(Column0(m), k), Scaled(Column1(m), k), Scaled(Column2(m), k), Scaled(Column3(m), k))
  }

  /** Matrix4::inverse. */
  function Inverse(m: Mat): Mat
    requires Determinant(m) != 0.0
  {
    ScaledBy(Adjugate(m), 1.0 / Determinant(m))
  }

  /** A matrix with a nonzero determinant times its inverse, on either side, is the identity. */
  lemma InverseBothSides(m: Mat)
    requires Determinant(m) != 0.0
    ensures Times(m, Inverse(m)) == IDENTITY
    ensures Times(Inverse(m), m) == IDENTITY
  {
    InverseRight(m);
    InverseLeft(m);
  }

  lemma InverseRight(m: Mat)
    requires Determinant(m) != 0.0
    ensures Times(m, Inverse(m)) == IDENTITY
  {
    hide Dot, Adjugate, Determinant;
    var k, a := 1.0 / Determinant(m), Adjugate(m);
    Right0(m);
    Right1(m);
    Right2(m);
    Right3(m);
    ApplyScaled(m, Column0(a), k);
    ApplyScaled(m, Column1(a), k);
    ApplyScaled(m, Column2(a), k);
    ApplyScaled(m, Column3(a), k);
    assert Determinant(m) * k == 1.0;
  }

  lemma ApplyScaled(m: Mat, v: Vec4, k: real)
    ensures Apply(m, Scaled(v, k)) == Scaled(Apply(m, v), k)
  {
    DotScaled(Row0(m), v, k);
    DotScaled(Row1(m), v, k);
    DotScaled(Row2(m), v, k);
    DotScaled(Row3(m), v, k);
    hide Dot, Row0, Row1, Row2, Row3;
    var l, r := Apply(m, Scaled(v, k)), Scaled(Apply(m, v), k);
    assert l.x == r.x && l.y == r.y && l.z == r.z && l.w == r.w;
  }

  lemma InverseLeft(m: Mat)
    requires Determinant(m) != 0.0
    ensures Times(Inverse(m), m) == IDENTITY
  {
    hide Dot, Adjugate, Determinant;
    var k, a := 1.0 / Determinant(m), Adjugate(m);
    Left0(m);
    Left1(m);
    Left2(m);
    Left3(m);
    AdjugateRows(m);
    ScaledApply(a, Column0(m), k);
    ScaledApply(a, Column1(m), k);
    ScaledApply(a, Column2(m), k);
    ScaledApply(a, Column3(m), k);
    assert Determinant(m) * k == 1.0;
  }

  lemma AdjugateRows(m: Mat)
    ensures Row0(Adjugate(m)) == Cofactors0(m) && Row1(Adjugate(m)) == Cofactors1(m)
    ensures Row2(Adjugate(m)) == Cofactors2(m) && Row3(Adjugate(m)) == Cofactors3(m)
  {
  }

  lemma ScaledApply(m: Mat, v: Vec4, k: real)
    ensures Apply(ScaledBy(m, k), v) == Scaled(Apply(m, v), k)
  {
    RowsScaled(m, k);
    DotScaled(Row0(m), v, k);
    DotScaled(Row1(m), v, k);
    DotScaled(Row2(m), v, k);
    DotScaled(Row3(m), v, k);
    hide Dot, Row0, Row1, Row2, Row3, ScaledBy;
    var l, r := Apply(ScaledBy(m, k), v), Scaled(Apply(m, v), k);
    assert l.x == r.x && l.y == r.y && l.z == r.z && l.w == r.w;
  }

  lemma RowsScaled(m: Mat, k: real)
    ensures Row0(ScaledBy(m, k)) == Scaled(Row0(m), k) && Row1(ScaledBy(m, k)) == Scaled(Row1(m), k)
    ensures Row2(ScaledBy(m, k)) == Scaled(Row2(m), k) && Row3(ScaledBy(m, k)) == Scaled(Row3(m), k)
  {
    hide Multiplied;
  }

  // ---------------------------------------------------------------- transformations of the plane

  function Translation(x: real, y: real): Mat {
    IDENTITY.(e12 := x, e13 := y)
  }

  function Rotation(c: real, s: real): Mat {
    IDENTITY.(e0 := c, e4 := -s, e1 := s, e5 := c)
  }

  function Scaling(sx: real, sy: real): Mat {
    IDENTITY.(e0 := sx, e5 := sy)
  }

  function Shearing(kx: real, ky: real): Mat {
    IDENTITY.(e1 := ky, e4 := kx)
  }

  /** Everything setTransformation takes; `c` and `s` are the cosine and sine of the angle. */
  datatype Placing = Placing(x: real, y: real, c: real, s: real, sx: real, sy: real, ox: real, oy: real,
                             kx: real, ky: real)

  /** Moving, rotating, scaling, shearing and shifting the origin one after the other. */
  function Chain(p: Placing): Mat {
    Times(Times(Times(Times(Times(IDENTITY, Translation(p.x, p.y)), Rotation(p.c, p.s)), Scaling(p.sx, p.sy)),
                Shearing(p.kx, p.ky)), Translation(-p.ox, -p.oy))
  }

  /** The closed form of setTransformation. */
  function Closed(p: Placing): Mat {
    var a := p.c * p.sx - p.ky * p.s * p.sy;
    var b := p.s * p.sx + p.ky * p.c * p.sy;
    var c := p.kx * p.c * p.sx - p.s * p.sy;
    var d := p.kx * p.s * p.sx + p.c * p.sy;
    Mat(a, b, 0.0, 0.0, c, d, 0.0, 0.0, 0.0, 0.0, 1.0, 0.0,
        p.x - p.ox * a - p.oy * c, p.y - p.ox * b - p.oy * d, 0.0, 1.0)
  }

  /** A transformation of the plane: the columns of its matrix are (a, b), (c, d) and the translation. */
  function Planar(a: real, b: real, c: real, d: real, x: real, y: real): Mat {
    Mat(a, b, 0.0, 0.0, c, d, 0.0, 0.0, 0.0, 0.0, 1.0, 0.0, x, y, 0.0, 1.0)
  }

  lemma PlanarVector(a: real, b: real, c: real, d: real, x: real, y: real, p: real, q: real)
    ensures Apply(Planar(a, b, c, d, x, y), Vec4(p, q, 0.0, 0.0)) == Vec4(a * p + c * q, b * p + d * q, 0.0, 0.0)
  {
  }

  lemma PlanarPoint(a: real, b: real, c: real, d: real, x: real, y: real, p: real, q: real)
    ensures Apply(Planar(a, b, c, d, x, y), Vec4(p, q, 0.0, 1.0))
         == Vec4(a * p + c * q + x, b * p + d * q + y, 0.0, 1.0)
  {
  }

  lemma PlanarTimes(a: real, b: real, c: real, d: real, x: real, y: real,
                    e: real, f: real, g: real, h: real, u: real, v: real)
    ensures Times(Planar(a, b, c, d, x, y), Planar(e, f, g, h, u, v))
         == Planar(a * e + c * f, b * e + d * f, a * g + c * h, b * g + d * h, a * u + c * v + x, b * u + d * v + y)
  {
    hide Apply;
    PlanarVector(a, b, c, d, x, y, e, f);
    PlanarVector(a, b, c, d, x, y, g, h);
    PlanarPoint(a, b, c, d, x, y, u, v);
    PlanarDepth(a, b, c, d, x, y);
  }

  lemma PlanarDepth(a: real, b: real, c: real, d: real, x: real, y: real)
    ensures Apply(Planar(a, b, c, d, x, y), Vec4(0.0, 0.0, 1.0, 0.0)) == Vec4(0.0, 0.0, 1.0, 0.0)
  {
  }

  /** setTransformation's closed form is the product it abbreviates. */
  lemma ClosedIsChain(p: Placing)
    ensures Closed(p) == Chain(p)
  {
    hide Times, Closed;
    UpToScale(p);
    UpToShear(p);
    var m := Closed(p);
    PlanarTimes(m.e0, m.e1, m.e4, m.e5, p.x, p.y, 1.0, 0.0, 0.0, 1.0, -p.ox, -p.oy);
    ShiftOrigin(p);
  }

  function MovedAndScaled(p: Placing): Mat {
    Planar(p.c * p.sx, p.s * p.sx, -p.s * p.sy, p.c * p.sy, p.x, p.y)
  }

  lemma UpToScale(p: Placing)
    ensures Times(Times(Times(IDENTITY, Translation(p.x, p.y)), Rotation(p.c, p.s)), Scaling(p.sx, p.sy))
         == MovedAndScaled(p)
  {
    hide Times;
    PlanarTimes(1.0, 0.0, 0.0, 1.0, 0.0, 0.0, 1.0, 0.0, 0.0, 1.0, p.x, p.y);
    var m1 := Planar(1.0, 0.0, 0.0, 1.0, p.x, p.y);
    assert Times(IDENTITY, Translation(p.x, p.y)) == m1;
    PlanarTimes(1.0, 0.0, 0.0, 1.0, p.x, p.y, p.c, p.s, -p.s, p.c, 0.0, 0.0);
    var m2 := Planar(p.c, p.s, -p.s, p.c, p.x, p.y);
    assert Times(m1, Rotation(p.c, p.s)) == m2;
    PlanarTimes(p.c, p.s, -p.s, p.c, p.x, p.y, p.sx, 0.0, 0.0, p.sy, 0.0, 0.0);
  }

  lemma UpToShear(p: Placing)
    ensures Times(MovedAndScaled(p), Shearing(p.kx, p.ky))
         == Planar(Closed(p).e0, Closed(p).e1, Closed(p).e4, Closed(p).e5, p.x, p.y)
  {
    hide Times;
    var q, m := MovedAndScaled(p), Closed(p);
    ShearStep(q.e0, q.e1, q.e4, q.e5, p.x, p.y, p.kx, p.ky);
    ShearEntries(p);
    PlanarSame(q.e0 + q.e4 * p.ky, q.e1 + q.e5 * p.ky, q.e0 * p.kx + q.e4, q.e1 * p.kx + q.e5, p.x, p.y,
               m.e0, m.e1, m.e4, m.e5);
  }

  lemma PlanarSame(a: real, b: real, c: real, d: real, x: real, y: real, e: real, f: real, g: real, h: real)
    requires a == e && b == f && c == g && d == h
    ensures Planar(a, b, c, d, x, y) == Planar(e, f, g, h, x, y)
  {
  }

  lemma ShearStep(a: real, b: real, c: real, d: real, x: real, y: real, kx: real, ky: real)
    ensures Times(Planar(a, b, c, d, x, y), Shearing(kx, ky))
         == Planar(a + c * ky, b + d * ky, a * kx + c, b * kx + d, x, y)
  {
    hide Times;
    PlanarTimes(a, b, c, d, x, y, 1.0, ky, kx, 1.0, 0.0, 0.0);
    assert Shearing(kx, ky) == Planar(1.0, ky, kx, 1.0, 0.0, 0.0);
  }

  lemma ShearEntries(p: Placing)
    ensures var q, m := MovedAndScaled(p), Closed(p);
            && q == Planar(q.e0, q.e1, q.e4, q.e5, p.x, p.y)
            && q.e0 + q.e4 * p.ky == m.e0 && q.e1 + q.e5 * p.ky == m.e1
            && q.e0 * p.kx + q.e4 == m.e4 && q.e1 * p.kx + q.e5 == m.e5
  {
  }

  lemma ShiftOrigin(p: Placing)
    ensures var m := Closed(p);
            && m == Planar(m.e0, m.e1, m.e4, m.e5, m.e12, m.e13)
            && m.e12 == m.e0 * -p.ox + m.e4 * -p.oy + p.x
            && m.e13 == m.e1 * -p.ox + m.e5 * -p.oy + p.y
  {
    var m := Closed(p);
    assert m.e0 * -p.ox == -(p.ox * m.e0) && m.e4 * -p.oy == -(p.oy * m.e4);
    assert m.e1 * -p.ox == -(p.ox * m.e1) && m.e5 * -p.oy == -(p.oy * m.e5);
  }

  /** The comment beside the closed form shows the skew matrix transposed: with kx and ky told apart the two differ. */
  lemma CommentIsTransposed()
    ensures var p := Placing(0.0, 0.0, 1.0, 0.0, 1.0, 1.0, 0.0, 0.0, 1.0, 0.0);
            Closed(p) == Shearing(1.0, 0.0) != Shearing(0.0, 1.0)
  {
  }

  // ---------------------------------------------------------------- the class

  class Matrix4 {
    const e: array<real>

    ghost predicate Valid() {
      e.Length == 16
    }

    ghost function Value(): Mat
      requires Valid()
      reads e
    {
      Mat(e[0], e[1], e[2], e[3], e[4], e[5], e[6], e[7], e[8], e[9], e[10], e[11], e[12], e[13], e[14], e[15])
    }

    constructor ()
      ensures Valid() && fresh(e) && Value() == IDENTITY
    {
      e := new real[16];
      new;
      SetIdentity();
    }

    constructor FromElements(elements: seq<real>)
      requires |elements| == 16
      ensures Valid() && fresh(e) && e[..] == elements
    {
      e := new real[16];
      new;
      for i := 0 to 16
        invariant e[..i] == elements[..i]
      {
        e[i] := elements[i];
      }
    }

    static method Multiply(a: Matrix4, b: Matrix4, t: array<real>)
      requires a.Valid() && b.Valid() && t.Length == 16 && t != a.e && t != b.e
      modifies t
      ensures t[..] == Entries(Times(a.Value(), b.Value()))
    {
      hide Dot, Times;
      TimesCells(a.Value(), b.Value());
      MultiplyRow(0, a.e, b.e, t);
      MultiplyRow(1, a.e, b.e, t);
      MultiplyRow(2, a.e, b.e, t);
      MultiplyRow(3, a.e, b.e, t);
    }

    /** The four sums for row `i` of the product. */
    static method MultiplyRow(i: nat, l: array<real>, r: array<real>, t: array<real>)
      requires i < 4 && l.Length == r.Length == t.Length == 16 && t != l && t != r
      modifies t
      ensures var row := Vec4(l[i], l[4 + i], l[8 + i], l[12 + i]);
              && t[i] == Dot(row, Vec4(r[0], r[1], r[2], r[3])) && t[4 + i] == Dot(row, Vec4(r[4], r[5], r[6], r[7]))
              && t[8 + i] == Dot(row, Vec4(r[8], r[9], r[10], r[11]))
              && t[12 + i] == Dot(row, Vec4(r[12], r[13], r[14], r[15]))
      ensures forall k :: 0 <= k < 16 && k != i && k != 4 + i && k != 8 + i && k != 12 + i ==> t[k] == old(t[k])
    {
      t[i] := l[i] * r[0] + l[4 + i] * r[1] + l[8 + i] * r[2] + l[12 + i] * r[3];
      t[4 + i] := l[i] * r[4] + l[4 + i] * r[5] + l[8 + i] * r[6] + l[12 + i] * r[7];
      t[8 + i] := l[i] * r[8] + l[4 + i] * r[9] + l[8 + i] * r[10] + l[12 + i] * r[11];
      t[12 + i] := l[i] * r[12] + l[4 + i] * r[13] + l[8 + i] * r[14] + l[12 + i] * r[15];
    }

    /** operator *=, also for a matrix multiplied by itself. */
    method TimesAssign(m: Matrix4)
      requires Valid() && m.Valid()
      modifies e
      ensures Value() == Times(old(Value()), old(m.Value()))
    {
      hide Times;
      var t := new real[16];
      Multiply(this, m, t);
      for i := 0 to 16
        invariant e[..i] == t[..i] && t[..] == Entries(Times(old(Value()), old(m.Value())))
      {
        e[i] := t[i];
      }
      assert e[..16] == t[..];
    }

    method SetIdentity()
      requires Valid()
      modifies e
      ensures Value() == IDENTITY
    {
      for i := 0 to 16
        invariant forall k :: 0 <= k < i ==> e[k] == 0.0
      {
        e[i] := 0.0;
      }
      e[15], e[10], e[5], e[0] := 1.0, 1.0, 1.0, 1.0;
    }

    method SetTranslation(x: real, y: real)
      requires Valid()
      modifies e
      ensures Value() == Translation(x, y)
    {
      SetIdentity();
      e[12], e[13] := x, y;
    }

    method SetRotation(c: real, s: real)
      requires Valid()
      modifies e
      ensures Value() == Rotation(c, s)
    {
      SetIdentity();
      e[0], e[4], e[1], e[5] := c, -s, s, c;
    }

    method SetScale(sx: real, sy: real)
      requires Valid()
      modifies e
      ensures Value() == Scaling(sx, sy)
    {
      SetIdentity();
      e[0], e[5] := sx, sy;
    }

    method SetShear(kx: real, ky: real)
      requires Valid()
      modifies e
      ensures Value() == Shearing(kx, ky)
    {
      SetIdentity();
      e[1], e[4] := ky, kx;
    }

    method SetTransformation(p: Placing)
      requires Valid()
      modifies e
      ensures Value() == Chain(p)
    {
      ClosedIsChain(p);
      hide Chain;
      for i := 0 to 16
        invariant forall k :: 0 <= k < i ==> e[k] == 0.0
      {
        e[i] := 0.0;
      }
      e[10], e[15] := 1.0, 1.0;
      e[0] := p.c * p.sx - p.ky * p.s * p.sy;
      e[1] := p.s * p.sx + p.ky * p.c * p.sy;
      e[4] := p.kx * p.c * p.sx - p.s * p.sy;
      e[5] := p.kx * p.s * p.sx + p.c * p.sy;
      e[12] := p.x - p.ox * e[0] - p.oy * e[4];
      e[13] := p.y - p.ox * e[1] - p.oy * e[5];
    }

    method Translate(x: real, y: real)
      requires Valid()
      modifies e
      ensures Value() == Times(old(Value()), Translation(x, y))
    {
      var t := new Matrix4();
      t.SetTranslation(x, y);
      TimesAssign(t);
    }

    method Rotate(c: real, s: real)
      requires Valid()
      modifies e
      ensures Value() == Times(old(Value()), Rotation(c, s))
    {
      var t := new Matrix4();
      t.SetRotation(c, s);
      TimesAssign(t);
    }

    method Scale(sx: real, sy: real)
      requires Valid()
      modifies e
      ensures Value() == Times(old(Value()), Scaling(sx, sy))
    {
      var t := new Matrix4();
      t.SetScale(sx, sy);
      TimesAssign(t);
    }

    method Shear(kx: real, ky: real)
      requires Valid()
      modifies e
      ensures Value() == Times(old(Value()), Shearing(kx, ky))
    {
      var t := new Matrix4();
      t.SetShear(kx, ky);
      TimesAssign(t);
    }

    /** The six calls setTransformation stands for leave the same matrix. */
    method TransformStepwise(p: Placing)
      requires Valid()
      modifies e
      ensures Value() == Chain(p)
    {
      hide Times, Translation, Rotation, Scaling, Shearing;
      SetIdentity();
      Translate(p.x, p.y);
      Rotate(p.c, p.s);
      Scale(p.sx, p.sy);
      Shear(p.kx, p.ky);
      Translate(-p.ox, -p.oy);
    }

    method Inverse() returns (inv: Matrix4)
      requires Valid() && Determinant(Value()) != 0.0
      ensures inv.Valid() && fresh(inv) && fresh(inv.e)
      ensures Times(Value(), inv.Value()) == IDENTITY == Times(inv.Value(), Value())
    {
      var m := Mat(e[0], e[1], e[2], e[3], e[4], e[5], e[6], e[7], e[8], e[9], e[10], e[11], e[12], e[13], e[14],
                   e[15]);
      InverseBothSides(m);
      hide Adjugate, ScaledBy, Times, Dot;
      inv := new Matrix4.FromElements(Entries(Adjugate(m)));
      inv.ValueOfEntries(Adjugate(m));
      var det := Dot(Vec4(e[0], e[1], e[2], e[3]), Vec4(inv.e[0], inv.e[4], inv.e[8], inv.e[12]));
      inv.MultiplyAll(1.0 / det);
    }

    method MultiplyAll(k: real)
      requires Valid()
      modifies e
      ensures Value() == ScaledBy(old(Value()), k)
    {
      hide Multiplied, ScaledBy;
      ScaledByCells(Value(), k);
      ghost var was := e[..];
      for i := 0 to 16
        invariant forall j :: 0 <= j < i ==> e[j] == Multiplied(was[j], k)
        invariant forall j :: i <= j < 16 ==> e[j] == was[j]
      {
        e[i] := Multiplied(e[i], k);
      }
    }

    lemma ValueOfEntries(m: Mat)
      requires Valid() && e[..] == Entries(m)
      ensures Value() == m
    {
      var s := e[..];
      assert s[0] == m.e0 && s[1] == m.e1 && s[2] == m.e2 && s[3] == m.e3 && s[4] == m.e4 && s[5] == m.e5;
      assert s[6] == m.e6 && s[7] == m.e7 && s[8] == m.e8 && s[9] == m.e9 && s[10] == m.e10 && s[11] == m.e11;
      assert s[12] == m.e12 && s[13] == m.e13 && s[14] == m.e14 && s[15] == m.e15;
    }
  }

  function Entries(m: Mat): (s: seq<real>)
    ensures |s| == 16
  {
    [m.e0, m.e1, m.e2, m.e3, m.e4, m.e5, m.e6, m.e7, m.e8, m.e9, m.e10, m.e11, m.e12, m.e13, m.e14, m.e15]
  }

  lemma ScaledByCells(m: Mat, k: real)
    ensures ScaledBy(m, k)
         == Mat(Multiplied(m.e0, k), Multiplied(m.e1, k), Multiplied(m.e2, k), Multiplied(m.e3, k),
                Multiplied(m.e4, k), Multiplied(m.e5, k), Multiplied(m.e6, k), Multiplied(m.e7, k),
                Multiplied(m.e8, k), Multiplied(m.e9, k), Multiplied(m.e10, k), Multiplied(m.e11, k),
                Multiplied(m.e12, k), Multiplied(m.e13, k), Multiplied(m.e14, k), Multiplied(m.e15, k))
  {
    hide Multiplied;
  }
}
