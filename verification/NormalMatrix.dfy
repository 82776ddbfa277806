/** Matrix3 over the reals: the matrix that maps normals. */
module NormalMatrix {

  // Column by column, like Mat.
  datatype Mat3 = Mat3(e0: real, e1: real, e2: real, e3: real, e4: real, e5: real, e6: real, e7: real, e8: real)

  datatype Vec3 = Vec3(x: real, y: real, z: real)

  function Dot(a: Vec3, b: Vec3): real {
    a.x * b.x + a.y * b.y + a.z * b.z
  }

  function First(m: Mat3): Vec3 { Vec3(m.e0, m.e1, m.e2) }
  function Second(m: Mat3): Vec3 { Vec3(m.e3, m.e4, m.e5) }
  function Third(m: Mat3): Vec3 { Vec3(m.e6, m.e7, m.e8) }

  function Apply(m: Mat3, v: Vec3): Vec3 {
    Vec3(m.e0 * v.x + m.e3 * v.y + m.e6 * v.z,
         m.e1 * v.x + m.e4 * v.y + m.e7 * v.z,
         m.e2 * v.x + m.e5 * v.y + m.e8 * v.z)
  }

  function Determinant(m: Mat3): real {
    m.e0 * (m.e4 * m.e8 - m.e7 * m.e5) - m.e1 * (m.e3 * m.e8 - m.e5 * m.e6) + m.e2 * (m.e3 * m.e7 - m.e4 * m.e6)
  }

  /** Matrix3::transposedInverse. */
  function TransposedInverse(m: Mat3): Mat3
    requires Determinant(m) != 0.0
  {
    var k := 1.0 / Determinant(m);
    Mat3(k * (m.e4 * m.e8 - m.e7 * m.e5), -k * (m.e3 * m.e8 - m.e5 * m.e6), k * (m.e3 * m.e7 - m.e6 * m.e4),
         -k * (m.e1 * m.e8 - m.e2 * m.e7), k * (m.e0 * m.e8 - m.e2 * m.e6), -k * (m.e0 * m.e7 - m.e6 * m.e1),
         k * (m.e1 * m.e5 - m.e2 * m.e4), -k * (m.e0 * m.e5 - m.e3 * m.e2), k * (m.e0 * m.e4 - m.e3 * m.e1))
  }

  function Cross(a: Vec3, b: Vec3): Vec3 {
    Vec3(a.y * b.z - a.z * b.y, a.z * b.x - a.x * b.z, a.x * b.y - a.y * b.x)
  }

  function Scaled(v: Vec3, k: real): Vec3 {
    Vec3(v.x * k, v.y * k, v.z * k)
  }

  /** The columns of the result are the cross products of the other two columns, divided by the determinant. */
  lemma TransposedInverseColumns(m: Mat3)
    requires Determinant(m) != 0.0
    ensures var r, k := TransposedInverse(m), 1.0 / Determinant(m);
            && First(r) == Scaled(Cross(Second(m), Third(m)), k)
            && Second(r) == Scaled(Cross(Third(m), First(m)), k)
            && Third(r) == Scaled(Cross(First(m), Second(m)), k)
  {
    FirstColumn(m);
    SecondColumn(m);
    ThirdColumn(m);
  }

  lemma FirstColumn(m: Mat3)
    requires Determinant(m) != 0.0
    ensures First(TransposedInverse(m)) == Scaled(Cross(Second(m), Third(m)), 1.0 / Determinant(m))
  {
    hide Determinant;
  }

  lemma SecondColumn(m: Mat3)
    requires Determinant(m) != 0.0
    ensures Second(TransposedInverse(m)) == Scaled(Cross(Third(m), First(m)), 1.0 / Determinant(m))
  {
    hide Determinant;
  }

  lemma ThirdColumn(m: Mat3)
    requires Determinant(m) != 0.0
    ensures Third(TransposedInverse(m)) == Scaled(Cross(First(m), Second(m)), 1.0 / Determinant(m))
  {
    hide Determinant;
  }

  lemma CrossIsNormal(a: Vec3, b: Vec3)
    ensures Dot(Cross(a, b), a) == 0.0 && Dot(Cross(a, b), b) == 0.0
  {
  }

  lemma TripleProduct(m: Mat3)
    ensures Dot(Cross(Second(m), Third(m)), First(m)) == Determinant(m)
    ensures Dot(Cross(Third(m), First(m)), Second(m)) == Determinant(m)
    ensures Dot(Cross(First(m), Second(m)), Third(m)) == Determinant(m)
  {
    var a, b, c := First(m), Second(m), Third(m);
    WrittenOut(b, c, a);
    WrittenOut(c, a, b);
    WrittenOut(a, b, c);
    Twofold(m.e0, m.e4 * m.e8, m.e7 * m.e5);
    Twofold(m.e1, m.e3 * m.e8, m.e5 * m.e6);
    Twofold(m.e2, m.e3 * m.e7, m.e4 * m.e6);
    hide Dot, Cross;
  }

  lemma Twofold(x: real, a: real, b: real)
    ensures x * (a - b) == x * a - x * b
  {
  }

  lemma WrittenOut(a: Vec3, b: Vec3, c: Vec3)
    ensures Dot(Cross(a, b), c) == c.x * a.y * b.z - c.x * a.z * b.y + c.y * a.z * b.x - c.y * a.x * b.z
                                   + c.z * a.x * b.y - c.z * a.y * b.x
  {
    Twofold(c.x, a.y * b.z, a.z * b.y);
    Twofold(c.y, a.z * b.x, a.x * b.z);
    Twofold(c.z, a.x * b.y, a.y * b.x);
  }

  lemma DotScaled(a: Vec3, b: Vec3, k: real)
    ensures Dot(Scaled(a, k), b) == Dot(a, b) * k
  {
  }

  lemma DotApply(m: Mat3, v: Vec3, w: Vec3)
    ensures Dot(Apply(m, v), w)
         == v.x * Dot(First(m), w) + v.y * Dot(Second(m), w) + v.z * Dot(Third(m), w)
    ensures Dot(w, Apply(m, v)) == Dot(Apply(m, v), w)
  {
  }

  lemma DotSwap(a: Vec3, b: Vec3)
    ensures Dot(a, b) == Dot(b, a)
  {
  }

  /** Normals mapped with the transposed inverse keep their angle to surface vectors mapped with the matrix. */
  lemma KeepsAngles(m: Mat3, n: Vec3, v: Vec3)
    requires Determinant(m) != 0.0
    ensures Dot(Apply(TransposedInverse(m), n), Apply(m, v)) == Dot(n, v)
  {
    hide Dot, Apply, Cross, Determinant, TransposedInverse;
    var r, w := TransposedInverse(m), Apply(m, v);
    DotApply(r, n, w);
    ColumnAgainst(m, v);
    DotIs(n, v);
  }

  lemma DotIs(a: Vec3, b: Vec3)
    ensures Dot(a, b) == a.x * b.x + a.y * b.y + a.z * b.z
  {
  }

  lemma ColumnAgainst(m: Mat3, v: Vec3)
    requires Determinant(m) != 0.0
    ensures var r, w := TransposedInverse(m), Apply(m, v);
            Dot(First(r), w) == v.x && Dot(Second(r), w) == v.y && Dot(Third(r), w) == v.z
  {
    hide Dot, Apply, Cross, Determinant, TransposedInverse, Scaled;
    var w, k, d := Apply(m, v), 1.0 / Determinant(m), Determinant(m);
    var a, b, c := First(m), Second(m), Third(m);
    TransposedInverseColumns(m);
    TripleProduct(m);
    CrossIsNormal(b, c);
    CrossIsNormal(c, a);
    CrossIsNormal(a, b);
    Against(m, v, Cross(b, c));
    Against(m, v, Cross(c, a));
    Against(m, v, Cross(a, b));
    DotScaled(Cross(b, c), w, k);
    DotScaled(Cross(c, a), w, k);
    DotScaled(Cross(a, b), w, k);
    Undone(v.x, d);
    Undone(v.y, d);
    Undone(v.z, d);
  }

  lemma Against(m: Mat3, v: Vec3, u: Vec3)
    ensures Dot(u, Apply(m, v))
         == v.x * Dot(u, First(m)) + v.y * Dot(u, Second(m)) + v.z * Dot(u, Third(m))
  {
    hide Dot;
    DotApply(m, v, u);
    DotSwap(u, First(m));
    DotSwap(u, Second(m));
    DotSwap(u, Third(m));
  }

  lemma Undone(x: real, d: real)
    requires d != 0.0
    ensures x * d * (1.0 / d) == x
  {
  }
}
