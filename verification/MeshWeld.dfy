/** The case generator's meshes: welding duplicate vertices and placing a shell on the print bed. */
module MeshWeld {
  datatype Vertex = Vertex(x: real, y: real, z: real)

  datatype Triangle = Triangle(a: nat, b: nat, c: nat)

  // ---- Welding --------------------------------------------------------------

  /** A vertex with its coordinates rounded; `round` is any rounding. */
  function Key(v: Vertex, round: real -> real): Vertex {
    Vertex(round(v.x), round(v.y), round(v.z))
  }

  predicate Distinct<T(==)>(s: seq<T>) {
    forall i: nat, j: nat :: i < j < |s| ==> s[i] != s[j]
  }

  predicate InMesh(t: Triangle, count: nat) {
    t.a < count && t.b < count && t.c < count
  }

  predicate Proper(t: Triangle) {
    t.a != t.b && t.b != t.c && t.a != t.c
  }

  /** The rounded vertices a triangle joins, in its order. */
  function Corners(t: Triangle, verts: seq<Vertex>): seq<Vertex>
    requires InMesh(t, |verts|)
  {
    [verts[t.a], verts[t.b], verts[t.c]]
  }

  function Rounded(verts: seq<Vertex>, round: real -> real): (keys: seq<Vertex>)
    ensures |keys| == |verts|
    ensures forall i: nat :: i < |keys| ==>
              keys[i] == Vertex(round(verts[i].x), round(verts[i].y), round(verts[i].z))
  {
    seq(|verts|, i requires 0 <= i < |verts| => Key(verts[i], round))
  }

  /** The triangles, in order and orientation, whose three rounded corners differ, as those corners. */
  function KeptCorners(tris: seq<Triangle>, keys: seq<Vertex>): seq<seq<Vertex>>
    requires forall i: nat :: i < |tris| ==> InMesh(tris[i], |keys|)
  {
    if tris == [] then []
    else
      var corners := Corners(tris[|tris| - 1], keys);
      KeptCorners(tris[..|tris| - 1], keys) + if Distinct(corners) then [corners] else []
  }

  function AllCorners(tris: seq<Triangle>, verts: seq<Vertex>): seq<seq<Vertex>>
    requires forall i: nat :: i < |tris| ==> InMesh(tris[i], |verts|)
  {
    if tris == [] then []
    else AllCorners(tris[..|tris| - 1], verts) + [Corners(tris[|tris| - 1], verts)]
  }

  /** `index` numbers the distinct keys found so far in order of appearance. */
  ghost predicate Numbered(index: map<Vertex, nat>, out: seq<Vertex>) {
    && Distinct(out)
    && (forall k :: k in index <==> k in out)
    && forall k :: k in index ==> index[k] < |out| && out[index[k]] == k
  }

  method WeldVertices(verts: seq<Vertex>, round: real -> real) returns (out: seq<Vertex>, remap: seq<nat>)
    ensures Distinct(out) && |remap| == |verts|
    ensures forall i: nat :: i < |verts| ==> remap[i] < |out| && out[remap[i]] == Rounded(verts, round)[i]
    ensures forall v :: v in out <==> v in Rounded(verts, round)
  {
    var index: map<Vertex, nat> := map[];
    out, remap := [], [];
    var i := 0;
    while i < |verts|
      invariant i <= |verts| && |remap| == i
      invariant Numbered(index, out)
      invariant forall j: nat :: j < i ==> remap[j] < |out| && out[remap[j]] == Rounded(verts, round)[j]
      invariant forall v :: v in out ==> v in Rounded(verts, round)[..i]
    {
      var key := Key(verts[i], round);
      assert Rounded(verts, round)[i] == key;
      assert Rounded(verts, round)[..i + 1] == Rounded(verts, round)[..i] + [key];
      if key !in index {
        index := index[key := |out|];
        out := out + [key];
      }
      remap := remap + [index[key]];
      i := i + 1;
    }
    assert Rounded(verts, round)[..i] == Rounded(verts, round);
  }

  /** Two indices of distinct vertices are the same exactly when the vertices are. */
  lemma IndexIsVertex(out: seq<Vertex>, i: nat, j: nat)
    requires Distinct(out) && i < |out| && j < |out|
    ensures i == j <==> out[i] == out[j]
  {
  }

  lemma ProperIffCornersDiffer(t: Triangle, out: seq<Vertex>)
    requires Distinct(out) && InMesh(t, |out|)
    ensures Proper(t) <==> Distinct(Corners(t, out))
  {
    var c := Corners(t, out);
    IndexIsVertex(out, t.a, t.b);
    IndexIsVertex(out, t.b, t.c);
    IndexIsVertex(out, t.a, t.c);
    assert Distinct(c) <==> c[0] != c[1] && c[1] != c[2] && c[0] != c[2];
  }

  predicate AllProper(tris: seq<Triangle>, count: nat) {
    forall i: nat :: i < |tris| ==> InMesh(tris[i], count) && Proper(tris[i])
  }

  /** Keeps a triangle, in its new indices, when they differ. */
  method KeepTriangle(tri: Triangle, remap: seq<nat>, outV: seq<Vertex>, ghost keys: seq<Vertex>, outT: seq<Triangle>)
    returns (outT': seq<Triangle>)
    requires Distinct(outV) && |remap| == |keys| && InMesh(tri, |keys|) && AllProper(outT, |outV|)
    requires forall i: nat :: i < |keys| ==> remap[i] < |outV| && outV[remap[i]] == keys[i]
    ensures AllProper(outT', |outV|)
    ensures AllCorners(outT', outV) == AllCorners(outT, outV)
                                       + if Distinct(Corners(tri, keys)) then [Corners(tri, keys)] else []
  {
    outT' := outT;
    var t := Triangle(remap[tri.a], remap[tri.b], remap[tri.c]);
    ProperIffCornersDiffer(t, outV);
    SetOfThree(t.a, t.b, t.c);
    if |{t.a, t.b, t.c}| == 3 {
      OneMoreCorners(outT, t, outV);
      outT' := outT + [t];
    }
  }

  method KeepTriangles(tris: seq<Triangle>, remap: seq<nat>, outV: seq<Vertex>, ghost keys: seq<Vertex>)
    returns (outT: seq<Triangle>)
    requires Distinct(outV) && |remap| == |keys|
    requires forall i: nat :: i < |keys| ==> remap[i] < |outV| && outV[remap[i]] == keys[i]
    requires forall i: nat :: i < |tris| ==> InMesh(tris[i], |keys|)
    ensures AllProper(outT, |outV|) && AllCorners(outT, outV) == KeptCorners(tris, keys)
  {
    outT := [];
    var i := 0;
    while i < |tris|
      invariant i <= |tris| && AllProper(outT, |outV|)
      invariant AllCorners(outT, outV) == KeptCorners(tris[..i], keys)
    {
      Fronts(tris, i);
      OneMoreKept(tris[..i], tris[i], keys);
      outT := KeepTriangle(tris[i], remap, outV, keys, outT);
      i := i + 1;
    }
    Fronts(tris, i);
  }

  lemma Fronts(tris: seq<Triangle>, i: nat)
    requires i <= |tris|
    ensures i < |tris| ==> tris[..i] + [tris[i]] == tris[..i + 1]
    ensures i == |tris| ==> tris[..i] == tris
  {
  }

  /** What is kept of one triangle, and that nothing is kept or lost between two lists. */
  lemma KeptOfOne(t: Triangle, keys: seq<Vertex>)
    requires InMesh(t, |keys|)
    ensures KeptCorners([t], keys)
            == if keys[t.a] != keys[t.b] && keys[t.b] != keys[t.c] && keys[t.a] != keys[t.c]
               then [[keys[t.a], keys[t.b], keys[t.c]]] else []
  {
    var c := Corners(t, keys);
    assert [t][..0] == [];
    assert Distinct(c) <==> c[0] != c[1] && c[1] != c[2] && c[0] != c[2];
  }

  lemma LastApart(a: seq<Triangle>, b: seq<Triangle>)
    requires b != []
    ensures a + b == a + b[..|b| - 1] + [b[|b| - 1]] && b == b[..|b| - 1] + [b[|b| - 1]]
  {
  }

  lemma {:induction false} KeptOfBoth(a: seq<Triangle>, b: seq<Triangle>, keys: seq<Vertex>)
    requires (forall i: nat :: i < |a| ==> InMesh(a[i], |keys|)) && forall i: nat :: i < |b| ==> InMesh(b[i], |keys|)
    ensures KeptCorners(a + b, keys) == KeptCorners(a, keys) + KeptCorners(b, keys)
  {
    if b == [] {
      assert a + b == a;
    } else {
      var n := |b| - 1;
      KeptOfBoth(a, b[..n], keys);
      OneMoreKept(a + b[..n], b[n], keys);
      OneMoreKept(b[..n], b[n], keys);
      LastApart(a, b);
    }
  }

  lemma OneMoreKept(tris: seq<Triangle>, t: Triangle, keys: seq<Vertex>)
    requires InMesh(t, |keys|) && forall j: nat :: j < |tris| ==> InMesh(tris[j], |keys|)
    ensures KeptCorners(tris + [t], keys)
            == KeptCorners(tris, keys) + if Distinct(Corners(t, keys)) then [Corners(t, keys)] else []
  {
    assert (tris + [t])[..|tris|] == tris;
  }

  lemma OneMoreCorners(tris: seq<Triangle>, t: Triangle, verts: seq<Vertex>)
    requires InMesh(t, |verts|) && forall j: nat :: j < |tris| ==> InMesh(tris[j], |verts|)
    ensures AllCorners(tris + [t], verts) == AllCorners(tris, verts) + [Corners(t, verts)]
  {
    assert (tris + [t])[..|tris|] == tris;
  }

  /**
   * A mesh of distinct rounded vertices, each of them some vertex rounded and each vertex among
   * them, with exactly the triangles whose rounded corners differ, in order and orientation.
   */
  method MeshOf(verts: seq<Vertex>, tris: seq<Triangle>, round: real -> real)
    returns (outV: seq<Vertex>, outT: seq<Triangle>)
    requires forall i: nat :: i < |tris| ==> InMesh(tris[i], |verts|)
    ensures Distinct(outV) && forall v :: v in outV <==> v in Rounded(verts, round)
    ensures AllProper(outT, |outV|) && AllCorners(outT, outV) == KeptCorners(tris, Rounded(verts, round))
  {
    var remap;
    outV, remap := WeldVertices(verts, round);
    outT := KeepTriangles(tris, remap, outV, Rounded(verts, round));
  }

  lemma SetOfThree(a: nat, b: nat, c: nat)
    ensures |{a, b, c}| == 3 <==> a != b && b != c && a != c
  {
    if a == b {
      assert {a, b, c} == {b, c};
    } else if b == c {
      assert {a, b, c} == {a, c};
    } else if a == c {
      assert {a, b, c} == {b, c};
    }
  }

  // ---- Placing --------------------------------------------------------------

  /** The shell's outline and the print plate's margins. */
  datatype Plate = Plate(ox0: real, ox1: real, oy0: real, zBottom: real, zTop: real,
                         marginX: real, spacing: real, plateY: real)

  function PlaceLower(p: Vertex, plate: Plate): Vertex {
    Vertex(p.x - plate.ox0 + plate.marginX, p.y - plate.oy0 + plate.plateY, p.z - plate.zBottom)
  }

  /** Upside down, so that its top lies on the bed. */
  function PlaceUpper(p: Vertex, plate: Plate): Vertex {
    Vertex(plate.ox1 - p.x + plate.marginX + (plate.ox1 - plate.ox0) + plate.spacing,
           p.y - plate.oy0 + plate.plateY, plate.zTop - p.z)
  }

  function Minus(p: Vertex, q: Vertex): Vertex {
    Vertex(p.x - q.x, p.y - q.y, p.z - q.z)
  }

  /** Six times the signed volume of the tetrahedron `o a b c`: which side of triangle `a b c` `o` is on. */
  function Orientation(o: Vertex, a: Vertex, b: Vertex, c: Vertex): real {
    Determinant(Minus(a, o), Minus(b, o), Minus(c, o))
  }

  function Determinant(u: Vertex, v: Vertex, w: Vertex): real {
    u.x * (v.y * w.z - v.z * w.y) - u.y * (v.x * w.z - v.z * w.x) + u.z * (v.x * w.y - v.y * w.x)
  }

  /** One for the axes in order, minus one when two of them are swapped. */
  lemma DeterminantOfAxes()
    ensures var x, y, z := Vertex(1.0, 0.0, 0.0), Vertex(0.0, 1.0, 0.0), Vertex(0.0, 0.0, 1.0);
            && Determinant(x, y, z) == Determinant(y, z, x) == Determinant(z, x, y) == 1.0
            && Determinant(y, x, z) == Determinant(x, z, y) == Determinant(z, y, x) == -1.0
  {
  }

  /** The lower shell is only moved; the upper one is turned half round the y direction and moved. */
  lemma PlacementsAreRigid(p: Vertex, q: Vertex, plate: Plate)
    ensures Minus(PlaceLower(p, plate), PlaceLower(q, plate)) == Minus(p, q)
    ensures Minus(PlaceUpper(p, plate), PlaceUpper(q, plate)) == Vertex(q.x - p.x, p.y - q.y, q.z - p.z)
  {
  }

  function Turned(u: Vertex): Vertex {
    Vertex(-u.x, u.y, -u.z)
  }

  lemma TurningKeepsDeterminant(u: Vertex, v: Vertex, w: Vertex)
    ensures Determinant(Turned(u), Turned(v), Turned(w)) == Determinant(u, v, w)
  {
  }

  /** Neither placement turns a mesh inside out, or changes any volume. */
  lemma PlacementsKeepOrientation(o: Vertex, a: Vertex, b: Vertex, c: Vertex, plate: Plate)
    ensures Orientation(PlaceLower(o, plate), PlaceLower(a, plate), PlaceLower(b, plate), PlaceLower(c, plate))
            == Orientation(o, a, b, c)
    ensures Orientation(PlaceUpper(o, plate), PlaceUpper(a, plate), PlaceUpper(b, plate), PlaceUpper(c, plate))
            == Orientation(o, a, b, c)
  {
    forall p
      ensures Minus(PlaceLower(p, plate), PlaceLower(o, plate)) == Minus(p, o)
      ensures Minus(PlaceUpper(p, plate), PlaceUpper(o, plate)) == Turned(Minus(p, o))
    {
    }
    TurningKeepsDeterminant(Minus(a, o), Minus(b, o), Minus(c, o));
  }

  /** Half the plate's room is the lower shell's, standing on its bottom; the other half, a gap away, the upper one's, on its roof. */
  lemma PlacementsLieOnPlate(p: Vertex, plate: Plate)
    requires plate.ox0 <= p.x <= plate.ox1 && plate.oy0 <= p.y && plate.zBottom <= p.z <= plate.zTop
    ensures var width, height := plate.ox1 - plate.ox0, plate.zTop - plate.zBottom;
            var lower, upper := PlaceLower(p, plate), PlaceUpper(p, plate);
            && plate.marginX <= lower.x <= plate.marginX + width
            && plate.marginX + width + plate.spacing <= upper.x <= plate.marginX + width + plate.spacing + width
            && lower.y >= plate.plateY && upper.y >= plate.plateY
            && 0.0 <= lower.z <= height && 0.0 <= upper.z <= height
  {
  }

  /** They touch their edges exactly where the shell does. */
  lemma PlacementsFillTheirRoom(p: Vertex, plate: Plate)
    ensures var width := plate.ox1 - plate.ox0;
            var lower, upper := PlaceLower(p, plate), PlaceUpper(p, plate);
            && (lower.x == plate.marginX <==> p.x == plate.ox0)
            && (upper.x == plate.marginX + width + plate.spacing <==> p.x == plate.ox1)
            && (lower.y == plate.plateY <==> p.y == plate.oy0) && upper.y == lower.y
            && (lower.z == 0.0 <==> p.z == plate.zBottom) && (upper.z == 0.0 <==> p.z == plate.zTop)
  {
  }
}
