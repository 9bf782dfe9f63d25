/*
 * Path and curve records (curve.c.cs, curve.h.cs and the PotraceCurve and
 * PotracePath classes of potracelib.h.cs).
 *
 * Integer points (`point_t`, two `long`s) and double points (`dpoint_t`)
 * are values here: the modelled code never changes a point after storing
 * it. The doubles of `dpoint_t` and of the curve parameters are reals.
 * The list and tree links of a path (Next, ChildList, Sibling) are kept in
 * an arena indexed by the path's position in its list (module Lists), not
 * in the path object.
 */
module Curve {

  datatype Point = Point(x: int, y: int)

  datatype DPoint = DPoint(x: real, y: real)

  /** One entry of the prefix sums of a path: sums of x, y, x*x, x*y, y*y. */
  datatype Sums = Sums(x: int, y: int, x2: int, xy: int, y2: int)

  const Origin: DPoint := DPoint(0.0, 0.0)

  /** The three control points of one segment (`c[i]`, a `dpoint_t[3]`). */
  type Triple = t: seq<DPoint> | |t| == 3 witness [Origin, Origin, Origin]

  const ZeroTriple: Triple := [Origin, Origin, Origin]

  const CurveTo: int := 1
  const Corner: int := 2

  /** `privcurve_t`: a curve of n segments with its per-segment arrays. */
  class PrivCurve {
    var n: int
    var tag: array?<int>
    var c: array?<Triple>
    var alphaCurve: int
    var vertex: array?<DPoint>
    var alpha: array?<real>
    var alpha0: array?<real>
    var beta: array?<real>

    /** A curve as its field initialisers leave it: no segments and no arrays yet. */
    constructor ()
      ensures n == 0 && alphaCurve == 0
      ensures tag == null && c == null && vertex == null && alpha == null && alpha0 == null && beta == null
    {
      n, alphaCurve := 0, 0;
      tag, c, vertex, alpha, alpha0, beta := null, null, null, null, null, null;
    }

    /** Installs the segment arrays, leaving the parameter arrays alone. */
    method SetSegments(n': int, tag': array?<int>, c': array?<Triple>, vertex': array?<DPoint>)
      modifies this
      ensures n == n' && tag == tag' && c == c' && vertex == vertex'
      ensures alphaCurve == old(alphaCurve) && alpha == old(alpha) && alpha0 == old(alpha0) && beta == old(beta)
    {
      n, tag, c, vertex := n', tag', c', vertex';
    }

    /** Installs the parameter arrays, leaving the segment arrays alone. */
    method SetParameters(alpha': array?<real>, alpha0': array?<real>, beta': array?<real>)
      modifies this
      ensures alpha == alpha' && alpha0 == alpha0' && beta == beta'
      ensures alphaCurve == old(alphaCurve) && n == old(n) && tag == old(tag) && c == old(c) && vertex == old(vertex)
    {
      alpha, alpha0, beta := alpha', alpha0', beta';
    }

    /** Marks whether the curve's alpha values have been set. */
    method SetAlphaCurve(v: int)
      modifies this`alphaCurve
      ensures alphaCurve == v
    {
      alphaCurve := v;
    }

    /** The arrays of a curve with n segments: every per-segment array has n entries. */
    ghost predicate Sized()
      reads this`n, this`tag, this`c, this`vertex, this`alpha, this`alpha0, this`beta
    {
      && n >= 0
      && tag != null && c != null && vertex != null && alpha != null && alpha0 != null && beta != null
      && tag.Length == n && c.Length == n && vertex.Length == n
      && alpha.Length == n && alpha0.Length == n && beta.Length == n
    }
  }

  /** The public `PotraceCurve`. */
  class PotraceCurve {
    var n: int
    var tag: array?<int>
    var c: array?<Triple>

    constructor ()
      ensures n == 0 && tag == null && c == null
    {
      n, tag, c := 0, null, null;
    }
  }

  /** `potrace_privpath_t`: the private state a path accumulates through the tracing stages. */
  class PrivPath {
    var len: int
    var pt: seq<Point>
    var lon: array?<int>
    var x0: int
    var y0: int
    var sums: array?<Sums>
    var m: int
    var po: array?<int>
    var curve: PrivCurve
    var ocurve: PrivCurve
    var fcurve: PrivCurve

    constructor ()
      ensures len == 0 && pt == [] && lon == null && sums == null && po == null
      ensures fresh(curve) && fresh(ocurve) && fresh(fcurve)
    {
      len, pt, m, x0, y0 := 0, [], 0, 0, 0;
      lon, sums, po := null, null, null;
      curve := new PrivCurve();
      ocurve := new PrivCurve();
      fcurve := new PrivCurve();
    }
  }

  /** `PotracePath` without its links: area, sign ('+' or '-'), public curve and private state. */
  class PotracePath {
    var area: int
    var sign: char
    var curve: PotraceCurve
    var priv: PrivPath?

    constructor ()
      ensures area == 0 && sign == '\0' && priv == null && fresh(curve)
    {
      area, sign, priv := 0, '\0', null;
      curve := new PotraceCurve();
    }
  }

  /** `path_new`: a fresh path whose private record is fresh too. */
  method PathNew() returns (p: PotracePath)
    ensures fresh(p) && p.priv != null && fresh(p.priv)
    ensures p.area == 0 && p.priv.len == 0 && p.priv.pt == []
  {
    p := new PotracePath();
    var priv := new PrivPath();
    p.priv := priv;
  }

  /**
   * `privcurve_init(curve, n)`: n segments; tag, vertex, alpha, alpha0 and
   * beta get n zero entries and every segment of c three zero points;
   * returns 0. A negative n makes the array allocation throw, so it is
   * excluded.
   */
  method PrivcurveInit(curve: PrivCurve, n: int) returns (r: int)
    requires n >= 0
    modifies curve
    ensures r == 0 && curve.n == n && curve.Sized()
    ensures fresh(curve.tag) && fresh(curve.c) && fresh(curve.vertex)
    ensures fresh(curve.alpha) && fresh(curve.alpha0) && fresh(curve.beta)
    ensures curve.tag[..] == seq(n, _ => 0) && curve.c[..] == seq(n, _ => ZeroTriple) && curve.vertex[..] == seq(n, _ => Origin)
    ensures curve.alpha[..] == seq(n, _ => 0.0) && curve.alpha0[..] == curve.alpha[..] && curve.beta[..] == curve.alpha[..]
    ensures curve.alpha != curve.alpha0 && curve.alpha != curve.beta && curve.alpha0 != curve.beta
    ensures curve.alphaCurve == old(curve.alphaCurve)
  {
    var tag, c, vertex, alpha, alpha0, beta := ZeroArrays(n);
    curve.SetSegments(n, tag, c, vertex);
    curve.SetParameters(alpha, alpha0, beta);
    r := 0;
  }

  /** n zero entries in each per-segment array. */
  method ZeroArrays(n: nat) returns (tag: array<int>, c: array<Triple>, vertex: array<DPoint>,
                                     alpha: array<real>, alpha0: array<real>, beta: array<real>)
    ensures fresh(tag) && fresh(c) && fresh(vertex) && fresh(alpha) && fresh(alpha0) && fresh(beta)
    ensures tag[..] == seq(n, _ => 0) && c[..] == seq(n, _ => ZeroTriple) && vertex[..] == seq(n, _ => Origin)
    ensures alpha[..] == seq(n, _ => 0.0) && alpha0[..] == alpha[..] && beta[..] == alpha[..]
    ensures alpha != alpha0 && alpha != beta && alpha0 != beta
  {
    tag := new int[n](_ => 0);
    c := new Triple[n](_ => ZeroTriple);
    vertex := new DPoint[n](_ => Origin);
    alpha := new real[n](_ => 0.0);
    alpha0 := new real[n](_ => 0.0);
    beta := new real[n](_ => 0.0);
  }

  /** `privcurve_to_curve`: the public curve takes n and shares (not copies) the tag and c arrays. */
  method PrivcurveToCurve(pc: PrivCurve, c: PotraceCurve)
    modifies c
    ensures c.n == pc.n && c.tag == pc.tag && c.c == pc.c
  {
    c.n := pc.n;
    c.tag := pc.tag;
    c.c := pc.c;
  }
}
