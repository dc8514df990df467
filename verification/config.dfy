/** The configuration of an `Interpolator` (interpolator.h): the two
    enumerations, their integer values, the setters, and the four-way
    dispatch of `Interpolate`. */
module Configuration {
  import opened Maybe

  datatype InterpolationType = Linear | Bezier

  datatype AngleRepresentation = Euler | Quaternion

  /** The integer value of each enumerator: LINEAR = 0, BEZIER = 1. */
  function InterpolationTypeCode(t: InterpolationType): int
  {
    match t
    case Linear => 0
    case Bezier => 1
  }

  /** The integer value of each enumerator: EULER = 0, QUATERNION = 1. */
  function AngleRepresentationCode(a: AngleRepresentation): int
  {
    match a
    case Euler => 0
    case Quaternion => 1
  }

  /** The enumerator with a given integer value, if any. */
  function InterpolationTypeOf(code: int): (r: Option<InterpolationType>)
    ensures r.Some? <==> code == 0 || code == 1
    ensures r.Some? ==> InterpolationTypeCode(r.value) == code
  {
    if code == 0 then Some(Linear) else if code == 1 then Some(Bezier) else None
  }

  function AngleRepresentationOf(code: int): (r: Option<AngleRepresentation>)
    ensures r.Some? <==> code == 0 || code == 1
    ensures r.Some? ==> AngleRepresentationCode(r.value) == code
  {
    if code == 0 then Some(Euler) else if code == 1 then Some(Quaternion) else None
  }

  /** Each enumeration has exactly two enumerators, with distinct values 0
      and 1, and decoding a value gives the enumerator back. */
  lemma {:induction false} EnumerationsAreTwoValued(t: InterpolationType, a: AngleRepresentation)
    ensures InterpolationTypeOf(InterpolationTypeCode(t)) == Some(t)
    ensures AngleRepresentationOf(AngleRepresentationCode(a)) == Some(a)
    ensures t == Linear || t == Bezier
    ensures a == Euler || a == Quaternion
    ensures InterpolationTypeCode(Linear) != InterpolationTypeCode(Bezier)
    ensures AngleRepresentationCode(Euler) != AngleRepresentationCode(Quaternion)
  {
    match t
    case Linear =>
    case Bezier =>
  }

  /** The state of an `Interpolator`. */
  datatype Interpolator = Interpolator(interpolationType: InterpolationType, angleRepresentation: AngleRepresentation)

  /** The constructor: linear interpolation of Euler angles. */
  function NewInterpolator(): Interpolator
  {
    Interpolator(Linear, Euler)
  }

  /** `SetInterpolationType` changes the interpolation type and nothing else. */
  function SetInterpolationType(i: Interpolator, t: InterpolationType): (r: Interpolator)
    ensures r.interpolationType == t
    ensures r.angleRepresentation == i.angleRepresentation
  {
    i.(interpolationType := t)
  }

  /** `SetAngleRepresentation` changes the angle representation and nothing else. */
  function SetAngleRepresentation(i: Interpolator, a: AngleRepresentation): (r: Interpolator)
    ensures r.angleRepresentation == a
    ensures r.interpolationType == i.interpolationType
  {
    i.(angleRepresentation := a)
  }

  /** The four interpolation routines. */
  datatype Routine = LinearEuler | LinearQuaternion | BezierEuler | BezierQuaternion

  /** The chain of tests in `Interpolate`, on the integer values of the two
      fields: each valid pair selects one routine; any other pair is the
      "unknown interpolation / angle representation type" exit. */
  function Dispatch(typeCode: int, representationCode: int): (r: Option<Routine>)
    ensures r.Some? <==> (typeCode == 0 || typeCode == 1) && (representationCode == 0 || representationCode == 1)
    ensures r == Some(LinearEuler) <==> typeCode == 0 && representationCode == 0
    ensures r == Some(LinearQuaternion) <==> typeCode == 0 && representationCode == 1
    ensures r == Some(BezierEuler) <==> typeCode == 1 && representationCode == 0
    ensures r == Some(BezierQuaternion) <==> typeCode == 1 && representationCode == 1
  {
    if typeCode == 0 && representationCode == 0 then Some(LinearEuler)
    else if typeCode == 0 && representationCode == 1 then Some(LinearQuaternion)
    else if typeCode == 1 && representationCode == 0 then Some(BezierEuler)
    else if typeCode == 1 && representationCode == 1 then Some(BezierQuaternion)
    else None
  }

  /** The routine an interpolator runs. */
  function RoutineOf(i: Interpolator): Routine
  {
    match (i.interpolationType, i.angleRepresentation)
    case (Linear, Euler) => LinearEuler
    case (Linear, Quaternion) => LinearQuaternion
    case (Bezier, Euler) => BezierEuler
    case (Bezier, Quaternion) => BezierQuaternion
  }

  /** For every configuration the setters can produce the dispatch succeeds,
      so its error exit is unreachable; distinct configurations run distinct
      routines, and every routine is reachable. */
  lemma {:induction false} DispatchIsExhaustive(i: Interpolator, j: Interpolator, r: Routine)
    ensures Dispatch(InterpolationTypeCode(i.interpolationType), AngleRepresentationCode(i.angleRepresentation))
      == Some(RoutineOf(i))
    ensures RoutineOf(i) == RoutineOf(j) ==> i == j
    ensures exists t, a :: RoutineOf(Interpolator(t, a)) == r
  {
    match r
    case LinearEuler => assert RoutineOf(Interpolator(Linear, Euler)) == r;
    case LinearQuaternion => assert RoutineOf(Interpolator(Linear, Quaternion)) == r;
    case BezierEuler => assert RoutineOf(Interpolator(Bezier, Euler)) == r;
    case BezierQuaternion => assert RoutineOf(Interpolator(Bezier, Quaternion)) == r;
  }

  /** A fresh interpolator runs linear Euler interpolation, and the setters
      select any of the four routines from any starting state. */
  lemma SettersReachEveryRoutine(i: Interpolator, t: InterpolationType, a: AngleRepresentation)
    ensures RoutineOf(NewInterpolator()) == LinearEuler
    ensures RoutineOf(SetAngleRepresentation(SetInterpolationType(i, t), a)) == RoutineOf(Interpolator(t, a))
  {
  }
}
