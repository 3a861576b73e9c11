/**
 Shape selection for the volume-rendering kernel.

 The component stores its shape as an enum (an integer underneath) and, before
 dispatching the kernel, sets four boolean shader flags with four consecutive
 `if` statements, one per enum value. A flag set that a previous bake left on
 the shader is overwritten by whichever branch fires; when no branch fires (an
 integer outside the enum) the shader keeps the previous flags.
 */
module ShapeFlags {
  import opened Wrappers

  datatype Shape = Sphere | Cylinder | Torus | Noise

  /** The four shader flags DrawSphere, DrawCylinder, DrawTorus, DrawNoise. */
  datatype Flags = Flags(drawSphere: bool, drawCylinder: bool, drawTorus: bool, drawNoise: bool)

  /** The enum's underlying integer (declaration order, starting at 0). */
  function Code(s: Shape): (c: int)
    ensures 0 <= c < 4
  {
    match s
    case Sphere => 0
    case Cylinder => 1
    case Torus => 2
    case Noise => 3
  }

  /** The enum value an integer denotes, if any. */
  function ShapeOfCode(code: int): (o: Option<Shape>)
    ensures o.Some? <==> 0 <= code < 4
    ensures o.Some? ==> Code(o.value) == code
  {
    if code == 0 then Some(Sphere)
    else if code == 1 then Some(Cylinder)
    else if code == 2 then Some(Torus)
    else if code == 3 then Some(Noise)
    else None
  }

  lemma CodeRoundTrip(s: Shape)
    ensures ShapeOfCode(Code(s)) == Some(s)
  {
  }

  function BoolCount(b: bool): nat {
    if b then 1 else 0
  }

  /** Exactly one of the four flags is set. */
  predicate ExactlyOne(f: Flags) {
    BoolCount(f.drawSphere) + BoolCount(f.drawCylinder) + BoolCount(f.drawTorus) + BoolCount(f.drawNoise) == 1
  }

  /** The four values one branch of the selection writes. */
  function FlagsFor(s: Shape): Flags {
    Flags(s == Sphere, s == Cylinder, s == Torus, s == Noise)
  }

  /** The shape a flag set asks the kernel to draw, when it asks for exactly one. */
  function DrawnShape(f: Flags): (o: Option<Shape>)
    ensures o.Some? <==> ExactlyOne(f)
    ensures o.Some? ==> FlagsFor(o.value) == f
  {
    if f == FlagsFor(Sphere) then Some(Sphere)
    else if f == FlagsFor(Cylinder) then Some(Cylinder)
    else if f == FlagsFor(Torus) then Some(Torus)
    else if f == FlagsFor(Noise) then Some(Noise)
    else None
  }

  /** A flag set names shape s exactly when it is the flag set written for s. */
  lemma DrawnShapeIff(f: Flags, s: Shape)
    ensures DrawnShape(f) == Some(s) <==> f == FlagsFor(s)
  {
  }

  /**
   The four consecutive `if`s on the stored enum integer, starting from the
   flags currently on the shader.
   */
  function SelectShapeCode(current: Flags, code: int): (f: Flags)
    ensures ShapeOfCode(code).Some? ==> ExactlyOne(f) && DrawnShape(f) == ShapeOfCode(code)
    ensures ShapeOfCode(code).None? ==> f == current
  {
    var afterSphere := if code == Code(Sphere) then FlagsFor(Sphere) else current;
    var afterCylinder := if code == Code(Cylinder) then FlagsFor(Cylinder) else afterSphere;
    var afterTorus := if code == Code(Torus) then FlagsFor(Torus) else afterCylinder;
    if code == Code(Noise) then FlagsFor(Noise) else afterTorus
  }

  /** Selecting a declared shape sets its own flag and clears the other three. */
  function SelectShape(current: Flags, s: Shape): (f: Flags)
    ensures ExactlyOne(f) && DrawnShape(f) == Some(s)
    ensures f.drawSphere <==> s == Sphere
    ensures f.drawCylinder <==> s == Cylinder
    ensures f.drawTorus <==> s == Torus
    ensures f.drawNoise <==> s == Noise
  {
    CodeRoundTrip(s);
    SelectShapeCode(current, Code(s))
  }

  /** The result does not depend on the flags a previous bake left on the shader. */
  lemma SelectShapeForgetsPrevious(current1: Flags, current2: Flags, s: Shape)
    ensures SelectShape(current1, s) == SelectShape(current2, s)
  {
  }
}
