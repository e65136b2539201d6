/**
 A forward reference to a geometry in a GML document: an `xlink:href` whose
 fragment names an element that may only appear later. The reference stands in
 for that geometry, is resolved at most once, and implements the geometry
 interface by forwarding to its delegate.
 */
module GeometryRefs {
  import opened Geometries

  /** A value or Java's `null`. */
  datatype Option<T> = None | Some(value: T)

  /** The exceptions the reference throws. */
  datatype ReferenceError =
    | MissingFragment(href: string)   // IllegalArgumentException: no '#' in the reference string
    | AlreadyResolved(href: string)   // RuntimeException: resolve on a resolved reference

  datatype Result<T> = Success(value: T) | Failure(error: ReferenceError)

  datatype Outcome = Pass | Fail(error: ReferenceError)

  // ---------------------------------------------------------------------------
  // Reference strings
  // ---------------------------------------------------------------------------

  /** `id` is the text after the last '#' of `href`. */
  predicate IsFragmentOf(href: string, id: string) {
    && |id| < |href|
    && href[|href| - |id| - 1] == '#'
    && href[|href| - |id|..] == id
    && '#' !in id
  }

  /** The fragment identifier of `href`, or `None` if it has no '#'. */
  function Fragment(href: string): (id: Option<string>)
    ensures id.None? <==> '#' !in href
    ensures id.Some? ==> IsFragmentOf(href, id.value)
  {
    if href == [] then None
    else
      var init, last := href[..|href| - 1], href[|href| - 1];
      assert href == init + [last];
      if last == '#' then Some([])
      else match Fragment(init)
        case None => None
        case Some(f) => Some(f + [last])
  }

  /** Java's `String.lastIndexOf(char)`: the last index of `c` in `s`, or -1. */
  method LastIndexOf(s: string, c: char) returns (pos: int)
    ensures -1 <= pos < |s|
    ensures pos == -1 <==> c !in s
    ensures 0 <= pos ==> s[pos] == c && c !in s[pos + 1..]
  {
    pos := |s| - 1;
    while 0 <= pos && s[pos] != c
      invariant -1 <= pos < |s|
      invariant c !in s[pos + 1..]
    {
      pos := pos - 1;
    }
  }

  /** Joining a prefix, '#' and an id free of '#' gives back exactly that id. */
  lemma {:induction false} FragmentOfJoin(prefix: string, id: string)
    requires '#' !in id
    ensures Fragment(prefix + "#" + id) == Some(id)
  {
    var href := prefix + "#" + id;
    if id != [] {
      var init := id[..|id| - 1];
      assert href[..|href| - 1] == prefix + "#" + init;
      FragmentOfJoin(prefix, init);
      assert init + [id[|id| - 1]] == id;
    }
  }

  /** The fragment is unique: any text after a '#' that holds no '#' is it. */
  lemma FragmentUnique(href: string, id: string)
    requires IsFragmentOf(href, id)
    ensures Fragment(href) == Some(id)
  {
  }

  // ---------------------------------------------------------------------------
  // Resolution as a state machine on the delegate slot
  // ---------------------------------------------------------------------------

  /** The new slot and the outcome of one `resolve(g)` on a slot holding `slot`. */
  function ResolveStep(slot: Option<Geometry>, g: Option<Geometry>, href: string): (Option<Geometry>, Outcome) {
    if slot.Some? then (slot, Fail(AlreadyResolved(href))) else (g, Pass)
  }

  /** The final slot and the outcomes of `resolve` called with each of `gs` in turn. */
  function ResolveAll(slot: Option<Geometry>, gs: seq<Option<Geometry>>, href: string): (r: (Option<Geometry>, seq<Outcome>))
    ensures |r.1| == |gs|
    decreases |gs|
  {
    if gs == [] then (slot, [])
    else
      var step := ResolveStep(slot, gs[0], href);
      var rest := ResolveAll(step.0, gs[1..], href);
      (rest.0, [step.1] + rest.1)
  }

  /** The first non-null geometry of `gs`, or null. */
  function FirstNonNull(gs: seq<Option<Geometry>>): Option<Geometry> {
    if gs == [] then None
    else if gs[0].Some? then gs[0]
    else FirstNonNull(gs[1..])
  }

  /**
   Resolution is one-shot: over any sequence of `resolve` calls the delegate is
   the one already there or else the first non-null argument, and a call fails,
   with the already-resolved error, exactly when a non-null geometry was set
   before it. Resolving with null therefore never blocks a later resolve.
   */
  lemma {:induction false} ResolveSequence(slot: Option<Geometry>, gs: seq<Option<Geometry>>, href: string)
    ensures ResolveAll(slot, gs, href).0 == if slot.Some? then slot else FirstNonNull(gs)
    ensures forall i :: 0 <= i < |gs| ==>
      (ResolveAll(slot, gs, href).1[i].Pass? <==> slot.None? && FirstNonNull(gs[..i]).None?)
    ensures forall i :: 0 <= i < |gs| && ResolveAll(slot, gs, href).1[i].Fail? ==>
      ResolveAll(slot, gs, href).1[i].error == AlreadyResolved(href)
    decreases |gs|
  {
    if gs != [] {
      var step := ResolveStep(slot, gs[0], href);
      ResolveSequence(step.0, gs[1..], href);
      var outcomes := ResolveAll(slot, gs, href).1;
      assert outcomes == [step.1] + ResolveAll(step.0, gs[1..], href).1;
      forall i | 0 < i < |gs|
        ensures FirstNonNull(gs[..i]) == if gs[0].Some? then gs[0] else FirstNonNull(gs[1..][..i - 1])
      {
        assert gs[..i][1..] == gs[1..][..i - 1];
      }
    }
  }

  // ---------------------------------------------------------------------------
  // The reference
  // ---------------------------------------------------------------------------

  class GeometryReference {
    /** The reference string; never reassigned after construction. */
    const href: string
    /** The fragment identifier of `href`. */
    const gid: string
    /** The delegate; `None` stands for null (unresolved). */
    var geometry: Option<Geometry>

    /** `gid` is the fragment of `href`. */
    predicate Valid() {
      Fragment(href) == Some(gid)
    }

    predicate Resolved()
      reads this
    {
      geometry.Some?
    }

    function Delegate(): Geometry
      reads this
      requires Resolved()
    {
      geometry.value
    }

    /** Stores the reference string and its already extracted fragment; used by `Create`. */
    constructor (href: string, gid: string)
      requires Fragment(href) == Some(gid)
      ensures this.href == href && this.gid == gid && geometry == None
      ensures Valid()
    {
      this.href := href;
      this.gid := gid;
      geometry := None;
    }

    /**
     `new GeometryReference(href)`: fails with `MissingFragment` when `href` has
     no '#'; otherwise a fresh, unresolved reference whose id is the text after
     the last '#'.
     */
    static method Create(href: string) returns (r: Result<GeometryReference>)
      ensures r.Failure? <==> '#' !in href
      ensures r.Failure? ==> r.error == MissingFragment(href)
      ensures r.Success? ==> fresh(r.value) && r.value.Valid()
      ensures r.Success? ==> r.value.href == href && IsFragmentOf(href, r.value.gid)
      ensures r.Success? ==> !r.value.Resolved()
    {
      var pos := LastIndexOf(href, '#');
      if pos < 0 {
        return Failure(MissingFragment(href));
      }
      var id := href[pos + 1..];
      FragmentUnique(href, id);
      var ref := new GeometryReference(href, id);
      return Success(ref);
    }

    /**
     Sets the delegate when none is set; fails with `AlreadyResolved` and
     changes nothing when one is. A null `g` is accepted and leaves the
     reference unresolved.
     */
    method Resolve(g: Option<Geometry>) returns (outcome: Outcome)
      modifies this`geometry
      ensures (geometry, outcome) == ResolveStep(old(geometry), g, href)
      ensures outcome.Pass? <==> !old(Resolved())
      ensures outcome.Pass? ==> geometry == g
      ensures outcome.Fail? ==> outcome.error == AlreadyResolved(href) && geometry == old(geometry)
    {
      if geometry.Some? {
        return Fail(AlreadyResolved(href));
      }
      geometry := g;
      return Pass;
    }

    /** The id: the text after the last '#' of the reference string. It reads no mutable state, so resolution cannot change it. */
    function GetId(): (id: string)
      requires Valid()
      ensures IsFragmentOf(href, id)
      ensures href == href[..|href| - |id| - 1] + "#" + id
      ensures Fragment(href) == Some(id)
    {
      gid
    }

    // -------------------------------------------------------------------------
    // Operations with a geometry argument.
    //
    // LIKELY DEFECT: the parameter is named `geometry` and shadows the field, so
    // each of these asks the ARGUMENT about itself and never reads the delegate.
    // Modelled as written; none of them has a reads clause.
    // -------------------------------------------------------------------------

    function Contains(ops: GeometryOps, geometry: Geometry): (r: bool)
      ensures Truth(r) == Invoke(ops, geometry, Call.Contains(geometry))
    {
      ops.contains(geometry, geometry)
    }

    function Difference(ops: GeometryOps, geometry: Geometry): (r: Geometry)
      ensures Shape(r) == Invoke(ops, geometry, Call.Difference(geometry))
    {
      ops.difference(geometry, geometry)
    }

    function Distance(ops: GeometryOps, geometry: Geometry): (r: real)
      ensures Length(r) == Invoke(ops, geometry, Call.Distance(geometry))
    {
      ops.distance(geometry, geometry)
    }

    function Equals(ops: GeometryOps, geometry: Geometry): (r: bool)
      ensures Truth(r) == Invoke(ops, geometry, Call.Equals(geometry))
    {
      ops.equals(geometry, geometry)
    }

    function Intersection(ops: GeometryOps, geometry: Geometry): (r: Geometry)
      ensures Shape(r) == Invoke(ops, geometry, Call.Intersection(geometry))
    {
      ops.intersection(geometry, geometry)
    }

    function Intersects(ops: GeometryOps, geometry: Geometry): (r: bool)
      ensures Truth(r) == Invoke(ops, geometry, Call.Intersects(geometry))
    {
      ops.intersects(geometry, geometry)
    }

    function IsBeyond(ops: GeometryOps, geometry: Geometry, distance: Measure): (r: bool)
      ensures Truth(r) == Invoke(ops, geometry, Call.IsBeyond(geometry, distance))
    {
      ops.isBeyond(geometry, geometry, distance)
    }

    function IsWithin(ops: GeometryOps, geometry: Geometry): (r: bool)
      ensures Truth(r) == Invoke(ops, geometry, Call.IsWithin(geometry))
    {
      ops.isWithin(geometry, geometry)
    }

    function IsWithinDistance(ops: GeometryOps, geometry: Geometry, distance: Measure): (r: bool)
      ensures Truth(r) == Invoke(ops, geometry, Call.IsWithinDistance(geometry, distance))
    {
      ops.isWithinDistance(geometry, geometry, distance)
    }

    function Union(ops: GeometryOps, geometry: Geometry): (r: Geometry)
      ensures Shape(r) == Invoke(ops, geometry, Call.Union(geometry))
    {
      ops.union(geometry, geometry)
    }

    // -------------------------------------------------------------------------
    // Operations without a geometry argument: forwarded to the delegate, which
    // must be set (the source dereferences it unchecked).
    // -------------------------------------------------------------------------

    function GetBuffer(ops: GeometryOps, distance: Measure): (r: Geometry)
      reads this
      requires Resolved()
      ensures Shape(r) == Invoke(ops, Delegate(), Call.GetBuffer(distance))
    {
      ops.buffer(geometry.value, distance)
    }

    function GetConvexHull(ops: GeometryOps): (r: Geometry)
      reads this
      requires Resolved()
      ensures Shape(r) == Invoke(ops, Delegate(), Call.GetConvexHull)
    {
      ops.convexHull(geometry.value)
    }

    function GetCoordinateDimension(ops: GeometryOps): (r: int)
      reads this
      requires Resolved()
      ensures Dimension(r) == Invoke(ops, Delegate(), Call.GetCoordinateDimension)
    {
      ops.coordinateDimension(geometry.value)
    }

    function GetCoordinateSystem(ops: GeometryOps): (r: CRS)
      reads this
      requires Resolved()
      ensures System(r) == Invoke(ops, Delegate(), Call.GetCoordinateSystem)
    {
      ops.coordinateSystem(geometry.value)
    }

    function GetEnvelope(ops: GeometryOps): (r: Envelope)
      reads this
      requires Resolved()
      ensures Bounds(r) == Invoke(ops, Delegate(), Call.GetEnvelope)
    {
      ops.envelope(geometry.value)
    }

    function GetGeometryType(ops: GeometryOps): (r: GeometryType)
      reads this
      requires Resolved()
      ensures Kind(r) == Invoke(ops, Delegate(), Call.GetGeometryType)
    {
      ops.geometryType(geometry.value)
    }

    function GetPrecision(ops: GeometryOps): (r: PrecisionModel)
      reads this
      requires Resolved()
      ensures Precision(r) == Invoke(ops, Delegate(), Call.GetPrecision)
    {
      ops.precision(geometry.value)
    }

    function GetStandardGMLProperties(ops: GeometryOps): (r: StandardProperties)
      reads this
      requires Resolved()
      ensures Properties(r) == Invoke(ops, Delegate(), Call.GetStandardGMLProperties)
    {
      ops.standardProperties(geometry.value)
    }

    /**
     The reference's answer to any call, as written: calls with a geometry
     argument are answered by the argument itself, all others by the delegate.
     */
    function Forward(ops: GeometryOps, call: Call): (a: Answer)
      reads this
      requires Binary(call) || Resolved()
      ensures Binary(call) ==> a == Invoke(ops, call.other, call)
      ensures !Binary(call) ==> a == Invoke(ops, Delegate(), call)
    {
      match call
      case Contains(o) => Truth(Contains(ops, o))
      case Difference(o) => Shape(Difference(ops, o))
      case Distance(o) => Length(Distance(ops, o))
      case Equals(o) => Truth(Equals(ops, o))
      case GetBuffer(w) => Shape(GetBuffer(ops, w))
      case GetConvexHull => Shape(GetConvexHull(ops))
      case GetCoordinateDimension => Dimension(GetCoordinateDimension(ops))
      case GetCoordinateSystem => System(GetCoordinateSystem(ops))
      case GetEnvelope => Bounds(GetEnvelope(ops))
      case GetGeometryType => Kind(GetGeometryType(ops))
      case GetPrecision => Precision(GetPrecision(ops))
      case Intersection(o) => Shape(Intersection(ops, o))
      case Intersects(o) => Truth(Intersects(ops, o))
      case IsBeyond(o, w) => Truth(IsBeyond(ops, o, w))
      case IsWithin(o) => Truth(IsWithin(ops, o))
      case IsWithinDistance(o, w) => Truth(IsWithinDistance(ops, o, w))
      case Union(o) => Shape(Union(ops, o))
      case GetStandardGMLProperties => Properties(GetStandardGMLProperties(ops))
    }

    /**
     The intended forwarding, with the delegate as the receiver of every call.
     It agrees with `Forward` on every call without a geometry argument, and on
     a call with one exactly when the argument answers it as the delegate does.
     */
    function ForwardToDelegate(ops: GeometryOps, call: Call): (a: Answer)
      reads this
      requires Resolved()
      ensures !Binary(call) ==> a == Forward(ops, call)
      ensures Binary(call) ==> (a == Forward(ops, call) <==> Invoke(ops, Delegate(), call) == Invoke(ops, call.other, call))
    {
      Invoke(ops, geometry.value, call)
    }
  }

  /** The id read before and after a `resolve` is the same, whatever `resolve` does. */
  method ResolvePreservesId(ref: GeometryReference, g: Option<Geometry>) returns (before: string, after: string)
    requires ref.Valid()
    modifies ref
    ensures before == after && IsFragmentOf(ref.href, after)
  {
    before := ref.GetId();
    var _ := ref.Resolve(g);
    after := ref.GetId();
  }

  // ---------------------------------------------------------------------------
  // Forwarding properties
  // ---------------------------------------------------------------------------

  /** As written, a call with a geometry argument gets the same answer from every reference, resolved or not. */
  lemma BinaryIgnoresDelegate(r1: GeometryReference, r2: GeometryReference, ops: GeometryOps, call: Call)
    requires Binary(call)
    ensures r1.Forward(ops, call) == r2.Forward(ops, call)
    ensures r1.Forward(ops, call) == Invoke(ops, call.other, call)
  {
  }

  /** Two references to the same target answer every unary call alike. */
  lemma UnaryDependsOnlyOnDelegate(r1: GeometryReference, r2: GeometryReference, ops: GeometryOps, call: Call)
    requires r1.Resolved() && r2.Resolved() && r1.Delegate() == r2.Delegate()
    requires !Binary(call)
    ensures r1.Forward(ops, call) == r2.Forward(ops, call)
  {
  }

  /** Geometries answer `contains` by identity: a geometry contains only itself. */
  function IdentityOps(): (ops: GeometryOps)
    ensures forall a: Geometry, b: Geometry :: ops.contains(a, b) <==> a == b
  {
    GeometryOps(
      (a: Geometry, b: Geometry) => a == b,
      (a: Geometry, b: Geometry) => a,
      (a: Geometry, b: Geometry) => 0.0,
      (a: Geometry, b: Geometry) => a == b,
      (a: Geometry, w: Measure) => a,
      (a: Geometry) => a,
      (a: Geometry) => 2,
      (a: Geometry) => CRS(0),
      (a: Geometry) => Envelope(a.handle),
      (a: Geometry) => GeometryType(0),
      (a: Geometry) => PrecisionModel(0),
      (a: Geometry, b: Geometry) => a,
      (a: Geometry, b: Geometry) => a == b,
      (a: Geometry, b: Geometry, w: Measure) => a != b,
      (a: Geometry, b: Geometry) => a == b,
      (a: Geometry, b: Geometry, w: Measure) => a == b,
      (a: Geometry, b: Geometry) => a,
      (a: Geometry) => StandardProperties(0))
  }

  /**
   The shadowing breaks transparency: a reference resolved to one geometry,
   asked whether it contains a different one, answers true although its
   delegate answers false.
   */
  lemma ShadowingDefeatsDelegation(ref: GeometryReference, other: Geometry)
    requires ref.Resolved() && ref.Delegate() != other
    ensures ref.Forward(IdentityOps(), Call.Contains(other)) == Truth(true)
    ensures Invoke(IdentityOps(), ref.Delegate(), Call.Contains(other)) == Truth(false)
    ensures ref.ForwardToDelegate(IdentityOps(), Call.Contains(other)) != ref.Forward(IdentityOps(), Call.Contains(other))
  {
  }

  /**
   With the intended forwarding, a resolved reference asked a predicate about
   any geometry answers as its target would (the argument may be, for example,
   another reference's target).
   */
  lemma DelegationToTarget(ref: GeometryReference, ops: GeometryOps, other: Geometry)
    requires ref.Resolved()
    ensures ref.ForwardToDelegate(ops, Call.Contains(other)) == Truth(ops.contains(ref.Delegate(), other))
    ensures ref.ForwardToDelegate(ops, Call.Intersects(other)) == Truth(ops.intersects(ref.Delegate(), other))
    ensures ref.ForwardToDelegate(ops, Call.IsWithin(other)) == Truth(ops.isWithin(ref.Delegate(), other))
    ensures ref.ForwardToDelegate(ops, Call.Equals(other)) == Truth(ops.equals(ref.Delegate(), other))
  {
  }
}
