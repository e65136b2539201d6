/**
 The part of the deegree `Geometry` interface that a geometry reference
 forwards. A concrete geometry is known only by its identity; what it answers
 to each operation is given by a `GeometryOps` record, so that the spatial
 semantics (predicates, algebra, floating-point distances) stay uninterpreted.
 */
module Geometries {

  /** A concrete geometry object, identified by a handle. */
  datatype Geometry = Geometry(handle: nat)

  /** A length with its unit of measure (`ValueWithUnit`). */
  datatype Measure = Measure(amount: real, uom: string)

  /** Opaque handles for the value objects the interface returns. */
  datatype CRS = CRS(handle: nat)
  datatype Envelope = Envelope(handle: nat)
  datatype GeometryType = GeometryType(code: nat)
  datatype PrecisionModel = PrecisionModel(handle: nat)
  datatype StandardProperties = StandardProperties(handle: nat)

  /**
   How concrete geometries answer the operations of the interface. Each entry
   takes the receiver first; binary operations take the argument second.
   A `double` result is modelled as a `real`.
   */
  datatype GeometryOps = GeometryOps(
    contains: (Geometry, Geometry) -> bool,
    difference: (Geometry, Geometry) -> Geometry,
    distance: (Geometry, Geometry) -> real,
    equals: (Geometry, Geometry) -> bool,
    buffer: (Geometry, Measure) -> Geometry,
    convexHull: Geometry -> Geometry,
    coordinateDimension: Geometry -> int,
    coordinateSystem: Geometry -> CRS,
    envelope: Geometry -> Envelope,
    geometryType: Geometry -> GeometryType,
    precision: Geometry -> PrecisionModel,
    intersection: (Geometry, Geometry) -> Geometry,
    intersects: (Geometry, Geometry) -> bool,
    isBeyond: (Geometry, Geometry, Measure) -> bool,
    isWithin: (Geometry, Geometry) -> bool,
    isWithinDistance: (Geometry, Geometry, Measure) -> bool,
    union: (Geometry, Geometry) -> Geometry,
    standardProperties: Geometry -> StandardProperties)

  /** One call of an interface operation, with its arguments (the receiver is not part of it). */
  datatype Call =
    | Contains(other: Geometry)
    | Difference(other: Geometry)
    | Distance(other: Geometry)
    | Equals(other: Geometry)
    | GetBuffer(width: Measure)
    | GetConvexHull
    | GetCoordinateDimension
    | GetCoordinateSystem
    | GetEnvelope
    | GetGeometryType
    | GetPrecision
    | Intersection(other: Geometry)
    | Intersects(other: Geometry)
    | IsBeyond(other: Geometry, width: Measure)
    | IsWithin(other: Geometry)
    | IsWithinDistance(other: Geometry, width: Measure)
    | Union(other: Geometry)
    | GetStandardGMLProperties

  /** Calls that take a geometry argument. */
  predicate Binary(c: Call) {
    c.Contains? || c.Difference? || c.Distance? || c.Equals? || c.Intersection? ||
    c.Intersects? || c.IsBeyond? || c.IsWithin? || c.IsWithinDistance? || c.Union?
  }

  /** The result of a call, tagged with the interface's return type. */
  datatype Answer =
    | Truth(b: bool)
    | Shape(g: Geometry)
    | Length(x: real)
    | Dimension(n: int)
    | System(crs: CRS)
    | Bounds(env: Envelope)
    | Kind(t: GeometryType)
    | Precision(pm: PrecisionModel)
    | Properties(props: StandardProperties)

  /** What `receiver` answers when `call` is invoked on it directly. */
  function Invoke(ops: GeometryOps, receiver: Geometry, call: Call): Answer {
    match call
    case Contains(o) => Truth(ops.contains(receiver, o))
    case Difference(o) => Shape(ops.difference(receiver, o))
    case Distance(o) => Length(ops.distance(receiver, o))
    case Equals(o) => Truth(ops.equals(receiver, o))
    case GetBuffer(w) => Shape(ops.buffer(receiver, w))
    case GetConvexHull => Shape(ops.convexHull(receiver))
    case GetCoordinateDimension => Dimension(ops.coordinateDimension(receiver))
    case GetCoordinateSystem => System(ops.coordinateSystem(receiver))
    case GetEnvelope => Bounds(ops.envelope(receiver))
    case GetGeometryType => Kind(ops.geometryType(receiver))
    case GetPrecision => Precision(ops.precision(receiver))
    case Intersection(o) => Shape(ops.intersection(receiver, o))
    case Intersects(o) => Truth(ops.intersects(receiver, o))
    case IsBeyond(o, w) => Truth(ops.isBeyond(receiver, o, w))
    case IsWithin(o) => Truth(ops.isWithin(receiver, o))
    case IsWithinDistance(o, w) => Truth(ops.isWithinDistance(receiver, o, w))
    case Union(o) => Shape(ops.union(receiver, o))
    case GetStandardGMLProperties => Properties(ops.standardProperties(receiver))
  }
}
