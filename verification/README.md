# GeometryReference: a verified model of deegree's GML forward geometry reference

deegree reads GML documents in which a geometry may be given by an
`xlink:href` whose fragment names an element that appears later in the same
document. `org.deegree.geometry.gml.refs.GeometryReference` stands in for that
geometry until the parser has built it. This project models that class in
Dafny and proves what it does:

- **Construction** (`GeometryReference.Create`): the reference string is kept
  as given, and the id is the text after its last `#`. A string without `#` is
  rejected with `MissingFragment`, which stands for the `IllegalArgumentException`;
  remote references are not supported. The scan is Java's `lastIndexOf`,
  written as a loop (`LastIndexOf`). Its own contract says it finds the last
  `#`; `Create` then links the text after that index to the recursive
  specification `Fragment` through `FragmentUnique`, and `FragmentOfJoin` proves the round trip
  `Fragment(prefix + "#" + id) == Some(id)` for every id without `#`. A URI
  fragment as defined in section 3.5 of RFC 3986 never contains `#`, so the id
  is exactly that fragment.
- **One-shot resolution** (`GeometryReference.Resolve`): the delegate slot
  (`geometry`, with `None` standing for `null`) is filled only while it is
  null. A second `resolve` fails with `AlreadyResolved`, which stands for the
  `RuntimeException`, and leaves the slot as it was. `resolve(null)` is
  accepted and leaves the reference unresolved. `ResolveSequence` states the
  whole protocol over any sequence of calls.
- **Forwarding**: each operation of the `Geometry` interface is modelled as a
  function of the class. The spatial semantics stay uninterpreted: a
  `GeometryOps` record says how concrete geometries answer, and
  `Geometries.Invoke` is the reference definition of "invoking an operation
  directly on a geometry". The operations without a geometry argument forward
  to the delegate and require it to be set, because the source dereferences it
  unchecked. In the operations with a geometry argument, the parameter is named
  `geometry` and shadows the field. So, as written, each of them asks the
  argument about itself (`arg.op(arg)`) and never reads the delegate. The model
  keeps this behaviour: these functions have no `reads` clause at all. It is
  recorded under "Findings".

Files: `geometry.dfy` (module `Geometries`: the geometry interface as uninterpreted
operations) and `geometry_reference.dfy` (module `GeometryRefs`: the reference).

## Model

| member | source | states |
|---|---|---|
| `GeometryRefs.GeometryReference.Create` | src/org/deegree/geometry/gml/refs/GeometryReference.java:63-72 | fails with MissingFragment(href) exactly when href has no '#'; otherwise a fresh reference that stores href unchanged, whose gid is the text after the last '#', and that is unresolved |
| `GeometryRefs.LastIndexOf` | src/org/deegree/geometry/gml/refs/GeometryReference.java:65 | returns -1 exactly when c does not occur; otherwise an index holding c with no c after it |
| `GeometryRefs.Fragment` | src/org/deegree/geometry/gml/refs/GeometryReference.java:65-71 | None exactly when href has no '#'; otherwise an id preceded by a '#', forming the end of href, and holding no '#' |
| `GeometryRefs.FragmentOfJoin` | src/org/deegree/geometry/gml/refs/GeometryReference.java:65-71 | round trip: for any prefix and any id without '#', the fragment of prefix + "#" + id is id |
| `GeometryRefs.FragmentUnique` | src/org/deegree/geometry/gml/refs/GeometryReference.java:65-71 | any id that follows a '#' at the end of href and holds no '#' is the fragment, so the id is uniquely determined |
| `GeometryRefs.GeometryReference.GetId` | src/org/deegree/geometry/gml/refs/GeometryReference.java:122-124 | the id is the text after the last '#' (href == prefix + "#" + id, no '#' in id); it reads no mutable state, so resolution cannot change it |
| `GeometryRefs.GeometryReference.Resolve` | src/org/deegree/geometry/gml/refs/GeometryReference.java:74-80 | succeeds exactly when the slot was null and then holds the argument (possibly null); otherwise fails with AlreadyResolved(href) and leaves the slot unchanged; href and gid are constant |
| `GeometryRefs.ResolveSequence` | src/org/deegree/geometry/gml/refs/GeometryReference.java:74-80 | over any sequence of resolve calls the slot ends as the geometry already there or the first non-null argument; call i fails exactly when a non-null geometry was set before it, so resolve(null) never blocks a later resolve |
| `GeometryRefs.ResolvePreservesId` | src/org/deegree/geometry/gml/refs/GeometryReference.java:59 | the id read before and after a resolve is the same fragment of href |
| `GeometryRefs.GeometryReference.Contains` | src/org/deegree/geometry/gml/refs/GeometryReference.java:82-84 | answers what the argument answers when asked contains of itself; reads nothing of the reference |
| `GeometryRefs.GeometryReference.Difference` | src/org/deegree/geometry/gml/refs/GeometryReference.java:86-88 | the argument's difference with itself; reads nothing of the reference |
| `GeometryRefs.GeometryReference.Distance` | src/org/deegree/geometry/gml/refs/GeometryReference.java:90-92 | the argument's distance to itself; reads nothing of the reference |
| `GeometryRefs.GeometryReference.Equals` | src/org/deegree/geometry/gml/refs/GeometryReference.java:94-96 | whether the argument equals itself; reads nothing of the reference |
| `GeometryRefs.GeometryReference.GetBuffer` | src/org/deegree/geometry/gml/refs/GeometryReference.java:98-100 | requires a delegate; the delegate's buffer for the same distance |
| `GeometryRefs.GeometryReference.GetConvexHull` | src/org/deegree/geometry/gml/refs/GeometryReference.java:102-104 | requires a delegate; the delegate's convex hull |
| `GeometryRefs.GeometryReference.GetCoordinateDimension` | src/org/deegree/geometry/gml/refs/GeometryReference.java:106-108 | requires a delegate; the delegate's coordinate dimension |
| `GeometryRefs.GeometryReference.GetCoordinateSystem` | src/org/deegree/geometry/gml/refs/GeometryReference.java:110-112 | requires a delegate; the delegate's coordinate system |
| `GeometryRefs.GeometryReference.GetEnvelope` | src/org/deegree/geometry/gml/refs/GeometryReference.java:114-116 | requires a delegate; the delegate's envelope |
| `GeometryRefs.GeometryReference.GetGeometryType` | src/org/deegree/geometry/gml/refs/GeometryReference.java:118-120 | requires a delegate; the delegate's geometry type |
| `GeometryRefs.GeometryReference.GetPrecision` | src/org/deegree/geometry/gml/refs/GeometryReference.java:126-128 | requires a delegate; the delegate's precision model |
| `GeometryRefs.GeometryReference.Intersection` | src/org/deegree/geometry/gml/refs/GeometryReference.java:130-132 | the argument's intersection with itself; reads nothing of the reference |
| `GeometryRefs.GeometryReference.Intersects` | src/org/deegree/geometry/gml/refs/GeometryReference.java:134-136 | whether the argument intersects itself; reads nothing of the reference |
| `GeometryRefs.GeometryReference.IsBeyond` | src/org/deegree/geometry/gml/refs/GeometryReference.java:138-140 | whether the argument is beyond itself by the distance; reads nothing of the reference |
| `GeometryRefs.GeometryReference.IsWithin` | src/org/deegree/geometry/gml/refs/GeometryReference.java:142-144 | whether the argument is within itself; reads nothing of the reference |
| `GeometryRefs.GeometryReference.IsWithinDistance` | src/org/deegree/geometry/gml/refs/GeometryReference.java:146-148 | whether the argument is within the distance of itself; reads nothing of the reference |
| `GeometryRefs.GeometryReference.Union` | src/org/deegree/geometry/gml/refs/GeometryReference.java:150-152 | the argument's union with itself; reads nothing of the reference |
| `GeometryRefs.GeometryReference.GetStandardGMLProperties` | src/org/deegree/geometry/gml/refs/GeometryReference.java:159-162 | requires a delegate; the delegate's standard GML properties |
| `GeometryRefs.GeometryReference.Forward` | src/org/deegree/geometry/gml/refs/GeometryReference.java:82-152 | as written: a call with a geometry argument is answered by the argument invoked on itself, every other call by the delegate |
| `GeometryRefs.BinaryIgnoresDelegate` | src/org/deegree/geometry/gml/refs/GeometryReference.java:82-96 | a call with a geometry argument gets the same answer from any two references, whatever their delegates or resolution state |
| `GeometryRefs.UnaryDependsOnlyOnDelegate` | src/org/deegree/geometry/gml/refs/GeometryReference.java:98-128 | two resolved references with the same delegate answer every call without a geometry argument alike |
| `GeometryRefs.ShadowingDefeatsDelegation` | src/org/deegree/geometry/gml/refs/GeometryReference.java:82-84 | counterexample: resolved to g, asked contains(h) with h != g under identity semantics, the reference answers true while its delegate answers false |
| `GeometryRefs.GeometryReference.ForwardToDelegate` | src/org/deegree/geometry/gml/refs/GeometryReference.java:82-152 | intended forwarding with the delegate as receiver; agrees with the as-written Forward on every unary call, and on a binary call exactly when the argument answers as the delegate does |
| `GeometryRefs.DelegationToTarget` | src/org/deegree/geometry/gml/refs/GeometryReference.java:82-96 | with intended forwarding, a resolved reference asked contains/intersects/isWithin/equals about any geometry (for example another reference's target) answers as its own target would |

## Findings

| source | as written | input that shows it | evidently intended | confidence | as-written member | corrected member |
|---|---|---|---|---|---|---|
| src/org/deegree/geometry/gml/refs/GeometryReference.java:82-152 | the parameter `geometry` shadows the delegate field, so `contains`, `difference`, `distance`, `equals`, `intersection`, `intersects`, `isBeyond`, `isWithin`, `isWithinDistance` and `union` evaluate `arg.op(arg)` | a reference resolved to geometry g, asked `contains(h)` for a geometry h other than g, where a geometry contains only itself: the reference answers true, its delegate answers false | `this.geometry.op(arg)`: the delegate is the receiver | high (the shadowing is certain from the text), not executed | `GeometryRefs.ShadowingDefeatsDelegation` on `GeometryRefs.GeometryReference.Forward` | `GeometryRefs.GeometryReference.ForwardToDelegate`, with `GeometryRefs.DelegationToTarget` |

The reference's own operations (`Contains` … `Union`, `Forward`) keep the
behaviour as written. The corrected forwarding sits beside them, so that the
difference between the two stays visible and is proved.

## Left out

- Unary operations on an unresolved reference (lines 98-128, 159-162): Java dereferences the null delegate and throws a `NullPointerException`; the model requires `Resolved()` instead of modelling that exception.
- A null `href`: Java throws a `NullPointerException` at line 65; the model's reference string is always a (possibly empty) string.
- A delegate that is itself a `GeometryReference`: a unary call would then be forwarded on to the inner reference, which fails if that one is unresolved. The model's delegate is always a concrete geometry.
- GeometryRefs.DelegationToTarget: states the intended forwarding for a concrete geometry argument only; a reference passed as the argument is not modelled, because `Call` carries only concrete geometries.

- `getJTSGeometry` (line 155): it returns a type of the JTS library, which is not part of this model.
- `setStandardGMLProperties` (lines 165-167): it changes the delegate object's internals, which this model does not represent. The reference's own fields would be unchanged.
- The semantics of the geometry operations: the `GeometryOps` record is a parameter, and `distance`'s `double` is a `real`, with no floating-point rounding.
- Null arguments to the binary operations (a `NullPointerException` in Java). Arguments are always concrete geometries.
- Arguments that are themselves `GeometryReference` objects. As written, `r.contains(r2)` calls `r2.contains(r2)`, which calls itself again without end. The model's arguments are concrete geometries, so this recursion is not represented.
- `href` is modelled as a constant: it is a non-final protected field, but nothing in the class assigns it after construction. A subclass reassigning it is not modelled.
- Remote (non-fragment) references. The source rejects them, and the model does too.
- The registry that maps ids to pending references, and the binder that resolves them: neither is in the class. The parser that creates and resolves references is not part of this model.
- `deegree-services/src/main/java/org/deegree/services/csw/exporthandling/DescribeRecordHandler.java`: this is the DescribeRecord handler of the catalogue service, which does network, classpath and XML stream I/O. It has no state or decision logic that can be stated apart from that I/O.
- Concurrency: the class is unsynchronised and meant for single-threaded use.
