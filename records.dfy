/** Value records shared by the arrow lifecycle model of the globe (globe.js). */
module ArrowRecords {

  datatype Option<+T> = None | Some(value: T)

  /** A (longitude, latitude) pair in degrees, as the caller supplies it. */
  datatype GeoPoint = GeoPoint(lon: real, lat: real)

  /** What the caller of `updateArrows` supplies for one name: endpoints and score. */
  datatype ArrowSpec = ArrowSpec(src: GeoPoint, dst: GeoPoint, score: real)

  /** One (name, arrow) pair of the replacement object, in the object's key order. */
  datatype Entry = Entry(name: string, spec: ArrowSpec)

  /** A THREE.Mesh handle: `serial` stands for object identity, `name` for `mesh.name`. */
  datatype Mesh = Mesh(serial: nat, name: string)

  /** A live arrow: the caller's fields plus the ones the globe attaches to it. */
  datatype Arrow = Arrow(
    src: GeoPoint,
    dst: GeoPoint,
    score: real,
    animationPosition: real,
    animationScore: real,
    mousemapIndex: int,
    mesh: Mesh,
    mousemapMesh: Mesh)

  /** The set of names of a sequence of entries. */
  function Names(es: seq<Entry>): set<string>
  {
    set e | e in es :: e.name
  }

  /** Keys of a JavaScript object are distinct. */
  predicate DistinctNames(es: seq<Entry>)
  {
    forall j, k :: 0 <= j < k < |es| ==> es[j].name != es[k].name
  }
}
