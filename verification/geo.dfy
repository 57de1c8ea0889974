/** The shared data contract of the pipeline stages: a GeoDataFrame seen as an
    ordered sequence of features plus an optional CRS, over an abstract
    geometry type whose only observable property is equality. */
module Geo {
  import opened Wrappers

  /** One row: its geometry and the rest of its attribute row. */
  datatype Feature<G, A> = Feature(geom: G, attrs: A)

  /** A GeoDataFrame. `crs` is the CRS as `crs.to_string()` prints it, or None
      when the frame has no CRS. */
  datatype Dataset<G, A> = Dataset(features: seq<Feature<G, A>>, crs: Option<string>)

  /** The geometry library as the pipeline uses it: shapely's `is_valid`,
      `make_valid`, the coordinate transformation behind `to_crs` (source CRS,
      target CRS, geometry), `geom_type`, and `canonical`, the text pyproj's
      `to_string()` prints for the CRS a given user string denotes (so
      "epsg:32636" may print as "EPSG:32636"). All are treated as opaque. */
  datatype GeometryOps<!G> = GeometryOps(
    isValid: G -> bool,
    makeValid: G -> G,
    project: (string, string, G) -> G,
    geomType: G -> string,
    canonical: string -> string)

  /** The dedup key of a feature: its geometry alone, attributes ignored. */
  function GeomOf<G, A>(f: Feature<G, A>): G
  {
    f.geom
  }

  /** The number of features whose geometry fails `isValid`: the sum of the
      boolean mask `~gdf.geometry.is_valid`. */
  function CountInvalid<G, A>(isValid: G -> bool, fs: seq<Feature<G, A>>): (n: nat)
    ensures n <= |fs|
    ensures n == 0 <==> forall i :: 0 <= i < |fs| ==> isValid(fs[i].geom)
  {
    if |fs| == 0 then 0
    else CountInvalid(isValid, fs[..|fs| - 1]) + (if isValid(fs[|fs| - 1].geom) then 0 else 1)
  }
}
