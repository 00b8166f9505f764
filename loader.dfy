/**
 * HjsonPropertySourceLoader itself: the extensions it claims and `load`,
 * which flattens the parsed document into a new LinkedHashMap and wraps a
 * non-empty result in a MapPropertySource.  Reading the resource and parsing
 * it are outside the model: `load` is given the parsed document.
 */
module Loader {
  import opened Wrappers
  import opened OrderedMaps
  import opened LinkedHashMaps
  import opened HjsonValues
  import opened Flattener
  import opened FlattenerProperties

  /** The file extensions the loader supports, without the '.'. */
  const FileExtensions: seq<string> := ["hjson"]

  /** `new MapPropertySource(name, result)`: a named source over the flattened map. */
  datatype PropertySource = MapPropertySource(name: string, properties: OrderedMap<Key, string>)

  /**
   * `load(name, resource, profile)`: no source (Java `null`) when a profile is
   * asked for or when the document has no leaf; otherwise a source named
   * `name` holding exactly the flattened document.
   */
  method Load(name: string, document: Value, profile: Option<string>) returns (source: Option<PropertySource>)
    ensures profile.Some? ==> source == None
    ensures profile == None ==> (source.Some? <==> LeafCount(document) > 0)
    ensures source.Some? ==> source.value == MapPropertySource(name, Flatten(document))
  {
    source := None;
    if profile == None {
      var result := new LinkedHashMap<Key, string>();
      BuildFlattenedMap(result, document, None);
      var empty := result.IsEmpty();
      if !empty {
        source := Some(MapPropertySource(name, result.Model()));
      }
      FlattenEmpty(document);
    }
  }
}
