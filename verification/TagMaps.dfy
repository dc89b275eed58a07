/** A Go `map[string]string` as an object that messages point to. */
module TagMaps {
  import opened GoInts
  import opened Schemas

  class TagMap {
    var entries: map<bytes, bytes>

    constructor ()
      ensures entries == map[]
    {
      entries := map[];
    }

    method Put(key: bytes, value: bytes)
      modifies this
      ensures entries == old(entries)[key := value]
    {
      entries := entries[key := value];
    }

    /** The entries of a map that may be nil: ranging over a nil map yields none. */
    static function Of(tags: TagMap?): map<bytes, bytes>
      reads tags
    {
      if tags == null then map[] else tags.entries
    }

    /** The entries of a map, told apart from a nil map. */
    static ghost function Contents(tags: TagMap?): Option<map<bytes, bytes>>
      reads tags
    {
      if tags == null then None else Some(tags.entries)
    }

    /** The loop that copies a map into a new one, in whatever order the entries come. */
    static method Copied(src: TagMap) returns (tags: TagMap)
      ensures fresh(tags) && tags.entries == old(src.entries)
    {
      tags := new TagMap();
      var left := src.entries.Keys;
      while left != {}
        invariant left <= src.entries.Keys
        invariant fresh(tags) && src.entries == old(src.entries)
        invariant tags.entries.Keys == src.entries.Keys - left
        invariant forall k :: k in tags.entries.Keys ==> tags.entries[k] == src.entries[k]
      {
        var k :| k in left;
        tags.Put(k, src.entries[k]);
        left := left - {k};
      }
    }
  }
}
