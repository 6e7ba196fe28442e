/**
 * The asset caches (systems/AssetsManager.cpp): TextureManager::get and
 * AudioManager::get are the same memoizing lookup over a name-keyed table, so
 * one class models both. Loading is a call into the texture or audio
 * loader; whether it succeeds is a parameter.
 */
module Assets {
  import opened Wrappers

  /** A texture or an audio buffer: where it was loaded from and whether that worked. */
  class Asset {
    const path: string
    const loaded: bool

    constructor (path: string, loaded: bool)
      ensures this.path == path && this.loaded == loaded
    {
      this.path := path;
      this.loaded := loaded;
    }
  }

  /**
   * One get on the table: (result, table afterwards). made is the object a
   * miss creates; a null entry is None.
   */
  function GetSpec<A>(entries: map<string, Option<A>>, name: string, made: A): (Option<A>, map<string, Option<A>>)
  {
    if name in entries then (entries[name], entries)
    else if name == "" then (None, entries[name := None])
    else (Some(made), entries[name := Some(made)])
  }

  /**
   * The result is what the table holds for the name afterwards; entries are
   * never removed or replaced; a second get of the same name is a hit that
   * returns the same result and changes nothing; "" is always null.
   */
  lemma GetSpecLaws<A>(entries: map<string, Option<A>>, name: string, made: A, made2: A)
    ensures var (r, next) := GetSpec(entries, name, made);
            name in next && next[name] == r &&
            (forall k :: k in entries ==> k in next && next[k] == entries[k]) &&
            next.Keys == entries.Keys + {name} &&
            GetSpec(next, name, made2) == (r, next) &&
            (name == "" && "" !in entries ==> r == None) &&
            (name != "" && name !in entries ==> r == Some(made))
  {
  }

  class AssetManager {
    var directory: string
    var entries: map<string, Option<Asset>>

    constructor (directory: string)
      ensures this.directory == directory && entries == map[]
    {
      this.directory := directory;
      entries := map[];
    }

    /** get: a hit returns the cached entry without loading; a miss loads directory + name and caches it, even if loading fails. */
    method Get(name: string, loads: string -> bool) returns (r: Option<Asset>)
      modifies this
      ensures directory == old(directory)
      ensures name in old(entries) ==> r == old(entries)[name] && entries == old(entries)
      ensures name !in old(entries) && name == "" ==> r == None && entries == old(entries)[name := None]
      ensures name !in old(entries) && name != "" ==>
                r.Some? && fresh(r.value) && r.value.path == directory + name && r.value.loaded == loads(directory + name) &&
                (r, entries) == GetSpec(old(entries), name, r.value)
    {
      if name in entries {
        return entries[name];
      }
      if name == "" {
        entries := entries[name := None];
        return None;
      }
      var asset := new Asset(directory + name, loads(directory + name));
      entries := entries[name := Some(asset)];
      r := Some(asset);
    }
  }
}
