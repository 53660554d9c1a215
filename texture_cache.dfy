/** `loadTexture`: a memoising map from paths to textures in front of the
    three.js `TextureLoader`. The loader is abstract: each call to it either
    yields a new texture or rejects, and the calls are logged. A texture is
    named by the position of the loader call that produced it. */
module TextureCache {
  import opened Wrappers

  /** A `Texture`, named by the loader call that made it. */
  type Texture = nat

  /** The rejection of `textureLoader.loadAsync(path)`. */
  datatype LoadError = LoadError(path: string)

  class TextureLoader {
    /** `textureCache`. */
    var cache: map<string, Texture>
    /** The paths handed to `loadAsync`, in call order. */
    var loads: seq<string>

    /** Every cached texture was produced by a loader call for its own
        path. */
    ghost predicate Valid()
      reads this
    {
      forall p :: p in cache ==> cache[p] < |loads| && loads[cache[p]] == p
    }

    constructor ()
      ensures Valid() && cache == map[] && loads == []
    {
      cache := map[];
      loads := [];
    }

    /** `loadTexture(path)`; `resolves` says whether the loader call, if one
        is made, yields a texture. A cached path is answered from the cache
        without calling the loader; otherwise the loader is called once and
        a texture it yields is cached under `path`, while a rejection leaves
        the cache as it was. */
    method LoadTexture(path: string, resolves: bool) returns (r: Result<Texture, LoadError>)
      requires Valid()
      modifies this
      ensures Valid()
      ensures path in old(cache) ==> r == Success(old(cache)[path]) && cache == old(cache) && loads == old(loads)
      ensures path !in old(cache) ==> loads == old(loads) + [path]
      ensures path !in old(cache) && resolves ==>
        && r == Success(|old(loads)|)
        && cache == old(cache)[path := r.value]
      ensures path !in old(cache) && !resolves ==> r == Failure(LoadError(path)) && cache == old(cache)
      ensures r.Success? ==> path in cache && cache[path] == r.value && loads[r.value] == path
      ensures forall p :: p in old(cache) ==> p in cache && cache[p] == old(cache)[p]
    {
      if path in cache {
        return Success(cache[path]);
      }
      var texture := |loads|;
      loads := loads + [path];
      if !resolves {
        return Failure(LoadError(path));
      }
      cache := cache[path := texture];
      r := Success(texture);
    }

    /** Two loads of the same path in a row return the same texture, and the
        second one makes no loader call. */
    method LoadTwice(path: string, resolves: bool) returns (first: Result<Texture, LoadError>, second: Result<Texture, LoadError>)
      requires Valid()
      modifies this
      ensures Valid()
      ensures first.Success? ==> second == first && |loads| <= |old(loads)| + 1
    {
      first := LoadTexture(path, resolves);
      second := LoadTexture(path, resolves);
    }
  }
}
