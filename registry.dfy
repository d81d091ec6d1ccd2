/** The composition registry: a dictionary from a base-image key to the ordered
    list of bitmaps (base first, then overlays) that make up its composed picture. */
module Registry {

  /** Loading state of a bitmap, as the image loader sets it. Only `Loaded` is
      distinguished by the registry; every other state means "not ready". */
  datatype LoadState = Unrequested | Loading | Loaded | Error

  /** A bitmap handle owned by the image loader. The loader fills in its size and
      moves its state to `Loaded` asynchronously; the registry only holds references. */
  class Bitmap {
    var width: nat
    var height: nat
    var loadingState: LoadState
  }

  datatype Option<T> = None | Some(value: T)

  /** The abstract result of compositing: a fresh raster of the given size on which
      `layers` were drawn at the origin, in sequence order (later layers on top). */
  datatype Composed = Composed(width: nat, height: nat, layers: seq<Bitmap>)

  /** The composed picture of a non-empty entry: sized to its base layer,
      every layer drawn in order. */
  function ComposedOf(entry: seq<Bitmap>): Composed
    reads entry
    requires entry != []
  {
    Composed(entry[0].width, entry[0].height, entry)
  }

  /** `Array.prototype.some(b => b._loadingState !== 'loaded')`. */
  function AnyNotLoaded(s: seq<Bitmap>): (r: bool)
    reads s
    ensures r <==> exists i :: 0 <= i < |s| && s[i].loadingState != Loaded
  {
    if s == [] then false
    else if s[0].loadingState != Loaded then true
    else AnyNotLoaded(s[1..])
  }

  ghost predicate NoEmptyEntry(m: map<string, seq<Bitmap>>)
  {
    forall key :: key in m ==> m[key] != []
  }

  /** Replacing one entry by a non-empty list keeps every entry non-empty. */
  lemma ReplaceKeepsNoEmptyEntry(m: map<string, seq<Bitmap>>, key: string, entry: seq<Bitmap>)
    requires NoEmptyEntry(m) && entry != []
    ensures NoEmptyEntry(m[key := entry])
  {
  }

  class ComposedBitmaps {
    var bitmaps: map<string, seq<Bitmap>>

    /** Every registered key has at least its base layer. `Clear` breaks this for
        one key and the trigger restores it at once by pushing the base. */
    ghost predicate Valid()
      reads this
    {
      NoEmptyEntry(bitmaps)
    }

    constructor ()
      ensures bitmaps == map[] && Valid()
    {
      bitmaps := map[];
    }

    /** Resets the entry of `key` to the empty list, registering the key if needed. */
    method Clear(key: string)
      modifies this
      ensures bitmaps == old(bitmaps)[key := []]
      ensures IsAllBitmapLoaded(key)
    {
      bitmaps := bitmaps[key := []];
    }

    /** Appends `bitmap` to the entry of `key`, creating the entry if absent. */
    method PushBitmap(key: string, bitmap: Bitmap)
      modifies this
      ensures bitmaps == old(bitmaps)[key := (if key in old(bitmaps) then old(bitmaps)[key] else []) + [bitmap]]
    {
      if key !in bitmaps {
        bitmaps := bitmaps[key := []];
      }
      bitmaps := bitmaps[key := bitmaps[key] + [bitmap]];
    }

    /** False for a key never registered; otherwise true iff no handle of the
        entry is in a state other than `Loaded` (so true for an empty entry). */
    function IsAllBitmapLoaded(key: string): (r: bool)
      reads this, if key in bitmaps then bitmaps[key] else []
      ensures r <==> key in bitmaps && forall i :: 0 <= i < |bitmaps[key]| ==> bitmaps[key][i].loadingState == Loaded
    {
      if key !in bitmaps then false
      else !AnyNotLoaded(bitmaps[key])
    }

    /** Composes the entry of `key`: `None` for an unregistered key, otherwise a raster
        sized to layer 0 with the base drawn first and layers 1.. drawn after it in order. */
    method Compose(key: string) returns (r: Option<Composed>)
      requires key in bitmaps ==> bitmaps[key] != []
      ensures r == None <==> key !in bitmaps
      ensures r.Some? ==> r.value.width == bitmaps[key][0].width && r.value.height == bitmaps[key][0].height
      ensures r.Some? ==> r.value.layers == bitmaps[key] && r.value == ComposedOf(bitmaps[key])
    {
      if key !in bitmaps {
        return None;
      }
      var entry := bitmaps[key];
      var baseBitmap := entry[0];
      // the base is blitted onto the fresh raster first
      var drawn := [baseBitmap];
      var additionalBitmaps := entry[1..];
      var i := 0;
      while i < |additionalBitmaps|
        invariant 0 <= i <= |additionalBitmaps|
        invariant drawn == [baseBitmap] + additionalBitmaps[..i]
      {
        drawn := drawn + [additionalBitmaps[i]];
        i := i + 1;
      }
      assert additionalBitmaps[..i] == additionalBitmaps;
      return Some(Composed(baseBitmap.width, baseBitmap.height, drawn));
    }
  }
}
