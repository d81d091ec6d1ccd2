/** `Sprite_Picture.loadBitmap` as the composer overrides it: a picture shows its
    composed bitmap once every layer registered under its name is loaded, and its
    plain image otherwise. */
module Picture {
  import opened Registry
  import opened Names
  import opened Trigger

  /** What a picture sprite currently displays. */
  datatype PictureBitmap = NoBitmap | ComposedPicture(composed: Composed) | PlainPicture(bitmap: Bitmap)

  /** The registry key under which the picture `name` is looked up. */
  function PictureKey(name: string): string
  {
    name + ".png"
  }

  /** A composition command whose first line is `<p.png>` (any delimiter pair, no
      variable token) registers its layers under the key the picture `p` looks up,
      and loads its base under the plain picture's own name `p`. */
  lemma CommandReachesPicture(m: map<string, seq<Bitmap>>, open: char, picture: string, close: char,
                              overlays: seq<string>, lookup: string -> string, load: string -> Bitmap)
    requires NoToken([open] + picture + ".png" + [close])
    ensures var command := [[open] + picture + ".png" + [close]] + overlays;
            CompositionKey(command, lookup) == PictureKey(picture) &&
            LoadName(command, lookup, 0) == picture &&
            m[CompositionKey(command, lookup) := Layers(command, lookup, load)][PictureKey(picture)]
              == Layers(command, lookup, load)
  {
    KeyMatchesPictureName(open, picture, close, overlays, lookup);
  }

  class SpritePicture {
    var pictureName: string
    var bitmap: PictureBitmap

    /** Resolves the bitmap of the picture: the composition of `pictureName.png` when
        the registry reports all its layers loaded, else `loadPicture(pictureName)`.
        Readiness is asked again on every call, so a picture shown before its layers
        finished loading switches to the composition on a later call. */
    method LoadBitmap(registry: ComposedBitmaps, loadPicture: string -> Bitmap)
      requires registry.Valid()
      modifies this
      ensures pictureName == old(pictureName)
      ensures bitmap.ComposedPicture? <==> registry.IsAllBitmapLoaded(PictureKey(pictureName))
      ensures bitmap.ComposedPicture? ==>
                bitmap.composed.layers == registry.bitmaps[PictureKey(pictureName)] &&
                bitmap.composed == ComposedOf(registry.bitmaps[PictureKey(pictureName)])
      ensures !bitmap.ComposedPicture? ==> bitmap == PlainPicture(loadPicture(pictureName))
    {
      if registry.IsAllBitmapLoaded(PictureKey(pictureName)) {
        var composed := registry.Compose(PictureKey(pictureName));
        bitmap := ComposedPicture(composed.value);
      } else {
        bitmap := PlainPicture(loadPicture(pictureName));
      }
    }
  }
}
