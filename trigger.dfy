/** `Game_System.composeImage`: turns the names of one composition command into
    registry mutations (clear the base key, push the base, push each overlay). */
module Trigger {
  import opened Registry
  import opened Names

  /** The registry key: the first name after variable expansion, without its
      delimiter pair and with its extension kept. */
  function CompositionKey(imageNames: seq<string>, lookup: string -> string): string
    requires imageNames != []
  {
    StripDelimiters(Substitute(imageNames[0], lookup))
  }

  /** The name handed to the loader for layer `i`: the key without its extension for
      the base, the expanded overlay name without its extension otherwise. */
  function LoadName(imageNames: seq<string>, lookup: string -> string, i: nat): string
    requires i < |imageNames|
  {
    if i == 0 then DropExtension(CompositionKey(imageNames, lookup))
    else DropExtension(Substitute(imageNames[i], lookup))
  }

  /** The entry a composition command registers: one loaded handle per name, in order. */
  function Layers(imageNames: seq<string>, lookup: string -> string, load: string -> Bitmap): seq<Bitmap>
  {
    seq<Bitmap>(|imageNames|, i requires 0 <= i < |imageNames| => load(LoadName(imageNames, lookup, i)))
  }

  /** Expands the variables of every name, derives the key, then clears the key and
      pushes the base handle followed by one handle per overlay, in order. The earlier
      entry of the key is replaced, never merged, and no other key changes. */
  method ComposeImage(registry: ComposedBitmaps, imageNames: seq<string>,
                      lookup: string -> string, load: string -> Bitmap)
    requires imageNames != []
    modifies registry
    ensures registry.bitmaps == old(registry.bitmaps)[CompositionKey(imageNames, lookup) := Layers(imageNames, lookup, load)]
    ensures old(registry.Valid()) ==> registry.Valid()
  {
    var baseImageName := CompositionKey(imageNames, lookup);
    ghost var layers := Layers(imageNames, lookup, load);
    ghost var before := registry.bitmaps;

    var bitmap := load(LoadName(imageNames, lookup, 0));
    registry.Clear(baseImageName);
    assert registry.bitmaps == before[baseImageName := []];
    registry.PushBitmap(baseImageName, bitmap);
    ClearThenPush(before, baseImageName, bitmap);
    assert layers[..1] == [bitmap];
    var i := 1;
    while i < |imageNames|
      invariant 1 <= i <= |imageNames|
      invariant registry.bitmaps == before[baseImageName := layers[..i]]
    {
      var overlay := load(LoadName(imageNames, lookup, i));
      registry.PushBitmap(baseImageName, overlay);
      PushAfterPrefix(before, baseImageName, layers[..i], overlay);
      assert layers[..i + 1] == layers[..i] + [overlay];
      i := i + 1;
    }
    assert layers[..i] == layers;
    if NoEmptyEntry(before) {
      ReplaceKeepsNoEmptyEntry(before, baseImageName, layers);
    }
  }

  lemma PushAfterPrefix(m: map<string, seq<Bitmap>>, key: string, prefix: seq<Bitmap>, bitmap: Bitmap)
    ensures var current := m[key := prefix];
            current[key := (if key in current then current[key] else []) + [bitmap]] == m[key := prefix + [bitmap]]
  {
  }

  lemma ClearThenPush(m: map<string, seq<Bitmap>>, key: string, bitmap: Bitmap)
    ensures var cleared := m[key := []];
            cleared[key := (if key in cleared then cleared[key] else []) + [bitmap]] == m[key := [bitmap]]
  {
    var cleared := m[key := []];
    assert cleared[key] + [bitmap] == [bitmap];
  }

  /** Issuing the command twice for the same base leaves exactly the second
      command's layers, whatever the variables and the loader gave the first time:
      the first command's handles do not survive. */
  lemma RecomposeReplaces(m: map<string, seq<Bitmap>>,
                          first: seq<string>, lookup1: string -> string, load1: string -> Bitmap,
                          second: seq<string>, lookup2: string -> string, load2: string -> Bitmap)
    requires first != [] && second != []
    requires CompositionKey(first, lookup1) == CompositionKey(second, lookup2)
    ensures m[CompositionKey(first, lookup1) := Layers(first, lookup1, load1)][CompositionKey(second, lookup2) := Layers(second, lookup2, load2)]
         == m[CompositionKey(second, lookup2) := Layers(second, lookup2, load2)]
  {
  }

  /** For a command whose first line is `<p.png>` (any delimiter pair, no variable
      token), the key is `p.png`, the name under which the display hook looks the
      picture `p` up, and the base is loaded as `p`, the plain picture's own name. */
  lemma KeyMatchesPictureName(open: char, picture: string, close: char, overlays: seq<string>,
                              lookup: string -> string)
    requires NoToken([open] + picture + ".png" + [close])
    ensures CompositionKey([[open] + picture + ".png" + [close]] + overlays, lookup) == picture + ".png"
    ensures LoadName([[open] + picture + ".png" + [close]] + overlays, lookup, 0) == picture
  {
    var first := [open] + picture + ".png" + [close];
    SubstituteNoToken(first, lookup);
    assert first == [open] + (picture + ".png") + [close];
    StripDelimitersRoundTrip(open, picture + ".png", close);
    DropExtensionRoundTrip(picture, ".png");
  }

  /** The documented command `<base.png>`, `a.png`, `b.png` registers under `base.png`
      and loads `base`, `a` and `b`, in that order. */
  lemma DocumentedCommandExample(lookup: string -> string)
    ensures CompositionKey(["<base.png>", "a.png", "b.png"], lookup) == "base.png"
    ensures LoadName(["<base.png>", "a.png", "b.png"], lookup, 0) == "base"
    ensures LoadName(["<base.png>", "a.png", "b.png"], lookup, 1) == "a"
    ensures LoadName(["<base.png>", "a.png", "b.png"], lookup, 2) == "b"
  {
    var names := ["<base.png>", "a.png", "b.png"];
    assert names[0] == ['<'] + "base" + ".png" + ['>'];
    NoBackslashNoToken(names[0]);
    KeyMatchesPictureName('<', "base", '>', names[1..], lookup);
    assert [names[0]] + names[1..] == names;
    PlainOverlayName("a", lookup);
    PlainOverlayName("b", lookup);
  }

  /** An overlay line `stem.png` without a backslash is loaded as `stem`. */
  lemma PlainOverlayName(stem: string, lookup: string -> string)
    requires '\\' !in stem
    ensures DropExtension(Substitute(stem + ".png", lookup)) == stem
  {
    assert forall c :: c in stem + ".png" ==> c in stem || c in ".png";
    NoBackslashNoToken(stem + ".png");
    SubstituteNoToken(stem + ".png", lookup);
    DropExtensionRoundTrip(stem, ".png");
  }
}
