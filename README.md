# DarkPlasma ImageComposer — a Dafny model

This project models the RPG Maker MZ plugin `DarkPlasma_ImageComposer_mz.js`. The plugin composes a base picture with an ordered list of overlay pictures. An event script of the form

```
CBR-画像合成
<base.png>
overlay1.png
overlay2.png
```

registers the base and overlay bitmaps under the key `base.png`. From then on, whenever a picture named `base` resolves its bitmap, it shows the composition once every registered bitmap has finished loading, and the plain `base` picture until then.

The model has five modules, one per piece of the plugin:

- `Registry` (`registry.dfy`) holds the `ComposedBitmaps` class. It keeps a `map<string, seq<Bitmap>>` that `Clear` and `PushBitmap` update in place. `IsAllBitmapLoaded` is the readiness test. `Compose` builds its result with a drawing loop. `Bitmap` is a class because the image loader changes a bitmap's loading state and size after the registry already holds a reference to it. Readiness is therefore always computed from the bitmaps' current state. The composed raster is abstract: `Composed(width, height, layers)` records the size of the new raster and the bitmaps drawn on it, in drawing order.
- `Names` (`names.dfy`) holds the pure name arithmetic. `Slice` is JavaScript's `String.prototype.slice`, counted in characters rather than UTF-16 code units (see "Left out"). `StripDelimiters` is `slice(1, -1)` and `DropExtension` is `slice(0, -4)`. `Substitute` is a hand-written scanner for the global replacement of `\V[digits]` tokens.
- `Trigger` (`trigger.dfy`) holds `ComposeImage`, which is `Game_System.composeImage`. The key and the entry it registers are given by the functions `CompositionKey`, `LoadName` and `Layers`.
- `Interpreter` (`interpreter.dfy`) holds `GameInterpreter.Command355`, the overriding script-command handler. It walks the continuation lines (event code 655) with a loop that advances `index`.
- `Picture` (`picture.dfy`) holds `SpritePicture.LoadBitmap`, the overriding bitmap resolution of a picture sprite.

The collaborators the plugin calls are parameters of the model:

- the image loader `ImageManager.loadBitmap('img/pictures/', name, 0, true)` is `load: string -> Bitmap`;
- `ImageManager.loadPicture` is `loadPicture: string -> Bitmap`;
- the variable store `$gameVariables.value` is `lookup: string -> string`. It receives the digit text the regular expression captured.

Points where the model follows the code rather than the plugin's prose description:

- After `Clear(key)`, and before any push, `IsAllBitmapLoaded(key)` is **true**: `!some` over an empty array is true. Only a key that was never registered reports false.
- The extension is not recognised. `DropExtension` removes any last four characters.
- A first name shorter than two characters gives the empty key, because `slice` clamps. It does not fail.
- An intercepted command with no continuation line makes `composeImage` throw a TypeError (`shift()` of an empty array gives `undefined`). `Command355` reports this as `ThrewTypeError` instead of returning true.
- Every registered entry is non-empty (`ComposedBitmaps.Valid`) because `composeImage` pushes the base right after clearing. `ComposeImage` and `Command355` preserve this invariant. `LoadBitmap` relies on it, so `compose` never reads element 0 of an empty entry.

## Model

| member | source | states |
|---|---|---|
| `Registry.AnyNotLoaded` | DarkPlasma_ImageComposer_mz.js:84 | the `some` test is true iff some bitmap of the list is in a state other than loaded |
| `Registry.ComposedBitmaps.constructor` | DarkPlasma_ImageComposer_mz.js:55-57 | a new registry has no entries, so the every-entry-non-empty invariant holds |
| `Registry.ComposedBitmaps.Clear` | DarkPlasma_ImageComposer_mz.js:62-64 | the key's entry becomes the empty list and no other key changes; right after it the key reports ready (vacuous truth) |
| `Registry.ComposedBitmaps.PushBitmap` | DarkPlasma_ImageComposer_mz.js:70-75 | the bitmap is appended to the key's entry, the entry is created as `[bitmap]` when the key was absent, and no other key changes |
| `Registry.ComposedBitmaps.IsAllBitmapLoaded` | DarkPlasma_ImageComposer_mz.js:80-85 | false for a key never registered; otherwise true iff every bitmap of its entry is loaded, so true for an empty entry |
| `Registry.ComposedBitmaps.Compose` | DarkPlasma_ImageComposer_mz.js:91-104 | `None` iff the key is unregistered; otherwise a raster with the width and height of layer 0 on which the base and then layers 1.. were drawn in entry order |
| `Names.SliceOfDecomposition` | DarkPlasma_ImageComposer_mz.js:140 | `slice(i, -j)` of a name made of a prefix of length i, a middle part and a non-empty suffix of length j returns exactly the middle part |
| `Names.StripDelimiters` | DarkPlasma_ImageComposer_mz.js:140 | the key is the name without its first and last characters, with the extension kept; empty for names shorter than two characters |
| `Names.DropExtension` | DarkPlasma_ImageComposer_mz.js:143 | the load name is the name without its last four characters; empty for shorter names |
| `Names.StripDelimitersRoundTrip` | DarkPlasma_ImageComposer_mz.js:140 | wrapping a name in any delimiter pair and stripping it gives the name back |
| `Names.DropExtensionRoundTrip` | DarkPlasma_ImageComposer_mz.js:147 | appending any four-character extension and dropping it gives the stem back |
| `Names.DigitRunIsGreedy` | DarkPlasma_ImageComposer_mz.js:138 | the digit run captured for `(\d+)` is greedy: all its characters are digits and the character after it, if any, is not |
| `Names.SubstituteFromSuffix` | DarkPlasma_ImageComposer_mz.js:138 | the global replacement resumed at a position of the name gives the same text as the replacement of the suffix starting there |
| `Names.NoBackslashNoToken` | DarkPlasma_ImageComposer_mz.js:138 | a name without a backslash contains no `\V[digits]` token |
| `Names.SubstituteNoToken` | DarkPlasma_ImageComposer_mz.js:137-138 | a name with no `\V[digits]` token is left unchanged by the substitution |
| `Names.SubstituteFirstToken` | DarkPlasma_ImageComposer_mz.js:137-138 | the text before the first token is kept, the token becomes the value looked up for its digits, and the scan resumes after its `]` |
| `Names.SubstituteLeadingToken` | DarkPlasma_ImageComposer_mz.js:138 | a name that begins with `\V[d]` (d one or more digits) begins, after substitution, with the value of variable d |
| `Names.SubstituteVariableExample` | DarkPlasma_ImageComposer_mz.js:138 | `\V[7].png` with variable 7 holding `x` resolves to `x.png` |
| `Trigger.ComposeImage` | DarkPlasma_ImageComposer_mz.js:135-150 | the key's entry becomes exactly one loaded handle per name, base first and then the overlays in order, each loaded under its name without the extension; the earlier entry is replaced and no other key changes |
| `Trigger.RecomposeReplaces` | DarkPlasma_ImageComposer_mz.js:144-149 | two commands that resolve to the same key leave only the second command's layers, even when the variables and the loader differ between the two commands |
| `Trigger.KeyMatchesPictureName` | DarkPlasma_ImageComposer_mz.js:140-143 | a first line `<p.png>` registers under `p.png`, the key the picture `p` looks up, and loads the base as `p` |
| `Trigger.PlainOverlayName` | DarkPlasma_ImageComposer_mz.js:147 | an overlay line `stem.png` without a backslash is loaded as `stem` |
| `Trigger.DocumentedCommandExample` | DarkPlasma_ImageComposer_mz.js:135-149 | the command `<base.png>`, `a.png`, `b.png` registers under `base.png` and loads `base`, `a`, `b` in that order |
| `Picture.CommandReachesPicture` | DarkPlasma_ImageComposer_mz.js:140-153 | a command whose first line is `<p.png>` registers its layers under `PictureKey(p)`, the key the picture `p` looks up, and loads its base as `p` |
| `Interpreter.ContinuationRun` | DarkPlasma_ImageComposer_mz.js:117-120 | counts the consecutive code-655 commands at a position: all of them are 655 and the command after them is not, or the list ends |
| `Interpreter.GameInterpreter.Command355` | DarkPlasma_ImageComposer_mz.js:110-129 | only the exact text `CBR-画像合成` is intercepted; the index advances by exactly the number of following 655 lines, whose texts are collected in order and composed; any other text is delegated with index and registry unchanged; it returns true whenever it returns |
| `Picture.SpritePicture.LoadBitmap` | DarkPlasma_ImageComposer_mz.js:152-158 | the sprite shows the composition of `name.png` iff the registry reports that key ready, and `loadPicture(name)` otherwise |

## Left out

- Pixel compositing is not modelled: `blt`, `_context.drawImage` and `_baseTexture.update` are canvas and WebGL calls. A composition is the base size plus its ordered layers, not pixels.
- Asynchronous decoding inside the image loader is not modelled. The loader is the function `load`, and a bitmap's loading state and size are whatever the environment has set when readiness is asked. The loader's directory, hue and smoothing arguments are constant and are left to it.
- The plugin bootstrap (reading its own script name and `PluginManager.parameters`) is host I/O, and its result is unused.
- Prototype patching is not modelled. Delegation to the original `command355` is the outcome `Delegated`. What the original handler does (evaluating the script) is not part of this model.
- `$gameVariables` is the function `lookup`, applied to the captured digit text. How the host turns that text into a variable id, and the value into text, is not part of this model.
- `Registry.ComposedBitmaps.Compose`: requires a registered key's entry to be non-empty. On an empty entry the source throws when it reads the width of the missing base. Callers never reach that case, because every entry the trigger writes is non-empty.
- `Picture.SpritePicture.LoadBitmap`: requires the registry invariant that every entry is non-empty. The registry is only written by `composeImage`, which always pushes the base after clearing.
- The registry is a JavaScript object literal. A base key `__proto__` makes `clear` replace the registry object's prototype instead of creating an entry, and the pushes then go to that array. The model treats every key as an ordinary dictionary key.
- Names are sequences of Unicode scalar values, not of UTF-16 code units as in JavaScript. A name with a character outside the Basic Multilingual Plane among its first, last or last four positions gets a different key or load name in the model: JavaScript cuts such a character in half, the model keeps or drops it whole. Names of the documented form (`<…>` delimiters and a `.png` extension) are not affected.
- Only the first parameter of an event command is modelled (`Command.text`), since the code reads only `parameters[0]`.
