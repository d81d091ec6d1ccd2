/** `Game_Interpreter.command355` as the composer overrides it: a script command whose
    text is exactly the composition tag collects the following continuation lines and
    hands them to the trigger; any other script goes to the original handler. */
module Interpreter {
  import opened Registry
  import opened Trigger

  /** An event command: its code and its first parameter (the script line). */
  datatype Command = Command(code: int, text: string)

  /** Event code of a script continuation line. */
  const ContinuationCode: int := 655

  /** The only script text the composer intercepts. */
  const CompositionTag: string := "CBR-画像合成"

  /** How a call of `command355` ended: it returned a value, or composing threw a
      TypeError (an intercepted command with no continuation line has no base name). */
  datatype Completion = Returned(value: bool) | ThrewTypeError

  /** Who handled the script: the original `command355`, which is not part of this
      model, or the composer with the continuation lines it collected. */
  datatype Dispatch = Delegated | Intercepted(imageList: seq<string>)

  /** Number of consecutive continuation commands starting at position `from`. */
  function ContinuationRun(list: seq<Command>, from: nat): (n: nat)
    requires from <= |list|
    decreases |list| - from
    ensures from + n <= |list|
    ensures forall k :: from <= k < from + n ==> list[k].code == ContinuationCode
    ensures from + n < |list| ==> list[from + n].code != ContinuationCode
  {
    if from < |list| && list[from].code == ContinuationCode then 1 + ContinuationRun(list, from + 1)
    else 0
  }

  class GameInterpreter {
    var list: seq<Command>
    var index: nat

    /** The interpreter is positioned on a command of its list. */
    ghost predicate Valid()
      reads this
    {
      index < |list|
    }

    /** Code of the command after the current one, 0 past the end of the list. */
    function NextEventCode(): int
      reads this
    {
      if index + 1 < |list| then list[index + 1].code else 0
    }

    /** Runs the current script command (code 355). If its text is exactly the tag,
        advances past every immediately following continuation line, collecting their
        texts in order, and composes them; otherwise delegates with nothing changed.
        Returns true whenever it returns. */
    method Command355(registry: ComposedBitmaps, lookup: string -> string, load: string -> Bitmap)
      returns (completion: Completion, dispatch: Dispatch)
      requires Valid()
      modifies this, registry
      ensures Valid() && list == old(list)
      ensures completion.Returned? ==> completion.value
      ensures dispatch.Intercepted? <==> old(list[index].text) == CompositionTag
      ensures dispatch == Delegated ==>
                index == old(index) && registry.bitmaps == old(registry.bitmaps) && completion == Returned(true)
      ensures dispatch.Intercepted? ==>
                index == old(index) + ContinuationRun(list, old(index) + 1) &&
                |dispatch.imageList| == index - old(index) &&
                forall k :: 0 <= k < |dispatch.imageList| ==> dispatch.imageList[k] == list[old(index) + 1 + k].text
      ensures dispatch == Intercepted([]) ==>
                completion == ThrewTypeError && registry.bitmaps == old(registry.bitmaps)
      ensures dispatch.Intercepted? && dispatch.imageList != [] ==>
                completion == Returned(true) &&
                registry.bitmaps == old(registry.bitmaps)[CompositionKey(dispatch.imageList, lookup) := Layers(dispatch.imageList, lookup, load)]
      ensures old(registry.Valid()) ==> registry.Valid()
    {
      var key := list[index].text;
      if key == CompositionTag {
        var imageList: seq<string> := [];
        ghost var start := index;
        while NextEventCode() == ContinuationCode
          invariant start <= index < |list| && list == old(list)
          invariant forall k :: start < k <= index ==> list[k].code == ContinuationCode
          invariant |imageList| == index - start
          invariant forall k :: 0 <= k < |imageList| ==> imageList[k] == list[start + 1 + k].text
          invariant registry.bitmaps == old(registry.bitmaps)
          decreases |list| - index
        {
          index := index + 1;
          imageList := imageList + [list[index].text];
        }
        ghost var run := ContinuationRun(list, start + 1);
        assert index - start == run;
        if imageList == [] {
          completion := ThrewTypeError;
        } else {
          ComposeImage(registry, imageList, lookup, load);
          completion := Returned(true);
        }
        dispatch := Intercepted(imageList);
      } else {
        dispatch := Delegated;
        completion := Returned(true);
      }
    }
  }
}
