/**
 * The scene store of the editor (the `Editor` component of
 * src/js/components/Editor/Editor.tsx): the element registry, the sparse keyframe timeline,
 * the active frame and element, the rendered per-frame lists, and the playback flags.
 *
 * Every state operation is a method of the class `Editor`. The ones that end in
 * `updateScene` recompute the rendered lists with `InterpolateElementsStates`, so they keep
 * `Rendered()`; all of them keep the frame/registry invariant `Valid()`.
 */
module Editor {
  import opened Wrappers
  import opened Types
  import opened EditorHelpers

  /** Length of the animation, in seconds. */
  const AnimationSeconds: real := 5.0
  /** Duration of one frame, in seconds. */
  const AnimationFrameSeconds: real := 0.2
  /** `animationFramesCount`: the number of timeline frames. */
  const FramesCount: int := (AnimationSeconds / AnimationFrameSeconds).Floor

  const EffectsCategory: string := "effects"
  const SpeechCategory: string := "speech"
  /** The placeholder text of a new speech element. */
  const DefaultSpeechText: string := "Текст"

  // ---------------------------------------------------------------------------------------
  // Values the operations compute

  /** The element a toolbox click creates: the defaults of `onToolboxItemClick`. */
  function NewElement(id: string, image: string, category: string): (r: Element)
    ensures r.id == id && r.category == category && r.image == Some(image)
    ensures r.animationSpeed == (if category == EffectsCategory then 1.0 else 0.0)
    ensures r.text != [] <==> category == SpeechCategory
    ensures r.position == Vec(0.0, 0.0) && r.scale == Vec(1.0, 1.0) && r.rotation == 0.0
    ensures r.width == 10.0 && r.height == 10.0 && r.repeatX == 1.0 && r.repeatY == 1.0
    ensures r.templateId.None? && r.speech.None? && r.lastFrameIndex.None?
  {
    Element(id, category, Some(image), None, 10.0, 10.0, Vec(0.0, 0.0), Vec(1.0, 1.0), 0.0,
            if category == EffectsCategory then 1.0 else 0.0, 1.0, 1.0,
            if category == SpeechCategory then DefaultSpeechText else "", None, None)
  }

  /**
   * The intended result of `removeElementFromScene` on the registry: the entry `findIndex`
   * locates is cut out, and an id that is not registered leaves the registry as it is.
   */
  function RegistryWithout(s: seq<Element>, id: string): (r: seq<Element>)
    ensures |r| == if id in Ids(s) then |s| - 1 else |s|
    ensures forall x :: x in r ==> x in s
  {
    var i := FindIndex(s, id);
    if i < 0 then s else s[..i] + s[i + 1..]
  }

  /** `Array.prototype.slice(start, end)`: negative bounds count from the end, all are clamped. */
  function JsSlice(s: seq<Element>, start: int, end: int): (r: seq<Element>)
    ensures |r| <= |s|
  {
    var n := |s|;
    var b := if start < 0 then (if n + start < 0 then 0 else n + start) else (if start < n then start else n);
    var e := if end < 0 then (if n + end < 0 then 0 else n + end) else (if end < n then end else n);
    if b < e then s[b..e] else []
  }

  /** `sceneElements.slice(0, index).concat(sceneElements.slice(index + 1))`, as written. */
  function SpliceAsWritten(s: seq<Element>, index: int): seq<Element> {
    JsSlice(s, 0, index) + JsSlice(s, index + 1, |s|)
  }

  /** Props an edit form submits: the effect settings, or the speech payload. */
  datatype Props = Props(animationSpeed: Option<real>, repeatX: Option<real>, repeatY: Option<real>,
                         speech: Option<Speech>)

  /** `{ ...e, ...props }`: every prop that is present replaces the field of the same name. */
  function Merge(e: Element, p: Props): (r: Element)
    ensures r.id == e.id && r.category == e.category && r.image == e.image && r.templateId == e.templateId
    ensures Geometry(r) == Geometry(e) && r.lastFrameIndex == e.lastFrameIndex && r.text == e.text
    ensures r.animationSpeed == (if p.animationSpeed.Some? then p.animationSpeed.value else e.animationSpeed)
    ensures r.repeatX == (if p.repeatX.Some? then p.repeatX.value else e.repeatX)
    ensures r.repeatY == (if p.repeatY.Some? then p.repeatY.value else e.repeatY)
    ensures r.speech == (if p.speech.Some? then p.speech else e.speech)
  {
    e.(animationSpeed := if p.animationSpeed.Some? then p.animationSpeed.value else e.animationSpeed,
       repeatX := if p.repeatX.Some? then p.repeatX.value else e.repeatX,
       repeatY := if p.repeatY.Some? then p.repeatY.value else e.repeatY,
       speech := if p.speech.Some? then p.speech else e.speech)
  }

  /**
   * The `frames.map` of `updateActiveElement`: the keyframes of `id` get the props merged
   * in; no keyframe is created or dropped and no other key changes.
   */
  function MergeIntoFrames(frames: seq<Frame>, id: string, p: Props): (r: seq<Frame>)
    ensures |r| == |frames|
    ensures forall f :: 0 <= f < |frames| ==> r[f].Keys == frames[f].Keys
    ensures forall f :: 0 <= f < |frames| && id in frames[f] ==> r[f][id] == Merge(frames[f][id], p)
    ensures forall f, k :: 0 <= f < |frames| && k in frames[f] && k != id ==> r[f][k] == frames[f][k]
  {
    seq(|frames|, f requires 0 <= f < |frames| =>
      if id in frames[f] then frames[f][id := Merge(frames[f][id], p)] else frames[f])
  }

  /** The timeline with `id` deleted from every frame. */
  function DropKey(frames: seq<Frame>, id: string): (r: seq<Frame>)
    ensures |r| == |frames|
    ensures forall f :: 0 <= f < |frames| ==> id !in r[f] && r[f].Keys == frames[f].Keys - {id}
    ensures forall f, k :: 0 <= f < |frames| && k in r[f] ==> r[f][k] == frames[f][k]
  {
    seq(|frames|, f requires 0 <= f < |frames| => frames[f] - {id})
  }

  /**
   * The element `addElementToFrame` copies into the keyframe: its rendered pose in that
   * frame if it is shown there, else its registry entry, else nothing.
   */
  function KeyframeSource(shown: seq<Element>, registry: seq<Element>, id: string): (r: Option<Element>)
    ensures r.Some? <==> id in Ids(shown) || id in Ids(registry)
    ensures r.Some? ==> r.value.id == id
    ensures id in Ids(shown) ==> r == Find(shown, id)
    ensures id !in Ids(shown) ==> r == Find(registry, id)
  {
    var fromShown := Find(shown, id);
    if fromShown.Some? then fromShown else Find(registry, id)
  }

  /** A keyframe value as `addElementToFrame` writes it: a copy of an element, or `{}`. */
  datatype Written = Copy(e: Element) | EmptyObject

  /**
   * The frame `addElementToFrame` writes, as written: `id` is always keyed, holding a copy
   * of what the lookup found, or `{}` (the spread of `undefined`) when it found nothing.
   */
  function FrameAfterAddAsWritten(frame: Frame, shown: seq<Element>, registry: seq<Element>, id: string): (r: map<string, Written>)
    ensures r.Keys == frame.Keys + {id}
    ensures r[id] == EmptyObject <==> id !in Ids(shown) && id !in Ids(registry)
    ensures forall k :: k in frame && k != id ==> r[k] == Copy(frame[k])
  {
    var src := KeyframeSource(shown, registry, id);
    map k | k in frame.Keys + {id} :: if k == id then (if src.Some? then Copy(src.value) else EmptyObject) else Copy(frame[k])
  }

  /** The registry with the entries at `i` and `j` exchanged. */
  function Swap(s: seq<Element>, i: nat, j: nat): (r: seq<Element>)
    requires i < |s| && j < |s|
    ensures |r| == |s| && r[i] == s[j] && r[j] == s[i]
    ensures forall k :: 0 <= k < |s| && k != i && k != j ==> r[k] == s[k]
  {
    s[i := s[j]][j := s[i]]
  }

  /** The frame the playback moves to: back to 0 from the last frame (or beyond), else the next one. */
  function NextFrameIndex(active: int, count: int): int {
    if active >= count - 1 then 0 else active + 1
  }

  /** A frame/registry layout in which every keyframe is stored under its element's id. */
  ghost predicate KeyedById(frames: seq<Frame>) {
    forall f, k :: 0 <= f < |frames| && k in frames[f] ==> frames[f][k].id == k
  }

  /** Every key of every frame names a registered element. */
  ghost predicate Registered(frames: seq<Frame>, registry: seq<Element>) {
    forall f, k :: 0 <= f < |frames| && k in frames[f] ==> k in Ids(registry)
  }

  // ---------------------------------------------------------------------------------------
  // The component

  class Editor {
    var activeSceneElementId: Option<string>
    var activeFrameIndex: int
    var frames: seq<Frame>
    var isElementEditing: bool
    var playing: bool
    var recording: bool
    var sceneElements: seq<Element>
    var screenElementsByFrames: seq<seq<Element>>
    /** A playback tick is scheduled (`playTimeoutId` holds a live timeout). */
    var tickScheduled: bool
    /** The `recording` flag the scheduled tick captured when it was created. */
    var tickRecording: bool
    /** How many times the recording has been finished (`saveRecord`). */
    var recordsSaved: nat
    /** The template catalog the rendered lists are resolved against. */
    const templates: map<string, Template>

    /** The frame/registry consistency invariant. */
    ghost predicate Valid()
      reads this
    {
      && |frames| == FramesCount
      && |screenElementsByFrames| == |frames|
      && 0 <= activeFrameIndex < |frames|
      && Distinct(Ids(sceneElements))
      && KeyedById(frames)
      && Registered(frames, sceneElements)
    }

    /** The rendered lists are those of the current registry and timeline. */
    ghost predicate Rendered()
      reads this
    {
      screenElementsByFrames == Resolve(sceneElements, frames, templates)
    }

    /** The initial state: 25 empty frames, 25 empty rendered lists, nothing selected or playing. */
    constructor(catalog: map<string, Template>)
      ensures Valid() && Rendered()
      ensures templates == catalog
      ensures activeSceneElementId.None? && activeFrameIndex == 0
      ensures frames == seq(25, _ => map[]) && screenElementsByFrames == seq(25, _ => [])
      ensures sceneElements == [] && !isElementEditing && !playing && !recording
      ensures !tickScheduled && recordsSaved == 0
    {
      templates := catalog;
      activeSceneElementId := None;
      activeFrameIndex := 0;
      frames := seq(FramesCount, _ => map[]);
      isElementEditing := false;
      playing := false;
      recording := false;
      sceneElements := [];
      screenElementsByFrames := seq(FramesCount, _ => []);
      tickScheduled := false;
      tickRecording := false;
      recordsSaved := 0;
      new;
      assert Resolve([], frames, templates) == screenElementsByFrames;
    }

    /** `calculateScreenElements`: re-renders the timeline. */
    method CalculateScreenElements()
      requires |frames| == |screenElementsByFrames|
      modifies this
      ensures screenElementsByFrames == Resolve(sceneElements, frames, templates)
      ensures |screenElementsByFrames| == |frames|
      ensures activeSceneElementId == old(activeSceneElementId) && activeFrameIndex == old(activeFrameIndex)
      ensures frames == old(frames) && sceneElements == old(sceneElements)
      ensures isElementEditing == old(isElementEditing) && playing == old(playing) && recording == old(recording)
      ensures tickScheduled == old(tickScheduled) && tickRecording == old(tickRecording)
      ensures recordsSaved == old(recordsSaved)
    {
      screenElementsByFrames := InterpolateElementsStates(sceneElements, frames, templates);
    }

    /**
     * `onToolboxItemClick(image, category)`: registers a new element under the fresh id the
     * `uuid()` call produced and gives it a keyframe at the active frame.
     */
    method OnToolboxItemClick(image: string, category: string, id: string)
      requires Valid() && Rendered()
      requires id !in Ids(sceneElements)
      modifies this
      ensures Valid() && Rendered()
      ensures sceneElements == old(sceneElements) + [NewElement(id, image, category)]
      ensures frames == old(frames)[activeFrameIndex := old(frames)[activeFrameIndex][id := NewElement(id, image, category)]]
      ensures activeSceneElementId == old(activeSceneElementId) && activeFrameIndex == old(activeFrameIndex)
      ensures isElementEditing == old(isElementEditing) && playing == old(playing) && recording == old(recording)
      ensures tickScheduled == old(tickScheduled) && tickRecording == old(tickRecording)
      ensures recordsSaved == old(recordsSaved)
    {
      var element := NewElement(id, image, category);
      RenderedIdsRegistered(sceneElements, frames, templates, activeFrameIndex, id);
      AddScreenElement(element);
    }

    /**
     * `addScreenElement(element)`: appends `element` to the registry, then (in the
     * `setState` callback, before any re-render) adds it to the active frame.
     */
    method AddScreenElement(element: Element)
      requires Valid()
      requires element.id !in Ids(sceneElements)
      requires element.id !in Ids(screenElementsByFrames[activeFrameIndex])
      modifies this
      ensures Valid() && Rendered()
      ensures sceneElements == old(sceneElements) + [element]
      ensures frames == old(frames)[activeFrameIndex := old(frames)[activeFrameIndex][element.id := element]]
      ensures activeSceneElementId == old(activeSceneElementId) && activeFrameIndex == old(activeFrameIndex)
      ensures isElementEditing == old(isElementEditing) && playing == old(playing) && recording == old(recording)
      ensures tickScheduled == old(tickScheduled) && tickRecording == old(tickRecording)
      ensures recordsSaved == old(recordsSaved)
    {
      var frameIndex := activeFrameIndex;
      ghost var before := sceneElements;
      assert forall j :: 0 <= j < |before| ==> before[j].id != element.id by {
        forall j | 0 <= j < |before| ensures before[j].id != element.id {
          assert Ids(before)[j] == before[j].id;
        }
      }
      IdsAppend(sceneElements, [element]);
      sceneElements := sceneElements + [element];
      assert Distinct(Ids(sceneElements));
      assert Find(sceneElements, element.id) == Some(element) by {
        var r := FindIndex(sceneElements, element.id);
        assert sceneElements[|before|] == element;
        assert r >= 0 && sceneElements[r].id == element.id;
        assert r == |before|;
      }
      AddElementToFrame(element.id, frameIndex);
    }

    /**
     * `addElementToFrame(id, frameIndex)`: writes a keyframe for `id` at `frameIndex`,
     * copied from its rendered pose there or else from its registry entry. An id found in
     * neither leaves the timeline as it is.
     */
    method AddElementToFrame(id: string, frameIndex: int)
      requires Valid() && 0 <= frameIndex < |frames|
      requires id in Ids(screenElementsByFrames[frameIndex]) ==> id in Ids(sceneElements)
      modifies this
      ensures Valid() && Rendered()
      ensures var src := KeyframeSource(old(screenElementsByFrames)[frameIndex], old(sceneElements), id);
        frames == if src.Some? then old(frames)[frameIndex := old(frames)[frameIndex][id := src.value]] else old(frames)
      ensures activeSceneElementId == old(activeSceneElementId) && activeFrameIndex == old(activeFrameIndex)
      ensures sceneElements == old(sceneElements) && isElementEditing == old(isElementEditing)
      ensures playing == old(playing) && recording == old(recording)
      ensures tickScheduled == old(tickScheduled) && tickRecording == old(tickRecording)
      ensures recordsSaved == old(recordsSaved)
    {
      var element := KeyframeSource(screenElementsByFrames[frameIndex], sceneElements, id);
      if element.Some? {
        frames := frames[frameIndex := frames[frameIndex][id := element.value]];
      }
      CalculateScreenElements();
    }

    /** `removeElementFromFrame(id, frameIndex)`: deletes the keyframe of `id` at `frameIndex` only. */
    method RemoveElementFromFrame(id: string, frameIndex: int)
      requires Valid() && 0 <= frameIndex < |frames|
      modifies this
      ensures Valid() && Rendered()
      ensures frames == old(frames)[frameIndex := old(frames)[frameIndex] - {id}]
      ensures activeSceneElementId == old(activeSceneElementId) && activeFrameIndex == old(activeFrameIndex)
      ensures sceneElements == old(sceneElements) && isElementEditing == old(isElementEditing)
      ensures playing == old(playing) && recording == old(recording)
      ensures tickScheduled == old(tickScheduled) && tickRecording == old(tickRecording)
      ensures recordsSaved == old(recordsSaved)
    {
      frames := frames[frameIndex := frames[frameIndex] - {id}];
      CalculateScreenElements();
    }

    /**
     * `onFrameRightClick(frameIndex)`: without an active element (`null` or the empty
     * string) nothing happens; otherwise the active element's keyframe at `frameIndex` is
     * removed when present and added when absent.
     */
    method OnFrameRightClick(frameIndex: int)
      requires Valid() && Rendered() && 0 <= frameIndex < |frames|
      modifies this
      ensures Valid() && Rendered()
      ensures old(activeSceneElementId).None? || old(activeSceneElementId) == Some("") ==> frames == old(frames)
      ensures old(activeSceneElementId).Some? && old(activeSceneElementId) != Some("") ==>
        var id := old(activeSceneElementId).value;
        if id in old(frames)[frameIndex] then frames == old(frames)[frameIndex := old(frames)[frameIndex] - {id}]
        else if id in Ids(old(sceneElements)) then
          frames == old(frames)[frameIndex := old(frames)[frameIndex][id :=
            KeyframeSource(old(screenElementsByFrames)[frameIndex], old(sceneElements), id).value]]
        else frames == old(frames)
      ensures forall f :: 0 <= f < |frames| && f != frameIndex ==> frames[f] == old(frames)[f]
      ensures activeSceneElementId == old(activeSceneElementId) && activeFrameIndex == old(activeFrameIndex)
      ensures sceneElements == old(sceneElements) && isElementEditing == old(isElementEditing)
      ensures playing == old(playing) && recording == old(recording)
      ensures tickScheduled == old(tickScheduled) && tickRecording == old(tickRecording)
      ensures recordsSaved == old(recordsSaved)
    {
      if activeSceneElementId.None? || activeSceneElementId.value == "" {
        return;
      }
      var id := activeSceneElementId.value;
      if id in frames[frameIndex] {
        RemoveElementFromFrame(id, frameIndex);
      } else {
        RenderedIdsRegistered(sceneElements, frames, templates, frameIndex, id);
        AddElementToFrame(id, frameIndex);
      }
    }

    /**
     * `removeElementFromScene(id)`, with the registry splice corrected to leave the
     * registry as it is when `id` is not registered: the registry loses the entry of `id`
     * and every frame loses the key `id`.
     */
    method RemoveElementFromScene(id: string)
      requires Valid()
      modifies this
      ensures Valid() && Rendered()
      ensures sceneElements == RegistryWithout(old(sceneElements), id)
      ensures frames == DropKey(old(frames), id)
      ensures activeSceneElementId == old(activeSceneElementId) && activeFrameIndex == old(activeFrameIndex)
      ensures isElementEditing == old(isElementEditing) && playing == old(playing) && recording == old(recording)
      ensures tickScheduled == old(tickScheduled) && tickRecording == old(tickRecording)
      ensures recordsSaved == old(recordsSaved)
    {
      var index := FindIndex(sceneElements, id);
      var newSceneElements := sceneElements;
      if index >= 0 {
        newSceneElements := sceneElements[..index] + sceneElements[index + 1..];
      }
      var newFrames := frames;
      var f := 0;
      while f < |newFrames|
        invariant 0 <= f <= |newFrames| == |frames|
        invariant forall g :: 0 <= g < |frames| ==> newFrames[g] == if g < f then frames[g] - {id} else frames[g]
      {
        newFrames := newFrames[f := frames[f] - {id}];
        f := f + 1;
      }
      assert newFrames == DropKey(frames, id);
      WithoutKeepsInvariant(sceneElements, frames, id);
      frames := newFrames;
      sceneElements := newSceneElements;
      CalculateScreenElements();
    }

    /**
     * `updateScreenElement(element)`: stores `element` as the keyframe of its id at the
     * active frame and makes it the active element.
     */
    method UpdateScreenElement(element: Element)
      requires Valid()
      requires element.id in Ids(sceneElements)
      modifies this
      ensures Valid() && Rendered()
      ensures frames == old(frames)[old(activeFrameIndex) := old(frames)[old(activeFrameIndex)][element.id := element]]
      ensures activeSceneElementId == Some(element.id) && activeFrameIndex == old(activeFrameIndex)
      ensures sceneElements == old(sceneElements) && isElementEditing == old(isElementEditing)
      ensures playing == old(playing) && recording == old(recording)
      ensures tickScheduled == old(tickScheduled) && tickRecording == old(tickRecording)
      ensures recordsSaved == old(recordsSaved)
    {
      frames := frames[activeFrameIndex := frames[activeFrameIndex][element.id := element]];
      activeSceneElementId := Some(element.id);
      CalculateScreenElements();
    }

    /**
     * `updateActiveElement(props)`: when the active element is registered, merges the
     * props into its registry entry and into each of its keyframes and ends the editing;
     * otherwise nothing changes.
     */
    method UpdateActiveElement(props: Props)
      requires Valid() && Rendered()
      modifies this
      ensures Valid() && Rendered()
      ensures var index := if old(activeSceneElementId).Some? then FindIndex(old(sceneElements), old(activeSceneElementId).value) else -1;
        if index < 0 then
          frames == old(frames) && sceneElements == old(sceneElements) && isElementEditing == old(isElementEditing)
        else
          && sceneElements == old(sceneElements)[index := Merge(old(sceneElements)[index], props)]
          && frames == MergeIntoFrames(old(frames), old(activeSceneElementId).value, props)
          && !isElementEditing
      ensures activeSceneElementId == old(activeSceneElementId) && activeFrameIndex == old(activeFrameIndex)
      ensures playing == old(playing) && recording == old(recording)
      ensures tickScheduled == old(tickScheduled) && tickRecording == old(tickRecording)
      ensures recordsSaved == old(recordsSaved)
    {
      if activeSceneElementId.None? {
        return;
      }
      var id := activeSceneElementId.value;
      var index := FindIndex(sceneElements, id);
      if index < 0 {
        return;
      }
      var newSceneElements := sceneElements[index := Merge(sceneElements[index], props)];
      assert Ids(newSceneElements) == Ids(sceneElements);
      var newFrames := MergeIntoFrames(frames, id, props);
      frames := newFrames;
      sceneElements := newSceneElements;
      CalculateScreenElements();
      isElementEditing := false;
    }

    /**
     * `changeElementSortIndex(id, index)`: exchanges the registry entry of `id` with the
     * entry at `index`.
     */
    method ChangeElementSortIndex(id: string, index: int)
      requires Valid() && id in Ids(sceneElements) && 0 <= index < |sceneElements|
      modifies this
      ensures Valid() && Rendered()
      ensures sceneElements == Swap(old(sceneElements), index, FindIndex(old(sceneElements), id))
      ensures multiset(sceneElements) == multiset(old(sceneElements))
      ensures activeSceneElementId == old(activeSceneElementId) && activeFrameIndex == old(activeFrameIndex)
      ensures frames == old(frames) && isElementEditing == old(isElementEditing)
      ensures playing == old(playing) && recording == old(recording)
      ensures tickScheduled == old(tickScheduled) && tickRecording == old(tickRecording)
      ensures recordsSaved == old(recordsSaved)
    {
      var currentIndex := FindIndex(sceneElements, id);
      var newSceneElements := sceneElements;
      newSceneElements := newSceneElements[index := sceneElements[currentIndex]];
      newSceneElements := newSceneElements[currentIndex := sceneElements[index]];
      SwapKeepsRegistry(sceneElements, index, currentIndex);
      assert Registered(frames, newSceneElements) by {
        forall f, k | 0 <= f < |frames| && k in frames[f] ensures k in Ids(newSceneElements) {
          assert k in Ids(sceneElements);
        }
      }
      sceneElements := newSceneElements;
      CalculateScreenElements();
    }

    /** `onScreenElementClick(id)`: makes `id` the active element. */
    method OnScreenElementClick(id: string)
      modifies this
      ensures activeSceneElementId == Some(id)
      ensures activeFrameIndex == old(activeFrameIndex) && frames == old(frames) && sceneElements == old(sceneElements)
      ensures screenElementsByFrames == old(screenElementsByFrames) && isElementEditing == old(isElementEditing)
      ensures playing == old(playing) && recording == old(recording)
      ensures tickScheduled == old(tickScheduled) && tickRecording == old(tickRecording)
      ensures recordsSaved == old(recordsSaved)
    {
      activeSceneElementId := Some(id);
    }

    /** `deactivateScreenElement()`: clears the active element. */
    method DeactivateScreenElement()
      modifies this
      ensures activeSceneElementId.None?
      ensures activeFrameIndex == old(activeFrameIndex) && frames == old(frames) && sceneElements == old(sceneElements)
      ensures screenElementsByFrames == old(screenElementsByFrames) && isElementEditing == old(isElementEditing)
      ensures playing == old(playing) && recording == old(recording)
      ensures tickScheduled == old(tickScheduled) && tickRecording == old(tickRecording)
      ensures recordsSaved == old(recordsSaved)
    {
      activeSceneElementId := None;
    }

    /** `onFrameClick(index)`: makes `index` the active frame; the timeline only offers its own frames. */
    method OnFrameClick(index: int)
      requires Valid() && 0 <= index < |frames|
      modifies this
      ensures Valid()
      ensures activeFrameIndex == index
      ensures activeSceneElementId == old(activeSceneElementId) && frames == old(frames) && sceneElements == old(sceneElements)
      ensures screenElementsByFrames == old(screenElementsByFrames) && isElementEditing == old(isElementEditing)
      ensures playing == old(playing) && recording == old(recording)
      ensures tickScheduled == old(tickScheduled) && tickRecording == old(tickRecording)
      ensures recordsSaved == old(recordsSaved)
    {
      activeFrameIndex := index;
    }

    /**
     * `onPlay()`: while playing, cancels the scheduled tick; otherwise schedules one, which
     * captures the current `recording` flag. Either way `playing` flips.
     */
    method OnPlay()
      modifies this
      ensures playing == !old(playing)
      ensures tickScheduled == !old(playing)
      ensures tickRecording == if old(playing) then old(tickRecording) else old(recording)
      ensures activeSceneElementId == old(activeSceneElementId) && activeFrameIndex == old(activeFrameIndex)
      ensures frames == old(frames) && sceneElements == old(sceneElements)
      ensures screenElementsByFrames == old(screenElementsByFrames) && isElementEditing == old(isElementEditing)
      ensures recording == old(recording) && recordsSaved == old(recordsSaved)
    {
      if playing {
        tickScheduled := false;
      } else {
        tickScheduled := true;
        tickRecording := recording;
      }
      playing := !playing;
    }

    /**
     * The scheduled tick of `onPlay`: while recording, the last frame stops playback and
     * recording and finishes the record; otherwise the active frame steps to the next one
     * (wrapping to 0) and playback goes on with a new tick.
     */
    method PlayTick()
      requires Valid() && tickScheduled
      modifies this
      ensures Valid()
      ensures var isLast := old(activeFrameIndex) >= |frames| - 1;
        if old(tickRecording) && isLast then
          && !playing && !recording && !tickScheduled
          && activeFrameIndex == old(activeFrameIndex) && recordsSaved == old(recordsSaved) + 1
        else
          && activeFrameIndex == NextFrameIndex(old(activeFrameIndex), |frames|)
          && playing && tickScheduled && tickRecording == old(recording)
          && recording == old(recording) && recordsSaved == old(recordsSaved)
      ensures activeSceneElementId == old(activeSceneElementId)
      ensures frames == old(frames) && sceneElements == old(sceneElements)
      ensures screenElementsByFrames == old(screenElementsByFrames) && isElementEditing == old(isElementEditing)
    {
      tickScheduled := false;
      var isLastFrame := activeFrameIndex >= |frames| - 1;
      var nextIndex := if isLastFrame then 0 else activeFrameIndex + 1;
      if tickRecording && isLastFrame {
        playing, recording := false, false;
        recordsSaved := recordsSaved + 1;
        return;
      }
      activeFrameIndex, playing := nextIndex, false;
      OnPlay();
    }

    /**
     * The state change that starts a recording (`onRecord` once the output file is open):
     * back to frame 0, recording on, then `onPlay`. The Record button is not disabled during
     * playback; pressed then, `onPlay` stops the playback and cancels its tick, and the
     * recording flag stays on with nothing scheduled.
     */
    method BeginRecording()
      requires Valid()
      modifies this
      ensures Valid()
      ensures activeFrameIndex == 0 && recording
      ensures playing == !old(playing) && tickScheduled == !old(playing)
      ensures tickRecording == if old(playing) then old(tickRecording) else true
      ensures activeSceneElementId == old(activeSceneElementId)
      ensures frames == old(frames) && sceneElements == old(sceneElements)
      ensures screenElementsByFrames == old(screenElementsByFrames) && isElementEditing == old(isElementEditing)
      ensures recordsSaved == old(recordsSaved)
    {
      activeFrameIndex, recording := 0, true;
      OnPlay();
    }
  }

  // ---------------------------------------------------------------------------------------
  // Lemmas

  /** The timeline has 5 / 0.2 = 25 frames. */
  lemma FramesCountIs25()
    ensures FramesCount == 25
  {
    assert AnimationSeconds / AnimationFrameSeconds == 25.0;
  }

  /** A rendered list only holds registered elements. */
  lemma RenderedIdsRegistered(es: seq<Element>, frames: seq<Frame>, templates: map<string, Template>, i: nat, id: string)
    requires i < |frames|
    ensures id in Ids(RenderList(es, frames, templates, i)) ==> id in Ids(es)
  {
    var shown := RenderList(es, frames, templates, i);
    if id in Ids(shown) {
      var k :| 0 <= k < |shown| && Ids(shown)[k] == id;
      RenderListMembers(es, frames, templates, i, shown[k]);
      var j :| 0 <= j < |es| && PoseAt(es[j], frames, templates, i) == Some(shown[k]);
      PoseKeepsId(es[j], frames, templates, i);
      assert Ids(es)[j] == id;
    }
  }

  /**
   * With distinct ids, the intended removal drops exactly the entries carrying `id`: an
   * entry survives if and only if it carries another id.
   */
  lemma WithoutMembers(s: seq<Element>, id: string)
    requires Distinct(Ids(s))
    ensures forall x :: x in RegistryWithout(s, id) <==> x in s && x.id != id
  {
    forall x ensures x in RegistryWithout(s, id) <==> x in s && x.id != id {
      if x in s && x.id != id {
        OtherEntrySurvives(s, id, x);
      }
      if x in RegistryWithout(s, id) {
        SurvivorHasOtherId(s, id, x);
      }
    }
  }

  /** An entry carrying another id is kept by the removal. */
  lemma OtherEntrySurvives(s: seq<Element>, id: string, x: Element)
    requires x in s && x.id != id
    ensures x in RegistryWithout(s, id)
  {
    var i := FindIndex(s, id);
    if i >= 0 {
      var k :| 0 <= k < |s| && s[k] == x;
      assert k != i;
      var k' := if k < i then k else k - 1;
      SpliceIndex(s, i, k');
      assert (s[..i] + s[i + 1..])[k'] == x;
    }
  }

  /** With distinct ids, no entry the removal keeps carries `id`. */
  lemma SurvivorHasOtherId(s: seq<Element>, id: string, x: Element)
    requires Distinct(Ids(s)) && x in RegistryWithout(s, id)
    ensures x.id != id
  {
    var i := FindIndex(s, id);
    if i >= 0 {
      var r := s[..i] + s[i + 1..];
      var k :| 0 <= k < |r| && r[k] == x;
      SpliceIndex(s, i, k);
      var k' := if k < i then k else k + 1;
      assert Ids(s)[k'] != Ids(s)[i];
    }
  }

  /** Entry `k` of a registry with the entry at `i` spliced out. */
  lemma SpliceIndex(s: seq<Element>, i: nat, k: nat)
    requires i < |s| && k < |s| - 1
    ensures (s[..i] + s[i + 1..])[k] == s[if k < i then k else k + 1]
  {
  }

  /** With distinct ids, the removed id is no longer registered. */
  lemma RemovedIdUnregistered(s: seq<Element>, id: string)
    requires Distinct(Ids(s))
    ensures id !in Ids(RegistryWithout(s, id))
  {
    var r := RegistryWithout(s, id);
    forall m | 0 <= m < |r| ensures Ids(r)[m] != id {
      assert r[m] in r;
      SurvivorHasOtherId(s, id, r[m]);
    }
  }

  /**
   * `removeElementFromScene(id)` leaves `id` active, so a right-click on any frame `f`
   * afterwards finds no key `id` there and calls `addElementToFrame(id, f)`. As written,
   * that keys `{}` under `id`, which no registered element carries.
   */
  lemma RemovedActiveKeyedAsWritten(s: seq<Element>, frames: seq<Frame>, templates: map<string, Template>, id: string, f: nat)
    requires Distinct(Ids(s)) && f < |frames|
    ensures var registry := RegistryWithout(s, id);
      var timeline := DropKey(frames, id);
      var r := FrameAfterAddAsWritten(timeline[f], Resolve(registry, timeline, templates)[f], registry, id);
      && id !in timeline[f]
      && id in r && r[id] == EmptyObject
      && id !in Ids(registry)
  {
    var registry := RegistryWithout(s, id);
    var timeline := DropKey(frames, id);
    RemovedIdUnregistered(s, id);
    RenderedIdsRegistered(registry, timeline, templates, f, id);
  }

  /** Removing an element from registry and timeline keeps the frame/registry invariant. */
  lemma WithoutKeepsInvariant(s: seq<Element>, frames: seq<Frame>, id: string)
    requires Distinct(Ids(s)) && KeyedById(frames) && Registered(frames, s)
    ensures Distinct(Ids(RegistryWithout(s, id)))
    ensures KeyedById(DropKey(frames, id)) && Registered(DropKey(frames, id), RegistryWithout(s, id))
  {
    WithoutDistinct(s, id);
    var r := RegistryWithout(s, id);
    var d := DropKey(frames, id);
    forall f, k | 0 <= f < |d| && k in d[f] ensures k in Ids(r) {
      assert k in Ids(s) && k != id;
      KeptIdRegistered(s, id, k);
    }
  }

  /** The removal keeps registry ids distinct. */
  lemma WithoutDistinct(s: seq<Element>, id: string)
    requires Distinct(Ids(s))
    ensures Distinct(Ids(RegistryWithout(s, id)))
  {
    var r := RegistryWithout(s, id);
    var i := FindIndex(s, id);
    if i >= 0 {
      forall j, k | 0 <= j < k < |r| ensures Ids(r)[j] != Ids(r)[k] {
        var j' := if j < i then j else j + 1;
        var k' := if k < i then k else k + 1;
        SpliceIndex(s, i, j);
        SpliceIndex(s, i, k);
        assert Ids(s)[j'] != Ids(s)[k'];
      }
    }
  }

  /** A registered id other than `id` is still registered after the removal. */
  lemma KeptIdRegistered(s: seq<Element>, id: string, k: string)
    requires Distinct(Ids(s)) && k in Ids(s) && k != id
    ensures k in Ids(RegistryWithout(s, id))
  {
    var r := RegistryWithout(s, id);
    var j :| 0 <= j < |s| && Ids(s)[j] == k;
    OtherEntrySurvives(s, id, s[j]);
    var m :| 0 <= m < |r| && r[m] == s[j];
    assert Ids(r)[m] == k;
  }

  /** Exchanging two registry entries keeps the same entries and the same set of distinct ids. */
  lemma SwapKeepsRegistry(s: seq<Element>, i: nat, j: nat)
    requires i < |s| && j < |s| && Distinct(Ids(s))
    ensures multiset(Swap(s, i, j)) == multiset(s)
    ensures Distinct(Ids(Swap(s, i, j)))
    ensures forall id :: id in Ids(Swap(s, i, j)) <==> id in Ids(s)
  {
    SwapMultiset(s, i, j);
    var ids := Ids(s);
    var r := Swap(s, i, j);
    var t := ids[i := ids[j]][j := ids[i]];
    forall k | 0 <= k < |t| ensures Ids(r)[k] == t[k] {
      assert Ids(r)[k] == r[k].id;
    }
    assert Ids(r) == t;
    SwapDistinct(ids, i, j);
  }

  /** Exchanging two entries of a list of distinct ids keeps them distinct and keeps the ids. */
  lemma SwapDistinct(ids: seq<string>, i: nat, j: nat)
    requires i < |ids| && j < |ids| && Distinct(ids)
    ensures Distinct(ids[i := ids[j]][j := ids[i]])
    ensures forall id :: id in ids[i := ids[j]][j := ids[i]] <==> id in ids
  {
    var r := ids[i := ids[j]][j := ids[i]];
    forall a, b | 0 <= a < b < |r| ensures r[a] != r[b] {
      var a' := SwapIndex(a, i, j);
      var b' := SwapIndex(b, i, j);
      assert r[a] == ids[a'] && r[b] == ids[b'];
      assert a' != b';
    }
    forall id ensures id in r <==> id in ids {
      if id in r {
        var k :| 0 <= k < |r| && r[k] == id;
        assert ids[SwapIndex(k, i, j)] == id;
      }
      if id in ids {
        var k :| 0 <= k < |ids| && ids[k] == id;
        assert r[SwapIndex(k, i, j)] == id;
      }
    }
  }

  /** The position an entry moves to (or from) when the entries at `i` and `j` are exchanged. */
  function SwapIndex(k: nat, i: nat, j: nat): nat {
    if k == i then j else if k == j then i else k
  }

  /** Exchanging two entries keeps the multiset of entries. */
  lemma SwapMultiset(s: seq<Element>, i: nat, j: nat)
    requires i < |s| && j < |s|
    ensures multiset(Swap(s, i, j)) == multiset(s)
  {
    var t := s[i := s[j]];
    assert multiset(t) == multiset(s) - multiset{s[i]} + multiset{s[j]};
    assert multiset(t[j := s[i]]) == multiset(t) - multiset{t[j]} + multiset{s[i]};
  }

  /** The playback step is the successor modulo the number of frames. */
  lemma NextFrameIsSuccessorModCount(active: int, count: int)
    requires 0 <= active < count
    ensures NextFrameIndex(active, count) == (active + 1) % count
    ensures 0 <= NextFrameIndex(active, count) < count
  {
    if active == count - 1 {
      assert (active + 1) % count == 0;
    } else {
      assert (active + 1) % count == active + 1;
    }
  }

  /** Merging props into the keyframes of `id` changes no pose: the animation path is unchanged. */
  lemma MergeKeepsPoses(frames: seq<Frame>, id: string, p: Props)
    ensures var r := MergeIntoFrames(frames, id, p);
      forall f, k :: 0 <= f < |frames| && k in frames[f] ==> Geometry(r[f][k]) == Geometry(frames[f][k])
  {
  }

  /**
   * The splice `removeElementFromScene` performs, as written, agrees with the intended
   * removal whenever the id is registered.
   */
  lemma SpliceRemovesFound(s: seq<Element>, id: string)
    requires Distinct(Ids(s)) && id in Ids(s)
    ensures SpliceAsWritten(s, FindIndex(s, id)) == RegistryWithout(s, id)
  {
    var i := FindIndex(s, id);
    assert JsSlice(s, 0, i) == s[..i];
    assert JsSlice(s, i + 1, |s|) == s[i + 1..];
  }

  /**
   * As written, removing an id that is not registered does not leave the registry alone:
   * `findIndex` gives -1, `slice(0, -1)` keeps all but the last entry and `slice(0)` all of
   * them, so the registry becomes its prefix followed by itself.
   */
  lemma AbsentIdDuplicatesRegistry(s: seq<Element>, id: string)
    requires id !in Ids(s) && |s| > 0
    ensures SpliceAsWritten(s, FindIndex(s, id)) == s[..|s| - 1] + s
    ensures |SpliceAsWritten(s, FindIndex(s, id))| == 2 * |s| - 1
    ensures RegistryWithout(s, id) == s
  {
    assert FindIndex(s, id) == -1;
    assert JsSlice(s, 0, -1) == s[..|s| - 1];
    assert JsSlice(s, 0, |s|) == s;
  }
}
