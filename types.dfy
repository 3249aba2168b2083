/**
 * The scene data model of the animator (the interfaces of src/js/types.d.ts and the
 * optional fields the editor code reads from them).
 */
module Types {
  import opened Wrappers

  /** `IVector`: a pair of scalars used for positions and non-uniform scale. */
  datatype Vec = Vec(x: real, y: real)

  function Plus(a: Vec, b: Vec): Vec { Vec(a.x + b.x, a.y + b.y) }
  function Minus(a: Vec, b: Vec): Vec { Vec(a.x - b.x, a.y - b.y) }
  function Times(a: Vec, k: real): Vec { Vec(a.x * k, a.y * k) }

  /**
   * The corner a speech bubble points from. The source compares `speech.corner` with the
   * members of an enumeration whose definition is not part of this model; `Unlisted`
   * stands for a value equal to none of them.
   */
  datatype Corner = LeftTop | LeftBottom | RightTop | RightBottom | Unlisted

  /** The speech payload written by the speech form: text, pointing corner, font size. */
  datatype Speech = Speech(text: string, corner: Corner, size: real)

  /**
   * `ISceneElement`. `image` is the template reference the toolbox stored (and, in a
   * resolved frame, the template URL or `undefined`); `templateId`, `speech` and
   * `lastFrameIndex` are optional fields. The React `content` node is not modelled.
   */
  datatype Element = Element(
    id: string,
    category: string,
    image: Option<string>,
    templateId: Option<string>,
    width: real,
    height: real,
    position: Vec,
    scale: Vec,
    rotation: real,
    animationSpeed: real,
    repeatX: real,
    repeatY: real,
    text: string,
    speech: Option<Speech>,
    lastFrameIndex: Option<int>)

  /** A keyframe set: element id to the pose captured at one timeline frame. */
  type Frame = map<string, Element>

  /** A catalog entry: `{ id, url }`. */
  datatype Template = Template(id: string, url: string)

  /** The ids of a list of elements, in order. */
  function Ids(s: seq<Element>): (r: seq<string>)
    ensures |r| == |s|
    ensures forall j :: 0 <= j < |s| ==> r[j] == s[j].id
  {
    seq(|s|, j requires 0 <= j < |s| => s[j].id)
  }

  /** No id occurs twice. */
  predicate Distinct(s: seq<string>) {
    forall j, k :: 0 <= j < k < |s| ==> s[j] != s[k]
  }

  /**
   * `Array.prototype.findIndex` with the predicate `item.id === id`: the first matching
   * index, or -1.
   */
  function FindIndex(s: seq<Element>, id: string): (r: int)
    ensures -1 <= r < |s|
    ensures r >= 0 ==> s[r].id == id && forall j :: 0 <= j < r ==> s[j].id != id
    ensures r == -1 ==> forall j :: 0 <= j < |s| ==> s[j].id != id
  {
    if s == [] then -1
    else if s[0].id == id then 0
    else var k := FindIndex(s[1..], id); if k == -1 then -1 else k + 1
  }

  /** `Array.prototype.find` with the predicate `element.id === id`. */
  function Find(s: seq<Element>, id: string): (r: Option<Element>)
    ensures r.Some? <==> id in Ids(s)
    ensures r.Some? ==> r.value.id == id && r.value in s
  {
    var k := FindIndex(s, id);
    if k == -1 then None else Some(s[k])
  }
}
