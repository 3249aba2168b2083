/**
 * The image catalog of src/js/elements.ts: every bundled image file name
 * `./<folder>/<name>.<ext>` is split by the pattern
 * `^\.\/(?<folder>.*)\/(?<name>.*?)\.(?<ext>.+)$` and its URL is appended to the list of
 * its folder. The file names themselves come from the bundler and are an input here.
 */
module Elements {
  import opened Wrappers

  /** The named groups of a match. */
  datatype Parts = Parts(folder: string, name: string, ext: string)

  /** The characters `.` does not match in a JavaScript pattern without the `s` flag. */
  predicate LineTerminator(c: char) {
    c == '\n' || c == '\r' || c == '\U{2028}' || c == '\U{2029}'
  }

  predicate NoTerminators(s: string) {
    forall i | 0 <= i < |s| :: !LineTerminator(s[i])
  }

  /**
   * The lazy `name` group: the first `.` at or after `from` that still leaves at least one
   * character for `ext`.
   */
  function FirstDot(rest: string, from: nat): (r: Option<nat>)
    ensures r.Some? ==> from <= r.value < |rest| - 1 && rest[r.value] == '.'
    ensures r.Some? ==> forall d :: from <= d < r.value ==> rest[d] != '.'
    ensures r.None? ==> forall d :: from <= d < |rest| - 1 ==> rest[d] != '.'
    decreases |rest| - from
  {
    if from + 1 >= |rest| then None
    else if rest[from] == '.' then Some(from)
    else FirstDot(rest, from + 1)
  }

  /**
   * The greedy `folder` group: the last `/` before `to` that is followed by a possible
   * `name.ext`.
   */
  function LastSlash(rest: string, to: nat): (r: Option<nat>)
    requires to <= |rest|
    ensures r.Some? ==> r.value < to && rest[r.value] == '/' && FirstDot(rest, r.value + 1).Some?
    ensures r.Some? ==> forall s :: r.value < s < to && rest[s] == '/' ==> FirstDot(rest, s + 1).None?
    ensures r.None? ==> forall s :: 0 <= s < to && rest[s] == '/' ==> FirstDot(rest, s + 1).None?
  {
    if to == 0 then None
    else if rest[to - 1] == '/' && FirstDot(rest, to).Some? then Some(to - 1)
    else LastSlash(rest, to - 1)
  }

  /**
   * `exec(fileName).groups`, or `None` where `exec` finds no match. A match puts the parts
   * back together into the file name; the extension is not empty, and the name holds
   * neither a `.` (it is lazy) nor a `/` (the folder is greedy).
   */
  function Parse(f: string): (r: Option<Parts>)
    ensures r.Some? ==> f == "./" + r.value.folder + "/" + r.value.name + "." + r.value.ext
    ensures r.Some? ==> r.value.ext != "" && '.' !in r.value.name && '/' !in r.value.name
    ensures r.Some? ==> NoTerminators(f[2..])
  {
    if |f| < 2 || f[..2] != "./" || !NoTerminators(f[2..]) then None
    else
      var rest := f[2..];
      match LastSlash(rest, |rest|)
      case None => None
      case Some(s) =>
        var d := FirstDot(rest, s + 1).value;
        NameHasNoSlash(rest, s, d);
        Reassemble(f, s, d);
        Some(Parts(rest[..s], rest[s + 1..d], rest[d + 1..]))
  }

  /** Between the greedy folder's `/` and the lazy name's `.` there is no `/`. */
  lemma NameHasNoSlash(rest: string, s: nat, d: nat)
    requires s < |rest| && LastSlash(rest, |rest|) == Some(s) && FirstDot(rest, s + 1) == Some(d)
    ensures '/' !in rest[s + 1..d] && '.' !in rest[s + 1..d]
  {
    forall t | s + 1 <= t < d
      ensures rest[t] != '/'
    {
      assert rest[d] == '.';
      assert FirstDot(rest, t + 1).Some?;
    }
    var name := rest[s + 1..d];
    assert forall t | 0 <= t < |name| :: name[t] == rest[s + 1 + t];
  }

  /** The groups cut at `s` and `d` put the file name back together. */
  lemma Reassemble(f: string, s: nat, d: nat)
    requires |f| >= 2 && f[..2] == "./" && s < d < |f| - 2 && f[2 + s] == '/' && f[2 + d] == '.'
    ensures var rest := f[2..];
      f == "./" + rest[..s] + "/" + rest[s + 1..d] + "." + rest[d + 1..]
  {
    var rest := f[2..];
    assert rest == rest[..s] + [rest[s]] + rest[s + 1..d] + [rest[d]] + rest[d + 1..];
    assert f == f[..2] + rest;
  }

  /** `exec` matches. */
  predicate Matches(f: string) {
    Parse(f).Some?
  }

  /**
   * Every way of writing a file name as `./F/N.E` with a non-empty `E` (and no line
   * terminator after `./`) is matched, and the matched folder is at least as long as `F`.
   */
  lemma ParseGreedy(f: string, folder: string, name: string, ext: string)
    requires f == "./" + folder + "/" + name + "." + ext
    requires ext != "" && NoTerminators(f[2..])
    ensures Parse(f).Some? && |Parse(f).value.folder| >= |folder|
  {
    var rest := f[2..];
    assert rest == folder + "/" + name + "." + ext;
    var s0 := |folder|;
    var d0 := |folder| + 1 + |name|;
    assert rest[s0] == '/' && rest[d0] == '.' && d0 < |rest| - 1;
    assert FirstDot(rest, s0 + 1).Some?;
    var r := LastSlash(rest, |rest|);
    assert r.Some?;
    assert r.value >= s0;
  }

  /** The URL of a matched file: `/img/elements/<folder>/<name>.<ext>`. */
  function Url(p: Parts): string {
    "/img/elements/" + p.folder + "/" + p.name + "." + p.ext
  }

  /** The URL of a matched file is the base path followed by the file name without `./`. */
  lemma UrlIsFileName(f: string)
    requires Matches(f)
    ensures Url(Parse(f).value) == "/img/elements/" + f[2..]
  {
    var p := Parse(f).value;
    assert f[2..] == p.folder + "/" + p.name + "." + p.ext;
  }

  /** A matched file is added unless its folder or its name is empty. */
  predicate Kept(p: Parts) {
    p.folder != "" && p.name != ""
  }

  /** `elements[folder] || []`. */
  function Get(m: map<string, seq<string>>, folder: string): seq<string> {
    if folder in m then m[folder] else []
  }

  /**
   * One step of the `forEach`: a kept file's URL goes to the end of its folder's list; no
   * other folder changes, and a skipped file changes nothing.
   */
  function Step(m: map<string, seq<string>>, f: string): (r: map<string, seq<string>>)
    requires Matches(f)
    ensures !Kept(Parse(f).value) ==> r == m
    ensures var p := Parse(f).value;
      Kept(p) ==> p.folder in r && Get(r, p.folder) == Get(m, p.folder) + [Url(p)]
  {
    var p := Parse(f).value;
    if !Kept(p) then m else m[p.folder := Get(m, p.folder) + [Url(p)]]
  }

  /** A step leaves every folder other than the file's own as it was. */
  lemma StepKeepsOtherFolders(m: map<string, seq<string>>, f: string, g: string)
    requires Matches(f) && g != Parse(f).value.folder
    ensures (g in Step(m, f) <==> g in m) && Get(Step(m, f), g) == Get(m, g)
  {
  }

  /** The catalog after the `forEach` over `files`. */
  function Grouped(files: seq<string>): map<string, seq<string>>
    requires forall j | 0 <= j < |files| :: Matches(files[j])
  {
    if files == [] then map[]
    else Step(Grouped(files[..|files| - 1]), files[|files| - 1])
  }

  /** The URLs of the kept files of `folder`, in enumeration order. */
  function InFolder(files: seq<string>, folder: string): seq<string>
    requires forall j | 0 <= j < |files| :: Matches(files[j])
  {
    if files == [] then []
    else
      var last := files[|files| - 1];
      assert Matches(last);
      var p := Parse(last).value;
      InFolder(files[..|files| - 1], folder) + (if Kept(p) && p.folder == folder then [Url(p)] else [])
  }

  /**
   * Each folder's list holds the URLs of exactly its kept files in enumeration order, and
   * a folder is present exactly when it has at least one kept file.
   */
  lemma {:induction false} GroupedByFolder(files: seq<string>, folder: string)
    requires forall j | 0 <= j < |files| :: Matches(files[j])
    ensures Get(Grouped(files), folder) == InFolder(files, folder)
    ensures folder in Grouped(files) <==> InFolder(files, folder) != []
    decreases |files|
  {
    if files != [] {
      var init := files[..|files| - 1];
      assert forall j | 0 <= j < |init| :: init[j] == files[j];
      GroupedByFolder(init, folder);
      var last := files[|files| - 1];
      assert Matches(last);
      if Parse(last).value.folder != folder {
        StepKeepsOtherFolders(Grouped(init), last, folder);
      }
    }
  }

  /**
   * The module body's `forEach`: every listed file name must match, since reading
   * `.groups` of a failed match throws.
   */
  method GroupElements(fileNames: seq<string>) returns (elements: map<string, seq<string>>)
    requires forall j | 0 <= j < |fileNames| :: Matches(fileNames[j])
    ensures elements == Grouped(fileNames)
  {
    elements := map[];
    var n := 0;
    while n < |fileNames|
      invariant 0 <= n <= |fileNames|
      invariant elements == Grouped(fileNames[..n])
    {
      var fileName := fileNames[n];
      var p := Parse(fileName).value;
      assert fileNames[..n + 1][..n] == fileNames[..n];
      if p.folder != "" && p.name != "" {
        elements := elements[p.folder := (if p.folder in elements then elements[p.folder] else []) + [Url(p)]];
      }
      n := n + 1;
    }
    assert fileNames[..n] == fileNames;
  }
}
