/** A layer's `poseImages` object: pose instruction text to image reference.
    A JavaScript object with string keys that are not array indices iterates its keys in
    insertion order, and `Object.keys` / `Object.values` expose that order; so the map
    is an association list whose order is the order in which keys were first assigned. */
module PoseMaps {
  import opened Types
  import Lists

  datatype Entry = Entry(pose: string, image: string)

  type PoseMap = seq<Entry>

  /** `Object.keys(m)`: the poses, oldest first. */
  function Keys(m: PoseMap): seq<string> {
    seq(|m|, i requires 0 <= i < |m| => m[i].pose)
  }

  /** `Object.values(m)`: the images, in the order of their keys. */
  function Values(m: PoseMap): seq<string> {
    seq(|m|, i requires 0 <= i < |m| => m[i].image)
  }

  /** Every key occurs once, as it does in an object. */
  ghost predicate DistinctKeys(m: PoseMap) {
    Lists.Distinct(Keys(m))
  }

  /** `m[pose]`: the image stored under `pose`, or undefined. */
  function Get(m: PoseMap, pose: string): (r: Option<string>)
    ensures r.Some? <==> pose in Keys(m)
    ensures r.Some? ==> r.value in Values(m)
    ensures DistinctKeys(m) ==> forall i :: 0 <= i < |m| && m[i].pose == pose ==> r == Some(m[i].image)
  {
    var i := Lists.IndexOf(Keys(m), pose);
    assert forall j :: 0 <= j < |m| ==> Keys(m)[j] == m[j].pose && Values(m)[j] == m[j].image;
    if i < 0 then None else Some(m[i].image)
  }

  /** `Object.values(m)[0]`: the image of the first key ever assigned, or undefined. */
  function FirstValue(m: PoseMap): (r: Option<string>)
    ensures r.Some? <==> |m| > 0
    ensures r.Some? ==> r.value in Values(m) && r == Get(m, m[0].pose)
  {
    if |m| == 0 then None
    else
      assert Keys(m)[0] == m[0].pose && Values(m)[0] == m[0].image;
      Some(m[0].image)
  }

  /** `{ [pose]: image }`. */
  function Singleton(pose: string, image: string): (m: PoseMap)
    ensures DistinctKeys(m) && Keys(m) == [pose] && Get(m, pose) == Some(image)
  {
    [Entry(pose, image)]
  }

  /** The assignment `m[pose] = image`: an existing key keeps its place and takes the
      new image; a new key goes last. */
  function Put(m: PoseMap, pose: string, image: string): (r: PoseMap)
    ensures Get(r, pose) == Some(image)
    ensures forall other :: other != pose ==> Get(r, other) == Get(m, other)
    ensures pose in Keys(m) ==> Keys(r) == Keys(m)
    ensures pose !in Keys(m) ==> Keys(r) == Keys(m) + [pose]
    ensures DistinctKeys(m) ==> DistinctKeys(r)
  {
    var i := Lists.IndexOf(Keys(m), pose);
    if i < 0 then
      var r := m + [Entry(pose, image)];
      assert Keys(r) == Keys(m) + [pose];
      forall other | other != pose ensures Get(r, other) == Get(m, other) {
        Lists.IndexOfAppend(Keys(m), pose, other);
      }
      r
    else
      var r := m[i := Entry(pose, image)];
      assert Keys(r) == Keys(m);
      r
  }

  /** Adding a pose that was not there keeps every earlier entry, image and position, and
      puts the new image last: the map only grows. */
  lemma PutNewKeyExtends(m: PoseMap, pose: string, image: string)
    requires pose !in Keys(m)
    ensures Put(m, pose, image) == m + [Entry(pose, image)]
    ensures Values(Put(m, pose, image)) == Values(m) + [image]
    ensures FirstValue(Put(m, pose, image)) == if |m| == 0 then Some(image) else FirstValue(m)
  {
    assert Lists.IndexOf(Keys(m), pose) == -1;
    assert Values(m + [Entry(pose, image)]) == Values(m) + [image];
  }
}
