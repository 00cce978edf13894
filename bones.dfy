/**
 * Bones of an animation clip and the first-match search over them
 * (the std::find_if that AnimationClip::FindBone runs).
 */
module Bones {

  datatype Option<T> = None | Some(value: T)

  /** A bone of a clip: the channel's node name and the bone ID the model's registry gave it. */
  datatype Bone = Bone(name: string, id: int)

  /**
   * std::find_if over the clip's bones with the predicate "name equals `name`".
   * The result is an iterator position: an index of `bones`, or `|bones|` for end().
   */
  function FindIf(bones: seq<Bone>, name: string): (k: nat)
    ensures k <= |bones|
    ensures forall j :: 0 <= j < k ==> bones[j].name != name
    ensures k < |bones| ==> bones[k].name == name
  {
    if |bones| == 0 then 0
    else if bones[0].name == name then 0
    else 1 + FindIf(bones[1..], name)
  }

  /**
   * Searching a concatenation finds the match in the first part if there is one,
   * and otherwise the match in the second part, shifted past the first.
   */
  lemma {:induction false} FindIfAppend(a: seq<Bone>, b: seq<Bone>, name: string)
    ensures FindIf(a + b, name) == if FindIf(a, name) < |a| then FindIf(a, name) else |a| + FindIf(b, name)
  {
    if |a| > 0 {
      assert (a + b)[0] == a[0];
      assert (a + b)[1..] == a[1..] + b;
      FindIfAppend(a[1..], b, name);
    } else {
      assert a + b == b;
    }
  }
}
