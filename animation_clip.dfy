/**
 * AnimationClip: the clip's bones, its copied node hierarchy, and the bookkeeping
 * that registers the animation's channels in the owning model's bone registry.
 */
module Animation {
  import opened Bones
  import opened BoneRegistry
  import opened Hierarchy

  /** What the clip reads from the imported animation: its name, timing and channel node names. */
  datatype AnimationSource = AnimationSource(name: string, duration: real, ticksPerSecond: real, channels: seq<string>)

  /** The part of Model that clips touch: its name -> boneID map and its bone counter. */
  class Model {
    var boneInfoMap: map<string, int>
    var boneCount: int

    constructor (boneInfoMap: map<string, int>, boneCount: int)
      ensures this.boneInfoMap == boneInfoMap && this.boneCount == boneCount
    {
      this.boneInfoMap := boneInfoMap;
      this.boneCount := boneCount;
    }

    /** The registry the fields hold. */
    function State(): Registry
      reads this
    {
      Registry(boneInfoMap, boneCount)
    }
  }

  class AnimationClip<M(0)> {
    const model: Model
    var animationName: string
    var clipDuration: real
    var ticksPerSecond: real
    var rootNode: BoneData<M>
    var bones: seq<Bone>

    /**
     * Builds the clip from an already imported animation and scene root: copies the
     * name and timing (a zero tick rate becomes 1), copies the node hierarchy, then
     * registers the channels' bones.
     */
    constructor (animation: AnimationSource, sceneRoot: Node<M>, model: Model)
      modifies model
      ensures this.model == model
      ensures animationName == animation.name && clipDuration == animation.duration
      ensures ticksPerSecond != 0.0
      ensures animation.ticksPerSecond != 0.0 ==> ticksPerSecond == animation.ticksPerSecond
      ensures animation.ticksPerSecond == 0.0 ==> ticksPerSecond == 1.0
      ensures rootNode == Copy(sceneRoot)
      ensures model.State() == Register(old(model.State()), animation.channels)
      ensures forall n :: n in animation.channels ==> n in model.boneInfoMap
      ensures bones == BonesFor(model.boneInfoMap, animation.channels)
    {
      this.model := model;
      animationName := animation.name;
      clipDuration := animation.duration;
      ticksPerSecond := if animation.ticksPerSecond != 0.0 then animation.ticksPerSecond else 1.0;
      var blank: M := *;
      var root := ReadHierarchyData(BoneData("", blank, 0, []), sceneRoot);
      rootNode := root;
      bones := [];
      new;
      ReadMissingBones(animation.channels);
    }

    /** FindBone(name): the index of the first bone called `name`, or None for the null pointer. */
    function FindBone(name: string): (r: Option<nat>)
      reads this
      ensures r.None? <==> forall j :: 0 <= j < |bones| ==> bones[j].name != name
      ensures r.Some? ==> r.value < |bones| && bones[r.value].name == name
      ensures r.Some? ==> forall j :: 0 <= j < r.value ==> bones[j].name != name
    {
      var k := FindIf(bones, name);
      if k == |bones| then None else Some(k)
    }

    /**
     * ReadMissingBones: every channel name the model lacks gets the counter's next
     * value; every channel is then appended as a bone with the model's ID for its name.
     */
    method ReadMissingBones(channels: seq<string>)
      modifies this`bones, model`boneInfoMap, model`boneCount
      ensures model.State() == Register(old(model.State()), channels)
      ensures forall n :: n in model.boneInfoMap <==> n in old(model.boneInfoMap) || n in channels
      ensures Extends(old(model.boneInfoMap), model.boneInfoMap)
      ensures model.boneCount == old(model.boneCount) + |NewNames(old(model.boneInfoMap), channels)|
      ensures old(Consistent(model.State())) ==> Consistent(model.State())
      ensures bones == old(bones) + BonesFor(model.boneInfoMap, channels)
    {
      ghost var start := model.State();
      var i := 0;
      while i < |channels|
        invariant 0 <= i <= |channels|
        invariant model.State() == Register(start, channels[..i])
        invariant forall n :: n in channels[..i] ==> n in model.boneInfoMap
        invariant bones == old(bones) + BonesFor(model.boneInfoMap, channels[..i])
      {
        var boneName := channels[i];
        ghost var before := model.boneInfoMap;
        if boneName !in model.boneInfoMap {
          model.boneInfoMap := model.boneInfoMap[boneName := model.boneCount];
          model.boneCount := model.boneCount + 1;
        }
        assert BonesFor(before, channels[..i]) == BonesFor(model.boneInfoMap, channels[..i]);
        bones := bones + [Bone(boneName, model.boneInfoMap[boneName])];
        assert channels[..i + 1] == channels[..i] + [boneName];
        assert channels[..i + 1][..i] == channels[..i];
        i := i + 1;
      }
      assert channels[..i] == channels;
      RegisterKeys(start, channels);
      RegisterExtends(start, channels);
      RegisterNewIds(start, channels);
      if Consistent(start) {
        RegisterConsistent(start, channels);
      }
    }
  }

  /**
   * After ReadMissingBones, searching the clip's bones for any channel name succeeds,
   * and unless an older bone of that name comes first, the bone found carries the
   * model's ID for that name.
   */
  lemma {:induction false} ChannelsFindable(prior: seq<Bone>, m: map<string, int>, channels: seq<string>, n: string)
    requires forall c :: c in channels ==> c in m
    requires n in channels
    ensures FindIf(prior + BonesFor(m, channels), n) < |prior| + |channels|
    ensures FindIf(prior, n) == |prior| ==>
      (prior + BonesFor(m, channels))[FindIf(prior + BonesFor(m, channels), n)] == Bone(n, m[n])
  {
    var added := BonesFor(m, channels);
    FindIfAppend(prior, added, n);
    var i :| 0 <= i < |channels| && channels[i] == n;
    assert added[i].name == n;
  }
}
