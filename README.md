# Arcane Engine animation clip bookkeeping, in Dafny

This project models the part of the Arcane Engine's `AnimationClip`
(`Arcane/src/Arcane/Animation/AnimationClip.cpp`) that links an animation's
channels to the owning model's bone registry. It covers three operations:

- **ReadMissingBones** walks the animation's channels in order. A channel name
  missing from the model's name -> boneID map gets the next value of the model's
  shared bone counter. Every channel is then appended to the clip's bones, carrying
  the map's ID for its name.
- **FindBone** is a first-match search by name over the clip's bones. It returns
  the null pointer when no bone matches.
- **ReadHierarchyData** copies the imported scene's node tree into the clip's bone
  tree. For each node it copies the name, the transformation and the child count,
  then appends one copied child per source child, in order.

Files and modules:

- `bones.dfy` (`Bones`): the `Bone` value (name, ID), `Option`, and `FindIf`, the
  `std::find_if` that FindBone runs. It returns an index, with `|bones|` standing
  for `end()`.
- `registry.dfy` (`BoneRegistry`): the registry as a value (`Registry`: map and
  counter). It holds the loop body `Step`, the whole loop as a left fold `Register`,
  and the first-occurrence list of new names `NewNames`. The lemmas here state what
  the loop does to the map and the counter.
- `hierarchy.dfy` (`Hierarchy`): the scene node tree `Node`, the bone tree
  `BoneData` and the copy specification `Copy`. It also holds the recursive method
  `ReadHierarchyData`, whose loop appends copied children, and the round-trip
  lemmas.
- `animation_clip.dfy` (`Animation`): class `Model` holds the part of the model
  that clips change: `boneInfoMap` and `boneCount`, updated in place. Class
  `AnimationClip` holds the clip's fields, its constructor (with the import already
  done), `FindBone` and the imperative `ReadMissingBones`.

A returned `Bone*` is modelled as `Option<nat>`: `None` is the null pointer, and
`Some(k)` points at `bones[k]`. The transformation matrix is a type parameter `M`
that is only copied. The model takes the importer's output as its parameters: the
animation's name, timing and channel node names, plus the scene's root node.

The engine's rendering passes, probe baking and GBuffer handling are not part of
this model.

## Model

| member | source | states |
|---|---|---|
| `Bones.FindIf` | Arcane/src/Arcane/Animation/AnimationClip.cpp:38-43 | the result is a position no greater than the number of bones; no earlier bone has the name; if the position is not the end, the bone there has the name (first match) |
| `Bones.FindIfAppend` | Arcane/src/Arcane/Animation/AnimationClip.cpp:38-43 | searching `a + b` gives the match in `a` if `a` has one, otherwise `|a|` plus the match in `b` |
| `Animation.AnimationClip.FindBone` | Arcane/src/Arcane/Animation/AnimationClip.cpp:36-50 | returns null exactly when no bone of the clip has the name; otherwise returns the first bone with that name |
| `Animation.ChannelsFindable` | Arcane/src/Arcane/Animation/AnimationClip.cpp:36-70 | after the channels' bones are appended, searching for any channel name succeeds; if no earlier bone has that name, the bone found has the map's ID for it |
| `Animation.AnimationClip.ReadMissingBones` | Arcane/src/Arcane/Animation/AnimationClip.cpp:52-71 | the model's map and counter become the fold `Register` of the channels; the keys become the old keys plus every channel name; old entries are unchanged; the counter grows by the number of distinct new names; a consistent registry stays consistent; the bones become the old bones followed by one bone per channel in channel order, each with its name and the map's ID |
| `Animation.AnimationClip.constructor` | Arcane/src/Arcane/Animation/AnimationClip.cpp:12-29 | copies the name and duration; the tick rate equals the source rate when that is non-zero and is 1 otherwise; the root is the complete copy of the scene root; the registry and bones are as ReadMissingBones leaves them, starting from no bones |
| `BoneRegistry.Step` | Arcane/src/Arcane/Animation/AnimationClip.cpp:65-67 | reference definition of one loop iteration, no contract: a name missing from the map gets the counter's current value and the counter then grows by 1; a known name changes nothing |
| `BoneRegistry.Register` | Arcane/src/Arcane/Animation/AnimationClip.cpp:60-68 | reference definition of the whole loop, no contract: `Step` applied to the channel names in order; the lemmas below are about it |
| `BoneRegistry.RegisterKeys` | Arcane/src/Arcane/Animation/AnimationClip.cpp:60-68 | after the loop, a name is a key exactly when it was a key before or is a channel name |
| `BoneRegistry.RegisterExtends` | Arcane/src/Arcane/Animation/AnimationClip.cpp:65-67 | no existing entry is overwritten: every old name keeps its old boneID |
| `BoneRegistry.NewNamesMembers` | Arcane/src/Arcane/Animation/AnimationClip.cpp:65-68 | the names given new IDs are exactly the channel names the map lacked, each listed once |
| `BoneRegistry.RegisterNewIds` | Arcane/src/Arcane/Animation/AnimationClip.cpp:54-68 | the counter ends at its old value plus the number of distinct new names; the k-th new name (first-occurrence order) gets old counter + k |
| `BoneRegistry.RegisterAppend` | Arcane/src/Arcane/Animation/AnimationClip.cpp:60-70 | running the loop over `a` then over `b` is the same as running it over `a + b` |
| `BoneRegistry.FirstOccurrenceId` | Arcane/src/Arcane/Animation/AnimationClip.cpp:65-67 | a new name first seen at channel j gets the old counter value plus the number of distinct new names among channels 0..j-1 |
| `BoneRegistry.NewIdsOrdered` | Arcane/src/Arcane/Animation/AnimationClip.cpp:60-68 | a new name occurring before the first occurrence of another new name gets the smaller ID |
| `BoneRegistry.RepeatedName` | Arcane/src/Arcane/Animation/AnimationClip.cpp:65-69 | a channel name already seen leaves the map, the counter and the list of new names unchanged, so it gets one ID and advances the counter once |
| `BoneRegistry.RegisterConsistent` | Arcane/src/Arcane/Animation/AnimationClip.cpp:65-67 | if IDs were distinct and below the counter before the loop, they still are afterwards; the counter never decreases |
| `Hierarchy.Copy` | Arcane/src/Arcane/Animation/AnimationClip.cpp:77-87 | reference definition of the recursive copy, no contract: name, transformation and child count of the node, then the copy of each child in order; the hierarchy lemmas are about it |
| `Hierarchy.ReadHierarchyData` | Arcane/src/Arcane/Animation/AnimationClip.cpp:73-88 | the destination's name, transformation and child count are those of the source; its children are its old children followed by the complete copy of each source child, in order; a childless destination becomes exactly the copy of the source |
| `Hierarchy.CopyWellFormed` | Arcane/src/Arcane/Animation/AnimationClip.cpp:79-87 | at every level of the copy, the recorded child count equals the number of children appended |
| `Hierarchy.CopyRoundTrip` | Arcane/src/Arcane/Animation/AnimationClip.cpp:77-87 | the copy mirrors the source tree: dropping the child counts gives back the source (names, transformations, children in order) |
| `Hierarchy.ToNodeRoundTrip` | Arcane/src/Arcane/Animation/AnimationClip.cpp:77-87 | every bone tree whose child counts are right is the copy of the node tree it describes |

## Left out

- Scene import in the constructor (`Importer::ReadFile`, the scene/root assertion, indexing `mAnimations` by `animationIndex`) is file I/O in a foreign library. The imported animation and root node are constructor parameters instead.
- `m_ClipDuration` and `m_TicksPerSecond` are `float` conversions of `double` values in the source. The model uses `real`, so rounding is not modelled. The zero-rate default of 1 is stated exactly.
- The `#if !ARC_FINAL` guard around the animation name is not modelled: the name is always copied. This assumes `m_AnimationName` has no in-class initializer: `AnimationClip.h` is not part of this model. On that assumption an empty name leaves the default empty string, so the result is the same.
- `Model::ConvertAssimpMatrixToGLM` is float matrix conversion. The transformation is an opaque type parameter and is copied unchanged.
- The `Bone` constructor's keyframe extraction from the channel is not modelled. Its code is not part of this model, and it handles float keyframe data. A bone here is its name and ID.
- The bone-info map stores a `BoneInfo` record whose offset matrix is not modelled. Only its `boneID` is kept: a new entry's offset is default-constructed in the source and never read here.
- ReadMissingBones: does not model 32-bit wrap-around of `boneCount`, or the conversion of the unsigned `mNumChannels` to `int`. The counter is an unbounded integer.
- Animation.AnimationClip.FindBone: returns an index into the clip's bones, not a pointer. A later `push_back` that reallocates the vector, and writes through the pointer, are not modelled.
- Hierarchy.ReadHierarchyData: the `ARC_ASSERT(src)` null check is not modelled, because a `Node` value always exists. `reserve` only affects capacity and is left out too. A fresh child's default transformation (`glm::mat4`) is an arbitrary value of `M`, since it is overwritten at once.
- `Arcane/src/Arcane/Core/Application.h` and `Arcane/src/graphics/mesh/common/Sphere.h` are declarations only. The render passes (`ProbePass.cpp`, `DeferredGeometryPass.cpp`) orchestrate GPU state and are not part of this model.
