/**
 * The model's bone registry (its name -> boneID map and its shared bone counter)
 * and what AnimationClip::ReadMissingBones does to it, as a fold over channel names.
 */
module BoneRegistry {
  import opened Bones

  /** The model's bone-info map (name -> boneID) and the counter that hands out the next ID. */
  datatype Registry = Registry(boneInfo: map<string, int>, boneCount: int)

  /** One loop iteration: an unknown name gets the counter's current value, then the counter moves on. */
  function Step(r: Registry, name: string): Registry
  {
    if name in r.boneInfo then r
    else Registry(r.boneInfo[name := r.boneCount], r.boneCount + 1)
  }

  /** The registry after the loop has visited `names` in order. */
  function Register(r: Registry, names: seq<string>): Registry
    decreases |names|
  {
    if names == [] then r
    else Step(Register(r, names[..|names| - 1]), names[|names| - 1])
  }

  /** The names of `names` that `m` lacks, without repeats, in order of first occurrence. */
  function NewNames(m: map<string, int>, names: seq<string>): seq<string>
    decreases |names|
  {
    if names == [] then []
    else
      var p := NewNames(m, names[..|names| - 1]);
      var x := names[|names| - 1];
      if x in m || x in p then p else p + [x]
  }

  /** The bones appended for `names`: each carries its name and the ID `m` holds for it. */
  function BonesFor(m: map<string, int>, names: seq<string>): seq<Bone>
    requires forall n :: n in names ==> n in m
  {
    seq(|names|, i requires 0 <= i < |names| => Bone(names[i], m[names[i]]))
  }

  /** Every entry of `a` is in `b` with the same value. */
  ghost predicate Extends(a: map<string, int>, b: map<string, int>)
  {
    forall x :: x in a ==> x in b && b[x] == a[x]
  }

  /** IDs are distinct and all lie below the counter, so the counter is the next free ID. */
  ghost predicate Consistent(r: Registry)
  {
    && 0 <= r.boneCount
    && (forall x :: x in r.boneInfo ==> 0 <= r.boneInfo[x] < r.boneCount)
    && (forall x, y :: x in r.boneInfo && y in r.boneInfo && x != y ==> r.boneInfo[x] != r.boneInfo[y])
  }

  /** After the loop, the keys are exactly the old keys plus every channel name. */
  lemma {:induction false} RegisterKeys(r: Registry, names: seq<string>)
    ensures forall x :: x in Register(r, names).boneInfo <==> x in r.boneInfo || x in names
  {
    if names != [] {
      var p := names[..|names| - 1];
      RegisterKeys(r, p);
      assert names == p + [names[|names| - 1]];
    }
  }

  /** No existing entry is overwritten: every old name keeps its old boneID. */
  lemma {:induction false} RegisterExtends(r: Registry, names: seq<string>)
    ensures Extends(r.boneInfo, Register(r, names).boneInfo)
  {
    if names != [] {
      RegisterExtends(r, names[..|names| - 1]);
    }
  }

  /** The new names are exactly the channel names the map lacked, each listed once. */
  lemma {:induction false} NewNamesMembers(m: map<string, int>, names: seq<string>)
    ensures forall x :: x in NewNames(m, names) <==> x in names && x !in m
    ensures forall i, j :: 0 <= i < j < |NewNames(m, names)| ==> NewNames(m, names)[i] != NewNames(m, names)[j]
  {
    if names != [] {
      var p := names[..|names| - 1];
      NewNamesMembers(m, p);
      assert names == p + [names[|names| - 1]];
    }
  }

  /**
   * The counter grows by the number of distinct new names, and the k-th new name
   * (in first-occurrence order) gets the old counter value plus k.
   */
  lemma {:induction false} RegisterNewIds(r: Registry, names: seq<string>)
    ensures Register(r, names).boneCount == r.boneCount + |NewNames(r.boneInfo, names)|
    ensures forall k :: 0 <= k < |NewNames(r.boneInfo, names)| ==>
      NewNames(r.boneInfo, names)[k] in Register(r, names).boneInfo &&
      Register(r, names).boneInfo[NewNames(r.boneInfo, names)[k]] == r.boneCount + k
  {
    if names != [] {
      var p := names[..|names| - 1];
      var x := names[|names| - 1];
      RegisterNewIds(r, p);
      RegisterKeys(r, p);
      NewNamesMembers(r.boneInfo, p);
      var mid := Register(r, p);
      var nn := NewNames(r.boneInfo, p);
      assert x in mid.boneInfo <==> x in r.boneInfo || x in nn;
      if x !in mid.boneInfo {
        assert NewNames(r.boneInfo, names) == nn + [x];
        forall k | 0 <= k < |nn|
          ensures nn[k] != x
        {
          assert nn[k] in mid.boneInfo;
        }
      }
    }
  }

  /** Visiting `a` and then `b` is visiting `a + b`. */
  lemma {:induction false} RegisterAppend(r: Registry, a: seq<string>, b: seq<string>)
    ensures Register(r, a + b) == Register(Register(r, a), b)
    decreases |b|
  {
    if b == [] {
      assert a + b == a;
    } else {
      var q := b[..|b| - 1];
      RegisterAppend(r, a, q);
      assert (a + b)[..|a + b| - 1] == a + q;
      assert (a + b)[|a + b| - 1] == b[|b| - 1];
    }
  }

  /**
   * A name first seen at channel `j` gets the old counter value plus the number of
   * distinct new names that came before it.
   */
  lemma FirstOccurrenceId(r: Registry, names: seq<string>, j: nat)
    requires j < |names| && names[j] !in r.boneInfo && names[j] !in names[..j]
    ensures names[j] in Register(r, names).boneInfo
    ensures Register(r, names).boneInfo[names[j]] == r.boneCount + |NewNames(r.boneInfo, names[..j])|
  {
    var pre := names[..j];
    var upto := names[..j + 1];
    var rest := names[j + 1..];
    assert upto[..|upto| - 1] == pre && upto[|upto| - 1] == names[j];
    var before := Register(r, pre);
    RegisterKeys(r, pre);
    RegisterNewIds(r, pre);
    assert names[j] !in before.boneInfo;
    var mid := Register(r, upto);
    assert mid == Step(before, names[j]);
    assert mid.boneInfo[names[j]] == r.boneCount + |NewNames(r.boneInfo, pre)|;
    assert upto + rest == names;
    RegisterAppend(r, upto, rest);
    RegisterExtends(mid, rest);
  }

  /**
   * First-occurrence order: a new name that occurs before the first occurrence of
   * another new name gets the smaller ID.
   */
  lemma NewIdsOrdered(r: Registry, names: seq<string>, i: nat, j: nat)
    requires i < j < |names|
    requires names[i] !in r.boneInfo && names[j] !in r.boneInfo && names[j] !in names[..j]
    ensures names[i] in Register(r, names).boneInfo && names[j] in Register(r, names).boneInfo
    ensures Register(r, names).boneInfo[names[i]] < Register(r, names).boneInfo[names[j]]
  {
    var f :| 0 <= f <= i && names[f] == names[i] && names[f] !in names[..f] by {
      FirstIndex(names, i);
    }
    FirstOccurrenceId(r, names, f);
    FirstOccurrenceId(r, names, j);
    NewNamesMembers(r.boneInfo, names[..f]);
    assert names[..f + 1][f] == names[f];
    NewNamesGrow(r.boneInfo, names[..j], f + 1);
    assert names[..j][..f + 1] == names[..f + 1];
    assert names[..f + 1][..f] == names[..f];
    assert NewNames(r.boneInfo, names[..f + 1]) == NewNames(r.boneInfo, names[..f]) + [names[f]];
  }

  /** Every element has a first occurrence at or before it. */
  lemma {:induction false} FirstIndex(names: seq<string>, i: nat)
    requires i < |names|
    ensures exists f :: 0 <= f <= i && names[f] == names[i] && names[f] !in names[..f]
  {
    if names[i] in names[..i] {
      var g :| 0 <= g < i && names[g] == names[i];
      FirstIndex(names, g);
    } else {
      assert 0 <= i <= i && names[i] == names[i] && names[i] !in names[..i];
    }
  }

  /** The list of new names only grows as more channels are visited. */
  lemma {:induction false} NewNamesGrow(m: map<string, int>, names: seq<string>, n: nat)
    requires n <= |names|
    ensures |NewNames(m, names[..n])| <= |NewNames(m, names)|
    decreases |names| - n
  {
    if n < |names| {
      var p := names[..|names| - 1];
      assert p[..n] == names[..n];
      NewNamesGrow(m, p, n);
    } else {
      assert names[..n] == names;
    }
  }

  /** A channel name seen before changes nothing: it gets one ID and advances the counter once. */
  lemma RepeatedName(r: Registry, names: seq<string>, x: string)
    requires x in names
    ensures Register(r, names + [x]) == Register(r, names)
    ensures NewNames(r.boneInfo, names + [x]) == NewNames(r.boneInfo, names)
  {
    var s := names + [x];
    assert s[..|s| - 1] == names;
    RegisterKeys(r, names);
    NewNamesMembers(r.boneInfo, names);
  }

  /** The loop keeps the registry consistent: IDs stay distinct and below the counter. */
  lemma {:induction false} RegisterConsistent(r: Registry, names: seq<string>)
    requires Consistent(r)
    ensures Consistent(Register(r, names))
    ensures r.boneCount <= Register(r, names).boneCount
  {
    if names != [] {
      RegisterConsistent(r, names[..|names| - 1]);
    }
  }
}
