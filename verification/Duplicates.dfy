/** The greedy pairing of equal truncated indices (src/equihash.tcc:23-43). */
module Duplicates {
  import opened Digits

  /** What the pairing has not dealt with yet: the unchecked entries from z on. */
  ghost function Open(s: seq<byte>, checked: seq<bool>, z: nat): multiset<byte>
    requires |checked| >= |s| >= z
    decreases |s| - z
  {
    if z == |s| then multiset{}
    else (if checked[z] then multiset{} else multiset{s[z]}) + Open(s, checked, z + 1)
  }

  lemma {:induction false} OpenHas(s: seq<byte>, checked: seq<bool>, z: nat, v: byte)
    requires |checked| >= |s| >= z
    ensures v in Open(s, checked, z) <==> OpenAt(s, checked, z, v)
    decreases |s| - z
  {
    hide *;
    OpenAtStep(s, checked, z, v);
    if z < |s| {
      OpenHas(s, checked, z + 1, v);
      OpenStep(s, checked, z);
    } else {
      Finish(s, checked);
    }
  }

  ghost predicate OpenAt(s: seq<byte>, checked: seq<bool>, z: nat, v: byte)
    requires |checked| >= |s|
  {
    exists y :: z <= y < |s| && !checked[y] && s[y] == v
  }

  lemma OpenAtStep(s: seq<byte>, checked: seq<bool>, z: nat, v: byte)
    requires |checked| >= |s| >= z
    ensures OpenAt(s, checked, z, v) <==>
      z < |s| && ((!checked[z] && s[z] == v) || OpenAt(s, checked, z + 1, v))
  {}

  lemma {:induction false} OpenCheck(s: seq<byte>, checked: seq<bool>, z: nat, y: nat)
    requires |checked| >= |s| && z <= y < |s| && !checked[y]
    ensures Open(s, checked, z) == Open(s, checked[y := true], z) + multiset{s[y]}
    decreases y - z
  {
    if z == y {
      OpenAfter(s, checked, z + 1, y);
    } else {
      OpenCheck(s, checked, z + 1, y);
    }
  }

  lemma {:induction false} OpenAfter(s: seq<byte>, checked: seq<bool>, z: nat, y: nat)
    requires |checked| >= |s| >= z > y
    ensures Open(s, checked, z) == Open(s, checked[y := true], z)
    decreases |s| - z
  {
    if z < |s| {
      OpenAfter(s, checked, z + 1, y);
    }
  }

  lemma {:induction false} AllOpen(s: seq<byte>, checked: seq<bool>, z: nat)
    requires |checked| >= |s| >= z && forall y :: 0 <= y < |s| ==> !checked[y]
    ensures Open(s, checked, z) == multiset(s[z..])
    decreases |s| - z
  {
    if z < |s| {
      AllOpen(s, checked, z + 1);
      assert s[z..] == [s[z]] + s[z + 1..];
    } else {
      assert s[z..] == [];
    }
  }

  /** The values left over so far occur an odd number of times and have no open entry;
      every other value has as many open entries as occurrences, up to pairs. */
  ghost predicate Paired(all: multiset<byte>, open: multiset<byte>, lost: set<byte>, count: nat) {
    && |all| == count + |lost| + |open|
    && (forall v: byte :: v in lost ==> open[v] == 0 && all[v] % 2 == 1)
    && (forall v: byte :: v !in lost ==> all[v] % 2 == open[v] % 2)
  }

  lemma PairTaken(all: multiset<byte>, open: multiset<byte>, lost: set<byte>, count: nat, v: byte,
          rest: multiset<byte>)
    requires Paired(all, open, lost, count)
    requires open == rest + multiset{v} + multiset{v}
    ensures Paired(all, rest, lost, count + 2)
  {
    assert open[v] == rest[v] + 2;
    assert |open| == |rest| + 2;
  }

  lemma NoPartner(all: multiset<byte>, open: multiset<byte>, lost: set<byte>, count: nat, v: byte,
          rest: multiset<byte>)
    requires Paired(all, open, lost, count)
    requires open == rest + multiset{v} && v !in rest
    ensures Paired(all, rest, lost + {v}, count)
  {
    assert open[v] == 1;
    assert |open| == |rest| + 1;
  }

  lemma NoneOpen(all: multiset<byte>, lost: set<byte>, count: nat)
    requires Paired(all, multiset{}, lost, count)
    ensures count == |all| <==> forall v: byte :: all[v] % 2 == 0
  {
    if lost != {} {
      var v :| v in lost;
      assert all[v] % 2 == 1;
    } else {
      assert forall v: byte :: all[v] % 2 == multiset{}[v] % 2;
    }
  }

  /** True exactly when every value occurs an even number of times. */
  method IsProbablyDuplicate(indices: seq<byte>, MAX_INDICES: nat) returns (duplicate: bool)
    requires |indices| <= MAX_INDICES
    ensures duplicate <==> forall v: byte :: multiset(indices)[v] % 2 == 0
  {
    hide Open, Paired;
    var lenIndices := |indices|;
    var checked_index := new bool[MAX_INDICES](_ => false);
    var count_checked := 0;
    ghost var all, lost := multiset(indices), {};
    Start(indices, checked_index[..]);
    for z := 0 to lenIndices
      invariant Paired(all, Open(indices, checked_index[..], z), lost, count_checked)
    {
      ghost var before := checked_index[..];
      OpenStep(indices, before, z);
      if !checked_index[z] {
        ghost var rest := Open(indices, before, z + 1);
        OpenHas(indices, before, z + 1, indices[z]);
        var y, found := z + 1, false;
        while y < lenIndices
          invariant z < y <= lenIndices && checked_index[..] == before
          invariant forall x :: z < x < y ==> before[x] || indices[x] != indices[z]
        {
          if !checked_index[y] && indices[z] == indices[y] {
            OpenCheck(indices, before, z + 1, y);
            checked_index[y] := true;
            assert checked_index[..] == before[y := true];
            count_checked := count_checked + 2;
            found := true;
            break;
          }
          y := y + 1;
        }
        if found {
          PairTaken(all, Open(indices, before, z), lost, count_checked - 2, indices[z],
                    Open(indices, checked_index[..], z + 1));
        } else {
          NoPartner(all, Open(indices, before, z), lost, count_checked, indices[z], rest);
          lost := lost + {indices[z]};
        }
      }
    }
    Finish(indices, checked_index[..]);
    NoneOpen(all, lost, count_checked);
    duplicate := count_checked == lenIndices;
  }

  lemma Start(s: seq<byte>, checked: seq<bool>)
    requires |checked| >= |s| && forall y :: 0 <= y < |s| ==> !checked[y]
    ensures Paired(multiset(s), Open(s, checked, 0), {}, 0)
  {
    AllOpen(s, checked, 0);
    assert s[0..] == s;
  }

  lemma OpenStep(s: seq<byte>, checked: seq<bool>, z: nat)
    requires |checked| >= |s| > z
    ensures checked[z] ==> Open(s, checked, z) == Open(s, checked, z + 1)
    ensures !checked[z] ==> Open(s, checked, z) == Open(s, checked, z + 1) + multiset{s[z]}
  {}

  lemma Finish(s: seq<byte>, checked: seq<bool>)
    requires |checked| >= |s|
    ensures Open(s, checked, |s|) == multiset{}
  {}
}
