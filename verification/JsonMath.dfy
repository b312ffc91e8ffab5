/** Merging a JSON object into another, and subtracting one from another. */
module JsonMath {
  import opened Outcomes
  import opened Json

  ghost predicate IsObject(m: Members) {
    DistinctKeys(m) && forall x <- m :: KeysAreDistinct(x.value)
  }

  lemma AssignedIsObject(m: Members, key: string, v: Value)
    requires IsObject(m) && KeysAreDistinct(v)
    ensures IsObject(Assigned(m, key, v))
  {
    hide KeysAreDistinct;
  }

  lemma LookupIsDistinct(m: Members, key: string)
    requires IsObject(m) && Lookup(m, key).Some?
    ensures KeysAreDistinct(Lookup(m, key).value)
  {
    hide KeysAreDistinct, Lookup;
    var i: nat :| i < |m| && m[i] == Member(key, Lookup(m, key).value);
    assert m[i] in m;
  }

  lemma PrefixIsObject(m: Members)
    requires IsObject(m) && m != []
    ensures IsObject(m[..|m| - 1]) && KeysAreDistinct(m[|m| - 1].value)
  {
    hide KeysAreDistinct;
    assert m[|m| - 1] in m;
    assert forall x <- m[..|m| - 1] :: x in m;
  }

  // ----- merge -----

  /** A value that meets another under the same key. */
  function MergedValue(t: Value, v: Value, overwrite: bool): (r: Value)
    requires KeysAreDistinct(t) && KeysAreDistinct(v)
    ensures KeysAreDistinct(r)
    decreases v, 0
  {
    if v.Object? && t.Object? then Object(Merged(t.members, v.members, overwrite))
    else if v.Array? && t.Array? then Array(t.elements + v.elements)
    else if overwrite then v
    else t
  }

  /** The target after the items of mixMe, one after the other. */
  function Merged(target: Members, mixMe: Members, overwrite: bool): (r: Members)
    requires IsObject(target) && IsObject(mixMe)
    ensures IsObject(r)
    decreases mixMe
  {
    if mixMe == [] then target
    else
      var item := mixMe[|mixMe| - 1];
      PrefixIsObject(mixMe);
      var before := Merged(target, mixMe[..|mixMe| - 1], overwrite);
      AfterItem(before, item.key, item.value, overwrite)
  }

  function AfterItem(m: Members, key: string, value: Value, overwrite: bool): (r: Members)
    requires IsObject(m) && KeysAreDistinct(value)
    ensures IsObject(r)
    decreases value, 1
  {
    var t := Lookup(m, key);
    if t.None? then
      AssignedIsObject(m, key, value);
      Assigned(m, key, value)
    else
      LookupIsDistinct(m, key);
      var v := MergedValue(t.value, value, overwrite);
      AssignedIsObject(m, key, v);
      Assigned(m, key, v)
  }

  method MergeJson(target: Members, mixMe: Members, overwrite: bool) returns (r: Members)
    requires IsObject(target) && IsObject(mixMe)
    ensures r == Merged(target, mixMe, overwrite)
    decreases mixMe
  {
    hide KeysAreDistinct, DistinctKeys, Lookup, Assigned;
    r := target;
    assert mixMe[..|mixMe|] == mixMe;
    PrefixesAreObjects(mixMe, 0);
    for i := 0 to |mixMe|
      invariant IsObject(mixMe[..i]) && r == Merged(target, mixMe[..i], overwrite)
    {
      PrefixesAreObjects(mixMe, i + 1);
      assert mixMe[..i + 1][..i] == mixMe[..i];
      r := MergeItem(r, mixMe[i].key, mixMe[i].value, overwrite);
    }
  }

  lemma PrefixesAreObjects(m: Members, n: nat)
    requires IsObject(m) && n <= |m|
    ensures IsObject(m[..n]) && forall i: nat :: i < n ==> KeysAreDistinct(m[i].value)
  {
    hide KeysAreDistinct;
    assert forall x <- m[..n] :: x in m;
    assert forall i: nat :: i < n ==> m[i] in m;
  }

  // The body of the loop of MergeJson.
  method MergeItem(m: Members, key: string, value: Value, overwrite: bool) returns (r: Members)
    requires IsObject(m) && KeysAreDistinct(value)
    ensures r == AfterItem(m, key, value, overwrite)
    decreases value, 1
  {
    hide DistinctKeys, Lookup, Assigned;
    r := m;
    var t := Lookup(m, key);
    if t.Some? {
      LookupIsDistinct(m, key);
      if value.Object? && t.value.Object? {
        var nested := MergeJson(t.value.members, value.members, overwrite);
        r := Assigned(r, key, Object(nested));
      } else if value.Array? && t.value.Array? {
        r := Assigned(r, key, Array(t.value.elements + value.elements));
      } else if overwrite {
        r := Assigned(r, key, value);
      } else {
        AssignSame(m, key);
      }
    } else {
      r := Assigned(r, key, value);
    }
  }

  lemma AssignSame(m: Members, key: string)
    requires DistinctKeys(m) && Lookup(m, key).Some?
    ensures Assigned(m, key, Lookup(m, key).value) == m
  {
    var i: nat :| i < |m| && m[i].key == key;
    LookupAt(m, i);
  }

  /** What the merge of two values is, key by key. */
  lemma {:induction false} MergeAt(target: Members, mixMe: Members, overwrite: bool, key: string)
    requires IsObject(target) && IsObject(mixMe)
    ensures var t, v := Lookup(target, key), Lookup(mixMe, key);
            && (t.Some? ==> KeysAreDistinct(t.value)) && (v.Some? ==> KeysAreDistinct(v.value))
            && Lookup(Merged(target, mixMe, overwrite), key) ==
               if v.None? then t
               else if t.None? then v
               else Some(MergedValue(t.value, v.value, overwrite))
  {
    hide KeysAreDistinct, DistinctKeys, Lookup, Assigned, MergedValue;
    if Lookup(target, key).Some? {
      LookupIsDistinct(target, key);
    }
    if mixMe == [] {
      assert Lookup(mixMe, key) == None by { NothingIn(key); }
    } else {
      var n := |mixMe| - 1;
      PrefixIsObject(mixMe);
      MergeAt(target, mixMe[..n], overwrite, key);
      LookupLast(mixMe, key);
      AfterItemAt(Merged(target, mixMe[..n], overwrite), mixMe[n].key, mixMe[n].value, overwrite, key);
      if mixMe[n].key == key {
        assert Lookup(mixMe[..n], key) == None by { NotBefore(mixMe, key); }
      }
    }
  }

  lemma AfterItemAt(m: Members, key: string, value: Value, overwrite: bool, k: string)
    requires IsObject(m) && KeysAreDistinct(value)
    ensures Lookup(m, key).Some? ==> KeysAreDistinct(Lookup(m, key).value)
    ensures Lookup(AfterItem(m, key, value, overwrite), k) ==
            if k != key then Lookup(m, k)
            else if Lookup(m, key).None? then Some(value)
            else Some(MergedValue(Lookup(m, key).value, value, overwrite))
  {
    hide KeysAreDistinct, DistinctKeys, Lookup, Assigned, MergedValue;
    var t := Lookup(m, key);
    if t.Some? {
      LookupIsDistinct(m, key);
      AssignedAt(m, key, MergedValue(t.value, value, overwrite), k);
    } else {
      AssignedAt(m, key, value, k);
    }
  }

  /**
   * A key of both objects: two objects are merged in turn, two arrays are joined, the target's elements first; any
   * other pair leaves the value of mixMe with overwriting and that of the target without.
   */
  lemma MergeOfBoth(target: Members, mixMe: Members, overwrite: bool, key: string)
    requires IsObject(target) && IsObject(mixMe) && Lookup(target, key).Some? && Lookup(mixMe, key).Some?
    ensures var t, v, r := Lookup(target, key).value, Lookup(mixMe, key).value,
                           Lookup(Merged(target, mixMe, overwrite), key);
            && (t.Object? && v.Object? ==> IsObject(t.members) && IsObject(v.members)
                                           && r == Some(Object(Merged(t.members, v.members, overwrite))))
            && (t.Array? && v.Array? ==> r == Some(Array(t.elements + v.elements)))
            && (!(t.Object? && v.Object?) && !(t.Array? && v.Array?) && overwrite ==> r == Some(v))
            && (!(t.Object? && v.Object?) && !(t.Array? && v.Array?) && !overwrite ==> r == Some(t))
  {
    hide Lookup, Merged, DistinctKeys;
    LookupIsDistinct(target, key);
    LookupIsDistinct(mixMe, key);
    MergeAt(target, mixMe, overwrite, key);
  }

  /** The value at the end of a path of keys. */
  function ValueAt(v: Value, path: seq<string>): Option<Value>
    decreases |path|
  {
    if path == [] then Some(v)
    else if !v.Object? || Lookup(v.members, path[0]).None? then None
    else ValueAt(Lookup(v.members, path[0]).value, path[1..])
  }

  predicate IsLeaf(v: Value) {
    !v.Object? && !v.Array?
  }

  /** Overwriting, the merge holds every leaf of mixMe under its path. */
  lemma {:induction false} OverwritingWins(target: Members, mixMe: Members, path: seq<string>, x: Value)
    requires IsObject(target) && IsObject(mixMe)
    requires path != [] && ValueAt(Object(mixMe), path) == Some(x) && IsLeaf(x)
    ensures ValueAt(Object(Merged(target, mixMe, true)), path) == Some(x)
    decreases |path|
  {
    hide Lookup, Merged, KeysAreDistinct, DistinctKeys, MergedValue;
    var v := Lookup(mixMe, path[0]).value;
    MergeAt(target, mixMe, true, path[0]);
    if Lookup(target, path[0]).Some? {
      var t := Lookup(target, path[0]).value;
      MergeOfBoth(target, mixMe, true, path[0]);
      if t.Object? && v.Object? {
        OverwritingWins(t.members, v.members, path[1..], x);
      }
    }
  }

  /** Without overwriting, the merge holds every leaf of the target under its path. */
  lemma {:induction false} KeepingWins(target: Members, mixMe: Members, path: seq<string>, x: Value)
    requires IsObject(target) && IsObject(mixMe)
    requires path != [] && ValueAt(Object(target), path) == Some(x) && IsLeaf(x)
    ensures ValueAt(Object(Merged(target, mixMe, false)), path) == Some(x)
    decreases |path|
  {
    hide Lookup, Merged, KeysAreDistinct, DistinctKeys, MergedValue;
    var t := Lookup(target, path[0]).value;
    MergeAt(target, mixMe, false, path[0]);
    if Lookup(mixMe, path[0]).Some? {
      var v := Lookup(mixMe, path[0]).value;
      MergeOfBoth(target, mixMe, false, path[0]);
      if t.Object? && v.Object? {
        KeepingWins(t.members, v.members, path[1..], x);
      }
    }
  }

  /** Two arrays under one path are joined, with or without overwriting. */
  lemma {:induction false} ArraysAreJoined(target: Members, mixMe: Members, overwrite: bool, path: seq<string>,
                                           xs: seq<Value>, ys: seq<Value>)
    requires IsObject(target) && IsObject(mixMe) && path != []
    requires ValueAt(Object(target), path) == Some(Array(xs)) && ValueAt(Object(mixMe), path) == Some(Array(ys))
    ensures ValueAt(Object(Merged(target, mixMe, overwrite)), path) == Some(Array(xs + ys))
    decreases |path|
  {
    hide Lookup, Merged, KeysAreDistinct, DistinctKeys, MergedValue;
    MergeOfBoth(target, mixMe, overwrite, path[0]);
    var t, v := Lookup(target, path[0]).value, Lookup(mixMe, path[0]).value;
    if path[1..] != [] {
      ArraysAreJoined(t.members, v.members, overwrite, path[1..], xs, ys);
    }
  }

  function KeysOf(m: Members): seq<string> {
    if m == [] then [] else KeysOf(m[..|m| - 1]) + [m[|m| - 1].key]
  }

  /** The keys of mixMe that the target does not have, in their order. */
  function NewKeys(target: Members, mixMe: Members): seq<string> {
    if mixMe == [] then []
    else
      var before, key := NewKeys(target, mixMe[..|mixMe| - 1]), mixMe[|mixMe| - 1].key;
      if Lookup(target, key).Some? then before else before + [key]
  }

  /** The target keeps its keys in their places; new keys follow in the order of mixMe. */
  lemma {:induction false} MergeKeepsOrder(target: Members, mixMe: Members, overwrite: bool)
    requires IsObject(target) && IsObject(mixMe)
    ensures KeysOf(Merged(target, mixMe, overwrite)) == KeysOf(target) + NewKeys(target, mixMe)
  {
    hide KeysAreDistinct, DistinctKeys, Lookup, Assigned, MergedValue;
    if mixMe == [] {
      assert NewKeys(target, mixMe) == [];
    } else {
      var n := |mixMe| - 1;
      PrefixIsObject(mixMe);
      MergeKeepsOrder(target, mixMe[..n], overwrite);
      var before := Merged(target, mixMe[..n], overwrite);
      MergeAt(target, mixMe[..n], overwrite, mixMe[n].key);
      NotBefore(mixMe, mixMe[n].key);
      var t := Lookup(before, mixMe[n].key);
      if t.Some? {
        LookupIsDistinct(before, mixMe[n].key);
        AssignedKeys(before, mixMe[n].key, MergedValue(t.value, mixMe[n].value, overwrite));
      } else {
        AssignedKeys(before, mixMe[n].key, mixMe[n].value);
      }
    }
  }

  lemma AssignedKeys(m: Members, key: string, value: Value)
    requires DistinctKeys(m)
    ensures KeysOf(Assigned(m, key, value)) == if Lookup(m, key).Some? then KeysOf(m) else KeysOf(m) + [key]
  {
    hide Lookup;
    if i: nat :| i < |m| && m[i].key == key {
      SameKeys(m, Assigned(m, key, value));
    } else {
      assert Assigned(m, key, value)[..|m|] == m;
    }
  }

  lemma {:induction false} SameKeys(m: Members, r: Members)
    requires |m| == |r| && forall i: nat :: i < |m| ==> m[i].key == r[i].key
    ensures KeysOf(m) == KeysOf(r)
  {
    if m != [] {
      SameKeys(m[..|m| - 1], r[..|r| - 1]);
    }
  }

  // ----- subtract -----

  predicate SameKind(v: Value, w: Value) {
    match v
    case Null => w.Null?
    case Bool(_) => w.Bool?
    case Number(kind, _) => w.Number? && w.kind == kind
    case String(_) => w.String?
    case Array(_) => w.Array?
    case Object(_) => w.Object?
  }

  predicate Contains(elements: seq<Value>, v: Value) {
    exists e <- elements :: Equal(e, v)
  }

  /** The elements without an equal one among others. */
  function Missing(elements: seq<Value>, others: seq<Value>): seq<Value> {
    if elements == [] then []
    else
      var n := |elements| - 1;
      var before := Missing(elements[..n], others);
      if Contains(others, elements[n]) then before else before + [elements[n]]
  }

  /** What is reported for a value that meets another under the same key. */
  function Rest(v: Value, w: Value): Option<Value>
    requires KeysAreDistinct(v)
    decreases v
  {
    if v.Object? && w.Object? then
      var nested := Subtracted(v.members, w.members);
      if nested == [] then None else Some(Object(nested))
    else if v.Array? && w.Array? then
      var missing := Missing(v.elements, w.elements);
      if missing == [] then None else Some(Array(missing))
    else if SameKind(v, w) then None
    else Some(v)
  }

  function Subtracted(first: Members, second: Members): (r: Members)
    requires IsObject(first)
    ensures DistinctKeys(r)
    decreases first
  {
    if first == [] then []
    else
      var item := first[|first| - 1];
      PrefixIsObject(first);
      var before := Subtracted(first[..|first| - 1], second);
      var w := Lookup(second, item.key);
      var rest := if w.Some? then Rest(item.value, w.value) else Some(item.value);
      if rest.Some? then Assigned(before, item.key, rest.value) else before
  }

  method SubtractJson(first: Members, second: Members) returns (result: Members)
    requires IsObject(first)
    ensures result == Subtracted(first, second)
    decreases first
  {
    hide KeysAreDistinct, DistinctKeys, Lookup, Assigned;
    result := [];
    assert first[..|first|] == first;
    PrefixesAreObjects(first, 0);
    for i := 0 to |first|
      invariant IsObject(first[..i]) && result == Subtracted(first[..i], second)
    {
      PrefixesAreObjects(first, i + 1);
      assert first[..i + 1][..i] == first[..i];
      var key, value := first[i].key, first[i].value;
      var w := Lookup(second, key);
      if w.Some? {
        var rest := SubtractValue(value, w.value);
        if rest.Some? {
          result := Assigned(result, key, rest.value);
        }
      } else {
        result := Assigned(result, key, value);
      }
    }
  }

  // What the loop of SubtractJson does with a key of both objects.
  method SubtractValue(value: Value, other: Value) returns (rest: Option<Value>)
    requires KeysAreDistinct(value)
    ensures rest == Rest(value, other)
    decreases value, 1
  {
    rest := None;
    if value.Object? && other.Object? {
      var nested := SubtractJson(value.members, other.members);
      if nested != [] {
        rest := Some(Object(nested));
      }
    } else if value.Array? && other.Array? {
      var missing: seq<Value> := [];
      assert value.elements[..|value.elements|] == value.elements;
      for i := 0 to |value.elements|
        invariant missing == Missing(value.elements[..i], other.elements)
      {
        assert value.elements[..i + 1][..i] == value.elements[..i];
        if !Contains(other.elements, value.elements[i]) {
          missing := missing + [value.elements[i]];
        }
      }
      if missing != [] {
        rest := Some(Array(missing));
      }
    } else if SameKind(value, other) {
    } else {
      rest := Some(value);
    }
  }

  /** What the difference holds, key by key. */
  lemma {:induction false} SubtractAt(first: Members, second: Members, key: string)
    requires IsObject(first)
    ensures var v, w := Lookup(first, key), Lookup(second, key);
            && (v.Some? ==> KeysAreDistinct(v.value))
            && Lookup(Subtracted(first, second), key) ==
               if v.None? || w.None? then v else Rest(v.value, w.value)
  {
    hide KeysAreDistinct, DistinctKeys, Lookup, Assigned, Rest;
    NothingIn(key);
    if first != [] {
      var n := |first| - 1;
      var item := first[n];
      PrefixIsObject(first);
      SubtractAt(first[..n], second, key);
      LookupLast(first, key);
      var before := Subtracted(first[..n], second);
      var w := Lookup(second, item.key);
      var rest := if w.Some? then Rest(item.value, w.value) else Some(item.value);
      if rest.Some? {
        AssignedAt(before, item.key, rest.value, key);
      }
      if item.key == key {
        NotBefore(first, key);
      }
    }
  }

  /** The kinds of a value, as Boost.JSON counts them. */
  function KindOf(v: Value): nat {
    match v
    case Null => 0
    case Bool(_) => 1
    case Number(kind, _) => if kind == Int64 then 2 else if kind == Uint64 then 3 else 4
    case String(_) => 5
    case Array(_) => 6
    case Object(_) => 7
  }

  lemma KindsAgree(v: Value, w: Value)
    ensures SameKind(v, w) <==> KindOf(v) == KindOf(w)
  {
  }

  /** The places of elements that equal none of the others, in order and each once. */
  ghost predicate AreUnmatched(places: seq<nat>, elements: seq<Value>, others: seq<Value>) {
    && (forall i: nat, j: nat :: i < j < |places| ==> places[i] < places[j])
    && (forall i: nat :: i < |places| ==> places[i] < |elements|)
    && (forall k: nat :: k < |elements| ==> (k in places <==> forall e <- others :: !Equal(e, elements[k])))
  }

  ghost function AtPlaces(elements: seq<Value>, places: seq<nat>): seq<Value>
    requires forall i: nat :: i < |places| ==> places[i] < |elements|
  {
    seq(|places|, i requires 0 <= i < |places| => elements[places[i]])
  }

  /** Missing takes exactly the elements that equal none of the others: as often as they occur, in their order. */
  lemma {:induction false} MissingIs(elements: seq<Value>, others: seq<Value>) returns (places: seq<nat>)
    ensures AreUnmatched(places, elements, others) && Missing(elements, others) == AtPlaces(elements, places)
  {
    hide Equal;
    if elements == [] {
      places := [];
      assert AtPlaces(elements, places) == [];
    } else {
      var n := |elements| - 1;
      var before := MissingIs(elements[..n], others);
      assert AtPlaces(elements[..n], before) == AtPlaces(elements, before);
      if Contains(others, elements[n]) {
        places := before;
      } else {
        places := before + [n];
        assert AtPlaces(elements, places) == AtPlaces(elements, before) + [elements[n]];
      }
    }
  }

  /**
   * What is reported under a key of both objects: of two arrays the unmatched elements, of two objects their
   * difference, and of different kinds the value of the first; nothing of one kind, and nothing where nothing is left.
   */
  lemma SubtractOfBoth(first: Members, second: Members, key: string)
    requires IsObject(first) && Lookup(first, key).Some? && Lookup(second, key).Some?
    ensures var v, w, r := Lookup(first, key).value, Lookup(second, key).value, Lookup(Subtracted(first, second), key);
            && (v.Object? && w.Object? ==>
                  IsObject(v.members)
                  && r == var d := Subtracted(v.members, w.members); if d == [] then None else Some(Object(d)))
            && (v.Array? && w.Array? ==>
                  exists places :: AreUnmatched(places, v.elements, w.elements)
                    && r == if places == [] then None else Some(Array(AtPlaces(v.elements, places))))
            && (KindOf(v) != KindOf(w) ==> r == Some(v))
            && (KindOf(v) == KindOf(w) && IsLeaf(v) ==> r == None)
  {
    hide Lookup, Subtracted, DistinctKeys, Equal, Missing;
    var v, w := Lookup(first, key).value, Lookup(second, key).value;
    LookupIsDistinct(first, key);
    SubtractAt(first, second, key);
    KindsAgree(v, w);
    if v.Array? && w.Array? {
      var places := MissingIs(v.elements, w.elements);
    }
  }

  /** The places of the keys of one object among those of another, in order. */
  ghost predicate ArePlaces(places: seq<nat>, keys: Members, first: Members) {
    && |places| == |keys|
    && (forall i: nat, j: nat :: i < j < |places| ==> places[i] < places[j])
    && (forall i: nat :: i < |places| ==> places[i] < |first| && first[places[i]].key == keys[i].key)
  }

  lemma MorePlaces(places: seq<nat>, was: Members, d: Members, first: Members) returns (more: seq<nat>)
    requires first != [] && ArePlaces(places, was, first[..|first| - 1])
    requires d == was || (|d| == |was| + 1 && d[..|was|] == was && d[|was|].key == first[|first| - 1].key)
    ensures ArePlaces(more, d, first)
  {
    more := if d == was then places else places + [|first| - 1];
    forall i: nat | i < |was| ensures d[i] == was[i] {
      assert d != was ==> d[..|was|][i] == d[i];
    }
  }

  /** The difference has the keys of the first object in their order. */
  lemma {:induction false} SubtractKeepsOrder(first: Members, second: Members) returns (places: seq<nat>)
    requires IsObject(first)
    ensures ArePlaces(places, Subtracted(first, second), first)
  {
    if first == [] {
      places := [];
    } else {
      PrefixIsObject(first);
      hide *;
      var before := SubtractKeepsOrder(first[..|first| - 1], second);
      SubtractLast(first, second);
      places := MorePlaces(before, Subtracted(first[..|first| - 1], second), Subtracted(first, second), first);
    }
  }

  /** The last member of the first object adds nothing, or one member of its key at the end. */
  lemma SubtractLast(first: Members, second: Members)
    requires IsObject(first) && first != []
    ensures var n := |first| - 1;
            && IsObject(first[..n])
            && var d, was := Subtracted(first, second), Subtracted(first[..n], second);
               d == was || (|d| == |was| + 1 && d[..|was|] == was && d[|was|].key == first[n].key)
  {
    hide KeysAreDistinct, DistinctKeys, Lookup, Rest, Assigned;
    var n := |first| - 1;
    PrefixIsObject(first);
    var was := Subtracted(first[..n], second);
    SubtractAt(first[..n], second, first[n].key);
    NotBefore(first, first[n].key);
    var w := Lookup(second, first[n].key);
    var rest := if w.Some? then Rest(first[n].value, w.value) else Some(first[n].value);
    if rest.Some? {
      AssignedNew(was, first[n].key, rest.value);
    }
  }

  lemma AssignedNew(m: Members, key: string, v: Value)
    requires DistinctKeys(m) && Lookup(m, key).None?
    ensures Assigned(m, key, v) == m + [Member(key, v)]
  {
    hide Lookup;
  }

  // ----- when nothing is left -----

  /** Nothing of v is missing in w: no key, no element, no other kind, at any depth. */
  ghost predicate CoveredValue(v: Value, w: Value)
    decreases v
  {
    if v.Object? && w.Object? then Covered(v.members, w.members)
    else if v.Array? && w.Array? then forall e <- v.elements :: Contains(w.elements, e)
    else SameKind(v, w)
  }

  ghost predicate Covered(first: Members, second: Members)
    decreases first
  {
    forall m <- first :: Lookup(second, m.key).Some? && CoveredValue(m.value, Lookup(second, m.key).value)
  }

  lemma {:induction false} NothingMissing(elements: seq<Value>, others: seq<Value>)
    ensures Missing(elements, others) == [] <==> forall e <- elements :: Contains(others, e)
  {
    hide Contains;
    if elements != [] {
      var n := |elements| - 1;
      NothingMissing(elements[..n], others);
      assert elements == elements[..n] + [elements[n]];
      assert elements[n] in elements;
    }
  }

  lemma {:induction false} NoRest(v: Value, w: Value)
    requires KeysAreDistinct(v)
    ensures Rest(v, w).None? <==> CoveredValue(v, w)
    decreases v, 1
  {
    if v.Object? && w.Object? {
      SubtractIsEmpty(v.members, w.members);
    } else if v.Array? && w.Array? {
      NothingMissing(v.elements, w.elements);
    }
  }

  /** The difference is empty exactly when the first object is covered by the second. */
  lemma {:induction false} SubtractIsEmpty(first: Members, second: Members)
    requires IsObject(first)
    ensures Subtracted(first, second) == [] <==> Covered(first, second)
    decreases first
  {
    hide KeysAreDistinct, DistinctKeys, Lookup, Assigned, Rest, CoveredValue;
    if first != [] {
      var n := |first| - 1;
      var item := first[n];
      PrefixIsObject(first);
      SubtractIsEmpty(first[..n], second);
      assert first == first[..n] + [item];
      assert item in first;
      var w := Lookup(second, item.key);
      if w.Some? {
        NoRest(item.value, w.value);
      }
      AssignedIsNotEmpty(Subtracted(first[..n], second), item);
    }
  }

  lemma AssignedIsNotEmpty(m: Members, item: Member)
    requires DistinctKeys(m)
    ensures forall v: Value :: Assigned(m, item.key, v) != []
  {
    hide Lookup;
  }

  lemma {:induction false} CoversItself(v: Value)
    requires KeysAreDistinct(v)
    ensures CoveredValue(v, v)
    decreases v
  {
    hide Lookup;
    match v
    case Array(elements) =>
      forall e <- elements ensures Contains(elements, e) {
        EqualToItself(e);
      }
    case Object(members) =>
      forall m <- members
        ensures Lookup(members, m.key).Some? && CoveredValue(m.value, Lookup(members, m.key).value)
      {
        var i: nat :| i < |members| && members[i] == m;
        LookupAt(members, i);
        CoversItself(m.value);
      }
    case _ =>
  }

  /** Subtracting an object from itself leaves nothing. */
  lemma SubtractSelf(a: Members)
    requires IsObject(a)
    ensures Subtracted(a, a) == []
  {
    assert KeysAreDistinct(Object(a));
    CoversItself(Object(a));
    SubtractIsEmpty(a, a);
  }

  /** The merged value covers the one merged in if it may overwrite, and the one it was merged into if not. */
  lemma {:induction false} MergedValueCovers(t: Value, v: Value)
    requires KeysAreDistinct(t) && KeysAreDistinct(v)
    ensures CoveredValue(v, MergedValue(t, v, true)) && CoveredValue(t, MergedValue(t, v, false))
    decreases v, 1
  {
    if v.Object? && t.Object? {
      MergeCovers(t.members, v.members);
    } else if v.Array? && t.Array? {
      forall e | e in v.elements || e in t.elements ensures Contains(t.elements + v.elements, e) {
        assert KeysAreDistinct(e);
        EqualToItself(e);
        assert e in t.elements + v.elements;
      }
    } else {
      CoversItself(v);
      CoversItself(t);
    }
  }

  lemma {:induction false} MergeCovers(a: Members, b: Members)
    requires IsObject(a) && IsObject(b)
    ensures Covered(b, Merged(a, b, true)) && Covered(a, Merged(a, b, false))
    decreases b
  {
    hide KeysAreDistinct, Lookup, Merged, MergedValue, CoveredValue;
    var over, under := Merged(a, b, true), Merged(a, b, false);
    forall m <- b ensures Lookup(over, m.key).Some? && CoveredValue(m.value, Lookup(over, m.key).value) {
      var i: nat :| i < |b| && b[i] == m;
      LookupAt(b, i);
      MergeAt(a, b, true, m.key);
      var t := Lookup(a, m.key);
      if t.Some? {
        MergedValueCovers(t.value, m.value);
      } else {
        CoversItself(m.value);
      }
    }
    forall m <- a ensures Lookup(under, m.key).Some? && CoveredValue(m.value, Lookup(under, m.key).value) {
      var i: nat :| i < |a| && a[i] == m;
      LookupAt(a, i);
      MergeAt(a, b, false, m.key);
      var v := Lookup(b, m.key);
      if v.Some? {
        LookupInside(b, m.key);
        MergedValueCovers(m.value, v.value);
      } else {
        CoversItself(m.value);
      }
    }
  }

  lemma LookupInside(m: Members, key: string)
    requires Lookup(m, key).Some?
    ensures exists i: nat | i < |m| :: m[i].value == Lookup(m, key).value
  {
    hide Lookup;
  }

  /** After b is merged into a with overwriting, nothing of b is left to subtract. */
  lemma SubtractFromOverwrittenMerge(a: Members, b: Members)
    requires IsObject(a) && IsObject(b)
    ensures Subtracted(b, Merged(a, b, true)) == []
  {
    hide *;
    MergeCovers(a, b);
    SubtractIsEmpty(b, Merged(a, b, true));
  }

  /** Without overwriting, nothing of a is lost. */
  lemma SubtractFromKeptMerge(a: Members, b: Members)
    requires IsObject(a) && IsObject(b)
    ensures Subtracted(a, Merged(a, b, false)) == []
  {
    hide *;
    MergeCovers(a, b);
    SubtractIsEmpty(a, Merged(a, b, false));
  }
}
