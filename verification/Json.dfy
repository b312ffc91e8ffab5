/** JSON values as Boost.JSON holds them, with members in order of insertion, and the equality of values. */
module Json {
  import opened Outcomes
  import opened FiniteSets

  datatype NumberKind = Int64 | Uint64 | Double

  /**
   * A number is known by the text it serializes to, a string and a key by the escaped text between the quotes.
   * The members of an object are in insertion order.
   */
  datatype Value =
    | Null
    | Bool(b: bool)
    | Number(kind: NumberKind, text: string)
    | String(body: string)
    | Array(elements: seq<Value>)
    | Object(members: Members)

  datatype Member = Member(key: string, value: Value)

  type Members = seq<Member>

  ghost predicate DistinctKeys(m: Members) {
    forall i: nat, j: nat :: i < j < |m| ==> m[i].key != m[j].key
  }

  function Lookup(m: Members, key: string): (v: Option<Value>)
    ensures v.Some? <==> exists i: nat | i < |m| :: m[i].key == key
    ensures v.Some? ==> exists i: nat | i < |m| :: m[i] == Member(key, v.value)
  {
    if m == [] then None
    else if m[0].key == key then Some(m[0].value)
    else
      var v := Lookup(m[1..], key);
      assert forall i: nat :: 0 < i < |m| ==> m[i] == m[1..][i - 1];
      assert forall i: nat :: i < |m[1..]| ==> m[1..][i] == m[i + 1];
      v
  }

  /** insert_or_assign: a known key keeps its place. */
  function Assigned(m: Members, key: string, value: Value): (r: Members)
    requires DistinctKeys(m)
    ensures DistinctKeys(r)
    ensures |r| == if Lookup(m, key).Some? then |m| else |m| + 1
  {
    if i: nat :| i < |m| && m[i].key == key then m[i := Member(key, value)] else m + [Member(key, value)]
  }

  lemma {:induction false} LookupAt(m: Members, i: nat)
    requires DistinctKeys(m) && i < |m|
    ensures Lookup(m, m[i].key) == Some(m[i].value)
  {
  }

  lemma AssignedAt(m: Members, key: string, value: Value, k: string)
    requires DistinctKeys(m)
    ensures Lookup(Assigned(m, key, value), k) == if k == key then Some(value) else Lookup(m, k)
  {
    hide Lookup;
    var r := Assigned(m, key, value);
    if k == key {
      var i := AssignedPlace(m, key, value);
      LookupAt(r, i);
    } else {
      assert forall i: nat :: i < |m| && m[i].key == k ==> r[i] == m[i];
      if i: nat :| i < |r| && r[i].key == k {
        LookupAt(r, i);
        LookupAt(m, i);
      }
    }
  }

  lemma AssignedPlace(m: Members, key: string, value: Value) returns (i: nat)
    requires DistinctKeys(m)
    ensures i < |Assigned(m, key, value)| && Assigned(m, key, value)[i] == Member(key, value)
  {
    if j: nat :| j < |m| && m[j].key == key {
      i := j;
    } else {
      i := |m|;
    }
  }

  lemma {:induction false} LookupLast(m: Members, key: string)
    requires DistinctKeys(m) && m != []
    ensures var n := |m| - 1;
            Lookup(m, key) == if m[n].key == key then Some(m[n].value) else Lookup(m[..n], key)
  {
    var n := |m| - 1;
    if m[n].key == key {
      LookupAt(m, n);
    } else if i: nat :| i < n && m[..n][i].key == key {
      LookupAt(m[..n], i);
      LookupAt(m, i);
    } else {
      assert forall i: nat :: i < n ==> m[..n][i] == m[i];
    }
  }

  lemma NothingIn(key: string)
    ensures Lookup([], key) == None
  {
  }

  lemma NotBefore(m: Members, key: string)
    requires DistinctKeys(m) && m != [] && m[|m| - 1].key == key
    ensures Lookup(m[..|m| - 1], key) == None
  {
    var before := m[..|m| - 1];
    assert forall i: nat :: i < |before| ==> before[i].key != key;
  }

  /** Every object has distinct keys, at every depth. */
  ghost predicate KeysAreDistinct(v: Value) {
    match v
    case Array(elements) => forall e <- elements :: KeysAreDistinct(e)
    case Object(members) => DistinctKeys(members) && forall m <- members :: KeysAreDistinct(m.value)
    case _ => true
  }

  /** The equality of Boost.JSON: the order of members and the kind of an integer do not matter. */
  predicate Equal(v: Value, w: Value)
    decreases v
  {
    match v
    case Null => w.Null?
    case Bool(b) => w == v
    case Number(kind, text) => w.Number? && w.text == text && (w.kind == Double <==> kind == Double)
    case String(body) => w == v
    case Array(elements) =>
      w.Array? && |elements| == |w.elements|
      && forall i: nat | i < |elements| :: Equal(elements[i], w.elements[i])
    case Object(members) =>
      w.Object? && |members| == |w.members|
      && forall m <- members :: var o := Lookup(w.members, m.key); o.Some? && Equal(m.value, o.value)
  }

  lemma {:induction false} EqualToItself(v: Value)
    requires KeysAreDistinct(v)
    ensures Equal(v, v)
    decreases v
  {
    match v
    case Array(elements) =>
      forall i: nat | i < |elements| ensures Equal(elements[i], elements[i]) {
        EqualToItself(elements[i]);
      }
    case Object(members) =>
      forall m <- members ensures Lookup(members, m.key) == Some(m.value) && Equal(m.value, m.value) {
        var i: nat :| i < |members| && members[i] == m;
        LookupAt(members, i);
        EqualToItself(m.value);
      }
    case _ =>
  }

  // ----- what equality compares -----

  /** A value without what equality does not see: the order of members and the kind of an integer. */
  datatype Content =
    | Nothing
    | Truth(b: bool)
    | Integer(text: string)
    | Floating(text: string)
    | Text(body: string)
    | List(elements: seq<Content>)
    | Dictionary(entries: map<string, Content>)

  function ContentOf(v: Value): Content
    decreases v
  {
    match v
    case Null => Nothing
    case Bool(b) => Truth(b)
    case Number(kind, text) => if kind == Double then Floating(text) else Integer(text)
    case String(body) => Text(body)
    case Array(elements) => List(seq(|elements|, i requires 0 <= i < |elements| => ContentOf(elements[i])))
    case Object(members) => Dictionary(EntriesOf(members))
  }

  function EntriesOf(m: Members): map<string, Content>
    decreases m
  {
    if m == [] then map[] else EntriesOf(m[..|m| - 1])[m[|m| - 1].key := ContentOf(m[|m| - 1].value)]
  }

  /** The entries are the members, by key. */
  lemma {:induction false} EntriesAre(m: Members, key: string)
    requires DistinctKeys(m)
    ensures key in EntriesOf(m) <==> Lookup(m, key).Some?
    ensures key in EntriesOf(m) ==> EntriesOf(m)[key] == ContentOf(Lookup(m, key).value)
  {
    hide ContentOf, Lookup;
    if m == [] {
      NothingIn(key);
    } else {
      EntriesAre(m[..|m| - 1], key);
      LookupLast(m, key);
    }
  }

  lemma {:induction false} EntriesSize(m: Members)
    requires DistinctKeys(m)
    ensures |EntriesOf(m).Keys| == |m|
  {
    hide ContentOf, Lookup;
    if m != [] {
      var n := |m| - 1;
      EntriesSize(m[..n]);
      EntriesAre(m[..n], m[n].key);
      NotBefore(m, m[n].key);
      assert EntriesOf(m).Keys == EntriesOf(m[..n]).Keys + {m[n].key};
    }
  }

  /** Two values are equal exactly when their contents are the same. */
  lemma {:induction false} EqualIsSameContent(v: Value, w: Value)
    requires KeysAreDistinct(v) && KeysAreDistinct(w)
    ensures Equal(v, w) <==> ContentOf(v) == ContentOf(w)
    decreases v
  {
    match v
    case Array(elements) =>
      if w.Array? {
        EqualArrays(v, w);
      }
    case Object(members) =>
      if w.Object? {
        EqualObjects(v, w);
      }
    case _ =>
  }

  lemma {:induction false} EqualArrays(v: Value, w: Value)
    requires KeysAreDistinct(v) && KeysAreDistinct(w) && v.Array? && w.Array?
    ensures Equal(v, w) <==> ContentOf(v) == ContentOf(w)
    decreases v, 0
  {
    var es, fs := v.elements, w.elements;
    forall i: nat | i < |es| && i < |fs| ensures Equal(es[i], fs[i]) <==> ContentOf(es[i]) == ContentOf(fs[i]) {
      EqualIsSameContent(es[i], fs[i]);
    }
    var cs, ds := ContentOf(v).elements, ContentOf(w).elements;
    assert forall i: nat :: i < |es| ==> cs[i] == ContentOf(es[i]);
    assert forall i: nat :: i < |fs| ==> ds[i] == ContentOf(fs[i]);
  }

  lemma {:induction false} EqualObjects(v: Value, w: Value)
    requires KeysAreDistinct(v) && KeysAreDistinct(w) && v.Object? && w.Object?
    ensures Equal(v, w) <==> ContentOf(v) == ContentOf(w)
    decreases v, 0
  {
    hide Lookup, EntriesOf, Equal, ContentOf;
    var ms, ns := v.members, w.members;
    forall m <- ms | Lookup(ns, m.key).Some?
      ensures Equal(m.value, Lookup(ns, m.key).value) <==> ContentOf(m.value) == ContentOf(Lookup(ns, m.key).value)
    {
      var i: nat :| i < |ns| && ns[i] == Member(m.key, Lookup(ns, m.key).value);
      assert ns[i] in ns;
      EqualIsSameContent(m.value, Lookup(ns, m.key).value);
    }
    EqualOfObjects(v, w);
    if Equal(v, w) {
      FoundEntriesAreSame(ms, ns);
    }
    if ContentOf(v) == ContentOf(w) {
      SameEntriesAreFound(ms, ns);
    }
  }

  lemma EqualOfObjects(v: Value, w: Value)
    requires v.Object? && w.Object?
    ensures Equal(v, w) <==>
            |v.members| == |w.members| && forall m <- v.members ::
              Lookup(w.members, m.key).Some? && Equal(m.value, Lookup(w.members, m.key).value)
    ensures ContentOf(v) == ContentOf(w) <==> EntriesOf(v.members) == EntriesOf(w.members)
  {
    hide Lookup, EntriesOf;
  }

  /** Each member is found in the other object under its key, with the same content. */
  ghost predicate FoundIn(ms: Members, ns: Members) {
    forall m <- ms :: Lookup(ns, m.key).Some? && ContentOf(m.value) == ContentOf(Lookup(ns, m.key).value)
  }

  lemma SameEntriesAreFound(ms: Members, ns: Members)
    requires DistinctKeys(ms) && DistinctKeys(ns) && EntriesOf(ms) == EntriesOf(ns)
    ensures |ms| == |ns| && FoundIn(ms, ns)
  {
    hide Lookup, EntriesOf, ContentOf;
    EntriesSize(ms);
    EntriesSize(ns);
    forall m <- ms ensures Lookup(ns, m.key).Some? && ContentOf(m.value) == ContentOf(Lookup(ns, m.key).value) {
      EntryOfMember(ms, m);
      EntriesAre(ns, m.key);
    }
  }

  lemma FoundEntriesAreSame(ms: Members, ns: Members)
    requires DistinctKeys(ms) && DistinctKeys(ns) && |ms| == |ns| && FoundIn(ms, ns)
    ensures EntriesOf(ms) == EntriesOf(ns)
  {
    hide Lookup, EntriesOf, ContentOf;
    EntriesSize(ms);
    EntriesSize(ns);
    var es, fs := EntriesOf(ms), EntriesOf(ns);
    forall key <- es ensures key in fs && es[key] == fs[key] {
      var m := MemberOfEntry(ms, key);
      EntriesAre(ns, key);
    }
    SubsetOfSameSize(es.Keys, fs.Keys);
  }

  lemma EntryOfMember(ms: Members, m: Member)
    requires DistinctKeys(ms) && m in ms
    ensures m.key in EntriesOf(ms) && EntriesOf(ms)[m.key] == ContentOf(m.value)
  {
    hide Lookup, EntriesOf, ContentOf;
    var i: nat :| i < |ms| && ms[i] == m;
    LookupAt(ms, i);
    EntriesAre(ms, m.key);
  }

  lemma MemberOfEntry(ms: Members, key: string) returns (m: Member)
    requires DistinctKeys(ms) && key in EntriesOf(ms)
    ensures m in ms && m.key == key && EntriesOf(ms)[key] == ContentOf(m.value)
  {
    hide EntriesOf, ContentOf;
    EntriesAre(ms, key);
    var i: nat :| i < |ms| && ms[i] == Member(key, Lookup(ms, key).value);
    m := ms[i];
  }
}
