/** The members of a JSON object: looking one up, and setting one in place. */
module JsonObjects {
  import opened Basics
  import opened Bytes
  import opened Json

  /** The first member with this key. */
  function Lookup(members: seq<Member>, key: bytes): Option<Value> {
    if members == [] then None
    else if members[0].key == key then Some(members[0].value)
    else Lookup(members[1..], key)
  }

  /** The value replaces that of the first member with this key, or goes in a new member at the end. */
  function WithMember(members: seq<Member>, key: bytes, v: Value): seq<Member> {
    if members == [] then [Member(key, v)]
    else if members[0].key == key then [Member(key, v)] + members[1..]
    else [members[0]] + WithMember(members[1..], key, v)
  }

  predicate DistinctKeys(members: seq<Member>) {
    forall i, j | 0 <= i < j < |members| :: members[i].key != members[j].key
  }

  function Members(v: Value): seq<Member> {
    if v.Obj? then v.members else []
  }

  function Find(v: Value, key: bytes): Option<Value> {
    Lookup(Members(v), key)
  }

  lemma {:induction false} LookupFinds(members: seq<Member>, key: bytes)
    ensures Lookup(members, key) == None <==> forall i | 0 <= i < |members| :: members[i].key != key
    ensures forall v | Lookup(members, key) == Some(v) :: Member(key, v) in members
  {
    if members != [] && members[0].key != key {
      LookupFinds(members[1..], key);
      assert forall m | m in members[1..] :: m in members;
      if Lookup(members, key) == None {
        forall i | 0 <= i < |members| ensures members[i].key != key {
          if i > 0 {
            assert members[i] == members[1..][i - 1];
          }
        }
      }
    }
  }

  /** Setting a key makes it found with that value and leaves every other key's lookup alone. */
  lemma {:induction false} SetThenLookup(members: seq<Member>, key: bytes, v: Value, other: bytes)
    ensures Lookup(WithMember(members, key, v), other) == if other == key then Some(v) else Lookup(members, other)
  {
    var s := WithMember(members, key, v);
    if members == [] {
      assert s[1..] == [];
    } else if members[0].key == key {
      assert s[1..] == members[1..];
    } else {
      SetThenLookup(members[1..], key, v, other);
      assert s[1..] == WithMember(members[1..], key, v);
    }
  }

  /** The keys keep their order; a new one goes last. */
  lemma {:induction false} SetKeepsOrder(members: seq<Member>, key: bytes, v: Value)
    ensures var s := WithMember(members, key, v);
            && |s| == |members| + (if Lookup(members, key) == None then 1 else 0)
            && (forall i | 0 <= i < |members| :: s[i].key == members[i].key)
            && (|s| > |members| ==> s[|members|] == Member(key, v))
  {
    if members != [] && members[0].key != key {
      SetKeepsOrder(members[1..], key, v);
    }
  }

  lemma SetKeepsDistinct(members: seq<Member>, key: bytes, v: Value)
    requires DistinctKeys(members)
    ensures DistinctKeys(WithMember(members, key, v))
  {
    SetKeepsOrder(members, key, v);
    LookupFinds(members, key);
  }

  /** A key that is there already keeps its place; one that is not goes last. */
  lemma {:induction false} SetAppends(members: seq<Member>, key: bytes, v: Value)
    requires Lookup(members, key) == None
    ensures WithMember(members, key, v) == members + [Member(key, v)]
  {
    if members != [] {
      SetAppends(members[1..], key, v);
    }
  }

  /** A value updated in place. */
  class Cell {
    var value: Value

    constructor (v: Value)
      ensures value == v
    {
      value := v;
    }

    /** A value that is not an object becomes one first. */
    method Set(key: bytes, v: Value)
      modifies this
      ensures value == Obj(WithMember(Members(old(value)), key, v))
    {
      ghost var start := Members(value);
      if !value.Obj? {
        value := Obj([]);
      }
      for i := 0 to |value.members|
        invariant value == Obj(start)
        invariant WithMember(start, key, v) == start[..i] + WithMember(start[i..], key, v)
      {
        if value.members[i].key == key {
          SetAt(start, i, key, v);
          value := Obj(value.members[i := Member(key, v)]);
          return;
        }
        SetLater(start, i, key, v);
      }
      assert start[..|start|] == start;
      value := Obj(value.members + [Member(key, v)]);
    }

    method Get(key: bytes) returns (r: Option<Value>)
      ensures r == Find(value, key)
    {
      if !value.Obj? {
        return None;
      }
      for i := 0 to |value.members|
        invariant Lookup(value.members[i..], key) == Find(value, key)
      {
        if value.members[i].key == key {
          return Some(value.members[i].value);
        }
        assert value.members[i..][1..] == value.members[i + 1..];
      }
      return None;
    }
  }

  lemma SetAt(members: seq<Member>, i: nat, key: bytes, v: Value)
    requires i < |members| && members[i].key == key
    ensures members[..i] + WithMember(members[i..], key, v) == members[i := Member(key, v)]
  {
    assert members[i..][1..] == members[i + 1..];
  }

  lemma SetLater(members: seq<Member>, i: nat, key: bytes, v: Value)
    requires i < |members| && members[i].key != key
    ensures members[..i] + WithMember(members[i..], key, v) == members[..i + 1] + WithMember(members[i + 1..], key, v)
  {
    assert members[i..][1..] == members[i + 1..];
    assert members[..i + 1] == members[..i] + [members[i]];
  }
}
