/** The environment of a launched process: what the parent has, the overrides, and the listing that the
    child is given. */
module Environment {
  import opened Bytes
  import opened DescriptorRoundTrip
  import opened LaunchDescriptor
  import opened Sequences
  import Utf8

  // ---- reading an environment ----

  /** Everything before the first '='. */
  function NameOf(entry: bytes): (name: bytes)
    requires EQUALS in entry
    ensures |name| < |entry| && entry[|name|] == EQUALS && name == entry[..|name|] && EQUALS !in name
  {
    if entry[0] == EQUALS then [] else [entry[0]] + NameOf(entry[1..])
  }

  /** The environment that entries `NAME=value` stand for, a later one over an earlier; the rest are
      skipped. */
  function EnvironmentOf(entries: seq<bytes>): (env: map<bytes, bytes>)
    ensures forall name | name in env :: EQUALS !in name
  {
    if entries == [] then map[]
    else
      var front, last := EnvironmentOf(entries[..|entries| - 1]), entries[|entries| - 1];
      if EQUALS in last then front[NameOf(last) := last[|NameOf(last)| + 1..]] else front
  }

  // ---- listing one ----

  /** The name that an ordered map lists first. */
  predicate IsFirst(name: bytes, names: set<bytes>) {
    name in names && forall other | other in names :: other == name || Less(name, other)
  }

  lemma {:induction false} FirstExists(names: set<bytes>) returns (name: bytes)
    requires names != {}
    ensures IsFirst(name, names)
    decreases |names|
  {
    name :| name in names;
    var others := names - {name};
    if others != {} {
      var least := FirstExists(others);
      LessIsStrict(name, least);
      if Less(least, name) {
        name := least;
      } else {
        forall other | other in others
          ensures Less(name, other)
        {
          if other != least {
            LessChains(name, least, other);
          }
        }
      }
    }
  }

  lemma FirstIsUnique(a: bytes, b: bytes, names: set<bytes>)
    requires IsFirst(a, names) && IsFirst(b, names)
    ensures a == b
  {
    LessIsStrict(a, b);
  }

  ghost function First(names: set<bytes>): (name: bytes)
    requires names != {}
    ensures IsFirst(name, names)
  {
    assert exists name :: IsFirst(name, names) by {
      var name := FirstExists(names);
    }
    var name :| IsFirst(name, names);
    name
  }

  function Entry(env: map<bytes, bytes>, name: bytes): bytes
    requires name in env
  {
    name + [EQUALS] + env[name]
  }

  /** The entries of some names, in order of the names. */
  ghost function Listing(env: map<bytes, bytes>, names: set<bytes>): seq<bytes>
    requires names <= env.Keys
    decreases |names|
  {
    if names == {} then [] else [Entry(env, First(names))] + Listing(env, names - {First(names)})
  }

  method ListEnvironment(env: map<bytes, bytes>) returns (out: seq<bytes>)
    ensures out == Listing(env, env.Keys)
  {
    out := [];
    var ahead := env.Keys;
    while ahead != {}
      invariant ahead <= env.Keys && out + Listing(env, ahead) == Listing(env, env.Keys)
      decreases |ahead|
    {
      ghost var first := First(ahead);
      var name :| IsFirst(name, ahead);
      FirstIsUnique(name, first, ahead);
      Assoc(out, [Entry(env, name)], Listing(env, ahead - {name}));
      out := out + [Entry(env, name)];
      ahead := ahead - {name};
    }
  }

  method BuildEnvironment(entries: seq<bytes>, overrides: seq<EnvVar>) returns (out: seq<bytes>)
    ensures var env := Overlay(EnvironmentOf(entries), overrides); out == Listing(env, env.Keys)
  {
    var env: map<bytes, bytes> := map[];
    for i := 0 to |entries|
      invariant env == EnvironmentOf(entries[..i])
    {
      if EQUALS in entries[i] {
        var name := NameOf(entries[i]);
        env := env[name := entries[i][|name| + 1..]];
      }
      assert entries[..i + 1][..i] == entries[..i];
    }
    assert entries[..|entries|] == entries;
    for i := 0 to |overrides|
      invariant env == Overlay(EnvironmentOf(entries), overrides[..i])
    {
      env := env[overrides[i].name := overrides[i].value];
      assert overrides[..i + 1][..i] == overrides[..i];
    }
    assert overrides[..|overrides|] == overrides;
    out := ListEnvironment(env);
  }

  // ---- the child reads back what was listed ----

  lemma {:induction false} NameOfEntry(name: bytes, value: bytes)
    requires EQUALS !in name
    ensures EQUALS in name + [EQUALS] + value && NameOf(name + [EQUALS] + value) == name
  {
    var entry := name + [EQUALS] + value;
    assert entry[|name|] == EQUALS;
    if name != [] {
      NameOfEntry(name[1..], value);
      assert entry[1..] == name[1..] + [EQUALS] + value;
      assert entry[0] == name[0] && name[0] in name;
    }
  }

  lemma {:induction false} EnvironmentOfBoth(a: seq<bytes>, b: seq<bytes>)
    ensures EnvironmentOf(a + b) == EnvironmentOf(a) + EnvironmentOf(b)
    decreases |b|
  {
    if b == [] {
      assert a + b == a;
    } else {
      EnvironmentOfBoth(a, b[..|b| - 1]);
      assert (a + b)[..|a + b| - 1] == a + b[..|b| - 1];
    }
  }

  lemma OneEntryReads(env: map<bytes, bytes>, name: bytes)
    requires name in env && EQUALS !in name
    ensures EnvironmentOf([Entry(env, name)]) == map[name := env[name]]
  {
    var entry := Entry(env, name);
    NameOfEntry(name, env[name]);
    assert entry[|name| + 1..] == env[name];
    assert EnvironmentOf([entry][..0]) == map[];
  }

  lemma {:induction false} ListingReads(env: map<bytes, bytes>, names: set<bytes>)
    requires names <= env.Keys && forall name | name in names :: EQUALS !in name
    ensures EnvironmentOf(Listing(env, names)) == map name | name in names :: env[name]
    decreases |names|
  {
    if names != {} {
      var first := First(names);
      ListingReads(env, names - {first});
      OneEntryReads(env, first);
      EnvironmentOfBoth([Entry(env, first)], Listing(env, names - {first}));
    }
  }

  lemma {:induction false} OverlayNames(parent: map<bytes, bytes>, overrides: seq<EnvVar>, name: bytes)
    ensures name in Overlay(parent, overrides)
            <==> name in parent || exists i :: 0 <= i < |overrides| && overrides[i].name == name
    decreases |overrides|
  {
    if overrides != [] {
      OverlayNames(parent, overrides[..|overrides| - 1], name);
      if i :| 0 <= i < |overrides| && overrides[i].name == name {
        assert i < |overrides| - 1 ==> overrides[..|overrides| - 1][i].name == name;
      }
    }
  }

  // ---- what the child is given are C strings ----

  const NUL: byte := 0

  /** A string as it is read from where it starts in memory: up to the first NUL. */
  function CString(s: bytes): (r: bytes)
    ensures NUL !in r && r <= s && (r == s <==> NUL !in s)
  {
    if s == [] || s[0] == NUL then [] else [s[0]] + CString(s[1..])
  }

  function CStrings(entries: seq<bytes>): (r: seq<bytes>)
    ensures |r| == |entries| && forall i | 0 <= i < |r| :: r[i] == CString(entries[i])
  {
    if entries == [] then [] else CStrings(entries[..|entries| - 1]) + [CString(entries[|entries| - 1])]
  }

  ghost predicate NulFree(entries: seq<bytes>) {
    forall i | 0 <= i < |entries| :: NUL !in entries[i]
  }

  /** What is read from C strings has no NUL in it anywhere. */
  lemma {:induction false} ReadsNoNul(entries: seq<bytes>, name: bytes)
    requires NulFree(entries) && name in EnvironmentOf(entries)
    ensures NUL !in name && NUL !in EnvironmentOf(entries)[name]
  {
    var front, last := entries[..|entries| - 1], entries[|entries| - 1];
    if EQUALS in last && name == NameOf(last) {
      assert name == last[..|name|];
    } else {
      ReadsNoNul(front, name);
    }
  }

  // ---- which override counts ----

  /** No later override has the name. */
  predicate IsLast(overrides: seq<EnvVar>, i: nat) {
    i < |overrides| && forall j | i < j < |overrides| :: overrides[j].name != overrides[i].name
  }

  lemma {:induction false} LastOverrideCounts(parent: map<bytes, bytes>, overrides: seq<EnvVar>, i: nat)
    requires IsLast(overrides, i)
    ensures overrides[i].name in Overlay(parent, overrides)
    ensures Overlay(parent, overrides)[overrides[i].name] == overrides[i].value
    decreases |overrides|
  {
    var front := overrides[..|overrides| - 1];
    if i < |front| {
      assert overrides[|overrides| - 1].name != overrides[i].name;
      LastOverrideCounts(parent, front, i);
    }
  }

  /** A name in the overlay has the parent's value, or that of the last override with the name. */
  lemma {:induction false} OverlayComesFrom(parent: map<bytes, bytes>, overrides: seq<EnvVar>, name: bytes)
    requires name in Overlay(parent, overrides)
    ensures var value := Overlay(parent, overrides)[name];
            || (name in parent && parent[name] == value)
            || exists i: nat :: IsLast(overrides, i) && overrides[i].name == name && overrides[i].value == value
    decreases |overrides|
  {
    if overrides != [] {
      var front, n := overrides[..|overrides| - 1], |overrides| - 1;
      if overrides[n].name == name {
        assert IsLast(overrides, n);
      } else {
        OverlayComesFrom(parent, front, name);
        if i: nat :| IsLast(front, i) && front[i].name == name && front[i].value == Overlay(parent, front)[name] {
          assert IsLast(overrides, i);
        }
      }
    }
  }

  /** Each name without '=' and NUL, and the value that counts for it without NUL. */
  ghost predicate Passable(overrides: seq<EnvVar>) {
    forall i: nat | i < |overrides| ::
      && EQUALS !in overrides[i].name && NUL !in overrides[i].name
      && (IsLast(overrides, i) ==> NUL !in overrides[i].value)
  }

  lemma NothingIsCut(env: map<bytes, bytes>, names: set<bytes>)
    requires names <= env.Keys && forall name | name in names :: NUL !in name && NUL !in env[name]
    ensures NulFree(Listing(env, names))
    decreases |names|
  {
    if names != {} {
      var first := First(names);
      NothingIsCut(env, names - {first});
      assert NUL !in Entry(env, first);
    }
  }

  lemma NulFreeStays(entries: seq<bytes>)
    requires NulFree(entries)
    ensures CStrings(entries) == entries
  {
  }

  lemma PassableIsSeen(entries: seq<bytes>, overrides: seq<EnvVar>)
    requires NulFree(entries) && Passable(overrides)
    ensures var env := Overlay(EnvironmentOf(entries), overrides);
            EnvironmentOf(CStrings(Listing(env, env.Keys))) == env
  {
    var parent := EnvironmentOf(entries);
    var env := Overlay(parent, overrides);
    forall name | name in env
      ensures EQUALS !in name && NUL !in name && NUL !in env[name]
    {
      OverlayComesFrom(parent, overrides, name);
      if name in parent {
        ReadsNoNul(entries, name);
      }
    }
    NothingIsCut(env, env.Keys);
    NulFreeStays(Listing(env, env.Keys));
    ListingReads(env, env.Keys);
  }

  lemma SeenIsPassable(parent: map<bytes, bytes>, overrides: seq<EnvVar>, listed: seq<bytes>)
    requires EnvironmentOf(CStrings(listed)) == Overlay(parent, overrides)
    ensures Passable(overrides)
  {
    forall i: nat | i < |overrides|
      ensures EQUALS !in overrides[i].name && NUL !in overrides[i].name
      ensures IsLast(overrides, i) ==> NUL !in overrides[i].value
    {
      OverlayNames(parent, overrides, overrides[i].name);
      ReadsNoNul(CStrings(listed), overrides[i].name);
      if IsLast(overrides, i) {
        LastOverrideCounts(parent, overrides, i);
      }
    }
  }

  /** A child that reads its environment as the parent does gets the parent's with the overrides on top,
      if and only if no override has an '=' or a NUL in its name, and none that counts has a NUL in its
      value. What the parent reads are C strings too. */
  lemma ChildSeesOverlayExactly(entries: seq<bytes>, overrides: seq<EnvVar>)
    requires NulFree(entries)
    ensures var env := Overlay(EnvironmentOf(entries), overrides);
            EnvironmentOf(CStrings(Listing(env, env.Keys))) == env <==> Passable(overrides)
  {
    var env := Overlay(EnvironmentOf(entries), overrides);
    if Passable(overrides) {
      PassableIsSeen(entries, overrides);
    } else if EnvironmentOf(CStrings(Listing(env, env.Keys))) == env {
      SeenIsPassable(EnvironmentOf(entries), overrides, Listing(env, env.Keys));
    }
  }

  lemma {:induction false} CleanHasNoNul(s: bytes)
    requires Utf8.Clean(s)
    ensures NUL !in s
  {
    if s != [] {
      var n := Utf8.Extra(s[0]) + 1;
      CleanHasNoNul(s[n..]);
      assert forall k | 1 <= k < n :: Utf8.IsContinuation(s[k]);
      assert s[0] != NUL by {
        Utf8.FrontIsEncoded(s);
      }
      assert forall k | 0 <= k < |s| :: if k < n then s[k] != NUL else s[k] == s[n..][k - n];
    }
  }

  /** So the process of a descriptor that may be launched sees its overrides, in order, over the
      parent's environment. */
  lemma LaunchedSeesOverlay(entries: seq<bytes>, d: Descriptor)
    requires NulFree(entries) && Valid(d)
    ensures var env := Overlay(EnvironmentOf(entries), d.env); EnvironmentOf(CStrings(Listing(env, env.Keys))) == env
  {
    forall i: nat | i < |d.env|
      ensures EQUALS !in d.env[i].name && NUL !in d.env[i].name && NUL !in d.env[i].value
    {
      assert ValidVar(d.env[i]);
      CleanHasNoNul(d.env[i].name);
      CleanHasNoNul(d.env[i].value);
    }
    ChildSeesOverlayExactly(entries, d.env);
  }
}
